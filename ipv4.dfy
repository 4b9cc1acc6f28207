/** A concrete address parser: the `IPv4address` rule of section 3.2.2 of
    RFC 3986, four dec-octets separated by dots. It stands for the IPv4
    part of Go's `net.ParseIP`; literals of the other family are not
    recognised here. */
module IPv4 {
  import opened Wrappers
  import opened Strings
  import opened Numerals

  type Octet = n: nat | n < 256

  datatype Address = Address(a: Octet, b: Octet, c: Octet, d: Octet)

  /** `dec-octet = DIGIT / %x31-39 DIGIT / "1" 2DIGIT / "2" %x30-34 DIGIT
      / "25" %x30-35` */
  predicate IsDecOctet(s: string) {
    (|s| == 1 && IsDigit(s[0]))
    || (|s| == 2 && '1' <= s[0] <= '9' && IsDigit(s[1]))
    || (|s| == 3 && s[0] == '1' && IsDigit(s[1]) && IsDigit(s[2]))
    || (|s| == 3 && s[0] == '2' && '0' <= s[1] <= '4' && IsDigit(s[2]))
    || (|s| == 3 && s[0] == '2' && s[1] == '5' && '0' <= s[2] <= '5')
  }

  lemma ValueOfThree(s: string)
    requires |s| == 3 && AllDigits(s)
    ensures Value(s) == 100 * DigitValue(s[0]) + 10 * DigitValue(s[1]) + DigitValue(s[2])
  {
    var p := s[..2];
    assert p[..1] == s[..1] && p[1] == s[1];
    ValueOfTwo(p);
  }

  lemma ValueOfTwo(s: string)
    requires |s| == 2 && AllDigits(s)
    ensures Value(s) == 10 * DigitValue(s[0]) + DigitValue(s[1])
  {
    var p := s[..1];
    assert p[..0] == [];
    assert Value(p) == DigitValue(s[0]);
  }

  /** The grammar's alternatives say exactly: a canonical numeral of at
      most three digits whose value fits in one byte. */
  lemma DecOctetIsCanonicalByte(s: string)
    ensures IsDecOctet(s) <==> IsCanonical(s) && |s| <= 3 && Value(s) < 256
  {
    if |s| == 1 && IsDigit(s[0]) {
      assert s[..0] == [];
    } else if |s| == 2 && AllDigits(s) {
      ValueOfTwo(s);
    } else if |s| == 3 && AllDigits(s) {
      ValueOfThree(s);
    }
  }

  /** The byte a dec-octet denotes. */
  function OctetValue(s: string): (o: Octet)
    requires IsDecOctet(s)
    ensures NatToDigits(o) == s
  {
    DecOctetIsCanonicalByte(s);
    NatToDigitsValue(s);
    Value(s)
  }

  /** `Some` address exactly when `s` is an `IPv4address`. */
  function Parse(s: string): (r: Option<Address>)
    ensures r.Some? ==> |Split(s, '.')| == 4
    ensures r.Some? ==> forall i :: 0 <= i < 4 ==> Split(s, '.')[i] == Octets(r.value)[i]
  {
    var parts := Split(s, '.');
    if |parts| == 4 && IsDecOctet(parts[0]) && IsDecOctet(parts[1])
       && IsDecOctet(parts[2]) && IsDecOctet(parts[3])
    then Some(Address(OctetValue(parts[0]), OctetValue(parts[1]),
                      OctetValue(parts[2]), OctetValue(parts[3])))
    else None
  }

  function Octets(a: Address): seq<string> {
    [NatToDigits(a.a), NatToDigits(a.b), NatToDigits(a.c), NatToDigits(a.d)]
  }

  /** Dotted-decimal text of an address, without leading zeros. */
  function Format(a: Address): string {
    Join(Octets(a), '.')
  }

  lemma FormattedOctetIsDecOctet(o: Octet)
    ensures IsDecOctet(NatToDigits(o)) && '.' !in NatToDigits(o)
  {
    DecOctetIsCanonicalByte(NatToDigits(o));
    assert IsDigit(NatToDigits(o)[0]);
  }

  /** Every address is read back from its dotted-decimal text. */
  lemma ParseFormat(a: Address)
    ensures Parse(Format(a)) == Some(a)
  {
    FormattedOctetIsDecOctet(a.a);
    FormattedOctetIsDecOctet(a.b);
    FormattedOctetIsDecOctet(a.c);
    FormattedOctetIsDecOctet(a.d);
    SplitJoin(Octets(a), '.');
    NatToDigitsValue(NatToDigits(a.a));
    NatToDigitsValue(NatToDigits(a.b));
    NatToDigitsValue(NatToDigits(a.c));
    NatToDigitsValue(NatToDigits(a.d));
  }

  /** Only the canonical text of an address is accepted: whatever parses
      is the formatting of what it parses to. */
  lemma FormatParse(s: string)
    requires Parse(s).Some?
    ensures Format(Parse(s).value) == s
  {
    var parts := Split(s, '.');
    JoinSplit(s, '.');
    assert Octets(Parse(s).value) == parts;
  }

  /** Text that is accepted consists of digits and dots only. */
  lemma ParsedIsDigitsAndDots(s: string)
    requires Parse(s).Some?
    ensures forall k :: 0 <= k < |s| ==> IsDigit(s[k]) || s[k] == '.'
  {
    var a := Parse(s).value;
    FormatParse(s);
    var os := Octets(a);
    forall i | 0 <= i < 4 ensures AllDigits(os[i]) {
    }
    assert Join(os[3..], '.') == os[3];
    assert Join(os[2..], '.') == os[2] + ['.'] + os[3];
    assert Join(os[1..], '.') == os[1] + ['.'] + Join(os[2..], '.');
    assert s == os[0] + ['.'] + Join(os[1..], '.');
  }

  /** So a token with white space anywhere in it is rejected, and an
      accepted token is left alone by `TrimSpace`. */
  lemma ParsedHasNoSpace(s: string)
    requires Parse(s).Some?
    ensures forall k :: 0 <= k < |s| ==> !IsSpace(s[k])
    ensures TrimSpace(s) == s
  {
    ParsedIsDigitsAndDots(s);
  }
}

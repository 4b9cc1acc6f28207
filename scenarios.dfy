/** The lookups of the repository's tests, with the IPv4 parser standing
    for `net.ParseIP`. Each states what the modelled code returns.
    The lemmas about particular outputs take the literal text as a parameter
    fixed by their `requires` (`requires t == "8.8.8.8"`), rather than
    mentioning the literal in the `ensures`: the solver then treats the text
    as an unknown with one equation, instead of unfolding every function on
    a constant string, and the proofs stay quick and stable. */
module Scenarios {
  import opened Wrappers
  import opened Strings
  import opened Numerals
  import IPv4
  import opened CommandSource

  lemma JoinFour(w: string, x: string, y: string, z: string, sep: char)
    ensures Join([w, x, y, z], sep) == w + [sep] + x + [sep] + y + [sep] + z
  {
    var ts := [w, x, y, z];
    assert ts[1..] == [x, y, z] && ts[1..][1..] == [y, z] && ts[1..][1..][1..] == [z];
    assert Join([y, z], sep) == y + [sep] + z;
    assert Join([x, y, z], sep) == x + [sep] + (y + [sep] + z);
  }

  /** `d.d.d.d` for a one-digit `d` is the address `d.d.d.d`, and needs no
      trimming. */
  lemma ParseRepeatedDigit(n: IPv4.Octet)
    requires n < 10
    ensures var d := DigitChar(n);
      IPv4.Parse([d, '.', d, '.', d, '.', d]) == Some(IPv4.Address(n, n, n, n)) &&
      TrimSpace([d, '.', d, '.', d, '.', d]) == [d, '.', d, '.', d, '.', d]
  {
    var a := IPv4.Address(n, n, n, n);
    var d := DigitChar(n);
    JoinFour([d], [d], [d], [d], '.');
    assert IPv4.Format(a) == [d, '.', d, '.', d, '.', d];
    IPv4.ParseFormat(a);
    IPv4.ParsedHasNoSpace(IPv4.Format(a));
  }

  /** Output of two comma-separated tokens parses as the two addresses. */
  lemma {:induction false} ParseTwoTokens<A>(x: string, y: string, parse: string -> Option<A>, a: A, b: A)
    requires ',' !in x && ',' !in y
    requires parse(TrimSpace(x)) == Some(a) && parse(TrimSpace(y)) == Some(b)
    ensures ParseOutput(x + "," + y, parse) == Ok([a, b])
  {
    SplitAppend(x, ',', y);
    SplitNoSeparator(x, ',');
    SplitNoSeparator(y, ',');
    ParseTokensAllParse([x, y], parse, [a, b]);
  }

  lemma ParseEights(t: string)
    requires t == "8.8.8.8"
    ensures IPv4.Parse(TrimSpace(t)) == Some(IPv4.Address(8, 8, 8, 8))
  {
    ParseRepeatedDigit(8);
  }

  lemma ParseEightsPadded(t: string)
    requires t == " 8.8.8.8 "
    ensures IPv4.Parse(TrimSpace(t)) == Some(IPv4.Address(8, 8, 8, 8))
  {
    ParseRepeatedDigit(8);
    assert t == " " + "8.8.8.8" + " ";
    TrimSpacePadding(" ", "8.8.8.8", " ");
  }

  lemma ParseOnesPadded(t: string)
    requires t == " 1.1.1.1 \n"
    ensures IPv4.Parse(TrimSpace(t)) == Some(IPv4.Address(1, 1, 1, 1))
  {
    ParseRepeatedDigit(1);
    assert t == " " + "1.1.1.1" + " \n";
    TrimSpacePadding(" ", "1.1.1.1", " \n");
  }

  lemma ParseOnesNewline(t: string)
    requires t == "1.1.1.1\n"
    ensures IPv4.Parse(TrimSpace(t)) == Some(IPv4.Address(1, 1, 1, 1))
  {
    ParseRepeatedDigit(1);
    assert "1.1.1.1\n" == [] + "1.1.1.1" + "\n";
    TrimSpacePadding([], "1.1.1.1", "\n");
  }

  /** `echo 8.8.8.8,1.1.1.1` prints a trailing newline; both addresses
      come back, in order. */
  lemma EchoTwoAddresses(x: string, y: string)
    requires x == "8.8.8.8" && y == "1.1.1.1\n"
    ensures ParseOutput(x + "," + y, IPv4.Parse)
         == Ok([IPv4.Address(8, 8, 8, 8), IPv4.Address(1, 1, 1, 1)])
  {
    ParseEights(x);
    ParseOnesNewline(y);
    ParseTwoTokens(x, y, IPv4.Parse, IPv4.Address(8, 8, 8, 8), IPv4.Address(1, 1, 1, 1));
  }

  /** Padded with blanks on both sides, as in ` 8.8.8.8 , 1.1.1.1 `,
      the same two addresses come back. */
  lemma PaddedTwoAddresses(x: string, y: string)
    requires x == " 8.8.8.8 " && y == " 1.1.1.1 \n"
    ensures ParseOutput(x + "," + y, IPv4.Parse)
         == Ok([IPv4.Address(8, 8, 8, 8), IPv4.Address(1, 1, 1, 1)])
  {
    ParseEightsPadded(x);
    ParseOnesPadded(y);
    ParseTwoTokens(x, y, IPv4.Parse, IPv4.Address(8, 8, 8, 8), IPv4.Address(1, 1, 1, 1));
  }

  /** A token that starts with neither a digit nor a dot is no address. */
  lemma LetterIsNoAddress(t: string)
    requires t != [] && !Numerals.IsDigit(t[0]) && t[0] != '.'
    ensures IPv4.Parse(t) == None
  {
    if IPv4.Parse(t).Some? {
      IPv4.ParsedIsDigitsAndDots(t);
    }
  }

  lemma TrimInvalid()
    ensures TrimSpace("invalid-ip\n") == "invalid-ip"
  {
    var t := "invalid-ip";
    assert TrimLeft(t) == t;
    assert TrimRight(t) == t;
    assert "invalid-ip\n" == [] + t + "\n";
    TrimSpacePadding([], t, "\n");
  }

  lemma InvalidDoesNotParse(t: string)
    requires t == "invalid-ip\n"
    ensures IPv4.Parse(TrimSpace(t)) == None
  {
    TrimInvalid();
    LetterIsNoAddress("invalid-ip");
  }

  /** `echo invalid-ip`: the error names the token as printed, newline
      included. */
  lemma EchoInvalid(stdout: string)
    requires stdout == "invalid-ip\n"
    ensures ParseOutput(stdout, IPv4.Parse) == Err(InvalidIP("invalid-ip\n"))
  {
    InvalidDoesNotParse(stdout);
    assert ',' !in stdout;
    SplitNoSeparator(stdout, ',');
    ParseTokensFirstFailure([stdout], IPv4.Parse, 0);
  }

  /** Output of a good token and a bad one fails on the bad one. */
  lemma {:induction false} GoodThenBad<A>(x: string, y: string, parse: string -> Option<A>)
    requires ',' !in x && ',' !in y
    requires parse(TrimSpace(x)).Some? && parse(TrimSpace(y)).None?
    ensures ParseOutput(x + "," + y, parse) == Err(InvalidIP(y))
  {
    SplitAppend(x, ',', y);
    SplitNoSeparator(x, ',');
    SplitNoSeparator(y, ',');
    assert IsFirstFailure([x, y], parse, 1);
    ParseTokensFirstFailure([x, y], parse, 1);
  }

  /** A bad token after a good one still fails the whole lookup. */
  lemma GoodThenInvalid(x: string, y: string)
    requires x == "8.8.8.8" && y == "invalid-ip\n"
    ensures ParseOutput(x + "," + y, IPv4.Parse) == Err(InvalidIP(y))
  {
    ParseEights(x);
    InvalidDoesNotParse(y);
    GoodThenBad(x, y, IPv4.Parse);
  }

  /** `echo ""` prints only a newline, and that is an error, not an empty
      list. */
  lemma EchoNothing(stdout: string)
    requires AllSpace(stdout)
    ensures ParseOutput(stdout, IPv4.Parse) == Err(InvalidIP(stdout))
  {
    assert Split([], '.') == [[]];
    ParseOutputAllSpace(stdout, IPv4.Parse);
  }

  /** The Caddyfile lines of the tests. */
  lemma CaddyfileLines()
    ensures ApplyDirectives([Line("command", ["echo", "hello"])], "", [])
         == Unmarshalled("echo", ["hello"], None)
    ensures ApplyDirectives([Line("command", ["curl", "-s", "https://example.com/ip"])], "", [])
         == Unmarshalled("curl", ["-s", "https://example.com/ip"], None)
    ensures ApplyDirectives([Line("command", ["date"])], "", [])
         == Unmarshalled("date", [], None)
    ensures ApplyDirectives([Line("command", [])], "", []).err == Some(ArgErr("command"))
  {
  }

  /** A caller of `GetIPs`: a program that cannot be started, and one that
      exits cleanly but writes to standard error, give no addresses. */
  method FailingLookups(replace: string -> string)
    returns (missing: Result<seq<IPv4.Address>, Error>, warned: Result<seq<IPv4.Address>, Error>)
    ensures missing == Err(RunFailed("executable file not found"))
    ensures warned == Err(ExitedWith("nonexistent-command-that-should-fail", 0))
  {
    var c := new Command("nonexistent-command-that-should-fail", [], "", 0);
    c.Provision();
    var notFound := (i: Invocation) => RunOutcome(Some("executable file not found"), -1, "", "");
    missing := c.GetIPs(IPVersions(None, None), replace, notFound, IPv4.Parse);

    var warns := (i: Invocation) => RunOutcome(None, 0, "8.8.8.8", "warning");
    warned := c.GetIPs(IPVersions(None, None), replace, warns, IPv4.Parse);
  }
}

/** The two functions of Go's `strings` package that the command source
    relies on: `TrimSpace` and `Split` (with `Join`, its inverse). */
module Strings {

  /** White space as `strings.TrimSpace` sees it within ASCII:
      ' ', '\t', '\n', '\v', '\f' and '\r'. */
  predicate IsSpace(c: char) {
    c == ' ' || ('\t' <= c <= '\r')
  }

  predicate AllSpace(s: string) {
    forall k :: 0 <= k < |s| ==> IsSpace(s[k])
  }

  /** `s` without its leading white space. */
  function TrimLeft(s: string): string {
    if s != [] && IsSpace(s[0]) then TrimLeft(s[1..]) else s
  }

  /** `TrimLeft(s)` is a suffix of `s`, all of whose dropped characters are
      white space, and it does not start with white space. */
  lemma {:induction false} TrimLeftSpec(s: string)
    ensures var r := TrimLeft(s);
      |r| <= |s| && r == s[|s| - |r|..] && AllSpace(s[..|s| - |r|]) &&
      (r != [] ==> !IsSpace(r[0]))
  {
    if s != [] && IsSpace(s[0]) {
      var p := s[1..];
      TrimLeftSpec(p);
      var r := TrimLeft(p);
      assert r == s[|s| - |r|..];
      assert s[..|s| - |r|] == [s[0]] + p[..|p| - |r|];
    } else {
      assert s[..0] == [];
    }
  }

  /** `s` without its trailing white space. */
  function TrimRight(s: string): string {
    if s != [] && IsSpace(s[|s| - 1]) then TrimRight(s[..|s| - 1]) else s
  }

  /** `TrimRight(s)` is a prefix of `s`, all of whose dropped characters
      are white space, and it does not end with white space. */
  lemma {:induction false} TrimRightSpec(s: string)
    ensures var r := TrimRight(s);
      |r| <= |s| && r == s[..|r|] && AllSpace(s[|r|..]) &&
      (r != [] ==> !IsSpace(r[|r| - 1]))
  {
    if s != [] && IsSpace(s[|s| - 1]) {
      var p := s[..|s| - 1];
      TrimRightSpec(p);
      var r := TrimRight(p);
      assert r == s[..|r|];
      assert s[|r|..] == p[|r|..] + [s[|s| - 1]];
    } else {
      assert s[|s|..] == [];
    }
  }

  /** Go's `strings.TrimSpace`: white space removed from both ends. */
  function TrimSpace(s: string): (r: string)
    ensures |r| <= |s|
    ensures r != [] ==> !IsSpace(r[0]) && !IsSpace(r[|r| - 1])
    ensures r == [] <==> AllSpace(s)
  {
    var l := TrimLeft(s);
    TrimLeftSpec(s);
    TrimRightSpec(l);
    assert l == [] ==> AllSpace(s) by {
      if l == [] { assert s[..|s|] == s; }
    }
    TrimRight(l)
  }

  lemma {:induction false} TrimLeftSpacePrefix(p: string, s: string)
    requires AllSpace(p)
    ensures TrimLeft(p + s) == TrimLeft(s)
    decreases |p|
  {
    if p != [] {
      assert (p + s)[1..] == p[1..] + s;
      TrimLeftSpacePrefix(p[1..], s);
    } else {
      assert p + s == s;
    }
  }

  lemma {:induction false} TrimRightSpaceSuffix(s: string, q: string)
    requires AllSpace(q)
    ensures TrimRight(s + q) == TrimRight(s)
    decreases |q|
  {
    if q != [] {
      assert (s + q)[..|s + q| - 1] == s + q[..|q| - 1];
      TrimRightSpaceSuffix(s, q[..|q| - 1]);
    } else {
      assert s + q == s;
    }
  }

  lemma {:induction false} TrimLeftAppend(s: string, q: string)
    requires TrimLeft(s) != []
    ensures TrimLeft(s + q) == TrimLeft(s) + q
    decreases |s|
  {
    if IsSpace(s[0]) {
      assert (s + q)[1..] == s[1..] + q;
      TrimLeftAppend(s[1..], q);
    }
  }

  /** White space put around a token does not change what `TrimSpace`
      makes of it. */
  lemma TrimSpacePadding(p: string, s: string, q: string)
    requires AllSpace(p) && AllSpace(q)
    ensures TrimSpace(p + s + q) == TrimSpace(s)
  {
    assert p + s + q == p + (s + q);
    TrimLeftSpacePrefix(p, s + q);
    if TrimLeft(s) != [] {
      TrimLeftAppend(s, q);
      TrimRightSpaceSuffix(TrimLeft(s), q);
    } else {
      TrimLeftSpec(s);
      assert AllSpace(s);
      assert AllSpace(s + q);
      assert TrimSpace(s + q) == [];
    }
  }

  /** Trimming twice is trimming once. */
  lemma TrimSpaceIdempotent(s: string)
    ensures TrimSpace(TrimSpace(s)) == TrimSpace(s)
  {
  }

  /** Number of occurrences of `c` in `s`. */
  function Count(s: string, c: char): nat {
    if s == [] then 0 else (if s[0] == c then 1 else 0) + Count(s[1..], c)
  }

  /** Go's `strings.Split(s, string(sep))`: the pieces of `s` between
      occurrences of `sep`; one more piece than there are separators, and
      no piece holds the separator. */
  function Split(s: string, sep: char): (r: seq<string>)
    ensures |r| == Count(s, sep) + 1
    ensures forall i :: 0 <= i < |r| ==> sep !in r[i]
  {
    if s == [] then [[]]
    else
      var rest := Split(s[1..], sep);
      if s[0] == sep then [[]] + rest
      else [[s[0]] + rest[0]] + rest[1..]
  }

  /** Go's `strings.Join(ts, string(sep))`. */
  function Join(ts: seq<string>, sep: char): string {
    if |ts| == 0 then []
    else if |ts| == 1 then ts[0]
    else ts[0] + [sep] + Join(ts[1..], sep)
  }

  /** Joining the pieces gives back the split string. */
  lemma {:induction false} JoinSplit(s: string, sep: char)
    ensures Join(Split(s, sep), sep) == s
  {
    if s != [] {
      var rest := Split(s[1..], sep);
      JoinSplit(s[1..], sep);
      if s[0] == sep {
        assert ([[]] + rest)[1..] == rest;
      } else {
        if |rest| > 1 {
          assert ([[s[0]] + rest[0]] + rest[1..])[1..] == rest[1..];
          assert Join(rest, sep) == rest[0] + [sep] + Join(rest[1..], sep);
          assert [s[0]] + s[1..] == s;
        } else {
          assert [s[0]] + s[1..] == s;
        }
      }
    }
  }

  lemma {:induction false} SplitNoSeparator(t: string, sep: char)
    requires sep !in t
    ensures Split(t, sep) == [t]
  {
    if t != [] {
      assert sep !in t[1..];
      SplitNoSeparator(t[1..], sep);
      assert [t[0]] + t[1..] == t;
    }
  }

  /** The pieces of `[c] + t`, given the pieces `u` of `t`. */
  function PrependToPieces(c: char, u: seq<string>, sep: char): seq<string>
    requires |u| >= 1
  {
    if c == sep then [[]] + u else [[c] + u[0]] + u[1..]
  }

  /** How `Split` treats the first character of a non-empty string. */
  lemma {:induction false} SplitCons(c: char, t: string, sep: char)
    ensures Split([c] + t, sep) == PrependToPieces(c, Split(t, sep), sep)
  {
    assert ([c] + t)[1..] == t;
  }

  /** A separator in the middle splits into the pieces of each side. */
  lemma {:induction false} SplitAppend(a: string, sep: char, b: string)
    ensures Split(a + [sep] + b, sep) == Split(a, sep) + Split(b, sep)
    decreases |a|
  {
    if a == [] {
      assert a + [sep] + b == [sep] + b;
      SplitCons(sep, b, sep);
    } else {
      var t := a[1..] + [sep] + b;
      assert a + [sep] + b == [a[0]] + t;
      assert a == [a[0]] + a[1..];
      SplitAppend(a[1..], sep, b);
      SplitConsAppend(a[0], Split(a[1..], sep), Split(b, sep), t, a[1..], sep);
    }
  }

  lemma {:induction false} SplitConsAppend(c: char, ra: seq<string>, rb: seq<string>, t: string, u: string, sep: char)
    requires |ra| >= 1
    requires Split(t, sep) == ra + rb && Split(u, sep) == ra
    ensures Split([c] + t, sep) == Split([c] + u, sep) + rb
  {
    SplitCons(c, t, sep);
    SplitCons(c, u, sep);
    if c != sep {
      assert (ra + rb)[0] == ra[0];
      assert (ra + rb)[1..] == ra[1..] + rb;
    }
  }

  /** Text without a separator added at the end extends the last piece. */
  lemma {:induction false} SplitAppendNoSeparator(s: string, q: string, sep: char)
    requires sep !in q
    ensures var t := Split(s, sep);
      Split(s + q, sep) == t[..|t| - 1] + [t[|t| - 1] + q]
  {
    if s == [] {
      assert s + q == q;
      SplitNoSeparator(q, sep);
    } else {
      var c, s' := s[0], s[1..];
      assert s + q == [c] + (s' + q);
      assert s == [c] + s';
      SplitAppendNoSeparator(s', q, sep);
      SplitCons(c, s' + q, sep);
      SplitCons(c, s', sep);
      PrependExtendsLast(c, Split(s', sep), q, sep);
    }
  }

  lemma PrependExtendsLast(c: char, u: seq<string>, q: string, sep: char)
    requires |u| >= 1
    ensures var t := PrependToPieces(c, u, sep);
      PrependToPieces(c, u[..|u| - 1] + [u[|u| - 1] + q], sep) == t[..|t| - 1] + [t[|t| - 1] + q]
  {
    var n := |u|;
    var v := u[..n - 1] + [u[n - 1] + q];
    var t := PrependToPieces(c, u, sep);
    if c == sep {
      assert t[..|t| - 1] == [[]] + u[..n - 1];
    } else if n == 1 {
      assert [c] + (u[0] + q) == ([c] + u[0]) + q;
    } else {
      assert v[0] == u[0];
      assert v[1..] == u[1..n - 1] + [u[n - 1] + q];
      assert t[..|t| - 1] == [[c] + u[0]] + u[1..n - 1];
    }
  }

  /** Splitting a join of separator-free pieces gives back the pieces. */
  lemma {:induction false} SplitJoin(ts: seq<string>, sep: char)
    requires |ts| >= 1
    requires forall i :: 0 <= i < |ts| ==> sep !in ts[i]
    ensures Split(Join(ts, sep), sep) == ts
  {
    SplitNoSeparator(ts[0], sep);
    if |ts| > 1 {
      SplitJoin(ts[1..], sep);
      SplitAppend(ts[0], sep, Join(ts[1..], sep));
      assert [ts[0]] + ts[1..] == ts;
    }
  }
}

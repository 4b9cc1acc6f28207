/** The `Command` IP source: it runs a configured program and reads the
    program's standard output as a comma-separated list of IP addresses.

    The process itself, placeholder replacement and address parsing are
    outside the model; `GetIPs` receives them as functions:
      - `replace` stands for `caddy.NewReplacer().ReplaceAll(_, "")`,
      - `run` for `exec.CommandContext(...).Run()` and what it captured,
      - `parse` for `net.ParseIP` (module IPv4 gives one concrete parser). */
module CommandSource {
  import opened Wrappers
  import opened Strings
  import opened Numerals

  /** Go's `int64`; a `caddy.Duration` is a count of nanoseconds in one. */
  newtype Int64 = x: int | -0x8000_0000_0000_0000 <= x < 0x8000_0000_0000_0000

  const Second: Int64 := 1_000_000_000

  /** The timeout `Provision` installs when none is configured. */
  const DefaultTimeout: Int64 := 30 * Second

  /** The errors `GetIPs` returns. */
  datatype Error =
    | RunFailed(cause: string)                    // the error of running the process, passed on as is
    | ExitedWith(command: string, exitCode: int)  // non-zero exit code, or anything on stderr
    | InvalidIP(token: string)                    // a piece of stdout that is not an address

  /** The text of an error, as its `Error()` method gives it. */
  function Message(e: Error): string {
    match e
    case RunFailed(cause) => cause
    case ExitedWith(command, code) => "command " + command + " exited with: " + IntToDecimal(code)
    case InvalidIP(token) => "invalid IP: " + token
  }

  /** The message of a failed parse says "invalid IP" and ends with the token. */
  lemma InvalidIPMessage(token: string)
    ensures Message(InvalidIP(token))[..10] == "invalid IP"
    ensures Message(InvalidIP(token))[12..] == token
  {
  }

  /** The message of a failed exit names the exit code unambiguously. */
  lemma ExitMessageDeterminesCode(command: string, m: int, n: int)
    requires Message(ExitedWith(command, m)) == Message(ExitedWith(command, n))
    ensures m == n
  {
    var prefix := "command " + command + " exited with: ";
    assert Message(ExitedWith(command, m))[|prefix|..] == IntToDecimal(m);
    assert Message(ExitedWith(command, n))[|prefix|..] == IntToDecimal(n);
    IntToDecimalInjective(m, n);
  }

  /** A Caddyfile error: the directive had no argument. */
  datatype ConfigError = ArgErr(directive: string)

  /** One line of a Caddyfile: the directive token and the tokens after it
      on the same line. */
  datatype Line = Line(directive: string, arguments: seq<string>)

  /** The fields `UnmarshalCaddyfile` sets, and the error it stopped on. */
  datatype Unmarshalled = Unmarshalled(cmd: string, args: seq<string>, err: Option<ConfigError>)

  /** The directives applied in order to the current `cmd` and `args`: each
      line with an argument overwrites both; the first line without one
      stops with an error and leaves what was set before it. */
  function ApplyDirectives(lines: seq<Line>, cmd: string, args: seq<string>): (r: Unmarshalled)
    ensures r.err.None? <==> forall j :: 0 <= j < |lines| ==> lines[j].arguments != []
    ensures r.err.Some? ==> exists j :: 0 <= j < |lines| && lines[j].arguments == []
                                      && r.err.value == ArgErr(lines[j].directive)
    decreases |lines|
  {
    if lines == [] then Unmarshalled(cmd, args, None)
    else if lines[0].arguments == [] then Unmarshalled(cmd, args, Some(ArgErr(lines[0].directive)))
    else ApplyDirectives(lines[1..], lines[0].arguments[0], lines[0].arguments[1..])
  }

  /** Applying two blocks of lines is applying the first, then, if it did
      not fail, the second to what the first set. */
  lemma {:induction false} ApplyDirectivesAppend(l1: seq<Line>, l2: seq<Line>, cmd: string, args: seq<string>)
    ensures var p := ApplyDirectives(l1, cmd, args);
      ApplyDirectives(l1 + l2, cmd, args) == if p.err.Some? then p else ApplyDirectives(l2, p.cmd, p.args)
    decreases |l1|
  {
    if l1 == [] {
      assert l1 + l2 == l2;
    } else {
      assert (l1 + l2)[0] == l1[0];
      assert (l1 + l2)[1..] == l1[1..] + l2;
      if l1[0].arguments != [] {
        ApplyDirectivesAppend(l1[1..], l2, l1[0].arguments[0], l1[0].arguments[1..]);
      }
    }
  }

  /** The error case: the first line without an argument is reported, and
      the fields are those the lines before it set. */
  lemma {:induction false} ApplyDirectivesMissingArgument(lines: seq<Line>, cmd: string, args: seq<string>, k: nat)
    requires k < |lines| && lines[k].arguments == []
    requires forall j :: 0 <= j < k ==> lines[j].arguments != []
    ensures var p := ApplyDirectives(lines[..k], cmd, args);
      p.err == None &&
      ApplyDirectives(lines, cmd, args) == Unmarshalled(p.cmd, p.args, Some(ArgErr(lines[k].directive)))
    decreases k
  {
    if k > 0 {
      assert lines[1..][..k - 1] == lines[1..k];
      assert lines[..k][1..] == lines[1..k];
      ApplyDirectivesMissingArgument(lines[1..], lines[0].arguments[0], lines[0].arguments[1..], k - 1);
    } else {
      assert lines[..0] == [];
    }
  }

  /** Without a missing argument there is no error, and the last line
      decides: `Cmd` is its first argument and `Args` the rest, in order. */
  lemma {:induction false} ApplyDirectivesLastWins(lines: seq<Line>, cmd: string, args: seq<string>)
    requires forall j :: 0 <= j < |lines| ==> lines[j].arguments != []
    ensures var r := ApplyDirectives(lines, cmd, args);
      r.err == None &&
      (lines == [] ==> r.cmd == cmd && r.args == args) &&
      (lines != [] ==> r.cmd == lines[|lines| - 1].arguments[0] && r.args == lines[|lines| - 1].arguments[1..])
    decreases |lines|
  {
    if lines != [] {
      ApplyDirectivesLastWins(lines[1..], lines[0].arguments[0], lines[0].arguments[1..]);
    }
  }

  /** `Provision`'s timeout: a non-positive one becomes 30 seconds, a
      positive one is kept. */
  function ResolveTimeout(t: Int64): (r: Int64)
    ensures r > 0
    ensures t > 0 ==> r == t
    ensures t <= 0 ==> r == 30_000_000_000
  {
    if t <= 0 then DefaultTimeout else t
  }

  /** Provisioning twice is provisioning once. */
  lemma ResolveTimeoutIdempotent(t: Int64)
    ensures ResolveTimeout(ResolveTimeout(t)) == ResolveTimeout(t)
  {
  }

  /** The deadline `GetIPs` puts on the process: the timeout, when it is
      positive. */
  function Deadline(timeout: Int64): (d: Option<Int64>)
    ensures d.Some? <==> timeout > 0
    ensures d.Some? ==> d.value == timeout
  {
    if timeout > 0 then Some(timeout) else None
  }

  /** A provisioned command always runs under a deadline. */
  lemma ProvisionedRunsUnderDeadline(t: Int64)
    ensures Deadline(ResolveTimeout(t)) == Some(ResolveTimeout(t))
  {
  }

  /** Every argument replaced on its own, in place; nothing added or dropped. */
  function Expand(replace: string -> string, args: seq<string>): (r: seq<string>)
    ensures |r| == |args|
    ensures forall i :: 0 <= i < |args| ==> r[i] == replace(args[i])
  {
    if args == [] then [] else [replace(args[0])] + Expand(replace, args[1..])
  }

  /** What the process is started with. */
  datatype Invocation = Invocation(name: string, args: seq<string>, dir: string, deadline: Option<Int64>)

  /** What running it gave: the error `Run` returned (if any), the exit
      code, and the captured standard output and standard error. */
  datatype RunOutcome = RunOutcome(err: Option<string>, exitCode: int, stdout: string, stderr: string)

  /** The address families the caller asks for (unset means enabled).
      `GetIPs` receives them and does not look at them. */
  datatype IPVersions = IPVersions(ipv4: Option<bool>, ipv6: Option<bool>)

  /** The tokens parsed in order, stopping at the first one that does not
      parse once trimmed; the error names that token untrimmed. */
  function ParseTokens<A>(tokens: seq<string>, parse: string -> Option<A>): (r: Result<seq<A>, Error>)
    ensures r.Ok? ==> |r.value| == |tokens|
    ensures r.Err? ==> exists k :: 0 <= k < |tokens| && r.error == InvalidIP(tokens[k])
                                   && parse(TrimSpace(tokens[k])).None?
  {
    if tokens == [] then Ok([])
    else match parse(TrimSpace(tokens[0]))
      case None => Err(InvalidIP(tokens[0]))
      case Some(ip) =>
        match ParseTokens(tokens[1..], parse)
        case Ok(rest) => Ok([ip] + rest)
        case Err(e) => Err(e)
  }

  /** Standard output split on ',' and parsed token by token. */
  function ParseOutput<A>(stdout: string, parse: string -> Option<A>): (r: Result<seq<A>, Error>)
    ensures r.Ok? ==> |r.value| == Count(stdout, ',') + 1
    ensures r.Err? ==> r.error.InvalidIP? && ',' !in r.error.token
  {
    ParseTokens(Split(stdout, ','), parse)
  }

  /** `k` is the first token that does not parse. */
  predicate IsFirstFailure<A>(tokens: seq<string>, parse: string -> Option<A>, k: int) {
    0 <= k < |tokens| && parse(TrimSpace(tokens[k])).None?
    && forall j :: 0 <= j < k ==> parse(TrimSpace(tokens[j])).Some?
  }

  /** When every token parses, the result is all of them, in order. */
  lemma {:induction false} ParseTokensAllParse<A>(tokens: seq<string>, parse: string -> Option<A>, out: seq<A>)
    requires |out| == |tokens|
    requires forall k :: 0 <= k < |tokens| ==> parse(TrimSpace(tokens[k])) == Some(out[k])
    ensures ParseTokens(tokens, parse) == Ok(out)
  {
    if tokens != [] {
      ParseTokensAllParse(tokens[1..], parse, out[1..]);
      assert [out[0]] + out[1..] == out;
    }
  }

  /** The first token that does not parse is the error, whatever follows
      it and however many tokens before it parsed. */
  lemma {:induction false} ParseTokensFirstFailure<A>(tokens: seq<string>, parse: string -> Option<A>, k: int)
    requires IsFirstFailure(tokens, parse, k)
    ensures ParseTokens(tokens, parse) == Err(InvalidIP(tokens[k]))
    decreases k
  {
    if k > 0 {
      assert parse(TrimSpace(tokens[0])).Some?;
      var rest := tokens[1..];
      assert forall j :: 0 <= j < k - 1 ==> rest[j] == tokens[j + 1];
      assert IsFirstFailure(rest, parse, k - 1);
      ParseTokensFirstFailure(rest, parse, k - 1);
    }
  }

  /** A success lists one address per token, each the parse of the
      trimmed token. */
  lemma {:induction false} ParseTokensOk<A>(tokens: seq<string>, parse: string -> Option<A>)
    ensures var r := ParseTokens(tokens, parse);
      r.Ok? ==>
        |r.value| == |tokens| &&
        forall k :: 0 <= k < |tokens| ==> parse(TrimSpace(tokens[k])) == Some(r.value[k])
  {
    if tokens != [] {
      ParseTokensOk(tokens[1..], parse);
      var r := ParseTokens(tokens, parse);
      if r.Ok? {
        forall k | 0 <= k < |tokens|
          ensures parse(TrimSpace(tokens[k])) == Some(r.value[k])
        {
          if k > 0 {
            assert tokens[k] == tokens[1..][k - 1];
          }
        }
      }
    }
  }

  /** A failure is never a partial list: it is always the first token that
      does not parse. */
  lemma ParseTokensErr<A>(tokens: seq<string>, parse: string -> Option<A>)
    ensures var r := ParseTokens(tokens, parse);
      r.Err? ==> exists k :: IsFirstFailure(tokens, parse, k) && r.error == InvalidIP(tokens[k])
  {
    var r := ParseTokens(tokens, parse);
    if r.Err? {
      var k := FirstFailureIndex(tokens, parse);
      ParseTokensFirstFailure(tokens, parse, k);
    }
  }

  /** The position of the first token that does not parse, if any does not. */
  function FirstFailureIndex<A>(tokens: seq<string>, parse: string -> Option<A>): (k: int)
    requires exists k :: 0 <= k < |tokens| && parse(TrimSpace(tokens[k])).None?
    ensures IsFirstFailure(tokens, parse, k)
  {
    if parse(TrimSpace(tokens[0])).None? then 0
    else
      var j := FirstFailureIndex(tokens[1..], parse);
      assert forall i :: 0 < i <= j ==> tokens[i] == tokens[1..][i - 1];
      j + 1
  }

  /** Tokens that trim alike parse alike: white space around a token never
      changes which addresses come out, nor whether any error does. */
  lemma ParseTokensTrimInvariant<A>(t1: seq<string>, t2: seq<string>, parse: string -> Option<A>)
    requires |t1| == |t2|
    requires forall k :: 0 <= k < |t1| ==> TrimSpace(t1[k]) == TrimSpace(t2[k])
    ensures ParseTokens(t1, parse).Ok? <==> ParseTokens(t2, parse).Ok?
    ensures ParseTokens(t1, parse).Ok? ==> ParseTokens(t1, parse) == ParseTokens(t2, parse)
  {
    ParseTokensOk(t1, parse);
    ParseTokensOk(t2, parse);
    if ParseTokens(t1, parse).Ok? {
      ParseTokensAllParse(t2, parse, ParseTokens(t1, parse).value);
    } else if ParseTokens(t2, parse).Ok? {
      ParseTokensAllParse(t1, parse, ParseTokens(t2, parse).value);
    }
  }

  /** Output that is empty or only white space is an error, since its one
      token trims to the empty string, which is not an address. */
  lemma ParseOutputAllSpace<A>(stdout: string, parse: string -> Option<A>)
    requires AllSpace(stdout)
    requires parse([]).None?
    ensures ParseOutput(stdout, parse) == Err(InvalidIP(stdout))
  {
    assert ',' !in stdout;
    SplitNoSeparator(stdout, ',');
  }

  /** Trailing white space, such as the newline `echo` prints, changes
      nothing in a successful parse. */
  lemma ParseOutputTrailingSpace<A>(stdout: string, q: string, parse: string -> Option<A>)
    requires AllSpace(q)
    ensures ParseOutput(stdout + q, parse).Ok? <==> ParseOutput(stdout, parse).Ok?
    ensures ParseOutput(stdout, parse).Ok? ==> ParseOutput(stdout + q, parse) == ParseOutput(stdout, parse)
  {
    assert ',' !in q;
    SplitAppendNoSeparator(stdout, q, ',');
    var t := Split(stdout, ',');
    var t' := Split(stdout + q, ',');
    forall k | 0 <= k < |t| ensures TrimSpace(t'[k]) == TrimSpace(t[k]) {
      if k == |t| - 1 {
        assert t[k] + q == [] + t[k] + q;
        TrimSpacePadding([], t[k], q);
      }
    }
    ParseTokensTrimInvariant(t', t, parse);
  }

  /** The result of a lookup from what running the process gave. */
  function Interpret<A>(name: string, o: RunOutcome, parse: string -> Option<A>): (r: Result<seq<A>, Error>)
    ensures o.err.Some? ==> r == Err(RunFailed(o.err.value))
    ensures o.err.None? && (o.exitCode != 0 || o.stderr != []) ==> r == Err(ExitedWith(name, o.exitCode))
    ensures o.err.None? && o.exitCode == 0 && o.stderr == [] ==> r == ParseOutput(o.stdout, parse)
  {
    if o.err.Some? then Err(RunFailed(o.err.value))
    else if o.exitCode != 0 || |o.stderr| > 0 then Err(ExitedWith(name, o.exitCode))
    else ParseOutput(o.stdout, parse)
  }

  /** A lookup succeeds only for a clean run, with one address per
      comma-separated piece of stdout, in order, and nothing filtered. */
  lemma InterpretOk<A>(name: string, o: RunOutcome, parse: string -> Option<A>)
    ensures var r := Interpret(name, o, parse);
      r.Ok? ==>
        o.err.None? && o.exitCode == 0 && o.stderr == [] &&
        |r.value| == Count(o.stdout, ',') + 1 &&
        forall k :: 0 <= k < |r.value| ==> parse(TrimSpace(Split(o.stdout, ',')[k])) == Some(r.value[k])
  {
    ParseTokensOk(Split(o.stdout, ','), parse);
  }

  /** The IP source as configured. */
  class Command {
    var cmd: string
    var args: seq<string>
    var dir: string
    var timeout: Int64

    constructor (cmd: string, args: seq<string>, dir: string, timeout: Int64)
      ensures this.cmd == cmd && this.args == args && this.dir == dir && this.timeout == timeout
    {
      this.cmd := cmd;
      this.args := args;
      this.dir := dir;
      this.timeout := timeout;
    }

    /** Reads `command <program> <args...>` lines. */
    method UnmarshalCaddyfile(lines: seq<Line>) returns (err: Option<ConfigError>)
      modifies this`cmd, this`args
      ensures var r := ApplyDirectives(lines, old(cmd), old(args));
        cmd == r.cmd && args == r.args && err == r.err
    {
      var i := 0;
      while i < |lines|
        invariant 0 <= i <= |lines|
        invariant ApplyDirectives(lines, old(cmd), old(args)) == ApplyDirectives(lines[i..], cmd, args)
      {
        assert lines[i..][0] == lines[i] && lines[i..][1..] == lines[i + 1..];
        if lines[i].arguments == [] {
          return Some(ArgErr(lines[i].directive));
        }
        cmd := lines[i].arguments[0];
        args := lines[i].arguments[1..];
        i := i + 1;
      }
      return None;
    }

    /** Installs the default timeout when none is configured. */
    method Provision()
      modifies this`timeout
      ensures timeout == ResolveTimeout(old(timeout))
    {
      if timeout <= 0 {
        timeout := 30 * Second;
      }
    }

    /** Runs the command once and reads its output as addresses. Only the
        arguments go through `replace`; the program name is passed as
        configured. */
    method GetIPs<A>(versions: IPVersions, replace: string -> string,
                     run: Invocation -> RunOutcome, parse: string -> Option<A>)
      returns (r: Result<seq<A>, Error>)
      ensures r == Interpret(cmd, run(Invocation(cmd, Expand(replace, args), dir, Deadline(timeout))), parse)
    {
      var expandedArgs := new string[|args|];
      for i := 0 to |args|
        invariant forall k :: 0 <= k < i ==> expandedArgs[k] == replace(args[k])
      {
        expandedArgs[i] := replace(args[i]);
      }
      assert expandedArgs[..] == Expand(replace, args);

      var deadline := None;
      if timeout > 0 {
        deadline := Some(timeout);
      }

      var outcome := run(Invocation(cmd, expandedArgs[..], dir, deadline));
      if outcome.err.Some? {
        return Err(RunFailed(outcome.err.value));
      }

      var exitCode := outcome.exitCode;
      if exitCode != 0 || |outcome.stderr| > 0 {
        return Err(ExitedWith(cmd, exitCode));
      }

      var ipArr := Split(outcome.stdout, ',');
      var out: seq<A> := [];
      for i := 0 to |ipArr|
        invariant |out| == i
        invariant forall k :: 0 <= k < i ==> parse(TrimSpace(ipArr[k])) == Some(out[k])
      {
        var ip := parse(TrimSpace(ipArr[i]));
        if ip.None? {
          ParseTokensFirstFailure(ipArr, parse, i);
          return Err(InvalidIP(ipArr[i]));
        }
        out := out + [ip.value];
      }
      ParseTokensAllParse(ipArr, parse, out);
      return Ok(out);
    }
  }
}

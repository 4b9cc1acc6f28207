# Command IP source for caddy-dynamicdns, modelled in Dafny

The repository adds an IP source to Caddy's dynamic DNS app. The source
`dynamic_dns.ip_sources.command` works out the host's public addresses by
running a configured program. It reads the program's standard output as a
comma-separated list of IP addresses. This project models that source, the
`Command` type of `command.go`, and proves properties of the model. It has
three operations:

- `UnmarshalCaddyfile` reads `command <program> <args...>` lines into the
  `Cmd` and `Args` fields.
- `Provision` installs the default 30-second timeout when the configured
  timeout is 0 or less. The timeout is an int64 count of nanoseconds.
- `GetIPs` does four things in order:
  - expands placeholders in the arguments, but not in the program name;
  - runs the program;
  - turns a run error, a non-zero exit code or any standard-error output
    into an error;
  - otherwise splits standard output on `,`, trims each piece and parses
    it as an address. The first piece that does not parse fails the whole
    lookup.

The files:

- `wrappers.dfy`: `Option` and `Result`.
- `strings.dfy`: `TrimSpace` and `Split`, as in Go's `strings` package, with
  `Join` as the inverse of `Split`.
- `numerals.dfy`: decimal numerals, used for `%d` in error messages and for
  IPv4 octets.
- `ipv4.dfy`: a concrete address parser for the `IPv4address` rule of
  section 3.2.2 of RFC 3986, with its formatter.
- `command.dfy`: the `Command` class and the specification functions its
  methods are proved against: `ApplyDirectives`, `ResolveTimeout`, `Expand`,
  `ParseTokens` and `Interpret`.
- `scenarios.dfy`: the lookups and Caddyfile lines of the repository's
  tests, checked against the model.

`GetIPs` takes these outside pieces as function parameters:

- `replace` stands for `caddy.NewReplacer().ReplaceAll(_, "")`;
- `run` stands for starting the process and collecting its error, exit
  code, standard output and standard error;
- `parse` stands for `net.ParseIP`.

`GetIPs` is generic in the address type. `IPv4.Parse` is one concrete
instance of `parse`.

The model follows `command.go` as written, including where the
repository's tests expect something else:

- Empty or blank output is an error (command.go:137-148): its single piece
  trims to the empty string, which is not an address. The test at
  command_test.go:358-389 expects an empty list instead.
- Any text on standard error fails the lookup, even with exit code 0
  (command.go:126).
- There is no trim of the whole output and no discarding of empty pieces,
  so `8.8.8.8,` fails on the empty last piece.
- `GetIPs` receives the requested address families (`versions`,
  command.go:84) and never reads them. Nothing is filtered by family or by
  address range; the tests at command_test.go:203-285 expect per-family
  filtering.
- A timeout is not a separate error (command.go:120-123): the code passes
  on whatever error running the process returned.

## Model

| member | source | states |
|---|---|---|
| `CommandSource.Command.constructor` | command.go:31-48 | A command holds the fields `Cmd`, `Args`, `Dir` and `Timeout` as given |
| `CommandSource.Command.UnmarshalCaddyfile` | command.go:61-69 | The new `Cmd`, `Args` and returned error are those of `ApplyDirectives` over the lines, starting from the old fields; `Dir` and `Timeout` are not touched |
| `CommandSource.ApplyDirectives` | command.go:62-68 | The directives succeed exactly when every line has an argument; an error names the directive of a line without one |
| `CommandSource.ApplyDirectivesMissingArgument` | command.go:63-65 | The first line without an argument gives the `ArgErr` for that directive; `Cmd`/`Args` stay as the earlier lines set them |
| `CommandSource.ApplyDirectivesLastWins` | command.go:66-67 | With every line having an argument there is no error; `Cmd` is the last line's first argument and `Args` its remaining arguments in order (unchanged for no lines) |
| `CommandSource.ApplyDirectivesAppend` | command.go:62-68 | A later directive overwrites an earlier one: applying `l1 + l2` is applying `l2` to what `l1` left, unless `l1` failed |
| `CommandSource.Command.Provision` | command.go:76-78 | The new timeout is `ResolveTimeout` of the old one; nothing else changes |
| `CommandSource.ResolveTimeout` | command.go:76-78 | A timeout of 0 or less becomes 30 000 000 000 ns; a positive one is kept; the result is always positive |
| `CommandSource.ResolveTimeoutIdempotent` | command.go:76-78 | Provisioning twice gives the same timeout as provisioning once |
| `CommandSource.Deadline` | command.go:100-102 | The process gets a deadline exactly when the timeout is positive, and the deadline is that timeout |
| `CommandSource.ProvisionedRunsUnderDeadline` | command.go:100-102 | After provisioning, every run has a deadline |
| `CommandSource.Expand` | command.go:95-98 | The expanded arguments have the same length as `Args`, and element i is the replacement of `Args[i]` alone |
| `CommandSource.Command.GetIPs` | command.go:84-157 | The result is `Interpret` applied to the run of `Invocation(Cmd, Expand(replace, Args), Dir, Deadline(Timeout))`: the program name is passed unexpanded and the address families are not consulted |
| `CommandSource.Interpret` | command.go:120-135 | A run error is returned as is; otherwise a non-zero exit code or non-empty stderr gives `ExitedWith(Cmd, code)`; only a clean run reaches the parsing of stdout |
| `CommandSource.InterpretOk` | command.go:125-156 | A successful lookup comes from a clean run and lists exactly (commas + 1) addresses, the i-th the parse of the trimmed i-th piece, with nothing filtered |
| `CommandSource.ParseTokens` | command.go:139-155 | A success has one address per token; a failure is `InvalidIP` naming a token, untrimmed, that does not parse once trimmed (which one: `ParseTokensFirstFailure`, `ParseTokensErr`) |
| `CommandSource.ParseOutput` | command.go:137-155 | A success has one address per comma plus one; a failure is `InvalidIP` of a comma-free piece of the output |
| `CommandSource.ParseTokensAllParse` | command.go:139-156 | When every trimmed token parses, the result is all of them in their original order |
| `CommandSource.ParseTokensFirstFailure` | command.go:139-148 | When token k is the first that does not parse, the result is `InvalidIP` naming token k untrimmed, however many tokens before it parsed |
| `CommandSource.ParseTokensOk` | command.go:139-156 | A success has one address per token, each the parse of its trimmed token |
| `CommandSource.ParseTokensErr` | command.go:139-148 | A failure is never a partial list: it is always `InvalidIP` of the first token that does not parse |
| `CommandSource.ParseTokensTrimInvariant` | command.go:140 | Token lists that trim alike either both succeed with the same addresses or both fail |
| `CommandSource.ParseOutputTrailingSpace` | command.go:137-140 | Trailing white space after the output, such as `echo`'s newline, changes neither success nor the addresses |
| `CommandSource.ParseOutputAllSpace` | command.go:137-148 | Empty or blank output is the error `InvalidIP` naming the whole output |
| `CommandSource.InvalidIPMessage` | command.go:147 | The parse error's message starts with "invalid IP" and ends with the untrimmed token |
| `CommandSource.ExitMessageDeterminesCode` | command.go:134 | The exit error's message `command <Cmd> exited with: <code>` determines the exit code |
| `Strings.Split` | command.go:137 | Splitting on `,` gives one more piece than there are commas, and no piece contains a comma |
| `Strings.JoinSplit` | command.go:137 | Joining the pieces with the separator gives back the original text exactly |
| `Strings.SplitJoin` | command.go:137 | Splitting a join of separator-free pieces gives back the pieces |
| `Strings.SplitNoSeparator` | command.go:137 | Text without a separator is a single piece |
| `Strings.SplitAppend` | command.go:137 | A separator between two texts splits into the pieces of the first followed by the pieces of the second |
| `Strings.SplitAppendNoSeparator` | command.go:137 | Appending separator-free text extends only the last piece |
| `Strings.TrimLeftSpec` | command.go:140 | Left trimming drops exactly the leading white space |
| `Strings.TrimRightSpec` | command.go:140 | Right trimming drops exactly the trailing white space |
| `Strings.TrimSpace` | command.go:140 | The trimmed token neither starts nor ends with white space, and it is empty exactly when the token is all white space |
| `Strings.TrimSpacePadding` | command.go:140 | White space added on either side of a token does not change its trimmed form |
| `Strings.TrimSpaceIdempotent` | command.go:140 | Trimming twice is trimming once |
| `Numerals.NatToDigits` | command.go:134 | The `%d` digits of a number form a canonical numeral denoting that number |
| `Numerals.NatToDigitsValue` | command.go:134 | A canonical numeral is the printing of the number it denotes |
| `Numerals.IntToDecimal` | command.go:134 | `%d` of an integer starts with `-` exactly for negatives, followed by the canonical numeral of its magnitude |
| `Numerals.IntToDecimalInjective` | command.go:134 | Different exit codes print differently |
| `IPv4.Parse` | command.go:140 | A parsed address comes from text of four dot-separated pieces, each the printing of the corresponding octet (both directions: `ParseFormat`, `FormatParse`) |
| `IPv4.DecOctetIsCanonicalByte` | command.go:140 | The `dec-octet` alternatives accept exactly the canonical numerals of at most three digits below 256 |
| `IPv4.OctetValue` | command.go:140 | A dec-octet denotes the byte whose printing it is |
| `IPv4.ParseFormat` | command.go:140 | Every IPv4 address parses back from its dotted-decimal text |
| `IPv4.FormatParse` | command.go:140 | Whatever parses is the canonical text of the address it parses to |
| `IPv4.ParsedIsDigitsAndDots` | command.go:140 | Accepted text consists of digits and dots only |
| `IPv4.ParsedHasNoSpace` | command.go:140 | Accepted text has no white space, so trimming leaves it unchanged and untrimmed padding never parses |
| `Scenarios.ParseTwoTokens` | command.go:137-156 | Output `x,y` whose trimmed pieces parse to a and b yields exactly `[a, b]` |
| `Scenarios.GoodThenBad` | command.go:139-148 | Output `x,y` with x parsing and y not fails naming y, with no partial list |
| `Scenarios.EchoTwoAddresses` | command.go:137-156 | `8.8.8.8,1.1.1.1` plus a newline yields both addresses in order |
| `Scenarios.PaddedTwoAddresses` | command_test.go:391-440 | Padded output ` 8.8.8.8 , 1.1.1.1 ` plus a newline yields the same two addresses as unpadded output; the test's second address is IPv6, here an IPv4 one stands in for it |
| `Scenarios.EchoInvalid` | command_test.go:287-316 | `invalid-ip` plus a newline fails with `InvalidIP` naming the token with its newline |
| `Scenarios.GoodThenInvalid` | command.go:139-148 | A valid address followed by `invalid-ip` fails as a whole |
| `Scenarios.EchoNothing` | command_test.go:358-389 | Blank output, such as `echo ""` prints, is an `InvalidIP` error here, not the empty list that test expects |
| `Scenarios.FailingLookups` | command_test.go:318-332 | A provisioned command whose program cannot be started fails with that run error; one that exits with 0 but writes to stderr fails with `ExitedWith(Cmd, 0)` (command.go:126) |
| `Scenarios.CaddyfileLines` | command_test.go:44-66 | The test's Caddyfile lines give `echo`/`[hello]`, `curl`/`[-s, https://example.com/ip]`, `date`/`[]`, and an error for a bare `command` |

## Left out

- Process spawning, the context deadline and its cancellation, and the
  buffering of stdout and stderr (command.go:100-120) are operating-system
  work. `run` is a parameter that maps the invocation to its outcome. The
  model does not say that a run past its deadline is killed.
- The model keeps the run error and the exit code as independent inputs.
  In Go, `Run` returns nil only for a successful exit, so the exit code read
  at command.go:125 is always 0: the `exited with` error arises only from
  text on stderr, and its message always ends in `exited with: 0`. The
  outcomes with no run error and a non-zero code, which the model admits,
  never occur in Go.
- `caddy.NewReplacer().ReplaceAll` (command.go:90, 97) lives outside the
  repository. It is the opaque `replace` parameter.
- `net.ParseIP` is the opaque `parse` parameter. The concrete `IPv4.Parse`
  covers IPv4 dotted decimal only. IPv6 and IPv4-mapped literals are not
  recognised by it, and `net.IP`'s own byte layout and formatting are not
  modelled.
- Strings.TrimSpace: trims ASCII white space only (space, \t, \n, \v, \f,
  \r), not the other Unicode spaces Go also trims. Go works on UTF-8 bytes;
  here strings are sequences of characters.
- The zap logger and its log calls, and the `logger` field that `Provision`
  sets (command.go:74, 113-118, 127-133, 142-154), are not modelled; they
  add nothing to the result.
- `GetIPs` on a `Command` that was never provisioned: its `logger` is nil,
  and the call at command.go:113 on a nil `*zap.Logger` panics before the
  process runs. The model does not capture this panic; its `GetIPs` returns
  a result in that state too, through the no-deadline branch of `Deadline`
  (only an unprovisioned command can reach command.go:100 with a timeout
  of 0 or less).
- `caddyfile.Dispenser` mechanics (blocks, multiple files, the cursor API)
  are not modelled. The input is a sequence of lines, each with its
  directive token and the arguments after it. `ArgErr` carries the
  directive, not the file and line.
- `init`, `RegisterModule`, `CaddyModule` and the interface guards
  (command.go:23-25, 51-56, 160-164) are registration only. `debug/main.go`
  is a binary entry point.
- The test-only expectations are not modelled because they contradict
  `command.go`: the pointer `Timeout`, `IPSettings`, per-family and
  global-unicast filtering, and empty output counted as success.
- `CommandSource.Message` formats errors as `fmt.Errorf` does for `%s`
  and `%d`. It has no postcondition of its own; the two lemmas about it
  above state what the messages carry.

/** Windows command lines: the printer, and Microsoft's parsing rules as its specification. */
module CommandLines {

  /** The encoded line with its final NUL, or the reason for a panic. */
  datatype Outcome = Encoded(line: string) | QuoteInProgramName | InteriorNul

  function Slashes(n: nat): (s: string)
    ensures |s| == n && forall i :: 0 <= i < n ==> s[i] == '\\'
  {
    seq(n, _ => '\\')
  }

  predicate IsBlank(c: char) {
    c == ' ' || c == '\t'
  }

  predicate NeedsQuotes(arg: string) {
    exists c :: c in arg && (c == '"' || IsBlank(c))
  }

  // The printer's output.

  /** The inside of a quoted argument, `n` backslashes having been read but not written. */
  function Body(arg: string, n: nat): string {
    if arg == [] then Slashes(2 * n)
    else if arg[0] == '\\' then Body(arg[1..], n + 1)
    else if arg[0] == '"' then Slashes(2 * n + 1) + ['"'] + Body(arg[1..], 0)
    else Slashes(n) + [arg[0]] + Body(arg[1..], 0)
  }

  function Escaped(arg: string): string {
    if arg == [] then "\"\""
    else if !NeedsQuotes(arg) then arg
    else ['"'] + Body(arg, 0) + ['"']
  }

  function Tail(args: seq<string>): string {
    if args == [] then [] else [' '] + Escaped(args[0]) + Tail(args[1..])
  }

  function CommandLine(args: seq<string>): string
    requires args != []
  {
    ['"'] + args[0] + ['"'] + Tail(args[1..])
  }

  // The printer.

  method WriteBody(cmd: string, arg: string) returns (r: string)
    ensures r == cmd + Body(arg, 0)
  {
    r := cmd;
    var i := 0;
    while true
      invariant 0 <= i <= |arg|
      invariant r + Body(arg[i..], 0) == cmd + Body(arg, 0)
      decreases |arg| - i
    {
      var nslashes := 0;
      while i < |arg| && arg[i] == '\\'
        invariant 0 <= i <= |arg|
        invariant r + Body(arg[i..], nslashes) == cmd + Body(arg, 0)
      {
        assert arg[i..][1..] == arg[i + 1..];
        i := i + 1;
        nslashes := nslashes + 1;
      }
      if i == |arg| {
        r := r + Slashes(2 * nslashes);
        return;
      }
      assert arg[i..][1..] == arg[i + 1..];
      if arg[i] == '"' {
        WriteStep(r, Slashes(nslashes * 2 + 1), '"', Body(arg[i + 1..], 0));
        r := r + Slashes(nslashes * 2 + 1);
      } else {
        WriteStep(r, Slashes(nslashes), arg[i], Body(arg[i + 1..], 0));
        r := r + Slashes(nslashes);
      }
      r := r + [arg[i]];
      i := i + 1;
    }
  }

  lemma WriteStep(r: string, slashes: string, c: char, rest: string)
    ensures r + (slashes + [c] + rest) == r + slashes + [c] + rest
  {
  }

  lemma InQuotes(cmd: string, body: string)
    ensures cmd + ['"'] + body + ['"'] == cmd + (['"'] + body + ['"'])
  {
  }

  method WriteArg(cmd: string, arg: string) returns (r: string)
    ensures r == cmd + Escaped(arg)
  {
    r := cmd;
    if arg == [] {
      r := r + "\"\"";
    } else if !NeedsQuotes(arg) {
      r := r + arg;
    } else {
      r := r + ['"'];
      r := WriteBody(r, arg);
      r := r + ['"'];
      InQuotes(cmd, Body(arg, 0));
    }
  }

  lemma {:induction false} OneMore(cmd: string, arg: string, rest: seq<string>)
    ensures cmd + ([' '] + Escaped(arg) + Tail(rest)) == cmd + [' '] + Escaped(arg) + Tail(rest)
  {
  }

  method CommandString(args: seq<string>) returns (r: Outcome)
    ensures args == [] ==> r == Encoded("\0")
    ensures args != [] && '"' in args[0] ==> r == QuoteInProgramName
    ensures args != [] && '"' !in args[0] ==>
      r == if '\0' in CommandLine(args) then InteriorNul else Encoded(CommandLine(args) + ['\0'])
  {
    if args == [] {
      return Encoded("\0");
    }
    if '"' in args[0] {
      return QuoteInProgramName;
    }
    var cmd := ['"'] + args[0] + ['"'];
    var i := 1;
    assert args[1..] == args[i..];
    while i < |args|
      invariant 1 <= i <= |args|
      invariant cmd + Tail(args[i..]) == CommandLine(args)
    {
      var arg := args[i];
      assert args[i..][1..] == args[i + 1..];
      ghost var before := cmd;
      cmd := WriteArg(cmd + [' '], arg);
      OneMore(before, arg, args[i + 1..]);
      i := i + 1;
    }
    assert cmd == CommandLine(args);
    if '\0' in cmd {
      return InteriorNul;
    }
    return Encoded(cmd + ['\0']);
  }

  lemma {:induction false} BodyNuls(arg: string, n: nat)
    ensures '\0' in Body(arg, n) <==> '\0' in arg
  {
    if arg != [] {
      assert arg == [arg[0]] + arg[1..];
      BodyNuls(arg[1..], if arg[0] == '\\' then n + 1 else 0);
    }
  }

  lemma {:induction false} TailNuls(args: seq<string>)
    ensures '\0' in Tail(args) <==> exists a :: a in args && '\0' in a
  {
    if args != [] {
      assert args == [args[0]] + args[1..];
      BodyNuls(args[0], 0);
      TailNuls(args[1..]);
    }
  }

  lemma NulsShow(args: seq<string>)
    requires args != []
    ensures '\0' in CommandLine(args) <==> exists a :: a in args && '\0' in a
  {
    assert args == [args[0]] + args[1..];
    TailNuls(args[1..]);
  }

  // No more quoting than needed.

  lemma {:induction false} BodyLength(arg: string, n: nat)
    ensures |Body(arg, n)| >= n + |arg|
  {
    if arg != [] {
      BodyLength(arg[1..], if arg[0] == '\\' then n + 1 else 0);
    }
  }

  /** An argument is written as it stands exactly if it is not empty and has no quote, space or tab;
      any other stands in quotes. */
  lemma {:induction false} PlainStaysBare(arg: string)
    ensures Escaped(arg) == arg <==> arg != [] && '"' !in arg && ' ' !in arg && '\t' !in arg
    ensures Escaped(arg) != arg ==> Escaped(arg) == ['"'] + Body(arg, 0) + ['"']
  {
    BodyLength(arg, 0);
  }

  /** In quotes, what has no quote and does not end in a backslash is written as it stands. */
  lemma {:induction false} BlanksStayBare(arg: string, n: nat)
    requires '"' !in arg && arg != [] && arg[|arg| - 1] != '\\'
    ensures Body(arg, n) == Slashes(n) + arg
    decreases |arg|
  {
    assert arg == [arg[0]] + arg[1..];
    if |arg| > 1 {
      BlanksStayBare(arg[1..], if arg[0] == '\\' then n + 1 else 0);
    }
  }

  lemma {:induction false} TailGrows(args: seq<string>, arg: string)
    ensures Tail(args + [arg]) == Tail(args) + [' '] + Escaped(arg)
  {
    if args == [] {
      assert args + [arg] == [arg] && [arg][1..] == [];
    } else {
      assert (args + [arg])[1..] == args[1..] + [arg];
      TailGrows(args[1..], arg);
      TailLonger(Escaped(args[0]), Tail(args[1..]), Escaped(arg));
    }
  }

  lemma TailLonger(first: string, rest: string, last: string)
    ensures [' '] + first + (rest + [' '] + last) == ([' '] + first + rest) + [' '] + last
  {
  }

  /** The line is the program name in quotes, and then one space before every argument. */
  lemma {:induction false} LineGrows(name: string, args: seq<string>, arg: string)
    ensures CommandLine([name]) == "\"" + name + "\""
    ensures CommandLine([name] + args + [arg]) == CommandLine([name] + args) + " " + Escaped(arg)
  {
    assert ([name] + args + [arg])[1..] == args + [arg] && ([name] + args)[1..] == args && [name][1..] == [];
    TailGrows(args, arg);
    LineLonger(['"'] + name + ['"'], Tail(args), Escaped(arg));
  }

  lemma LineLonger(first: string, tail: string, last: string)
    ensures first + (tail + [' '] + last) == first + tail + " " + last
  {
  }

  // The parser.

  /** How many backslashes `s` starts with. */
  function SlashRun(s: string): (n: nat)
    ensures n <= |s| && s[..n] == Slashes(n)
    ensures n < |s| ==> s[n] != '\\'
  {
    if s == [] || s[0] != '\\' then 0
    else
      var n := SlashRun(s[1..]) + 1;
      assert s[..n] == [s[0]] + s[1..][..n - 1];
      n
  }

  datatype Parsed = Parsed(arg: string, rest: string)

  /** The program name: quotes switch blanks on and off as separators, nothing is escaped. */
  function ParseProgram(s: string, quoted: bool, acc: string): Parsed
    decreases |s|
  {
    if s == [] || (!quoted && IsBlank(s[0])) then Parsed(acc, s)
    else if s[0] == '"' then ParseProgram(s[1..], !quoted, acc)
    else ParseProgram(s[1..], quoted, acc + [s[0]])
  }

  /** Any other argument. Backslashes are literal unless a quote follows: then each pair stands for one,
      and an odd one makes the quote literal, as does doubling it between quotes. */
  function ParseArg(s: string, quoted: bool, acc: string): (p: Parsed)
    ensures |p.rest| <= |s|
    ensures s != [] && (quoted || !IsBlank(s[0])) ==> |p.rest| < |s|
    decreases |s|
  {
    if s == [] || (!quoted && IsBlank(s[0])) then Parsed(acc, s)
    else if s[0] == '\\' then
      var n := SlashRun(s);
      if n < |s| && s[n] == '"' then
        if n % 2 == 1 then ParseArg(s[n + 1..], quoted, acc + Slashes(n / 2) + ['"'])
        else ParseArg(s[n..], quoted, acc + Slashes(n / 2))
      else ParseArg(s[n..], quoted, acc + Slashes(n))
    else if s[0] == '"' then
      if quoted && |s| > 1 && s[1] == '"' then ParseArg(s[2..], quoted, acc + ['"'])
      else ParseArg(s[1..], !quoted, acc)
    else ParseArg(s[1..], quoted, acc + [s[0]])
  }

  function ParseArgs(s: string): seq<string>
    decreases |s|
  {
    if s == [] then []
    else if IsBlank(s[0]) then ParseArgs(s[1..])
    else
      var p := ParseArg(s, false, []);
      [p.arg] + ParseArgs(p.rest)
  }

  function Parse(s: string): seq<string> {
    var p := ParseProgram(s, false, []);
    [p.arg] + ParseArgs(p.rest)
  }

  // The round trip.

  /** The rest of a line after an argument: nothing, or a separator. */
  predicate Ended(rest: string) {
    rest == [] || IsBlank(rest[0])
  }

  lemma {:induction false} RunOf(n: nat, rest: string)
    requires rest == [] || rest[0] != '\\'
    ensures SlashRun(Slashes(n) + rest) == n
  {
    var s := Slashes(n) + rest;
    var m := SlashRun(s);
    assert forall i :: 0 <= i < n ==> s[i] == '\\';
    assert forall i :: 0 <= i < m ==> s[..m][i] == Slashes(m)[i];
    assert n < |s| ==> s[n] == rest[0];
  }

  /** Backslashes, and then a quote or not. */
  lemma {:induction false} ParseSlashes(n: nat, rest: string, quoted: bool, acc: string)
    requires n > 0 && (rest == [] || rest[0] != '\\')
    ensures var p := ParseArg(Slashes(n) + rest, quoted, acc);
      if rest != [] && rest[0] == '"' then
        if n % 2 == 1 then p == ParseArg(rest[1..], quoted, acc + Slashes(n / 2) + ['"'])
        else p == ParseArg(rest, quoted, acc + Slashes(n / 2))
      else p == ParseArg(rest, quoted, acc + Slashes(n))
  {
    RunOf(n, rest);
    var s := Slashes(n) + rest;
    assert s[0] == '\\' && s[n..] == rest;
    assert rest != [] ==> s[n + 1..] == rest[1..];
  }

  /** One character that is no quote, with the backslashes before it, inside quotes. */
  lemma {:induction false} ParseOther(c: char, n: nat, acc: string, end: string)
    requires c != '\\' && c != '"'
    ensures ParseArg(Slashes(n) + ([c] + end), true, acc) == ParseArg(end, true, acc + Slashes(n) + [c])
  {
    var tail := [c] + end;
    assert tail[1..] == end;
    if n > 0 {
      ParseSlashes(n, tail, true, acc);
    } else {
      assert Slashes(n) + tail == tail && acc + Slashes(n) == acc;
    }
  }

  /** An escaped quote with the backslashes before it, inside quotes. */
  lemma {:induction false} ParseQuote(n: nat, acc: string, end: string)
    ensures ParseArg(Slashes(2 * n + 1) + (['"'] + end), true, acc) == ParseArg(end, true, acc + Slashes(n) + ['"'])
  {
    var tail := ['"'] + end;
    ParseSlashes(2 * n + 1, tail, true, acc);
    assert tail[1..] == end && (2 * n + 1) / 2 == n;
  }

  /** One character with the backslashes before it, escaped for the inside of quotes. */
  lemma {:induction false} ParseBodyStep(c: char, n: nat, acc: string, end: string)
    requires c != '\\'
    ensures var m := if c == '"' then 2 * n + 1 else n;
      ParseArg(Slashes(m) + ([c] + end), true, acc) == ParseArg(end, true, acc + Slashes(n) + [c])
  {
    if c == '"' {
      ParseQuote(n, acc, end);
    } else {
      ParseOther(c, n, acc, end);
    }
  }

  // String algebra of the cases below.

  lemma BodyApart(slashes: string, c: char, body: string, rest: string)
    ensures slashes + [c] + body + ['"'] + rest == slashes + ([c] + (body + ['"'] + rest))
  {
  }

  lemma ReadOn(acc: string, n: nat, arg: string)
    requires arg != []
    ensures acc + Slashes(n) + [arg[0]] + Slashes(0) + arg[1..] == acc + Slashes(n) + arg
    ensures arg[0] == '\\' ==> acc + Slashes(n + 1) + arg[1..] == acc + Slashes(n) + arg
  {
    assert arg == [arg[0]] + arg[1..];
  }

  /** The inside of a quoted argument reads back as the argument. */
  lemma {:induction false} ParseBody(arg: string, n: nat, acc: string, rest: string)
    requires Ended(rest)
    ensures ParseArg(Body(arg, n) + ['"'] + rest, true, acc) == Parsed(acc + Slashes(n) + arg, rest)
    decreases |arg|
  {
    if arg == [] {
      ParseClosing(n, acc, rest);
      assert acc + Slashes(n) + arg == acc + Slashes(n);
    } else if arg[0] == '\\' {
      ParseBody(arg[1..], n + 1, acc, rest);
      ReadOn(acc, n, arg);
    } else {
      var c, more := arg[0], Body(arg[1..], 0);
      ParseBody(arg[1..], 0, acc + Slashes(n) + [c], rest);
      ParseBodyStep(c, n, acc, more + ['"'] + rest);
      BodyApart(Slashes(if c == '"' then 2 * n + 1 else n), c, more, rest);
      ReadOn(acc, n, arg);
    }
  }

  lemma {:induction false} CloseQuote(acc: string, rest: string)
    requires Ended(rest)
    ensures ParseArg(['"'] + rest, true, acc) == Parsed(acc, rest)
  {
    var end := ['"'] + rest;
    assert end[1..] == rest;
    assert |end| > 1 ==> end[1] == rest[0];
  }

  /** An even run of backslashes before a quote: half as many, and the quote still counts. */
  lemma {:induction false} SlashesThenQuote(n: nat, end: string, acc: string)
    requires end != [] && end[0] == '"'
    ensures ParseArg(Slashes(2 * n) + end, true, acc) == ParseArg(end, true, acc + Slashes(n))
  {
    if n > 0 {
      ParseSlashes(2 * n, end, true, acc);
      assert (2 * n) / 2 == n;
    } else {
      assert Slashes(2 * n) + end == end && acc + Slashes(n) == acc;
    }
  }

  lemma {:induction false} ParseClosing(n: nat, acc: string, rest: string)
    requires Ended(rest)
    ensures ParseArg(Slashes(2 * n) + ['"'] + rest, true, acc) == Parsed(acc + Slashes(n), rest)
  {
    var end := ['"'] + rest;
    assert Slashes(2 * n) + ['"'] + rest == Slashes(2 * n) + end;
    SlashesThenQuote(n, end, acc);
    CloseQuote(acc + Slashes(n), rest);
  }

  lemma PlainSuffix(arg: string, n: nat, rest: string)
    requires Ended(rest) && !NeedsQuotes(arg) && n <= |arg|
    ensures !NeedsQuotes(arg[n..])
    ensures arg[n..] + rest != [] ==> (arg[n..] + rest)[0] != '"'
    ensures arg[n..] + rest != [] && (arg[n..] + rest)[0] == '\\' ==> n < |arg| && arg[n] == '\\'
  {
    assert forall i :: n <= i < |arg| ==> arg[i] in arg;
    assert forall c :: c in arg[n..] ==> c in arg;
  }

  /** A run of backslashes in a plain argument is read as it stands. */
  lemma {:induction false} PlainSlashes(arg: string, n: nat, acc: string, rest: string)
    requires Ended(rest) && !NeedsQuotes(arg) && arg != [] && arg[0] == '\\' && n == SlashRun(arg)
    ensures n > 0 && ParseArg(arg + rest, false, acc) == ParseArg(arg[n..] + rest, false, acc + Slashes(n))
  {
    PlainSuffix(arg, n, rest);
    var tail := arg[n..] + rest;
    assert arg + rest == Slashes(n) + tail by {
      assert arg == arg[..n] + arg[n..];
    }
    ParseSlashes(n, tail, false, acc);
  }

  /** Any other character of a plain argument is read as it stands. */
  lemma {:induction false} PlainChar(arg: string, acc: string, rest: string)
    requires Ended(rest) && !NeedsQuotes(arg) && arg != [] && arg[0] != '\\'
    ensures ParseArg(arg + rest, false, acc) == ParseArg(arg[1..] + rest, false, acc + [arg[0]])
  {
    assert arg[0] in arg;
    var s := arg + rest;
    assert s[0] == arg[0] && s[1..] == arg[1..] + rest;
  }

  lemma AccOf(acc: string, arg: string, n: nat)
    requires n <= |arg|
    ensures acc + arg[..n] + arg[n..] == acc + arg
  {
    assert arg == arg[..n] + arg[n..];
  }

  lemma {:induction false} ParsePlain(arg: string, acc: string, rest: string)
    requires Ended(rest) && !NeedsQuotes(arg)
    ensures ParseArg(arg + rest, false, acc) == Parsed(acc + arg, rest)
    decreases |arg|
  {
    if arg == [] {
      assert arg + rest == rest && acc + arg == acc;
    } else {
      var n := if arg[0] == '\\' then SlashRun(arg) else 1;
      if arg[0] == '\\' {
        PlainSlashes(arg, n, acc, rest);
      } else {
        PlainChar(arg, acc, rest);
        assert arg[..1] == [arg[0]];
      }
      PlainSuffix(arg, n, rest);
      ParsePlain(arg[n..], acc + arg[..n], rest);
      AccOf(acc, arg, n);
    }
  }

  lemma {:induction false} ParseQuoted(arg: string, rest: string)
    requires Ended(rest)
    ensures ParseArg(['"'] + Body(arg, 0) + ['"'] + rest, false, []) == Parsed(arg, rest)
  {
    var s := ['"'] + Body(arg, 0) + ['"'] + rest;
    assert s[1..] == Body(arg, 0) + ['"'] + rest;
    ParseBody(arg, 0, [], rest);
    assert [] + Slashes(0) + arg == arg;
  }

  lemma {:induction false} ParseEscaped(arg: string, rest: string)
    requires Ended(rest)
    ensures Escaped(arg) != [] && !IsBlank(Escaped(arg)[0])
    ensures ParseArg(Escaped(arg) + rest, false, []) == Parsed(arg, rest)
  {
    if arg == [] || NeedsQuotes(arg) {
      assert Escaped(arg) == ['"'] + Body(arg, 0) + ['"'];
      ParseQuoted(arg, rest);
    } else {
      assert arg[0] in arg;
      ParsePlain(arg, [], rest);
      assert [] + arg == arg;
    }
  }

  /** A blank is skipped, and then one argument is read. */
  lemma {:induction false} ParseStep(s: string, line: string)
    requires line == [' '] + s && s != [] && !IsBlank(s[0])
    ensures ParseArgs(line) == [ParseArg(s, false, []).arg] + ParseArgs(ParseArg(s, false, []).rest)
  {
    assert line[0] == ' ' && line[1..] == s;
    assert ParseArgs(line) == ParseArgs(s);
  }

  lemma {:induction false} ParseNext(arg: string, rest: string)
    requires Ended(rest)
    ensures ParseArgs([' '] + Escaped(arg) + rest) == [arg] + ParseArgs(rest)
  {
    ParseEscaped(arg, rest);
    var s := Escaped(arg) + rest;
    assert s[0] == Escaped(arg)[0];
    assert [' '] + Escaped(arg) + rest == [' '] + s;
    ParseStep(s, [' '] + s);
  }

  lemma {:induction false} ParseTail(args: seq<string>)
    ensures Ended(Tail(args)) && ParseArgs(Tail(args)) == args
  {
    if args != [] {
      ParseTail(args[1..]);
      ParseNext(args[0], Tail(args[1..]));
    }
  }

  lemma {:induction false} ParseProgramName(name: string, acc: string, rest: string)
    requires '"' !in name && Ended(rest)
    ensures ParseProgram(name + ['"'] + rest, true, acc) == Parsed(acc + name, rest)
    decreases |name|
  {
    var s := name + ['"'] + rest;
    if name == [] {
      assert s[1..] == rest && acc + name == acc;
    } else {
      assert s[1..] == name[1..] + ['"'] + rest;
      ParseProgramName(name[1..], acc + [name[0]], rest);
      assert acc + [name[0]] + name[1..] == acc + name;
    }
  }

  lemma {:induction false} ParseFirst(name: string, rest: string)
    requires '"' !in name && Ended(rest)
    ensures ParseProgram(['"'] + name + ['"'] + rest, false, []) == Parsed(name, rest)
  {
    assert (['"'] + name + ['"'] + rest)[1..] == name + ['"'] + rest;
    ParseProgramName(name, [], rest);
    assert [] + name == name;
  }

  /** Parsing the printed line gives back the arguments. */
  lemma ParsesBack(args: seq<string>)
    requires args != [] && '"' !in args[0]
    ensures Parse(CommandLine(args)) == args
  {
    ParseTail(args[1..]);
    ParseFirst(args[0], Tail(args[1..]));
  }

  /** So no two argument lists share a line. */
  lemma Injective(a: seq<string>, b: seq<string>)
    requires a != [] && b != [] && '"' !in a[0] && '"' !in b[0]
    ensures CommandLine(a) == CommandLine(b) <==> a == b
  {
    ParsesBack(a);
    ParsesBack(b);
  }
}

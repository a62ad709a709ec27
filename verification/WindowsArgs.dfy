/**
  Quoting of command lines for Windows: the text `windows_args_to_wide` builds is split back into the
  same arguments by the documented rules of `CommandLineToArgvW`.
 */
module WindowsArgs {

  // ---------------------------------------------------------------------------------------------
  // The rules for splitting a command line
  // ---------------------------------------------------------------------------------------------

  /**
    The arguments of a command line, or `Unspecified` if it has a quote directly after a closing
    quote, about which the documented rules say nothing.
   */
  datatype Parsed = Args(args: seq<string>) | Unspecified

  function Backslashes(n: nat): (s: string)
    ensures |s| == n
  {
    if n == 0 then "" else Backslashes(n - 1) + "\\"
  }

  function WithFirst(arg: string, rest: Parsed): Parsed {
    if rest.Unspecified? then rest else Args([arg] + rest.args)
  }

  /**
    The rest of a command line. Within an argument `current` is what it holds so far, and
    `backslashes` have just been read that are not in it yet: followed by a quote, 2n of them stand
    for n and the quote opens or closes a quoted part, 2n+1 stand for n and a quote that belongs to
    the argument; followed by anything else they stand for themselves.
   */
  function Split(line: string, inArg: bool, quoted: bool, backslashes: nat, current: string): Parsed {
    if line == "" then
      Args(if inArg then [current + Backslashes(backslashes)] else [])
    else
      var c, rest := line[0], line[1..];
      if c == '\\' then Split(rest, true, quoted, backslashes + 1, current)
      else if c == '"' then
        if backslashes % 2 == 1 then Split(rest, true, quoted, 0, current + Backslashes(backslashes / 2) + "\"")
        else if quoted && rest != "" && rest[0] == '"' then Unspecified
        else Split(rest, true, !quoted, 0, current + Backslashes(backslashes / 2))
      else if (c == ' ' || c == '\t') && !quoted then
        if inArg then WithFirst(current + Backslashes(backslashes), Split(rest, false, false, 0, ""))
        else Split(rest, false, false, 0, "")
      else Split(rest, true, quoted, 0, current + Backslashes(backslashes) + [c])
  }

  function CommandLineToArgs(line: string): Parsed {
    Split(line, false, false, 0, "")
  }

  // ---------------------------------------------------------------------------------------------
  // The generated command line
  // ---------------------------------------------------------------------------------------------

  /** What is put between the quotes for the rest of an argument, after `backslashes` backslashes. */
  function Escaped(arg: string, backslashes: nat): string {
    if arg == "" then Backslashes(backslashes)
    else if arg[0] == '\\' then "\\" + Escaped(arg[1..], backslashes + 1)
    else if arg[0] == '"' then Backslashes(backslashes + 1) + "\"" + Escaped(arg[1..], 0)
    else [arg[0]] + Escaped(arg[1..], 0)
  }

  function Quoted(arg: string): string {
    "\"" + Escaped(arg, 0) + "\""
  }

  function CommandLine(args: seq<string>): string {
    if args == [] then ""
    else if |args| == 1 then Quoted(args[0])
    else CommandLine(args[..|args| - 1]) + " " + Quoted(args[|args| - 1])
  }

  /** `windows_args_to_wide`. */
  method ArgsToWide(arguments: seq<string>) returns (wideArguments: string)
    ensures wideArguments == CommandLine(arguments)
  {
    wideArguments := "";
    var i := 0;
    while i < |arguments|
      invariant 0 <= i <= |arguments|
      invariant wideArguments == CommandLine(arguments[..i])
    {
      ghost var before := wideArguments;
      if i > 0 {
        wideArguments := wideArguments + " ";
      }
      wideArguments := AppendQuoted(wideArguments, arguments[i]);
      assert arguments[..i + 1][..i] == arguments[..i];
      if i == 0 {
        assert CommandLine(arguments[..1]) == Quoted(arguments[0]);
      }
      i := i + 1;
    }
    assert arguments[..i] == arguments;
  }

  method AppendQuoted(wide: string, arg: string) returns (wideArguments: string)
    ensures wideArguments == wide + Quoted(arg)
  {
    wideArguments := wide + "\"";
    var backslashes := 0;
    var i := 0;
    while i < |arg|
      invariant 0 <= i <= |arg|
      invariant wideArguments + Escaped(arg[i..], backslashes) == wide + "\"" + Escaped(arg, 0)
    {
      var c := arg[i];
      assert arg[i..][0] == c && arg[i..][1..] == arg[i + 1..];
      ghost var before := wideArguments;
      ghost var n := backslashes;
      if c == '\\' {
        backslashes := backslashes + 1;
      } else {
        if c == '"' {
          // n+1 backslashes more, for a total of 2n+1 before the quote.
          wideArguments := AppendBackslashes(wideArguments, backslashes + 1);
        }
        backslashes := 0;
      }
      wideArguments := wideArguments + [c];
      assert before + Escaped(arg[i..], n) == wideArguments + Escaped(arg[i + 1..], backslashes);
      i := i + 1;
    }
    assert arg[i..] == "";
    // n backslashes more, for a total of 2n before the closing quote.
    wideArguments := AppendBackslashes(wideArguments, backslashes);
    wideArguments := wideArguments + "\"";
  }

  method AppendBackslashes(s: string, n: nat) returns (r: string)
    ensures r == s + Backslashes(n)
  {
    r := s;
    var j := 0;
    while j < n
      invariant 0 <= j <= n
      invariant r == s + Backslashes(j)
    {
      r := r + "\\";
      j := j + 1;
    }
  }

  // ---------------------------------------------------------------------------------------------
  // The round trip
  // ---------------------------------------------------------------------------------------------

  lemma {:induction false} SplitBackslashes(n: nat, rest: string, quoted: bool, k: nat, current: string)
    ensures Split(Backslashes(n) + rest, true, quoted, k, current) == Split(rest, true, quoted, k + n, current)
    decreases n
  {
    if n == 0 {
      assert Backslashes(0) + rest == rest;
    } else {
      SplitBackslashes(n - 1, "\\" + rest, quoted, k, current);
      assert Backslashes(n) + rest == Backslashes(n - 1) + ("\\" + rest);
      assert ("\\" + rest)[1..] == rest;
    }
  }

  lemma SplitQuote(rest: string, quoted: bool, k: nat, current: string)
    requires k % 2 == 0 && quoted ==> rest == "" || rest[0] != '"'
    ensures Split("\"" + rest, true, quoted, k, current) ==
            if k % 2 == 1 then Split(rest, true, quoted, 0, current + Backslashes(k / 2) + "\"")
            else Split(rest, true, !quoted, 0, current + Backslashes(k / 2))
  {
    assert ("\"" + rest)[1..] == rest;
  }

  lemma SplitChar(c: char, rest: string, k: nat, current: string)
    requires c != '"'
    ensures Split([c] + rest, true, true, k, current) ==
            if c == '\\' then Split(rest, true, true, k + 1, current)
            else Split(rest, true, true, 0, current + Backslashes(k) + [c])
  {
    assert ([c] + rest)[1..] == rest;
  }

  /** Backslashes doubled before the closing quote. */
  lemma SplitClosing(k: nat, rest: string, current: string)
    requires rest == "" || rest[0] != '"'
    ensures Split(Backslashes(k) + "\"" + rest, true, true, k, current)
         == Split(rest, true, false, 0, current + Backslashes(k))
  {
    hide Split, Backslashes;
    assert Backslashes(k) + "\"" + rest == Backslashes(k) + ("\"" + rest);
    SplitBackslashes(k, "\"" + rest, true, k, current);
    SplitQuote(rest, true, k + k, current);
    assert (k + k) / 2 == k;
  }

  /** Backslashes doubled, and one more, before a quote that belongs to the argument. */
  lemma SplitInnerQuote(k: nat, more: string, current: string)
    ensures Split(Backslashes(k + 1) + "\"" + more, true, true, k, current)
         == Split(more, true, true, 0, current + Backslashes(k) + "\"")
  {
    hide Split, Backslashes;
    assert Backslashes(k + 1) + "\"" + more == Backslashes(k + 1) + ("\"" + more);
    SplitBackslashes(k + 1, "\"" + more, true, k, current);
    SplitQuote(more, true, k + (k + 1), current);
    assert (k + (k + 1)) / 2 == k && (k + (k + 1)) % 2 == 1;
  }

  lemma BackslashesMore(k: nat)
    ensures Backslashes(0) == "" && Backslashes(k + 1) == Backslashes(k) + "\\"
  {
  }

  /** Reading a quoted argument up to its closing quote gives the argument back. */
  lemma {:induction false} SplitEscaped(arg: string, k: nat, rest: string, current: string)
    requires rest == "" || rest[0] != '"'
    ensures Split(Escaped(arg, k) + "\"" + rest, true, true, k, current)
         == Split(rest, true, false, 0, current + Backslashes(k) + arg)
    decreases |arg|
  {
    hide Split, Backslashes;
    BackslashesMore(k);
    if arg == "" {
      SplitClosing(k, rest, current);
      assert current + Backslashes(k) + arg == current + Backslashes(k);
    } else {
      var c, tail := arg[0], arg[1..];
      var after := current + Backslashes(k) + [c];
      assert arg == [c] + tail;
      assert current + Backslashes(k) + arg == after + tail;
      if c == '\\' {
        var more := Escaped(tail, k + 1) + "\"" + rest;
        SplitEscaped(tail, k + 1, rest, current);
        SplitChar(c, more, k, current);
        assert Escaped(arg, k) + "\"" + rest == [c] + more;
        assert current + Backslashes(k + 1) + tail == after + tail;
      } else {
        var more := Escaped(tail, 0) + "\"" + rest;
        SplitEscaped(tail, 0, rest, after);
        assert after + Backslashes(0) == after;
        if c == '"' {
          SplitInnerQuote(k, more, current);
          assert Escaped(arg, k) + "\"" + rest == Backslashes(k + 1) + "\"" + more;
        } else {
          SplitChar(c, more, k, current);
          assert Escaped(arg, k) + "\"" + rest == [c] + more;
        }
      }
    }
  }

  /** One quoted argument in front of a line that is empty or goes on with a space. */
  lemma SplitQuoted(arg: string, rest: string)
    requires rest == "" || rest[0] == ' '
    ensures CommandLineToArgs(Quoted(arg) + rest)
         == WithFirst(arg, CommandLineToArgs(if rest == "" then "" else rest[1..]))
  {
    var body := Escaped(arg, 0) + "\"" + rest;
    assert Quoted(arg) + rest == "\"" + body;
    assert ("\"" + body)[1..] == body;
    SplitEscaped(arg, 0, rest, "");
    assert "" + Backslashes(0) + arg == arg && arg + Backslashes(0) == arg;
    assert "" + Backslashes(0) == "";
  }

  lemma {:induction false} SplitLine(args: seq<string>, more: string)
    requires args != [] && (more == "" || more[0] == ' ')
    ensures CommandLineToArgs(CommandLine(args) + more) == Prefixed(args, CommandLineToArgs(if more == "" then "" else more[1..]))
  {
    hide Split, Quoted, CommandLineToArgs;
    var last := |args| - 1;
    SplitQuoted(args[last], more);
    var rest := CommandLineToArgs(if more == "" then "" else more[1..]);
    if last == 0 {
      assert args == [args[0]];
      assert args[1..] == [];
    } else {
      var tail := " " + Quoted(args[last]) + more;
      SplitLine(args[..last], tail);
      assert CommandLine(args) + more == CommandLine(args[..last]) + tail;
      assert tail[1..] == Quoted(args[last]) + more;
      PrefixedSnoc(args, rest);
    }
  }

  function Prefixed(args: seq<string>, rest: Parsed): Parsed {
    if args == [] then rest else WithFirst(args[0], Prefixed(args[1..], rest))
  }

  lemma {:induction false} PrefixedSnoc(args: seq<string>, rest: Parsed)
    requires args != []
    ensures Prefixed(args, rest) == Prefixed(args[..|args| - 1], WithFirst(args[|args| - 1], rest))
  {
    if |args| == 1 {
      assert args[1..] == [];
    } else {
      PrefixedSnoc(args[1..], rest);
      assert args[1..][..|args| - 2] == args[..|args| - 1][1..];
    }
  }

  lemma {:induction false} PrefixedArgs(args: seq<string>)
    ensures Prefixed(args, Args([])) == Args(args)
  {
    if args != [] {
      PrefixedArgs(args[1..]);
    }
  }

  /** Splitting the generated command line returns the original arguments, whatever they contain. */
  lemma CommandLineRoundTrip(args: seq<string>)
    ensures CommandLineToArgs(CommandLine(args)) == Args(args)
  {
    if args != [] {
      SplitLine(args, "");
      assert CommandLine(args) + "" == CommandLine(args);
      PrefixedArgs(args);
    }
  }
}

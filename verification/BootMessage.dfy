/**
 The argument list in the bootloader control block, as bootable/recovery/recovery.cpp reads and
 rewrites it in get_args: C strings in fixed-size fields, split with strtok and put together with
 strlcpy and strlcat.

 An argument list is stored as one line per argument, cut off at the size of the field.  The main
 results are that what is stored is read back and stored again unchanged, even if it was cut off
 (`StoredAgain`), exactly when the list read back is the list stored (`ReadBack`), and which of the
 command line, the stored list and the command file the arguments come from (`Precedence`).
 */
module BootMessage {
  import opened Bytes

  const NUL: Byte := 0
  const NEWLINE: Byte := 10
  const RETURN: Byte := 13
  const MAX_ARGS: nat := 100
  const COMMAND_SIZE: nat := 32
  const RECOVERY_SIZE: nat := 768

  /** The longest string that the recovery field holds. */
  const LIMIT: nat := RECOVERY_SIZE - 1

  /** recovery */
  const RECOVERY: seq<Byte> := [114, 101, 99, 111, 118, 101, 114, 121]

  /** boot-recovery */
  const BOOT_RECOVERY: seq<Byte> := [98, 111, 111, 116, 45] + RECOVERY

  type Text = seq<Byte>

  // ---- Argument lists and lines ---------------------------------------------------------------------

  /** One line per argument. */
  function Lines(args: seq<Text>): Text {
    if args == [] then [] else args[0] + [NEWLINE] + Lines(args[1..])
  }

  /** The length of the longest start of `s` without a delimiter. */
  function Span(s: Text, delimiters: set<Byte>): (n: nat)
    ensures n <= |s| && (n < |s| ==> s[n] in delimiters) && forall i :: 0 <= i < n ==> s[i] !in delimiters
  {
    if s == [] || s[0] in delimiters then 0 else 1 + Span(s[1..], delimiters)
  }

  /** The tokens that repeated calls of strtok find in a string, with newline as the delimiter. */
  function Tokens(s: Text): seq<Text>
    decreases |s|
  {
    if s == [] then []
    else if s[0] == NEWLINE then Tokens(s[1..])
    else
      var n := Span(s, {NEWLINE});
      [s[..n]] + Tokens(s[n..])
  }

  /** A non-empty C string without a newline. */
  predicate IsArg(a: Text) {
    a != [] && NEWLINE !in a && NUL !in a
  }

  predicate AreArgs(args: seq<Text>) {
    forall i :: 0 <= i < |args| ==> IsArg(args[i])
  }

  /** What is left of the arguments if only `n` bytes of their lines are kept. */
  function Cut(args: seq<Text>, n: nat): seq<Text>
    decreases |args|
  {
    if args == [] || n == 0 then []
    else if n <= |args[0]| then [args[0][..n]]
    else [args[0]] + Cut(args[1..], n - |args[0]| - 1)
  }

  lemma SpanIs(s: Text, n: nat)
    requires n <= |s| && (n < |s| ==> s[n] == NEWLINE) && NEWLINE !in s[..n]
    ensures Span(s, {NEWLINE}) == n
  {
    var m := Span(s, {NEWLINE});
    assert forall i :: 0 <= i < n ==> s[i] == s[..n][i];
  }

  /** A token, then a newline and more, or nothing. */
  lemma TokenThen(a: Text, rest: Text)
    requires IsArg(a)
    ensures Tokens(a) == [a] && Tokens(a + [NEWLINE] + rest) == [a] + Tokens(rest)
  {
    assert a[0] in a;
    assert a[..|a|] == a;
    SpanIs(a, |a|);
    var s := a + [NEWLINE] + rest;
    assert s[..|a|] == a;
    SpanIs(s, |a|);
    assert s[|a|..] == [NEWLINE] + rest;
    assert ([NEWLINE] + rest)[1..] == rest;
  }

  /** Splitting a cut-off list of lines gives the cut-off list of arguments. */
  lemma {:induction false} TokensOfCut(args: seq<Text>, n: nat)
    requires AreArgs(args) && n <= |Lines(args)|
    ensures Tokens(Lines(args)[..n]) == Cut(args, n)
    decreases |args|
  {
    if args == [] || n == 0 {
    } else {
      var a, rest := args[0], Lines(args[1..]);
      if n <= |a| {
        assert Lines(args)[..n] == a[..n];
        assert IsArg(a[..n]);
        TokenThen(a[..n], []);
      } else {
        var m := n - |a| - 1;
        assert Lines(args)[..n] == a + [NEWLINE] + rest[..m];
        TokenThen(a, rest[..m]);
        TokensOfCut(args[1..], m);
      }
    }
  }

  /** The lines of the cut-off list start with the bytes that were kept. */
  lemma {:induction false} LinesOfCut(args: seq<Text>, n: nat)
    requires n <= |Lines(args)|
    ensures var kept := Lines(args)[..n];
            Lines(Cut(args, n)) == kept || Lines(Cut(args, n)) == kept + [NEWLINE]
    decreases |args|
  {
    if args == [] || n == 0 {
    } else {
      var a, rest := args[0], Lines(args[1..]);
      if n <= |a| {
        assert Lines(args)[..n] == a[..n];
        assert Lines([a[..n]]) == a[..n] + [NEWLINE];
      } else {
        var m := n - |a| - 1;
        LinesOfCut(args[1..], m);
        var cut := Cut(args[1..], m);
        assert Lines([a] + cut) == a + [NEWLINE] + Lines(cut);
        assert Lines(args)[..n] == a + [NEWLINE] + rest[..m];
      }
    }
  }

  /** Nothing is lost exactly if at most the last newline is cut off. */
  lemma {:induction false} CutWhole(args: seq<Text>, n: nat)
    requires AreArgs(args) && n <= |Lines(args)|
    ensures Cut(args, n) == args <==> n + 1 >= |Lines(args)| || args == []
    decreases |args|
  {
    if args == [] {
    } else {
      var a, rest := args[0], args[1..];
      assert IsArg(a) && args == [a] + rest;
      assert rest != [] ==> |Lines(rest)| >= 1;
      if n > |a| {
        CutWhole(rest, n - |a| - 1);
      } else if n > 0 {
        assert Cut(args, n) == [a[..n]];
        assert rest == [] && n == |a| ==> a[..n] == a;
        assert rest != [] ==> |args| > 1;
      }
    }
  }

  // ---- The recovery field ---------------------------------------------------------------------------

  /** What fits into the field. */
  function Kept(s: Text): Text {
    if |s| <= LIMIT then s else s[..LIMIT]
  }

  /** The string that get_args stores: the program name is always written as "recovery". */
  function Stored(args: seq<Text>): Text
    requires args != []
  {
    Kept(Lines([RECOVERY] + args[1..]))
  }

  /** The arguments that get_args finds in a stored string, if any. */
  function Found(s: Text): Option<seq<Text>> {
    var tokens := Tokens(s);
    if tokens == [] || tokens[0] != RECOVERY then None
    else Some(if |tokens| <= MAX_ARGS then tokens else tokens[..MAX_ARGS])
  }

  predicate AllNewlines(s: Text) {
    forall i :: 0 <= i < |s| ==> s[i] == 10
  }

  /** `token` follows newlines and ends at a newline or at the end. */
  predicate StartsWith(s: Text, lead: Text, token: Text, rest: Text) {
    && s == lead + token + rest && AllNewlines(lead) && token != [] && (forall i :: 0 <= i < |token| ==> token[i] != 10)
    && (rest == [] || rest[0] == 10)
  }

  /** `s` consists of `tokens`, with newlines before, between and perhaps after them. */
  ghost predicate Separated(s: Text, tokens: seq<Text>)
    decreases |tokens|
  {
    if tokens == [] then AllNewlines(s)
    else exists lead, rest :: StartsWith(s, lead, tokens[0], rest) && Separated(rest, tokens[1..])
  }

  lemma {:induction false} TokensOfNewlines(s: Text, rest: Text)
    requires AllNewlines(s)
    ensures Tokens(s + rest) == Tokens(rest)
  {
    if s == [] {
      assert s + rest == rest;
    } else {
      assert (s + rest)[1..] == s[1..] + rest && (s + rest)[0] == 10;
      TokensOfNewlines(s[1..], rest);
    }
  }

  lemma TokenBefore(token: Text, rest: Text)
    requires StartsWith(token + rest, [], token, rest)
    ensures Tokens(token + rest) == [token] + Tokens(rest)
  {
    var s := token + rest;
    assert s[..|token|] == token && s[|token|..] == rest && s[0] == token[0];
    SpanIs(s, |token|);
  }

  /** The tokens are the only pieces that a string consists of in this way. */
  lemma {:induction false} SeparatedTokens(s: Text, tokens: seq<Text>)
    requires Separated(s, tokens)
    ensures Tokens(s) == tokens
    decreases |tokens|
  {
    if tokens == [] {
      TokensOfNewlines(s, []);
      assert s + [] == s;
    } else {
      var lead, rest :| StartsWith(s, lead, tokens[0], rest) && Separated(rest, tokens[1..]);
      TokensOfNewlines(lead, tokens[0] + rest);
      assert s == lead + (tokens[0] + rest);
      TokenBefore(tokens[0], rest);
      SeparatedTokens(rest, tokens[1..]);
    }
  }

  /** What get_args finds: the first hundred tokens, if the first of them is "recovery". */
  lemma FoundExactly(s: Text, tokens: seq<Text>)
    requires Separated(s, tokens)
    ensures Found(s) == if tokens != [] && tokens[0] == [114, 101, 99, 111, 118, 101, 114, 121]
                        then Some(if |tokens| > 100 then tokens[..100] else tokens) else None
  {
    SeparatedTokens(s, tokens);
  }

  lemma AddNewline(s: Text, tokens: seq<Text>)
    requires s != [] && s[0] == 10 && Separated(s[1..], tokens)
    ensures Separated(s, tokens)
  {
    if tokens == [] {
    } else {
      var lead, rest :| StartsWith(s[1..], lead, tokens[0], rest) && Separated(rest, tokens[1..]);
      assert s == [s[0]] + s[1..];
      assert StartsWith(s, [s[0]] + lead, tokens[0], rest);
    }
  }

  lemma AddToken(s: Text, token: Text, rest: Text, tokens: seq<Text>)
    requires StartsWith(s, [], token, rest) && Separated(rest, tokens)
    ensures Separated(s, [token] + tokens)
  {
    var all := [token] + tokens;
    assert all[0] == token && all[1..] == tokens;
  }

  /** Every string consists of tokens in this way. */
  lemma {:induction false} EverySeparated(s: Text)
    ensures Separated(s, Tokens(s))
    decreases |s|
  {
    if s == [] {
    } else if s[0] == NEWLINE {
      EverySeparated(s[1..]);
      AddNewline(s, Tokens(s));
    } else {
      var n := Span(s, {NEWLINE});
      EverySeparated(s[n..]);
      AddToken(s, s[..n], s[n..], Tokens(s[n..]));
    }
  }

  /** An argument list that get_args may have to store: the program name and at least one argument. */
  predicate Storable(args: seq<Text>) {
    2 <= |args| <= MAX_ARGS && AreArgs(args[1..])
  }

  lemma CutShort(args: seq<Text>, n: nat)
    requires AreArgs(args) && n <= |Lines(args)|
    ensures |Cut(args, n)| <= |args| && AreArgs(Cut(args, n))
    decreases |args|
  {
    if args == [] || n == 0 {
    } else if n > |args[0]| {
      CutShort(args[1..], n - |args[0]| - 1);
    } else {
      assert IsArg(args[0][..n]);
    }
  }

  /** What is found in the stored string, and that it is an argument list that can be stored again. */
  lemma FoundInStored(args: seq<Text>)
    requires Storable(args)
    ensures var all := [RECOVERY] + args[1..];
            && Found(Stored(args)) == Some(Cut(all, |Stored(args)|))
            && Storable(Cut(all, |Stored(args)|)) && Cut(all, |Stored(args)|)[0] == RECOVERY
  {
    var all := [RECOVERY] + args[1..];
    var n := |Stored(args)|;
    assert AreArgs(all);
    assert all[1..] == args[1..] && IsArg(args[1..][0]);
    assert |Lines(all)| == 9 + |Lines(args[1..])| && |Lines(args[1..])| >= 2;
    assert Stored(args) == Lines(all)[..n];
    TokensOfCut(all, n);
    CutShort(all, n);
    assert Cut(all, n) == [RECOVERY] + Cut(args[1..], n - 9);
  }

  /** Storing what is found in a stored string stores the same string again, even if it was cut off. */
  lemma StoredAgain(args: seq<Text>)
    requires Storable(args)
    ensures Found(Stored(args)).Some? && Storable(Found(Stored(args)).value)
    ensures Stored(Found(Stored(args)).value) == Stored(args)
  {
    FoundInStored(args);
    var all := [RECOVERY] + args[1..];
    var n := |Stored(args)|;
    var cut := Cut(all, n);
    assert [RECOVERY] + cut[1..] == cut;
    LinesOfCut(all, n);
    assert AreArgs(all);
    CutWhole(all, n);
  }

  /** The same arguments are found exactly if all of their lines but the last newline fit. */
  lemma ReadBack(args: seq<Text>)
    requires Storable(args)
    ensures Found(Stored(args)) == Some([RECOVERY] + args[1..]) <==> |Lines([RECOVERY] + args[1..])| <= 768
  {
    FoundInStored(args);
    var all := [RECOVERY] + args[1..];
    assert AreArgs(all);
    CutWhole(all, |Stored(args)|);
  }

  // ---- Where the arguments come from ----------------------------------------------------------------

  /** The first token of a line, with carriage return and newline as delimiters. */
  function FirstToken(s: Text): Option<Text> {
    if s == [] then None
    else if s[0] in {RETURN, NEWLINE} then FirstToken(s[1..])
    else Some(s[..Span(s, {RETURN, NEWLINE})])
  }

  /** The first token of each line that has one, up to `max` of them. */
  function CommandArgs(lines: seq<Text>, max: nat): (args: seq<Text>)
    ensures |args| <= max
  {
    if lines == [] || max == 0 then []
    else
      match FirstToken(lines[0])
      case None => CommandArgs(lines[1..], max)
      case Some(token) => [token] + CommandArgs(lines[1..], max - 1)
  }

  /** The argument list get_args settles on: the command line, the stored string, the command file. */
  function Effective(argv: seq<Text>, stored: Text, file: Option<seq<Text>>): (args: seq<Text>)
    requires argv != []
    ensures args != []
  {
    var args := if |argv| <= 1 && Found(stored).Some? then Found(stored).value else argv;
    if |args| <= 1 && file.Some? then [args[0]] + CommandArgs(file.value, MAX_ARGS - 1) else args
  }

  predicate AllDelimiters(s: Text) {
    forall i :: 0 <= i < |s| ==> s[i] == 10 || s[i] == 13
  }

  predicate NoDelimiter(s: Text) {
    forall i :: 0 <= i < |s| ==> s[i] != 10 && s[i] != 13
  }

  /** `token` is the first of the longest pieces of `s` without carriage return and newline. */
  predicate IsFirstToken(s: Text, lead: Text, token: Text, rest: Text) {
    && s == lead + token + rest && AllDelimiters(lead) && token != [] && NoDelimiter(token)
    && (rest == [] || rest[0] == 10 || rest[0] == 13)
  }

  lemma {:induction false} FirstTokenSplits(s: Text) returns (lead: Text, rest: Text)
    ensures match FirstToken(s)
            case None => AllDelimiters(s)
            case Some(token) => IsFirstToken(s, lead, token, rest)
  {
    lead, rest := [], [];
    if s == [] {
    } else if s[0] in {RETURN, NEWLINE} {
      lead, rest := FirstTokenSplits(s[1..]);
      lead := [s[0]] + lead;
      if FirstToken(s).Some? {
        assert s == [s[0]] + s[1..];
      }
    } else {
      rest := s[Span(s, {RETURN, NEWLINE})..];
    }
  }

  lemma {:induction false} FirstTokenOf(s: Text, lead: Text, token: Text, rest: Text)
    requires IsFirstToken(s, lead, token, rest)
    ensures FirstToken(s) == Some(token)
    decreases |lead|
  {
    if lead == [] {
      assert s[0] == token[0];
      assert s[..|token|] == token && s[|token|..] == rest;
      var n := Span(s, {RETURN, NEWLINE});
      assert rest != [] ==> s[|token|] == rest[0];
      assert forall i :: 0 <= i < |token| ==> s[i] == token[i];
    } else {
      assert s[0] == lead[0] && s[1..] == lead[1..] + token + rest;
      FirstTokenOf(s[1..], lead[1..], token, rest);
    }
  }

  lemma {:induction false} NoToken(s: Text)
    requires AllDelimiters(s)
    ensures FirstToken(s) == None
  {
    if s == [] {
    } else {
      NoToken(s[1..]);
    }
  }

  /** What the first token of a line is, and that only a line of delimiters has none. */
  lemma FirstTokenExactly(s: Text, token: Text)
    ensures FirstToken(s) == Some(token) <==> exists lead, rest :: IsFirstToken(s, lead, token, rest)
    ensures FirstToken(s) == None <==> AllDelimiters(s)
  {
    var lead0, rest0 := FirstTokenSplits(s);
    forall lead, rest | IsFirstToken(s, lead, token, rest)
      ensures FirstToken(s) == Some(token)
    {
      FirstTokenOf(s, lead, token, rest);
    }
    if AllDelimiters(s) {
      NoToken(s);
    }
  }

  /** The lines of a file with one argument per line: ended by newline, by both characters or by neither, or blank. */
  ghost predicate Spells(lines: seq<Text>, args: seq<Text>)
    decreases |lines|
  {
    if lines == [] then args == []
    else
      || (AllDelimiters(lines[0]) && Spells(lines[1..], args))
      || (args != [] && lines[0] in {args[0], args[0] + [10], args[0] + [13, 10]} && Spells(lines[1..], args[1..]))
  }

  lemma LineToken(line: Text, arg: Text)
    requires arg != [] && NoDelimiter(arg) && line in {arg, arg + [10], arg + [13, 10]}
    ensures FirstToken(line) == Some(arg) && !AllDelimiters(line)
  {
    assert line[0] == arg[0];
    FirstTokenOf(line, [], arg, line[|arg|..]);
  }

  /** The arguments of such a file are read in order, as many as there is room for. */
  lemma {:induction false} CommandFileRead(lines: seq<Text>, args: seq<Text>, max: nat)
    requires Spells(lines, args) && forall i :: 0 <= i < |args| ==> args[i] != [] && NoDelimiter(args[i])
    ensures CommandArgs(lines, max) == if |args| <= max then args else args[..max]
    decreases |lines|
  {
    if lines == [] || max == 0 {
    } else if AllDelimiters(lines[0]) && Spells(lines[1..], args) {
      NoToken(lines[0]);
      CommandFileRead(lines[1..], args, max);
    } else {
      LineToken(lines[0], args[0]);
      CommandFileRead(lines[1..], args[1..], max - 1);
      assert args == [args[0]] + args[1..];
    }
  }

  /**
   Where the arguments come from: the command line if it has any; else what is stored, if that has
   any; else the command file; else there are none.
   */
  lemma Precedence(argv: seq<Text>, name: Text, stored: Text, file: Option<seq<Text>>, args: seq<Text>)
    ensures |argv| > 1 ==> Effective(argv, stored, file) == argv
    ensures Storable([RECOVERY] + args) && stored == Lines([RECOVERY] + args) && |stored| < RECOVERY_SIZE ==>
              Effective([name], stored, file) == [RECOVERY] + args
    ensures && stored == [] && file.Some? && Spells(file.value, args) && |args| < 100
            && (forall i :: 0 <= i < |args| ==> args[i] != [] && NoDelimiter(args[i])) ==>
              Effective([name], stored, file) == [name] + args
    ensures stored == [] && file == None ==> Effective([name], stored, file) == [name]
  {
    if Storable([RECOVERY] + args) && stored == Lines([RECOVERY] + args) && |stored| < RECOVERY_SIZE {
      var all := [RECOVERY] + args;
      assert [RECOVERY] + all[1..] == all;
      ReadBack(all);
      Restarted(all, name, file);
    }
    if && stored == [] && file.Some? && Spells(file.value, args) && |args| < MAX_ARGS
       && (forall i :: 0 <= i < |args| ==> args[i] != [] && NoDelimiter(args[i])) {
      CommandFileRead(file.value, args, MAX_ARGS - 1);
    }
  }

  lemma {:induction false} FirstTokenIsArg(s: Text)
    requires NUL !in s
    ensures FirstToken(s).Some? ==> IsArg(FirstToken(s).value)
  {
    if s == [] {
    } else {
      if s[0] in {RETURN, NEWLINE} {
        FirstTokenIsArg(s[1..]);
      } else {
        var n := Span(s, {RETURN, NEWLINE});
        assert n > 0;
      }
    }
  }

  /** Arguments from a command file can be stored. */
  lemma {:induction false} CommandArgsAreArgs(lines: seq<Text>, max: nat)
    requires forall i :: 0 <= i < |lines| ==> NUL !in lines[i]
    ensures AreArgs(CommandArgs(lines, max))
  {
    if lines == [] || max == 0 {
    } else {
      FirstTokenIsArg(lines[0]);
      CommandArgsAreArgs(lines[1..], max);
      if FirstToken(lines[0]).Some? {
        CommandArgsAreArgs(lines[1..], max - 1);
      }
    }
  }

  /**
   A run that starts without arguments after `args` were stored takes up what is stored, whatever
   is in the command file, and stores the same string again.
   */
  lemma Restarted(args: seq<Text>, name: Text, file: Option<seq<Text>>)
    requires Storable(args)
    ensures Some(Effective([name], Stored(args), file)) == Found(Stored(args))
    ensures Stored(Effective([name], Stored(args), file)) == Stored(args)
  {
    StoredAgain(args);
  }

  // ---- Strings in fixed-size fields ------------------------------------------------------------------

  /** The C string that starts at position `at` of a field. */
  function StrAt(field: seq<Byte>, at: nat): Text
    requires at <= |field|
  {
    field[at..][..Span(field[at..], {NUL})]
  }

  function Str(field: seq<Byte>): Text {
    StrAt(field, 0)
  }

  /** The string at position `at` is `s` if that is what is there, followed by NUL. */
  lemma StrIs(field: seq<Byte>, at: nat, s: Text)
    requires at + |s| < |field| && field[at..at + |s|] == s && field[at + |s|] == NUL && NUL !in s
    ensures StrAt(field, at) == s
  {
    var t := field[at..];
    var n := Span(t, {NUL});
    assert forall i :: 0 <= i < |s| ==> t[i] == s[i];
    assert n == |s|;
  }

  /** Copies `src` to position `at` of the field, as far as it fits, and ends it with NUL. */
  method CopyTo(dst: array<Byte>, at: nat, src: Text)
    requires at < dst.Length && NUL !in src
    requires NUL !in dst[..at]
    modifies dst
    ensures var all := old(dst[..at]) + src;
            Str(dst[..]) == if |all| < dst.Length then all else all[..dst.Length - 1]
    ensures exists i :: 0 <= i < dst.Length && dst[i] == NUL
    ensures forall i :: |Str(dst[..])| < i < dst.Length ==> dst[i] == old(dst[i])
  {
    ghost var all := dst[..at] + src;
    var i := 0;
    while i < |src| && at + i < dst.Length - 1
      invariant i <= |src| && at + i <= dst.Length - 1
      invariant dst[..at + i] == all[..at + i]
      invariant forall k :: at + i <= k < dst.Length ==> dst[k] == old(dst[k])
    {
      dst[at + i] := src[i];
      i := i + 1;
    }
    dst[at + i] := NUL;
    ghost var text := all[..at + i];
    assert dst[0..at + i] == text;
    StrIs(dst[..], 0, text);
  }

  /** strlcpy */
  method Strlcpy(dst: array<Byte>, src: Text)
    requires dst.Length > 0 && NUL !in src
    modifies dst
    ensures Str(dst[..]) == if |src| < dst.Length then src else src[..dst.Length - 1]
    ensures exists i :: 0 <= i < dst.Length && dst[i] == NUL
    ensures forall i :: |Str(dst[..])| < i < dst.Length ==> dst[i] == old(dst[i])
  {
    assert dst[..0] + src == src;
    CopyTo(dst, 0, src);
  }

  /** strlcat */
  method Strlcat(dst: array<Byte>, src: Text)
    requires NUL !in src && exists i :: 0 <= i < dst.Length && dst[i] == NUL
    modifies dst
    ensures var all := old(Str(dst[..])) + src;
            Str(dst[..]) == if |all| < dst.Length then all else all[..dst.Length - 1]
    ensures exists i :: 0 <= i < dst.Length && dst[i] == NUL
    ensures forall i :: |Str(dst[..])| < i < dst.Length ==> dst[i] == old(dst[i])
  {
    ghost var k :| 0 <= k < dst.Length && dst[k] == NUL;
    var n := 0;
    while dst[n] != NUL
      invariant 0 <= n <= k && NUL !in dst[..n]
      decreases k - n
    {
      n := n + 1;
    }
    assert dst[0..n] == dst[..n];
    StrIs(dst[..], 0, dst[..n]);
    CopyTo(dst, n, src);
  }

  lemma StrStep(field: seq<Byte>, at: nat)
    requires at < |field| && field[at] != NUL
    ensures StrAt(field, at) == [field[at]] + StrAt(field, at + 1)
  {
    assert field[at..][1..] == field[at + 1..];
  }

  /** Leading newlines hold no token. */
  lemma {:induction false} SkipNewlines(field: seq<Byte>, at: nat, start: nat)
    requires at <= start < |field| && forall i :: at <= i < start ==> field[i] == NEWLINE
    ensures Tokens(StrAt(field, at)) == Tokens(StrAt(field, start))
    decreases start - at
  {
    if at == start {
    } else {
      StrStep(field, at);
      assert ([NEWLINE] + StrAt(field, at + 1))[1..] == StrAt(field, at + 1);
      SkipNewlines(field, at + 1, start);
    }
  }

  /** A token from `start` to `end`, and what comes after it. */
  lemma TokenAt(field: seq<Byte>, start: nat, end: nat)
    requires start < end < |field| && field[end] in {NUL, NEWLINE}
    requires forall i :: start <= i < end ==> field[i] !in {NUL, NEWLINE}
    ensures var token := field[start..end];
            && IsArg(token)
            && Tokens(StrAt(field, start)) == [token] + if field[end] == NUL then [] else Tokens(StrAt(field, end + 1))
  {
    var token := field[start..end];
    assert IsArg(token);
    if field[end] == NUL {
      StrIs(field, start, token);
      TokenThen(token, []);
    } else {
      var rest := StrAt(field, end + 1);
      StrAcross(field, start, end);
      TokenThen(token, rest);
    }
  }

  lemma {:induction false} StrAcross(field: seq<Byte>, start: nat, end: nat)
    requires start <= end < |field| && forall i :: start <= i <= end ==> field[i] != NUL
    ensures StrAt(field, start) == field[start..end] + [field[end]] + StrAt(field, end + 1)
    decreases end - start
  {
    hide StrAt;
    StrStep(field, start);
    if start == end {
    } else {
      StrAcross(field, start + 1, end);
      assert field[start..end] == [field[start]] + field[start + 1..end];
    }
  }

  /** Skips newlines. */
  method TokenStart(field: array<Byte>, at: nat) returns (start: nat)
    requires at < field.Length && field[field.Length - 1] == NUL
    ensures at <= start < field.Length && field[start] != NEWLINE
    ensures Tokens(StrAt(field[..], at)) == Tokens(StrAt(field[..], start))
  {
    start := at;
    while field[start] == NEWLINE
      invariant at <= start < field.Length && forall i :: at <= i < start ==> field[i] == NEWLINE
      decreases field.Length - start
    {
      start := start + 1;
    }
    SkipNewlines(field[..], at, start);
  }

  /** Skips to the next newline or the end of the string. */
  method TokenEnd(field: array<Byte>, start: nat) returns (end: nat)
    requires start < field.Length && field[field.Length - 1] == NUL && field[start] !in {NUL, NEWLINE}
    ensures start < end < field.Length && field[end] in {NUL, NEWLINE}
    ensures Tokens(StrAt(field[..], start)) == [field[start..end]]
            + if field[end] == NUL then [] else Tokens(StrAt(field[..], end + 1))
  {
    hide Tokens, StrAt;
    end := start + 1;
    while field[end] != NUL && field[end] != NEWLINE
      invariant start < end < field.Length && forall i :: start <= i < end ==> field[i] !in {NUL, NEWLINE}
      decreases field.Length - end
    {
      end := end + 1;
    }
    TokenAt(field[..], start, end);
    assert field[..][start..end] == field[start..end];
  }

  /** One call of strtok: the next token from `at` on, and where to go on. */
  method NextToken(field: array<Byte>, at: nat) returns (token: Option<Text>, next: nat)
    requires at < field.Length && field[field.Length - 1] == NUL
    modifies field
    ensures at <= next < field.Length && forall i :: next <= i < field.Length ==> field[i] == old(field[i])
    ensures match token
            case None => Tokens(old(StrAt(field[..], at))) == []
            case Some(t) => Tokens(old(StrAt(field[..], at))) == [t] + Tokens(StrAt(field[..], next))
  {
    hide StrAt;
    var start := TokenStart(field, at);
    if field[start] == NUL {
      StrIs(field[..], start, []);
      return None, start;
    }
    var end := TokenEnd(field, start);
    token := Some(field[start..end]);
    ghost var before := field[..];
    if field[end] == NUL {
      StrIs(before, end, []);
      next := end;
    } else {
      field[end] := NUL;
      next := end + 1;
      SameFrom(before, field[..], next);
    }
  }

  lemma SameFrom(before: seq<Byte>, after: seq<Byte>, at: nat)
    requires |before| == |after| && at <= |after| && forall i :: at <= i < |after| ==> after[i] == before[i]
    ensures StrAt(before, at) == StrAt(after, at)
  {
    assert before[at..] == after[at..];
  }

  /** Splits the recovery field into arguments, provided that the first is "recovery". */
  method SplitField(field: array<Byte>) returns (args: Option<seq<Text>>)
    requires field.Length > 0 && field[field.Length - 1] == NUL
    modifies field
    ensures field[field.Length - 1] == NUL && args == Found(old(Str(field[..])))
  {
    hide Tokens, StrAt;
    ghost var all := Tokens(Str(field[..]));
    var token, at := NextToken(field, 0);
    if token == None || token.value != RECOVERY {
      return None;
    }
    var list := [token.value];
    while |list| < MAX_ARGS
      invariant 1 <= |list| <= MAX_ARGS && at < field.Length && field[field.Length - 1] == NUL
      invariant list + Tokens(StrAt(field[..], at)) == all
    {
      token, at := NextToken(field, at);
      if token == None {
        assert list == all;
        return Some(list);
      }
      list := list + [token.value];
    }
    assert list == all[..MAX_ARGS] && (|all| == MAX_ARGS ==> list == all);
    return Some(list);
  }

  lemma {:induction false} LinesGrow(args: seq<Text>, a: Text)
    ensures Lines(args + [a]) == Lines(args) + a + [NEWLINE]
  {
    if args == [] {
      assert ([] + [a])[1..] == [];
    } else {
      assert (args + [a])[1..] == args[1..] + [a];
      LinesGrow(args[1..], a);
    }
  }

  /** Cutting off early or late makes no difference. */
  lemma KeptAgain(s: Text, t: Text)
    ensures Kept(Kept(s) + t) == Kept(s + t)
  {
  }

  lemma KeptShort(s: Text)
    requires |s| <= LIMIT
    ensures Kept(s) == s
  {
  }

  predicate AreStrings(args: seq<Text>) {
    forall i :: 0 <= i < |args| ==> NUL !in args[i]
  }

  method AppendLine(field: array<Byte>, arg: Text, ghost before: Text)
    requires field.Length == RECOVERY_SIZE && NUL !in arg && Str(field[..]) == Kept(before)
    requires exists k :: 0 <= k < field.Length && field[k] == NUL
    modifies field
    ensures Str(field[..]) == Kept(before + arg + [NEWLINE])
    ensures exists k :: 0 <= k < field.Length && field[k] == NUL
  {
    hide StrAt;
    Strlcat(field, arg);
    KeptAgain(before, arg);
    Strlcat(field, [NEWLINE]);
    KeptAgain(before + arg, [NEWLINE]);
  }

  /** The arguments are written back into the recovery field, whatever it held. */
  method WriteArgs(field: array<Byte>, args: seq<Text>)
    requires field.Length == RECOVERY_SIZE && args != [] && AreStrings(args)
    modifies field
    ensures Str(field[..]) == Stored(args)
  {
    hide StrAt, Kept;
    Strlcpy(field, RECOVERY + [NEWLINE]);
    assert Lines([RECOVERY]) == RECOVERY + [NEWLINE];
    assert [RECOVERY] + args[1..1] == [RECOVERY];
    KeptShort(RECOVERY + [NEWLINE]);
    for i := 1 to |args|
      invariant Str(field[..]) == Kept(Lines([RECOVERY] + args[1..i]))
      invariant exists k :: 0 <= k < field.Length && field[k] == NUL
    {
      ghost var before := [RECOVERY] + args[1..i];
      AppendLine(field, args[i], Lines(before));
      LinesGrow(before, args[i]);
      assert [RECOVERY] + args[1..i + 1] == before + [args[i]];
    }
    assert args[1..|args|] == args[1..];
  }

  /** The part of struct bootloader_message that get_args uses. */
  class BootMessage {
    const command: array<Byte>
    const recovery: array<Byte>

    predicate Valid() {
      command.Length == COMMAND_SIZE && recovery.Length == RECOVERY_SIZE && command != recovery
    }

    constructor ()
      ensures Valid() && fresh(command) && fresh(recovery)
      ensures Str(command[..]) == [] && Str(recovery[..]) == []
    {
      command := new Byte[COMMAND_SIZE](_ => NUL);
      recovery := new Byte[RECOVERY_SIZE](_ => NUL);
      new;
      StrIs(command[..], 0, []);
      StrIs(recovery[..], 0, []);
    }
  }

  /** The call of strtok on a line of the command file. */
  method TokenOfLine(line: Text) returns (token: Option<Text>)
    ensures token == FirstToken(line)
  {
    var start := 0;
    while start < |line| && (line[start] == RETURN || line[start] == NEWLINE)
      invariant start <= |line| && AllDelimiters(line[..start])
    {
      start := start + 1;
    }
    if start == |line| {
      assert line[..start] == line;
      NoToken(line);
      return None;
    }
    var end := start + 1;
    while end < |line| && line[end] != RETURN && line[end] != NEWLINE
      invariant start < end <= |line| && forall i :: start <= i < end ==> line[i] != RETURN && line[i] != NEWLINE
    {
      end := end + 1;
    }
    assert NoDelimiter(line[start..end]) && line == line[..start] + line[start..end] + line[end..];
    FirstTokenOf(line, line[..start], line[start..end], line[end..]);
    return Some(line[start..end]);
  }

  /** The arguments in the lines of the command file. */
  method ReadCommandFile(name: Text, lines: seq<Text>) returns (args: seq<Text>)
    ensures args == [name] + CommandArgs(lines, MAX_ARGS - 1)
  {
    args := [name];
    var i := 0;
    while |args| < MAX_ARGS && i < |lines|
      invariant i <= |lines| && 1 <= |args| <= MAX_ARGS
      invariant args + CommandArgs(lines[i..], MAX_ARGS - |args|) == [name] + CommandArgs(lines, MAX_ARGS - 1)
    {
      var token := TokenOfLine(lines[i]);
      assert lines[i..][1..] == lines[i + 1..];
      if token.Some? {
        args := args + [token.value];
      }
      i := i + 1;
    }
  }

  /** get_args: `file` holds the lines of the command file, if there is one. */
  method GetArgs(boot: BootMessage, argv: seq<Text>, file: Option<seq<Text>>) returns (args: seq<Text>)
    requires boot.Valid() && argv != [] && AreStrings(argv) && (file.Some? ==> AreStrings(file.value))
    modifies boot.command, boot.recovery
    ensures args == Effective(argv, old(Str(boot.recovery[..LIMIT] + [NUL])), file)
    ensures |argv| > 1 ==> args == argv
    ensures Str(boot.command[..]) == BOOT_RECOVERY && Str(boot.recovery[..]) == Stored(args)
  {
    args := argv;
    if |args| <= 1 {
      boot.recovery[LIMIT] := NUL;
      assert boot.recovery[..] == old(boot.recovery[..LIMIT]) + [NUL];
      var found := SplitField(boot.recovery);
      if found.Some? {
        args := found.value;
      }
    }
    if |args| <= 1 && file.Some? {
      args := ReadCommandFile(args[0], file.value);
    }
    EffectiveStrings(argv, old(Str(boot.recovery[..LIMIT] + [NUL])), file);
    Strlcpy(boot.command, BOOT_RECOVERY);
    WriteArgs(boot.recovery, args);
  }

  lemma {:induction false} TokensAreStrings(s: Text)
    requires NUL !in s
    ensures AreStrings(Tokens(s))
    decreases |s|
  {
    if s == [] {
    } else {
      if s[0] == NEWLINE {
        TokensAreStrings(s[1..]);
      } else {
        var n := Span(s, {NEWLINE});
        TokensAreStrings(s[n..]);
      }
    }
  }

  lemma EffectiveStrings(argv: seq<Text>, stored: Text, file: Option<seq<Text>>)
    requires argv != [] && AreStrings(argv) && NUL !in stored && (file.Some? ==> AreStrings(file.value))
    ensures AreStrings(Effective(argv, stored, file))
  {
    TokensAreStrings(stored);
    if file.Some? {
      CommandArgsAreArgs(file.value, MAX_ARGS - 1);
    }
  }
}

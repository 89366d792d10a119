/**
 * Shell quoting and its inverse: a tokenizer for sections 2.2 and 2.3 of the POSIX Shell Command
 * Language, restricted to single quotes and backslashes.  It gives up on text that those sections
 * would not read as words alone: operators, comments, expansions, patterns and assignments.
 */
module Quoting {
  import opened Bytes

  // ---------------------------------------------------------------------------
  // The tokenizer
  // ---------------------------------------------------------------------------

  /** Between words, inside a word, inside single quotes, or right after a backslash. */
  datatype Mode = Gap | Word | Quoted | Escaped

  datatype Lexer = Lexer(mode: Mode, word: string, words: seq<string>)

  const START: Lexer := Lexer(Gap, "", [])

  predicate IsBlank(c: char) {
    c == ' ' || c == '\t'
  }

  /** Unquoted characters that an operator, an expansion or a pattern begins with, wherever they stand. */
  predicate IsSpecial(c: char) {
    || c == '|' || c == '&' || c == ';' || c == '<' || c == '>' || c == '(' || c == ')'
    || c == '$' || c == '`' || c == '\"' || c == '*' || c == '?' || c == '\n'
  }

  predicate IsOrdinary(c: char) {
    !IsBlank(c) && !IsSpecial(c) && c != '\'' && c != '\\'
  }

  predicate IsNameStart(c: char) {
    'a' <= c <= 'z' || 'A' <= c <= 'Z' || c == '_'
  }

  predicate IsName(w: string) {
    w != "" && IsNameStart(w[0]) && forall i :: 0 <= i < |w| ==> IsNameStart(w[i]) || '0' <= w[i] <= '9'
  }

  /** After `w`, a closing bracket would complete a bracket expression of a pattern. */
  predicate OpensBracket(w: string) {
    exists i :: 0 <= i < |w| && w[i] == '[' && '/' !in w[i + 1..] && w[i + 1..] != "" && w[i + 1..] != "!"
  }

  /**
   * Characters with a meaning in some places only: `#` and `~` where a word would start, `=` after a
   * name in the first word (an assignment), `]` where it completes a bracket expression.
   */
  predicate Stops(l: Lexer, c: char) {
    || IsSpecial(c)
    || (l.mode.Gap? && (c == '#' || c == '~'))
    || (c == '=' && l.words == [] && IsName(l.word))
    || (c == ']' && OpensBracket(l.word))
  }

  /** One character; None when the text stops being a list of plain words. */
  function Feed(l: Lexer, c: char): (r: Option<Lexer>) {
    match l.mode
    case Quoted => Some(if c == '\'' then l.(mode := Word) else l.(word := l.word + [c]))
    case Escaped => if c == '\n' then None else Some(l.(mode := Word, word := l.word + [c]))
    case _ =>
      if c == '\'' then Some(l.(mode := Quoted))
      else if c == '\\' then Some(l.(mode := Escaped))
      else if IsBlank(c) then Some(if l.mode.Gap? then l else Lexer(Gap, "", l.words + [l.word]))
      else if Stops(l, c) then None
      else Some(l.(mode := Word, word := l.word + [c]))
  }

  /** Sections 2.2.1 and 2.2.2: a backslash keeps the next character, except a line end; quotes keep all but a quote. */
  lemma QuotingRules(l: Lexer, c: char)
    ensures l.mode == Escaped && c != '\n' ==> Feed(l, c) == Some(Lexer(Word, l.word + [c], l.words))
    ensures l.mode == Escaped && c == '\n' ==> Feed(l, c) == None
    ensures l.mode == Quoted && c != '\'' ==> Feed(l, c) == Some(Lexer(Quoted, l.word + [c], l.words))
    ensures l.mode == Quoted && c == '\'' ==> Feed(l, c) == Some(Lexer(Word, l.word, l.words))
    ensures l.mode == Word && (c == ' ' || c == '\t') ==> Feed(l, c) == Some(Lexer(Gap, "", l.words + [l.word]))
    ensures (l.mode == Gap || l.mode == Word) && c in "|&;<>()$`\"*?\n" ==> Feed(l, c) == None
  {
  }

  function RunFrom(l: Lexer, s: string): (r: Option<Lexer>)
    decreases |s|
  {
    if s == "" then Some(l)
    else
      var next := Feed(l, s[0]);
      if next.None? then None else RunFrom(next.value, s[1..])
  }

  /** The words of a command line, if it consists of plain and quoted words only. */
  function Split(s: string): (r: Option<seq<string>>) {
    var l := RunFrom(START, s);
    if l.None? then None
    else match l.value.mode
      case Gap => Some(l.value.words)
      case Word => Some(l.value.words + [l.value.word])
      case _ => None
  }

  lemma {:induction false} RunConcat(l: Lexer, a: string, b: string)
    ensures RunFrom(l, a + b) ==
            var mid := RunFrom(l, a);
            if mid.None? then None else RunFrom(mid.value, b)
    decreases |a|
  {
    hide Feed;
    if a == "" {
      assert a + b == b;
    } else {
      assert (a + b)[1..] == a[1..] + b;
      var next := Feed(l, a[0]);
      if next.Some? {
        RunConcat(next.value, a[1..], b);
      }
    }
  }

  lemma RunOne(l: Lexer, c: char)
    ensures RunFrom(l, [c]) == Feed(l, c)
  {
    hide Feed;
    assert [c][1..] == "";
  }

  // ---------------------------------------------------------------------------
  // Quoting
  // ---------------------------------------------------------------------------

  /** `replace('\'', "'\\''")`. */
  function Escape(s: string): (r: string) {
    if s == "" then ""
    else (if s[0] == '\'' then "'\\''" else [s[0]]) + Escape(s[1..])
  }

  function ShellQuote(arg: string): (r: string) {
    if arg == "" then "''" else "'" + Escape(arg) + "'"
  }

  /** Inside quotes, escaped text is read back as the text itself. */
  lemma {:induction false} EscapedReadsBack(l: Lexer, s: string)
    requires l.mode == Quoted
    ensures RunFrom(l, Escape(s)) == Some(l.(word := l.word + s))
    decreases |s|
  {
    if s == "" {
      assert l.word + s == l.word;
    } else {
      hide Feed, Escape;
      var c := s[0];
      EscapeUnit(l, c);
      var unit := if c == '\'' then "'\\''" else [c];
      assert Escape(s) == unit + Escape(s[1..]) by { EscapeCons(s); }
      RunConcat(l, unit, Escape(s[1..]));
      EscapedReadsBack(l.(word := l.word + [c]), s[1..]);
      assert l.word + [c] + s[1..] == l.word + s;
    }
  }

  lemma EscapeCons(s: string)
    requires s != ""
    ensures Escape(s) == (if s[0] == '\'' then "'\\''" else [s[0]]) + Escape(s[1..])
  {
  }

  lemma EscapeUnit(l: Lexer, c: char)
    requires l.mode == Quoted
    ensures RunFrom(l, if c == '\'' then "'\\''" else [c]) == Some(l.(word := l.word + [c]))
  {
    if c == '\'' {
      var s := "'\\''";
      assert s[1..] == "\\''" && s[1..][1..] == "''" && s[1..][1..][1..] == "'" && s[1..][1..][1..][1..] == "";
      var l1 := l.(mode := Word);
      var l2 := l.(mode := Escaped);
      var l3 := l.(mode := Word, word := l.word + [c]);
      assert Feed(l, '\'') == Some(l1) && Feed(l1, '\\') == Some(l2) && Feed(l2, '\'') == Some(l3);
      assert Feed(l3, '\'') == Some(l.(word := l.word + [c]));
      assert RunFrom(l3, "'") == Some(l.(word := l.word + [c]));
      assert RunFrom(l2, "''") == RunFrom(l3, "'");
      assert RunFrom(l1, "\\''") == RunFrom(l2, "''");
    } else {
      RunOne(l, c);
    }
  }

  /** A quoted argument is read as exactly that word, whatever it contains. */
  lemma QuotedIsOneWord(l: Lexer, arg: string)
    requires l.mode == Gap && l.word == ""
    ensures RunFrom(l, ShellQuote(arg)) == Some(l.(mode := Word, word := arg))
  {
    var open := l.(mode := Quoted);
    RunOne(l, '\'');
    assert Escape("") == "";
    assert ShellQuote(arg) == "'" + (Escape(arg) + "'");
    RunConcat(l, "'", Escape(arg) + "'");
    RunConcat(open, Escape(arg), "'");
    EscapedReadsBack(open, arg);
    assert open.word + arg == arg;
    RunOne(open.(word := arg), '\'');
  }

  /** Arguments joined by single spaces; the first may be written as it is. */
  function Join(argv: seq<string>, bareFirst: bool): (r: string) {
    if argv == [] then ""
    else
      var last := argv[|argv| - 1];
      var text := if bareFirst && |argv| == 1 then last else ShellQuote(last);
      if |argv| == 1 then text else Join(argv[..|argv| - 1], bareFirst) + " " + text
  }

  method BuildRemoteCommand(argv: seq<string>) returns (result: string)
    ensures result == Join(argv, false)
    ensures Split(result) == Some(argv)
  {
    hide ShellQuote, Split;
    result := "";
    for index := 0 to |argv|
      invariant result == Join(argv[..index], false)
    {
      var more := argv[..index + 1];
      assert more[..index] == argv[..index] && more[index] == argv[index];
      if index > 0 {
        result := result + " ";
      }
      result := result + ShellQuote(argv[index]);
    }
    assert argv[..|argv|] == argv;
    JoinSplits(argv, false);
  }

  /** Letters, digits and `_ - . / +`. */
  predicate IsSafeChar(c: char) {
    'a' <= c <= 'z' || 'A' <= c <= 'Z' || '0' <= c <= '9'
    || c == '_' || c == '-' || c == '.' || c == '/' || c == '+'
  }

  predicate IsSafeWord(arg: string) {
    arg != "" && forall i :: 0 <= i < |arg| ==> IsSafeChar(arg[i])
  }

  /** Reads as itself wherever it stands in a command line. */
  predicate IsPlainWord(w: string) {
    && w != "" && w[0] != '#' && w[0] != '~'
    && (forall i :: 0 <= i < |w| ==> IsOrdinary(w[i]))
    && (forall i :: 0 <= i < |w| && w[i] == ']' ==> !OpensBracket(w[..i]))
  }

  /** And as the first word, too: it is not an assignment. */
  predicate IsCommandWord(w: string) {
    IsPlainWord(w) && forall i :: 0 <= i < |w| && w[i] == '=' ==> !IsName(w[..i])
  }

  /** Characters without a meaning anywhere. */
  predicate IsInert(c: char) {
    IsOrdinary(c) && c != '#' && c != '~' && c != '=' && c != ']'
  }

  predicate AllInert(w: string) {
    forall i :: 0 <= i < |w| ==> IsInert(w[i])
  }

  lemma SafeIsInert(w: string)
    requires IsSafeWord(w)
    ensures AllInert(w)
  {
    forall i | 0 <= i < |w|
      ensures IsInert(w[i])
    {
      assert IsSafeChar(w[i]);
    }
  }

  lemma {:induction false} InertExtends(l: Lexer, w: string)
    requires (l.mode == Gap || l.mode == Word) && w != "" && AllInert(w)
    ensures RunFrom(l, w) == Some(l.(mode := Word, word := l.word + w))
    decreases |w|
  {
    hide OpensBracket, IsName;
    var next := l.(mode := Word, word := l.word + [w[0]]);
    assert Feed(l, w[0]) == Some(next) by {
      assert IsInert(w[0]);
    }
    if |w| == 1 {
      assert w == [w[0]] && w[1..] == "";
    } else {
      InertExtends(next, w[1..]);
      assert next.word + w[1..] == l.word + w;
    }
  }

  /** The lexer inside a bare word of which it has read `w`. */
  function Inside(words: seq<string>, w: string): Lexer {
    if w == "" then Lexer(Gap, "", words) else Lexer(Word, w, words)
  }

  lemma {:induction false} PlainPrefix(words: seq<string>, w: string, k: nat)
    requires k <= |w| && (if words == [] then IsCommandWord(w) else IsPlainWord(w))
    ensures RunFrom(Lexer(Gap, "", words), w[..k]) == Some(Inside(words, w[..k]))
    decreases k
  {
    if k > 0 {
      PlainPrefix(words, w, k - 1);
      var before, c := w[..k - 1], w[k - 1];
      assert w[..k] == before + [c];
      RunConcat(Lexer(Gap, "", words), before, [c]);
      RunOne(Inside(words, before), c);
      PlainCharIsTaken(words, w, k - 1);
    }
  }

  lemma PlainCharIsTaken(words: seq<string>, w: string, i: nat)
    requires i < |w| && (if words == [] then IsCommandWord(w) else IsPlainWord(w))
    ensures Feed(Inside(words, w[..i]), w[i]) == Some(Lexer(Word, w[..i + 1], words))
  {
    hide OpensBracket, IsName;
    assert IsOrdinary(w[i]) && w[..i + 1] == w[..i] + [w[i]];
  }

  lemma PlainIsOneWord(words: seq<string>, w: string)
    requires if words == [] then IsCommandWord(w) else IsPlainWord(w)
    ensures RunFrom(Lexer(Gap, "", words), w) == Some(Lexer(Word, w, words))
  {
    PlainPrefix(words, w, |w|);
    assert w[..|w|] == w;
  }

  /** The first word stays bare, for alias expansion, when it is safe. */
  method BuildInteractiveShellCommand(argv: seq<string>) returns (result: string)
    ensures result == Join(argv, argv != [] && IsSafeWord(argv[0]))
    ensures Split(result) == Some(argv)
    ensures argv != [] ==> result != ""
    ensures argv != [] && IsSafeWord(argv[0]) ==> argv[0] <= result
    ensures argv != [] && !IsSafeWord(argv[0]) ==> result[0] == '\''
  {
    JoinStarts(argv);
    hide ShellQuote, IsSafeWord, Split, IsSafeChar;
    var bare := |argv| > 0 && IsSafeWord(argv[0]);
    result := "";
    for index := 0 to |argv|
      invariant result == Join(argv[..index], bare)
    {
      var more := argv[..index + 1];
      assert more[..index] == argv[..index] && more[index] == argv[index];
      if index > 0 {
        result := result + " ";
      }
      if index == 0 && IsSafeWord(argv[index]) {
        result := result + argv[index];
      } else {
        result := result + ShellQuote(argv[index]);
      }
    }
    assert argv[..|argv|] == argv;
    JoinSplits(argv, bare);
  }

  /** How a command line begins: with the bare first word if that is safe, with a quote if not. */
  lemma JoinStarts(argv: seq<string>)
    ensures argv != [] ==>
              && var line := Join(argv, IsSafeWord(argv[0]));
              line != "" && if IsSafeWord(argv[0]) then argv[0] <= line else line[0] == '\''
  {
    if argv != [] {
      JoinStartsWith(argv, IsSafeWord(argv[0]));
    }
  }

  lemma {:induction false} JoinStartsWith(argv: seq<string>, bare: bool)
    requires argv != [] && (bare ==> argv[0] != "")
    ensures var line := Join(argv, bare); line != "" && if bare then argv[0] <= line else line[0] == '\''
    decreases |argv|
  {
    if |argv| > 1 {
      JoinStartsWith(argv[..|argv| - 1], bare);
    }
  }

  /** Which words, and which characters, are safe. */
  lemma SafeWordsAre(arg: string, c: char)
    ensures IsSafeWord(arg) <==> arg != "" && forall i :: 0 <= i < |arg| ==> IsSafeChar(arg[i])
    ensures 'a' <= c <= 'z' || 'A' <= c <= 'Z' || '0' <= c <= '9' ==> IsSafeChar(c)
    ensures c == '_' || c == '-' || c == '.' || c == '/' || c == '+' ==> IsSafeChar(c)
    ensures c == ' ' || c == '\'' || c == '"' || c == '$' || c == ';' || c == '=' || c == '~' || c == '\\' ==> !IsSafeChar(c)
  {
  }

  /** Tokenizing a joined command line gives the argument vector back. */
  lemma {:induction false} JoinReadsBack(argv: seq<string>, bare: bool)
    requires argv != [] && (bare ==> IsSafeWord(argv[0]))
    ensures RunFrom(START, Join(argv, bare)) == Some(Lexer(Word, argv[|argv| - 1], argv[..|argv| - 1]))
    decreases |argv|
  {
    hide Feed, ShellQuote, IsSafeWord;
    var n := |argv| - 1;
    var last := argv[n];
    if n == 0 {
      assert argv[..n] == [];
      if bare {
        SafeIsInert(last);
        assert last != "" by { SafeNotEmpty(last); }
        InertExtends(START, last);
        assert "" + last == last;
      } else {
        QuotedIsOneWord(START, last);
      }
    } else {
      var front := argv[..n];
      JoinReadsBack(front, bare);
      var text := ShellQuote(last);
      RunConcat(START, Join(front, bare) + " ", text);
      RunConcat(START, Join(front, bare), " ");
      var mid := Lexer(Word, front[n - 1], front[..n - 1]);
      BlankEndsWord(mid);
      assert front[..n - 1] + [front[n - 1]] == front;
      QuotedIsOneWord(Lexer(Gap, "", front), last);
    }
  }

  lemma SafeNotEmpty(w: string)
    requires IsSafeWord(w)
    ensures w != ""
  {
  }

  lemma BlankEndsWord(l: Lexer)
    requires l.mode == Word
    ensures RunFrom(l, " ") == Some(Lexer(Gap, "", l.words + [l.word]))
  {
    RunOne(l, ' ');
  }

  lemma JoinSplits(argv: seq<string>, bare: bool)
    requires bare ==> argv != [] && IsSafeWord(argv[0])
    ensures Split(Join(argv, bare)) == Some(argv)
  {
    hide Feed, IsSafeWord;
    if argv != [] {
      JoinReadsBack(argv, bare);
      assert argv[..|argv| - 1] + [argv[|argv| - 1]] == argv;
    }
  }

  // ---------------------------------------------------------------------------
  // Wrapping in a shell
  // ---------------------------------------------------------------------------

  predicate IsSeparator(c: char) {
    c == '/' || c == '\\'
  }

  /** What follows the last separator. */
  function AfterLastSeparator(name: string): (r: string) {
    if name == "" || IsSeparator(name[|name| - 1]) then ""
    else AfterLastSeparator(name[..|name| - 1]) + [name[|name| - 1]]
  }

  /** The basename, or the whole name when it ends in a separator. */
  function ShellBasename(name: string): (r: string) {
    if AfterLastSeparator(name) == "" then name else AfterLastSeparator(name)
  }

  function Lower(s: string): (r: string) {
    seq(|s|, i requires 0 <= i < |s| => if 'A' <= s[i] <= 'Z' then ((s[i] as int) + 32) as char else s[i])
  }

  function ShellFlags(name: string): (r: string) {
    if Lower(ShellBasename(name)) in ["bash", "bash.exe", "zsh", "zsh.exe"] then "-ic" else "-c"
  }

  function WrapInShell(inner: string, name: string): (r: string) {
    ShellBasename(name) + " " + ShellFlags(name) + " '" + Escape(inner) + "'"
  }

  lemma {:induction false} NoSeparator(name: string)
    requires forall i :: 0 <= i < |name| ==> !IsSeparator(name[i])
    ensures AfterLastSeparator(name) == name
  {
    if name != "" {
      NoSeparator(name[..|name| - 1]);
      assert name == name[..|name| - 1] + [name[|name| - 1]];
    }
  }

  /** The basename: after the last slash or backslash, whole without one, and whole if nothing follows. */
  lemma {:induction false} BasenameIs(dir: string, base: string)
    requires forall i :: 0 <= i < |base| ==> base[i] != '/' && base[i] != '\\'
    ensures base != "" ==> ShellBasename(dir + "/" + base) == base && ShellBasename(dir + "\\" + base) == base
    ensures ShellBasename(base) == base
    ensures ShellBasename(dir + "/") == dir + "/"
  {
    NoSeparator(base);
    if base != "" {
      BasenameOf(dir, '/', base);
      BasenameOf(dir, '\\', base);
    }
    var slashed := dir + "/";
    assert slashed[|slashed| - 1] == '/';
  }

  /** Interactive flags for bash and zsh, however they are spelt or where they are. */
  lemma InteractiveFlags(dir: string)
    ensures ShellFlags("bash") == "-ic" && ShellFlags("BASH.EXE") == "-ic"
    ensures ShellFlags(dir + "/" + "zsh") == "-ic" && ShellFlags(dir + "/" + "zsh.exe") == "-ic"
  {
    hide AfterLastSeparator, ShellBasename;
    BasenameIs(dir, "bash");
    BasenameIs(dir, "zsh");
    BasenameIs(dir, "zsh.exe");
    BasenameIs(dir, "BASH.EXE");
    assert Lower("bash") == "bash" && Lower("zsh") == "zsh" && Lower("zsh.exe") == "zsh.exe";
    assert Lower("BASH.EXE") == "bash.exe";
  }

  /** Plain flags for others. */
  lemma PlainFlags(dir: string)
    ensures ShellFlags("sh") == "-c" && ShellFlags(dir + "/" + "fish") == "-c"
  {
    hide AfterLastSeparator, ShellBasename;
    BasenameIs(dir, "sh");
    BasenameIs(dir, "fish");
    assert Lower("sh") == "sh" && Lower("fish") == "fish";
    assert "fish"[0] != "bash"[0];
  }

  lemma FlagsAreInert(name: string)
    ensures ShellFlags(name) != "" && AllInert(ShellFlags(name))
  {
  }

  /** After the shell word: the flags, a blank and the quoted command. */
  function WrapRest(inner: string, flags: string): (r: string) {
    " " + flags + " " + ("'" + Escape(inner) + "'")
  }

  lemma RestReadsBack(l: Lexer, inner: string, flags: string)
    requires l.mode == Word && flags != "" && AllInert(flags)
    ensures RunFrom(l, WrapRest(inner, flags)) == Some(Lexer(Word, inner, l.words + [l.word, flags]))
  {
    hide Feed, Escape, AllInert;
    var quoted := "'" + Escape(inner) + "'";
    RunConcat(l, " " + flags + " ", quoted);
    RunConcat(l, " " + flags, " ");
    RunConcat(l, " ", flags);
    BlankEndsWord(l);
    var l1 := Lexer(Gap, "", l.words + [l.word]);
    InertExtends(l1, flags);
    assert "" + flags == flags;
    BlankEndsWord(Lexer(Word, flags, l1.words));
    assert l1.words + [flags] == l.words + [l.word, flags];
    QuotesAlways(Lexer(Gap, "", l.words + [l.word, flags]), inner);
  }

  lemma QuotesAlways(l: Lexer, s: string)
    requires l.mode == Gap && l.word == ""
    ensures RunFrom(l, "'" + Escape(s) + "'") == Some(l.(mode := Word, word := s))
  {
    hide Feed;
    QuotedIsOneWord(l, s);
    assert Escape("") == "";
    assert ShellQuote(s) == "'" + Escape(s) + "'";
  }

  lemma WrapIsRest(inner: string, name: string)
    ensures WrapInShell(inner, name) == ShellBasename(name) + WrapRest(inner, ShellFlags(name))
  {
    hide ShellBasename, ShellFlags, Escape;
    var b, f, e := ShellBasename(name), ShellFlags(name), Escape(inner);
    assert b + " " + f + " '" + e + "'" == b + (" " + f + " " + ("'" + e + "'"));
  }

  /** The wrapped form reads as `[basename, flags, inner]`. */
  lemma WrapSplits(inner: string, name: string)
    requires IsCommandWord(ShellBasename(name))
    ensures Split(WrapInShell(inner, name)) == Some([ShellBasename(name), ShellFlags(name), inner])
  {
    hide Feed, ShellBasename, ShellFlags, IsCommandWord, AllInert, WrapRest, WrapInShell;
    var base := ShellBasename(name);
    FlagsAreInert(name);
    WrapIsRest(inner, name);
    RunConcat(START, base, WrapRest(inner, ShellFlags(name)));
    PlainIsOneWord([], base);
    RestReadsBack(Lexer(Word, base, []), inner, ShellFlags(name));
    assert [] + [base, ShellFlags(name)] == [base, ShellFlags(name)];
    assert [base, ShellFlags(name)] + [inner] == [base, ShellFlags(name), inner];
  }

  // ---------------------------------------------------------------------------
  // Exactly which shell names survive
  // ---------------------------------------------------------------------------

  function TotalLength(words: seq<string>): (n: nat) {
    if words == [] then 0 else TotalLength(words[..|words| - 1]) + |words[|words| - 1]|
  }

  lemma TotalAppend(words: seq<string>, w: string)
    ensures TotalLength(words + [w]) == TotalLength(words) + |w|
  {
    assert (words + [w])[..|words|] == words;
  }

  /** A character adds at most one character to the words, and exactly one only if it is kept. */
  lemma FeedLength(l: Lexer, c: char)
    requires Feed(l, c).Some?
    ensures var r := Feed(l, c).value;
            var before, after := TotalLength(l.words) + |l.word|, TotalLength(r.words) + |r.word|;
            && after <= before + 1
            && (after == before + 1 && (l.mode == Gap || l.mode == Word) ==>
                  IsOrdinary(c) && !Stops(l, c) && r == l.(mode := Word, word := l.word + [c]))
  {
    hide OpensBracket, IsName;
    TotalAppend(l.words, l.word);
  }

  /** Text that loses nothing in tokenizing is one bare word. */
  lemma {:induction false} NothingLost(s: string)
    requires RunFrom(START, s).Some?
    ensures var r := RunFrom(START, s).value;
            var kept := TotalLength(r.words) + |r.word|;
            && kept <= |s|
            && (kept == |s| ==> r == Inside([], s) && (s != "" ==> IsCommandWord(s)))
    decreases |s|
  {
    hide Feed, Stops, IsCommandWord;
    if s != "" {
      var n := |s| - 1;
      assert s == s[..n] + [s[n]];
      RunConcat(START, s[..n], [s[n]]);
      var mid := RunFrom(START, s[..n]).value;
      RunOne(mid, s[n]);
      NothingLost(s[..n]);
      FeedLength(mid, s[n]);
      var r := RunFrom(START, s).value;
      if TotalLength(r.words) + |r.word| == |s| {
        OneMoreChar(s, n);
      }
    }
  }

  lemma OneMoreChar(s: string, n: nat)
    requires |s| == n + 1 && (n > 0 ==> IsCommandWord(s[..n]))
    requires IsOrdinary(s[n]) && !Stops(Inside([], s[..n]), s[n])
    ensures IsCommandWord(s)
  {
    hide OpensBracket, IsName, IsOrdinary;
    var w := s[..n];
    forall i | 0 <= i < |s|
      ensures IsOrdinary(s[i])
      ensures s[i] == ']' ==> !OpensBracket(s[..i])
      ensures s[i] == '=' ==> !IsName(s[..i])
    {
      if i < n {
        assert w[i] == s[i] && w[..i] == s[..i];
      }
    }
  }

  lemma {:induction false} GapIsEmpty(l: Lexer, s: string)
    requires l.mode == Gap ==> l.word == ""
    ensures var r := RunFrom(l, s); r.Some? && r.value.mode == Gap ==> r.value.word == ""
    decreases |s|
  {
    if s != "" && Feed(l, s[0]).Some? {
      GapIsEmpty(Feed(l, s[0]).value, s[1..]);
    }
  }

  /** What the rest of an empty command does from any state the shell word may leave. */
  lemma RestFromAnyState(l: Lexer, flags: string)
    requires flags != "" && AllInert(flags)
    ensures var r := RunFrom(l, WrapRest("", flags));
            && (l.mode == Quoted ==> r.Some? && r.value.mode == Quoted)
            && (l.mode == Escaped ==> r == Some(Lexer(Word, "", l.words + [l.word + " " + flags])))
            && (l.mode == Word ==> r == Some(Lexer(Word, "", l.words + [l.word] + [flags])))
            && (l == Lexer(Gap, "", l.words) ==> r == Some(Lexer(Word, "", l.words + [flags])))
  {
    hide AllInert, Stops;
    assert WrapRest("", flags) == " " + (flags + (" " + "''"));
    RunConcat(l, " ", flags + (" " + "''"));
    RunOne(l, ' ');
    var l1 := Feed(l, ' ').value;
    RunConcat(l1, flags, " " + "''");
    if l.mode == Quoted {
      QuotedTakesInert(l1, flags);
      var l2 := l1.(word := l1.word + flags);
      RunConcat(l2, " ", "''");
      RunOne(l2, ' ');
      TwoQuotes(Feed(l2, ' ').value);
    } else {
      InertExtends(l1, flags);
      var l2 := l1.(mode := Word, word := l1.word + flags);
      RunConcat(l2, " ", "''");
      BlankEndsWord(l2);
      TwoQuotes(Lexer(Gap, "", l2.words + [l2.word]));
      assert "" + flags == flags;
    }
  }

  lemma TwoQuotes(l: Lexer)
    requires l.mode == Gap || l.mode == Quoted
    ensures l.mode == Gap ==> RunFrom(l, "''") == Some(l.(mode := Word))
    ensures l.mode == Quoted ==> RunFrom(l, "''") == Some(l)
  {
    assert "''" == "'" + "'";
    RunConcat(l, "'", "'");
    RunOne(l, '\'');
    RunOne(Feed(l, '\'').value, '\'');
  }

  lemma {:induction false} QuotedTakesInert(l: Lexer, w: string)
    requires l.mode == Quoted && AllInert(w)
    ensures RunFrom(l, w) == Some(l.(word := l.word + w))
    decreases |w|
  {
    if w == "" {
      assert l.word + w == l.word;
    } else {
      assert IsInert(w[0]);
      QuotedTakesInert(l.(word := l.word + [w[0]]), w[1..]);
      assert l.word + [w[0]] + w[1..] == l.word + w;
    }
  }

  lemma BasenameNotEmpty(name: string)
    requires name != ""
    ensures ShellBasename(name) != ""
  {
  }

  lemma EscapeMakesFlagsLonger(words: seq<string>, word: string, base: string, flags: string)
    ensures words + [word + " " + flags] != [base, flags]
  {
    var last := word + " " + flags;
    assert (words + [last])[|words|] == last;
  }

  /** If even the empty command survives wrapping, the shell word is a bare command word. */
  lemma SurvivingWordIsPlain(base: string, flags: string)
    requires base != "" && flags != "" && AllInert(flags)
    requires Split(base + WrapRest("", flags)) == Some([base, flags, ""])
    ensures IsCommandWord(base)
  {
    hide Feed, WrapRest, IsCommandWord, AllInert;
    RunConcat(START, base, WrapRest("", flags));
    var l := RunFrom(START, base).value;
    GapIsEmpty(START, base);
    EscapeMakesFlagsLonger(l.words, l.word, base, flags);
    RestFromAnyState(l, flags);
    var r := RunFrom(l, WrapRest("", flags)).value;
    var got := r.words + [r.word];
    assert got == [base, flags, ""];
    assert got[..2] == r.words == [base, flags];
    if l.mode == Word {
      assert r.words == l.words + [l.word] + [flags];
      assert |l.words| == 0 && l.word == r.words[0] == base;
    } else if l.mode == Gap {
      assert r.words == l.words + [flags];
      assert l.words == r.words[..1] == [base];
      TotalAppend([], base);
      assert [] + [base] == [base];
    }
    NothingLost(base);
  }

  /**
   * Every inner command survives wrapping, as `[basename, flags, inner]`, if and only if the shell's
   * basename reads as itself in first place: no blank, quote, backslash, operator, expansion or pattern
   * in it, no `#` or `~` in front, and not an assignment.
   */
  lemma WrapSplitsIff(name: string)
    requires name != ""
    ensures (forall inner :: Split(WrapInShell(inner, name)) == Some([ShellBasename(name), ShellFlags(name), inner]))
              <==> IsCommandWord(ShellBasename(name))
  {
    hide Split, ShellBasename, ShellFlags, IsCommandWord, AllInert, WrapInShell, WrapRest;
    if IsCommandWord(ShellBasename(name)) {
      forall inner
        ensures Split(WrapInShell(inner, name)) == Some([ShellBasename(name), ShellFlags(name), inner])
      {
        WrapSplits(inner, name);
      }
    } else if forall inner :: Split(WrapInShell(inner, name)) == Some([ShellBasename(name), ShellFlags(name), inner]) {
      WrapIsRest("", name);
      FlagsAreInert(name);
      BasenameNotEmpty(name);
      assert Split(WrapInShell("", name)) == Some([ShellBasename(name), ShellFlags(name), ""]);
      SurvivingWordIsPlain(ShellBasename(name), ShellFlags(name));
    }
  }

  /** A shell with a blank in its name: the words come out as `my`, `sh`, the flags and the command. */
  lemma BlankInShellName(inner: string)
    ensures ShellBasename("/opt/my sh") == "my sh" && !IsCommandWord("my sh")
    ensures Split(WrapInShell(inner, "/opt/my sh")) == Some(["my", "sh", "-c", inner])
  {
    var name := "/opt/my sh";
    BasenameOf("/opt", '/', "my sh");
    assert "/opt" + "/" + "my sh" == name;
    assert IsBlank("my sh"[2]) && !IsOrdinary("my sh"[2]);
    BlankNameFlags();
    BlankNameSplits(inner);
  }

  lemma {:induction false} BasenameOf(dir: string, sep: char, base: string)
    requires IsSeparator(sep) && base != "" && forall i :: 0 <= i < |base| ==> !IsSeparator(base[i])
    ensures AfterLastSeparator(dir + [sep] + base) == base
    decreases |base|
  {
    var name := dir + [sep] + base;
    var n := |base| - 1;
    assert name[..|name| - 1] == dir + [sep] + base[..n] && name[|name| - 1] == base[n];
    if n == 0 {
      assert (dir + [sep] + base[..n])[|dir|] == sep;
      assert base == [base[0]];
    } else {
      BasenameOf(dir, sep, base[..n]);
      assert base == base[..n] + [base[n]];
    }
  }

  lemma BlankNameFlags()
    requires ShellBasename("/opt/my sh") == "my sh"
    ensures ShellFlags("/opt/my sh") == "-c"
  {
    var low := Lower("my sh");
    assert low[2] == ' ' && |low| == 5;
    assert "zsh"[..] == "zsh" && |"bash"| == 4 && |"bash.exe"| == 8 && |"zsh.exe"| == 7;
  }

  lemma BlankNameSplits(inner: string)
    requires ShellBasename("/opt/my sh") == "my sh" && ShellFlags("/opt/my sh") == "-c"
    ensures Split(WrapInShell(inner, "/opt/my sh")) == Some(["my", "sh", "-c", inner])
  {
    hide Feed, WrapRest, WrapInShell, Escape, ShellBasename, ShellFlags, RunFrom;
    WrapIsRest(inner, "/opt/my sh");
    BlankNameRuns();
    var l := Lexer(Word, "sh", ["my"]);
    RunConcat(START, "my sh", WrapRest(inner, "-c"));
    LettersAreInert();
    RestReadsBack(l, inner, "-c");
    assert ["my"] + ["sh", "-c"] + [inner] == ["my", "sh", "-c", inner];
  }

  lemma BlankNameRuns()
    ensures RunFrom(START, "my sh") == Some(Lexer(Word, "sh", ["my"]))
  {
    hide Feed, RunFrom;
    var l1, l2 := Lexer(Word, "my", []), Lexer(Gap, "", ["my"]);
    assert "my sh" == "my" + " " + "sh";
    RunConcat(START, "my" + " ", "sh");
    RunConcat(START, "my", " ");
    LettersAreInert();
    InertExtends(START, "my");
    assert "" + "my" == "my" && "" + "sh" == "sh" && [] + ["my"] == ["my"];
    BlankEndsWord(l1);
    InertExtends(l2, "sh");
  }

  lemma LettersAreInert()
    ensures AllInert("my") && AllInert("sh") && AllInert("-c")
  {
  }

  /** The command sent to a target, wrapped when a shell is set. */
  method BuildFinalCommand(argv: seq<string>, shell: string) returns (command: string)
    ensures shell == "" ==> Split(command) == Some(argv)
    ensures shell != "" && IsCommandWord(ShellBasename(shell)) ==>
              exists inner :: Split(command) == Some([ShellBasename(shell), ShellFlags(shell), inner])
                              && Split(inner) == Some(argv)
  {
    hide Split, ShellBasename, ShellFlags, IsCommandWord, WrapInShell;
    var inner := BuildRemoteCommand(argv);
    if |shell| == 0 {
      command := inner;
    } else {
      var shellInner := BuildInteractiveShellCommand(argv);
      command := WrapInShell(shellInner, shell);
      if IsCommandWord(ShellBasename(shell)) {
        WrapSplits(shellInner, shell);
      }
    }
  }
}

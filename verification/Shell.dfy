/** The shell of shell/shell.c: its current directory and its command-line tokenizer. */
module Shell {
  import opened Bytes
  import opened Layout
  import opened Paths
  import opened Volumes
  import opened Invariants
  import opened Installation
  import opened Tree
  import opened Sessions
  import opened Fs

  const MAX_ARGS := 20
  const MAX_ARG_LEN := 64
  /** The size of `new_dir` in `cd`. */
  const MAX_HOME := 64

  // ---------------------------------------------------------------- the language of command lines

  predicate IsBlank(c: char) { c == ' ' || c == '\t' }

  /** The words of `s`: quotes toggle and vanish, blanks outside quotes separate, empty words vanish.
      `cur` is the word read so far. */
  function Words(s: string, quoted: bool, cur: string): seq<string>
    decreases |s|
  {
    if s == [] then (if cur == [] then [] else [cur])
    else if s[0] == '"' then Words(s[1..], !quoted, cur)
    else if IsBlank(s[0]) && !quoted then (if cur == [] then [] else [cur]) + Words(s[1..], quoted, [])
    else Words(s[1..], quoted, cur + [s[0]])
  }

  function Clip(w: string): string { if |w| < MAX_ARG_LEN then w else w[..MAX_ARG_LEN - 1] }

  function ClipAll(ws: seq<string>): seq<string> { seq<string>(|ws|, i requires 0 <= i < |ws| => Clip(ws[i])) }

  /** What the tokenizer delivers: the first 20 words, each cut to 63 characters. */
  function Tokens(input: string): seq<string> {
    var ws := Words(input, false, []);
    ClipAll(if |ws| <= MAX_ARGS then ws else ws[..MAX_ARGS])
  }

  lemma WordsStep(s: string, quoted: bool, cur: string)
    ensures s == [] ==> Words(s, quoted, cur) == if cur == [] then [] else [cur]
    ensures s != [] && s[0] == '"' ==> Words(s, quoted, cur) == Words(s[1..], !quoted, cur)
    ensures s != [] && s[0] != '"' && IsBlank(s[0]) && !quoted ==>
      Words(s, quoted, cur) == (if cur == [] then [] else [cur]) + Words(s[1..], quoted, [])
    ensures s != [] && s[0] != '"' && !(IsBlank(s[0]) && !quoted) ==> Words(s, quoted, cur) == Words(s[1..], quoted, cur + [s[0]])
  {
  }

  lemma ClipSnoc(cur: string, c: char)
    ensures Clip(cur + [c]) == if |Clip(cur)| < MAX_ARG_LEN - 1 then Clip(cur) + [c] else Clip(cur)
    ensures |Clip(cur)| < MAX_ARG_LEN && (Clip(cur) == [] <==> cur == []) && Clip([]) == []
  {
  }

  class Tokenizer {
    const argvBuffer: array2<char>

    ghost predicate Valid() { argvBuffer.Length0 == MAX_ARGS && argvBuffer.Length1 == MAX_ARG_LEN }

    constructor ()
      ensures Valid() && fresh(argvBuffer)
    {
      argvBuffer := new char[MAX_ARGS, MAX_ARG_LEN]((i, j) => '\0');
    }

    /** Row `i` holds `w` as a C string. */
    ghost predicate RowIs(i: nat, w: string)
      requires Valid() && i < MAX_ARGS
      reads argvBuffer
    {
      |w| < MAX_ARG_LEN && (forall j | 0 <= j < |w| :: argvBuffer[i, j] == w[j]) && argvBuffer[i, |w|] == '\0'
    }

    /** Row `i` holds the characters of `w`, not yet terminated. */
    ghost predicate RowStarts(i: nat, w: string)
      requires Valid() && i < MAX_ARGS
      reads argvBuffer
    {
      |w| < MAX_ARG_LEN && forall j | 0 <= j < |w| :: argvBuffer[i, j] == w[j]
    }

    method PutChar(row: nat, pos: nat, c: char)
      requires Valid() && row < MAX_ARGS && pos < MAX_ARG_LEN
      modifies argvBuffer
      ensures argvBuffer[row, pos] == c
      ensures forall k, j | 0 <= k < MAX_ARGS && 0 <= j < MAX_ARG_LEN && !(k == row && j == pos) ::
        argvBuffer[k, j] == old(argvBuffer[k, j])
    {
      argvBuffer[row, pos] := c;
    }

    /** Rows before `argc` hold the finished words, row `argc` the beginning of the current one. */
    ghost predicate Holding(argc: nat, words: seq<string>, cur: string)
      requires Valid() && argc <= MAX_ARGS
      reads argvBuffer
    {
      && argc == |words| && (argc == MAX_ARGS ==> cur == [])
      && (argc < MAX_ARGS ==> RowStarts(argc, Clip(cur)))
      && forall k | 0 <= k < argc :: RowIs(k, Clip(words[k]))
    }

    /** Terminating the current word. */
    method EndWord(argc: nat, bufPos: nat, ghost words: seq<string>, ghost cur: string)
      requires Valid() && argc < MAX_ARGS && Holding(argc, words, cur) && bufPos == |Clip(cur)|
      modifies argvBuffer
      ensures Holding(argc + 1, words + [cur], [])
    {
      hide Clip;
      ClipSnoc(cur, '\0');
      PutChar(argc, bufPos, '\0');
    }

    /** Appending a character to the current word, unless 63 are there. */
    method AddChar(argc: nat, bufPos: nat, c: char, ghost words: seq<string>, ghost cur: string) returns (newPos: nat)
      requires Valid() && argc < MAX_ARGS && Holding(argc, words, cur) && bufPos == |Clip(cur)|
      modifies argvBuffer
      ensures Holding(argc, words, cur + [c]) && newPos == |Clip(cur + [c])|
    {
      hide Clip;
      ClipSnoc(cur, c);
      newPos := bufPos;
      if bufPos < MAX_ARG_LEN - 1 {
        PutChar(argc, bufPos, c);
        newPos := bufPos + 1;
      }
    }

    /** `parse_command`: `argv[i]` is row `i` of the buffer. */
    method ParseCommand(input: string) returns (argc: nat)
      requires Valid()
      modifies argvBuffer
      ensures argc == |Tokens(input)| <= MAX_ARGS
      ensures forall k | 0 <= k < argc :: RowIs(k, Tokens(input)[k])
    {
      hide Words, Clip;
      argc := 0;
      var inQuotes := false;
      var i, bufPos := 0, 0;
      ghost var words: seq<string>, cur: string := [], [];
      ClipSnoc([], '\0');
      assert input[0..] == input;
      while i < |input| && argc < MAX_ARGS
        invariant 0 <= i <= |input| && argc <= MAX_ARGS && Holding(argc, words, cur)
        invariant Words(input, false, []) == words + Words(input[i..], inQuotes, cur)
        invariant bufPos == |Clip(cur)|
        decreases |input| - i
      {
        hide Holding;
        var c := input[i];
        assert input[i..][0] == c && input[i..][1..] == input[i + 1..];
        WordsStep(input[i..], inQuotes, cur);
        ClipSnoc(cur, c);
        if c == '"' {
          inQuotes := !inQuotes;
          i := i + 1;
          continue;
        }
        if IsBlank(c) && !inQuotes {
          if bufPos > 0 {
            EndWord(argc, bufPos, words, cur);
            argc := argc + 1;
            bufPos := 0;
            words, cur := words + [cur], [];
          }
          i := i + 1;
          continue;
        }
        bufPos := AddChar(argc, bufPos, c, words, cur);
        cur := cur + [c];
        i := i + 1;
      }
      WordsStep(input[i..], inQuotes, cur);
      ClipSnoc(cur, '\0');
      if bufPos > 0 && argc < MAX_ARGS {
        EndWord(argc, bufPos, words, cur);
        argc := argc + 1;
        words, cur := words + [cur], [];
      }
      ghost var ws := Words(input, false, []);
      assert words == if |ws| <= MAX_ARGS then ws else ws[..MAX_ARGS];
    }
  }

  // ---------------------------------------------------------------- quoting

  /** The arguments in double quotes, separated by single spaces. */
  function Quoted(args: seq<string>): string {
    if args == [] then []
    else "\"" + args[0] + "\"" + (if |args| == 1 then [] else " " + Quoted(args[1..]))
  }

  predicate Quotable(a: string) { a != [] && '"' !in a && '\0' !in a }

  lemma {:induction false} WordsInQuotes(a: string, rest: string, cur: string)
    requires '"' !in a
    ensures Words(a + "\"" + rest, true, cur) == Words(rest, false, cur + a)
    decreases |a|
  {
    var s := a + "\"" + rest;
    if a == [] {
      assert s[1..] == rest && cur + a == cur;
    } else {
      assert s[0] == a[0] && s[0] in a && s[1..] == a[1..] + "\"" + rest;
      WordsInQuotes(a[1..], rest, cur + [a[0]]);
      assert cur + [a[0]] + a[1..] == cur + a;
    }
  }

  lemma {:induction false} WordsOfQuoted(args: seq<string>)
    requires forall i | 0 <= i < |args| :: Quotable(args[i])
    ensures Words(Quoted(args), false, []) == args
    decreases |args|
  {
    if args != [] {
      var a, more := args[0], args[1..];
      assert Quotable(a);
      var rest := if |args| == 1 then [] else " " + Quoted(more);
      var s := Quoted(args);
      assert s[0] == '"' && s[1..] == a + "\"" + rest;
      WordsInQuotes(a, rest, []);
      assert [] + a == a;
      WordsOfQuoted(more);
      if |args| > 1 {
        assert rest[0] == ' ' && rest[1..] == Quoted(more);
      }
      assert args == [a] + more;
    }
  }

  /** Tokenizing the quoted form of up to 20 arguments of up to 63 characters gives exactly those arguments. */
  lemma TokensOfQuoted(args: seq<string>)
    requires |args| <= MAX_ARGS && forall i | 0 <= i < |args| :: Quotable(args[i]) && |args[i]| < MAX_ARG_LEN
    ensures Tokens(Quoted(args)) == args
  {
    WordsOfQuoted(args);
    assert ClipAll(args) == args;
  }

  // ---------------------------------------------------------------- any command line

  /** A piece of a word: bare, without blanks and quotes, or in quotes, without quotes. */
  datatype Piece = Bare(text: string) | InQuotes(text: string)

  predicate PieceOk(p: Piece) {
    match p
    case Bare(text) => forall i | 0 <= i < |text| :: text[i] != ' ' && text[i] != '\t' && text[i] != '"'
    case InQuotes(text) => forall i | 0 <= i < |text| :: text[i] != '"'
  }

  predicate WordOk(word: seq<Piece>) { forall i | 0 <= i < |word| :: PieceOk(word[i]) }

  predicate IsGap(gap: string) { forall i | 0 <= i < |gap| :: gap[i] == ' ' || gap[i] == '\t' }

  /** How a word is typed, piece after piece. */
  function Typed(word: seq<Piece>): string {
    if word == [] then []
    else (match word[0]
          case Bare(text) => text
          case InQuotes(text) => "\"" + text + "\"") + Typed(word[1..])
  }

  /** What it means: its pieces without the quotes. */
  function Meant(word: seq<Piece>): string { if word == [] then [] else word[0].text + Meant(word[1..]) }

  /** Words, each followed by its gap. */
  function Line(words: seq<seq<Piece>>, gaps: seq<string>): string
    requires |gaps| == |words|
  {
    if words == [] then [] else Typed(words[0]) + gaps[0] + Line(words[1..], gaps[1..])
  }

  /** The meanings of the words that mean something; a pair of quotes with nothing in between does not. */
  function Meanings(words: seq<seq<Piece>>): seq<string> {
    if words == [] then [] else (if Meant(words[0]) == [] then [] else [Meant(words[0])]) + Meanings(words[1..])
  }

  lemma {:induction false} BareRun(a: string, rest: string, cur: string)
    requires PieceOk(Bare(a))
    ensures Words(a + rest, false, cur) == Words(rest, false, cur + a)
    decreases |a|
  {
    if a == [] {
      assert a + rest == rest && cur + a == cur;
    } else {
      assert (a + rest)[0] == a[0] && (a + rest)[1..] == a[1..] + rest;
      BareRun(a[1..], rest, cur + [a[0]]);
      assert cur + [a[0]] + a[1..] == cur + a;
    }
  }

  lemma {:induction false} WordRun(word: seq<Piece>, rest: string, cur: string)
    requires WordOk(word)
    ensures Words(Typed(word) + rest, false, cur) == Words(rest, false, cur + Meant(word))
    decreases |word|
  {
    hide Words;
    if word == [] {
      assert Typed(word) + rest == rest && cur + Meant(word) == cur;
    } else {
      var more := Typed(word[1..]) + rest;
      var a := word[0].text;
      assert PieceOk(word[0]);
      if word[0].Bare? {
        assert Typed(word) + rest == a + more;
        BareRun(a, more, cur);
      } else {
        var s := Typed(word) + rest;
        assert s == "\"" + (a + "\"" + more);
        assert s[0] == '"' && s[1..] == a + "\"" + more;
        WordsStep(s, false, cur);
        WordsInQuotes(a, more, cur);
      }
      WordRun(word[1..], rest, cur + a);
      assert cur + a + Meant(word[1..]) == cur + Meant(word);
    }
  }

  lemma {:induction false} GapRun(gap: string, rest: string, cur: string)
    requires IsGap(gap) && (gap == [] ==> cur == [])
    ensures Words(gap + rest, false, cur) == (if cur == [] then [] else [cur]) + Words(rest, false, [])
    decreases |gap|
  {
    if gap == [] {
      assert gap + rest == rest;
    } else {
      assert (gap + rest)[0] == gap[0] && (gap + rest)[1..] == gap[1..] + rest;
      GapRun(gap[1..], rest, []);
    }
  }

  /** Words, bare, quoted or mixed, with any runs of spaces and tabs around and between them, are split into exactly what
      they mean. */
  lemma {:induction false} WordsOfLine(lead: string, words: seq<seq<Piece>>, gaps: seq<string>)
    requires |gaps| == |words| && IsGap(lead) && (forall i | 0 <= i < |words| :: WordOk(words[i]) && IsGap(gaps[i]))
    requires forall i | 0 <= i < |words| - 1 :: gaps[i] != []
    ensures Words(lead + Line(words, gaps), false, []) == Meanings(words)
    decreases |words|
  {
    hide Words, Typed, Meant;
    GapRun(lead, Line(words, gaps), []);
    if words == [] {
      WordsStep([], false, []);
    } else {
      var w, gap, rest := words[0], gaps[0], Line(words[1..], gaps[1..]);
      assert WordOk(w) && IsGap(gap);
      assert Line(words, gaps) == Typed(w) + (gap + rest);
      WordRun(w, gap + rest, []);
      assert [] + Meant(w) == Meant(w);
      if gap == [] {
        assert |words| == 1 && gap + rest == [];
        WordsStep([], false, Meant(w));
        assert Meanings(words[1..]) == [];
      } else {
        GapRun(gap, rest, Meant(w));
        WordsOfLine([], words[1..], gaps[1..]);
        assert [] + rest == rest;
      }
    }
  }

  /** A quote that is not closed reaches to the end of the line. */
  lemma UnclosedQuote(word: seq<Piece>, a: string)
    requires WordOk(word) && '"' !in a && Meant(word) + a != []
    ensures Words(Typed(word) + "\"" + a, false, []) == [Meant(word) + a]
  {
    hide Words, Typed, Meant;
    assert Typed(word) + "\"" + a == Typed(word) + ("\"" + a);
    WordRun(word, "\"" + a, []);
    assert [] + Meant(word) == Meant(word);
    WordsStep("\"" + a, false, Meant(word));
    assert ("\"" + a)[1..] == a;
    QuotedToEnd(a, Meant(word));
  }

  lemma {:induction false} QuotedToEnd(a: string, cur: string)
    requires '"' !in a && cur + a != []
    ensures Words(a, true, cur) == [cur + a]
    decreases |a|
  {
    if a == [] {
      assert cur + a == cur;
    } else {
      assert a[0] in a;
      QuotedToEnd(a[1..], cur + [a[0]]);
      assert cur + [a[0]] + a[1..] == cur + a;
    }
  }

  /** What the commands get: the first twenty words, each cut to 63 characters. */
  lemma TokensOfLine(lead: string, words: seq<seq<Piece>>, gaps: seq<string>)
    requires |gaps| == |words| && IsGap(lead) && (forall i | 0 <= i < |words| :: WordOk(words[i]) && IsGap(gaps[i]))
    requires forall i | 0 <= i < |words| - 1 :: gaps[i] != []
    ensures var ts, ms := Tokens(lead + Line(words, gaps)), Meanings(words);
      && |ts| == (if |ms| <= 20 then |ms| else 20)
      && forall i | 0 <= i < |ts| :: ts[i] == if |ms[i]| <= 63 then ms[i] else ms[i][..63]
  {
    hide Words;
    WordsOfLine(lead, words, gaps);
  }

  lemma OneBare(a: string)
    ensures Typed([Bare(a)]) == a && Meant([Bare(a)]) == a
  {
    assert [Bare(a)][1..] == [];
    assert Typed([]) == [] && Meant([]) == [];
  }

  /** The case of a command and its path: nothing but blanks separates them, and a slash does not. */
  lemma CommandAndPath(command: string, path: string)
    requires PieceOk(Bare(command)) && PieceOk(Bare(path)) && 0 < |command| < 64 && 0 < |path| < 64
    ensures Tokens(command + " " + path) == [command, path]
  {
    hide Words;
    var words, gaps := [[Bare(command)], [Bare(path)]], [" ", ""];
    assert WordOk(words[0]) && WordOk(words[1]);
    OneBare(command);
    OneBare(path);
    assert Line([], []) == [];
    assert words[1..] == [[Bare(path)]] && gaps[1..] == [""] && [[Bare(path)]][1..] == [] && [""][1..] == [];
    assert Line([[Bare(path)]], [""]) == path;
    assert Line(words, gaps) == command + " " + path;
    assert Meanings([[Bare(path)]]) == [path];
    assert Meanings(words) == [command] + Meanings(words[1..]);
    TokensOfLine("", words, gaps);
    assert "" + Line(words, gaps) == command + " " + path;
  }

  // ---------------------------------------------------------------- the current directory

  /** What the shell's variables come to after `cd` with the given arguments. */
  function AfterCd(v: Volume, username: Str, args: seq<Str>, cwd: Str): (Str, bool) {
    if args == [] then
      if ResolvesToDir(v, Comps(UserHome(username))) then (UserHome(username), true) else (cwd, false)
    else ChangeDir(v, args[0], cwd)
  }

  /** `cd`, with or without arguments, keeps the current directory on an existing directory. */
  lemma AfterCdOk(v: Volume, username: Str, args: seq<Str>, cwd: Str)
    requires Inv(v) && CwdOk(Session(v, cwd))
    ensures CwdOk(Session(v, AfterCd(v, username, args, cwd).0))
  {
    hide Comps, Walk, DecodeDir, ChangeDir;
    if args != [] {
      ChangeDirOk(v, args[0], cwd);
    }
  }

  /** The components of a user's home directory. */
  function HomePath(username: Str): Path { [Ascii("home")] + Comps(username) }

  /** The directory that `cd` asks for, but for `cd ..`: the user's home when there is no argument. */
  function Wanted(v: Volume, username: Str, args: seq<Str>, cwd: Str): U32 {
    if args == [] then Resolve(v, HomePath(username)) else Target(v, args[0], cwd)
  }

  lemma HomeComps(username: Str)
    ensures Comps(UserHome(username)) == HomePath(username)
  {
    hide Comps;
    CompsOfName(HOME);
    CompsConcat(ROOT + HOME + ROOT, username);
    assert Ascii("home") == HOME;
  }

  lemma AfterCdGoes(v: Volume, username: Str, args: seq<Str>, cwd: Str)
    requires cwd != [] && cwd[0] == 47
    ensures var (c, ok) := AfterCd(v, username, args, cwd); var q := Wanted(v, username, args, cwd);
      if args != [] && args[0] == [46, 46] then
        ok && Comps(c) == if cwd[|cwd| - 1] == 47 then Comps(cwd) else Parent(Comps(cwd))
      else
        (ok <==> q != NOT_FOUND && KindOf(v, q) == DIR) && (ok ==> Resolve(v, Comps(c)) == q) && (!ok ==> c == cwd)
  {
    hide Comps, Walk, DecodeDir, ChangeDir, Target, UserHome;
    HomeComps(username);
    if args != [] {
      ChangeDirGoes(v, args[0], cwd);
    }
  }

  class ShellState {
    var currentDir: Str
    const username: Str
    const fs: FileSystem

    /** The buffer of `cd` for the user's home directory is the smaller one. */
    ghost predicate Valid()
      reads this
    {
      && currentDir != [] && currentDir[0] == SLASH && |currentDir| < MAX_PATH
      && |UserHome(username)| < MAX_HOME
    }

    /** `shell_init`: the user's home directory if there is one, else the root. */
    constructor (mounted: FileSystem, name: Str)
      requires mounted.Valid() && |UserHome(name)| < MAX_HOME
      ensures fs == mounted && username == name && Valid()
      ensures currentDir == if ResolvesToDir(mounted.State(), Comps(UserHome(name))) then UserHome(name) else ROOT
      ensures ResolvesToDir(mounted.State(), HomePath(name)) ==> Comps(currentDir) == HomePath(name)
      ensures forall d, text | mounted.State() == Install(d, text, name) && PlainPath(Comps(name)) :: Comps(currentDir) == HomePath(name)
      ensures Inv(mounted.State()) ==> CwdOk(Session(mounted.State(), currentDir))
    {
      hide Comps, Walk, DecodeDir, Install;
      HomeComps(name);
      forall d, text | mounted.State() == Install(d, text, name) && PlainPath(Comps(name))
        ensures ResolvesToDir(mounted.State(), HomePath(name))
      {
        InstalledDirs(d, text, name);
        SpellNames();
      }
      currentDir := ROOT;
      username := name;
      fs := mounted;
      new;
      var there := fs.FsDirExists(UserHome(name));
      if there {
        currentDir := UserHome(name);
      }
      if Inv(fs.State()) {
        RootOk(fs.State());
      }
    }

    /** `cd`: a copy of the current directory is changed and, on success, becomes the current directory. Without an
        argument the copy starts as the text of the home directory, and is changed to that. */
    method Cd(args: seq<Str>) returns (ok: bool)
      requires fs.Valid() && Valid()
      requires args != [] && args[0] != UP ==> |Absolute(args[0], currentDir)| < MAX_PATH
      modifies this
      ensures (currentDir, ok) == AfterCd(fs.State(), username, args, old(currentDir))
      ensures var q := Wanted(fs.State(), username, args, old(currentDir));
        if args != [] && args[0] == [46, 46] then ok
        else
          && (ok <==> q != NOT_FOUND && KindOf(fs.State(), q) == DIR)
          && (ok ==> Resolve(fs.State(), Comps(currentDir)) == q) && (!ok ==> currentDir == old(currentDir))
      ensures Valid()
    {
      hide Comps, Walk, DecodeDir, Wanted, Target;
      AfterCdGoes(fs.State(), username, args, currentDir);
      var newDir, code;
      if args == [] {
        var home := UserHome(username);
        HomeIsAbsolute(username);
        newDir, code := fs.FsChangeDir(home, home);
      } else {
        newDir, code := fs.FsChangeDir(args[0], currentDir);
        StripLastCuts(currentDir);
      }
      if code == 0 {
        currentDir := newDir;
      }
      ok := code == 0;
    }
  }

  lemma HomeIsAbsolute(username: Str)
    ensures UserHome(username) != UP && Absolute(UserHome(username), UserHome(username)) == UserHome(username)
  {
    assert UserHome(username)[0] == SLASH;
  }
}

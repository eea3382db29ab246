/** A reference reader of protofiles, in the manner of mkfs.xfs: white space separates words, a
    stack holds the open directories, and a dollar sign closes the innermost one. */
module ProtofileParsing {
  import opened Wrappers
  import opened Decimal
  import opened Text
  import opened Protofile

  // ---------------------------------------------------------------- words

  predicate IsBlank(c: char) {
    '\U{9}' <= c <= '\U{D}' || c == ' '
  }

  predicate NoBlank(s: string) {
    forall c <- s :: !IsBlank(c)
  }

  predicate Word(w: string) {
    w != "" && NoBlank(w)
  }

  /** The words so far, and whether the last one may still grow. */
  datatype Lexed = Lexed(words: seq<string>, open: bool)

  function Extend(l: Lexed, c: char): Lexed {
    if IsBlank(c) then Lexed(l.words, false)
    else if l.open && l.words != [] then
      Lexed(l.words[..|l.words| - 1] + [l.words[|l.words| - 1] + [c]], true)
    else Lexed(l.words + [[c]], true)
  }

  function Lex(s: string): Lexed {
    if s == "" then Lexed([], false) else Extend(Lex(s[..|s| - 1]), s[|s| - 1])
  }

  lemma LexChar(s: string, c: char)
    ensures Lex(s + [c]) == Extend(Lex(s), c)
  {
    assert (s + [c])[..|s|] == s;
  }

  lemma LexBlank(s: string, c: char)
    requires IsBlank(c)
    ensures Lex(s + [c]) == Lexed(Lex(s).words, false)
  {
    LexChar(s, c);
  }

  lemma ExtendOpen(words: seq<string>, w: string, c: char)
    requires !IsBlank(c)
    ensures Extend(Lexed(words + [w], true), c) == Lexed(words + [w + [c]], true)
  {
  }

  lemma {:induction false} LexWord(s: string, w: string)
    requires !Lex(s).open && Word(w)
    ensures Lex(s + w) == Lexed(Lex(s).words + [w], true)
  {
    hide Lex;
    var init, c := w[..|w| - 1], w[|w| - 1];
    assert w == init + [c];
    Shift(s, init, [c]);
    LexChar(s + init, c);
    if init == "" {
      assert s + init == s;
    } else {
      hide Extend;
      LexWord(s, init);
      ExtendOpen(Lex(s).words, init, c);
    }
  }

  lemma {:induction false} LexSpaces(s: string, n: nat)
    requires !Lex(s).open
    ensures Lex(s + Spaces(n)) == Lex(s)
  {
    if n == 0 {
      assert s + Spaces(0) == s;
    } else {
      LexSpaces(s, n - 1);
      assert s + Spaces(n) == (s + Spaces(n - 1)) + [' '];
      LexChar(s + Spaces(n - 1), ' ');
    }
  }

  lemma {:induction false} LexJoin(s: string, words: seq<string>)
    requires !Lex(s).open && words != [] && forall w :: w in words ==> Word(w)
    ensures Lex(s + Join(words, ' ')) == Lexed(Lex(s).words + words, true)
    decreases |words|
  {
    hide Lex, Extend, Word;
    var init, last := words[..|words| - 1], words[|words| - 1];
    assert last in words;
    if init == [] {
      assert words == [last];
      LexWord(s, last);
    } else {
      LexJoin(s, init);
      var before := s + Join(init, ' ');
      LexBlank(before, ' ');
      LexWord(before + [' '], last);
      assert s + Join(words, ' ') == before + [' '] + last;
      assert Lex(s).words + init + [last] == Lex(s).words + words;
    }
  }

  lemma LexLine(s: string, indent: nat, words: seq<string>)
    requires !Lex(s).open && words != [] && forall w :: w in words ==> Word(w)
    ensures Lex(s + Line(indent, words)) == Lexed(Lex(s).words + words, false)
  {
    hide Lex, Extend, Word, Join;
    LexSpaces(s, indent);
    LexJoin(s + Spaces(indent), words);
    LexBlank(s + Spaces(indent) + Join(words, ' '), '\n');
    assert s + Line(indent, words) == s + Spaces(indent) + Join(words, ' ') + ['\n'];
  }

  // ---------------------------------------------------------------- the reader

  datatype Node =
    | File(name: string, kind: Kind, setuid: bool, setgid: bool, perm: nat, extra: seq<string>)
    | Dir(name: string, setuid: bool, setgid: bool, perm: nat, children: seq<Node>)

  datatype Mode = Mode(kind: Kind, setuid: bool, setgid: bool, perm: nat)

  function KindOf(c: char): Option<Kind> {
    match c
    case '-' => Some(Regular)
    case 'c' => Some(CharDevice)
    case 'b' => Some(BlockDevice)
    case 'p' => Some(NamedPipe)
    case 'd' => Some(Directory)
    case 'l' => Some(Symlink)
    case _ => None
  }

  function ParseMode(w: string): Option<Mode> {
    if |w| != 6 || KindOf(w[0]).None? || !AllDigits(w[3..]) then None
    else
      Some(Mode(KindOf(w[0]).value, w[1] == 'u', w[2] == 'g',
                64 * DigitValue(w[3..][0]) + 8 * DigitValue(w[3..][1]) + DigitValue(w[3..][2])))
  }

  /** How many words follow the owner and group of an entry. */
  function ExtraCount(kind: Kind): nat {
    match kind
    case Regular => 1
    case Symlink => 1
    case CharDevice => 2
    case BlockDevice => 2
    case _ => 0
  }

  datatype Frame = Frame(name: string, mode: Mode, children: seq<Node>)

  function Closed(f: Frame): Node {
    Dir(f.name, f.mode.setuid, f.mode.setgid, f.mode.perm, f.children)
  }

  function Add(stack: seq<Frame>, nodes: seq<Node>): (r: seq<Frame>)
    requires stack != []
    ensures |r| == |stack|
  {
    var top := stack[|stack| - 1];
    stack[..|stack| - 1] + [top.(children := top.children + nodes)]
  }

  /** Read entries until the outermost directory is closed. */
  function ParseEntries(tokens: seq<string>, stack: seq<Frame>): Option<(Node, seq<string>)>
    requires stack != []
    decreases |tokens|
  {
    if tokens == [] then None
    else if tokens[0] == "$" then
      var closed := Closed(stack[|stack| - 1]);
      if |stack| == 1 then Some((closed, tokens[1..]))
      else ParseEntries(tokens[1..], Add(stack[..|stack| - 1], [closed]))
    else if |tokens| < 4 || ParseMode(tokens[1]).None? then None
    else
      var mode := ParseMode(tokens[1]).value;
      if mode.kind.Directory? then ParseEntries(tokens[4..], stack + [Frame(tokens[0], mode, [])])
      else
        var n := ExtraCount(mode.kind);
        if |tokens| < 4 + n then None
        else
          var file := File(tokens[0], mode.kind, mode.setuid, mode.setgid, mode.perm, tokens[4..4 + n]);
          ParseEntries(tokens[4 + n..], Add(stack, [file]))
  }

  /** The boot image name, the sizes, the root directory, and nothing else. */
  function ParseProto(text: string): Option<Node> {
    var tokens := Lex(text).words;
    if |tokens| < 6 || ParseMode(tokens[3]).None? || !ParseMode(tokens[3]).value.kind.Directory? then None
    else
      var r := ParseEntries(tokens[6..], [Frame("", ParseMode(tokens[3]).value, [])]);
      if r.Some? && r.value.1 == [] then Some(r.value.0) else None
  }

  // ---------------------------------------------------------------- what comes back

  /** Sockets are gone; in each directory the files come first, then the subdirectories. */
  function CanonFile(t: Tree, path: string): Node {
    File(t.name, t.info.kind, t.info.setuid, t.info.setgid, t.info.perm, ExtraWords(t, FullPath(path, t.name)))
  }

  function CanonFiles(ts: seq<Tree>, path: string): seq<Node> {
    if ts == [] then []
    else (if Kept(ts[0]) && !IsDir(ts[0]) then [CanonFile(ts[0], path)] else []) + CanonFiles(ts[1..], path)
  }

  function CanonKids(ts: seq<Tree>, path: string): seq<Node>
    decreases ts, 1
  {
    CanonFiles(ts, path) + CanonDirs(ts, path)
  }

  function CanonDir(t: Tree, path: string): Node
    decreases t
  {
    Dir(t.name, t.info.setuid, t.info.setgid, t.info.perm, CanonKids(t.children, FullPath(path, t.name)))
  }

  function CanonDirs(ts: seq<Tree>, path: string): seq<Node>
    decreases ts, 0
  {
    if ts == [] then []
    else (if IsDir(ts[0]) then [CanonDir(ts[0], path)] else []) + CanonDirs(ts[1..], path)
  }

  /** An entry whose words can be told apart: the name, a link target and a path are single
      words, the name is not a dollar sign, and the kind has its own letter. */
  predicate CleanEntry(t: Tree, path: string) {
    && Word(t.name) && t.name != "$"
    && Kept(t) && !t.info.kind.Irregular?
    && (t.info.kind.Symlink? ==> t.target.Some? && Word(t.target.value))
    && (t.info.kind.Regular? ==> NoBlank(path))
  }

  predicate Clean(ts: seq<Tree>, path: string) {
    forall t <- ts :: Kept(t) ==> CleanEntry(t, path) && (IsDir(t) ==> Clean(t.children, FullPath(path, t.name)))
  }

  // ---------------------------------------------------------------- the words of the output

  function FileTokens(t: Tree, path: string): seq<string> {
    if Kept(t) && !IsDir(t) then Words(t, path) else []
  }

  function FilesTokens(ts: seq<Tree>, path: string): seq<string> {
    if ts == [] then [] else FileTokens(ts[0], path) + FilesTokens(ts[1..], path)
  }

  function KidsTokens(ts: seq<Tree>, path: string): seq<string>
    decreases ts, 1
  {
    FilesTokens(ts, path) + DirsTokens(ts, path)
  }

  function DirTokens(t: Tree, path: string): seq<string>
    decreases t
  {
    if IsDir(t) then Words(t, path) + KidsTokens(t.children, FullPath(path, t.name)) + ["$"] else []
  }

  function DirsTokens(ts: seq<Tree>, path: string): seq<string>
    decreases ts, 0
  {
    if ts == [] then [] else DirTokens(ts[0], path) + DirsTokens(ts[1..], path)
  }

  lemma WordsAreWords(t: Tree, path: string)
    requires CleanEntry(t, path)
    ensures forall w :: w in Words(t, path) ==> Word(w)
  {
    hide Digits;
    assert Word("0") && Word(ModeWord(t.info));
    DigitsAreWords(t.info.major);
    DigitsAreWords(t.info.minor);
  }

  lemma DigitsAreWords(n: nat)
    ensures Word(Digits(n))
  {
    DigitsAreDigits(n);
    assert forall c :: IsDigit(c) ==> !IsBlank(c);
  }

  lemma LexFile(s: string, t: Tree, path: string, depth: nat)
    requires !Lex(s).open && (Kept(t) ==> CleanEntry(t, path))
    ensures Lex(s + FileText(t, path, depth)) == Lexed(Lex(s).words + FileTokens(t, path), false)
  {
    hide Lex, Line;
    if Kept(t) && !IsDir(t) {
      WordsAreWords(t, path);
      LexLine(s, depth, Words(t, path));
    } else {
      assert s + "" == s && Lex(s).words + [] == Lex(s).words;
    }
  }

  lemma FilesUnfold(ts: seq<Tree>, path: string, depth: nat)
    ensures RenderFiles(ts, path, depth) ==
      if ts == [] then "" else FileText(ts[0], path, depth) + RenderFiles(ts[1..], path, depth)
    ensures FilesTokens(ts, path) == if ts == [] then [] else FileTokens(ts[0], path) + FilesTokens(ts[1..], path)
  {
  }

  lemma {:induction false} LexFiles(s: string, ts: seq<Tree>, path: string, depth: nat)
    requires !Lex(s).open && Clean(ts, path)
    ensures Lex(s + RenderFiles(ts, path, depth)) == Lexed(Lex(s).words + FilesTokens(ts, path), false)
    decreases |ts|
  {
    hide Lex, FileTokens, FileText, RenderFiles, FilesTokens;
    FilesUnfold(ts, path, depth);
    if ts == [] {
      assert s + "" == s && Lex(s).words + [] == Lex(s).words;
    } else {
      LexFile(s, ts[0], path, depth);
      LexFiles(s + FileText(ts[0], path, depth), ts[1..], path, depth);
      Shift(s, FileText(ts[0], path, depth), RenderFiles(ts[1..], path, depth));
      Shift(Lex(s).words, FileTokens(ts[0], path), FilesTokens(ts[1..], path));
    }
  }

  /** The dollar sign that closes a directory below the root. */
  function Closing(depth: nat): seq<string> {
    if depth > 1 then ["$"] else []
  }

  lemma {:induction false} LexKids(s: string, ts: seq<Tree>, path: string, depth: nat)
    requires depth > 0 && !Lex(s).open && Clean(ts, path)
    ensures Lex(s + RenderKids(ts, path, depth)) == Lexed(Lex(s).words + KidsTokens(ts, path) + Closing(depth), false)
    decreases ts, 1
  {
    hide Lex, Line, RenderFiles, RenderDirs, FilesTokens, DirsTokens;
    var files, dirs := RenderFiles(ts, path, depth), RenderDirs(ts, path, depth);
    LexFiles(s, ts, path, depth);
    LexDirs(s + files, ts, path, depth);
    assert Lex(s).words + FilesTokens(ts, path) + DirsTokens(ts, path) == Lex(s).words + KidsTokens(ts, path);
    if depth > 1 {
      LexLine(s + files + dirs, depth - 1, ["$"]);
      assert s + RenderKids(ts, path, depth) == s + files + dirs + Line(depth - 1, ["$"]);
    } else {
      assert s + RenderKids(ts, path, depth) == s + files + dirs;
      assert Lex(s).words + KidsTokens(ts, path) + [] == Lex(s).words + KidsTokens(ts, path);
    }
  }

  lemma {:induction false} LexDir(s: string, t: Tree, path: string, depth: nat)
    requires depth > 0 && !Lex(s).open && (IsDir(t) ==> CleanEntry(t, path) && Clean(t.children, FullPath(path, t.name)))
    ensures Lex(s + DirText(t, path, depth)) == Lexed(Lex(s).words + DirTokens(t, path), false)
    decreases t, 0
  {
    hide Lex, Line, Words, RenderKids, KidsTokens;
    if IsDir(t) {
      var line, inner := Line(depth, Words(t, path)), FullPath(path, t.name);
      WordsAreWords(t, path);
      assert Words(t, path) != [] by {
        WordsNotEmpty(t, path);
      }
      LexLine(s, depth, Words(t, path));
      LexKids(s + line, t.children, inner, depth + 1);
      assert s + DirText(t, path, depth) == s + line + RenderKids(t.children, inner, depth + 1);
      assert Lex(s).words + Words(t, path) + KidsTokens(t.children, inner) + ["$"] == Lex(s).words + DirTokens(t, path);
    } else {
      assert s + "" == s && Lex(s).words + [] == Lex(s).words;
    }
  }

  lemma WordsNotEmpty(t: Tree, path: string)
    ensures Words(t, path) != []
  {
  }

  lemma {:induction false} LexDirs(s: string, ts: seq<Tree>, path: string, depth: nat)
    requires depth > 0 && !Lex(s).open && Clean(ts, path)
    ensures Lex(s + RenderDirs(ts, path, depth)) == Lexed(Lex(s).words + DirsTokens(ts, path), false)
    decreases ts, 0
  {
    hide Lex, DirText, DirTokens, RenderDirs, DirsTokens;
    DirsUnfold(ts, path, depth);
    if ts == [] {
      assert s + "" == s && Lex(s).words + [] == Lex(s).words;
    } else {
      LexDir(s, ts[0], path, depth);
      LexDirs(s + DirText(ts[0], path, depth), ts[1..], path, depth);
      Shift(s, DirText(ts[0], path, depth), RenderDirs(ts[1..], path, depth));
      Shift(Lex(s).words, DirTokens(ts[0], path), DirsTokens(ts[1..], path));
    }
  }

  lemma DirsUnfold(ts: seq<Tree>, path: string, depth: nat)
    ensures RenderDirs(ts, path, depth) ==
      if ts == [] then "" else DirText(ts[0], path, depth) + RenderDirs(ts[1..], path, depth)
    ensures DirsTokens(ts, path) == if ts == [] then [] else DirTokens(ts[0], path) + DirsTokens(ts[1..], path)
  {
  }

  // ---------------------------------------------------------------- reading the words back

  lemma ModeRoundTrip(info: Info)
    requires !info.kind.Socket? && !info.kind.Irregular?
    ensures ParseMode(ModeWord(info)) == Some(Mode(info.kind, info.setuid, info.setgid, info.perm))
  {
    assert ModeWord(info)[3..] == Octal3(info.perm);
    OctalRoundTrip(info.perm);
    hide Octal3;
  }

  lemma OctalRoundTrip(perm: Perm)
    ensures var o := Octal3(perm);
      AllDigits(o) && 64 * DigitValue(o[0]) + 8 * DigitValue(o[1]) + DigitValue(o[2]) == perm
  {
    var a := perm / 8;
    assert perm == 8 * a + perm % 8 && a / 8 == perm / 64 && a == 8 * (a / 8) + a % 8;
  }

  lemma AddTwice(stack: seq<Frame>, a: seq<Node>, b: seq<Node>)
    requires stack != []
    ensures Add(Add(stack, a), b) == Add(stack, a + b)
  {
    var top := stack[|stack| - 1];
    assert top.children + a + b == top.children + (a + b);
  }

  lemma AddNothing(stack: seq<Frame>)
    requires stack != []
    ensures Add(stack, []) == stack
  {
    var top := stack[|stack| - 1];
    assert top.children + [] == top.children;
  }

  lemma ParseFile(t: Tree, path: string, rest: seq<string>, stack: seq<Frame>)
    requires stack != [] && CleanEntry(t, path) && !IsDir(t)
    ensures ParseEntries(Words(t, path) + rest, stack) == ParseEntries(rest, Add(stack, [CanonFile(t, path)]))
  {
    var tokens := Words(t, path) + rest;
    ModeRoundTrip(t.info);
    var n := ExtraCount(t.info.kind);
    assert tokens[1] == ModeWord(t.info);
    assert |ExtraWords(t, FullPath(path, t.name))| == n;
    assert tokens[4..4 + n] == ExtraWords(t, FullPath(path, t.name));
    assert tokens[4 + n..] == rest;
  }

  lemma {:induction false} ParseFiles(ts: seq<Tree>, path: string, rest: seq<string>, stack: seq<Frame>)
    requires stack != [] && Clean(ts, path)
    ensures ParseEntries(FilesTokens(ts, path) + rest, stack) == ParseEntries(rest, Add(stack, CanonFiles(ts, path)))
    decreases |ts|
  {
    hide ParseEntries, Words, CanonFile, Add;
    if ts == [] {
      assert [] + rest == rest;
      AddNothing(stack);
    } else {
      var later := FilesTokens(ts[1..], path) + rest;
      assert FilesTokens(ts, path) + rest == FileTokens(ts[0], path) + later;
      if Kept(ts[0]) && !IsDir(ts[0]) {
        ParseFile(ts[0], path, later, stack);
        ParseFiles(ts[1..], path, rest, Add(stack, [CanonFile(ts[0], path)]));
        AddTwice(stack, [CanonFile(ts[0], path)], CanonFiles(ts[1..], path));
      } else {
        assert [] + later == later;
        assert [] + CanonFiles(ts[1..], path) == CanonFiles(ts[1..], path);
        ParseFiles(ts[1..], path, rest, stack);
      }
    }
  }

  lemma ParseDirHeader(t: Tree, path: string, rest: seq<string>, stack: seq<Frame>)
    requires stack != [] && CleanEntry(t, path) && IsDir(t)
    ensures ParseEntries(Words(t, path) + rest, stack) == ParseEntries(rest, stack + [Opened(t)])
  {
    var tokens := Words(t, path) + rest;
    ModeRoundTrip(t.info);
    assert tokens[1] == ModeWord(t.info);
    assert tokens[4..] == rest;
  }

  function Opened(t: Tree): Frame {
    Frame(t.name, Mode(t.info.kind, t.info.setuid, t.info.setgid, t.info.perm), [])
  }

  lemma ParseDollar(rest: seq<string>, stack: seq<Frame>, f: Frame)
    requires stack != []
    ensures ParseEntries(["$"] + rest, stack + [f]) == ParseEntries(rest, Add(stack, [Closed(f)]))
  {
    assert (["$"] + rest)[1..] == rest;
    assert (stack + [f])[..|stack|] == stack;
  }

  lemma {:induction false} ParseDir(t: Tree, path: string, rest: seq<string>, stack: seq<Frame>)
    requires stack != [] && CleanEntry(t, path) && IsDir(t) && Clean(t.children, FullPath(path, t.name))
    ensures ParseEntries(DirTokens(t, path) + rest, stack) == ParseEntries(rest, Add(stack, [CanonDir(t, path)]))
    decreases t, 0
  {
    hide ParseEntries, Words, KidsTokens, CanonKids;
    var inner := FullPath(path, t.name);
    var kids := KidsTokens(t.children, inner);
    assert DirTokens(t, path) + rest == Words(t, path) + (kids + (["$"] + rest));
    ParseDirHeader(t, path, kids + (["$"] + rest), stack);
    ParseKids(t.children, inner, ["$"] + rest, stack + [Opened(t)]);
    var closing := Opened(t).(children := CanonKids(t.children, inner));
    assert Add(stack + [Opened(t)], CanonKids(t.children, inner)) == stack + [closing] by {
      assert (stack + [Opened(t)])[..|stack|] == stack;
      assert [] + CanonKids(t.children, inner) == CanonKids(t.children, inner);
    }
    ParseDollar(rest, stack, closing);
  }

  lemma {:induction false} ParseDirs(ts: seq<Tree>, path: string, rest: seq<string>, stack: seq<Frame>)
    requires stack != [] && Clean(ts, path)
    ensures ParseEntries(DirsTokens(ts, path) + rest, stack) == ParseEntries(rest, Add(stack, CanonDirs(ts, path)))
    decreases ts, 0
  {
    hide ParseEntries, DirTokens, CanonDir, Add;
    if ts == [] {
      assert [] + rest == rest;
      AddNothing(stack);
    } else {
      var later := DirsTokens(ts[1..], path) + rest;
      assert DirsTokens(ts, path) + rest == DirTokens(ts[0], path) + later;
      if IsDir(ts[0]) {
        ParseDir(ts[0], path, later, stack);
        ParseDirs(ts[1..], path, rest, Add(stack, [CanonDir(ts[0], path)]));
        AddTwice(stack, [CanonDir(ts[0], path)], CanonDirs(ts[1..], path));
      } else {
        NoDirTokens(ts[0], path);
        assert [] + later == later;
        assert [] + CanonDirs(ts[1..], path) == CanonDirs(ts[1..], path);
        ParseDirs(ts[1..], path, rest, stack);
      }
    }
  }

  lemma NoDirTokens(t: Tree, path: string)
    requires !IsDir(t)
    ensures DirTokens(t, path) == []
  {
  }

  lemma {:induction false} ParseKids(ts: seq<Tree>, path: string, rest: seq<string>, stack: seq<Frame>)
    requires stack != [] && Clean(ts, path)
    ensures ParseEntries(KidsTokens(ts, path) + rest, stack) == ParseEntries(rest, Add(stack, CanonKids(ts, path)))
    decreases ts, 1
  {
    hide ParseEntries, FilesTokens, DirsTokens, CanonFiles, CanonDirs, Add;
    assert KidsTokens(ts, path) + rest == FilesTokens(ts, path) + (DirsTokens(ts, path) + rest);
    ParseFiles(ts, path, DirsTokens(ts, path) + rest, stack);
    ParseDirs(ts, path, rest, Add(stack, CanonFiles(ts, path)));
    AddTwice(stack, CanonFiles(ts, path), CanonDirs(ts, path));
  }

  // ---------------------------------------------------------------- main results

  function CanonRoot(root: Tree, path: string): Node {
    Dir("", root.info.setuid, root.info.setgid, root.info.perm, CanonKids(root.children, path))
  }

  function HeaderTokens(root: Tree): seq<string> {
    ["/"] + ["0", "0"] + [ModeWord(root.info), "0", "0"]
  }

  /** The words of the whole file, for any root whose entries lex. */
  lemma LexProto(root: Tree, path: string)
    requires Clean(root.children, path)
    ensures Lex(ProtoText(root, path)).words == HeaderTokens(root) + (KidsTokens(root.children, path) + ["$"])
  {
    hide Lex, StatToProtoStr, ModeWord, RenderKids, KidsTokens, Line;
    var head, kids := "/\n0 0\n" + StatToProtoStr(root.info) + "\n", RenderKids(root.children, path, 1);
    LexHeader(root);
    WordsOfHeader(root.info);
    LexKids(head, root.children, path, 1);
    LexLine(head + kids, 0, ["$"]);
    assert ProtoText(root, path) == head + kids + "$\n";
  }

  lemma LexHeader(root: Tree)
    ensures Lex("/\n0 0\n" + StatToProtoStr(root.info) + "\n") == Lexed(HeaderTokens(root), false)
  {
    hide Lex, Line;
    var mode := ModeWord(root.info);
    WordsOfHeader(root.info);
    LexNothing();
    assert "" + "/\n" == "/\n" && "/\n" + "0 0\n" == "/\n0 0\n";
    LexLine("", 0, ["/"]);
    LexLine("/\n", 0, ["0", "0"]);
    LexLine("/\n0 0\n", 0, [mode, "0", "0"]);
    Shift("/\n0 0\n", StatToProtoStr(root.info), "\n");
    assert [] + ["/"] + ["0", "0"] + [mode, "0", "0"] == HeaderTokens(root);
  }

  lemma LexNothing()
    ensures Lex("") == Lexed([], false)
  {
  }

  lemma WordsOfHeader(info: Info)
    ensures Word("/") && Word("0") && Word("$") && Word(ModeWord(info))
    ensures Line(0, ["/"]) == "/\n" && Line(0, ["0", "0"]) == "0 0\n" && Line(0, ["$"]) == "$\n"
    ensures Line(0, [ModeWord(info), "0", "0"]) == StatToProtoStr(info) + "\n"
  {
    var mode := ModeWord(info);
    assert Word(mode);
    hide ModeWord;
    JoinTwo("0", "0");
    JoinConcat([mode], ["0", "0"], ' ');
    assert [mode] + ["0", "0"] == [mode, "0", "0"];
    assert Spaces(0) == "";
  }

  lemma Recovered(root: Tree, path: string)
    requires IsDir(root) && Clean(root.children, path)
    ensures ParseProto(ProtoText(root, path)) == Some(CanonRoot(root, path))
  {
    hide Lex, ModeWord, ParseMode, ParseEntries, ProtoText, KidsTokens, CanonKids;
    LexProto(root, path);
    ModeRoundTrip(root.info);
    var mode := Mode(root.info.kind, root.info.setuid, root.info.setgid, root.info.perm);
    var tokens := HeaderTokens(root) + (KidsTokens(root.children, path) + ["$"]);
    assert tokens[3] == ModeWord(root.info);
    assert tokens[6..] == KidsTokens(root.children, path) + ["$"];
    var frame := Frame("", mode, []);
    ParseKids(root.children, path, ["$"], [frame]);
    assert [] + CanonKids(root.children, path) == CanonKids(root.children, path);
    var closing := frame.(children := CanonKids(root.children, path));
    assert Add([frame], CanonKids(root.children, path)) == [closing];
    ParseLast(closing);
  }

  lemma ParseLast(f: Frame)
    ensures ParseEntries(["$"], [f]) == Some((Closed(f), []))
  {
    assert ["$"][1..] == [];
  }

  /** What the reader can produce below the root. */
  predicate Produced(n: Node) {
    && Word(n.name) && n.name != "$"
    && match n
       case File(_, kind, _, _, _, extra) =>
         !(kind in {Directory, Socket, Irregular}) && |extra| == ExtraCount(kind) && forall w <- extra :: Word(w)
       case Dir(_, _, _, _, children) => AllProduced(children)
  }

  predicate AllProduced(ns: seq<Node>) {
    forall n <- ns :: Produced(n)
  }

  predicate GoodFrames(stack: seq<Frame>) {
    && (forall i :: 0 <= i < |stack| ==> AllProduced(stack[i].children))
    && (forall i :: 0 < i < |stack| ==> Word(stack[i].name) && stack[i].name != "$")
  }

  lemma {:induction false} LexYieldsWords(s: string)
    ensures forall w <- Lex(s).words :: Word(w)
  {
    if s != "" {
      LexYieldsWords(s[..|s| - 1]);
      var l := Lex(s[..|s| - 1]);
      if l.words != [] {
        assert l.words[|l.words| - 1] in l.words;
      }
    }
  }

  lemma AddProduced(stack: seq<Frame>, n: Node)
    requires stack != [] && GoodFrames(stack) && Produced(n)
    ensures GoodFrames(Add(stack, [n]))
  {
  }

  lemma {:induction false} ParseProduces(tokens: seq<string>, stack: seq<Frame>)
    requires stack != [] && GoodFrames(stack) && forall w <- tokens :: Word(w)
    ensures var r := ParseEntries(tokens, stack);
      r.Some? ==> r.value.0.Dir? && AllProduced(r.value.0.children)
    decreases |tokens|
  {
    if ParseEntries(tokens, stack).Some? {
      if tokens[0] == "$" {
        if |stack| > 1 {
          AddProduced(stack[..|stack| - 1], Closed(stack[|stack| - 1]));
          ParseProduces(tokens[1..], Add(stack[..|stack| - 1], [Closed(stack[|stack| - 1])]));
        }
      } else {
        var mode := ParseMode(tokens[1]).value;
        if mode.kind.Directory? {
          ParseProduces(tokens[4..], stack + [Frame(tokens[0], mode, [])]);
        } else {
          var n := ExtraCount(mode.kind);
          var file := File(tokens[0], mode.kind, mode.setuid, mode.setgid, mode.perm, tokens[4..4 + n]);
          AddProduced(stack, file);
          ParseProduces(tokens[4 + n..], Add(stack, [file]));
        }
      }
    }
  }

  lemma ProtoProduces(text: string)
    ensures ParseProto(text).Some? ==> ParseProto(text).value.Dir? && AllProduced(ParseProto(text).value.children)
  {
    if ParseProto(text).Some? {
      hide Lex, ParseEntries;
      LexYieldsWords(text);
      var tokens := Lex(text).words;
      ParseProduces(tokens[6..], [Frame("", ParseMode(tokens[3]).value, [])]);
    }
  }

  lemma {:induction false} CanonMember(ts: seq<Tree>, path: string, t: Tree)
    requires t in ts && Kept(t)
    ensures (if IsDir(t) then CanonDir(t, path) else CanonFile(t, path)) in CanonKids(ts, path)
  {
    if t != ts[0] {
      CanonMember(ts[1..], path, t);
    }
  }

  lemma {:induction false} ProducedIsClean(ts: seq<Tree>, path: string)
    requires AllProduced(CanonKids(ts, path))
    ensures Clean(ts, path)
    decreases ts
  {
    forall t | t in ts && Kept(t)
      ensures CleanEntry(t, path) && (IsDir(t) ==> Clean(t.children, FullPath(path, t.name)))
    {
      CanonMember(ts, path, t);
      if IsDir(t) {
        var k :| 0 <= k < |ts| && ts[k] == t;
        assert Produced(CanonDir(t, path));
        ProducedIsClean(t.children, FullPath(path, t.name));
      } else {
        assert Produced(CanonFile(t, path));
        EntryIsClean(t, path);
      }
    }
  }

  lemma EntryIsClean(t: Tree, path: string)
    requires Kept(t) && !IsDir(t) && Produced(CanonFile(t, path))
    ensures CleanEntry(t, path)
  {
    var full := FullPath(path, t.name);
    var extra := ExtraWords(t, full);
    if t.info.kind.Symlink? {
      assert extra[0] in extra;
    } else if t.info.kind.Regular? {
      assert full in extra;
      assert forall c <- path :: c in full;
    }
  }

  /** The reader recovers the tree (sockets dropped, files before subdirectories at each level,
      every directory, the root included, closed by exactly one dollar sign) exactly when every
      entry is clean. */
  lemma Invertible(root: Tree, path: string)
    requires IsDir(root)
    ensures ParseProto(ProtoText(root, path)) == Some(CanonRoot(root, path)) <==> Clean(root.children, path)
  {
    hide ParseProto, ProtoText, CanonKids, Clean;
    if Clean(root.children, path) {
      Recovered(root, path);
    }
    ProtoProduces(ProtoText(root, path));
    if AllProduced(CanonKids(root.children, path)) {
      ProducedIsClean(root.children, path);
    }
  }

  /** What the reader can tell apart, the writer accepts. */
  lemma {:induction false} CleanIsWalkable(ts: seq<Tree>, path: string)
    requires Clean(ts, path)
    ensures Walkable(ts)
    decreases ts
  {
    forall t | t in ts && Kept(t)
      ensures ' ' !in t.name && (IsDir(t) ==> Walkable(t.children))
    {
      assert IsBlank(' ');
      if IsDir(t) {
        var k :| 0 <= k < |ts| && ts[k] == t;
        CleanIsWalkable(t.children, FullPath(path, t.name));
      }
    }
  }

  /** The converse fails: the writer accepts a file called "$", which the reader cannot recover. */
  lemma DollarName(path: string)
    ensures exists root: Tree ::
      IsDir(root) && Walkable(root.children) && ParseProto(ProtoText(root, path)) != Some(CanonRoot(root, path))
  {
    hide ParseProto, ProtoText, CanonRoot;
    var info := Info(Regular, false, false, 0, 0, 0);
    var file := Tree("$", info, None, []);
    var root := Tree("", info.(kind := Directory), None, [file]);
    assert file in root.children && Kept(file) && !CleanEntry(file, path);
    Invertible(root, path);
  }
}

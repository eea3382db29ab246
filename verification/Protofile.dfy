/** The XFS protofile writer: pkg/makefs/protofile.go. */
module Protofile {
  import opened Wrappers
  import opened Decimal
  import opened Text

  /** What the file system reports an entry to be. */
  datatype Kind = Regular | CharDevice | BlockDevice | NamedPipe | Directory | Symlink | Socket | Irregular

  /** The nine permission bits. */
  type Perm = n: int | 0 <= n < 512

  /** The mode without the sticky bit, which is not printed, and the device numbers. */
  datatype Info = Info(kind: Kind, setuid: bool, setgid: bool, perm: Perm, major: nat, minor: nat)

  /** An entry and, for a directory, its entries in the order in which they are listed. The
      target of a symbolic link may be unreadable. */
  datatype Tree = Tree(name: string, info: Info, target: Option<string>, children: seq<Tree>)

  // ---------------------------------------------------------------- one entry

  function TypeChar(kind: Kind): char {
    match kind
    case Regular => '-'
    case CharDevice => 'c'
    case BlockDevice => 'b'
    case NamedPipe => 'p'
    case Directory => 'd'
    case Symlink => 'l'
    case _ => '-'
  }

  /** The nine permission bits as three octal digits. */
  function Octal3(perm: Perm): string {
    [DigitChar(perm / 64), DigitChar(perm / 8 % 8), DigitChar(perm % 8)]
  }

  function ModeWord(info: Info): string {
    [TypeChar(info.kind), if info.setuid then 'u' else '-', if info.setgid then 'g' else '-'] + Octal3(info.perm)
  }

  /** Owner and group are always 0. */
  function StatToProtoStr(info: Info): string {
    ModeWord(info) + " 0 0"
  }

  function ExtraWords(t: Tree, fullpath: string): seq<string> {
    match t.info.kind
    case Regular => [fullpath]
    case CharDevice => [Digits(t.info.major), Digits(t.info.minor)]
    case BlockDevice => [Digits(t.info.major), Digits(t.info.minor)]
    case Symlink => if t.target.Some? then [t.target.value] else []
    case _ => []
  }

  function StatToExtra(t: Tree, fullpath: string): Option<string> {
    match t.info.kind
    case Regular => Some(" " + fullpath)
    case CharDevice => Some(" " + Digits(t.info.major) + " " + Digits(t.info.minor))
    case BlockDevice => Some(" " + Digits(t.info.major) + " " + Digits(t.info.minor))
    case Symlink => if t.target.Some? then Some(" " + t.target.value) else None
    case _ => Some("")
  }

  function Spaces(n: nat): (s: string)
    ensures |s| == n && forall c :: c in s ==> c == ' '
  {
    seq(n, _ => ' ')
  }

  function Line(indent: nat, words: seq<string>): string {
    Spaces(indent) + Join(words, ' ') + "\n"
  }

  function FullPath(path: string, name: string): string {
    path + "/" + name
  }

  function Words(t: Tree, path: string): seq<string> {
    [t.name, ModeWord(t.info), "0", "0"] + ExtraWords(t, FullPath(path, t.name))
  }

  lemma JoinTwo(a: string, b: string)
    ensures Join([a, b], ' ') == a + " " + b
  {
    assert [a, b][..1] == [a];
  }

  lemma LineShape(t: Tree, path: string, depth: nat)
    requires StatToExtra(t, FullPath(path, t.name)).Some?
    ensures Spaces(depth) + t.name + " " + StatToProtoStr(t.info) + StatToExtra(t, FullPath(path, t.name)).value + "\n"
         == Line(depth, Words(t, path))
  {
    var base, extra := [t.name, ModeWord(t.info), "0", "0"], ExtraWords(t, FullPath(path, t.name));
    BaseShape(t);
    ExtraShape(t, FullPath(path, t.name));
    hide StatToExtra, StatToProtoStr, ExtraWords, Join;
    if extra == [] {
      assert base + extra == base;
    } else {
      JoinConcat(base, extra, ' ');
    }
  }

  lemma BaseShape(t: Tree)
    ensures Join([t.name, ModeWord(t.info), "0", "0"], ' ') == t.name + " " + StatToProtoStr(t.info)
  {
    JoinTwo(t.name, ModeWord(t.info));
    JoinTwo("0", "0");
    JoinConcat([t.name, ModeWord(t.info)], ["0", "0"], ' ');
    assert [t.name, ModeWord(t.info), "0", "0"] == [t.name, ModeWord(t.info)] + ["0", "0"];
  }

  lemma ExtraShape(t: Tree, fullpath: string)
    requires StatToExtra(t, fullpath).Some?
    ensures var words := ExtraWords(t, fullpath);
      StatToExtra(t, fullpath).value == if words == [] then "" else " " + Join(words, ' ')
  {
    var words := ExtraWords(t, fullpath);
    if |words| == 2 {
      JoinTwo(words[0], words[1]);
    }
  }

  // ---------------------------------------------------------------- the tree

  predicate Kept(t: Tree) {
    !t.info.kind.Socket?
  }

  predicate IsDir(t: Tree) {
    t.info.kind.Directory?
  }

  function FileText(t: Tree, path: string, depth: nat): string {
    if Kept(t) && !IsDir(t) then Line(depth, Words(t, path)) else ""
  }

  function RenderFiles(ts: seq<Tree>, path: string, depth: nat): string {
    if ts == [] then "" else FileText(ts[0], path, depth) + RenderFiles(ts[1..], path, depth)
  }

  /** What walkTree writes: files, then directories, and below the root the closing dollar sign. */
  function RenderKids(ts: seq<Tree>, path: string, depth: nat): string
    requires depth > 0
    decreases ts, 1
  {
    RenderFiles(ts, path, depth) + RenderDirs(ts, path, depth) + if depth > 1 then Line(depth - 1, ["$"]) else ""
  }

  function DirText(t: Tree, path: string, depth: nat): string
    decreases t
  {
    if IsDir(t) then Line(depth, Words(t, path)) + RenderKids(t.children, FullPath(path, t.name), depth + 1) else ""
  }

  function RenderDirs(ts: seq<Tree>, path: string, depth: nat): string
    decreases ts, 0
  {
    if ts == [] then "" else DirText(ts[0], path, depth) + RenderDirs(ts[1..], path, depth)
  }

  /** What the walk accepts: no space in a kept name, every symbolic link readable. */
  predicate Walkable(ts: seq<Tree>) {
    forall t <- ts :: Kept(t) ==>
      ' ' !in t.name && (t.info.kind.Symlink? ==> t.target.Some?) && (IsDir(t) ==> Walkable(t.children))
  }

  class Buffer {
    var text: string

    constructor ()
      ensures text == ""
    {
      text := "";
    }

    method Write(s: string)
      modifies this
      ensures text == old(text) + s
    {
      text := text + s;
    }
  }

  /** The entries of one directory, as walkTree collects them: sockets are skipped, and a name
      with a space is an error. */
  method Collect(children: seq<Tree>) returns (entries: Option<seq<Tree>>)
    ensures entries.Some? <==> forall t <- children :: Kept(t) ==> ' ' !in t.name
    ensures entries.Some? ==> entries.value == KeptOf(children)
  {
    var kept: seq<Tree> := [];
    for i := 0 to |children|
      invariant kept == KeptOf(children[..i])
      invariant forall t <- children[..i] :: Kept(t) ==> ' ' !in t.name
    {
      var t := children[i];
      assert children[..i + 1] == children[..i] + [t];
      KeptOne(children[..i], t);
      if !Kept(t) {
        continue;
      }
      if ' ' in t.name {
        assert t in children;
        return None;
      }
      kept := kept + [t];
    }
    assert children[..|children|] == children;
    return Some(kept);
  }

  function KeptOf(ts: seq<Tree>): seq<Tree> {
    if ts == [] then [] else (if Kept(ts[0]) then [ts[0]] else []) + KeptOf(ts[1..])
  }

  lemma {:induction false} KeptOne(ts: seq<Tree>, t: Tree)
    ensures KeptOf(ts + [t]) == KeptOf(ts) + if Kept(t) then [t] else []
  {
    if ts == [] {
      assert ts + [t] == [t];
    } else {
      KeptOne(ts[1..], t);
      assert (ts + [t])[1..] == ts[1..] + [t];
    }
  }

  lemma {:induction false} KeptMembers(ts: seq<Tree>)
    ensures forall t :: t in KeptOf(ts) <==> t in ts && Kept(t)
  {
    if ts != [] {
      KeptMembers(ts[1..]);
      assert ts == [ts[0]] + ts[1..];
    }
  }

  lemma {:induction false} KeptFilesAlike(ts: seq<Tree>, path: string, depth: nat)
    ensures RenderFiles(KeptOf(ts), path, depth) == RenderFiles(ts, path, depth)
  {
    if ts != [] {
      hide FileText, Line, Words;
      KeptFilesAlike(ts[1..], path, depth);
      if Kept(ts[0]) {
        assert KeptOf(ts)[1..] == KeptOf(ts[1..]);
      } else {
        SocketText(ts[0], path, depth);
        assert "" + RenderFiles(ts[1..], path, depth) == RenderFiles(ts[1..], path, depth);
        assert KeptOf(ts) == KeptOf(ts[1..]);
      }
    }
  }

  lemma {:induction false} KeptDirsAlike(ts: seq<Tree>, path: string, depth: nat)
    ensures RenderDirs(KeptOf(ts), path, depth) == RenderDirs(ts, path, depth)
  {
    if ts != [] {
      hide DirText, RenderKids;
      KeptDirsAlike(ts[1..], path, depth);
      if Kept(ts[0]) {
        assert KeptOf(ts)[1..] == KeptOf(ts[1..]);
      } else {
        SocketText(ts[0], path, depth);
        assert "" + RenderDirs(ts[1..], path, depth) == RenderDirs(ts[1..], path, depth);
        assert KeptOf(ts) == KeptOf(ts[1..]);
      }
    }
  }

  lemma SocketText(t: Tree, path: string, depth: nat)
    requires !Kept(t)
    ensures FileText(t, path, depth) == "" && DirText(t, path, depth) == ""
  {
  }

  method PrintEntry(w: Buffer, t: Tree, path: string, depth: nat) returns (ok: bool)
    modifies w
    ensures ok <==> (t.info.kind.Symlink? ==> t.target.Some?)
    ensures w.text == old(w.text) + if ok then Line(depth, Words(t, path)) else ""
  {
    var extra := StatToExtra(t, FullPath(path, t.name));
    if extra.None? {
      return false;
    }
    LineShape(t, path, depth);
    w.Write(Spaces(depth) + t.name + " " + StatToProtoStr(t.info) + extra.value + "\n");
    return true;
  }

  predicate Readable(t: Tree) {
    t.info.kind.Symlink? ==> t.target.Some?
  }

  /** The first loop of walkTree. */
  method PrintFiles(w: Buffer, entries: seq<Tree>, path: string, depth: nat) returns (ok: bool)
    requires forall t <- entries :: Kept(t)
    modifies w
    ensures ok <==> forall t <- entries :: Readable(t)
    ensures ok ==> w.text == old(w.text) + RenderFiles(entries, path, depth)
  {
    ghost var all := old(w.text) + RenderFiles(entries, path, depth);
    assert entries[0..] == entries;
    for i := 0 to |entries|
      invariant w.text + RenderFiles(entries[i..], path, depth) == all
      invariant forall j :: 0 <= j < i ==> Readable(entries[j])
    {
      assert entries[i..][1..] == entries[i + 1..] && entries[i] in entries;
      hide Line, Words;
      ghost var before, after := w.text, RenderFiles(entries[i + 1..], path, depth);
      if !IsDir(entries[i]) {
        ok := PrintEntry(w, entries[i], path, depth);
        if !ok {
          return false;
        }
      }
      Shift(before, FileText(entries[i], path, depth), after);
    }
    assert w.text + "" == w.text;
    return true;
  }

  /** One directory in the second loop of walkTree. */
  method PrintDir(w: Buffer, t: Tree, path: string, depth: nat) returns (ok: bool)
    requires IsDir(t)
    modifies w
    ensures ok <==> Walkable(t.children)
    ensures ok ==> w.text == old(w.text) + DirText(t, path, depth)
    decreases t, 0
  {
    hide Line, Words, RenderKids;
    ok := PrintEntry(w, t, path, depth);
    ok := WalkTree(w, FullPath(path, t.name), t.children, depth + 1);
    Shift(old(w.text), Line(depth, Words(t, path)), RenderKids(t.children, FullPath(path, t.name), depth + 1));
  }

  /** The second loop of walkTree; the entries are some of those listed in `listed`. */
  method PrintDirs(w: Buffer, entries: seq<Tree>, path: string, depth: nat, ghost listed: seq<Tree>) returns (ok: bool)
    requires forall t :: t in entries ==> t in listed
    modifies w
    ensures ok <==> forall t <- entries :: IsDir(t) ==> Walkable(t.children)
    ensures ok ==> w.text == old(w.text) + RenderDirs(entries, path, depth)
    decreases listed, 0
  {
    ghost var all := old(w.text) + RenderDirs(entries, path, depth);
    assert entries[0..] == entries;
    for i := 0 to |entries|
      invariant w.text + RenderDirs(entries[i..], path, depth) == all
      invariant forall j :: 0 <= j < i && IsDir(entries[j]) ==> Walkable(entries[j].children)
    {
      assert entries[i..][1..] == entries[i + 1..] && entries[i] in entries;
      hide DirText, Walkable;
      ghost var before, after := w.text, RenderDirs(entries[i + 1..], path, depth);
      if IsDir(entries[i]) {
        ghost var k :| 0 <= k < |listed| && listed[k] == entries[i];
        ok := PrintDir(w, entries[i], path, depth);
        if !ok {
          return false;
        }
      } else {
        NotADir(entries[i], path, depth);
      }
      Shift(before, DirText(entries[i], path, depth), after);
    }
    assert w.text + "" == w.text;
    return true;
  }

  method WalkTree(w: Buffer, path: string, children: seq<Tree>, depth: nat) returns (ok: bool)
    requires depth > 0
    modifies w
    ensures ok <==> Walkable(children)
    ensures ok ==> w.text == old(w.text) + RenderKids(children, path, depth)
    decreases children, 1
  {
    hide RenderFiles, RenderDirs, KeptOf, Line;
    var collected := Collect(children);
    if collected.None? {
      return false;
    }
    var entries := collected.value;
    KeptMembers(children);
    KeptFilesAlike(children, path, depth);
    KeptDirsAlike(children, path, depth);
    ok := PrintFiles(w, entries, path, depth);
    if !ok {
      return false;
    }
    ok := PrintDirs(w, entries, path, depth, children);
    if !ok {
      return false;
    }
    Shift(old(w.text), RenderFiles(children, path, depth), RenderDirs(children, path, depth));
    if depth > 1 {
      DollarLine(depth - 1);
      w.Write(Spaces(depth - 1) + "$\n");
    }
    return true;
  }

  lemma DollarLine(indent: nat)
    ensures Line(indent, ["$"]) == Spaces(indent) + "$\n"
  {
  }

  lemma NotADir(t: Tree, path: string, depth: nat)
    requires !IsDir(t)
    ensures DirText(t, path, depth) == ""
  {
  }

  lemma Shift<T>(a: seq<T>, b: seq<T>, c: seq<T>)
    ensures (a + b) + c == a + (b + c)
  {
  }

  datatype ProtoError = NotADirectory | WalkFailed

  function ProtoText(root: Tree, path: string): string {
    "/\n0 0\n" + StatToProtoStr(root.info) + "\n" + RenderKids(root.children, path, 1) + "$\n"
  }

  method GenerateProtofile(root: Tree, path: string) returns (r: Result<string, ProtoError>)
    ensures r.Ok? <==> IsDir(root) && Walkable(root.children)
    ensures r.Ok? ==> r.value == ProtoText(root, path)
    ensures r == Err(NotADirectory) <==> !IsDir(root)
  {
    hide StatToProtoStr, RenderKids, Walkable;
    var buf := new Buffer();
    buf.Write("/\n");
    buf.Write("0 0\n");
    assert buf.text == "/\n0 0\n";
    if !IsDir(root) {
      return Err(NotADirectory);
    }
    buf.Write(StatToProtoStr(root.info) + "\n");
    var ok := WalkTree(buf, path, root.children, 1);
    if !ok {
      return Err(WalkFailed);
    }
    buf.Write("$\n");
    return Ok(buf.text);
  }
}

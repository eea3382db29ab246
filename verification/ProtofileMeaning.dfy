/** What a protofile says about each entry of the source tree, at any depth: which file to take
    the content from, which device, which link target. */
module ProtofileMeaning {
  import opened Wrappers
  import opened Decimal
  import opened Text
  import opened Protofile
  import opened ProtofileParsing

  /** The letters of the mode word, and the octal digits of the permissions. */
  lemma ModeLetters(info: Info)
    ensures var w := ModeWord(info);
      && |w| == 6
      && w[0] == (match info.kind
                  case CharDevice => 'c'
                  case BlockDevice => 'b'
                  case NamedPipe => 'p'
                  case Directory => 'd'
                  case Symlink => 'l'
                  case _ => '-')
      && w[1] == (if info.setuid then 'u' else '-')
      && w[2] == (if info.setgid then 'g' else '-')
      && '0' <= w[3] <= '7' && '0' <= w[4] <= '7' && '0' <= w[5] <= '7'
      && info.perm == 0x40 * (w[3] - '0') as int + 8 * (w[4] - '0') as int + (w[5] - '0') as int
  {
    var w := ModeWord(info);
    assert w[3..] == Octal3(info.perm);
    OctalRoundTrip(info.perm);
  }

  // ---------------------------------------------------------------- order

  /** The files come first, then the subdirectories, each in the order of the source. */
  predicate InOrder(ns: seq<Node>, ts: seq<Tree>) {
    exists k ::
      && 0 <= k <= |ns|
      && Names(ns[..k]) == NamesWhere(ts, t => Kept(t) && !IsDir(t))
      && Names(ns[k..]) == NamesWhere(ts, t => IsDir(t))
      && (forall i :: 0 <= i < |ns| ==> (ns[i].File? <==> i < k))
  }

  lemma KidsInOrder(ts: seq<Tree>, path: string)
    ensures InOrder(CanonKids(ts, path), ts)
  {
    hide NamesWhere, Names;
    FilesInOrder(ts, path);
    DirsInOrder(ts, path);
    var fs, ds := CanonFiles(ts, path), CanonDirs(ts, path);
    assert CanonKids(ts, path)[..|fs|] == fs && CanonKids(ts, path)[|fs|..] == ds;
  }

  function Names(ns: seq<Node>): seq<string> {
    seq(|ns|, i requires 0 <= i < |ns| => ns[i].name)
  }

  function NamesWhere(ts: seq<Tree>, p: Tree -> bool): seq<string> {
    if ts == [] then [] else (if p(ts[0]) then [ts[0].name] else []) + NamesWhere(ts[1..], p)
  }

  lemma {:induction false} FilesInOrder(ts: seq<Tree>, path: string)
    ensures Names(CanonFiles(ts, path)) == NamesWhere(ts, t => Kept(t) && !IsDir(t))
    ensures forall i :: 0 <= i < |CanonFiles(ts, path)| ==> CanonFiles(ts, path)[i].File?
  {
    if ts != [] {
      FilesInOrder(ts[1..], path);
    }
  }

  lemma NamesCons(n: Node, ns: seq<Node>)
    ensures Names([n] + ns) == [n.name] + Names(ns)
  {
  }

  lemma {:induction false} DirsInOrder(ts: seq<Tree>, path: string)
    ensures Names(CanonDirs(ts, path)) == NamesWhere(ts, t => IsDir(t))
    ensures forall i :: 0 <= i < |CanonDirs(ts, path)| ==> CanonDirs(ts, path)[i].Dir?
    decreases |ts|
  {
    hide CanonKids, FullPath, Names;
    if ts == [] {
      assert Names([]) == [] by {
        NoNames();
      }
    } else {
      DirsInOrder(ts[1..], path);
      if IsDir(ts[0]) {
        NamesCons(CanonDir(ts[0], path), CanonDirs(ts[1..], path));
      } else {
        assert [] + CanonDirs(ts[1..], path) == CanonDirs(ts[1..], path);
      }
    }
  }

  lemma NoNames()
    ensures Names([]) == []
  {
  }

  // ---------------------------------------------------------------- entries at a route

  /** `t` is an entry below the directories named by `route`. */
  predicate SourceAt(ts: seq<Tree>, route: seq<string>, t: Tree)
    decreases |route|
  {
    if route == [] then t in ts && Kept(t)
    else exists d <- ts :: IsDir(d) && d.name == route[0] && SourceAt(d.children, route[1..], t)
  }

  /** The same for the nodes that the reader recovers. */
  predicate NodeAt(ns: seq<Node>, route: seq<string>, n: Node)
    decreases |route|
  {
    if route == [] then n in ns
    else exists d <- ns :: d.Dir? && d.name == route[0] && NodeAt(d.children, route[1..], n)
  }

  /** `n` describes `t`, whose path in the source is `full`. */
  predicate Describes(n: Node, t: Tree, full: string) {
    && n.name == t.name && n.setuid == t.info.setuid && n.setgid == t.info.setgid && n.perm == t.info.perm
    && (n.Dir? <==> t.info.kind == Directory)
    && (n.Dir? ==> InOrder(n.children, t.children))
    && (n.File? ==>
        && n.kind == t.info.kind
        && match t.info.kind
           case Regular => n.extra == [full]
           case Symlink => t.target.Some? ==> n.extra == [t.target.value]
           case CharDevice => n.extra == [FormatInt(t.info.major), FormatInt(t.info.minor)]
           case BlockDevice => n.extra == [FormatInt(t.info.major), FormatInt(t.info.minor)]
           case _ => n.extra == [])
  }

  /** The source path, then for each directory on the way and for the entry itself one slash and its name. */
  function SourcePath(path: string, route: seq<string>, name: string): string {
    Join([path] + route + [name], '/')
  }

  lemma StepDown(path: string, d: string, route: seq<string>, name: string)
    ensures SourcePath(FullPath(path, d), route, name) == SourcePath(path, [d] + route, name)
  {
    var rest := route + [name];
    JoinSingle(FullPath(path, d), '/');
    JoinPair(path, d);
    JoinConcat([FullPath(path, d)], rest, '/');
    JoinConcat([path, d], rest, '/');
    assert [FullPath(path, d)] + rest == [FullPath(path, d)] + route + [name];
    assert [path, d] + rest == [path] + ([d] + route) + [name];
  }

  lemma JoinPair(path: string, name: string)
    ensures Join([path, name], '/') == FullPath(path, name)
  {
    assert [path, name][..1] == [path];
  }

  lemma {:induction false} CanonFilesMembers(ts: seq<Tree>, path: string, n: Node)
    ensures n in CanonFiles(ts, path) <==> exists t <- ts :: Kept(t) && !IsDir(t) && n == CanonFile(t, path)
  {
    hide CanonFile;
    if ts != [] {
      CanonFilesMembers(ts[1..], path, n);
      assert ts == [ts[0]] + ts[1..];
    }
  }

  lemma {:induction false} CanonDirsMembers(ts: seq<Tree>, path: string, n: Node)
    ensures n in CanonDirs(ts, path) <==> exists t <- ts :: IsDir(t) && n == CanonDir(t, path)
    decreases |ts|
  {
    hide CanonDir;
    if ts != [] {
      CanonDirsMembers(ts[1..], path, n);
      assert ts == [ts[0]] + ts[1..];
    }
  }

  lemma KindOfDescribed(t: Tree, path: string)
    requires Kept(t)
    ensures var n := if IsDir(t) then CanonDir(t, path) else CanonFile(t, path);
      Describes(n, t, SourcePath(path, [], t.name))
  {
    hide CanonKids, InOrder, FullPath, Join;
    JoinPair(path, t.name);
    assert [path] + [] + [t.name] == [path, t.name];
    KidsInOrder(t.children, FullPath(path, t.name));
  }

  lemma KidsMembers(ts: seq<Tree>, path: string, n: Node)
    ensures n in CanonKids(ts, path) <==>
      exists t <- ts :: Kept(t) && n == if IsDir(t) then CanonDir(t, path) else CanonFile(t, path)
  {
    hide CanonDir, CanonFile;
    CanonFilesMembers(ts, path, n);
    CanonDirsMembers(ts, path, n);
  }

  /** Every entry of the source is described where it stands. */
  lemma {:induction false} EntryDescribed(ts: seq<Tree>, path: string, route: seq<string>, t: Tree)
    requires SourceAt(ts, route, t)
    ensures Kept(t)
    ensures exists n :: NodeAt(CanonKids(ts, path), route, n) && Describes(n, t, SourcePath(path, route, t.name))
    decreases |route|
  {
    hide CanonKids, Describes, SourcePath;
    if route == [] {
      var n := if IsDir(t) then CanonDir(t, path) else CanonFile(t, path);
      KidsMembers(ts, path, n);
      KindOfDescribed(t, path);
      assert NodeAt(CanonKids(ts, path), route, n);
    } else {
      var d :| d in ts && IsDir(d) && d.name == route[0] && SourceAt(d.children, route[1..], t);
      var inner := FullPath(path, d.name);
      EntryDescribed(d.children, inner, route[1..], t);
      var n :| NodeAt(CanonKids(d.children, inner), route[1..], n) && Describes(n, t, SourcePath(inner, route[1..], t.name));
      StepDown(path, d.name, route[1..], t.name);
      assert [d.name] + route[1..] == route;
      KidsMembers(ts, path, CanonDir(d, path));
      assert CanonDir(d, path).children == CanonKids(d.children, inner);
      assert NodeAt(CanonKids(ts, path), route, n);
    }
  }

  /** Every node describes an entry that stands there. */
  lemma {:induction false} NodeHasSource(ts: seq<Tree>, path: string, route: seq<string>, n: Node)
    requires NodeAt(CanonKids(ts, path), route, n)
    ensures exists t :: SourceAt(ts, route, t) && Describes(n, t, SourcePath(path, route, t.name))
    decreases |route|
  {
    hide CanonKids, Describes, SourcePath;
    if route == [] {
      KidsMembers(ts, path, n);
      var t :| t in ts && Kept(t) && n == if IsDir(t) then CanonDir(t, path) else CanonFile(t, path);
      KindOfDescribed(t, path);
      assert SourceAt(ts, route, t);
    } else {
      var m :| m in CanonKids(ts, path) && m.Dir? && m.name == route[0] && NodeAt(m.children, route[1..], n);
      KidsMembers(ts, path, m);
      var d :| d in ts && Kept(d) && m == if IsDir(d) then CanonDir(d, path) else CanonFile(d, path);
      var inner := FullPath(path, d.name);
      assert CanonDir(d, path).children == CanonKids(d.children, inner);
      NodeHasSource(d.children, inner, route[1..], n);
      var t :| SourceAt(d.children, route[1..], t) && Describes(n, t, SourcePath(inner, route[1..], t.name));
      StepDown(path, d.name, route[1..], t.name);
      assert [d.name] + route[1..] == route;
      assert SourceAt(ts, route, t);
    }
  }

  /** Reading back what the writer wrote for a clean tree: the entries and nodes at every route
      describe each other, whatever the depth. */
  lemma EntriesRecovered(root: Tree, path: string)
    requires IsDir(root) && Clean(root.children, path)
    ensures var r := ParseProto(ProtoText(root, path));
      && r.Some? && r.value.Dir?
      && r.value.perm == root.info.perm && r.value.setuid == root.info.setuid && r.value.setgid == root.info.setgid
      && InOrder(r.value.children, root.children)
      && (forall route, t :: SourceAt(root.children, route, t) ==>
            exists n :: NodeAt(r.value.children, route, n) && Describes(n, t, SourcePath(path, route, t.name)))
      && (forall route, n :: NodeAt(r.value.children, route, n) ==>
            exists t :: SourceAt(root.children, route, t) && Describes(n, t, SourcePath(path, route, t.name)))
  {
    hide ParseProto, ProtoText, CanonKids, Clean, Describes, InOrder, SourcePath, SourceAt, NodeAt;
    Invertible(root, path);
    KidsInOrder(root.children, path);
    forall route, t | SourceAt(root.children, route, t)
      ensures exists n ::
        NodeAt(CanonKids(root.children, path), route, n) && Describes(n, t, SourcePath(path, route, t.name))
    {
      EntryDescribed(root.children, path, route, t);
    }
    forall route, n | NodeAt(CanonKids(root.children, path), route, n)
      ensures exists t :: SourceAt(root.children, route, t) && Describes(n, t, SourcePath(path, route, t.name))
    {
      NodeHasSource(root.children, path, route, n);
    }
  }

  /** The content of a regular file, at any depth, is taken from the source path, followed for
      each directory on the way and for the file by one slash and its name. */
  lemma ContentPath(root: Tree, path: string, route: seq<string>, n: Node)
    requires IsDir(root) && Clean(root.children, path)
    ensures var r := ParseProto(ProtoText(root, path));
      && r.Some? && r.value.Dir?
      && (NodeAt(r.value.children, route, n) && n.File? && n.kind == Regular ==>
          n.extra == [Join([path] + route + [n.name], '/')])
  {
    hide ParseProto, ProtoText, Clean, SourceAt, NodeAt;
    EntriesRecovered(root, path);
  }

  // ---------------------------------------------------------------- a whole file

  const DEVICE := Tree("tty", Info(CharDevice, false, false, 0x190, 5, 1), None, [])
  const FOLDER := Tree("d", Info(Directory, false, true, 0x1C0, 0, 0), None, [DEVICE])
  const FILE := Tree("a", Info(Regular, true, false, 0x1A4, 0, 0), None, [])
  const SOCKET := Tree("s", Info(Socket, false, false, 0, 0, 0), None, [])
  const LINK := Tree("l", Info(Symlink, false, false, 0x1FF, 0, 0), Some("a"), [])
  const ROOT := Tree("", Info(Directory, false, false, 0x1ED, 0, 0), None, [FOLDER, FILE, SOCKET, LINK])

  lemma DeviceLine()
    ensures Line(2, Words(DEVICE, "/src/d")) == "  tty c--620 0 0 5 1\n"
  {
    hide Line, Words;
    LineShape(DEVICE, "/src/d", 2);
    assert Spaces(2) == "  " && ModeWord(DEVICE.info) == "c--620";
  }

  lemma FolderLine()
    ensures Line(1, Words(FOLDER, "/src")) == " d d-g700 0 0\n"
  {
    hide Line, Words;
    LineShape(FOLDER, "/src", 1);
    assert Spaces(1) == " " && ModeWord(FOLDER.info) == "d-g700";
  }

  lemma FileLine()
    ensures Line(1, Words(FILE, "/src")) == " a -u-644 0 0 /src/a\n"
  {
    hide Line, Words;
    LineShape(FILE, "/src", 1);
    assert Spaces(1) == " " && ModeWord(FILE.info) == "-u-644";
  }

  lemma LinkLine()
    ensures Line(1, Words(LINK, "/src")) == " l l--777 0 0 a\n"
  {
    hide Line, Words;
    LineShape(LINK, "/src", 1);
    assert Spaces(1) == " " && ModeWord(LINK.info) == "l--777";
  }

  lemma FilesCons(t: Tree, ts: seq<Tree>, path: string, depth: nat)
    ensures RenderFiles([], path, depth) == ""
    ensures RenderFiles([t] + ts, path, depth) == FileText(t, path, depth) + RenderFiles(ts, path, depth)
  {
    hide FileText;
    assert ([t] + ts)[1..] == ts;
  }

  lemma DirsCons(t: Tree, ts: seq<Tree>, path: string, depth: nat)
    ensures RenderDirs([], path, depth) == ""
    ensures RenderDirs([t] + ts, path, depth) == DirText(t, path, depth) + RenderDirs(ts, path, depth)
  {
    hide DirText;
    assert ([t] + ts)[1..] == ts;
  }

  lemma FolderText()
    ensures DirText(FOLDER, "/src", 1) == " d d-g700 0 0\n  tty c--620 0 0 5 1\n $\n"
  {
    hide Line, Words, RenderFiles, RenderDirs;
    FolderLine();
    DeviceLine();
    DollarLine(1);
    assert FullPath("/src", "d") == "/src/d" && Spaces(1) == " ";
    assert [DEVICE] + [] == [DEVICE];
    FilesCons(DEVICE, [], "/src/d", 2);
    DirsCons(DEVICE, [], "/src/d", 2);
    assert RenderFiles([DEVICE], "/src/d", 2) == "  tty c--620 0 0 5 1\n";
  }

  lemma RootFiles()
    ensures RenderFiles(ROOT.children, "/src", 1) == " a -u-644 0 0 /src/a\n l l--777 0 0 a\n"
  {
    hide Line, Words, RenderFiles;
    FileLine();
    LinkLine();
    FilesCons(LINK, [], "/src", 1);
    FilesCons(SOCKET, [LINK], "/src", 1);
    FilesCons(FILE, [SOCKET, LINK], "/src", 1);
    FilesCons(FOLDER, [FILE, SOCKET, LINK], "/src", 1);
    assert [LINK] + [] == [LINK] && [SOCKET] + [LINK] == [SOCKET, LINK];
    assert [FILE] + [SOCKET, LINK] == [FILE, SOCKET, LINK];
    assert [FOLDER] + [FILE, SOCKET, LINK] == ROOT.children;
  }

  lemma RootDirs()
    ensures RenderDirs(ROOT.children, "/src", 1) == DirText(FOLDER, "/src", 1)
  {
    hide Line, Words, RenderDirs, RenderKids;
    DirsCons(LINK, [], "/src", 1);
    DirsCons(SOCKET, [LINK], "/src", 1);
    DirsCons(FILE, [SOCKET, LINK], "/src", 1);
    DirsCons(FOLDER, [FILE, SOCKET, LINK], "/src", 1);
    assert [LINK] + [] == [LINK] && [SOCKET] + [LINK] == [SOCKET, LINK];
    assert [FILE] + [SOCKET, LINK] == [FILE, SOCKET, LINK];
    assert [FOLDER] + [FILE, SOCKET, LINK] == ROOT.children;
  }

  lemma RootKids()
    ensures RenderKids(ROOT.children, "/src", 1) ==
      " a -u-644 0 0 /src/a\n l l--777 0 0 a\n" + " d d-g700 0 0\n  tty c--620 0 0 5 1\n $\n"
  {
    hide Line, Words, RenderFiles, RenderDirs, DirText;
    RootFiles();
    RootDirs();
    FolderText();
    AddNothingAfter(RenderFiles(ROOT.children, "/src", 1) + RenderDirs(ROOT.children, "/src", 1));
  }

  lemma AddNothingAfter(s: string)
    ensures s + "" == s
  {
  }

  lemma RootLine()
    ensures StatToProtoStr(ROOT.info) == "d--755 0 0"
  {
    assert ModeWord(ROOT.info) == "d--755";
  }

  /** The whole text for a directory with a set-uid file, a link, a socket and a set-gid
      directory that holds a device. */
  lemma WholeFile()
    ensures ProtoText(ROOT, "/src") ==
      "/\n0 0\n" + "d--755 0 0" + "\n"
      + (" a -u-644 0 0 /src/a\n l l--777 0 0 a\n" + " d d-g700 0 0\n  tty c--620 0 0 5 1\n $\n")
      + "$\n"
  {
    hide RenderKids, StatToProtoStr;
    RootKids();
    RootLine();
  }
}

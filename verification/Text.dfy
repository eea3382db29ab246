/** Splitting, joining and trimming as the Go strings package does. */
module Text {

  /** The parts between separators; one part when there is none, even of the empty text. */
  function Split(s: string, sep: char): (parts: seq<string>)
    ensures parts != []
  {
    if s == "" then [""] else AddChar(Split(s[..|s| - 1], sep), s[|s| - 1], sep)
  }

  /** A separator starts a new part, any other character extends the last one. */
  function AddChar(parts: seq<string>, c: char, sep: char): (r: seq<string>)
    requires parts != []
    ensures r != []
  {
    if c == sep then parts + [""] else parts[..|parts| - 1] + [parts[|parts| - 1] + [c]]
  }

  function Join(parts: seq<string>, sep: char): string {
    if parts == [] then ""
    else if |parts| == 1 then parts[0]
    else Join(parts[..|parts| - 1], sep) + [sep] + parts[|parts| - 1]
  }

  lemma SplitOne(s: string, c: char, sep: char)
    ensures Split(s + [c], sep) == AddChar(Split(s, sep), c, sep)
  {
    assert (s + [c])[..|s|] == s;
  }

  lemma AddCharConcat(a: seq<string>, b: seq<string>, c: char, sep: char)
    requires b != []
    ensures AddChar(a + b, c, sep) == a + AddChar(b, c, sep)
  {
  }

  lemma JoinOne(parts: seq<string>, p: string, sep: char)
    requires parts != []
    ensures Join(parts + [p], sep) == Join(parts, sep) + [sep] + p
  {
    assert (parts + [p])[..|parts|] == parts;
  }

  lemma {:induction false} SplitConcat(x: string, y: string, sep: char)
    ensures Split(x + [sep] + y, sep) == Split(x, sep) + Split(y, sep)
  {
    if y == "" {
      SplitOne(x, sep, sep);
      assert x + [sep] + y == x + [sep];
    } else {
      hide Split, AddChar;
      var init, c := y[..|y| - 1], y[|y| - 1];
      assert y == init + [c];
      assert x + [sep] + y == x + [sep] + init + [c];
      SplitOne(init, c, sep);
      SplitOne(x + [sep] + init, c, sep);
      SplitConcat(x, init, sep);
      AddCharConcat(Split(x, sep), Split(init, sep), c, sep);
    }
  }

  lemma {:induction false} SplitWhole(s: string, sep: char)
    requires sep !in s
    ensures Split(s, sep) == [s]
  {
    if s != "" {
      SplitWhole(s[..|s| - 1], sep);
      assert s == s[..|s| - 1] + [s[|s| - 1]];
    }
  }

  lemma {:induction false} PartsHaveNoSeparator(s: string, sep: char)
    ensures forall p :: p in Split(s, sep) ==> sep !in p
  {
    if s != "" {
      PartsHaveNoSeparator(s[..|s| - 1], sep);
      var parts := Split(s[..|s| - 1], sep);
      assert parts[|parts| - 1] in parts;
      assert forall p :: p in parts[..|parts| - 1] ==> p in parts;
    }
  }

  lemma {:induction false} SplitJoin(parts: seq<string>, sep: char)
    requires parts != [] && forall p :: p in parts ==> sep !in p
    ensures Split(Join(parts, sep), sep) == parts
  {
    if |parts| == 1 {
      assert parts[0] in parts;
      SplitWhole(parts[0], sep);
    } else {
      hide Split, Join;
      var init, last := parts[..|parts| - 1], parts[|parts| - 1];
      assert parts == init + [last] && last in parts;
      JoinOne(init, last, sep);
      SplitJoin(init, sep);
      SplitConcat(Join(init, sep), last, sep);
      SplitWhole(last, sep);
    }
  }

  lemma JoinExtend(parts: seq<string>, c: char, sep: char)
    requires parts != []
    ensures Join(AddChar(parts, c, sep), sep) == Join(parts, sep) + [c]
  {
    var init, last := parts[..|parts| - 1], parts[|parts| - 1];
    assert parts == init + [last];
    if c == sep {
      JoinOne(parts, "", sep);
    } else if init == [] {
      JoinSingle(last, sep);
      JoinSingle(last + [c], sep);
    } else {
      JoinOne(init, last, sep);
      JoinOne(init, last + [c], sep);
    }
  }

  /** Splitting loses nothing. */
  lemma {:induction false} JoinSplit(s: string, sep: char)
    ensures Join(Split(s, sep), sep) == s
  {
    if s == "" {
      JoinSingle("", sep);
    } else {
      hide Join, AddChar;
      JoinSplit(s[..|s| - 1], sep);
      JoinExtend(Split(s[..|s| - 1], sep), s[|s| - 1], sep);
      assert s == s[..|s| - 1] + [s[|s| - 1]];
    }
  }

  lemma {:induction false} JoinConcat(a: seq<string>, b: seq<string>, sep: char)
    requires a != [] && b != []
    ensures Join(a + b, sep) == Join(a, sep) + [sep] + Join(b, sep)
  {
    hide Join;
    var init, last := b[..|b| - 1], b[|b| - 1];
    assert b == init + [last] && a + b == a + init + [last];
    JoinOne(a + init, last, sep);
    if init == [] {
      assert a + init == a && b == [last];
      JoinSingle(last, sep);
    } else {
      JoinOne(init, last, sep);
      JoinConcat(a, init, sep);
    }
  }

  lemma JoinSingle(p: string, sep: char)
    ensures Join([p], sep) == p
  {
  }

  /** Unicode white space. */
  predicate IsSpace(c: char) {
    || '\U{9}' <= c <= '\U{D}' || c == ' ' || c == '\U{85}' || c == '\U{A0}' || c == '\U{1680}'
    || '\U{2000}' <= c <= '\U{200A}' || c == '\U{2028}' || c == '\U{2029}' || c == '\U{202F}'
    || c == '\U{205F}' || c == '\U{3000}'
  }

  function TrimSpace(s: string): string {
    if s == "" then ""
    else if IsSpace(s[0]) then TrimSpace(s[1..])
    else if IsSpace(s[|s| - 1]) then TrimSpace(s[..|s| - 1])
    else s
  }

  lemma SpaceTable(c: char)
    ensures IsSpace(c) <==> c as int in {
      0x9, 0xA, 0xB, 0xC, 0xD, 0x20, 0x85, 0xA0, 0x1680,
      0x2000, 0x2001, 0x2002, 0x2003, 0x2004, 0x2005, 0x2006, 0x2007, 0x2008, 0x2009, 0x200A,
      0x2028, 0x2029, 0x202F, 0x205F, 0x3000}
  {
  }

  predicate AllSpace(s: string) {
    forall c <- s :: IsSpace(c)
  }

  /** `t` is `s` without the white space at its ends. */
  ghost predicate TrimmedTo(s: string, t: string) {
    && (t != "" ==> !IsSpace(t[0]) && !IsSpace(t[|t| - 1]))
    && exists i :: 0 <= i <= |s| - |t| && AllSpace(s[..i]) && t == s[i..i + |t|] && AllSpace(s[i + |t|..])
  }

  lemma AllSpaceMore(s: string, c: char)
    requires AllSpace(s) && IsSpace(c)
    ensures AllSpace([c] + s) && AllSpace(s + [c])
  {
    hide IsSpace;
  }

  lemma ShiftedSlices(s: string, i: nat, j: nat)
    requires i <= j < |s|
    ensures s[..i + 1] == [s[0]] + s[1..][..i] && s[i + 1..j + 1] == s[1..][i..j] && s[j + 1..] == s[1..][j..]
  {
  }

  lemma TrimFront(s: string, t: string)
    requires s != "" && IsSpace(s[0]) && TrimmedTo(s[1..], t)
    ensures TrimmedTo(s, t)
  {
    hide IsSpace, AllSpace;
    var r := s[1..];
    var i :| 0 <= i <= |r| - |t| && AllSpace(r[..i]) && t == r[i..i + |t|] && AllSpace(r[i + |t|..]);
    ShiftedSlices(s, i, i + |t|);
    AllSpaceMore(r[..i], s[0]);
  }

  lemma KeptSlices(s: string, i: nat, j: nat)
    requires i <= j < |s|
    ensures var r := s[..|s| - 1]; s[..i] == r[..i] && s[i..j] == r[i..j] && s[j..] == r[j..] + [s[|s| - 1]]
  {
  }

  lemma TrimBack(s: string, t: string)
    requires s != "" && IsSpace(s[|s| - 1]) && TrimmedTo(s[..|s| - 1], t)
    ensures TrimmedTo(s, t)
  {
    hide IsSpace, AllSpace;
    var r := s[..|s| - 1];
    var i :| 0 <= i <= |r| - |t| && AllSpace(r[..i]) && t == r[i..i + |t|] && AllSpace(r[i + |t|..]);
    KeptSlices(s, i, i + |t|);
    AllSpaceMore(r[i + |t|..], s[|s| - 1]);
  }

  lemma {:induction false} TrimMeaning(s: string)
    ensures var t := TrimSpace(s);
      && TrimSpace(t) == t
      && TrimmedTo(s, t)
      && (forall c :: c in t ==> c in s)
  {
    if s != "" && IsSpace(s[0]) {
      TrimMeaning(s[1..]);
      TrimFront(s, TrimSpace(s));
    } else if s != "" && IsSpace(s[|s| - 1]) {
      TrimMeaning(s[..|s| - 1]);
      TrimBack(s, TrimSpace(s));
    } else {
      assert s[..0] == [] && s[0..0 + |s|] == s && s[|s|..] == [];
    }
  }
}

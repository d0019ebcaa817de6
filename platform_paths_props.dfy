/**
  What the path helpers promise: normalisation is idempotent, rendering and
  parsing round-trip, `combine_library_path` re-roots relative and foreign
  paths as documented, and `path_is_within` is segment containment.
*/
module PlatformPathsProps {
  import opened Wrappers
  import opened PlatformPaths

  // ---------------------------------------------------------------------
  // Well-formed paths: the ones parsing can produce from a native string
  // ---------------------------------------------------------------------

  /** Drive "" or a drive letter "X:". */
  predicate LetterDrive(d: string) {
    d == "" || (|d| == 2 && d[1] == ':' && d[0] != '\\' && d[0] != '/')
  }

  predicate WellFormed(p: PurePath) {
    && (forall s | s in p.segs :: PlainSegment(s, Sep(p.flavour)) && '/' !in s)
    && match p.flavour
       case Posix => p.drive == ""
       case Windows =>
         && LetterDrive(p.drive)
         // a relative first segment must not read as a drive
         && (p.drive == "" && !p.root && |p.segs| > 0 ==> !(|p.segs[0]| >= 2 && p.segs[0][1] == ':'))
  }

  // ---------------------------------------------------------------------
  // Scanning and joining are inverse on plain segments
  // ---------------------------------------------------------------------

  lemma {:induction false} ScanAbsorb(a: string, t: string, sep: char, cur: string)
    requires sep !in a && sep !in cur
    ensures Scan(a + t, sep, cur) == Scan(t, sep, cur + a)
    decreases |a|
  {
    if a == [] {
      assert a + t == t && cur + a == cur;
    } else {
      assert (a + t)[0] == a[0] && (a + t)[1..] == a[1..] + t;
      ScanAbsorb(a[1..], t, sep, cur + [a[0]]);
      assert cur + [a[0]] + a[1..] == cur + a;
    }
  }

  /** A string without separators is one segment (or none, for "" and "."). */
  lemma ScanNoSep(a: string, sep: char)
    requires sep !in a
    ensures Scan(a, sep, "") == Emit(a)
  {
    ScanAbsorb(a, "", sep, "");
    assert a + "" == a && "" + a == a;
  }

  lemma {:induction false} ScanJoin(segs: seq<string>, sep: char)
    requires forall s | s in segs :: PlainSegment(s, sep)
    ensures Scan(Join(segs, sep), sep, "") == segs
    decreases |segs|
  {
    if |segs| == 1 {
      assert segs[0] in segs;
      ScanNoSep(segs[0], sep);
    } else if |segs| > 1 {
      assert segs[0] in segs;
      assert forall s | s in segs[1..] :: s in segs;
      var rest := Join(segs[1..], sep);
      assert Join(segs, sep) == segs[0] + ([sep] + rest);
      ScanAbsorb(segs[0], [sep] + rest, sep, "");
      assert ([sep] + rest)[0] == sep && ([sep] + rest)[1..] == rest;
      ScanJoin(segs[1..], sep);
      assert "" + segs[0] == segs[0];
      assert segs == [segs[0]] + segs[1..];
    }
  }

  lemma {:induction false} NotInJoin(segs: seq<string>, sep: char, c: char)
    requires c != sep && forall s | s in segs :: c !in s
    ensures c !in Join(segs, sep)
    decreases |segs|
  {
    if |segs| > 1 {
      NotInJoin(segs[1..], sep, c);
    }
  }

  lemma {:induction false} InJoin(segs: seq<string>, sep: char, s: string, c: char)
    requires s in segs && c in s
    ensures c in Join(segs, sep)
    decreases |segs|
  {
    if |segs| > 1 {
      var j := Join(segs, sep);
      var head := segs[0] + [sep];
      if s == segs[0] {
        var i :| 0 <= i < |s| && s[i] == c;
        assert j[i] == c;
      } else {
        assert s in segs[1..];
        InJoin(segs[1..], sep, s, c);
        var i :| 0 <= i < |Join(segs[1..], sep)| && Join(segs[1..], sep)[i] == c;
        assert j[|head| + i] == c;
      }
    }
  }

  lemma JoinFirst(segs: seq<string>, sep: char)
    requires |segs| > 0
    ensures |Join(segs, sep)| >= |segs[0]| && Join(segs, sep)[..|segs[0]|] == segs[0]
    ensures |segs| > 1 ==> |Join(segs, sep)| > |segs[0]| && Join(segs, sep)[|segs[0]|] == sep
    ensures |segs| == 1 ==> Join(segs, sep) == segs[0]
  {
  }

  lemma ReplaceAbsent(s: string, x: char, y: char)
    requires x !in s
    ensures ReplaceChar(s, x, y) == s
  {
  }

  lemma {:induction false} ReplaceConcat(a: string, b: string, x: char, y: char)
    ensures ReplaceChar(a + b, x, y) == ReplaceChar(a, x, y) + ReplaceChar(b, x, y)
    decreases |a|
  {
    if a == [] {
      assert a + b == b;
    } else {
      assert (a + b)[0] == a[0] && (a + b)[1..] == a[1..] + b;
      ReplaceConcat(a[1..], b, x, y);
    }
  }

  lemma {:induction false} ReplaceJoin(segs: seq<string>, x: char, y: char)
    requires forall s | s in segs :: x !in s
    ensures ReplaceChar(Join(segs, x), x, y) == Join(segs, y)
    decreases |segs|
  {
    if |segs| == 1 {
      assert segs[0] in segs;
      ReplaceAbsent(segs[0], x, y);
    } else if |segs| > 1 {
      assert segs[0] in segs;
      assert forall s | s in segs[1..] :: s in segs;
      ReplaceAbsent(segs[0], x, y);
      ReplaceJoin(segs[1..], x, y);
      ReplaceConcat(segs[0] + [x], Join(segs[1..], x), x, y);
      ReplaceConcat(segs[0], [x], x, y);
    }
  }

  /** A drive-less path written with either separator: swapping the
      separator characters swaps the flavour of the rendering.  In
      particular `as_posix` of such a Windows path is its POSIX rendering. */
  lemma SwapSeparators(root: bool, segs: seq<string>, from: Flavour, to: Flavour)
    requires forall s | s in segs :: s != "" && '/' !in s && '\\' !in s
    ensures ReplaceChar(Render(PurePath(from, "", root, segs)), Sep(from), Sep(to))
            == Render(PurePath(to, "", root, segs))
  {
    var p := PurePath(from, "", root, segs);
    var q := PurePath(to, "", root, segs);
    ReplaceJoin(segs, Sep(from), Sep(to));
    if root {
      assert Render(p) == [Sep(from)] + Join(segs, Sep(from));
      assert Render(q) == [Sep(to)] + Join(segs, Sep(to));
      ReplaceConcat([Sep(from)], Join(segs, Sep(from)), Sep(from), Sep(to));
    } else if segs != [] {
      JoinFirst(segs, Sep(from));
      JoinFirst(segs, Sep(to));
      assert segs[0] in segs;
      assert Render(p) == Join(segs, Sep(from));
      assert Render(q) == Join(segs, Sep(to));
    } else {
      assert Render(p) == "." && Render(q) == ".";
    }
  }

  // ---------------------------------------------------------------------
  // Round trips
  // ---------------------------------------------------------------------

  lemma PosixRoundTrip(p: PurePath)
    requires WellFormed(p) && p.flavour == Posix
    ensures ParsePosix(Render(p)) == p
  {
    var j := Join(p.segs, '/');
    var r := Render(p);
    ScanJoin(p.segs, '/');
    if p.root {
      assert r == "/" + j;
      assert r[0] == '/' && r[1..] == j;
    } else if p.segs == [] {
      assert r == ".";
      assert Scan(r, '/', "") == Scan("", '/', ".") == [];
    } else {
      assert r == j;
      JoinFirst(p.segs, '/');
      assert p.segs[0] in p.segs;
      assert r[0] == p.segs[0][0];
    }
  }

  lemma WindowsRenderNoSlash(p: PurePath)
    requires WellFormed(p) && p.flavour == Windows
    ensures '/' !in Render(p)
  {
    NotInJoin(p.segs, '\\', '/');
    assert '/' !in p.drive by {
      if p.drive != "" { assert p.drive == [p.drive[0], p.drive[1]]; }
    }
  }

  lemma WindowsSplitRooted(p: PurePath)
    requires WellFormed(p) && p.flavour == Windows && p.drive == "" && p.root
    ensures SplitRootWindows(Render(p)) == SplitRoot("", true, Join(p.segs, '\\'))
  {
    var j := Join(p.segs, '\\');
    var r := Render(p);
    assert r == "\\" + j;
    if |p.segs| > 0 {
      JoinFirst(p.segs, '\\');
      assert p.segs[0] in p.segs;
      assert r[1] == p.segs[0][0];
    }
    assert r[1..] == j;
  }

  lemma WindowsSplitRelative(p: PurePath)
    requires WellFormed(p) && p.flavour == Windows && p.drive == "" && !p.root && p.segs != []
    ensures SplitRootWindows(Render(p)) == SplitRoot("", false, Join(p.segs, '\\'))
  {
    var j := Join(p.segs, '\\');
    var r := Render(p);
    JoinFirst(p.segs, '\\');
    assert p.segs[0] in p.segs;
    assert r == j;
    assert r[0] == p.segs[0][0];
    if |r| >= 2 {
      if |p.segs[0]| >= 2 {
        assert r[1] == p.segs[0][1];
      }
      assert r[1] != ':';
    }
  }

  lemma WindowsSplitDrive(p: PurePath)
    requires WellFormed(p) && p.flavour == Windows && p.drive != ""
    ensures SplitRootWindows(Render(p)) == SplitRoot(p.drive, p.root, Join(p.segs, '\\'))
  {
    var j := Join(p.segs, '\\');
    var r := Render(p);
    if p.root {
      assert r == p.drive + "\\" + j;
      assert r[..2] == p.drive && r[2] == '\\' && r[3..] == j;
    } else {
      assert r == p.drive + j;
      if |p.segs| > 0 {
        JoinFirst(p.segs, '\\');
        assert p.segs[0] in p.segs;
        assert r[2] == p.segs[0][0];
      }
      assert r[..2] == p.drive && r[2..] == j;
    }
  }

  lemma WindowsRoundTrip(p: PurePath)
    requires WellFormed(p) && p.flavour == Windows
    ensures ParseWindows(Render(p)) == p
  {
    var r := Render(p);
    WindowsRenderNoSlash(p);
    ReplaceAbsent(r, '/', '\\');
    ScanJoin(p.segs, '\\');
    if p.drive != "" {
      WindowsSplitDrive(p);
    } else if p.root {
      WindowsSplitRooted(p);
    } else if p.segs != [] {
      WindowsSplitRelative(p);
    } else {
      assert r == ".";
      assert SplitRootWindows(r) == SplitRoot("", false, ".");
      assert Scan(".", '\\', "") == Scan("", '\\', ".") == [];
    }
  }

  /** Parsing a rendered well-formed path with its own flavour gives it back. */
  lemma RenderParseRoundTrip(p: PurePath)
    requires WellFormed(p)
    ensures Parse(p.flavour, Render(p)) == p
  {
    if p.flavour == Posix { PosixRoundTrip(p); } else { WindowsRoundTrip(p); }
  }

  /** A native string -- the rendering of a well-formed path that
      `normalize_path` reads back with the same flavour -- survives
      `normalize_path` followed by `as_os_path_string`. */
  lemma NativeStringRoundTrip(hostIsNt: bool, p: PurePath)
    requires WellFormed(p)
    requires p.flavour == Windows <==> hostIsNt || ':' in Render(p) || '\\' in Render(p)
    ensures Normalize(hostIsNt, Str(Render(p))) == p
    ensures AsOsPathString(hostIsNt, Str(Render(p))) == Render(p)
  {
    RenderParseRoundTrip(p);
  }

  /** When `normalize_path` picks the flavour a native string was written in. */
  lemma NativeFlavourChosen(hostIsNt: bool, p: PurePath)
    requires WellFormed(p)
    ensures p.flavour == Posix && !hostIsNt && (forall s | s in p.segs :: ':' !in s && '\\' !in s)
            ==> (p.flavour == Windows <==> hostIsNt || ':' in Render(p) || '\\' in Render(p))
    ensures p.flavour == Windows && (hostIsNt || p.drive != "" || p.root || |p.segs| >= 2)
            ==> (p.flavour == Windows <==> hostIsNt || ':' in Render(p) || '\\' in Render(p))
  {
    if p.flavour == Posix && !hostIsNt && (forall s | s in p.segs :: ':' !in s && '\\' !in s) {
      NotInJoin(p.segs, '/', ':');
      NotInJoin(p.segs, '/', '\\');
      var r := Render(p);
      assert r == RootString(p) + Join(p.segs, '/') || r == ".";
    }
    if p.flavour == Windows && !hostIsNt {
      var r := Render(p);
      if p.drive != "" {
        assert r[1] == ':';
      } else if p.root {
        assert r[0] == '\\';
      } else if |p.segs| >= 2 {
        JoinFirst(p.segs, '\\');
        assert r == Join(p.segs, '\\');
        assert r[|p.segs[0]|] == '\\';
      }
    }
  }

  /** `normalize_path` is idempotent. */
  lemma NormalizeIdempotent(hostIsNt: bool, path: PathLike)
    ensures Normalize(hostIsNt, Pure(Normalize(hostIsNt, path))) == Normalize(hostIsNt, path)
  {
  }

  /** A pure path keeps its flavour on either host, so its OS string is
      its own rendering wherever it is asked for. */
  lemma AsOsPathStringHostIndependent(p: PurePath)
    ensures AsOsPathString(true, Pure(p)) == AsOsPathString(false, Pure(p)) == Render(p)
  {
  }

  /** `as_os_path_string` of a parsed path does not depend on the host, and
      uses only the separator of the path's own flavour. */
  lemma AsOsPathStringSeparators(p: PurePath)
    requires WellFormed(p)
    ensures AsOsPathString(true, Pure(p)) == AsOsPathString(false, Pure(p)) == Render(p)
    ensures p.flavour == Windows ==> '/' !in AsOsPathString(true, Pure(p))
    ensures p.flavour == Posix && (forall s | s in p.segs :: '\\' !in s) ==> '\\' !in AsOsPathString(true, Pure(p))
  {
    AsOsPathStringHostIndependent(p);
    var r := Render(p);
    if p.flavour == Windows {
      NotInJoin(p.segs, '\\', '/');
      assert '/' !in p.drive by {
        if p.drive != "" { assert p.drive == [p.drive[0], p.drive[1]]; }
      }
      assert r == p.drive + RootString(p) + Join(p.segs, '\\') || r == ".";
    } else if forall s | s in p.segs :: '\\' !in s {
      NotInJoin(p.segs, '/', '\\');
      assert r == RootString(p) + Join(p.segs, '/') || r == ".";
    }
  }

  // ---------------------------------------------------------------------
  // Equality and containment
  // ---------------------------------------------------------------------

  lemma PureEqIsEquivalence(a: PurePath, b: PurePath, c: PurePath)
    ensures PureEq(a, a)
    ensures PureEq(a, b) ==> PureEq(b, a)
    ensures PureEq(a, b) && PureEq(b, c) ==> PureEq(a, c)
  {
  }

  /** On a POSIX host paths of different flavours never match. */
  lemma PosixHostSeparatesFlavours(left: PurePath, right: PurePath)
    requires left.flavour != right.flavour
    ensures !PathsMatch(false, Pure(left), Pure(right))
  {
  }

  /** On a Windows host `paths_match` ignores flavour and case: "/a/b" as a
      POSIX path matches "\\A\\b" as a Windows path. */
  lemma WindowsHostMixesFlavours()
    ensures PathsMatch(true, Pure(PurePath(Posix, "", true, ["a", "b"])),
                             Pure(PurePath(Windows, "", true, ["A", "b"])))
    ensures !PathsMatch(false, Pure(PurePath(Posix, "", true, ["a", "b"])),
                               Pure(PurePath(Windows, "", true, ["A", "b"])))
  {
    var l := PurePath(Posix, "", true, ["a", "b"]);
    var w := PurePath(Windows, "", true, ["A", "b"]);
    assert Join(["a", "b"], '/') == "a/b";
    assert Render(l) == "/a/b";
    assert Join(["A", "b"], '\\') == "A\\b";
    assert Render(w) == "\\A\\b";
    assert AsPosix(w) == "/A/b";
    assert Lower("/A/b") == "/a/b";
    assert Lower("/a/b") == "/a/b";
  }

  /** On a POSIX host, two well-formed POSIX paths match exactly when they
      are the same path, case included. */
  lemma PosixHostMatchIsEquality(left: PurePath, right: PurePath)
    requires WellFormed(left) && WellFormed(right)
    requires left.flavour == Posix && right.flavour == Posix
    ensures PathsMatch(false, Pure(left), Pure(right)) <==> left == right
  {
    if PathsMatch(false, Pure(left), Pure(right)) {
      PosixRoundTrip(left);
      PosixRoundTrip(right);
    }
  }

  /** Each segment lower-cased. */
  function LowerSegs(segs: seq<string>): (r: seq<string>)
    ensures |r| == |segs|
  {
    seq(|segs|, i requires 0 <= i < |segs| => Lower(segs[i]))
  }

  /** The Windows path spelled with the lower-cased drive and segments of
      `p`: what a Windows host compares when it matches `p`. */
  function Folded(p: PurePath): PurePath {
    PurePath(Windows, Lower(p.drive), p.root, LowerSegs(p.segs))
  }

  lemma LowerConcat(a: string, b: string)
    ensures Lower(a + b) == Lower(a) + Lower(b)
  {
    assert forall i | 0 <= i < |a + b| :: Lower(a + b)[i] == (Lower(a) + Lower(b))[i];
  }

  /** Lower-casing keeps every character that is not an upper-case letter,
      and makes no new one. */
  lemma LowerKeeps(s: string, c: char)
    requires !('A' <= c <= 'Z') && !('a' <= c <= 'z')
    ensures c in Lower(s) <==> c in s
  {
    if c in s {
      var i :| 0 <= i < |s| && s[i] == c;
      assert Lower(s)[i] == c;
    }
    if c in Lower(s) {
      var i :| 0 <= i < |s| && Lower(s)[i] == c;
      assert s[i] == c;
    }
  }

  lemma {:induction false} LowerJoin(segs: seq<string>, sep: char)
    requires !('A' <= sep <= 'Z')
    ensures Lower(Join(segs, sep)) == Join(LowerSegs(segs), sep)
    decreases |segs|
  {
    if |segs| > 1 {
      LowerJoin(segs[1..], sep);
      assert LowerSegs(segs)[1..] == LowerSegs(segs[1..]);
      LowerConcat(segs[0] + [sep], Join(segs[1..], sep));
      LowerConcat(segs[0], [sep]);
      assert Lower([sep]) == [sep];
    }
  }

  lemma LowerReplace(s: string)
    ensures Lower(ReplaceChar(s, '\\', '/')) == ReplaceChar(Lower(s), '\\', '/')
  {
    assert forall i | 0 <= i < |s| :: Lower(ReplaceChar(s, '\\', '/'))[i] == ReplaceChar(Lower(s), '\\', '/')[i];
  }

  /** Undoing `as_posix` on a string that had no '/' of its own. */
  lemma ReplaceBack(s: string)
    requires '/' !in s
    ensures ReplaceChar(ReplaceChar(s, '\\', '/'), '/', '\\') == s
  {
    assert forall i | 0 <= i < |s| :: ReplaceChar(ReplaceChar(s, '\\', '/'), '/', '\\')[i] == s[i];
  }

  /** The path a Windows host compares is well formed. */
  lemma FoldedWellFormed(p: PurePath)
    requires WellFormed(p)
    requires forall s | s in p.segs :: '\\' !in s && ':' !in s
    ensures WellFormed(Folded(p))
  {
    var f := Folded(p);
    forall t | t in f.segs
      ensures PlainSegment(t, '\\') && '/' !in t && ':' !in t
    {
      var i :| 0 <= i < |f.segs| && f.segs[i] == t;
      var s := p.segs[i];
      assert s in p.segs;
      LowerKeeps(s, '\\');
      LowerKeeps(s, '/');
      LowerKeeps(s, ':');
      LowerKeeps(s, '.');
    }
    if p.drive != "" {
      assert p.flavour == Windows;
      assert f.drive == [LowerChar(p.drive[0]), LowerChar(p.drive[1])];
    }
    if f.drive == "" && !f.root && |f.segs| > 0 {
      assert f.segs[0] in f.segs;
    }
  }

  /** What a Windows host compares, `as_posix` lower-cased, is the
      `as_posix` spelling of the folded path. */
  lemma FoldedAsPosix(p: PurePath)
    requires WellFormed(p)
    requires forall s | s in p.segs :: '\\' !in s && ':' !in s
    ensures Lower(AsPosix(p)) == ReplaceChar(Render(Folded(p)), '\\', '/')
  {
    var f := Folded(p);
    var sep := Sep(p.flavour);
    var body := p.drive + RootString(p) + Join(p.segs, sep);
    var lowered := PurePath(p.flavour, f.drive, p.root, f.segs);
    LowerJoin(p.segs, sep);
    LowerConcat(p.drive + RootString(p), Join(p.segs, sep));
    LowerConcat(p.drive, RootString(p));
    assert Lower(RootString(p)) == RootString(p);
    assert Lower(".") == ".";
    assert Lower(Render(p)) == Render(lowered);
    FoldedWellFormed(p);
    if p.flavour == Windows {
      LowerReplace(Render(p));
      assert lowered == f;
    } else {
      assert p.drive == "" && f.drive == "";
      forall t | t in f.segs ensures t != "" && '/' !in t && '\\' !in t {
        var i :| 0 <= i < |f.segs| && f.segs[i] == t;
        assert p.segs[i] in p.segs;
        LowerKeeps(p.segs[i], '\\');
      }
      SwapSeparators(p.root, f.segs, Windows, Posix);
    }
  }

  /** On a Windows host, whatever their flavours, two well-formed paths
      whose segments hold no '\\' or ':' match exactly when their root
      flags agree and their drives and segments agree up to case. */
  lemma WindowsHostMatchIgnoresCase(left: PurePath, right: PurePath)
    requires WellFormed(left) && WellFormed(right)
    requires forall s | s in left.segs :: '\\' !in s && ':' !in s
    requires forall s | s in right.segs :: '\\' !in s && ':' !in s
    ensures PathsMatch(true, Pure(left), Pure(right))
            <==> left.root == right.root && Lower(left.drive) == Lower(right.drive)
                 && LowerSegs(left.segs) == LowerSegs(right.segs)
  {
    FoldedAsPosix(left);
    FoldedAsPosix(right);
    var l := Render(Folded(left));
    var r := Render(Folded(right));
    if PathsMatch(true, Pure(left), Pure(right)) {
      assert ReplaceChar(l, '\\', '/') == ReplaceChar(r, '\\', '/');
      FoldedWellFormed(left);
      FoldedWellFormed(right);
      WindowsRenderNoSlash(Folded(left));
      WindowsRenderNoSlash(Folded(right));
      ReplaceBack(l);
      ReplaceBack(r);
      WindowsRoundTrip(Folded(left));
      WindowsRoundTrip(Folded(right));
      assert Folded(left) == Folded(right);
    }
  }

  lemma AncestorWellFormed(p: PurePath, k: nat)
    requires WellFormed(p) && k <= |p.segs|
    ensures WellFormed(Ancestor(p, k))
  {
    assert forall s | s in p.segs[..k] :: s in p.segs;
  }

  /** For POSIX paths `relative_to` is containment by whole segments: the
      other path has the same anchor and its segments are a prefix. */
  lemma RelativeToIsSegmentPrefix(target: PurePath, other: PurePath)
    requires WellFormed(target) && WellFormed(other)
    requires target.flavour == Posix && other.flavour == Posix
    ensures IsRelativeTo(target, other)
            <==> other.root == target.root && |other.segs| <= |target.segs|
                 && other.segs == target.segs[..|other.segs|]
  {
    if IsRelativeTo(target, other) {
      var k :| 0 <= k <= |target.segs| && PureEq(other, Ancestor(target, k));
      AncestorWellFormed(target, k);
      PosixRoundTrip(other);
      PosixRoundTrip(Ancestor(target, k));
      assert other == Ancestor(target, k);
    }
    if other.root == target.root && |other.segs| <= |target.segs| && other.segs == target.segs[..|other.segs|] {
      assert Ancestor(target, |other.segs|) == other;
      assert PureEq(other, Ancestor(target, |other.segs|));
    }
  }

  /** On a POSIX host one step of `path_is_within` is containment by whole
      segments: equal paths, or the candidate's segments a prefix of the
      target's under the same root.  A string prefix is not enough. */
  lemma AcceptsIsSegmentPrefix(target: PurePath, candidate: PurePath)
    requires WellFormed(target) && WellFormed(candidate)
    requires target.flavour == Posix && candidate.flavour == Posix
    ensures Accepts(false, target, candidate)
            <==> candidate.root == target.root && |candidate.segs| <= |target.segs|
                 && candidate.segs == target.segs[..|candidate.segs|]
  {
    RelativeToIsSegmentPrefix(target, candidate);
    if PureEq(target, candidate) {
      PosixRoundTrip(target);
      PosixRoundTrip(candidate);
      assert target.segs[..|candidate.segs|] == target.segs;
    }
  }

  /** `path_is_within` is reflexive. */
  lemma PathIsWithinReflexive(hostIsNt: bool, path: PathLike)
    ensures PathIsWithin(hostIsNt, path, [path])
  {
    assert Accepts(hostIsNt, Normalize(hostIsNt, path), Normalize(hostIsNt, [path][0]));
  }

  /** No candidates, nothing contains the path. */
  lemma PathIsWithinNothing(hostIsNt: bool, path: PathLike)
    ensures !PathIsWithin(hostIsNt, path, [])
  {
  }

  // ---------------------------------------------------------------------
  // combine_library_path
  // ---------------------------------------------------------------------

  /** A segment that parses, in flavour `f`, to itself alone. */
  predicate PlainIn(f: Flavour, s: string) {
    PlainSegment(s, '/') && (f == Windows ==> '\\' !in s && !(|s| >= 2 && s[1] == ':'))
  }

  lemma ParsePlain(f: Flavour, s: string)
    requires PlainIn(f, s)
    ensures Parse(f, s) == PurePath(f, "", false, [s])
  {
    ScanNoSep(s, Sep(f));
    if f == Windows {
      ReplaceAbsent(s, '/', '\\');
      assert s[0] != '\\' by { assert s[0] in s; }
      assert SplitRootWindows(s) == SplitRoot("", false, s);
    }
  }

  /** Joining plain parts appends them, in order, to the base. */
  lemma {:induction false} JoinPlainParts(base: PurePath, parts: seq<string>)
    requires forall s | s in parts :: PlainIn(base.flavour, s)
    ensures JoinParts(base, parts) == base.(segs := base.segs + parts)
    decreases |parts|
  {
    if parts != [] {
      ParsePlain(base.flavour, parts[0]);
      var next := JoinPath(base, Parse(base.flavour, parts[0]));
      assert next == base.(segs := base.segs + [parts[0]]);
      JoinPlainParts(next, parts[1..]);
      assert base.segs + [parts[0]] + parts[1..] == base.segs + parts;
    }
  }

  lemma PlainInBothFlavours(s: string)
    requires PlainIn(Windows, s)
    ensures PlainIn(Posix, s)
  {
  }

  /** A Windows path that is absolute, has a drive or a UNC anchor is kept
      as it is, the library root ignored: the three tests of the source
      together amount to "has a drive". */
  lemma CombineKeepsWindowsDrivePaths(hostIsNt: bool, libraryRoot: PathLike, filesystemPath: PathLike)
    requires Normalize(hostIsNt, filesystemPath).flavour == Windows
    ensures var c := Normalize(hostIsNt, filesystemPath);
            (IsAbsolute(c) || c.drive != "" || (|Anchor(c)| >= 2 && Anchor(c)[..2] == "\\\\")) <==> c.drive != ""
    ensures Normalize(hostIsNt, filesystemPath).drive != ""
            ==> CombineLibraryPath(hostIsNt, libraryRoot, filesystemPath) == Normalize(hostIsNt, filesystemPath)
  {
    var c := Normalize(hostIsNt, filesystemPath);
    assert c.drive == "" ==> Anchor(c) == RootString(c);
  }

  /** A drive-less Windows path has its separator parts dropped and its
      segments appended, in order, to the library root. */
  lemma CombineWindowsRelative(hostIsNt: bool, libraryRoot: PathLike, filesystemPath: PathLike)
    requires Normalize(hostIsNt, filesystemPath).flavour == Windows
    requires Normalize(hostIsNt, filesystemPath).drive == ""
    requires forall s | s in Normalize(hostIsNt, filesystemPath).segs ::
               PlainIn(Normalize(hostIsNt, libraryRoot).flavour, s) && '\\' !in s
    ensures var root := Normalize(hostIsNt, libraryRoot);
            CombineLibraryPath(hostIsNt, libraryRoot, filesystemPath)
            == root.(segs := root.segs + Normalize(hostIsNt, filesystemPath).segs)
  {
    var root := Normalize(hostIsNt, libraryRoot);
    var c := Normalize(hostIsNt, filesystemPath);
    WindowsSeparatorPartsDropped(c);
    JoinPlainParts(root, c.segs);
  }

  /** The parts of a drive-less Windows path, without the lone separator of
      its root, are its segments. */
  lemma WindowsSeparatorPartsDropped(c: PurePath)
    requires c.flavour == Windows && c.drive == ""
    requires forall s | s in c.segs :: '\\' !in s && '/' !in s
    ensures DropSeparatorParts(Parts(c)) == c.segs
  {
    assert Anchor(c) == RootString(c);
    forall s | s in c.segs ensures s != "\\" && s != "/" {
      assert '\\' !in s && '/' !in s;
    }
    DropPlain(c.segs);
    if c.root {
      assert Parts(c) == ["\\"] + c.segs;
      assert Parts(c)[1..] == c.segs;
    } else {
      assert Parts(c) == c.segs;
    }
  }

  /** A relative POSIX path has all its segments appended to the root. */
  lemma CombinePosixRelative(hostIsNt: bool, libraryRoot: PathLike, filesystemPath: PathLike)
    requires WellFormed(Normalize(hostIsNt, filesystemPath))
    requires Normalize(hostIsNt, filesystemPath).flavour == Posix
    requires !Normalize(hostIsNt, filesystemPath).root
    requires forall s | s in Normalize(hostIsNt, filesystemPath).segs :: PlainIn(Normalize(hostIsNt, libraryRoot).flavour, s)
    ensures var root := Normalize(hostIsNt, libraryRoot);
            CombineLibraryPath(hostIsNt, libraryRoot, filesystemPath)
            == root.(segs := root.segs + Normalize(hostIsNt, filesystemPath).segs)
  {
    var c := Normalize(hostIsNt, filesystemPath);
    assert Parts(c) == c.segs;
    JoinPlainParts(Normalize(hostIsNt, libraryRoot), c.segs);
  }

  /** An absolute POSIX path already under the root is kept; any other loses
      its leading "/" and has the rest appended to the root. */
  lemma CombinePosixAbsolute(hostIsNt: bool, libraryRoot: PathLike, filesystemPath: PathLike)
    requires WellFormed(Normalize(hostIsNt, filesystemPath))
    requires Normalize(hostIsNt, filesystemPath).flavour == Posix
    requires Normalize(hostIsNt, filesystemPath).root
    requires forall s | s in Normalize(hostIsNt, filesystemPath).segs :: PlainIn(Normalize(hostIsNt, libraryRoot).flavour, s)
    ensures var root := Normalize(hostIsNt, libraryRoot);
            var c := Normalize(hostIsNt, filesystemPath);
            CombineLibraryPath(hostIsNt, libraryRoot, filesystemPath)
            == if PathIsWithin(hostIsNt, Pure(c), [Pure(root)]) then c else root.(segs := root.segs + c.segs)
  {
    var c := Normalize(hostIsNt, filesystemPath);
    assert Anchor(c) == "/";
    assert Parts(c) == ["/"] + c.segs;
    assert Parts(c)[1..] == c.segs;
    JoinPlainParts(Normalize(hostIsNt, libraryRoot), c.segs);
  }

  lemma {:induction false} DropPlain(segs: seq<string>)
    requires forall s | s in segs :: s != "\\" && s != "/"
    ensures DropSeparatorParts(segs) == segs
    decreases |segs|
  {
    if segs != [] {
      assert segs[0] in segs;
      assert forall s | s in segs[1..] :: s in segs;
      DropPlain(segs[1..]);
      assert segs == [segs[0]] + segs[1..];
    }
  }
}

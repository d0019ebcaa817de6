/**
  The cases of `tests/test_platform_paths.py`, and containment and
  re-rooting examples, as lemmas.  Each case is first proved
  for all paths of its shape, then for the test's own path, written as the
  rendering of its segments (the comment gives the string).  Each holds on
  every host unless its name says otherwise.
*/
module PlatformPathsExamples {
  import opened Wrappers
  import opened PlatformPaths
  import opened PlatformPathsProps

  /** Every string parsed with POSIX rules is well formed. */
  lemma ParsedPosixWellFormed(raw: string)
    ensures WellFormed(ParsePosix(raw))
  {
  }

  /** Parsing `raw` with Windows rules gives `p` when turning its '/' into
      '\\' spells `p` out. */
  lemma ParsesAsWindows(raw: string, p: PurePath)
    requires WellFormed(p) && p.flavour == Windows
    requires ReplaceChar(raw, '/', '\\') == Render(p)
    ensures ParseWindows(raw) == p
  {
    WindowsRoundTrip(p);
    ReplaceAbsent(Render(p), '/', '\\');
    WindowsRenderNoSlash(p);
  }

  /** The Windows reading of a string written with '\\' only. */
  lemma BackslashedParsesAsWindows(raw: string, p: PurePath)
    requires WellFormed(p) && p.flavour == Windows
    requires '/' !in raw && Render(p) == raw
    ensures ParseWindows(raw) == p
  {
    ReplaceAbsent(raw, '/', '\\');
    ParsesAsWindows(raw, p);
  }

  /** The Windows reading of a drive-less path written with '/'. */
  lemma SlashedParsesAsWindows(raw: string, root: bool, segs: seq<string>)
    requires forall s | s in segs :: PlainIn(Windows, s)
    requires Render(PurePath(Posix, "", root, segs)) == raw
    requires root || segs == [] || !(|segs[0]| >= 2 && segs[0][1] == ':')
    ensures ParseWindows(raw) == PurePath(Windows, "", root, segs)
  {
    SwapSeparators(root, segs, Posix, Windows);
    ParsesAsWindows(raw, PurePath(Windows, "", root, segs));
  }

  /** The POSIX rendering of plain segments holds neither ':' nor '\\', and
      a relative one does not start with a drive. */
  lemma SlashedSpelling(root: bool, segs: seq<string>)
    requires forall s | s in segs :: PlainIn(Windows, s) && ':' !in s
    ensures var raw := Render(PurePath(Posix, "", root, segs));
            ':' !in raw && '\\' !in raw
  {
    NotInJoin(segs, '/', ':');
    NotInJoin(segs, '/', '\\');
  }

  /** A string written with '/' only, read on either host. */
  lemma SlashedParses(hostIsNt: bool, raw: string, root: bool, segs: seq<string>)
    requires forall s | s in segs :: PlainIn(Windows, s)
    requires Render(PurePath(Posix, "", root, segs)) == raw
    requires root || segs == [] || !(|segs[0]| >= 2 && segs[0][1] == ':')
    requires ':' !in raw && '\\' !in raw
    ensures Normalize(hostIsNt, Str(raw)) == PurePath(if hostIsNt then Windows else Posix, "", root, segs)
  {
    if hostIsNt {
      SlashedParsesAsWindows(raw, root, segs);
    } else {
      PosixRoundTrip(PurePath(Posix, "", root, segs));
    }
  }

  /** `as_posix` of a drive-less path does not depend on its flavour. */
  lemma AsPosixEitherFlavour(f: Flavour, root: bool, segs: seq<string>)
    requires forall s | s in segs :: PlainIn(Windows, s)
    ensures AsPosix(PurePath(f, "", root, segs)) == Render(PurePath(Posix, "", root, segs))
  {
    if f == Windows {
      SwapSeparators(root, segs, Windows, Posix);
    }
  }

  /** A path re-rooted into a drive-less library root of the host's own
      flavour shows, in `as_posix` form, the POSIX rendering of its segments. */
  lemma AsPosixOfRerooted(hostIsNt: bool, libraryRoot: string, filesystemPath: string, segs: seq<string>)
    requires forall s | s in segs :: PlainIn(Windows, s)
    requires CombineLibraryPath(hostIsNt, Str(libraryRoot), Str(filesystemPath))
             == PurePath(if hostIsNt then Windows else Posix, "", true, segs)
    ensures AsPosix(CombineLibraryPath(hostIsNt, Str(libraryRoot), Str(filesystemPath)))
            == Render(PurePath(Posix, "", true, segs))
  {
    AsPosixEitherFlavour(if hostIsNt then Windows else Posix, true, segs);
  }

  // ---------------------------------------------------------------------
  // combine_library_path
  // ---------------------------------------------------------------------

  /** A library root and a path, both written with '/' and plain segments:
      the path's segments land under the root, whether or not it starts
      with "/", unless a rooted path already lies inside the root. */
  lemma RerootSlashedPath(hostIsNt: bool, rootSegs: seq<string>, root: bool, segs: seq<string>)
    requires forall s | s in rootSegs :: PlainIn(Windows, s)
    requires forall s | s in segs :: PlainIn(Windows, s)
    requires forall s | s in rootSegs + segs :: ':' !in s
    requires root ==> !(|rootSegs| <= |segs| && segs[..|rootSegs|] == rootSegs)
    ensures var libraryRoot := Render(PurePath(Posix, "", true, rootSegs));
            var filesystemPath := Render(PurePath(Posix, "", root, segs));
            CombineLibraryPath(hostIsNt, Str(libraryRoot), Str(filesystemPath))
            == PurePath(if hostIsNt then Windows else Posix, "", true, rootSegs + segs)
  {
    var libraryRoot := Render(PurePath(Posix, "", true, rootSegs));
    var filesystemPath := Render(PurePath(Posix, "", root, segs));
    assert forall s | s in rootSegs :: s in rootSegs + segs;
    assert forall s | s in segs :: s in rootSegs + segs;
    SlashedSpelling(true, rootSegs);
    SlashedSpelling(root, segs);
    SlashedParses(hostIsNt, libraryRoot, true, rootSegs);
    SlashedParses(hostIsNt, filesystemPath, root, segs);
    if hostIsNt {
      CombineWindowsRelative(hostIsNt, Str(libraryRoot), Str(filesystemPath));
    } else if root {
      var c := PurePath(Posix, "", true, segs);
      var r := PurePath(Posix, "", true, rootSegs);
      AcceptsIsSegmentPrefix(c, r);
      assert !PathIsWithin(hostIsNt, Pure(c), [Pure(r)]) by {
        assert [Pure(r)][1..] == [];
      }
      CombinePosixAbsolute(hostIsNt, Str(libraryRoot), Str(filesystemPath));
    } else {
      CombinePosixRelative(hostIsNt, Str(libraryRoot), Str(filesystemPath));
    }
  }

  /** The same, as the `as_posix` string the tests compare. */
  lemma RerootSlashed(hostIsNt: bool, rootSegs: seq<string>, root: bool, segs: seq<string>)
    requires forall s | s in rootSegs :: PlainIn(Windows, s)
    requires forall s | s in segs :: PlainIn(Windows, s)
    requires forall s | s in rootSegs + segs :: ':' !in s
    requires root ==> !(|rootSegs| <= |segs| && segs[..|rootSegs|] == rootSegs)
    ensures var libraryRoot := Render(PurePath(Posix, "", true, rootSegs));
            var filesystemPath := Render(PurePath(Posix, "", root, segs));
            AsPosix(CombineLibraryPath(hostIsNt, Str(libraryRoot), Str(filesystemPath)))
            == Render(PurePath(Posix, "", true, rootSegs + segs))
  {
    RerootSlashedPath(hostIsNt, rootSegs, root, segs);
    forall s | s in rootSegs + segs ensures PlainIn(Windows, s) {
    }
    AsPosixOfRerooted(hostIsNt, Render(PurePath(Posix, "", true, rootSegs)),
                      Render(PurePath(Posix, "", root, segs)), rootSegs + segs);
  }

  /** A rooted, drive-less path written with '\\' is read as a Windows path
      on every host, and its segments land under a root written with '/'. */
  lemma RerootBackslashed(hostIsNt: bool, rootSegs: seq<string>, segs: seq<string>)
    requires forall s | s in rootSegs :: PlainIn(Windows, s) && ':' !in s
    requires forall s | s in segs :: PlainIn(Windows, s)
    ensures var libraryRoot := Render(PurePath(Posix, "", true, rootSegs));
            var filesystemPath := Render(PurePath(Windows, "", true, segs));
            AsPosix(CombineLibraryPath(hostIsNt, Str(libraryRoot), Str(filesystemPath)))
            == Render(PurePath(Posix, "", true, rootSegs + segs))
  {
    var libraryRoot := Render(PurePath(Posix, "", true, rootSegs));
    var w := PurePath(Windows, "", true, segs);
    SlashedSpelling(true, rootSegs);
    SlashedParses(hostIsNt, libraryRoot, true, rootSegs);
    assert WellFormed(w);
    WindowsRenderNoSlash(w);
    assert Render(w)[0] == '\\';
    BackslashedParsesAsWindows(Render(w), w);
    CombineWindowsRelative(hostIsNt, Str(libraryRoot), Str(Render(w)));
    forall s | s in rootSegs + segs ensures PlainIn(Windows, s) {
    }
    AsPosixOfRerooted(hostIsNt, libraryRoot, Render(w), rootSegs + segs);
  }

  /** On a POSIX host, an absolute '/'-separated path with a ':' in one of
      its segments is read as a drive-less Windows path, which pathlib does
      not call absolute. It is therefore joined under the library root even
      when it already lies within it, so the root appears twice. */
  lemma RerootColonPathWithinRoot(rootSegs: seq<string>, segs: seq<string>, colonSeg: string)
    requires forall s | s in rootSegs :: PlainIn(Windows, s) && ':' !in s
    requires forall s | s in segs :: PlainIn(Windows, s)
    requires colonSeg in segs && ':' in colonSeg
    ensures var libraryRoot := Render(PurePath(Posix, "", true, rootSegs));
            var filesystemPath := Render(PurePath(Posix, "", true, rootSegs + segs));
            CombineLibraryPath(false, Str(libraryRoot), Str(filesystemPath))
            == PurePath(Posix, "", true, rootSegs + (rootSegs + segs))
  {
    var libraryRoot := Render(PurePath(Posix, "", true, rootSegs));
    var all := rootSegs + segs;
    var filesystemPath := Render(PurePath(Posix, "", true, all));
    SlashedSpelling(true, rootSegs);
    SlashedParses(false, libraryRoot, true, rootSegs);
    forall s | s in all ensures PlainIn(Windows, s) {
    }
    assert colonSeg in all;
    InJoin(all, '/', colonSeg, ':');
    assert filesystemPath == "/" + Join(all, '/');
    assert ':' in filesystemPath;
    SlashedParsesAsWindows(filesystemPath, true, all);
    CombineWindowsRelative(false, Str(libraryRoot), Str(filesystemPath));
  }

  /** `/mnt/library/Tt: B/f` under the root `/mnt/library` becomes
      `/mnt/library/mnt/library/Tt: B/f` on a POSIX host. */
  lemma RerootColonPathExample()
    ensures CombineLibraryPath(false, Str(Render(PurePath(Posix, "", true, ["mnt", "library"]))),
                               Str(Render(PurePath(Posix, "", true, ["mnt", "library", "Tt: B", "f"]))))
            == PurePath(Posix, "", true, ["mnt", "library", "mnt", "library", "Tt: B", "f"])
  {
    MntLibraryColonSegments();
    RerootColonPathWithinRoot(["mnt", "library"], ["Tt: B", "f"], "Tt: B");
  }

  /** Proof step: the literal facts `RerootColonPathExample` needs. */
  lemma MntLibraryColonSegments()
    ensures ':' in "Tt: B"
    ensures ["mnt", "library"] + ["Tt: B", "f"] == ["mnt", "library", "Tt: B", "f"]
    ensures ["mnt", "library"] + (["mnt", "library"] + ["Tt: B", "f"])
            == ["mnt", "library", "mnt", "library", "Tt: B", "f"]
  {
    assert "Tt: B"[2] == ':';
  }

  /** A Windows path with a drive is kept as it is, whatever the root, and
      `as_os_path_string` gives back the string it was read from. */
  lemma KeepDrivePath(hostIsNt: bool, libraryRoot: PathLike, p: PurePath)
    requires WellFormed(p) && p.flavour == Windows && p.drive != ""
    ensures CombineLibraryPath(hostIsNt, libraryRoot, Str(Render(p))) == p
    ensures AsOsPathString(hostIsNt, Pure(CombineLibraryPath(hostIsNt, libraryRoot, Str(Render(p))))) == Render(p)
  {
    assert Render(p)[1] == ':';
    NativeStringRoundTrip(hostIsNt, p);
    CombineKeepsWindowsDrivePaths(hostIsNt, libraryRoot, Str(Render(p)));
  }

  /** Proof step: the segment concatenation of the first test case. */
  lemma MntLibraryMoviesTestSegments()
    ensures ["mnt", "library"] + ["movies", "Test"] == ["mnt", "library", "movies", "Test"]
  {
  }

  /** Proof step: the segment concatenation of the second and third test cases. */
  lemma MntLibraryShowsTestSegments()
    ensures ["mnt", "library"] + ["shows", "Test"] == ["mnt", "library", "shows", "Test"]
  {
  }

  /** test_combine_library_path_posix_relative: "movies/Test" under
      "/mnt/library" is "/mnt/library/movies/Test". */
  lemma CombinePosixRelativeExample(hostIsNt: bool)
    ensures AsPosix(CombineLibraryPath(hostIsNt, Str(Render(PurePath(Posix, "", true, ["mnt", "library"]))),
                                       Str(Render(PurePath(Posix, "", false, ["movies", "Test"])))))
            == Render(PurePath(Posix, "", true, ["mnt", "library", "movies", "Test"]))
  {
    RerootSlashed(hostIsNt, ["mnt", "library"], false, ["movies", "Test"]);
    MntLibraryMoviesTestSegments();
  }

  /** test_combine_library_path_posix_leading_slash: "/shows/Test" loses
      its leading "/" and becomes "/mnt/library/shows/Test". */
  lemma CombinePosixLeadingSlashExample(hostIsNt: bool)
    ensures AsPosix(CombineLibraryPath(hostIsNt, Str(Render(PurePath(Posix, "", true, ["mnt", "library"]))),
                                       Str(Render(PurePath(Posix, "", true, ["shows", "Test"])))))
            == Render(PurePath(Posix, "", true, ["mnt", "library", "shows", "Test"]))
  {
    assert ["shows", "Test"][..2] != ["mnt", "library"] by {
      assert ["shows", "Test"][..2][0] == "shows";
    }
    RerootSlashed(hostIsNt, ["mnt", "library"], true, ["shows", "Test"]);
    MntLibraryShowsTestSegments();
  }

  /** test_combine_library_path_windows_relative_on_posix: "\\shows\\Test"
      also becomes "/mnt/library/shows/Test", on a POSIX host as on any. */
  lemma CombineWindowsRelativeExample(hostIsNt: bool)
    ensures AsPosix(CombineLibraryPath(hostIsNt, Str(Render(PurePath(Posix, "", true, ["mnt", "library"]))),
                                       Str(Render(PurePath(Windows, "", true, ["shows", "Test"])))))
            == Render(PurePath(Posix, "", true, ["mnt", "library", "shows", "Test"]))
  {
    RerootBackslashed(hostIsNt, ["mnt", "library"], ["shows", "Test"]);
    MntLibraryShowsTestSegments();
  }

  /** test_combine_library_path_windows_absolute: "C:\\Riven\\Library\\movies"
      under "C:\\Riven\\Library" is kept, and prints as the same string. */
  lemma CombineWindowsAbsoluteExample(hostIsNt: bool)
    ensures var candidate := Render(PurePath(Windows, "C:", true, ["Riven", "Library", "movies"]));
            AsOsPathString(hostIsNt, Pure(CombineLibraryPath(hostIsNt,
              Str(Render(PurePath(Windows, "C:", true, ["Riven", "Library"]))), Str(candidate))))
            == candidate
  {
    KeepDrivePath(hostIsNt, Str(Render(PurePath(Windows, "C:", true, ["Riven", "Library"]))),
                  PurePath(Windows, "C:", true, ["Riven", "Library", "movies"]));
  }

  // ---------------------------------------------------------------------
  // as_os_path_string
  // ---------------------------------------------------------------------

  /** test_as_os_path_string_windows_conversion: "C:\\Riven\\Library\\movies"
      read and printed again is itself. */
  lemma AsOsPathStringWindowsExample(hostIsNt: bool)
    ensures var path := Render(PurePath(Windows, "C:", true, ["Riven", "Library", "movies"]));
            AsOsPathString(hostIsNt, Pure(Normalize(hostIsNt, Str(path)))) == path
  {
    var p := PurePath(Windows, "C:", true, ["Riven", "Library", "movies"]);
    assert Render(p)[1] == ':';
    NativeStringRoundTrip(hostIsNt, p);
  }

  /** A string written with '/' and no ':' or '\\' reads, on a POSIX
      host, as a POSIX path that prints as the same string. */
  lemma SlashedStringRoundTrip(root: bool, segs: seq<string>)
    requires forall s | s in segs :: PlainIn(Windows, s) && ':' !in s
    ensures var path := Render(PurePath(Posix, "", root, segs));
            AsOsPathString(false, Pure(Normalize(false, Str(path)))) == path
  {
    SlashedSpelling(root, segs);
    PosixRoundTrip(PurePath(Posix, "", root, segs));
  }

  /** test_as_os_path_string_posix_conversion: on a POSIX host
      "/mnt/library/shows" read and printed again is itself. */
  lemma AsOsPathStringPosixExample()
    ensures var path := Render(PurePath(Posix, "", true, ["mnt", "library", "shows"]));
            AsOsPathString(false, Pure(Normalize(false, Str(path)))) == path
  {
    SlashedStringRoundTrip(true, ["mnt", "library", "shows"]);
  }

  // ---------------------------------------------------------------------
  // Re-rooting the bare root marker, and segment containment
  // ---------------------------------------------------------------------

  /** "/" alone combines to the library root itself. */
  lemma CombineRootMarker(hostIsNt: bool, libraryRoot: string)
    ensures CombineLibraryPath(hostIsNt, Str(libraryRoot), Str("/")) == Normalize(hostIsNt, Str(libraryRoot))
  {
    var root := Normalize(hostIsNt, Str(libraryRoot));
    assert Render(PurePath(Posix, "", true, [])) == "/";
    SlashedParses(hostIsNt, "/", true, []);
    var c := Normalize(hostIsNt, Str("/"));
    assert root.(segs := root.segs + c.segs) == root;
    if hostIsNt {
      CombineWindowsRelative(hostIsNt, Str(libraryRoot), Str("/"));
    } else {
      CombinePosixAbsolute(hostIsNt, Str(libraryRoot), Str("/"));
      if PathIsWithin(hostIsNt, Pure(c), [Pure(root)]) {
        // Only the root "/" itself contains "/": then both are the same path.
        assert Accepts(hostIsNt, c, root);
        assert Ancestor(c, 0) == c;
        assert PureEq(root, c);
        if root.flavour == Posix {
          assert root == ParsePosix(libraryRoot);
          ParsedPosixWellFormed(libraryRoot);
          PosixRoundTrip(root);
          PosixRoundTrip(c);
        }
      }
    }
  }

  /** On a POSIX host "/a/b/c" lies within "/a/b"; "/a/bx" does not, though
      the string "/a/b" is a prefix of the string "/a/bx". */
  lemma PathIsWithinExamples()
    ensures PathIsWithin(false, Pure(PurePath(Posix, "", true, ["a", "b", "c"])),
                         [Pure(PurePath(Posix, "", true, ["a", "b"]))])
    ensures !PathIsWithin(false, Pure(PurePath(Posix, "", true, ["a", "bx"])),
                          [Pure(PurePath(Posix, "", true, ["a", "b"]))])
  {
    var ab := PurePath(Posix, "", true, ["a", "b"]);
    var abc := PurePath(Posix, "", true, ["a", "b", "c"]);
    var abx := PurePath(Posix, "", true, ["a", "bx"]);
    AcceptsIsSegmentPrefix(abc, ab);
    assert abc.segs[..2] == ["a", "b"];
    assert Accepts(false, abc, ab);
    AcceptsIsSegmentPrefix(abx, ab);
    assert abx.segs[..2] != ab.segs by {
      assert abx.segs[..2][1] == "bx";
    }
    assert !Accepts(false, abx, ab);
  }
}

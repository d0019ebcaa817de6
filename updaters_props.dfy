/**
  What the refresh coordinator promises: which sub-items a media item
  expands to, which directory each one refreshes, that a directory equal
  to the one refreshed just before is not refreshed again, and that every
  initialized backend is asked, whatever the others answer.
*/
module UpdatersProps {
  import opened Wrappers
  import opened PlatformPaths
  import opened PlatformPathsProps
  import opened PlatformPathsExamples
  import opened Updaters

  // ---------------------------------------------------------------------
  // validate and the backend registry
  // ---------------------------------------------------------------------

  /** `refresh_path` calls somebody exactly when `validate` holds: one call
      per initialized service. */
  lemma {:induction false} FanOutCountsInitialized(services: seq<Backend>, path: string)
    ensures |FanOut(services, path)| == |InitializedServices(services)|
    ensures FanOut(services, path) != [] <==> Validate(services)
    decreases |services|
  {
    if services != [] {
      var front := services[..|services| - 1];
      var b := services[|services| - 1];
      SplitLast(services);
      FanOutCountsInitialized(front, path);
      FanOutAppend(front, b, path);
      InitializedServicesSplit(front, b);
      assert |FanOut(services, path)| == |FanOut(front, path)| + if b.initialized then 1 else 0;
      if InitializedServices(services) != [] {
        assert InitializedServices(services)[0] in InitializedServices(services);
      }
    }
  }

  /** Proof step: a non-empty sequence is its front followed by its last element. */
  lemma SplitLast<T>(s: seq<T>)
    requires s != []
    ensures s[..|s| - 1] + [s[|s| - 1]] == s
  {
  }

  lemma {:induction false} InitializedServicesSplit(front: seq<Backend>, b: Backend)
    ensures InitializedServices(front + [b])
            == InitializedServices(front) + if b.initialized then [b] else []
    decreases |front|
  {
    if front == [] {
      assert [] + [b] == [b];
      assert [b][1..] == [];
    } else {
      var head := if front[0].initialized then [front[0]] else [];
      var tail := if b.initialized then [b] else [];
      assert (front + [b])[0] == front[0] && (front + [b])[1..] == front[1..] + [b];
      assert InitializedServices(front + [b]) == head + InitializedServices(front[1..] + [b]);
      InitializedServicesSplit(front[1..], b);
      AppendAssociative(head, InitializedServices(front[1..]), tail);
    }
  }

  /** Appending one backend appends at most its own call. */
  lemma FanOutAppend(front: seq<Backend>, b: Backend, path: string)
    ensures FanOut(front + [b], path)
            == FanOut(front, path) + if b.initialized then [Invocation(|front|, path)] else []
  {
    assert (front + [b])[..|front|] == front;
  }

  /** Two initialized backends are both called, first to last. */
  lemma FanOutPair(first: Backend, second: Backend, path: string)
    requires first.initialized && second.initialized
    ensures FanOut([first, second], path) == [Invocation(0, path), Invocation(1, path)]
  {
    FanOutAppend([], first, path);
    assert [] + [first] == [first];
    FanOutAppend([first], second, path);
    assert [first] + [second] == [first, second];
  }

  /** A backend that raises, or returns false, does not stop the next one:
      with a raising backend before a succeeding one and an uninitialized
      one after it, both initialized backends are called, in order, and the
      refresh succeeds. */
  lemma PartialFailureExample(failing: Backend, succeeding: Backend, absent: Backend, path: string)
    requires failing == Backend(true, Raises) && succeeding == Backend(true, ReturnsTrue)
    requires absent == Backend(false, ReturnsTrue)
    ensures FanOut([failing, succeeding, absent], path) == [Invocation(0, path), Invocation(1, path)]
    ensures AnySucceeded([failing, succeeding, absent])
  {
    FanOutPair(failing, succeeding, path);
    FanOutAppend([failing, succeeding], absent, path);
    assert [failing, succeeding] + [absent] == [failing, succeeding, absent];
    assert [failing, succeeding, absent][1] == succeeding;
  }

  /** With no backend returning true, `refresh_path` reports failure, though
      it still called every initialized backend. */
  lemma NoSuccessWithoutTrue(services: seq<Backend>, path: string)
    requires forall i | 0 <= i < |services| :: services[i].outcome != ReturnsTrue
    ensures !AnySucceeded(services)
    ensures forall i | 0 <= i < |services| && services[i].initialized :: Invocation(i, path) in FanOut(services, path)
  {
  }

  /** Over a whole run, only initialized backends are called, and only
      for the strings handed to `refresh_path`. */
  lemma {:induction false} FanOutAllInitializedOnly(services: seq<Backend>, paths: seq<string>)
    ensures forall v | v in FanOutAll(services, paths) :: v.backend < |services| && services[v.backend].initialized
    decreases |paths|
  {
    if paths != [] {
      var n := |paths| - 1;
      FanOutAllInitializedOnly(services, paths[..n]);
      var r := FanOut(services, paths[n]);
      forall v | v in r ensures v.backend < |services| && services[v.backend].initialized {
        var k :| 0 <= k < |r| && r[k] == v;
      }
    }
  }

  // ---------------------------------------------------------------------
  // get_items_to_update
  // ---------------------------------------------------------------------

  /** Proof step for the expansion lemmas below: an item is not among its
      own grandchildren, so a show is never one of its own episodes. */
  lemma NotOwnGrandchild(item: MediaItem, season: MediaItem)
    requires season in item.children
    ensures item !in season.children
  {
  }

  /** A season's available episodes keep the episodes' order: filtering a
      concatenation is concatenating the filtered halves. */
  lemma {:induction false} AvailableEpisodesAppend(a: seq<MediaItem>, b: seq<MediaItem>)
    ensures AvailableEpisodes(a + b) == AvailableEpisodes(a) + AvailableEpisodes(b)
    decreases |b|
  {
    if b == [] {
      assert a + b == a;
    } else {
      var front := b[..|b| - 1];
      var e := b[|b| - 1];
      AvailableEpisodesAppend(a, front);
      AvailableEpisodesLast(a + front, e);
      AvailableEpisodesLast(front, e);
      SplitLast(b);
      AppendAssociative(a, front, [e]);
      AppendAssociative(AvailableEpisodes(a), AvailableEpisodes(front),
                        if e.availableInVfs then [e] else []);
    }
  }

  /** Proof step: one more episode is kept at the end when it is available. */
  lemma AvailableEpisodesLast(episodes: seq<MediaItem>, e: MediaItem)
    ensures AvailableEpisodes(episodes + [e])
            == AvailableEpisodes(episodes) + if e.availableInVfs then [e] else []
  {
    assert (episodes + [e])[..|episodes|] == episodes;
  }

  /** A show's episodes come season by season: collecting over a
      concatenation of seasons is concatenating the two collections. */
  lemma {:induction false} ShowEpisodesAppend(a: seq<MediaItem>, b: seq<MediaItem>)
    ensures ShowEpisodes(a + b) == ShowEpisodes(a) + ShowEpisodes(b)
    decreases |b|
  {
    if b == [] {
      assert a + b == a;
    } else {
      var front := b[..|b| - 1];
      var tail := AvailableEpisodes(b[|b| - 1].children);
      ShowEpisodesAppend(a, front);
      ShowEpisodesLast(a + front, b[|b| - 1]);
      ShowEpisodesLast(front, b[|b| - 1]);
      SplitLast(b);
      AppendAssociative(a, front, [b[|b| - 1]]);
      AppendAssociative(ShowEpisodes(a), ShowEpisodes(front), tail);
    }
  }

  /** Proof step: one more season adds its available episodes at the end. */
  lemma ShowEpisodesLast(seasons: seq<MediaItem>, season: MediaItem)
    ensures ShowEpisodes(seasons + [season]) == ShowEpisodes(seasons) + AvailableEpisodes(season.children)
  {
    assert (seasons + [season])[..|seasons|] == seasons;
  }

  /** For a show, `get_items_to_update` falls back to the show itself
      exactly when no season has an episode available in the virtual
      filesystem; otherwise it gives just the available episodes. */
  lemma ShowFallback(item: MediaItem)
    requires item.kind == Show
    ensures ItemsToUpdate(item) == [item]
            <==> forall s, e | s in item.children && e in s.children :: !e.availableInVfs
    ensures forall e :: (e in ItemsToUpdate(item) && e != item)
                        <==> exists s | s in item.children :: e in s.children && e.availableInVfs
  {
    var collected := ShowEpisodes(item.children);
    if collected != [] {
      assert collected[0] in collected;
      var s :| s in item.children && collected[0] in s.children && collected[0].availableInVfs;
      NotOwnGrandchild(item, s);
    }
    forall e | e in ItemsToUpdate(item) && e != item
      ensures exists s | s in item.children :: e in s.children && e.availableInVfs
    {
    }
    forall e | exists s | s in item.children :: e in s.children && e.availableInVfs
      ensures e in ItemsToUpdate(item) && e != item
    {
      var s :| s in item.children && e in s.children && e.availableInVfs;
      NotOwnGrandchild(item, s);
    }
  }

  /** The other item types: a movie or an episode refreshes itself; a
      season its available episodes, with no fallback, so an empty list
      when none is available; any other item nothing. */
  lemma OtherItemsToUpdate(item: MediaItem)
    ensures item.kind == Movie || item.kind == Episode ==> ItemsToUpdate(item) == [item]
    ensures item.kind == Season ==>
              (forall e :: e in ItemsToUpdate(item) <==> e in item.children && e.availableInVfs)
              && (ItemsToUpdate(item) == [] <==> forall e | e in item.children :: !e.availableInVfs)
    ensures item.kind == OtherType ==> ItemsToUpdate(item) == []
  {
    if item.kind == Season && ItemsToUpdate(item) != [] {
      assert ItemsToUpdate(item)[0] in ItemsToUpdate(item);
    }
  }

  // ---------------------------------------------------------------------
  // _derive_refresh_path
  // ---------------------------------------------------------------------

  /** Once the combined path is known, the derived directory is the
      ancestor `Depth(kind)` levels up. */
  lemma DeriveFromCombined(hostIsNt: bool, libraryPath: PathLike, filesystemPath: string, kind: ItemType,
                           combined: PurePath, expected: PurePath)
    requires filesystemPath != ""
    requires CombineLibraryPath(hostIsNt, libraryPath, Str(filesystemPath)) == combined
    requires Depth(kind) <= |combined.segs|
    requires expected == Ancestor(combined, |combined.segs| - Depth(kind))
    ensures DeriveRefreshPath(hostIsNt, libraryPath, filesystemPath, kind) == Some(expected)
  {
  }

  /** A path under the library root, written with forward slashes, is
      refreshed `Depth(kind)` levels above its own segments. */
  lemma DeriveRerooted(hostIsNt: bool, rootSegs: seq<string>, rooted: bool, segs: seq<string>, kind: ItemType)
    requires forall s | s in rootSegs + segs :: PlainIn(Windows, s) && ':' !in s
    requires rooted ==> !(|rootSegs| <= |segs| && segs[..|rootSegs|] == rootSegs)
    requires Depth(kind) <= |segs|
    ensures DeriveRefreshPath(hostIsNt, Str(Render(PurePath(Posix, "", true, rootSegs))),
                              Render(PurePath(Posix, "", rooted, segs)), kind)
            == Some(PurePath(if hostIsNt then Windows else Posix, "", true, rootSegs + segs[..|segs| - Depth(kind)]))
  {
    var combined := PurePath(if hostIsNt then Windows else Posix, "", true, rootSegs + segs);
    assert forall s | s in rootSegs :: s in rootSegs + segs;
    assert forall s | s in segs :: s in rootSegs + segs;
    RerootSlashedPath(hostIsNt, rootSegs, rooted, segs);
    assert combined.segs[..|combined.segs| - Depth(kind)] == rootSegs + segs[..|segs| - Depth(kind)];
    DeriveFromCombined(hostIsNt, Str(Render(PurePath(Posix, "", true, rootSegs))),
                       Render(PurePath(Posix, "", rooted, segs)), kind, combined,
                       PurePath(combined.flavour, "", true, rootSegs + segs[..|segs| - Depth(kind)]));
  }

  /** A movie file `<root>/<folder>/<file>` is refreshed at
      `<root>/<folder>`, and `<folder>/<file>` relative to the root too. */
  lemma DeriveMovieFolder(hostIsNt: bool, rootSegs: seq<string>, rooted: bool, folder: string, file: string)
    requires forall s | s in rootSegs + [folder, file] :: PlainIn(Windows, s) && ':' !in s
    requires rooted ==> !(|rootSegs| <= 2 && [folder, file][..|rootSegs|] == rootSegs)
    ensures DeriveRefreshPath(hostIsNt, Str(Render(PurePath(Posix, "", true, rootSegs))),
                              Render(PurePath(Posix, "", rooted, [folder, file])), Movie)
            == Some(PurePath(if hostIsNt then Windows else Posix, "", true, rootSegs + [folder]))
  {
    DeriveRerooted(hostIsNt, rootSegs, rooted, [folder, file], Movie);
    assert [folder, file][..1] == [folder];
  }

  /** An episode file `<root>/<show>/<season>/<file>` is refreshed at the
      show folder `<root>/<show>`. */
  lemma DeriveEpisodeShowFolder(hostIsNt: bool, rootSegs: seq<string>, show: string, season: string, file: string)
    requires forall s | s in rootSegs + [show, season, file] :: PlainIn(Windows, s) && ':' !in s
    ensures DeriveRefreshPath(hostIsNt, Str(Render(PurePath(Posix, "", true, rootSegs))),
                              Render(PurePath(Posix, "", false, [show, season, file])), Episode)
            == Some(PurePath(if hostIsNt then Windows else Posix, "", true, rootSegs + [show]))
  {
    DeriveRerooted(hostIsNt, rootSegs, false, [show, season, file], Episode);
    assert [show, season, file][..1] == [show];
  }

  /** A derived directory never lies deeper than the combined path, and
      keeps its anchor: it is one of the combined path's ancestors. */
  lemma DeriveIsAncestor(hostIsNt: bool, libraryPath: PathLike, filesystemPath: string, kind: ItemType)
    requires filesystemPath != ""
    ensures var absolute := CombineLibraryPath(hostIsNt, libraryPath, Str(filesystemPath));
            var r := DeriveRefreshPath(hostIsNt, libraryPath, filesystemPath, kind);
            r.Some? && IsRelativeTo(absolute, r.value)
  {
    var absolute := CombineLibraryPath(hostIsNt, libraryPath, Str(filesystemPath));
    var r := DeriveRefreshPath(hostIsNt, libraryPath, filesystemPath, kind);
    var keep := if |absolute.segs| >= Depth(kind) then |absolute.segs| - Depth(kind) else 0;
    PureEqIsEquivalence(Ancestor(absolute, keep), Ancestor(absolute, keep), Ancestor(absolute, keep));
  }

  // ---------------------------------------------------------------------
  // Marking and deduplication in run
  // ---------------------------------------------------------------------

  /** `run` marks exactly the sub-items that have a directory to refresh. */
  lemma {:induction false} MarkedItemsMembers(hostIsNt: bool, libraryPath: PathLike, items: seq<MediaItem>)
    ensures forall x :: x in MarkedItems(hostIsNt, libraryPath, items)
                        <==> x in items && RefreshTarget(hostIsNt, libraryPath, x).Some?
    decreases |items|
  {
    if items != [] {
      MarkedItemsMembers(hostIsNt, libraryPath, items[1..]);
      assert forall x | x in items :: x == items[0] || x in items[1..];
    }
  }

  /** `run` hands `refresh_path` the OS string of each refreshed directory. */
  lemma {:induction false} RequestStringsAt(hostIsNt: bool, targets: seq<PurePath>, i: nat)
    requires i < |targets|
    ensures RequestStrings(hostIsNt, targets)[i] == AsOsPathString(hostIsNt, Pure(targets[i]))
    decreases |targets|
  {
    if i < |targets| - 1 {
      RequestStringsAt(hostIsNt, targets[..|targets| - 1], i);
    }
  }

  /** No directory is refreshed twice in a row: each refreshed directory
      differs from the one refreshed before it (and from `last`). */
  lemma {:induction false} NoConsecutiveRepeats(hostIsNt: bool, libraryPath: PathLike, items: seq<MediaItem>,
                                               last: Option<PurePath>)
    ensures var r := RefreshTargets(hostIsNt, libraryPath, items, last);
            && (last.Some? && r != [] ==> !PureEq(r[0], last.value))
            && forall k | 0 <= k < |r| - 1 :: !PureEq(r[k + 1], r[k])
    decreases |items|
  {
    if items != [] {
      var target := RefreshTarget(hostIsNt, libraryPath, items[0]);
      if target.Some? && (last.None? || !PureEq(target.value, last.value)) {
        NoConsecutiveRepeats(hostIsNt, libraryPath, items[1..], target);
        var rest := RefreshTargets(hostIsNt, libraryPath, items[1..], target);
        var r := [target.value] + rest;
        assert RefreshTargets(hostIsNt, libraryPath, items, last) == r;
        forall k | 0 <= k < |r| - 1 ensures !PureEq(r[k + 1], r[k]) {
          if k > 0 {
            assert r[k + 1] == rest[k] && r[k] == rest[k - 1];
          } else {
            assert r[1] == rest[0] && r[0] == target.value;
          }
        }
        assert r[0] == target.value;
      } else {
        NoConsecutiveRepeats(hostIsNt, libraryPath, items[1..], last);
        assert RefreshTargets(hostIsNt, libraryPath, items, last)
               == RefreshTargets(hostIsNt, libraryPath, items[1..], last);
      }
    }
  }

  /** One step of `RefreshTargets` on a list given as its head and tail. */
  lemma RefreshTargetsCons(hostIsNt: bool, libraryPath: PathLike, x: MediaItem, rest: seq<MediaItem>,
                           last: Option<PurePath>, target: Option<PurePath>)
    requires target == RefreshTarget(hostIsNt, libraryPath, x)
    ensures RefreshTargets(hostIsNt, libraryPath, [x] + rest, last)
            == if target.None? then RefreshTargets(hostIsNt, libraryPath, rest, last)
               else if last.None? || !PureEq(target.value, last.value)
               then [target.value] + RefreshTargets(hostIsNt, libraryPath, rest, target)
               else RefreshTargets(hostIsNt, libraryPath, rest, last)
  {
    RefreshTargetsStep(hostIsNt, libraryPath, [x] + rest, 0, last, target);
    assert ([x] + rest)[0..] == [x] + rest && ([x] + rest)[1..] == rest;
  }

  /** Two adjacent sub-items with equal directories refresh once: dropping
      the second changes nothing. */
  lemma AdjacentDuplicateRefreshedOnce(hostIsNt: bool, libraryPath: PathLike, x: MediaItem, y: MediaItem,
                                       rest: seq<MediaItem>, last: Option<PurePath>)
    requires RefreshTarget(hostIsNt, libraryPath, x).Some? && RefreshTarget(hostIsNt, libraryPath, y).Some?
    requires PureEq(RefreshTarget(hostIsNt, libraryPath, y).value, RefreshTarget(hostIsNt, libraryPath, x).value)
    ensures RefreshTargets(hostIsNt, libraryPath, [x, y] + rest, last)
            == RefreshTargets(hostIsNt, libraryPath, [x] + rest, last)
  {
    var t := RefreshTarget(hostIsNt, libraryPath, x);
    var u := RefreshTarget(hostIsNt, libraryPath, y);
    assert [x, y] + rest == [x] + ([y] + rest);
    RefreshTargetsCons(hostIsNt, libraryPath, x, [y] + rest, last, t);
    RefreshTargetsCons(hostIsNt, libraryPath, x, rest, last, t);
    if last.None? || !PureEq(t.value, last.value) {
      RefreshTargetsCons(hostIsNt, libraryPath, y, rest, t, u);
    } else {
      PureEqIsEquivalence(u.value, t.value, last.value);
      RefreshTargetsCons(hostIsNt, libraryPath, y, rest, last, u);
    }
  }

  /** Two adjacent sub-items with equal directories refresh once wherever
      they stand in the run: dropping the second changes nothing. */
  lemma {:induction false} AdjacentDuplicateRefreshedOnceAnywhere(
      hostIsNt: bool, libraryPath: PathLike, before: seq<MediaItem>, x: MediaItem, y: MediaItem,
      after: seq<MediaItem>, last: Option<PurePath>)
    requires RefreshTarget(hostIsNt, libraryPath, x).Some? && RefreshTarget(hostIsNt, libraryPath, y).Some?
    requires PureEq(RefreshTarget(hostIsNt, libraryPath, y).value, RefreshTarget(hostIsNt, libraryPath, x).value)
    ensures RefreshTargets(hostIsNt, libraryPath, before + [x, y] + after, last)
            == RefreshTargets(hostIsNt, libraryPath, before + [x] + after, last)
    decreases |before|
  {
    if before == [] {
      HeadOff(before, [x, y], after);
      HeadOff(before, [x], after);
      AdjacentDuplicateRefreshedOnce(hostIsNt, libraryPath, x, y, after, last);
    } else {
      var target := RefreshTarget(hostIsNt, libraryPath, before[0]);
      var next := if target.Some? && (last.None? || !PureEq(target.value, last.value)) then target else last;
      HeadOff(before, [x, y], after);
      HeadOff(before, [x], after);
      RefreshTargetsCons(hostIsNt, libraryPath, before[0], before[1..] + [x, y] + after, last, target);
      RefreshTargetsCons(hostIsNt, libraryPath, before[0], before[1..] + [x] + after, last, target);
      AdjacentDuplicateRefreshedOnceAnywhere(hostIsNt, libraryPath, before[1..], x, y, after, next);
    }
  }

  /** Proof step: a list built as `before + middle + after`, taken apart
      at its head. */
  lemma HeadOff<T>(before: seq<T>, middle: seq<T>, after: seq<T>)
    ensures before == [] ==> before + middle + after == middle + after
    ensures before != [] ==> before + middle + after == [before[0]] + (before[1..] + middle + after)
  {
    if before != [] {
      assert before == [before[0]] + before[1..];
    }
  }

  /** A directory refreshed again after a different one in between is
      refreshed again: deduplication only looks one refresh back. */
  lemma NonAdjacentRepeatRefreshedAgain(hostIsNt: bool, libraryPath: PathLike, x: MediaItem, z: MediaItem)
    requires RefreshTarget(hostIsNt, libraryPath, x).Some? && RefreshTarget(hostIsNt, libraryPath, z).Some?
    requires !PureEq(RefreshTarget(hostIsNt, libraryPath, z).value, RefreshTarget(hostIsNt, libraryPath, x).value)
    ensures var t := RefreshTarget(hostIsNt, libraryPath, x).value;
            var u := RefreshTarget(hostIsNt, libraryPath, z).value;
            RefreshTargets(hostIsNt, libraryPath, [x, z, x], None) == [t, u, t]
  {
    var t := RefreshTarget(hostIsNt, libraryPath, x);
    var u := RefreshTarget(hostIsNt, libraryPath, z);
    PureEqIsEquivalence(t.value, u.value, t.value);
    ThreeItems(x, z);
    var third := RefreshTargets(hostIsNt, libraryPath, [x], u);
    assert third == [t.value] by {
      RefreshTargetsCons(hostIsNt, libraryPath, x, [], u, t);
    }
    var second := RefreshTargets(hostIsNt, libraryPath, [z, x], t);
    assert second == [u.value] + third by {
      RefreshTargetsCons(hostIsNt, libraryPath, z, [x], t, u);
    }
    RefreshTargetsCons(hostIsNt, libraryPath, x, [z, x], None, t);
  }

  /** Proof step: the list `[x, z, x]` taken apart head by head. */
  lemma ThreeItems<T>(x: T, z: T)
    ensures [x, z, x] == [x] + [z, x] && [z, x] == [z] + [x] && [x] == [x] + []
  {
  }

  /** A skipped sub-item (no path, or no directory) does not reset the
      last refreshed directory: removing it changes nothing. */
  lemma {:induction false} SkippedItemIgnored(hostIsNt: bool, libraryPath: PathLike, before: seq<MediaItem>,
                                              x: MediaItem, after: seq<MediaItem>, last: Option<PurePath>)
    requires RefreshTarget(hostIsNt, libraryPath, x).None?
    ensures RefreshTargets(hostIsNt, libraryPath, before + [x] + after, last)
            == RefreshTargets(hostIsNt, libraryPath, before + after, last)
    decreases |before|
  {
    if before == [] {
      assert before + [x] + after == [x] + after && before + after == after;
      assert ([x] + after)[0] == x && ([x] + after)[1..] == after;
    } else {
      assert (before + [x] + after)[0] == before[0] && (before + [x] + after)[1..] == before[1..] + [x] + after;
      assert (before + after)[0] == before[0] && (before + after)[1..] == before[1..] + after;
      var target := RefreshTarget(hostIsNt, libraryPath, before[0]);
      if target.Some? && (last.None? || !PureEq(target.value, last.value)) {
        SkippedItemIgnored(hostIsNt, libraryPath, before[1..], x, after, target);
      } else {
        SkippedItemIgnored(hostIsNt, libraryPath, before[1..], x, after, last);
      }
    }
  }

  /** Refreshes never outnumber marked sub-items. */
  lemma {:induction false} RefreshedAtMostMarked(hostIsNt: bool, libraryPath: PathLike, items: seq<MediaItem>,
                                                 last: Option<PurePath>)
    ensures |RefreshTargets(hostIsNt, libraryPath, items, last)| <= |MarkedItems(hostIsNt, libraryPath, items)|
    decreases |items|
  {
    if items != [] {
      var target := RefreshTarget(hostIsNt, libraryPath, items[0]);
      var next := if target.Some? && (last.None? || !PureEq(target.value, last.value)) then target else last;
      RefreshedAtMostMarked(hostIsNt, libraryPath, items[1..], next);
      var r := RefreshTargets(hostIsNt, libraryPath, items, last);
      var rest := RefreshTargets(hostIsNt, libraryPath, items[1..], next);
      assert |r| <= |rest| + 1;
      if target.None? {
        assert r == rest;
      }
    }
  }

  /** Each refreshed directory is the directory of a marked sub-item. */
  lemma {:induction false} RefreshedAreMarked(hostIsNt: bool, libraryPath: PathLike, items: seq<MediaItem>,
                                              last: Option<PurePath>)
    ensures forall t | t in RefreshTargets(hostIsNt, libraryPath, items, last) ::
              exists x | x in MarkedItems(hostIsNt, libraryPath, items) :: RefreshTarget(hostIsNt, libraryPath, x) == Some(t)
    decreases |items|
  {
    if items != [] {
      var target := RefreshTarget(hostIsNt, libraryPath, items[0]);
      var next := if target.Some? && (last.None? || !PureEq(target.value, last.value)) then target else last;
      RefreshedAreMarked(hostIsNt, libraryPath, items[1..], next);
      var r := RefreshTargets(hostIsNt, libraryPath, items, last);
      var rest := RefreshTargets(hostIsNt, libraryPath, items[1..], next);
      var marked := MarkedItems(hostIsNt, libraryPath, items);
      var restMarked := MarkedItems(hostIsNt, libraryPath, items[1..]);
      assert forall x | x in restMarked :: x in marked;
      forall t | t in r
        ensures exists x | x in marked :: RefreshTarget(hostIsNt, libraryPath, x) == Some(t)
      {
        if t in rest {
          var x :| x in restMarked && RefreshTarget(hostIsNt, libraryPath, x) == Some(t);
          assert x in marked;
        } else {
          assert target == Some(t);
          assert items[0] in marked;
        }
      }
    }
  }

  /** Every marked sub-item is covered: its directory is the one refreshed
      just before the list (`last`) or one the list refreshes, up to path
      equality. Together with `RefreshedAreMarked`, the refreshed
      directories are exactly those of the marked sub-items, repeats in a
      row dropped. */
  lemma {:induction false} MarkedAreRefreshed(hostIsNt: bool, libraryPath: PathLike, items: seq<MediaItem>,
                                              last: Option<PurePath>)
    ensures forall x | x in MarkedItems(hostIsNt, libraryPath, items) ::
              && RefreshTarget(hostIsNt, libraryPath, x).Some?
              && ((last.Some? && PureEq(RefreshTarget(hostIsNt, libraryPath, x).value, last.value))
                  || exists u | u in RefreshTargets(hostIsNt, libraryPath, items, last) ::
                       PureEq(RefreshTarget(hostIsNt, libraryPath, x).value, u))
    decreases |items|
  {
    MarkedItemsMembers(hostIsNt, libraryPath, items);
    if items != [] {
      var target := RefreshTarget(hostIsNt, libraryPath, items[0]);
      var emitted := target.Some? && (last.None? || !PureEq(target.value, last.value));
      var next := if emitted then target else last;
      MarkedAreRefreshed(hostIsNt, libraryPath, items[1..], next);
      MarkedItemsMembers(hostIsNt, libraryPath, items[1..]);
      var r := RefreshTargets(hostIsNt, libraryPath, items, last);
      var rest := RefreshTargets(hostIsNt, libraryPath, items[1..], next);
      assert r == if emitted then [target.value] + rest else rest;
      forall x | x in MarkedItems(hostIsNt, libraryPath, items)
        ensures (last.Some? && PureEq(RefreshTarget(hostIsNt, libraryPath, x).value, last.value))
                || exists u | u in r :: PureEq(RefreshTarget(hostIsNt, libraryPath, x).value, u)
      {
        var t := RefreshTarget(hostIsNt, libraryPath, x).value;
        PureEqIsEquivalence(t, t, t);
        if x == items[0] {
          if emitted {
            assert r[0] == t;
          }
        } else {
          assert x in items[1..];
          if !(next.Some? && PureEq(t, next.value)) {
            var u :| u in rest && PureEq(t, u);
            assert u in r;
          } else if emitted {
            assert r[0] == next.value;
          }
        }
      }
    }
  }
}

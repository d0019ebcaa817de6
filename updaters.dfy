/**
  The refresh coordinator of `src/program/services/updaters/__init__.py`.

  An `Updater` holds the library root, a fixed, ordered registry of media
  server backends and whether any of them is usable.  For a media item it
  picks the sub-items to refresh, derives for each the directory a media
  server should rescan, skips a directory equal to the one refreshed just
  before, and sends every other one to each usable backend, whatever the
  others answer.

  What the real program does to the world (backend requests, the `updated`
  flag on sub-items) is returned here as sequences: `Invocation`s for the
  backend calls, the strings handed to `refresh_path`, and the sub-items
  marked as updated.
*/
module Updaters {
  import opened Wrappers
  import opened PlatformPaths

  // ---------------------------------------------------------------------
  // Media items and backends
  // ---------------------------------------------------------------------

  /** `item.type`; `OtherType` stands for every type the updater ignores. */
  datatype ItemType = Movie | Episode | Season | Show | OtherType

  /** A media item: its type, the path of its filesystem entry (if any),
      whether it is available in the virtual filesystem, and its children
      (the seasons of a show, the episodes of a season). */
  datatype MediaItem = MediaItem(kind: ItemType, entryPath: Option<string>, availableInVfs: bool,
                                 children: seq<MediaItem>)

  /** What a backend's `refresh_path` does when called. */
  datatype Outcome = ReturnsTrue | ReturnsFalse | Raises

  /** A media server backend (Plex, Jellyfin, Emby): whether it is
      configured, and how it answers a refresh request. */
  datatype Backend = Backend(initialized: bool, outcome: Outcome)

  /** One call to backend number `backend` of the registry, for `path`. */
  datatype Invocation = Invocation(backend: nat, path: string)

  // ---------------------------------------------------------------------
  // validate
  // ---------------------------------------------------------------------

  /** The initialized services, in registry order. */
  function InitializedServices(services: seq<Backend>): (r: seq<Backend>)
    ensures forall b | b in r :: b in services && b.initialized
    ensures forall i | 0 <= i < |services| && services[i].initialized :: services[i] in r
  {
    if services == [] then []
    else (if services[0].initialized then [services[0]] else []) + InitializedServices(services[1..])
  }

  /** `validate`: at least one service is initialized. */
  function Validate(services: seq<Backend>): (r: bool)
    ensures r <==> exists i | 0 <= i < |services| :: services[i].initialized
  {
    var initialized := InitializedServices(services);
    assert |initialized| > 0 ==> initialized[0] in initialized;
    |initialized| > 0
  }

  // ---------------------------------------------------------------------
  // get_items_to_update
  // ---------------------------------------------------------------------

  /** The episodes available in the virtual filesystem, in order. */
  function AvailableEpisodes(episodes: seq<MediaItem>): (r: seq<MediaItem>)
    ensures forall e :: e in r <==> e in episodes && e.availableInVfs
    ensures |r| <= |episodes|
  {
    if episodes == [] then []
    else AvailableEpisodes(episodes[..|episodes| - 1])
         + (if episodes[|episodes| - 1].availableInVfs then [episodes[|episodes| - 1]] else [])
  }

  /** The available episodes of all seasons, season by season. */
  function ShowEpisodes(seasons: seq<MediaItem>): (r: seq<MediaItem>)
    ensures forall e :: e in r <==> exists s | s in seasons :: e in s.children && e.availableInVfs
  {
    if seasons == [] then []
    else
      var last := seasons[|seasons| - 1];
      assert forall s | s in seasons[..|seasons| - 1] :: s in seasons;
      assert forall s | s in seasons :: s in seasons[..|seasons| - 1] || s == last;
      ShowEpisodes(seasons[..|seasons| - 1]) + AvailableEpisodes(last.children)
  }

  /** Extending the episodes by one extends their available ones by it, if
      it is available. */
  lemma AvailableEpisodesStep(episodes: seq<MediaItem>, j: nat)
    requires j < |episodes|
    ensures AvailableEpisodes(episodes[..j + 1])
            == AvailableEpisodes(episodes[..j]) + if episodes[j].availableInVfs then [episodes[j]] else []
  {
    assert episodes[..j + 1][..j] == episodes[..j];
  }

  /** Extending the seasons by one extends the collected episodes by its
      available ones. */
  lemma ShowEpisodesStep(seasons: seq<MediaItem>, i: nat)
    requires i < |seasons|
    ensures ShowEpisodes(seasons[..i + 1]) == ShowEpisodes(seasons[..i]) + AvailableEpisodes(seasons[i].children)
  {
    assert seasons[..i + 1][..i] == seasons[..i];
  }

  /** `get_items_to_update`: a movie or an episode is itself; a show is its
      available episodes, or itself when it has none; a season is its
      available episodes, possibly none; any other item gives nothing. */
  function ItemsToUpdate(item: MediaItem): seq<MediaItem> {
    match item.kind
    case Movie => [item]
    case Episode => [item]
    case Show => var collected := ShowEpisodes(item.children); if collected == [] then [item] else collected
    case Season => AvailableEpisodes(item.children)
    case OtherType => []
  }

  // ---------------------------------------------------------------------
  // _derive_refresh_path
  // ---------------------------------------------------------------------

  /** How many directories above the file the refresh happens: the
      movie's own folder, or the show folder above an episode's season.
      `DeriveRefreshPath` states what that means for the refreshed path. */
  function Depth(kind: ItemType): nat {
    if kind == Episode || kind == Show then 2 else 1
  }

  /** `_derive_refresh_path`: no directory for an empty path; otherwise
      the parent of the path combined with the library root, and its
      parent again for an episode or a show. */
  function DeriveRefreshPath(hostIsNt: bool, libraryPath: PathLike, filesystemPath: string, kind: ItemType)
    : (r: Option<PurePath>)
    ensures r.None? <==> filesystemPath == ""
    ensures r.Some? ==>
              var absolute := CombineLibraryPath(hostIsNt, libraryPath, Str(filesystemPath));
              var keep := if |absolute.segs| >= Depth(kind) then |absolute.segs| - Depth(kind) else 0;
              r.value == Ancestor(absolute, keep)
  {
    if filesystemPath == "" then None
    else
      var absolute := CombineLibraryPath(hostIsNt, libraryPath, Str(filesystemPath));
      var refresh := Parent(Normalize(hostIsNt, Pure(absolute)));
      Some(if kind == Episode || kind == Show then Parent(refresh) else refresh)
  }

  /** The directory `run` refreshes for one sub-item, or None when it skips
      the sub-item (no filesystem entry, an empty path, or no directory). */
  function RefreshTarget(hostIsNt: bool, libraryPath: PathLike, item: MediaItem): Option<PurePath> {
    match item.entryPath
    case None => None
    case Some(path) => if path == "" then None else DeriveRefreshPath(hostIsNt, libraryPath, path, item.kind)
  }

  // ---------------------------------------------------------------------
  // The loop of run
  // ---------------------------------------------------------------------

  /** The directories `run` refreshes, in order, for `items`, when `last`
      is the last one refreshed so far: a sub-item's directory is
      refreshed unless it equals `last`; a skipped sub-item leaves `last`
      as it was. */
  function RefreshTargets(hostIsNt: bool, libraryPath: PathLike, items: seq<MediaItem>, last: Option<PurePath>)
    : seq<PurePath>
  {
    if items == [] then []
    else match RefreshTarget(hostIsNt, libraryPath, items[0])
      case None => RefreshTargets(hostIsNt, libraryPath, items[1..], last)
      case Some(t) =>
        if last.None? || !PureEq(t, last.value) then [t] + RefreshTargets(hostIsNt, libraryPath, items[1..], Some(t))
        else RefreshTargets(hostIsNt, libraryPath, items[1..], last)
  }

  /** The sub-items `run` marks as updated: those with a directory to
      refresh, whether or not the refresh was skipped as a repeat. */
  function MarkedItems(hostIsNt: bool, libraryPath: PathLike, items: seq<MediaItem>): (r: seq<MediaItem>)
    ensures |r| <= |items|
  {
    if items == [] then []
    else (if RefreshTarget(hostIsNt, libraryPath, items[0]).Some? then [items[0]] else [])
         + MarkedItems(hostIsNt, libraryPath, items[1..])
  }

  /** Proof step: sequence concatenation is associative. */
  lemma AppendAssociative<T>(a: seq<T>, b: seq<T>, c: seq<T>)
    ensures a + (b + c) == (a + b) + c
  {
  }

  /** Proof step: appending nothing leaves a sequence unchanged. */
  lemma AppendEmpty<T>(a: seq<T>)
    ensures a + [] == a
  {
  }

  /** One step of `RefreshTargets`, with the sub-item's directory named. */
  lemma RefreshTargetsStep(hostIsNt: bool, libraryPath: PathLike, items: seq<MediaItem>, i: nat,
                           last: Option<PurePath>, target: Option<PurePath>)
    requires i < |items| && target == RefreshTarget(hostIsNt, libraryPath, items[i])
    ensures RefreshTargets(hostIsNt, libraryPath, items[i..], last)
            == if target.None? then RefreshTargets(hostIsNt, libraryPath, items[i + 1..], last)
               else if last.None? || !PureEq(target.value, last.value)
               then [target.value] + RefreshTargets(hostIsNt, libraryPath, items[i + 1..], target)
               else RefreshTargets(hostIsNt, libraryPath, items[i + 1..], last)
    ensures MarkedItems(hostIsNt, libraryPath, items[i..])
            == if target.Some? then [items[i]] + MarkedItems(hostIsNt, libraryPath, items[i + 1..])
               else MarkedItems(hostIsNt, libraryPath, items[i + 1..])
  {
    assert items[i..][0] == items[i] && items[i..][1..] == items[i + 1..];
    assert [] + MarkedItems(hostIsNt, libraryPath, items[i + 1..]) == MarkedItems(hostIsNt, libraryPath, items[i + 1..]);
  }

  /** The strings `run` hands to `refresh_path`, one per refreshed directory. */
  function RequestStrings(hostIsNt: bool, targets: seq<PurePath>): (r: seq<string>)
    ensures |r| == |targets|
  {
    if targets == [] then []
    else RequestStrings(hostIsNt, targets[..|targets| - 1]) + [AsOsPathString(hostIsNt, Pure(targets[|targets| - 1]))]
  }

  // ---------------------------------------------------------------------
  // refresh_path
  // ---------------------------------------------------------------------

  /** The backend calls `refresh_path(path)` makes: one per initialized
      backend, in registry order, whatever the earlier ones answered. */
  function FanOut(services: seq<Backend>, path: string): (r: seq<Invocation>)
    ensures forall k | 0 <= k < |r| :: r[k].path == path && r[k].backend < |services|
                                       && services[r[k].backend].initialized
    ensures forall k, l | 0 <= k < l < |r| :: r[k].backend < r[l].backend
    ensures forall i | 0 <= i < |services| && services[i].initialized :: Invocation(i, path) in r
  {
    if services == [] then []
    else
      var n := |services| - 1;
      var before := FanOut(services[..n], path);
      assert forall k | 0 <= k < |before| :: before[k].backend < n;
      before + (if services[n].initialized then [Invocation(n, path)] else [])
  }

  /** `refresh_path` reports success: some initialized backend returned
      true.  A backend that raises counts as one that did not. */
  predicate AnySucceeded(services: seq<Backend>) {
    exists i | 0 <= i < |services| :: services[i].initialized && services[i].outcome == ReturnsTrue
  }

  /** The backend calls of `refresh_path` for each of `paths`, in order. */
  function FanOutAll(services: seq<Backend>, paths: seq<string>): (r: seq<Invocation>)
    ensures forall v | v in r :: v.path in paths
  {
    if paths == [] then []
    else FanOutAll(services, paths[..|paths| - 1]) + FanOut(services, paths[|paths| - 1])
  }

  // ---------------------------------------------------------------------
  // The updater
  // ---------------------------------------------------------------------

  class Updater {
    /** `os.name == "nt"` on the machine the updater runs on. */
    const hostIsNt: bool
    /** `settings.updaters.library_path`. */
    const libraryPath: PathLike
    /** The backend registry, in the order it is iterated. */
    const services: seq<Backend>
    const initialized: bool

    /** `__init__`, with the settings and the backends passed in. */
    constructor(hostIsNt: bool, libraryPath: PathLike, services: seq<Backend>)
      ensures this.hostIsNt == hostIsNt && this.libraryPath == libraryPath && this.services == services
      ensures initialized <==> exists i | 0 <= i < |services| :: services[i].initialized
    {
      this.hostIsNt := hostIsNt;
      this.libraryPath := libraryPath;
      this.services := services;
      this.initialized := Validate(services);
    }

    /** `refresh_path`: asks every initialized backend to rescan `path`,
        and succeeds when one of them returned true. */
    method RefreshPath(path: string) returns (success: bool, calls: seq<Invocation>)
      ensures success <==> AnySucceeded(services)
      ensures calls == FanOut(services, path)
    {
      success := false;
      calls := [];
      var i := 0;
      while i < |services|
        invariant 0 <= i <= |services|
        invariant success <==> AnySucceeded(services[..i])
        invariant calls == FanOut(services[..i], path)
      {
        var service := services[i];
        if service.initialized {
          calls := calls + [Invocation(i, path)];
          match service.outcome
          case ReturnsTrue => success := true;
          case ReturnsFalse =>
          case Raises =>
        }
        assert services[..i + 1][..i] == services[..i];
        assert AnySucceeded(services[..i + 1])
               <==> (AnySucceeded(services[..i]) || (service.initialized && service.outcome == ReturnsTrue)) by {
          assert forall j | 0 <= j < i :: services[..i + 1][j] == services[..i][j];
        }
        i := i + 1;
      }
      assert services[..i] == services;
    }

    /** `get_items_to_update`, collecting a show's episodes season by season. */
    method GetItemsToUpdate(item: MediaItem) returns (items: seq<MediaItem>)
      ensures items == ItemsToUpdate(item)
    {
      match item.kind {
        case Movie => items := [item];
        case Episode => items := [item];
        case Show =>
          var seasons := item.children;
          var collected := [];
          var i := 0;
          while i < |seasons|
            invariant 0 <= i <= |seasons|
            invariant collected == ShowEpisodes(seasons[..i])
          {
            var episodes := seasons[i].children;
            var j := 0;
            assert episodes[..j] == [];
            AppendEmpty(collected);
            while j < |episodes|
              invariant 0 <= j <= |episodes|
              invariant collected == ShowEpisodes(seasons[..i]) + AvailableEpisodes(episodes[..j])
            {
              AvailableEpisodesStep(episodes, j);
              AppendAssociative(ShowEpisodes(seasons[..i]), AvailableEpisodes(episodes[..j]),
                                if episodes[j].availableInVfs then [episodes[j]] else []);
              if episodes[j].availableInVfs {
                collected := collected + [episodes[j]];
              } else {
                AppendEmpty(collected);
              }
              j := j + 1;
            }
            assert episodes[..j] == episodes;
            ShowEpisodesStep(seasons, i);
            i := i + 1;
          }
          assert seasons[..i] == seasons;
          items := if collected == [] then [item] else collected;
        case Season => items := AvailableEpisodes(item.children);
        case OtherType => items := [];
      }
    }

    /** `run`: the item comes back unchanged; on the way each sub-item
        with a directory is marked updated, and each directory that differs
        from the one refreshed just before is refreshed. */
    method Run(item: MediaItem)
      returns (result: MediaItem, marked: seq<MediaItem>, requests: seq<string>, calls: seq<Invocation>)
      ensures result == item
      ensures !initialized ==> marked == [] && requests == [] && calls == []
      ensures initialized ==>
                var items := ItemsToUpdate(item);
                && marked == MarkedItems(hostIsNt, libraryPath, items)
                && requests == RequestStrings(hostIsNt, RefreshTargets(hostIsNt, libraryPath, items, None))
                && calls == FanOutAll(services, requests)
    {
      result := item;
      marked := [];
      requests := [];
      calls := [];
      if !initialized {
        return;
      }
      var items := GetItemsToUpdate(item);
      var lastPath: Option<PurePath> := None;
      ghost var done: seq<PurePath> := [];
      var i := 0;
      assert items[i..] == items;
      while i < |items|
        invariant 0 <= i <= |items|
        invariant RefreshTargets(hostIsNt, libraryPath, items, None)
                  == done + RefreshTargets(hostIsNt, libraryPath, items[i..], lastPath)
        invariant MarkedItems(hostIsNt, libraryPath, items) == marked + MarkedItems(hostIsNt, libraryPath, items[i..])
        invariant requests == RequestStrings(hostIsNt, done)
        invariant calls == FanOutAll(services, requests)
      {
        var x := items[i];
        var refreshPath: Option<PurePath> := None;
        match x.entryPath {
          case None =>
          case Some(fePath) =>
            if fePath != "" {
              refreshPath := DeriveRefreshPath(hostIsNt, libraryPath, fePath, x.kind);
            }
        }
        RefreshTargetsStep(hostIsNt, libraryPath, items, i, lastPath, refreshPath);
        if refreshPath.Some? {
          var t := refreshPath.value;
          if lastPath.None? || !PureEq(t, lastPath.value) {
            var refreshStr := AsOsPathString(hostIsNt, Pure(t));
            var ok, made := RefreshPath(refreshStr);
            ghost var rest := RefreshTargets(hostIsNt, libraryPath, items[i + 1..], refreshPath);
            AppendAssociative(done, [t], rest);
            assert (done + [t])[..|done|] == done;
            assert (requests + [refreshStr])[..|requests|] == requests;
            done := done + [t];
            requests := requests + [refreshStr];
            calls := calls + made;
            lastPath := refreshPath;
          }
          ghost var restMarked := MarkedItems(hostIsNt, libraryPath, items[i + 1..]);
          AppendAssociative(marked, [x], restMarked);
          marked := marked + [x];
        }
        i := i + 1;
      }
      assert items[i..] == [];
      AppendEmpty(done);
      AppendEmpty(marked);
    }
  }
}

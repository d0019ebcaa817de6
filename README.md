# Riven library paths and the refresh coordinator, in Dafny

This project models two cooperating parts of Riven, the media library
manager. Both are modelled as they behave, not as they are deployed.

**Cross-platform paths** (`platform_paths.dfy`, module `PlatformPaths`).
- A path is a `PurePath` value. It holds a flavour (`Posix` or `Windows`), a drive (a letter drive such as `C:` or a UNC share), a root flag and its segments.
- Strings are parsed as `PurePosixPath` and `PureWindowsPath` parse them:
  - `ntpath.splitroot` for drives, UNC shares and roots;
  - empty and `.` segments dropped;
  - `/` read as `\` in Windows paths.
- They are rendered back with `str()` and `as_posix()`.
- Equality of pure paths (`PureEq`) needs the same flavour and the same rendering. For Windows paths the rendering is compared lower-cased.
- `relative_to` succeeds when the other path is the path itself or one of its parents.
- `joinpath` joins one part at a time, with the `ntpath.join` and `posixpath.join` rules for rooted and drive parts.
- The helpers `normalize_path`, `combine_library_path`, `as_os_path_string`, `paths_match` and `path_is_within` are functions over these values.
- The host (`os.name == "nt"`) is the parameter `hostIsNt`.

**Refresh coordinator** (`updaters.dfy`, module `Updaters`).
- The `Updater` service is a class. It holds the host flag, the library root, an ordered backend registry and `initialized`, all set once by its constructor.
- A backend is its `initialized` flag plus what its `refresh_path` does: return true, return false, or raise.
- A media item is a datatype: its kind, its optional filesystem path, `available_in_vfs` and its children (seasons of a show, episodes of a season).
- `get_items_to_update`, `refresh_path` and `run` are methods with the source's loops. Each is proved against a specification function: `ItemsToUpdate`, `FanOut`, and `RefreshTargets` with `MarkedItems`.
- `_derive_refresh_path` and `validate` are functions.
- `run` returns, besides the item, what it does to the outside world:
  - the sub-items it marks `updated`, in order;
  - the strings it hands to `refresh_path`;
  - every backend call made, as (backend index, path) pairs.

**Properties.**
- `platform_paths_props.dfy` holds the properties of the path helpers: round trips, flavour choice, the four branches of `combine_library_path`, and containment by segments.
- `platform_paths_examples.dfy` holds the cases of `src/tests/test_platform_paths.py`. Each is proved for all segment lists of its shape, then for the test's own path, written as the rendering of its segments.
- `updaters_props.dfy` holds the coordinator's properties: expansion of shows and seasons, the directory derived for movies and episodes, deduplication of consecutive refreshes, marking, and fan-out that tolerates failures.

Where the code is looser than one might expect, the model follows the code:
- `normalize_path` parses a string with Windows rules when it holds a `:` or a `\` anywhere (`platform_paths.py:55`). A drive prefix or a leading `\\` is not required.
- `paths_match` chooses its comparison by the host, not by the paths' flavour (`platform_paths.py:106-108`):
  - On a Windows host it compares the lower-cased `as_posix` strings, so a POSIX path and a Windows path can match.
  - Elsewhere it is `PurePath` equality, so paths of different flavours never match.
- A Windows path with a root but no drive (`\shows\Test`) is not absolute for pathlib. It is therefore re-rooted under the library root like a relative path (`platform_paths.py:72-76`).
  - For the same reason, on a POSIX host an absolute path already inside the root gets the root a second time when one of its segments holds a `:` (`/mnt/library/Tt: B/f` becomes `/mnt/library/mnt/library/Tt: B/f`). It is read as a drive-less Windows path (`platform_paths.py:55`).

## Model

| member | source | states |
|---|---|---|
| PlatformPaths.ParsePosix | src/program/utils/platform_paths.py:58 | `PurePosixPath(raw)`; no contract of its own: PosixRoundTrip and ParsedPosixWellFormed state that it inverts `Render` and yields well-formed paths |
| PlatformPaths.SplitRootWindows | src/program/utils/platform_paths.py:54 | `ntpath.splitroot`; no contract of its own: WindowsSplitRooted, WindowsSplitRelative and WindowsSplitDrive state how it splits a rendered path |
| PlatformPaths.UncShareRoot | src/program/utils/platform_paths.py:54 | a UNC drive with a share implies a root; no contract of its own, used by ParseWindows |
| PlatformPaths.ParseWindows | src/program/utils/platform_paths.py:54-57 | `PureWindowsPath(raw)`; no contract of its own: WindowsRoundTrip, ParsesAsWindows and SlashedParsesAsWindows state that it inverts `Render` and reads '/' as '\\' |
| PlatformPaths.Render | src/program/utils/platform_paths.py:92 | `str()` of a path; no contract of its own: RenderParseRoundTrip states that parsing inverts it |
| PlatformPaths.Anchor | src/program/utils/platform_paths.py:73 | `anchor`, the drive followed by the root; no contract of its own: CombineKeepsWindowsDrivePaths states that a drive-less Windows anchor never starts with two backslashes |
| PlatformPaths.AsPosix | src/program/utils/platform_paths.py:93 | `as_posix()`; no contract of its own: AsPosixEitherFlavour and FoldedAsPosix state that it spells a path with '/' whatever its flavour |
| PlatformPaths.Parts | src/program/utils/platform_paths.py:75 | `parts`: the anchor, then the segments; no contract of its own, stated through CombineWindowsRelative |
| PlatformPaths.IsAbsolute | src/program/utils/platform_paths.py:73 | `is_absolute()`; no contract of its own: CombineKeepsWindowsDrivePaths states that for a Windows path it amounts to having a drive |
| PlatformPaths.Parent | src/program/services/updaters/__init__.py:107-109 | `parent`; no contract of its own: DeriveRefreshPath states what one or two steps up give |
| PlatformPaths.Ancestor | src/program/utils/platform_paths.py:120 | one of the `parents` that `relative_to` walks, keeping the first k segments; no contract of its own: AncestorWellFormed states it stays well formed, and DeriveRefreshPath and RelativeToIsSegmentPrefix use it |
| PlatformPaths.NormCase | src/program/utils/platform_paths.py:108 | the rendering compared by `==`, lower-cased for Windows paths; no contract of its own, used by PureEq |
| PlatformPaths.Lower | src/program/utils/platform_paths.py:107 | `casefold()`, on ASCII letters only: the length is kept; LowerKeeps states that only letters change, LowerJoin and LowerConcat that it folds piece by piece |
| PlatformPaths.PureEq | src/program/utils/platform_paths.py:108 | `PurePath.__eq__`; no contract of its own: PureEqIsEquivalence states it is an equivalence, PosixHostMatchIsEquality that on POSIX paths it is equality |
| PlatformPaths.IsRelativeTo | src/program/utils/platform_paths.py:119-123 | `relative_to` succeeds; no contract of its own: RelativeToIsSegmentPrefix states it as a segment prefix |
| PlatformPaths.JoinPath | src/program/utils/platform_paths.py:76 | `joinpath` with one part; no contract of its own, stated through JoinPlainParts |
| PlatformPaths.JoinParts | src/program/utils/platform_paths.py:76 | `joinpath(*parts)`; no contract of its own: JoinPlainParts states that plain parts are appended in order |
| PlatformPaths.CombineLibraryPath | src/program/utils/platform_paths.py:61-84 | no contract of its own: CombineKeepsWindowsDrivePaths, CombineWindowsRelative, CombinePosixRelative and CombinePosixAbsolute state its four branches |
| PlatformPaths.AsOsPathString | src/program/utils/platform_paths.py:87-93 | no contract of its own: AsOsPathStringHostIndependent, AsOsPathStringSeparators and NativeStringRoundTrip state its result |
| PlatformPaths.PathsMatch | src/program/utils/platform_paths.py:96-108 | no contract of its own: PosixHostMatchIsEquality and WindowsHostMatchIgnoresCase state when two paths match on each host |
| PlatformPaths.PathIsWithin | src/program/utils/platform_paths.py:111-124 | no contract of its own: it is WithinAny of the normalized path; PathIsWithinReflexive, PathIsWithinNothing and AcceptsIsSegmentPrefix state its answers |
| PlatformPaths.Normalize | src/program/utils/platform_paths.py:41-58 | a string is parsed as a Windows path exactly when the host is Windows or the string holds a ':' or a '\\'; otherwise as a POSIX path |
| PlatformPaths.WithinAny | src/program/utils/platform_paths.py:115-124 | the containment loop answers true exactly when some candidate either matches the path or is the path or one of its parents |
| PlatformPaths.Accepts | src/program/utils/platform_paths.py:116-121 | one round of the containment loop: a match or a successful `relative_to`; no contract of its own: AcceptsIsSegmentPrefix states it as a segment prefix |
| PlatformPaths.DropSeparatorParts | src/program/utils/platform_paths.py:75 | the kept parts are exactly the parts that are not a lone separator |
| PlatformPathsProps.PosixRoundTrip | src/program/utils/platform_paths.py:58 | parsing the rendering of a well-formed POSIX path gives back the same path |
| PlatformPathsProps.WindowsRoundTrip | src/program/utils/platform_paths.py:54 | parsing the rendering of a well-formed Windows path (letter drive or none) gives back the same path |
| PlatformPathsProps.RenderParseRoundTrip | src/program/utils/platform_paths.py:52-58 | for either flavour, parsing a well-formed path's rendering with that flavour's rules gives back the path |
| PlatformPathsProps.NativeStringRoundTrip | src/program/utils/platform_paths.py:87-93 | a path's own string, when the host chooses that path's flavour, normalizes to that path, and `as_os_path_string` gives back the same string |
| PlatformPathsProps.NativeFlavourChosen | src/program/utils/platform_paths.py:52-58 | the rendering of a POSIX path with no ':' or '\\', and of a Windows path with a drive, a root or two segments, is parsed with the flavour it was written in |
| PlatformPathsProps.NormalizeIdempotent | src/program/utils/platform_paths.py:48-49 | normalizing an already normalized path returns it unchanged |
| PlatformPathsProps.AsOsPathStringHostIndependent | src/program/utils/platform_paths.py:90-93 | a pure path keeps its flavour on either host, so its OS string is its rendering on both |
| PlatformPathsProps.AsOsPathStringSeparators | src/program/utils/platform_paths.py:87-93 | `as_os_path_string` of a parsed path is its rendering on either host; a Windows path gets no '/', and a POSIX path with no '\\' segment gets no '\\' |
| PlatformPathsProps.PureEqIsEquivalence | src/program/utils/platform_paths.py:108 | pure-path equality is reflexive, symmetric and transitive |
| PlatformPathsProps.PosixHostSeparatesFlavours | src/program/utils/platform_paths.py:106-108 | on a POSIX host, paths of different flavours never match |
| PlatformPathsProps.WindowsHostMixesFlavours | src/program/utils/platform_paths.py:106-107 | on a Windows host, the POSIX path /a/b matches the Windows path \A\b; on a POSIX host the same two paths do not match |
| PlatformPathsProps.PosixHostMatchIsEquality | src/program/utils/platform_paths.py:103-108 | on a POSIX host, two well-formed POSIX paths match exactly when they are the same path, case included |
| PlatformPathsProps.FoldedAsPosix | src/program/utils/platform_paths.py:107 | the lower-cased `as_posix` string of a well-formed path of either flavour is the `as_posix` string of its lower-cased Windows form |
| PlatformPathsProps.WindowsHostMatchIgnoresCase | src/program/utils/platform_paths.py:103-107 | on a Windows host, two well-formed paths of any flavours match exactly when their root flags agree and their drives and segments agree up to case |
| PlatformPathsProps.RelativeToIsSegmentPrefix | src/program/utils/platform_paths.py:119-121 | for POSIX paths, `relative_to` succeeds exactly when the other path has the same root and its segments are a prefix of the path's segments |
| PlatformPathsProps.AcceptsIsSegmentPrefix | src/program/utils/platform_paths.py:116-121 | on a POSIX host, one round of the containment loop accepts a POSIX candidate exactly when the candidate's segments are a prefix of the path's, with the same root |
| PlatformPathsProps.PathIsWithinReflexive | src/program/utils/platform_paths.py:114-118 | every path is within the list holding only itself |
| PlatformPathsProps.PathIsWithinNothing | src/program/utils/platform_paths.py:124 | no path is within an empty candidate list |
| PlatformPathsProps.JoinPlainParts | src/program/utils/platform_paths.py:84 | joining plain parts onto a path appends them to its segments, in order, keeping its drive and root |
| PlatformPathsProps.CombineKeepsWindowsDrivePaths | src/program/utils/platform_paths.py:72-74 | for a Windows candidate, "absolute or has a drive or a UNC anchor" is exactly "has a drive", and such a candidate is returned unchanged |
| PlatformPathsProps.CombineWindowsRelative | src/program/utils/platform_paths.py:75-76 | a Windows candidate without a drive has its segments appended onto the library root, with its leading separator dropped (for segments the library root's flavour reads as plain; see "## Left out") |
| PlatformPathsProps.CombinePosixRelative | src/program/utils/platform_paths.py:84 | a relative POSIX candidate has all its segments appended onto the library root (for segments the library root's flavour reads as plain; see "## Left out") |
| PlatformPathsProps.CombinePosixAbsolute | src/program/utils/platform_paths.py:78-82 | an absolute POSIX candidate is returned unchanged when it lies within the root; otherwise its segments, without the leading '/', are appended onto the root (for segments the library root's flavour reads as plain; see "## Left out") |
| PlatformPathsProps.DropPlain | src/program/utils/platform_paths.py:75 | parts that are not lone separators are all kept, in order |
| PlatformPathsExamples.SlashedParses | src/program/utils/platform_paths.py:52-58 | a string of plain segments joined by '/' is parsed, on either host, into those segments, as a Windows path exactly when the host is Windows |
| PlatformPathsExamples.RerootSlashed | src/program/utils/platform_paths.py:78-84 | a '/'-separated path, relative or absolute but outside the root, combined with a '/'-separated library root, renders as the root's segments followed by its own |
| PlatformPathsExamples.RerootBackslashed | src/program/utils/platform_paths.py:72-76 | a '\\'-rooted path without a drive, combined with a '/'-separated root, renders as the root's segments followed by its own |
| PlatformPathsExamples.RerootColonPathWithinRoot | src/program/utils/platform_paths.py:55-57 | on a POSIX host, an absolute path inside the root whose segments hold a ':' is read as a drive-less Windows path and joined under the root again, so the root appears twice |
| PlatformPathsExamples.RerootColonPathExample | src/program/utils/platform_paths.py:72-76 | /mnt/library/Tt: B/f under the root /mnt/library gives /mnt/library/mnt/library/Tt: B/f on a POSIX host |
| PlatformPathsExamples.KeepDrivePath | src/program/utils/platform_paths.py:72-74 | a Windows path with a drive combines to itself, and its OS string is the string it was written as |
| PlatformPathsExamples.CombinePosixRelativeExample | src/tests/test_platform_paths.py:10-14 | root /mnt/library with movies/Test gives /mnt/library/movies/Test, on either host |
| PlatformPathsExamples.CombinePosixLeadingSlashExample | src/tests/test_platform_paths.py:17-21 | root /mnt/library with /shows/Test gives /mnt/library/shows/Test, on either host |
| PlatformPathsExamples.CombineWindowsRelativeExample | src/tests/test_platform_paths.py:24-28 | root /mnt/library with \shows\Test gives /mnt/library/shows/Test, on either host |
| PlatformPathsExamples.CombineWindowsAbsoluteExample | src/tests/test_platform_paths.py:31-35 | root C:\Riven\Library with C:\Riven\Library\movies gives back the candidate's string |
| PlatformPathsExamples.AsOsPathStringWindowsExample | src/tests/test_platform_paths.py:38-41 | C:\Riven\Library\movies round-trips through normalization and `as_os_path_string`, on either host |
| PlatformPathsExamples.SlashedStringRoundTrip | src/program/utils/platform_paths.py:87-93 | on a POSIX host, any '/'-separated string of plain segments round-trips through normalization and `as_os_path_string` |
| PlatformPathsExamples.AsOsPathStringPosixExample | src/tests/test_platform_paths.py:44-47 | on a POSIX host, /mnt/library/shows round-trips through normalization and `as_os_path_string` |
| PlatformPathsExamples.CombineRootMarker | src/program/utils/platform_paths.py:78-82 | the path "/" alone combines to the library root itself |
| PlatformPathsExamples.PathIsWithinExamples | src/program/utils/platform_paths.py:111-124 | /a/b/c is within /a/b, and /a/bx is not |
| Updaters.InitializedServices | src/program/services/updaters/__init__.py:39 | the kept services are exactly the initialized ones |
| Updaters.Validate | src/program/services/updaters/__init__.py:37-40 | `validate` holds exactly when some service is initialized |
| Updaters.AvailableEpisodes | src/program/services/updaters/__init__.py:158-163 | the season's list holds exactly its episodes that are available in the virtual filesystem, and never more than it has |
| Updaters.ShowEpisodes | src/program/services/updaters/__init__.py:151-156 | the collected list holds exactly the available episodes of the show's seasons |
| Updaters.AvailableEpisodesStep | src/program/services/updaters/__init__.py:159-163 | loop helper for `GetItemsToUpdate`: filtering one more episode appends it exactly when it is available |
| Updaters.ShowEpisodesStep | src/program/services/updaters/__init__.py:152-156 | loop helper for `GetItemsToUpdate`: one more season appends its available episodes, in order |
| UpdatersProps.AvailableEpisodesAppend | src/program/services/updaters/__init__.py:158-163 | a season's available episodes keep the episodes' order: filtering two runs of episodes is filtering each, in order |
| UpdatersProps.ShowEpisodesAppend | src/program/services/updaters/__init__.py:151-156 | a show's episodes come season by season: collecting over two runs of seasons is collecting each, in order |
| Updaters.ItemsToUpdate | src/program/services/updaters/__init__.py:141-164 | no contract of its own: ShowFallback and OtherItemsToUpdate state what each item kind expands to |
| Updaters.Depth | src/program/services/updaters/__init__.py:107-109 | no contract of its own: DeriveRefreshPath, DeriveMovieFolder and DeriveEpisodeShowFolder state one level up, and two for an episode or a show |
| Updaters.DeriveRefreshPath | src/program/services/updaters/__init__.py:95-111 | no directory exactly when the path is empty; otherwise the combined path's ancestor one level up, or two for an episode or a show, never above the anchor |
| Updaters.RefreshTarget | src/program/services/updaters/__init__.py:69-82 | no contract of its own: the directory of a sub-item, none when it has no path or none is derived; MarkedItemsMembers and SkippedItemIgnored use it |
| Updaters.RefreshTargetsStep | src/program/services/updaters/__init__.py:68-89 | loop helper for `Run`: one sub-item either refreshes its directory, when it differs from the last one refreshed, or leaves the last one in place; it is marked exactly when it has a directory |
| Updaters.RefreshTargets | src/program/services/updaters/__init__.py:68-89 | no contract of its own: NoConsecutiveRepeats, RefreshedAreMarked, MarkedAreRefreshed and the duplicate lemmas state which directories are refreshed |
| Updaters.MarkedItems | src/program/services/updaters/__init__.py:68-89 | never more marked sub-items than sub-items; MarkedItemsMembers states which ones |
| Updaters.RequestStrings | src/program/services/updaters/__init__.py:84-86 | one string per refreshed directory; RequestStringsAt states each one |
| Updaters.FanOut | src/program/services/updaters/__init__.py:126-135 | exactly the initialized backends are called, each with the given path, in increasing registry order |
| Updaters.AnySucceeded | src/program/services/updaters/__init__.py:126-139 | no contract of its own: the refresh result; RefreshPath, NoSuccessWithoutTrue and PartialFailureExample state when it holds |
| Updaters.FanOutAll | src/program/services/updaters/__init__.py:84-86 | every backend call of a run is for one of the strings handed to `refresh_path` |
| Updaters.Updater.constructor | src/program/services/updaters/__init__.py:27-35 | the service keeps the library root and the registry, and is initialized exactly when some backend is |
| Updaters.Updater.RefreshPath | src/program/services/updaters/__init__.py:113-139 | calls every initialized backend in order whatever the earlier ones did, and succeeds exactly when some initialized backend returns true |
| Updaters.Updater.GetItemsToUpdate | src/program/services/updaters/__init__.py:141-164 | the nested loops and the filter compute `ItemsToUpdate` for every item kind |
| Updaters.Updater.Run | src/program/services/updaters/__init__.py:42-93 | yields the item itself; when not initialized does nothing; otherwise marks `MarkedItems`, refreshes the deduplicated directories' strings in order, and makes exactly their fan-out calls |
| UpdatersProps.FanOutCountsInitialized | src/program/services/updaters/__init__.py:126-139 | a refresh makes one call per initialized backend, so it calls somebody exactly when `validate` holds |
| UpdatersProps.FanOutAppend | src/program/services/updaters/__init__.py:127-128 | a backend appended to the registry adds its own call, and only when it is initialized |
| UpdatersProps.FanOutPair | src/program/services/updaters/__init__.py:127-130 | two initialized backends are both called, first to last |
| UpdatersProps.PartialFailureExample | src/program/services/updaters/__init__.py:127-135 | with a raising backend, a succeeding one and an uninitialized one, both initialized backends are called in order and the refresh succeeds |
| UpdatersProps.NoSuccessWithoutTrue | src/program/services/updaters/__init__.py:126-139 | when no backend returns true the refresh fails, though every initialized backend was still called |
| UpdatersProps.FanOutAllInitializedOnly | src/program/services/updaters/__init__.py:127-128 | over a whole run only initialized backends are called |
| UpdatersProps.ShowFallback | src/program/services/updaters/__init__.py:145-157 | a show expands to itself exactly when none of its seasons has an available episode; otherwise to exactly those episodes |
| UpdatersProps.OtherItemsToUpdate | src/program/services/updaters/__init__.py:143-164 | a movie or an episode expands to itself; a season to exactly its available episodes, empty when there are none; any other item to nothing |
| UpdatersProps.DeriveRerooted | src/program/services/updaters/__init__.py:98-111 | a '/'-separated path under a '/'-separated library root is refreshed one or two directories above the file, below the root |
| UpdatersProps.DeriveMovieFolder | src/program/services/updaters/__init__.py:107 | a movie at folder/file under the library root is refreshed at root/folder, whether or not the path starts with '/' |
| UpdatersProps.DeriveEpisodeShowFolder | src/program/services/updaters/__init__.py:107-109 | an episode at show/season/file under the library root is refreshed at root/show |
| UpdatersProps.DeriveIsAncestor | src/program/services/updaters/__init__.py:101-111 | for a non-empty path the derived directory exists and the combined path is relative to it |
| UpdatersProps.MarkedItemsMembers | src/program/services/updaters/__init__.py:68-89 | the marked sub-items are exactly those with a filesystem path from which a directory is derived |
| UpdatersProps.RequestStringsAt | src/program/services/updaters/__init__.py:84-86 | the i-th string handed to `refresh_path` is the OS string of the i-th refreshed directory |
| UpdatersProps.NoConsecutiveRepeats | src/program/services/updaters/__init__.py:84-87 | no directory is refreshed twice in a row, and the first differs from the last one refreshed before |
| UpdatersProps.AdjacentDuplicateRefreshedOnce | src/program/services/updaters/__init__.py:84-87 | two adjacent sub-items with equal directories at the head of the run refresh once: dropping the second changes nothing |
| UpdatersProps.AdjacentDuplicateRefreshedOnceAnywhere | src/program/services/updaters/__init__.py:68-89 | two adjacent sub-items with equal directories refresh once wherever they stand in the run: dropping the second changes nothing |
| UpdatersProps.NonAdjacentRepeatRefreshedAgain | src/program/services/updaters/__init__.py:84-87 | a directory, another, then the first again refreshes three times |
| UpdatersProps.SkippedItemIgnored | src/program/services/updaters/__init__.py:69-82 | a sub-item without a path or directory does not reset the last refreshed directory: removing it changes nothing |
| UpdatersProps.RefreshedAtMostMarked | src/program/services/updaters/__init__.py:84-89 | there are never more refreshes than marked sub-items |
| UpdatersProps.RefreshedAreMarked | src/program/services/updaters/__init__.py:84-89 | every refreshed directory is the directory of some marked sub-item |
| UpdatersProps.MarkedAreRefreshed | src/program/services/updaters/__init__.py:84-89 | every marked sub-item's directory is the one refreshed before the list or one the list refreshes; with RefreshedAreMarked, the refreshed directories are exactly the marked ones' |

## Left out

- `default_mount_root`, `default_cache_root` and `default_library_root` are not modelled. They only look up the home directory, the environment and the OS.
- The Plex, Jellyfin and Emby clients are not modelled. A backend is its `initialized` flag and a fixed outcome of `refresh_path`: returns true, returns false or raises. The same backend therefore behaves alike for every path.
- Settings loading is left out. The library root is passed to the constructor, and so is the host OS flag.
- Logging is left out.
- The generator protocol is left out: `run` returns the item once.
- The real calls to `refresh_path` and the `updated = True` assignments are not performed. `Run` returns them as sequences: the marked sub-items, the request strings and the backend calls.
- `getattr` probing and the `TypeError` fallback are left out. Item kinds are a closed datatype, with `OtherType` standing for any type that is not movie, episode, season or show.
- The `except` around `combine_library_path` is left out. The combination is total in the model, so that branch cannot be taken.
- The `Path` branch of `normalize_path` is left out. It is unreachable because `Path` is a `PurePath`.
- Case folding is ASCII lower-casing, not Unicode `casefold`.
- `..` stays an ordinary segment, as it does in pure paths: nothing resolves it.
- Only part of pathlib is modelled:
  - The pathlib rules are those of Python 3.13. In 3.12, `relative_to` first converts a path of the other flavour, so `PurePosixPath('/lib/x').relative_to(PureWindowsPath('\\lib'))` succeeds there.
  - The `\\?\` and `\\.\` device prefixes and the `\\?\UNC\` form are not special-cased.
  - A POSIX path starting with exactly `//` is treated as having the root `/`.
  - `str()` of a relative Windows path whose first segment looks like a drive would get a `.\` prefix; that prefix is not produced.
  - Paths of different flavours are never relative to each other.
- PlatformPathsProps.RelativeToIsSegmentPrefix and AcceptsIsSegmentPrefix are stated for POSIX paths on a POSIX host only.
- PlatformPathsProps.CombineWindowsRelative, CombinePosixRelative and CombinePosixAbsolute are stated only for segments that the library root's flavour reads as plain. Under a Windows-flavoured root, a segment with ':' as its second character (`Q: Into`) is excluded. `joinpath` reads such a segment as the drive `Q:` and, as `ntpath.join` does, switches to that drive. The candidate is then not placed under the library root. `JoinPath` models that switch, but no lemma states the result.
- PlatformPathsProps.WindowsHostMatchIgnoresCase is stated for paths whose segments hold no '\\' and no ':'. Without the second, the POSIX path `x:y` and the Windows path with drive `x:` and segment `y` match although their drives differ.
- PlatformPathsProps.PosixHostMatchIsEquality is stated for well-formed POSIX paths. A Windows path on a POSIX host is compared by PureEq, case-insensitively.
- PlatformPathsExamples.CombineWindowsAbsoluteExample and AsOsPathStringWindowsExample state each test's path as the rendering of its drive and segments, not as a string literal.
- PlatformPathsExamples.AsOsPathStringPosixExample holds on a POSIX host only: a Windows host parses `/mnt/library/shows` as a Windows path, whose OS string uses `\`.
- Updaters.MarkedItems states only that it keeps at most as many items as it is given. Its membership is stated by UpdatersProps.MarkedItemsMembers.
- Updaters.RequestStrings states only its length. Its elements are stated by UpdatersProps.RequestStringsAt.
- `src/tests/test_platform_paths.py` is not modelled itself. Each of its cases is a lemma in `platform_paths_examples.dfy`.

/**
  Cross-platform path algebra: a model of `pathlib`'s pure paths as the
  helpers in `program/utils/platform_paths.py` use them.

  A path carries its own flavour (POSIX or Windows), so that a Windows path
  read on a POSIX host keeps Windows rules.  The host operating system
  (`os.name == "nt"`) is an explicit boolean parameter.
*/
module PlatformPaths {
  import opened Wrappers

  datatype Flavour = Posix | Windows

  /** A parsed pure path: flavour, drive ("" when none, "C:" or a UNC
      "\\server\share"), whether it has a root, and its segments. */
  datatype PurePath = PurePath(flavour: Flavour, drive: string, root: bool, segs: seq<string>)

  /** What the helpers accept: a raw string or an already parsed path. */
  datatype PathLike = Str(raw: string) | Pure(path: PurePath)

  function Sep(f: Flavour): char {
    match f
    case Posix => '/'
    case Windows => '\\'
  }

  // ---------------------------------------------------------------------
  // Character-level helpers
  // ---------------------------------------------------------------------

  /** `s.replace(x, y)` for single characters. */
  function ReplaceChar(s: string, x: char, y: char): (r: string)
    ensures |r| == |s|
    ensures x != y ==> x !in r
  {
    seq(|s|, i requires 0 <= i < |s| => if s[i] == x then y else s[i])
  }

  function LowerChar(c: char): char {
    if 'A' <= c <= 'Z' then (c as int + 32) as char else c
  }

  /** Case folding, restricted to ASCII letters. */
  function Lower(s: string): (r: string)
    ensures |r| == |s|
  {
    seq(|s|, i requires 0 <= i < |s| => LowerChar(s[i]))
  }

  /** `s.find("\\", from)`, with None for -1. */
  function FindSep(s: string, from: nat): (r: Option<nat>)
    ensures r.Some? ==> from <= r.value < |s| && s[r.value] == '\\'
    ensures r.Some? ==> forall k | from <= k < r.value :: s[k] != '\\'
    ensures r.None? ==> forall k | from <= k < |s| :: s[k] != '\\'
    decreases |s| - from
  {
    if from >= |s| then None
    else if s[from] == '\\' then Some(from)
    else FindSep(s, from + 1)
  }

  /** `s.split(sep)`: the pieces between separators, empty ones included. */
  function SplitOn(s: string, sep: char): (r: seq<string>)
    ensures |r| >= 1
  {
    if s == [] then [""]
    else
      var tail := SplitOn(s[1..], sep);
      if s[0] == sep then [""] + tail else [[s[0]] + tail[0]] + tail[1..]
  }

  // ---------------------------------------------------------------------
  // Segments
  // ---------------------------------------------------------------------

  /** A segment pathlib keeps: not empty, not ".", no separator inside. */
  predicate PlainSegment(s: string, sep: char) {
    s != "" && s != "." && sep !in s
  }

  function Emit(cur: string): seq<string> {
    if cur == "" || cur == "." then [] else [cur]
  }

  /** Splits `s` at `sep`, dropping empty and "." pieces; `cur` is the piece
      read so far. */
  function Scan(s: string, sep: char, cur: string): (r: seq<string>)
    requires sep !in cur
    ensures forall x | x in r :: PlainSegment(x, sep)
    decreases |s|
  {
    if s == [] then Emit(cur)
    else if s[0] == sep then Emit(cur) + Scan(s[1..], sep, "")
    else Scan(s[1..], sep, cur + [s[0]])
  }

  function Segments(s: string, sep: char): seq<string> {
    Scan(s, sep, "")
  }

  /** `sep.join(segs)`. */
  function Join(segs: seq<string>, sep: char): string {
    if segs == [] then ""
    else if |segs| == 1 then segs[0]
    else segs[0] + [sep] + Join(segs[1..], sep)
  }

  // ---------------------------------------------------------------------
  // Parsing (PurePosixPath(raw), PureWindowsPath(raw))
  // ---------------------------------------------------------------------

  function ParsePosix(raw: string): PurePath {
    PurePath(Posix, "", |raw| > 0 && raw[0] == '/', Segments(raw, '/'))
  }

  datatype SplitRoot = SplitRoot(drive: string, root: bool, rest: string)

  /** `ntpath.splitroot` on a string whose '/' are already '\\'. */
  function SplitRootWindows(n: string): SplitRoot {
    if |n| >= 1 && n[0] == '\\' then
      if |n| >= 2 && n[1] == '\\' then
        // UNC drive: \\server\share
        match FindSep(n, 2)
        case None => SplitRoot(n, false, "")
        case Some(i) =>
          match FindSep(n, i + 1)
          case None => SplitRoot(n, false, "")
          case Some(j) => SplitRoot(n[..j], true, n[j + 1..])
      else
        SplitRoot("", true, n[1..])
    else if |n| >= 2 && n[1] == ':' then
      if |n| >= 3 && n[2] == '\\' then SplitRoot(n[..2], true, n[3..])
      else SplitRoot(n[..2], false, n[2..])
    else
      SplitRoot("", false, n)
  }

  /** A bare "\\server\share" drive gets a root of its own. */
  predicate UncShareRoot(drive: string) {
    |drive| > 0 && drive[0] == '\\' && drive[|drive| - 1] != '\\' &&
    var parts := SplitOn(drive, '\\');
    |parts| == 4 && parts[2] !in ["", "?", ".", "?."]
  }

  function ParseWindows(raw: string): PurePath {
    var n := ReplaceChar(raw, '/', '\\');
    var sr := SplitRootWindows(n);
    PurePath(Windows, sr.drive, sr.root || UncShareRoot(sr.drive), Segments(sr.rest, '\\'))
  }

  function Parse(f: Flavour, raw: string): PurePath {
    match f
    case Posix => ParsePosix(raw)
    case Windows => ParseWindows(raw)
  }

  // ---------------------------------------------------------------------
  // Rendering (str(p), p.as_posix())
  // ---------------------------------------------------------------------

  function RootString(p: PurePath): string {
    if p.root then [Sep(p.flavour)] else ""
  }

  function Render(p: PurePath): string {
    var s := p.drive + RootString(p) + Join(p.segs, Sep(p.flavour));
    if s == "" then "." else s
  }

  function AsPosix(p: PurePath): string {
    if p.flavour == Windows then ReplaceChar(Render(p), '\\', '/') else Render(p)
  }

  // ---------------------------------------------------------------------
  // Properties of pure paths
  // ---------------------------------------------------------------------

  function Anchor(p: PurePath): string {
    p.drive + RootString(p)
  }

  /** `p.parts`: the anchor (when there is one) followed by the segments. */
  function Parts(p: PurePath): seq<string> {
    (if Anchor(p) == "" then [] else [Anchor(p)]) + p.segs
  }

  predicate IsAbsolute(p: PurePath) {
    match p.flavour
    case Windows => p.drive != "" && p.root
    case Posix => p.root
  }

  function Parent(p: PurePath): PurePath {
    if p.segs == [] then p else p.(segs := p.segs[..|p.segs| - 1])
  }

  /** The ancestor of `p` that keeps its first `k` segments. */
  function Ancestor(p: PurePath, k: nat): PurePath
    requires k <= |p.segs|
  {
    p.(segs := p.segs[..k])
  }

  /** `PurePath.__eq__`: same flavour, and the same string, compared without
      case for Windows paths. */
  function NormCase(p: PurePath): string {
    if p.flavour == Windows then Lower(Render(p)) else Render(p)
  }

  predicate PureEq(a: PurePath, b: PurePath) {
    a.flavour == b.flavour && NormCase(a) == NormCase(b)
  }

  /** `target.relative_to(other)` succeeds: `other` is `target` or one of
      its parents. */
  predicate IsRelativeTo(target: PurePath, other: PurePath) {
    exists k | 0 <= k <= |target.segs| :: PureEq(other, Ancestor(target, k))
  }

  // ---------------------------------------------------------------------
  // The helpers of platform_paths.py
  // ---------------------------------------------------------------------

  /** `normalize_path`: an already parsed path is returned as is; a string
      is parsed with Windows rules on a Windows host, or when it holds a ':'
      or a '\\' anywhere, and with POSIX rules otherwise. */
  function Normalize(hostIsNt: bool, path: PathLike): (p: PurePath)
    ensures path.Str? ==> (p.flavour == Windows <==> hostIsNt || ':' in path.raw || '\\' in path.raw)
  {
    match path
    case Pure(q) => q
    case Str(raw) =>
      if hostIsNt then ParseWindows(raw)
      else if ':' in raw || '\\' in raw then ParseWindows(raw)
      else ParsePosix(raw)
  }

  /** `as_os_path_string`: Windows paths with '\\', POSIX paths with '/',
      whatever the host. */
  function AsOsPathString(hostIsNt: bool, path: PathLike): string {
    var pure := Normalize(hostIsNt, path);
    if pure.flavour == Windows then Render(pure) else AsPosix(pure)
  }

  /** `paths_match`: on a Windows host the two `as_posix` strings are
      compared without case (so flavours mix); elsewhere `==` of pure paths. */
  predicate PathsMatch(hostIsNt: bool, left: PathLike, right: PathLike) {
    var lp := Normalize(hostIsNt, left);
    var rp := Normalize(hostIsNt, right);
    if hostIsNt then Lower(AsPosix(lp)) == Lower(AsPosix(rp)) else PureEq(lp, rp)
  }

  /** One step of `path_is_within`'s loop: the candidate matches the
      target, or the target lies below it. */
  predicate Accepts(hostIsNt: bool, target: PurePath, candidate: PurePath) {
    PathsMatch(hostIsNt, Pure(target), Pure(candidate)) || IsRelativeTo(target, candidate)
  }

  function WithinAny(hostIsNt: bool, target: PurePath, candidates: seq<PathLike>): (r: bool)
    ensures r <==> exists i | 0 <= i < |candidates| :: Accepts(hostIsNt, target, Normalize(hostIsNt, candidates[i]))
  {
    if candidates == [] then false
    else Accepts(hostIsNt, target, Normalize(hostIsNt, candidates[0]))
         || WithinAny(hostIsNt, target, candidates[1..])
  }

  /** `path_is_within`. */
  predicate PathIsWithin(hostIsNt: bool, path: PathLike, candidates: seq<PathLike>) {
    WithinAny(hostIsNt, Normalize(hostIsNt, path), candidates)
  }

  /** Joins one parsed argument onto `base`, as `joinpath` does: a rooted
      argument replaces the root (keeping the base drive when it has none),
      an argument on another drive replaces everything, anything else is
      appended. */
  function JoinPath(base: PurePath, other: PurePath): PurePath {
    if other.root then
      PurePath(base.flavour, if other.drive != "" || base.drive == "" then other.drive else base.drive,
               true, other.segs)
    else if other.drive != "" && Lower(other.drive) != Lower(base.drive) then
      PurePath(base.flavour, other.drive, false, other.segs)
    else
      PurePath(base.flavour, if other.drive != "" then other.drive else base.drive,
               base.root, base.segs + other.segs)
  }

  /** `base.joinpath(*parts)`: each part is parsed with the base's flavour. */
  function JoinParts(base: PurePath, parts: seq<string>): PurePath
    decreases |parts|
  {
    if parts == [] then base
    else JoinParts(JoinPath(base, Parse(base.flavour, parts[0])), parts[1..])
  }

  function DropSeparatorParts(parts: seq<string>): (r: seq<string>)
    ensures forall x | x in r :: x in parts && x != "\\" && x != "/"
    ensures forall x | x in parts && x != "\\" && x != "/" :: x in r
  {
    if parts == [] then []
    else (if parts[0] in {"\\", "/"} then [] else [parts[0]]) + DropSeparatorParts(parts[1..])
  }

  /** `combine_library_path`. */
  function CombineLibraryPath(hostIsNt: bool, libraryRoot: PathLike, filesystemPath: PathLike): PurePath {
    var root := Normalize(hostIsNt, libraryRoot);
    var candidate := Normalize(hostIsNt, filesystemPath);
    if candidate.flavour == Windows then
      if IsAbsolute(candidate) || candidate.drive != "" || (|Anchor(candidate)| >= 2 && Anchor(candidate)[..2] == "\\\\") then
        candidate
      else
        JoinParts(root, DropSeparatorParts(Parts(candidate)))
    else if IsAbsolute(candidate) then
      if PathIsWithin(hostIsNt, Pure(candidate), [Pure(root)]) then candidate
      else JoinParts(root, Parts(candidate)[1..])
    else
      JoinParts(root, Parts(candidate))
  }
}

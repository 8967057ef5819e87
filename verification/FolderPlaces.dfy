/** Which project a session's folder belongs to, and how that place holds over folders and scans. */
module FolderPlaces {
  import opened Wrappers

  type Name = s: string | s != "" witness "a"

  /** An absolute path's components; the file system's root has none. */
  type Path = seq<Name>

  datatype Folder = Folder(path: Path, canonical: Option<Path>, gitRoot: Option<Path>)

  datatype KnownRoot = KnownRoot(root: Path, isGit: bool)

  datatype Place = Project(root: Path) | Gone | NotAProject

  /** What one scan places: the folders, the roots earlier scans found, and what is never a project. */
  datatype Scan = Scan(folders: seq<Folder>, known: seq<KnownRoot>, notProjects: seq<Path>)

  const TEMPORARY_FOLDERS: seq<Path> := [[], ["tmp"], ["var", "tmp"]]

  predicate IsUnder(path: Path, root: Path) {
    root <= path
  }

  function Spelt(path: Path): nat {
    if path == [] then 0 else Spelt(path[..|path| - 1]) + 1 + |path[|path| - 1]|
  }

  /** How long the path is as text: a `/` before each name, and `/` alone for the root. */
  function Length(path: Path): nat {
    if path == [] then 1 else Spelt(path)
  }

  lemma {:induction false} SpeltGrows(a: Path, b: Path)
    requires a <= b
    ensures Spelt(a) + 2 * (|b| - |a|) <= Spelt(b)
  {
    if a != b {
      SpeltGrows(a, b[..|b| - 1]);
    } else {
      assert a == b;
    }
  }

  /** Of two folders that hold one path, the one with the longer text is inside the other. */
  lemma LongerIsDeeper(a: Path, b: Path, path: Path)
    requires IsUnder(path, a) && IsUnder(path, b)
    ensures Length(a) <= Length(b) <==> a <= b
  {
    if |a| <= |b| {
      assert a == path[..|a|] && b == path[..|b|] && a == b[..|a|];
      SpeltGrows(a, b);
    } else {
      assert a == path[..|a|] && b == path[..|b|] && b == a[..|b|];
      SpeltGrows(b, a);
    }
  }

  function Blocked(scan: Scan): seq<Path> {
    scan.notProjects + TEMPORARY_FOLDERS
  }

  function Location(folder: Folder): Path {
    if folder.canonical.Some? then folder.canonical.value else folder.path
  }

  /** The folder's git root, unless that root holds a folder that is never a project. */
  function GitOf(folder: Folder, blocked: seq<Path>): Option<Path> {
    if folder.gitRoot.Some? && !(exists other | other in blocked :: IsUnder(other, folder.gitRoot.value))
    then folder.gitRoot else None
  }

  function ScanRoots(folders: seq<Folder>, blocked: seq<Path>): seq<Path> {
    if folders == [] then []
    else
      var git := GitOf(folders[0], blocked);
      (if git.Some? then [git.value] else []) + ScanRoots(folders[1..], blocked)
  }

  function KnownRoots(known: seq<KnownRoot>, isThere: bool): seq<Path> {
    if known == [] then []
    else (if known[0].isGit || !isThere then [known[0].root] else []) + KnownRoots(known[1..], isThere)
  }

  /** The roots a folder can be under: for one that still exists, only those with git. */
  function Roots(scan: Scan, isThere: bool): seq<Path> {
    KnownRoots(scan.known, isThere) + ScanRoots(scan.folders, Blocked(scan))
  }

  /** Where the folders are that still exist and have no git. */
  function Bare(folders: seq<Folder>, blocked: seq<Path>): seq<Path> {
    if folders == [] then []
    else
      (if folders[0].canonical.Some? && GitOf(folders[0], blocked).None? then [Location(folders[0])] else [])
      + Bare(folders[1..], blocked)
  }

  predicate Holds(root: Path, here: Path, blocked: seq<Path>) {
    root !in blocked && IsUnder(here, root)
  }

  /** The longest text, the last of equals. */
  function Longest(roots: seq<Path>, here: Path, blocked: seq<Path>): Option<Path> {
    if roots == [] then None
    else
      var rest := Longest(roots[1..], here, blocked);
      if Holds(roots[0], here, blocked) && (rest.None? || Length(roots[0]) > Length(rest.value)) then Some(roots[0])
      else rest
  }

  /** The shortest text, the first of equals. */
  function Shortest(roots: seq<Path>, here: Path, blocked: seq<Path>): Option<Path> {
    if roots == [] then None
    else
      var rest := Shortest(roots[1..], here, blocked);
      if Holds(roots[0], here, blocked) && (rest.None? || Length(roots[0]) <= Length(rest.value)) then Some(roots[0])
      else rest
  }

  function PlaceOf(folder: Folder, scan: Scan): Place {
    var here := Location(folder);
    var blocked := Blocked(scan);
    if here in blocked then NotAProject
    else if GitOf(folder, blocked).Some? then Project(GitOf(folder, blocked).value)
    else
      var longest := Longest(Roots(scan, folder.canonical.Some?), here, blocked);
      if longest.Some? then Project(longest.value)
      else if folder.canonical.None? then Gone
      else
        var outermost := Shortest(Bare(scan.folders, blocked), here, blocked);
        Project(if outermost.Some? then outermost.value else here)
  }

  function PlaceFolders(scan: Scan): seq<Place> {
    seq(|scan.folders|, i requires 0 <= i < |scan.folders| => PlaceOf(scan.folders[i], scan))
  }

  // ----- what is listed

  lemma {:induction false} KnownRootsAre(known: seq<KnownRoot>, isThere: bool, root: Path)
    ensures root in KnownRoots(known, isThere)
            <==> exists k | k in known :: k.root == root && (k.isGit || !isThere)
  {
    if known != [] {
      KnownRootsAre(known[1..], isThere, root);
      assert known == [known[0]] + known[1..];
    }
  }

  lemma {:induction false} ScanRootsAre(folders: seq<Folder>, blocked: seq<Path>, root: Path)
    ensures root in ScanRoots(folders, blocked)
            <==> exists f | f in folders :: GitOf(f, blocked) == Some(root)
  {
    hide GitOf;
    if folders != [] {
      ScanRootsAre(folders[1..], blocked, root);
      assert folders == [folders[0]] + folders[1..];
    }
  }

  lemma {:induction false} BareAre(folders: seq<Folder>, blocked: seq<Path>, at: Path)
    ensures at in Bare(folders, blocked)
            <==> exists f | f in folders :: f.canonical == Some(at) && GitOf(f, blocked).None?
  {
    hide GitOf;
    if folders != [] {
      BareAre(folders[1..], blocked, at);
      assert folders == [folders[0]] + folders[1..];
    }
  }

  // ----- the longest is the innermost, the shortest the outermost

  ghost predicate IsInnermost(root: Path, roots: seq<Path>, here: Path, blocked: seq<Path>) {
    && root in roots && Holds(root, here, blocked)
    && forall other | other in roots && Holds(other, here, blocked) :: IsUnder(root, other)
  }

  ghost predicate IsOutermost(root: Path, roots: seq<Path>, here: Path, blocked: seq<Path>) {
    && root in roots && Holds(root, here, blocked)
    && forall other | other in roots && Holds(other, here, blocked) :: IsUnder(other, root)
  }

  ghost predicate NoneHolds(roots: seq<Path>, here: Path, blocked: seq<Path>) {
    forall other | other in roots :: !Holds(other, here, blocked)
  }

  lemma {:induction false} LongestIsInnermost(roots: seq<Path>, here: Path, blocked: seq<Path>)
    ensures var r := Longest(roots, here, blocked);
            if r.Some? then IsInnermost(r.value, roots, here, blocked) else NoneHolds(roots, here, blocked)
  {
    hide Length;
    if roots != [] {
      var rest := Longest(roots[1..], here, blocked);
      LongestIsInnermost(roots[1..], here, blocked);
      if Holds(roots[0], here, blocked) && rest.Some? {
        LongerIsDeeper(roots[0], rest.value, here);
        LongerIsDeeper(rest.value, roots[0], here);
      }
    }
  }

  lemma {:induction false} ShortestIsOutermost(roots: seq<Path>, here: Path, blocked: seq<Path>)
    ensures var r := Shortest(roots, here, blocked);
            if r.Some? then IsOutermost(r.value, roots, here, blocked) else NoneHolds(roots, here, blocked)
  {
    hide Length;
    if roots != [] {
      var rest := Shortest(roots[1..], here, blocked);
      ShortestIsOutermost(roots[1..], here, blocked);
      if Holds(roots[0], here, blocked) && rest.Some? {
        LongerIsDeeper(roots[0], rest.value, here);
        LongerIsDeeper(rest.value, roots[0], here);
      }
    }
  }

  /** Where a folder belongs, said with folders inside folders and no lengths. */
  ghost predicate BelongsAt(folder: Folder, scan: Scan, place: Place) {
    var here := Location(folder);
    var blocked := Blocked(scan);
    var roots := Roots(scan, folder.canonical.Some?);
    if here in blocked then place == NotAProject
    else if GitOf(folder, blocked).Some? then place == Project(GitOf(folder, blocked).value)
    else if !NoneHolds(roots, here, blocked) then
      place.Project? && IsInnermost(place.root, roots, here, blocked)
    else if folder.canonical.None? then place == Gone
    else place.Project? && IsOutermost(place.root, Bare(scan.folders, blocked), here, blocked)
  }

  /** The place given is the one place the folder belongs at. */
  lemma PlaceIsWhereItBelongs(folder: Folder, scan: Scan, place: Place)
    requires folder in scan.folders
    ensures BelongsAt(folder, scan, place) <==> place == PlaceOf(folder, scan)
  {
    hide GitOf, Roots, Bare, Longest, Shortest, Blocked;
    var here, blocked := Location(folder), Blocked(scan);
    LongestIsInnermost(Roots(scan, folder.canonical.Some?), here, blocked);
    ShortestIsOutermost(Bare(scan.folders, blocked), here, blocked);
    BareAre(scan.folders, blocked, here);
  }

  /** Each folder has a place, in order, and it is where the folder belongs. */
  lemma EveryPlaceBelongs(scan: Scan)
    ensures |PlaceFolders(scan)| == |scan.folders|
    ensures forall i | 0 <= i < |scan.folders| :: BelongsAt(scan.folders[i], scan, PlaceFolders(scan)[i])
  {
    hide PlaceOf, BelongsAt;
    forall i | 0 <= i < |scan.folders| ensures BelongsAt(scan.folders[i], scan, PlaceFolders(scan)[i]) {
      PlaceIsWhereItBelongs(scan.folders[i], scan, PlaceFolders(scan)[i]);
    }
  }

  /** Neither the order of the folders nor of the known roots changes any place. */
  lemma PlacesIgnoreOrder(scan: Scan, other: Scan, folder: Folder)
    requires scan.notProjects == other.notProjects
    requires forall f :: f in scan.folders <==> f in other.folders
    requires forall k :: k in scan.known <==> k in other.known
    requires folder in scan.folders
    ensures PlaceOf(folder, scan) == PlaceOf(folder, other)
  {
    var blocked, isThere := Blocked(scan), folder.canonical.Some?;
    forall p ensures p in Roots(scan, isThere) <==> p in Roots(other, isThere) {
      hide GitOf;
      KnownRootsAre(scan.known, isThere, p);
      KnownRootsAre(other.known, isThere, p);
      ScanRootsAre(scan.folders, blocked, p);
      ScanRootsAre(other.folders, blocked, p);
    }
    forall p ensures p in Bare(scan.folders, blocked) <==> p in Bare(other.folders, blocked) {
      hide GitOf;
      BareAre(scan.folders, blocked, p);
      BareAre(other.folders, blocked, p);
    }
    hide GitOf, Roots, Bare, Holds;
    PlaceIsWhereItBelongs(folder, scan, PlaceOf(folder, scan));
    PlaceIsWhereItBelongs(folder, other, PlaceOf(folder, scan));
  }

  // ----- what a root is never

  /** No project's root is home or a temporary folder, whatever git or an earlier scan says. */
  lemma NoRootIsBlocked(folder: Folder, scan: Scan)
    requires folder in scan.folders && PlaceOf(folder, scan).Project?
    ensures PlaceOf(folder, scan).root !in Blocked(scan)
  {
    PlaceIsWhereItBelongs(folder, scan, PlaceOf(folder, scan));
  }

  // ----- in terms of what is given

  /** Home and what else the caller names, and the three temporary folders. */
  ghost predicate IsNeverAProject(scan: Scan, path: Path) {
    path in scan.notProjects || path == [] || path == ["tmp"] || path == ["var", "tmp"]
  }

  /** A git root that holds one of those is no git root. */
  ghost predicate HasGit(scan: Scan, folder: Folder, root: Path) {
    folder.gitRoot == Some(root) && forall path | IsNeverAProject(scan, path) :: !(root <= path)
  }

  lemma BlockedIs(scan: Scan, path: Path)
    ensures path in Blocked(scan) <==> IsNeverAProject(scan, path)
  {
    assert TEMPORARY_FOLDERS[0] == [] && TEMPORARY_FOLDERS[1] == ["tmp"] && TEMPORARY_FOLDERS[2] == ["var", "tmp"];
    assert path in TEMPORARY_FOLDERS <==> path == [] || path == ["tmp"] || path == ["var", "tmp"];
  }

  lemma GitOfIs(scan: Scan, folder: Folder, root: Path)
    ensures GitOf(folder, Blocked(scan)) == Some(root) <==> HasGit(scan, folder, root)
  {
    hide Blocked, IsNeverAProject;
    forall path ensures path in Blocked(scan) <==> IsNeverAProject(scan, path) {
      BlockedIs(scan, path);
    }
  }

  /** The roots a folder can be under, as they are given. */
  lemma RootsAre(scan: Scan, isThere: bool, root: Path)
    ensures root in Roots(scan, isThere) <==>
            || (exists k | k in scan.known :: k.root == root && (k.isGit || !isThere))
            || (exists f | f in scan.folders :: HasGit(scan, f, root))
  {
    hide GitOf, HasGit;
    KnownRootsAre(scan.known, isThere, root);
    ScanRootsAre(scan.folders, Blocked(scan), root);
    forall f: Folder ensures GitOf(f, Blocked(scan)) == Some(root) <==> HasGit(scan, f, root) {
      GitOfIs(scan, f, root);
    }
    hide Blocked;
  }

  /** Where the folder is: its canonical path, or for one that is gone the path it is named by. */
  ghost predicate IsAt(folder: Folder, path: Path) {
    folder.canonical == Some(path) || (folder.canonical == None && folder.path == path)
  }

  /** A folder that is home, the like or temporary is no project, no other is said to be, and none of those is a root. */
  lemma NeverAProject(folder: Folder, scan: Scan, here: Path)
    requires folder in scan.folders && IsAt(folder, here)
    ensures PlaceOf(folder, scan) == NotAProject <==> IsNeverAProject(scan, here)
    ensures forall root :: PlaceOf(folder, scan) == Project(root) ==> !IsNeverAProject(scan, root)
  {
    hide IsNeverAProject, PlaceOf;
    PlaceIsWhereItBelongs(folder, scan, PlaceOf(folder, scan));
    BlockedIs(scan, here);
    if PlaceOf(folder, scan).Project? {
      NoRootIsBlocked(folder, scan);
      BlockedIs(scan, PlaceOf(folder, scan).root);
    }
    hide Blocked, Roots, Bare, GitOf;
  }

  /** Any other folder with git, of a root that holds none of those, is in the project of that root. */
  lemma GitComesFirst(folder: Folder, scan: Scan, here: Path, root: Path)
    requires folder in scan.folders && IsAt(folder, here) && !IsNeverAProject(scan, here) && HasGit(scan, folder, root)
    ensures PlaceOf(folder, scan) == Project(root)
  {
    hide IsNeverAProject, HasGit;
    BlockedIs(scan, here);
    GitOfIs(scan, folder, root);
    hide Blocked, Roots, Bare, GitOf;
  }

  /** A root that may hold the folder: one an earlier scan found, with git for a folder that is there, or one with git
      now; unless it is never a project. */
  ghost predicate IsRootAbove(scan: Scan, folder: Folder, here: Path, root: Path) {
    && !IsNeverAProject(scan, root) && root <= here
    && (|| (exists k | k in scan.known :: k.root == root && (k.isGit || folder.canonical == None))
        || (exists f | f in scan.folders :: HasGit(scan, f, root)))
  }

  /** A listed folder that is there, has no git and may hold the folder. */
  ghost predicate IsBareAbove(scan: Scan, here: Path, path: Path) {
    && !IsNeverAProject(scan, path) && path <= here
    && exists f | f in scan.folders :: f.canonical == Some(path) && forall root :: !HasGit(scan, f, root)
  }

  lemma NoGitIs(scan: Scan, folder: Folder)
    ensures GitOf(folder, Blocked(scan)).None? <==> forall root :: !HasGit(scan, folder, root)
  {
    hide HasGit;
    forall root ensures GitOf(folder, Blocked(scan)) == Some(root) <==> HasGit(scan, folder, root) {
      GitOfIs(scan, folder, root);
    }
    hide GitOf, Blocked;
    if GitOf(folder, Blocked(scan)).Some? {
      assert HasGit(scan, folder, GitOf(folder, Blocked(scan)).value);
    }
  }

  lemma RootAboveIs(scan: Scan, folder: Folder, here: Path, root: Path)
    ensures IsRootAbove(scan, folder, here, root) <==>
            root in Roots(scan, folder.canonical.Some?) && Holds(root, here, Blocked(scan))
  {
    hide HasGit, IsNeverAProject;
    RootsAre(scan, folder.canonical.Some?, root);
    BlockedIs(scan, root);
    hide Roots, Blocked;
  }

  lemma BareAboveIs(scan: Scan, here: Path, path: Path)
    ensures IsBareAbove(scan, here, path) <==>
            path in Bare(scan.folders, Blocked(scan)) && Holds(path, here, Blocked(scan))
  {
    hide HasGit, IsNeverAProject, GitOf;
    BareAre(scan.folders, Blocked(scan), path);
    BlockedIs(scan, path);
    forall f: Folder ensures GitOf(f, Blocked(scan)).None? <==> forall root :: !HasGit(scan, f, root) {
      NoGitIs(scan, f);
    }
    hide Bare, Blocked;
  }

  /** Any folder else: in the project of the root above it that all such roots hold; or gone, when it is and there is
      none; or, when it is there, in that of the listed folder above it that holds all such folders. */
  lemma PlaceExactly(folder: Folder, scan: Scan, here: Path, place: Place)
    requires folder in scan.folders && IsAt(folder, here) && !IsNeverAProject(scan, here)
    requires forall root :: !HasGit(scan, folder, root)
    ensures place == PlaceOf(folder, scan) <==>
            if exists root :: IsRootAbove(scan, folder, here, root) then
              && place.Project? && IsRootAbove(scan, folder, here, place.root)
              && forall other | IsRootAbove(scan, folder, here, other) :: other <= place.root
            else if folder.canonical == None then place == Gone
            else
              && place.Project? && IsBareAbove(scan, here, place.root)
              && forall other | IsBareAbove(scan, here, other) :: place.root <= other
  {
    hide HasGit, IsNeverAProject, IsRootAbove, IsBareAbove;
    PlaceIsWhereItBelongs(folder, scan, place);
    BlockedIs(scan, here);
    NoGitIs(scan, folder);
    forall root ensures IsRootAbove(scan, folder, here, root) <==>
              root in Roots(scan, folder.canonical.Some?) && Holds(root, here, Blocked(scan))
    {
      RootAboveIs(scan, folder, here, root);
    }
    forall path ensures IsBareAbove(scan, here, path) <==>
              path in Bare(scan.folders, Blocked(scan)) && Holds(path, here, Blocked(scan))
    {
      BareAboveIs(scan, here, path);
    }
    hide Roots, Bare, Blocked, GitOf, Holds, PlaceOf;
  }

  // ----- folders that agree

  /** The folder is placed for want of any git: at the outermost folder listed. */
  ghost predicate IsByOutermost(folder: Folder, scan: Scan) {
    && folder in scan.folders && folder.canonical.Some? && Location(folder) !in Blocked(scan)
    && GitOf(folder, Blocked(scan)).None?
    && NoneHolds(Roots(scan, true), Location(folder), Blocked(scan))
  }

  /** A folder placed by the outermost rule has the root of every listed folder with no git that holds it. */
  lemma OutermostAgrees(folder: Folder, above: Folder, scan: Scan)
    requires IsByOutermost(folder, scan)
    requires above in scan.folders && above.canonical.Some? && GitOf(above, Blocked(scan)).None?
    requires Holds(Location(above), Location(folder), Blocked(scan))
    ensures PlaceOf(above, scan) == PlaceOf(folder, scan)
  {
    hide GitOf, Roots, Bare, Blocked, PlaceOf;
    var blocked := Blocked(scan);
    var place := PlaceOf(folder, scan);
    PlaceIsWhereItBelongs(folder, scan, place);
    PlaceIsWhereItBelongs(above, scan, place);
    BareAre(scan.folders, blocked, Location(above));
    assert IsUnder(Location(above), place.root);
    forall other | Holds(other, Location(above), blocked) ensures Holds(other, Location(folder), blocked) {
    }
  }

  /** A root a folder that still exists was placed at is itself placed there, exactly when git does not put it elsewhere. */
  lemma RootIsPlacedAtItself(folder: Folder, root: Folder, scan: Scan)
    requires folder in scan.folders && folder.canonical.Some? && PlaceOf(folder, scan).Project?
    requires root in scan.folders && root.canonical == Some(PlaceOf(folder, scan).root)
    ensures PlaceOf(root, scan) == PlaceOf(folder, scan)
            <==> GitOf(root, Blocked(scan)) in {None, root.canonical}
  {
    var blocked, place := Blocked(scan), PlaceOf(folder, scan);
    NoRootIsBlocked(folder, scan);
    PlaceIsWhereItBelongs(folder, scan, place);
    PlaceIsWhereItBelongs(root, scan, place);
    if GitOf(root, blocked).None? {
      if IsByOutermost(folder, scan) {
        OutermostAgrees(folder, root, scan);
      } else {
        hide GitOf;
        ScanRootsAre(scan.folders, blocked, place.root);
        assert place.root in Roots(scan, true);
      }
    }
  }

  /** Git can put an existing folder's root elsewhere: the shop is a known root, and a worktree of the code. */
  lemma RootCanBeElsewhere() returns (folder: Folder, root: Folder, scan: Scan)
    ensures folder in scan.folders && folder.canonical.Some? && PlaceOf(folder, scan) == Project(["shop"])
    ensures root in scan.folders && root.canonical == Some(["shop"]) && PlaceOf(root, scan) == Project(["code"])
  {
    folder := Folder(["shop", "build"], Some(["shop", "build"]), None);
    root := Folder(["shop"], Some(["shop"]), Some(["code"]));
    var known := [KnownRoot(["shop"], true)];
    scan := Scan([folder, root], known, []);
    OrdinaryIsNotBlocked(scan, ["shop", "build"]);
    OrdinaryIsNotBlocked(scan, ["shop"]);
    OrdinaryHoldsNoneBlocked(scan, ["code"]);
    assert GitOf(root, Blocked(scan)) == Some(["code"]);
    forall p ensures p in Roots(scan, true) <==> p == ["shop"] || p == ["code"] {
      KnownRootsAre(known, true, p);
      ScanRootsAre(scan.folders, Blocked(scan), p);
      assert known[0] in known;
    }
    assert "code"[0] != "shop"[0] && !IsUnder(folder.path, ["code"]);
    assert folder.path[..1] == ["shop"] && IsUnder(folder.path, ["shop"]);
    assert GitOf(folder, Blocked(scan)).None? && GitOf(root, Blocked(scan)).Some?;
    assert IsInnermost(["shop"], Roots(scan, true), folder.path, Blocked(scan));
    hide Roots, Blocked, TEMPORARY_FOLDERS, PlaceOf, GitOf;
    PlaceIsWhereItBelongs(folder, scan, Project(["shop"]));
    PlaceIsWhereItBelongs(root, scan, Project(["code"]));
  }

  lemma OrdinaryIsNotBlocked(scan: Scan, path: Path)
    requires scan.notProjects == [] && path != [] && |path[0]| != 3
    ensures path !in Blocked(scan)
  {
    assert |TEMPORARY_FOLDERS[1][0]| == 3 && |TEMPORARY_FOLDERS[2][0]| == 3;
  }

  lemma OrdinaryHoldsNoneBlocked(scan: Scan, path: Path)
    requires scan.notProjects == [] && path != [] && |path[0]| != 3
    ensures forall other | other in Blocked(scan) :: !IsUnder(other, path)
  {
    forall other | other in Blocked(scan) ensures !IsUnder(other, path) {
      if IsUnder(other, path) {
        assert other[0] == path[0];
        OrdinaryIsNotBlocked(scan, other);
      }
    }
  }

  /**
   * A root a folder that is gone was placed at is placed there itself exactly when git says so, or
   * it has git by a root found, or no root with git and no folder without holds it.
   */
  lemma RootOfGoneIsPlacedAtItself(folder: Folder, root: Folder, scan: Scan)
    requires folder in scan.folders && folder.canonical.None? && PlaceOf(folder, scan).Project?
    requires root in scan.folders && root.canonical == Some(PlaceOf(folder, scan).root)
    ensures var (here, blocked) := (Location(root), Blocked(scan));
            PlaceOf(root, scan) == PlaceOf(folder, scan)
            <==>
            || GitOf(root, blocked) == Some(here)
            || (GitOf(root, blocked).None?
                && (here in Roots(scan, true)
                    || (NoneHolds(Roots(scan, true), here, blocked)
                        && forall other | other in Bare(scan.folders, blocked) && Holds(other, here, blocked) :: other == here)))
  {
    var here, blocked := Location(root), Blocked(scan);
    var place := PlaceOf(folder, scan);
    NoRootIsBlocked(folder, scan);
    PlaceIsWhereItBelongs(root, scan, place);
    BareAre(scan.folders, blocked, here);
  }

  /** A gone folder's root can be in another project: here the notes folder is in its repository. */
  lemma RootOfGoneCanBeElsewhere() returns (folder: Folder, root: Folder, scan: Scan)
    ensures folder in scan.folders && folder.canonical.None? && PlaceOf(folder, scan) == Project(["shop", "notes"])
    ensures root in scan.folders && root.canonical == Some(["shop", "notes"]) && root.gitRoot.None?
    ensures PlaceOf(root, scan) == Project(["shop"])
  {
    folder := Folder(["shop", "notes", "old"], None, None);
    root := Folder(["shop", "notes"], Some(["shop", "notes"]), None);
    var known := [KnownRoot(["shop", "notes"], false), KnownRoot(["shop"], true)];
    scan := Scan([folder, root], known, []);
    forall p
      ensures p in Roots(scan, false) <==> p == ["shop", "notes"] || p == ["shop"]
      ensures p in Roots(scan, true) <==> p == ["shop"]
    {
      RootsWithoutGit(scan, false, p);
      RootsWithoutGit(scan, true, p);
      assert known[0] in known && known[1] in known;
    }
    OrdinaryIsNotBlocked(scan, folder.path);
    OrdinaryIsNotBlocked(scan, ["shop", "notes"]);
    OrdinaryIsNotBlocked(scan, ["shop"]);
    hide Roots, Blocked, TEMPORARY_FOLDERS, PlaceOf;
    PlaceIsWhereItBelongs(folder, scan, Project(["shop", "notes"]));
    PlaceIsWhereItBelongs(root, scan, Project(["shop"]));
  }

  lemma RootsWithoutGit(scan: Scan, isThere: bool, root: Path)
    requires forall f | f in scan.folders :: f.gitRoot.None?
    ensures root in Roots(scan, isThere) <==> exists k | k in scan.known :: k.root == root && (k.isGit || !isThere)
  {
    KnownRootsAre(scan.known, isThere, root);
    ScanRootsAre(scan.folders, Blocked(scan), root);
  }

  // ----- scanning again

  ghost predicate IsFound(root: Path, scan: Scan) {
    exists folder | folder in scan.folders :: folder.canonical.Some? && PlaceOf(folder, scan) == Project(root)
  }

  /** What a scan adds: any roots, but one newly said to have git is the root of a folder that still exists. */
  ghost predicate AreAdded(added: seq<KnownRoot>, scan: Scan) {
    forall k | k in added :: k.isGit ==> IsFound(k.root, scan) || k.root in Roots(scan, true)
  }

  function Again(scan: Scan, added: seq<KnownRoot>): Scan {
    scan.(known := scan.known + added)
  }

  lemma RootsAgain(scan: Scan, added: seq<KnownRoot>, isThere: bool, root: Path)
    ensures root in Roots(Again(scan, added), isThere)
            <==> root in Roots(scan, isThere) || exists k | k in added :: k.root == root && (k.isGit || !isThere)
  {
    KnownRootsAre(scan.known, isThere, root);
    KnownRootsAre(scan.known + added, isThere, root);
  }

  /** An added root that holds a folder is found already, or holds the folder's root, or is it. */
  lemma AddedRootHolds(scan: Scan, folder: Folder, root: Path)
    requires folder in scan.folders && folder.canonical.Some?
    requires Location(folder) !in Blocked(scan) && GitOf(folder, Blocked(scan)).None?
    requires IsFound(root, scan) && Holds(root, Location(folder), Blocked(scan))
    requires root !in Roots(scan, true)
    ensures PlaceOf(folder, scan).Project? && IsUnder(PlaceOf(folder, scan).root, root)
    ensures IsByOutermost(folder, scan) ==> PlaceOf(folder, scan) == Project(root)
  {
    hide GitOf, Roots, Bare, Blocked, PlaceOf;
    var blocked := Blocked(scan);
    var found :| found in scan.folders && found.canonical.Some? && PlaceOf(found, scan) == Project(root);
    FoundIsByOutermost(scan, found);
    BareAre(scan.folders, blocked, root);
    var at :| at in scan.folders && at.canonical == Some(root) && GitOf(at, blocked).None?;
    OutermostAgrees(found, at, scan);
    if IsByOutermost(folder, scan) {
      OutermostAgrees(folder, at, scan);
    } else {
      PlaceIsWhereItBelongs(folder, scan, PlaceOf(folder, scan));
      var inner := PlaceOf(folder, scan).root;
      assert IsUnder(Location(found), inner) || IsUnder(inner, root);
    }
  }

  lemma FoundIsByOutermost(scan: Scan, found: Folder)
    requires found in scan.folders && found.canonical.Some? && PlaceOf(found, scan).Project?
    requires PlaceOf(found, scan).root !in Roots(scan, true)
    ensures IsByOutermost(found, scan)
    ensures IsOutermost(PlaceOf(found, scan).root, Bare(scan.folders, Blocked(scan)), Location(found), Blocked(scan))
  {
    hide GitOf, Bare, Blocked, PlaceOf;
    var root := PlaceOf(found, scan).root;
    PlaceIsWhereItBelongs(found, scan, Project(root));
    ScanRootsAre(scan.folders, Blocked(scan), root);
  }

  /**
   * Scanning again with any roots added, a folder that still exists stays where it was exactly when
   * every added root with git that holds it holds its root too; a folder placed for want of git needs
   * its root to be one of them as soon as there is any.
   */
  lemma ScanningAgainMovesExactly(scan: Scan, added: seq<KnownRoot>, folder: Folder)
    requires folder in scan.folders && folder.canonical.Some?
    requires Location(folder) !in Blocked(scan) && GitOf(folder, Blocked(scan)).None?
    ensures PlaceOf(folder, scan).Project?
    ensures var root := PlaceOf(folder, scan).root;
            PlaceOf(folder, Again(scan, added)) == PlaceOf(folder, scan)
            <==> forall k | k in added && k.isGit && Holds(k.root, Location(folder), Blocked(scan)) ::
                   IsUnder(root, k.root) && (IsByOutermost(folder, scan) ==> KnownRoot(root, true) in added)
  {
    hide GitOf, Roots, Bare, PlaceOf;
    var again, place := Again(scan, added), PlaceOf(folder, scan);
    PlaceIsWhereItBelongs(folder, scan, place);
    PlaceIsWhereItBelongs(folder, again, place);
    forall root
      ensures root in Roots(again, true)
              <==> root in Roots(scan, true) || exists k | k in added :: k.root == root && k.isGit
    {
      RootsAgain(scan, added, true, root);
    }
    forall k | k in added && k.isGit ensures k.root in Roots(again, true) {
    }
  }

  /** Scanning again, with what the scan found now known, leaves every folder that still exists where it was. */
  lemma ScanningAgainMovesNothing(scan: Scan, added: seq<KnownRoot>, folder: Folder)
    requires AreAdded(added, scan)
    requires folder in scan.folders && folder.canonical.Some?
    ensures PlaceOf(folder, Again(scan, added)) == PlaceOf(folder, scan)
  {
    hide GitOf, Roots, Bare;
    var here, blocked := Location(folder), Blocked(scan);
    if here !in blocked && GitOf(folder, blocked).None? {
      hide PlaceOf;
      ScanningAgainMovesExactly(scan, added, folder);
      PlaceIsWhereItBelongs(folder, scan, PlaceOf(folder, scan));
      forall k | k in added && k.isGit && Holds(k.root, here, blocked)
        ensures IsUnder(PlaceOf(folder, scan).root, k.root)
        ensures IsByOutermost(folder, scan) ==> KnownRoot(PlaceOf(folder, scan).root, true) in added
      {
        if k.root !in Roots(scan, true) {
          AddedRootHolds(scan, folder, k.root);
        }
      }
    }
  }

  /** A folder that is gone stays where it was exactly when no added root holds it more closely than its place. */
  lemma ScanningAgainMovesGoneExactly(scan: Scan, added: seq<KnownRoot>, folder: Folder)
    requires folder in scan.folders && folder.canonical.None?
    requires Location(folder) !in Blocked(scan) && GitOf(folder, Blocked(scan)).None?
    ensures PlaceOf(folder, Again(scan, added)) == PlaceOf(folder, scan)
            <==> forall k | k in added && Holds(k.root, Location(folder), Blocked(scan)) ::
                   PlaceOf(folder, scan).Project? && IsUnder(PlaceOf(folder, scan).root, k.root)
  {
    hide GitOf, Roots, Bare, PlaceOf;
    var again, place := Again(scan, added), PlaceOf(folder, scan);
    PlaceIsWhereItBelongs(folder, scan, place);
    PlaceIsWhereItBelongs(folder, again, place);
    forall root
      ensures root in Roots(again, false) <==> root in Roots(scan, false) || exists k | k in added :: k.root == root
    {
      RootsAgain(scan, added, false, root);
    }
    forall k | k in added ensures k.root in Roots(again, false) {
    }
  }

  const QUARTER := Folder(["notes", "year", "quarter"], Some(["notes", "year", "quarter"]), None)
  const OLD := Folder(["notes", "year", "old"], None, None)

  function Notes(): Scan {
    Scan([QUARTER, Folder(["notes"], Some(["notes"]), None), OLD], [KnownRoot(["notes", "year"], false)], [])
  }

  lemma NotesRoots(added: seq<KnownRoot>, p: Path)
    requires added == [KnownRoot(["notes", "year"], true)]
    ensures p !in Roots(Notes(), true)
    ensures p in Roots(Notes(), false) <==> p == ["notes", "year"]
    ensures p in Roots(Again(Notes(), added), true) <==> p == ["notes", "year"]
    ensures p in Bare(Notes().folders, Blocked(Notes())) <==> p == QUARTER.path || p == ["notes"]
  {
    hide Blocked, Roots, Bare;
    var known, folders := Notes().known, Notes().folders;
    RootsWithoutGit(Notes(), true, p);
    RootsWithoutGit(Notes(), false, p);
    RootsWithoutGit(Again(Notes(), added), true, p);
    assert known[0] in known && added[0] in added && folders[0] in folders && folders[1] in folders;
    BareAre(folders, Blocked(Notes()), p);
  }

  lemma NotesAreNotBlocked()
    ensures QUARTER.path !in Blocked(Notes()) && OLD.path !in Blocked(Notes())
    ensures ["notes"] !in Blocked(Notes()) && ["notes", "year"] !in Blocked(Notes())
  {
    OrdinaryIsNotBlocked(Notes(), QUARTER.path);
    OrdinaryIsNotBlocked(Notes(), OLD.path);
    OrdinaryIsNotBlocked(Notes(), ["notes"]);
    OrdinaryIsNotBlocked(Notes(), ["notes", "year"]);
  }

  lemma OldIsInTheYear()
    ensures OLD in Notes().folders && PlaceOf(OLD, Notes()) == Project(["notes", "year"])
  {
    var scan, year := Notes(), ["notes", "year"];
    assert scan.folders[2] == OLD && OLD.path[..2] == year && IsUnder(OLD.path, year);
    forall p ensures p in Roots(scan, false) <==> p == year {
      NotesRoots([KnownRoot(year, true)], p);
    }
    NotesAreNotBlocked();
    assert Location(OLD) == OLD.path && GitOf(OLD, Blocked(scan)).None?;
    hide Roots, Bare, Blocked, TEMPORARY_FOLDERS, PlaceOf, Notes, GitOf;
    assert IsInnermost(year, Roots(scan, false), OLD.path, Blocked(scan));
    PlaceIsWhereItBelongs(OLD, scan, Project(year));
  }

  lemma QuarterIsInTheNotes()
    ensures QUARTER in Notes().folders && PlaceOf(QUARTER, Notes()) == Project(["notes"])
  {
    var scan, notes := Notes(), ["notes"];
    assert scan.folders[0] == QUARTER && QUARTER.path[..1] == notes && IsUnder(QUARTER.path, notes);
    forall p
      ensures p !in Roots(scan, true)
      ensures p in Bare(scan.folders, Blocked(scan)) <==> p == QUARTER.path || p == notes
    {
      NotesRoots([KnownRoot(["notes", "year"], true)], p);
    }
    NotesAreNotBlocked();
    assert Location(QUARTER) == QUARTER.path && GitOf(QUARTER, Blocked(scan)).None?;
    hide Roots, Bare, Blocked, TEMPORARY_FOLDERS, PlaceOf, Notes, GitOf;
    assert NoneHolds(Roots(scan, true), QUARTER.path, Blocked(scan));
    assert IsOutermost(notes, Bare(scan.folders, Blocked(scan)), QUARTER.path, Blocked(scan));
    PlaceIsWhereItBelongs(QUARTER, scan, Project(notes));
  }

  lemma QuarterIsInTheYear(added: seq<KnownRoot>)
    requires added == [KnownRoot(["notes", "year"], true)]
    ensures PlaceOf(QUARTER, Again(Notes(), added)) == Project(["notes", "year"])
  {
    var scan, year := Again(Notes(), added), ["notes", "year"];
    assert scan.folders[0] == QUARTER && QUARTER.path[..2] == year && IsUnder(QUARTER.path, year);
    forall p ensures p in Roots(scan, true) <==> p == year {
      NotesRoots(added, p);
    }
    NotesAreNotBlocked();
    BlockedAgain(Notes(), added);
    assert scan.folders == Notes().folders && QUARTER in scan.folders;
    assert Location(QUARTER) == QUARTER.path && GitOf(QUARTER, Blocked(scan)).None?;
    hide Roots, Bare, Blocked, TEMPORARY_FOLDERS, PlaceOf, Notes, Again, GitOf;
    assert IsInnermost(year, Roots(scan, true), QUARTER.path, Blocked(scan));
    PlaceIsWhereItBelongs(QUARTER, scan, Project(year));
  }

  /** A folder is moved by a root newly said to have git, which only a gone folder was placed at: the quarter's folder
      was in the notes, and is in the year's repository once that is one. */
  lemma NewGitMovesAFolder() returns (added: seq<KnownRoot>)
    ensures QUARTER in Notes().folders && OLD in Notes().folders && added == [KnownRoot(["notes", "year"], true)]
    ensures PlaceOf(OLD, Notes()) == Project(["notes", "year"])
    ensures PlaceOf(QUARTER, Notes()) == Project(["notes"])
    ensures PlaceOf(QUARTER, Again(Notes(), added)) == Project(["notes", "year"])
  {
    hide PlaceOf, Notes;
    added := [KnownRoot(["notes", "year"], true)];
    OldIsInTheYear();
    QuarterIsInTheNotes();
    QuarterIsInTheYear(added);
  }

  lemma BlockedAgain(scan: Scan, added: seq<KnownRoot>)
    ensures Blocked(Again(scan, added)) == Blocked(scan)
  {
  }

  /** A gone folder is found again: nothing held it until the next scan knew the notes folder as a root. */
  lemma ScanningAgainCanFindGone() returns (folder: Folder, scan: Scan, added: seq<KnownRoot>)
    ensures folder in scan.folders && AreAdded(added, scan)
    ensures PlaceOf(folder, scan) == Gone && PlaceOf(folder, Again(scan, added)) == Project(["notes"])
  {
    folder := Folder(["notes", "old"], None, None);
    var notes := Folder(["notes"], Some(["notes"]), None);
    scan := Scan([folder, notes], [], []);
    added := [KnownRoot(["notes"], false)];
    assert AreAdded(added, scan);
    forall p
      ensures p !in Roots(scan, false)
      ensures p in Roots(Again(scan, added), false) <==> p == ["notes"]
    {
      RootsWithoutGit(scan, false, p);
      RootsWithoutGit(Again(scan, added), false, p);
      assert Again(scan, added).known == added && added[0] in added;
    }
    OrdinaryIsNotBlocked(scan, folder.path);
    OrdinaryIsNotBlocked(Again(scan, added), folder.path);
    OrdinaryIsNotBlocked(Again(scan, added), ["notes"]);
    hide Roots, Blocked, TEMPORARY_FOLDERS, PlaceOf;
    PlaceIsWhereItBelongs(folder, scan, Gone);
    PlaceIsWhereItBelongs(folder, Again(scan, added), Project(["notes"]));
  }
}

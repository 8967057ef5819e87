/** Moving a team out of its one repository into a folder of its own: the disk, the steps and a whole try. */
module TeamMove {
  import opened Wrappers
  import opened Texts
  import opened BranchNames

  // ----- the disk

  type Path = string

  /** What a project folder holds beside its marker, team and list; anything else by name. */
  datatype Item = Repository | Documents | Contracts | EventLog | Other(name: string)

  /** A folder: what its `converting` marker says, whether it has a team and lists members, and the rest. */
  datatype Folder = Folder(marker: Option<Path>, hasTeam: bool, isListed: bool, contents: set<Item>)

  const EMPTY := Folder(None, false, false, {})

  /** A worktree of the old repository: the project folder or other folder it is in, and its branch. */
  datatype Worktree = Worktree(folder: Path, branch: string)

  /** A connector key, under the id of the project at `project`. */
  datatype Key = Key(project: Path, name: string)

  datatype World = World(
    folders: map<Path, Folder>,
    note: Option<Path>,             // the old root's `moved-to`
    branches: map<string, string>,  // the old repository's branches, and their tips' subjects
    head: Option<string>,           // what the old root has checked out
    worktrees: set<Worktree>,
    keys: set<Key>)

  /** What is asked: the old root, the project folder, the integration branch's subject, whether
      Catervas keeps anything in git there, the team's keys, and the names git lists. */
  datatype Plan = Plan(root: Path, folder: Path, tip: string, removes: bool, wanted: set<string>, listing: seq<string>)

  const REMOVAL := "catervas/moved-out"

  /** The removal commit's subject; it names the folder, so that a later try knows its own. */
  function RemovalMessage(folder: Path): string {
    "Remove Catervas's files: the team moved to " + folder
  }

  predicate IsRemovalName(name: string) {
    name == REMOVAL || (REMOVAL + "-" <= name && IsU64(name[|REMOVAL| + 1..]))
  }

  function CopiedKeys(plan: Plan, keys: set<Key>): set<Key> {
    set n | n in plan.wanted && Key(plan.root, n) in keys :: Key(plan.folder, n)
  }

  /** `git worktree prune`: a worktree whose folder is gone is forgotten. */
  function Pruned(w: World): World {
    w.(worktrees := set t | t in w.worktrees && t.folder in w.folders)
  }

  predicate IsCheckedOut(w: World, branch: string) {
    w.head == Some(branch) || exists t | t in w.worktrees :: t.branch == branch
  }

  /** `git branch -D`: nothing happens to a branch that is checked out. */
  function BranchDeleted(w: World, branch: string): World {
    if IsCheckedOut(w, branch) then w else w.(branches := w.branches - {branch})
  }

  /** Git's own rules: what is checked out is a branch. And fewer branches than a `u64` counts. */
  ghost predicate IsWorld(w: World) {
    && (forall t | t in w.worktrees :: t.branch in w.branches)
    && (w.head.Some? ==> w.head.value in w.branches)
    && |w.branches| < 0xFFFF_FFFF_FFFF_FFFF
  }

  /** `git for-each-ref` names every local branch, among others. */
  ghost predicate ListsBranches(plan: Plan, w: World) {
    forall b | b in w.branches :: b in plan.listing
  }

  // ----- the free branch

  ghost predicate IsFirstFree(branches: map<string, string>, n: nat) {
    n >= 1 && Candidate(REMOVAL, n) !in branches
    && forall m | 1 <= m < n :: Candidate(REMOVAL, m) in branches
  }

  lemma {:induction false} TakenBelow(branches: map<string, string>, n: nat)
    requires forall m | 1 <= m < n :: Candidate(REMOVAL, m) in branches
    ensures n <= |branches| + 1
    decreases n
  {
    if n > 1 {
      var last := Candidate(REMOVAL, n - 1);
      forall m | 1 <= m < n - 1 ensures Candidate(REMOVAL, m) in branches - {last} {
        if Candidate(REMOVAL, m) == last {
          CandidatesDiffer(REMOVAL, m, n - 1);
        }
      }
      assert |branches - {last}| == |branches| - 1 by {
        assert (branches - {last}).Keys == branches.Keys - {last};
        assert |branches.Keys - {last}| == |branches.Keys| - 1;
      }
      TakenBelow(branches - {last}, n - 1);
    }
  }

  /** Counts up until a candidate is no branch. */
  method FreeBranch(branches: map<string, string>) returns (name: string)
    ensures name !in branches
    ensures exists n: nat :: IsFirstFree(branches, n) && n <= |branches| + 1 && name == Candidate(REMOVAL, n)
  {
    var count := 1;
    name := REMOVAL;
    assert Candidate(REMOVAL, 1) == REMOVAL;
    while name in branches
      invariant count >= 1 && name == Candidate(REMOVAL, count)
      invariant forall m | 1 <= m < count :: Candidate(REMOVAL, m) in branches
      decreases |branches| + 1 - count
    {
      TakenBelow(branches, count + 1);
      count := count + 1;
      name := Candidate(REMOVAL, count);
    }
    TakenBelow(branches, count);
    assert IsFirstFree(branches, count);
  }

  lemma {:induction false} AFirstFree(branches: map<string, string>, n: nat) returns (k: nat)
    requires n >= 1 && forall m | 1 <= m < n :: Candidate(REMOVAL, m) in branches
    ensures IsFirstFree(branches, k)
    decreases |branches| + 1 - n
  {
    hide Candidate;
    TakenBelow(branches, n);
    if Candidate(REMOVAL, n) in branches {
      TakenBelow(branches, n + 1);
      k := AFirstFree(branches, n + 1);
    } else {
      k := n;
    }
  }

  lemma SomeFirstFree(branches: map<string, string>)
    ensures exists n :: IsFirstFree(branches, n)
  {
    var n := AFirstFree(branches, 1);
  }

  lemma FirstFreeIsOne(branches: map<string, string>, n: nat, k: nat)
    requires IsFirstFree(branches, n) && IsFirstFree(branches, k)
    ensures n == k
  {
  }

  ghost function FirstFree(branches: map<string, string>): (name: string)
    ensures exists n :: IsFirstFree(branches, n) && name == Candidate(REMOVAL, n)
    ensures name !in branches
  {
    SomeFirstFree(branches);
    var n :| IsFirstFree(branches, n);
    Candidate(REMOVAL, n)
  }

  lemma PrintedIsU64(n: nat)
    requires n < 0x1_0000_0000_0000_0000
    ensures IsU64(Decimal(n))
  {
    ValueOfDecimal(n);
    assert IsDigit(Decimal(n)[0]);
  }

  lemma CandidateIsRemovalName(n: nat)
    requires 1 <= n < 0x1_0000_0000_0000_0000
    ensures IsRemovalName(Candidate(REMOVAL, n))
  {
    hide IsU64, Decimal;
    if n == 1 {
      assert Candidate(REMOVAL, 1) == REMOVAL;
    } else {
      var dashed := REMOVAL + "-";
      assert Candidate(REMOVAL, n) == dashed + Decimal(n);
      assert Candidate(REMOVAL, n)[|REMOVAL| + 1..] == Decimal(n);
      PrintedIsU64(n);
    }
  }

  /** A name the search makes is one the cleaner knows. */
  lemma FreeNamesAreRemovalNames(w: World)
    requires IsWorld(w)
    ensures IsRemovalName(FirstFree(w.branches))
  {
    hide IsRemovalName;
    var name := FirstFree(w.branches);
    var n: nat :| IsFirstFree(w.branches, n) && name == Candidate(REMOVAL, n);
    TakenBelow(w.branches, n);
    CandidateIsRemovalName(n);
  }

  // ----- the steps

  /** The move's steps, in order: the count and the clearing of a stale move (0), the folder (1), the
      team, keys, documents, members and contracts (2-7), the removal branch (8), the log (9), the
      note (10) and the commit point (11). */
  datatype Step =
    | CountAgain | ClearFolder | ClearWorktrees | ClearBranches | ClearNote
    | MakeFolder | MarkFolder | StartFolder | CopyTeam | CopyTheKeys | MoveDocuments | ListMembers | RewriteContracts
    | PruneAgain | ChooseBranch | AddBranch | CommitRemoval | DropScratch
    | LogMove | WriteNote | RemoveMarker

  function Rank(s: Step): (r: nat)
    ensures r <= 20
  {
    match s
    case CountAgain => 0
    case ClearFolder => 1
    case ClearWorktrees => 2
    case ClearBranches => 3
    case ClearNote => 4
    case MakeFolder => 5
    case MarkFolder => 6
    case StartFolder => 7
    case CopyTeam => 8
    case CopyTheKeys => 9
    case MoveDocuments => 10
    case ListMembers => 11
    case RewriteContracts => 12
    case PruneAgain => 13
    case ChooseBranch => 14
    case AddBranch => 15
    case CommitRemoval => 16
    case DropScratch => 17
    case LogMove => 18
    case WriteNote => 19
    case RemoveMarker => 20
  }

  function Next(s: Step): (t: Option<Step>)
    ensures t.Some? ==> Rank(t.value) == Rank(s) + 1
    ensures t.None? <==> s == RemoveMarker
  {
    match s
    case CountAgain => Some(ClearFolder)
    case ClearFolder => Some(ClearWorktrees)
    case ClearWorktrees => Some(ClearBranches)
    case ClearBranches => Some(ClearNote)
    case ClearNote => Some(MakeFolder)
    case MakeFolder => Some(MarkFolder)
    case MarkFolder => Some(StartFolder)
    case StartFolder => Some(CopyTeam)
    case CopyTeam => Some(CopyTheKeys)
    case CopyTheKeys => Some(MoveDocuments)
    case MoveDocuments => Some(ListMembers)
    case ListMembers => Some(RewriteContracts)
    case RewriteContracts => Some(PruneAgain)
    case PruneAgain => Some(ChooseBranch)
    case ChooseBranch => Some(AddBranch)
    case AddBranch => Some(CommitRemoval)
    case CommitRemoval => Some(DropScratch)
    case DropScratch => Some(LogMove)
    case LogMove => Some(WriteNote)
    case WriteNote => Some(RemoveMarker)
    case RemoveMarker => None
  }

  /** The record an undo works from. */
  datatype Made = Made(folder: Option<Path>, keys: set<Key>, branch: Option<string>, movedTo: bool)

  const NOTHING := Made(None, {}, None, false)

  /** A move under way: the disk, what it made, and whether a stale move of its own was found. */
  datatype Run = Run(w: World, made: Made, ours: bool)

  ghost predicate IsOurs(plan: Plan, w: World) {
    plan.folder in w.folders && w.folders[plan.folder].marker == Some(plan.root)
  }

  ghost predicate IsStale(plan: Plan, w: World, branch: string) {
    && branch in w.branches && IsRemovalName(branch)
    && w.branches[branch] == RemovalMessage(plan.folder)
  }

  /** Deletes the stale branches named, until one of `stuck` or one git refuses; whether it got through. */
  ghost function StaleDeleted(plan: Plan, w: World, names: seq<string>, stuck: set<string>): (World, bool)
    decreases |names|
  {
    if names == [] then (w, true)
    else if !IsStale(plan, w, names[0]) then StaleDeleted(plan, w, names[1..], stuck)
    else if names[0] in stuck || IsCheckedOut(w, names[0]) then (w, false)
    else StaleDeleted(plan, BranchDeleted(w, names[0]), names[1..], stuck)
  }

  ghost function FolderChanged(plan: Plan, w: World, f: Folder): World {
    w.(folders := w.folders[plan.folder := f])
  }

  /** What a step that writes inside the project folder alone makes of it. */
  function FolderStep(plan: Plan, s: Step, f: Folder): Folder {
    match s
    case MarkFolder => f.(marker := Some(plan.root))
    case StartFolder => f.(contents := f.contents + {Repository})
    case CopyTeam => f.(hasTeam := true)
    case MoveDocuments => f.(contents := f.contents + {Documents})
    case ListMembers => f.(isListed := true)
    case RewriteContracts => f.(contents := f.contents + {Contracts})
    case LogMove => f.(contents := f.contents + {EventLog})
    case RemoveMarker => f.(marker := None)
    case _ => f
  }

  /** What a step does when it works; `None` when the source itself refuses. */
  ghost function Effect(plan: Plan, s: Step, run: Run): Option<Run> {
    var w, made := run.w, run.made;
    var here := if plan.folder in w.folders then w.folders[plan.folder] else EMPTY;
    match s
    case CountAgain => Some(run)
    case ClearFolder =>
      var ours := IsOurs(plan, w);
      Some(run.(ours := ours, w := if ours then w.(folders := w.folders - {plan.folder}) else w))
    case ClearWorktrees => Some(run.(w := Pruned(w)))
    case ClearBranches =>
      var (cleared, isThrough) := if run.ours then StaleDeleted(plan, w, plan.listing, {}) else (w, true);
      if isThrough then Some(run.(w := cleared)) else None
    case ClearNote =>
      Some(if run.ours && w.note == Some(plan.folder) then run.(w := w.(note := None)) else run)
    case MakeFolder =>
      if here != EMPTY then None
      else Some(run.(w := FolderChanged(plan, w, EMPTY), made := made.(folder := Some(plan.folder))))
    case CopyTheKeys =>
      var copied := CopiedKeys(plan, w.keys);
      Some(run.(w := w.(keys := w.keys + copied), made := made.(keys := copied)))
    case PruneAgain => Some(if plan.removes then run.(w := Pruned(w)) else run)
    case ChooseBranch =>
      Some(if plan.removes then run.(made := made.(branch := Some(FirstFree(w.branches)))) else run)
    case AddBranch =>
      Some(if made.branch.Some? then
             run.(w := w.(branches := w.branches[made.branch.value := plan.tip],
                          worktrees := w.worktrees + {Worktree(plan.folder, made.branch.value)}))
           else run)
    case CommitRemoval =>
      Some(if made.branch.Some? then
             run.(w := w.(branches := w.branches[made.branch.value := RemovalMessage(plan.folder)]))
           else run)
    case DropScratch => Some(run.(w := ScratchDropped(plan, run)))
    case WriteNote => Some(run.(w := w.(note := Some(plan.folder)), made := made.(movedTo := true)))
    case _ => Some(run.(w := FolderChanged(plan, w, FolderStep(plan, s, here))))
  }

  ghost function ScratchDropped(plan: Plan, run: Run): World {
    if run.made.branch.Some? then
      run.w.(worktrees := run.w.worktrees - {Worktree(plan.folder, run.made.branch.value)})
    else run.w
  }

  // ----- a run that may fail or die at any step

  datatype Fate = Works | Fails | Killed

  datatype UndoStep = TakeNote | PruneFirst | TakeFolder | PruneLast | TakeBranch | TakeKeys

  /** How one try goes: whether the old project's lock is had, each step's fate, where the deletion of
      stale branches stops when it does not work, whether git tidies a commit that failed, and each
      undo step's fate. */
  datatype Trial = Trial(isLocked: bool, fate: Step -> Fate, stuck: set<string>, isTidy: bool, undo: UndoStep -> Fate)

  datatype Outcome = Moved | Failed | Dead

  datatype Progress = Went(run: Run) | Stopped(run: Run, outcome: Outcome)

  /** The removal branch's steps are passed over when Catervas kept nothing in git. */
  predicate IsSkipped(plan: Plan, s: Step) {
    !plan.removes && Rank(PruneAgain) <= Rank(s) <= Rank(DropScratch)
  }

  /** What is left when a step does not work: some stale branches deleted, or a failed commit tidied away. */
  ghost function Broken(plan: Plan, trial: Trial, s: Step, run: Run): Run {
    if s == ClearBranches && run.ours then
      run.(w := StaleDeleted(plan, run.w, plan.listing, trial.stuck).0)
    else if s == CommitRemoval && trial.fate(s) == Fails && trial.isTidy && run.made.branch.Some? then
      run.(w := BranchDeleted(ScratchDropped(plan, run), run.made.branch.value))
    else run
  }

  ghost function Attempt(plan: Plan, trial: Trial, s: Step, run: Run): Progress {
    match trial.fate(s)
    case Killed => Stopped(Broken(plan, trial, s, run), Dead)
    case Fails =>
      if s == ClearNote || IsSkipped(plan, s) then Went(run)
      else Stopped(Broken(plan, trial, s, run), Failed)
    case Works =>
      var after := Effect(plan, s, run);
      if after.Some? then Went(after.value)
      else Stopped(run.(w := if s == ClearBranches then StaleDeleted(plan, run.w, plan.listing, {}).0 else run.w), Failed)
  }

  /** The move from step `s` on. */
  ghost function Forward(plan: Plan, trial: Trial, s: Step, run: Run): (Run, Outcome)
    decreases 20 - Rank(s)
  {
    match Attempt(plan, trial, s, run)
    case Stopped(after, outcome) => (after, outcome)
    case Went(after) => if s == RemoveMarker then (after, Moved) else Forward(plan, trial, Next(s).value, after)
  }

  ghost function UndoEffect(u: UndoStep, w: World, made: Made): World {
    match u
    case TakeNote => if made.movedTo then w.(note := None) else w
    case PruneFirst => if made.folder.Some? then Pruned(w) else w
    case TakeFolder => if made.folder.Some? then w.(folders := w.folders - {made.folder.value}) else w
    case PruneLast => Pruned(w)
    case TakeBranch => if made.branch.Some? then BranchDeleted(w, made.branch.value) else w
    case TakeKeys => w.(keys := w.keys - made.keys)
  }

  /** One undo step; whether the move is still alive after it. A step that fails is passed over. */
  ghost function UndoOne(trial: Trial, u: UndoStep, w: World, made: Made, isAlive: bool): (World, bool) {
    if !isAlive || trial.undo(u) == Killed then (w, false)
    else (if trial.undo(u) == Works then UndoEffect(u, w, made) else w, true)
  }

  /** Everything made taken back, in reverse, as far as it goes. */
  ghost function Undone(trial: Trial, w: World, made: Made): (World, bool) {
    var (w1, a1) := UndoOne(trial, TakeNote, w, made, true);
    var (w2, a2) := UndoOne(trial, PruneFirst, w1, made, a1);
    var (w3, a3) := UndoOne(trial, TakeFolder, w2, made, a2);
    var (w4, a4) := UndoOne(trial, PruneLast, w3, made, a3);
    var (w5, a5) := UndoOne(trial, TakeBranch, w4, made, a4);
    UndoOne(trial, TakeKeys, w5, made, a5)
  }

  /** One try at the move: the disk it leaves, and how it ended. */
  ghost function Convert(plan: Plan, trial: Trial, w: World): (World, Outcome) {
    if !trial.isLocked then (w, Failed)
    else
      var (run, outcome) := Forward(plan, trial, CountAgain, Run(w, NOTHING, false));
      if outcome != Failed then (run.w, outcome)
      else
        var (after, isAlive) := Undone(trial, run.w, run.made);
        (after, if isAlive then Failed else Dead)
  }
}

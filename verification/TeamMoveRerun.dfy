/** A move that is killed and tried again goes through; and exactly when it ends as one that was not killed. */
module TeamMoveRerun {
  import opened Wrappers
  import opened BranchNames
  import opened TeamMove
  import opened TeamMoveHome

  /** No project folder but an empty one, and no worktree in it. */
  ghost predicate IsFresh(plan: Plan, w: World) {
    && plan.root != plan.folder
    && (plan.folder in w.folders ==> w.folders[plan.folder] == EMPTY)
    && (forall t | t in w.worktrees :: t.folder != plan.folder)
  }

  /** Nothing of this move is there: and no branch whose commit names it either. */
  ghost predicate IsClean(plan: Plan, w: World) {
    && IsWorld(w) && IsFresh(plan, w)
    && forall b :: !IsStale(plan, w, b)
  }

  ghost predicate IsSamePlan(plan: Plan, again: Plan) {
    again == plan.(listing := again.listing)
  }

  /** Every step a try reaches works. */
  ghost predicate AllWorks(trial: Trial) {
    trial.isLocked && forall s :: trial.fate(s) == Works
  }

  // ----- a whole move's disk, and the disk before each step

  ghost function LiveWorktrees(w: World): set<Worktree> {
    set t | t in w.worktrees && t.folder in w.folders
  }

  ghost function WithRemoval(plan: Plan, branches: map<string, string>, subject: string): map<string, string> {
    if plan.removes then branches[FirstFree(branches) := subject] else branches
  }

  /** The disk a whole move leaves: the folder made and its marker gone, the note set, one removal branch under
      the first free name, the keys copied, and only worktrees whose folders are there. */
  ghost function FinalDisk(plan: Plan, w: World): World {
    World(w.folders[plan.folder := Folder(None, true, true, {Repository, Documents, Contracts, EventLog})],
          Some(plan.folder), WithRemoval(plan, w.branches, RemovalMessage(plan.folder)), w.head, LiveWorktrees(w),
          w.keys + CopiedKeys(plan, w.keys))
  }

  /** The project folder before step `s`, from `MarkFolder` on. */
  ghost function FolderBefore(plan: Plan, s: Step): Folder {
    Folder(if Rank(s) > Rank(MarkFolder) then Some(plan.root) else None,
           Rank(s) > Rank(CopyTeam), Rank(s) > Rank(ListMembers),
           (if Rank(s) > Rank(StartFolder) then {Repository} else {})
           + (if Rank(s) > Rank(MoveDocuments) then {Documents} else {})
           + (if Rank(s) > Rank(RewriteContracts) then {Contracts} else {})
           + (if Rank(s) > Rank(LogMove) then {EventLog} else {}))
  }

  ghost function BranchesBefore(plan: Plan, w: World, s: Step): map<string, string> {
    if Rank(s) <= Rank(AddBranch) then w.branches
    else WithRemoval(plan, w.branches, if s == CommitRemoval then plan.tip else RemovalMessage(plan.folder))
  }

  ghost function WorktreesBefore(plan: Plan, w: World, s: Step): set<Worktree> {
    LiveWorktrees(w) +
    if plan.removes && (s == CommitRemoval || s == DropScratch) then {Worktree(plan.folder, FirstFree(w.branches))} else {}
  }

  ghost predicate KeysBetween(plan: Plan, w: World, keys: set<Key>) {
    w.keys <= keys <= w.keys + CopiedKeys(plan, w.keys)
  }

  ghost predicate FoldersBefore(plan: Plan, w: World, s: Step, folders: map<Path, Folder>) {
    if s == MakeFolder then
      folders == w.folders || folders == w.folders - {plan.folder} || folders == w.folders[plan.folder := EMPTY]
    else folders == w.folders[plan.folder := FolderBefore(plan, s)]
  }

  ghost predicate GitBefore(plan: Plan, w: World, s: Step, v: World, made: Option<string>) {
    && v.head == w.head
    && made == (if plan.removes && Rank(s) > Rank(ChooseBranch) then Some(FirstFree(w.branches)) else None)
    && v.branches == BranchesBefore(plan, w, s) && v.worktrees == WorktreesBefore(plan, w, s)
  }

  ghost predicate KeysAndNoteBefore(plan: Plan, w: World, s: Step, keys: set<Key>, note: Option<Path>) {
    && KeysBetween(plan, w, keys)
    && (Rank(s) > Rank(CopyTheKeys) ==> keys == w.keys + CopiedKeys(plan, w.keys))
    && (Rank(s) > Rank(WriteNote) ==> note == Some(plan.folder))
  }

  /** The disk before step `s` of a move that works, from `MakeFolder` on. */
  ghost predicate IsBefore(plan: Plan, w: World, s: Step, run: Run) {
    && Rank(s) >= Rank(MakeFolder)
    && FoldersBefore(plan, w, s, run.w.folders)
    && GitBefore(plan, w, s, run.w, run.made.branch)
    && KeysAndNoteBefore(plan, w, s, run.w.keys, run.w.note)
  }

  lemma SameCopies(plan: Plan, w: World, keys: set<Key>)
    requires plan.root != plan.folder && KeysBetween(plan, w, keys)
    ensures CopiedKeys(plan, keys) == CopiedKeys(plan, w.keys)
  {
  }

  lemma FolderGrows(plan: Plan, s: Step)
    requires Rank(MarkFolder) <= Rank(s) < Rank(RemoveMarker)
    ensures FolderBefore(plan, Next(s).value) == FolderStep(plan, s, FolderBefore(plan, s))
    ensures FolderBefore(plan, MarkFolder) == EMPTY
  {
  }

  predicate FolderSteps(s: Step) {
    s == MarkFolder || s == StartFolder || s == CopyTeam || s == MoveDocuments || s == ListMembers
    || s == RewriteContracts || s == LogMove || s == RemoveMarker
  }

  predicate GitSteps(s: Step) {
    s == PruneAgain || s == ChooseBranch || s == AddBranch || s == CommitRemoval || s == DropScratch
  }

  lemma FolderStepBefore(plan: Plan, w: World, s: Step, run: Run)
    requires FoldersBefore(plan, w, s, run.w.folders) && FolderSteps(s) && s != RemoveMarker
    ensures Effect(plan, s, run).Some?
    ensures var after := Effect(plan, s, run).value;
            && after == run.(w := run.w.(folders := after.w.folders))
            && FoldersBefore(plan, w, Next(s).value, after.w.folders)
  {
    hide StaleDeleted, FirstFree, CopiedKeys, Pruned, FolderStep, FolderBefore, RemovalMessage, ScratchDropped, IsOurs;
    FolderGrows(plan, s);
    SetTwice(w.folders, plan.folder, FolderBefore(plan, s), FolderStep(plan, s, FolderBefore(plan, s)));
  }

  lemma MakeFolderBefore(plan: Plan, w: World, run: Run)
    requires FoldersBefore(plan, w, MakeFolder, run.w.folders)
    requires plan.folder in w.folders ==> w.folders[plan.folder] == EMPTY
    ensures Effect(plan, MakeFolder, run).Some?
    ensures var after := Effect(plan, MakeFolder, run).value;
            && after == run.(w := run.w.(folders := after.w.folders), made := run.made.(folder := Some(plan.folder)))
            && FoldersBefore(plan, w, MarkFolder, after.w.folders)
  {
    hide StaleDeleted, FirstFree, CopiedKeys, Pruned;
    FolderGrows(plan, MarkFolder);
  }

  lemma PruneBefore(plan: Plan, w: World, run: Run)
    requires plan.folder in run.w.folders && (forall p | p in w.folders :: p in run.w.folders)
    requires GitBefore(plan, w, PruneAgain, run.w, run.made.branch)
    ensures GitBefore(plan, w, ChooseBranch, Effect(plan, PruneAgain, run).value.w, run.made.branch)
  {
    hide FirstFree, WithRemoval, RemovalMessage;
  }

  lemma ChooseBefore(plan: Plan, w: World, run: Run)
    requires GitBefore(plan, w, ChooseBranch, run.w, run.made.branch)
    ensures GitBefore(plan, w, AddBranch, run.w, Effect(plan, ChooseBranch, run).value.made.branch)
  {
    hide FirstFree, StaleDeleted, CopiedKeys, RemovalMessage, LiveWorktrees, WithRemoval, Pruned, FolderStep;
    assert BranchesBefore(plan, w, ChooseBranch) == w.branches == BranchesBefore(plan, w, AddBranch);
    assert WorktreesBefore(plan, w, ChooseBranch) == WorktreesBefore(plan, w, AddBranch);
    hide BranchesBefore, WorktreesBefore;
  }

  lemma AddBefore(plan: Plan, w: World, run: Run)
    requires GitBefore(plan, w, AddBranch, run.w, run.made.branch)
    ensures GitBefore(plan, w, CommitRemoval, Effect(plan, AddBranch, run).value.w, run.made.branch)
  {
    hide FirstFree, LiveWorktrees;
  }

  lemma SetTwice<K, V>(m: map<K, V>, k: K, a: V, b: V)
    ensures m[k := a][k := b] == m[k := b]
  {
  }

  lemma CommitBefore(plan: Plan, w: World, run: Run)
    requires GitBefore(plan, w, CommitRemoval, run.w, run.made.branch)
    ensures GitBefore(plan, w, DropScratch, Effect(plan, CommitRemoval, run).value.w, run.made.branch)
  {
    hide FirstFree, LiveWorktrees, RemovalMessage;
    if plan.removes {
      SetTwice(w.branches, FirstFree(w.branches), plan.tip, RemovalMessage(plan.folder));
    }
  }

  lemma DropBefore(plan: Plan, w: World, run: Run)
    requires forall t | t in w.worktrees :: t.folder != plan.folder
    requires GitBefore(plan, w, DropScratch, run.w, run.made.branch)
    ensures GitBefore(plan, w, LogMove, Effect(plan, DropScratch, run).value.w, run.made.branch)
  {
    hide FirstFree, RemovalMessage;
    var scratch := Worktree(plan.folder, FirstFree(w.branches));
    assert scratch !in LiveWorktrees(w);
    assert LiveWorktrees(w) + {scratch} - {scratch} == LiveWorktrees(w);
  }

  lemma GitStepBefore(plan: Plan, w: World, s: Step, run: Run)
    requires IsFresh(plan, w) && plan.folder in run.w.folders && (forall p | p in w.folders :: p in run.w.folders)
    requires GitBefore(plan, w, s, run.w, run.made.branch) && GitSteps(s)
    ensures Effect(plan, s, run).Some?
    ensures var after := Effect(plan, s, run).value;
            && after.w == run.w.(branches := after.w.branches, worktrees := after.w.worktrees)
            && GitBefore(plan, w, Next(s).value, after.w, after.made.branch)
  {
    hide FirstFree, GitBefore, IsWorld;
    match s
    case PruneAgain => PruneBefore(plan, w, run);
    case ChooseBranch => ChooseBefore(plan, w, run);
    case AddBranch => AddBefore(plan, w, run);
    case CommitRemoval => CommitBefore(plan, w, run);
    case DropScratch => DropBefore(plan, w, run);
  }

  lemma GitPasses(plan: Plan, w: World, s: Step, v: World, made: Option<string>)
    requires GitBefore(plan, w, s, v, made) && Rank(s) >= Rank(MakeFolder) && !GitSteps(s) && s != RemoveMarker
    ensures GitBefore(plan, w, Next(s).value, v, made)
  {
    hide FirstFree, LiveWorktrees, WithRemoval, RemovalMessage;
  }

  lemma FoldersPass(plan: Plan, w: World, s: Step, folders: map<Path, Folder>)
    requires FoldersBefore(plan, w, s, folders) && (GitSteps(s) || s == CopyTheKeys || s == WriteNote)
    ensures FoldersBefore(plan, w, Next(s).value, folders)
  {
    hide FolderBefore;
    FolderGrows(plan, s);
  }

  lemma KeysAndNotePass(plan: Plan, w: World, s: Step, keys: set<Key>, note: Option<Path>)
    requires KeysAndNoteBefore(plan, w, s, keys, note) && (GitSteps(s) || s == MakeFolder || FolderSteps(s)) && s != RemoveMarker
    ensures KeysAndNoteBefore(plan, w, Next(s).value, keys, note)
  {
  }

  lemma OtherStepBefore(plan: Plan, w: World, s: Step, run: Run)
    requires KeysAndNoteBefore(plan, w, s, run.w.keys, run.w.note) && plan.root != plan.folder
    requires s == CopyTheKeys || s == WriteNote
    ensures Effect(plan, s, run).Some?
    ensures var after := Effect(plan, s, run).value;
            && after.w == run.w.(keys := after.w.keys, note := after.w.note) && after.made.branch == run.made.branch
            && KeysAndNoteBefore(plan, w, Next(s).value, after.w.keys, after.w.note)
  {
    hide StaleDeleted, FirstFree, Pruned;
    if s == CopyTheKeys {
      SameCopies(plan, w, run.w.keys);
    }
  }

  lemma GitIgnoresRest(plan: Plan, w: World, s: Step, v: World, u: World, made: Option<string>)
    requires GitBefore(plan, w, s, v, made) && u.branches == v.branches && u.worktrees == v.worktrees && u.head == v.head
    ensures GitBefore(plan, w, s, u, made)
  {
  }

  lemma StepBefore(plan: Plan, w: World, s: Step, run: Run)
    requires IsBefore(plan, w, s, run) && IsFresh(plan, w) && s != RemoveMarker
    ensures Effect(plan, s, run).Some? && IsBefore(plan, w, Next(s).value, Effect(plan, s, run).value)
  {
    hide FoldersBefore, GitBefore, KeysAndNoteBefore, Effect, IsWorld;
    if GitSteps(s) {
      FoldersHeld(plan, w, s, run.w.folders);
      GitStepBefore(plan, w, s, run);
      FoldersPass(plan, w, s, run.w.folders);
      KeysAndNotePass(plan, w, s, run.w.keys, run.w.note);
    } else {
      GitPasses(plan, w, s, run.w, run.made.branch);
      if s == CopyTheKeys || s == WriteNote {
        OtherStepBefore(plan, w, s, run);
        FoldersPass(plan, w, s, run.w.folders);
      } else {
        KeysAndNotePass(plan, w, s, run.w.keys, run.w.note);
        if s == MakeFolder { MakeFolderBefore(plan, w, run); } else { FolderStepBefore(plan, w, s, run); }
      }
      GitIgnoresRest(plan, w, Next(s).value, run.w, Effect(plan, s, run).value.w, run.made.branch);
    }
  }

  lemma FoldersHeld(plan: Plan, w: World, s: Step, folders: map<Path, Folder>)
    requires FoldersBefore(plan, w, s, folders) && s != MakeFolder
    ensures plan.folder in folders && forall p | p in w.folders :: p in folders
  {
  }

  lemma LastFolder(plan: Plan)
    ensures FolderStep(plan, RemoveMarker, FolderBefore(plan, RemoveMarker)) ==
            Folder(None, true, true, {Repository, Documents, Contracts, EventLog})
  {
  }

  lemma LastStep(plan: Plan, w: World, run: Run)
    requires IsBefore(plan, w, RemoveMarker, run)
    ensures Effect(plan, RemoveMarker, run).Some? && Effect(plan, RemoveMarker, run).value.w == FinalDisk(plan, w)
  {
    hide FirstFree, CopiedKeys, StaleDeleted, LiveWorktrees, FolderStep, FolderBefore, RemovalMessage;
    var before := FolderBefore(plan, RemoveMarker);
    LastFolder(plan);
    SetTwice(w.folders, plan.folder, before, FolderStep(plan, RemoveMarker, before));
  }

  /** From the folder on, a move that works ends at the final disk. */
  lemma {:induction false} WorksToTheEnd(plan: Plan, trial: Trial, w: World, s: Step, run: Run)
    requires AllWorks(trial) && IsFresh(plan, w) && IsBefore(plan, w, s, run)
    ensures var (after, outcome) := Forward(plan, trial, s, run);
            outcome == Moved && after.w == FinalDisk(plan, w)
    decreases 20 - Rank(s)
  {
    hide IsBefore, IsFresh, Effect, FinalDisk;
    if s == RemoveMarker {
      LastStep(plan, w, run);
    } else {
      StepBefore(plan, w, s, run);
      WorksToTheEnd(plan, trial, w, Next(s).value, Effect(plan, s, run).value);
    }
  }

  // ----- what killed moves leave, and clearing it

  /** The project folder is as at the start, cleared, new and empty, or marked as this move's. */
  ghost predicate FoldersLeft(plan: Plan, w: World, folders: map<Path, Folder>) {
    || folders == w.folders || folders == w.folders - {plan.folder} || folders == w.folders[plan.folder := EMPTY]
    || (plan.folder in folders && folders[plan.folder].marker == Some(plan.root)
        && folders == w.folders[plan.folder := folders[plan.folder]])
  }

  ghost predicate HasAll(branches: map<string, string>, start: map<string, string>) {
    forall b | b in start :: b in branches && branches[b] == start[b]
  }

  /** No branch of the start is gone, and a worktree that was not there is the project folder's. */
  ghost predicate GitLeft(plan: Plan, w: World, u: World) {
    && u.head == w.head && HasAll(u.branches, w.branches) && LiveWorktrees(w) <= u.worktrees
    && forall t | t in u.worktrees :: t in w.worktrees ||
         (t.folder == plan.folder && (IsOurs(plan, u) || plan.folder !in u.folders))
  }

  /** What moves killed anywhere, any number of times, may have left of the disk `w`. */
  ghost predicate IsResidue(plan: Plan, w: World, u: World) {
    FoldersLeft(plan, w, u.folders) && GitLeft(plan, w, u) && KeysBetween(plan, w, u.keys)
  }

  /** The branches without the stale ones. */
  ghost function WithoutStale(plan: Plan, u: World): map<string, string> {
    map b | b in u.branches && !IsStale(plan, u, b) :: u.branches[b]
  }

  /** The branches a try that works keeps: a stale one only where the folder does not say it is this move's. */
  ghost function Kept(plan: Plan, u: World): map<string, string> {
    if IsOurs(plan, u) then WithoutStale(plan, u) else u.branches
  }

  ghost function Based(plan: Plan, w: World, u: World): World {
    w.(branches := Kept(plan, u))
  }

  lemma {:induction false} DeletesAllStale(plan: Plan, v: World, names: seq<string>)
    requires forall b | IsStale(plan, v, b) :: b in names && !IsCheckedOut(v, b)
    ensures StaleDeleted(plan, v, names, {}) == (v.(branches := WithoutStale(plan, v)), true)
    decreases |names|
  {
    hide IsCheckedOut;
    if names == [] {
      assert WithoutStale(plan, v) == v.branches;
    } else if !IsStale(plan, v, names[0]) {
      DeletesAllStale(plan, v, names[1..]);
    } else {
      var after := BranchDeleted(v, names[0]);
      OneLessStale(plan, v, names[0]);
      DeletesAllStale(plan, after, names[1..]);
    }
  }

  lemma OneLessStale(plan: Plan, v: World, branch: string)
    requires IsStale(plan, v, branch) && !IsCheckedOut(v, branch)
    ensures var after := BranchDeleted(v, branch);
            && after == v.(branches := v.branches - {branch})
            && WithoutStale(plan, after) == WithoutStale(plan, v)
            && (forall b :: IsStale(plan, after, b) <==> IsStale(plan, v, b) && b != branch)
            && (forall b :: IsCheckedOut(after, b) == IsCheckedOut(v, b))
  {
  }

  /** Whatever stops the deletion, only stale branches are gone. */
  lemma {:induction false} OnlyStaleDeleted(plan: Plan, v: World, names: seq<string>, stuck: set<string>)
    ensures var after := StaleDeleted(plan, v, names, stuck).0;
            && after == v.(branches := after.branches)
            && after.branches.Keys <= v.branches.Keys
            && (forall b | b in after.branches :: after.branches[b] == v.branches[b])
            && (forall b | b in v.branches && b !in after.branches :: IsStale(plan, v, b))
    decreases |names|
  {
    if names != [] && IsStale(plan, v, names[0]) {
      OnlyStaleDeleted(plan, BranchDeleted(v, names[0]), names[1..], stuck);
    } else if names != [] {
      OnlyStaleDeleted(plan, v, names[1..], stuck);
    }
  }

  lemma ResidueFolders(plan: Plan, w: World, u: World)
    requires IsFresh(plan, w) && FoldersLeft(plan, w, u.folders)
    ensures var folders := if IsOurs(plan, u) then u.folders - {plan.folder} else u.folders;
            && FoldersBefore(plan, w, MakeFolder, folders)
            && (forall p | p != plan.folder :: p in folders <==> p in w.folders)
            && (IsOurs(plan, u) ==> plan.folder !in folders)
  {
    if IsOurs(plan, u) {
      assert w.folders[plan.folder := u.folders[plan.folder]] - {plan.folder} == w.folders - {plan.folder};
    }
  }

  lemma ResidueWorktrees(plan: Plan, w: World, u: World, folders: map<Path, Folder>)
    requires IsFresh(plan, w) && GitLeft(plan, w, u)
    requires forall p | p != plan.folder :: p in folders <==> p in w.folders
    requires if IsOurs(plan, u) then plan.folder !in folders else folders == u.folders
    ensures (set t | t in u.worktrees && t.folder in folders) == LiveWorktrees(w)
  {
    hide HasAll;
  }

  lemma LiveAreWorktrees(w: World)
    ensures LiveWorktrees(w) <= w.worktrees
  {
  }

  /** What is checked out was there at the start, so it is not stale. */
  lemma StaleIsNotCheckedOut(plan: Plan, w: World, v: World, branch: string)
    requires IsClean(plan, w) && HasAll(v.branches, w.branches) && v.head == w.head && v.worktrees <= w.worktrees
    requires IsStale(plan, v, branch)
    ensures !IsCheckedOut(v, branch)
  {
    assert branch in w.branches ==> IsStale(plan, w, branch);
  }

  /** Clearing deletes every stale branch. */
  lemma ResidueBranches(plan: Plan, w: World, u: World, v: World)
    requires IsClean(plan, w) && GitLeft(plan, w, u) && ListsBranches(plan, u)
    requires v.branches == u.branches && v.head == u.head && v.worktrees == LiveWorktrees(w)
    ensures StaleDeleted(plan, v, plan.listing, {}) == (v.(branches := WithoutStale(plan, u)), true)
  {
    hide IsClean, IsCheckedOut, StaleDeleted;
    LiveAreWorktrees(w);
    forall b | IsStale(plan, v, b) ensures b in plan.listing && !IsCheckedOut(v, b) {
      StaleIsNotCheckedOut(plan, w, v, b);
    }
    DeletesAllStale(plan, v, plan.listing);
    assert WithoutStale(plan, v) == WithoutStale(plan, u);
  }

  lemma WorksOne(plan: Plan, trial: Trial, s: Step, run: Run)
    requires trial.fate(s) == Works && s != RemoveMarker && Effect(plan, s, run).Some?
    ensures Forward(plan, trial, s, run) == Forward(plan, trial, Next(s).value, Effect(plan, s, run).value)
  {
    hide Effect;
  }

  /** The move's state once the folder and the worktrees are cleared. */
  ghost function FolderCleared(plan: Plan, w: World, u: World): Run {
    var ours := IsOurs(plan, u);
    var folders := if ours then u.folders - {plan.folder} else u.folders;
    Run(u.(folders := folders, worktrees := LiveWorktrees(w)), NOTHING, ours)
  }

  /** The move's state once the stale branches are. */
  ghost function BranchesCleared(plan: Plan, w: World, u: World): Run {
    var run := FolderCleared(plan, w, u);
    run.(w := run.w.(branches := Kept(plan, u)))
  }

  /** The move's state once a stale move is cleared. */
  ghost function AllCleared(plan: Plan, w: World, u: World): Run {
    var run := BranchesCleared(plan, w, u);
    var note := if run.ours && u.note == Some(plan.folder) then None else u.note;
    run.(w := run.w.(note := note))
  }

  lemma ClearsFolder(plan: Plan, w: World, u: World, trial: Trial)
    requires IsFresh(plan, w) && FoldersLeft(plan, w, u.folders) && GitLeft(plan, w, u)
    requires forall s | Rank(s) < Rank(ClearBranches) :: trial.fate(s) == Works
    ensures Forward(plan, trial, CountAgain, Run(u, NOTHING, false)) ==
            Forward(plan, trial, ClearBranches, FolderCleared(plan, w, u))
    ensures FoldersBefore(plan, w, MakeFolder, FolderCleared(plan, w, u).w.folders)
  {
    hide Forward, LiveWorktrees, FoldersLeft, GitLeft, FoldersBefore, StaleDeleted, IsFresh;
    var r0 := Run(u, NOTHING, false);
    var r1 := Effect(plan, ClearFolder, r0).value;
    WorksOne(plan, trial, CountAgain, r0);
    WorksOne(plan, trial, ClearFolder, r0);
    WorksOne(plan, trial, ClearWorktrees, r1);
    ResidueFolders(plan, w, u);
    ResidueWorktrees(plan, w, u, r1.w.folders);
    assert Effect(plan, ClearWorktrees, r1).value == FolderCleared(plan, w, u);
  }

  lemma ClearsBranches(plan: Plan, w: World, u: World, trial: Trial)
    requires IsClean(plan, w) && GitLeft(plan, w, u) && ListsBranches(plan, u)
    requires trial.fate(ClearBranches) == Works
    ensures Forward(plan, trial, ClearBranches, FolderCleared(plan, w, u)) ==
            Forward(plan, trial, ClearNote, BranchesCleared(plan, w, u))
  {
    hide Forward, LiveWorktrees, GitLeft, StaleDeleted, IsClean, WithoutStale;
    var r2 := FolderCleared(plan, w, u);
    if r2.ours {
      ResidueBranches(plan, w, u, r2.w);
    }
    WorksOne(plan, trial, ClearBranches, r2);
  }

  lemma ClearsNote(plan: Plan, w: World, u: World, trial: Trial)
    requires trial.fate(ClearNote) == Works
    ensures Forward(plan, trial, ClearNote, BranchesCleared(plan, w, u)) ==
            Forward(plan, trial, MakeFolder, AllCleared(plan, w, u))
  {
    hide Forward, Kept, LiveWorktrees, IsOurs;
    WorksOne(plan, trial, ClearNote, BranchesCleared(plan, w, u));
  }

  lemma ClearedIsBefore(plan: Plan, w: World, u: World)
    requires u.head == w.head && KeysBetween(plan, w, u.keys)
    requires FoldersBefore(plan, w, MakeFolder, FolderCleared(plan, w, u).w.folders)
    ensures IsBefore(plan, Based(plan, w, u), MakeFolder, AllCleared(plan, w, u))
  {
    hide FirstFree, IsOurs, WithRemoval, RemovalMessage, Kept;
    assert LiveWorktrees(Based(plan, w, u)) == LiveWorktrees(w);
    assert CopiedKeys(plan, Based(plan, w, u).keys) == CopiedKeys(plan, w.keys);
    hide LiveWorktrees, CopiedKeys;
  }

  /** A move that works so far comes to the folder with a stale move cleared. */
  lemma ClearsResidue(plan: Plan, w: World, u: World, trial: Trial)
    requires IsClean(plan, w) && IsResidue(plan, w, u) && ListsBranches(plan, u)
    requires forall s | Rank(s) < Rank(MakeFolder) :: trial.fate(s) == Works
    ensures IsBefore(plan, Based(plan, w, u), MakeFolder, AllCleared(plan, w, u))
    ensures Forward(plan, trial, CountAgain, Run(u, NOTHING, false)) ==
            Forward(plan, trial, MakeFolder, AllCleared(plan, w, u))
  {
    hide IsBefore, FoldersLeft, FoldersBefore, Forward, FolderCleared, BranchesCleared, AllCleared, KeysBetween, IsClean;
    CleanIsFresh(plan, w);
    ClearsFolder(plan, w, u, trial);
    ClearsBranches(plan, w, u, trial);
    ClearsNote(plan, w, u, trial);
    ClearedIsBefore(plan, w, u);
  }

  lemma CleanIsFresh(plan: Plan, w: World)
    requires IsClean(plan, w)
    ensures IsFresh(plan, w) && IsWorld(w)
  {
  }

  // ----- killed, and tried again

  /** The try is killed before step `at`, all before it having worked. */
  ghost predicate IsKilledAt(trial: Trial, at: Step) {
    trial.isLocked && trial.fate(at) == Killed && forall s | Rank(s) < Rank(at) :: trial.fate(s) == Works
  }

  lemma BasedIsFresh(plan: Plan, w: World, u: World)
    requires IsFresh(plan, w)
    ensures IsFresh(plan, Based(plan, w, u))
  {
  }

  /** From whatever killed moves left, a move goes through, and keeps beside its own what branches clearing keeps. */
  lemma WorksFromResidue(plan: Plan, trial: Trial, w: World, u: World)
    requires AllWorks(trial) && IsClean(plan, w) && IsResidue(plan, w, u) && ListsBranches(plan, u)
    ensures Convert(plan, trial, u) == (FinalDisk(plan, Based(plan, w, u)), Moved)
  {
    hide IsClean, IsFresh, IsResidue, IsBefore, FinalDisk, Forward, AllCleared, Based;
    CleanIsFresh(plan, w);
    BasedIsFresh(plan, w, u);
    ClearsResidue(plan, w, u, trial);
    WorksToTheEnd(plan, trial, Based(plan, w, u), MakeFolder, AllCleared(plan, w, u));
  }

  lemma {:induction false} KilledOnTheWay(plan: Plan, trial: Trial, w: World, s: Step, run: Run, at: Step)
    requires IsKilledAt(trial, at) && Rank(s) <= Rank(at)
    requires IsFresh(plan, w) && IsBefore(plan, w, s, run)
    ensures var (after, outcome) := Forward(plan, trial, s, run);
            outcome == Dead && IsBefore(plan, w, at, after)
    decreases 20 - Rank(s)
  {
    hide IsFresh, IsBefore, Effect;
    NotBefore(plan, w, s, run);
    if s == at {
      assert Broken(plan, trial, s, run) == run;
    } else {
      SameRank(s, at);
      StepBefore(plan, w, s, run);
      KilledOnTheWay(plan, trial, w, Next(s).value, Effect(plan, s, run).value, at);
    }
  }

  lemma SameRank(s: Step, t: Step)
    ensures Rank(s) == Rank(t) ==> s == t
  {
  }

  lemma NotBefore(plan: Plan, w: World, s: Step, run: Run)
    requires IsBefore(plan, w, s, run)
    ensures Rank(s) >= Rank(MakeFolder)
  {
  }

  lemma MarkedFolderIsLeft(plan: Plan, w: World, s: Step, u: World)
    requires FoldersBefore(plan, w, s, u.folders) && Rank(s) > Rank(MarkFolder)
    ensures FoldersLeft(plan, w, u.folders) && IsOurs(plan, u)
  {
  }

  lemma NotMarkedBefore(plan: Plan, w: World, s: Step, u: World)
    requires FoldersBefore(plan, w, s, u.folders) && IsFresh(plan, w) && Rank(MakeFolder) <= Rank(s) <= Rank(MarkFolder)
    ensures FoldersLeft(plan, w, u.folders) && !IsOurs(plan, u)
  {
    SameRank(s, MakeFolder);
    SameRank(s, MarkFolder);
    FolderGrows(plan, MarkFolder);
  }

  lemma KeptHasAll(plan: Plan, w: World, u: World)
    requires IsClean(plan, w) && HasAll(u.branches, w.branches)
    ensures HasAll(Kept(plan, u), w.branches)
  {
    forall b | b in w.branches ensures !IsStale(plan, u, b) {
      assert IsStale(plan, u, b) ==> IsStale(plan, w, b);
    }
  }

  lemma BranchesGrow(plan: Plan, w: World, s: Step, start: map<string, string>)
    requires HasAll(w.branches, start)
    ensures HasAll(BranchesBefore(plan, w, s), start)
  {
    hide RemovalMessage;
  }

  lemma BeforeIsResidue(plan: Plan, w: World, u: World, s: Step, run: Run)
    requires IsFresh(plan, w) && HasAll(Kept(plan, u), w.branches) && IsBefore(plan, Based(plan, w, u), s, run)
    ensures IsResidue(plan, w, run.w)
  {
    hide RemovalMessage, FoldersBefore, FoldersLeft, FirstFree, KeysBetween, IsOurs, Kept, IsFresh, HasAll, BranchesBefore;
    var base := Based(plan, w, u);
    BasedIsFresh(plan, w, u);
    SameButBranches(plan, w, u, run.w);
    BranchesGrow(plan, base, s, w.branches);
    LiveAreWorktrees(w);
    if Rank(s) <= Rank(MarkFolder) {
      NotMarkedBefore(plan, base, s, run.w);
    } else {
      MarkedFolderIsLeft(plan, base, s, run.w);
    }
    hide LiveWorktrees, IsBefore;
  }

  lemma SameButBranches(plan: Plan, w: World, u: World, v: World)
    ensures var base := Based(plan, w, u);
            && LiveWorktrees(base) == LiveWorktrees(w) && base.head == w.head
            && KeysBetween(plan, base, v.keys) == KeysBetween(plan, w, v.keys)
            && FoldersLeft(plan, base, v.folders) == FoldersLeft(plan, w, v.folders)
  {
    assert CopiedKeys(plan, Based(plan, w, u).keys) == CopiedKeys(plan, w.keys);
  }

  // ----- killed while clearing

  ghost function FolderGone(plan: Plan, u: World): World {
    if IsOurs(plan, u) then u.(folders := u.folders - {plan.folder}) else u
  }

  /** The disk of a try killed before the clearing step `at`. */
  ghost function KilledClearing(plan: Plan, trial: Trial, w: World, u: World, at: Step): World {
    match at
    case ClearWorktrees => FolderGone(plan, u)
    case ClearBranches =>
      var v := FolderCleared(plan, w, u).w;
      if IsOurs(plan, u) then StaleDeleted(plan, v, plan.listing, trial.stuck).0 else v
    case ClearNote => BranchesCleared(plan, w, u).w
    case _ => u
  }

  lemma KilledClearingIs(plan: Plan, trial: Trial, w: World, u: World, at: Step)
    requires IsClean(plan, w) && IsResidue(plan, w, u) && ListsBranches(plan, u)
    requires IsKilledAt(trial, at) && Rank(at) < Rank(MakeFolder)
    ensures var (run, outcome) := Forward(plan, trial, CountAgain, Run(u, NOTHING, false));
            outcome == Dead && run.w == KilledClearing(plan, trial, w, u, at)
  {
    hide IsClean, StaleDeleted, FoldersLeft, GitLeft, KeysBetween, IsOurs, FoldersBefore, LiveWorktrees, Kept;
    CleanIsFresh(plan, w);
    SameRank(at, CountAgain);
    SameRank(at, ClearFolder);
    SameRank(at, ClearWorktrees);
    SameRank(at, ClearBranches);
    SameRank(at, ClearNote);
    if Rank(at) >= Rank(ClearBranches) {
      hide Forward;
      ClearsFolder(plan, w, u, trial);
      if at == ClearNote {
        ClearsBranches(plan, w, u, trial);
      }
      KilledHere(plan, trial, at, if at == ClearBranches then FolderCleared(plan, w, u) else BranchesCleared(plan, w, u));
    }
  }

  lemma KilledHere(plan: Plan, trial: Trial, s: Step, run: Run)
    requires trial.fate(s) == Killed
    ensures Forward(plan, trial, s, run) == (Broken(plan, trial, s, run), Dead)
  {
    hide Broken;
  }

  lemma ClearingLeavesGit(plan: Plan, trial: Trial, w: World, u: World, at: Step)
    requires IsClean(plan, w) && IsResidue(plan, w, u)
    ensures GitLeft(plan, w, KilledClearing(plan, trial, w, u, at))
  {
    hide StaleDeleted, FoldersLeft, KeysBetween, FirstFree, RemovalMessage, IsRemovalName;
    LiveAreWorktrees(w);
    KeptHasAll(plan, w, u);
    var v := FolderCleared(plan, w, u).w;
    OnlyStaleDeleted(plan, v, plan.listing, trial.stuck);
    forall b | b in w.branches ensures !IsStale(plan, v, b) {
      assert IsStale(plan, v, b) ==> IsStale(plan, w, b);
    }
  }

  lemma ClearingLeavesFolders(plan: Plan, trial: Trial, w: World, u: World, at: Step)
    requires IsResidue(plan, w, u)
    ensures var after := KilledClearing(plan, trial, w, u, at);
            FoldersLeft(plan, w, after.folders) && KeysBetween(plan, w, after.keys)
  {
    hide StaleDeleted, GitLeft;
    OnlyStaleDeleted(plan, FolderCleared(plan, w, u).w, plan.listing, trial.stuck);
    if IsOurs(plan, u) {
      assert w.folders[plan.folder := u.folders[plan.folder]] - {plan.folder} == w.folders - {plan.folder};
    }
  }

  /** A move killed anywhere, on what killed moves left, leaves what killed moves leave. */
  lemma KillLeavesResidue(plan: Plan, trial: Trial, w: World, u: World, at: Step)
    requires IsClean(plan, w) && IsResidue(plan, w, u) && ListsBranches(plan, u) && IsKilledAt(trial, at)
    ensures var (after, outcome) := Convert(plan, trial, u);
            outcome == Dead && IsResidue(plan, w, after)
  {
    hide IsClean, IsFresh, IsBefore, AllCleared, Based, Kept, Forward, FoldersLeft, KeysBetween, KilledClearing;
    CleanIsFresh(plan, w);
    if Rank(at) >= Rank(MakeFolder) {
      ClearsResidue(plan, w, u, trial);
      BasedIsFresh(plan, w, u);
      KilledOnTheWay(plan, trial, Based(plan, w, u), MakeFolder, AllCleared(plan, w, u), at);
      KeptHasAll(plan, w, u);
      BeforeIsResidue(plan, w, u, at, Forward(plan, trial, MakeFolder, AllCleared(plan, w, u)).0);
    } else {
      hide GitLeft;
      KilledClearingIs(plan, trial, w, u, at);
      ClearingLeavesGit(plan, trial, w, u, at);
      ClearingLeavesFolders(plan, trial, w, u, at);
    }
  }

  // ----- exactly when killed moves end the same

  /** Every branch that was not there at the start is a stale one, of a folder that says it is this move's. */
  ghost predicate IsClearable(plan: Plan, w: World, u: World) {
    forall b | b in u.branches && b !in w.branches :: IsOurs(plan, u) && IsStale(plan, u, b)
  }

  lemma ClearableKeepsNone(plan: Plan, w: World, u: World)
    requires IsClean(plan, w) && HasAll(u.branches, w.branches)
    ensures IsClearable(plan, w, u) <==> Kept(plan, u) == w.branches
  {
    KeptHasAll(plan, w, u);
    if IsClearable(plan, w, u) {
      assert Kept(plan, u).Keys == w.branches.Keys;
    }
  }

  lemma OneBranchMore(branches: map<string, string>, name: string, subject: string)
    requires name !in branches
    ensures |branches[name := subject]| == |branches| + 1
  {
    assert branches[name := subject].Keys == branches.Keys + {name};
  }

  lemma {:induction false} SubsetIsNoBigger<T>(a: set<T>, b: set<T>)
    requires a <= b
    ensures |a| <= |b| && (|a| == |b| ==> a == b)
  {
    if x :| x in a {
      SubsetIsNoBigger(a - {x}, b - {x});
    }
  }

  /** Branches kept beyond the start's are there in the end. */
  lemma FinalDisksDiffer(plan: Plan, w: World, u: World)
    requires HasAll(Kept(plan, u), w.branches)
    ensures FinalDisk(plan, Based(plan, w, u)) == FinalDisk(plan, w) <==> Kept(plan, u) == w.branches
  {
    hide Kept, RemovalMessage;
    var base := Based(plan, w, u);
    if FinalDisk(plan, base) == FinalDisk(plan, w) && plan.removes {
      OneBranchMore(w.branches, FirstFree(w.branches), RemovalMessage(plan.folder));
      OneBranchMore(base.branches, FirstFree(base.branches), RemovalMessage(plan.folder));
      assert |base.branches.Keys| == |w.branches.Keys|;
      SubsetIsNoBigger(w.branches.Keys, base.branches.Keys);
    } else if Kept(plan, u) == w.branches {
      assert base == w;
    }
  }

  /** Every try of a list is of the same move and was killed, git listing the branches. */
  ghost predicate AreKills(plan: Plan, w: World, tries: seq<(Plan, Trial)>) {
    forall k | 0 <= k < |tries| ::
      && IsSamePlan(plan, tries[k].0) && ListsBranches(tries[k].0, AfterTries(tries[..k], w))
      && exists at :: IsKilledAt(tries[k].1, at)
  }

  lemma SamePlanSameDisks(plan: Plan, again: Plan, w: World, u: World)
    requires IsSamePlan(plan, again)
    ensures IsResidue(plan, w, u) == IsResidue(again, w, u) && IsClean(plan, w) == IsClean(again, w)
    ensures FinalDisk(plan, w) == FinalDisk(again, w) && Kept(plan, u) == Kept(again, u)
    ensures IsClearable(plan, w, u) == IsClearable(again, w, u)
  {
    assert forall v, b :: IsStale(plan, v, b) == IsStale(again, v, b);
    assert forall keys :: CopiedKeys(plan, keys) == CopiedKeys(again, keys);
    hide IsStale, CopiedKeys, IsRemovalName, RemovalMessage;
  }

  lemma KillsBefore(plan: Plan, w: World, tries: seq<(Plan, Trial)>)
    requires AreKills(plan, w, tries) && tries != []
    ensures AreKills(plan, w, tries[..|tries| - 1])
  {
    var before := tries[..|tries| - 1];
    forall k | 0 <= k < |before| ensures before[..k] == tries[..k] && before[k] == tries[k] {
    }
  }

  lemma {:induction false} ManyKillsLeaveResidue(plan: Plan, w: World, tries: seq<(Plan, Trial)>)
    requires IsClean(plan, w) && AreKills(plan, w, tries)
    ensures IsResidue(plan, w, AfterTries(tries, w))
  {
    hide Convert, IsClean, IsResidue, IsKilledAt;
    if tries == [] {
      CleanIsResidue(plan, w);
    } else {
      var before, last := tries[..|tries| - 1], tries[|tries| - 1];
      KillsBefore(plan, w, tries);
      ManyKillsLeaveResidue(plan, w, before);
      var u := AfterTries(before, w);
      var at :| IsKilledAt(last.1, at);
      SamePlanSameDisks(plan, last.0, w, u);
      KillLeavesResidue(last.0, last.1, w, u, at);
      SamePlanSameDisks(plan, last.0, w, Convert(last.0, last.1, u).0);
    }
  }

  lemma CleanIsResidue(plan: Plan, w: World)
    requires IsClean(plan, w)
    ensures IsResidue(plan, w, w) && IsClearable(plan, w, w) && !IsOurs(plan, w)
  {
  }

  lemma UnkilledMove(plan: Plan, w: World, whole: Trial)
    requires IsClean(plan, w) && ListsBranches(plan, w) && AllWorks(whole)
    ensures Convert(plan, whole, w) == (FinalDisk(plan, w), Moved)
  {
    hide Convert, IsResidue, FinalDisk, AllWorks, ListsBranches, IsClean;
    CleanIsResidue(plan, w);
    WorksFromResidue(plan, whole, w, w);
    assert Based(plan, w, w) == w;
  }

  lemma ResidueHasAll(plan: Plan, w: World, u: World)
    requires IsResidue(plan, w, u)
    ensures HasAll(u.branches, w.branches)
  {
  }

  /** A move killed any number of times, at any moments, and then tried again always goes through; and it reaches
      the very disk of an unkilled move exactly when the kills left no branch but stale ones of a marked folder. */
  lemma KilledMovesEndExactly(plan: Plan, w: World, tries: seq<(Plan, Trial)>, again: Plan, trial: Trial, whole: Trial)
    requires IsClean(plan, w) && ListsBranches(plan, w) && AreKills(plan, w, tries)
    requires IsSamePlan(plan, again) && ListsBranches(again, AfterTries(tries, w)) && AllWorks(trial) && AllWorks(whole)
    ensures Convert(again, trial, AfterTries(tries, w)).1 == Moved
    ensures Convert(again, trial, AfterTries(tries, w)) == Convert(plan, whole, w) <==>
            IsClearable(plan, w, AfterTries(tries, w))
  {
    hide Convert, IsClean, IsResidue, FinalDisk, AllWorks, ListsBranches, IsClearable, Kept;
    var u := AfterTries(tries, w);
    ManyKillsLeaveResidue(plan, w, tries);
    SamePlanSameDisks(plan, again, w, u);
    WorksFromResidue(again, trial, w, u);
    UnkilledMove(plan, w, whole);
    ResidueHasAll(plan, w, u);
    KeptHasAll(again, w, u);
    ClearableKeepsNone(again, w, u);
    FinalDisksDiffer(again, w, u);
  }

  // ----- exactly which kill matters

  /** Killed between the removal branch and its commit: the branch has a subject clearing does not know. */
  ghost predicate LeavesBareBranch(plan: Plan, at: Step) {
    at == CommitRemoval && plan.removes && plan.tip != RemovalMessage(plan.folder)
  }

  /** Killed once the folder's mark is gone and while a stale branch is still there. */
  ghost predicate LeavesStaleBranch(plan: Plan, at: Step, after: World) {
    (at == ClearWorktrees || at == ClearBranches) && exists b :: IsStale(plan, after, b)
  }

  lemma ClearingIsClearable(plan: Plan, trial: Trial, w: World, u: World, at: Step)
    requires IsClean(plan, w) && IsResidue(plan, w, u) && IsClearable(plan, w, u) && Rank(at) < Rank(MakeFolder)
    ensures var after := KilledClearing(plan, trial, w, u, at);
            IsClearable(plan, w, after) <==> !LeavesStaleBranch(plan, at, after)
  {
    hide StaleDeleted, FoldersLeft, KeysBetween, RemovalMessage, IsRemovalName, LiveWorktrees;
    var v := FolderCleared(plan, w, u).w;
    OnlyStaleDeleted(plan, v, plan.listing, trial.stuck);
    ClearableKeepsNone(plan, w, u);
    var after := KilledClearing(plan, trial, w, u, at);
    if at == ClearWorktrees || at == ClearBranches {
      GoneIsClearable(plan, w, u, after);
    } else {
      SameRank(at, CountAgain);
      SameRank(at, ClearFolder);
      SameRank(at, ClearNote);
    }
  }

  lemma GoneIsClearable(plan: Plan, w: World, u: World, after: World)
    requires IsClean(plan, w) && HasAll(u.branches, w.branches) && IsClearable(plan, w, u)
    requires !IsOurs(plan, after) && after.branches.Keys <= u.branches.Keys
    requires forall b | b in after.branches :: after.branches[b] == u.branches[b]
    ensures IsClearable(plan, w, after) <==> forall b :: !IsStale(plan, after, b)
  {
    hide RemovalMessage, IsRemovalName;
    forall b | IsStale(plan, after, b) ensures b !in w.branches {
      assert b in w.branches ==> IsStale(plan, w, b);
    }
    forall b | b in after.branches && b !in w.branches ensures IsStale(plan, after, b) {
      assert IsStale(plan, u, b);
    }
  }

  lemma MovingIsClearable(plan: Plan, w: World, at: Step, run: Run)
    requires IsClean(plan, w) && IsBefore(plan, w, at, run)
    ensures IsClearable(plan, w, run.w) <==> !LeavesBareBranch(plan, at)
  {
    hide FirstFree, RemovalMessage, IsRemovalName, FoldersBefore, KeysAndNoteBefore, WorktreesBefore, IsOurs, IsFresh;
    if Rank(at) > Rank(AddBranch) && plan.removes {
      MarkedFolderIsLeft(plan, w, at, run.w);
      var subject := if at == CommitRemoval then plan.tip else RemovalMessage(plan.folder);
      assert run.w.branches == WithRemoval(plan, w.branches, subject);
      hide IsBefore;
      OneExtraIsClearable(plan, w, run.w, subject);
    } else {
      assert run.w.branches == w.branches;
    }
  }

  lemma OneExtraIsClearable(plan: Plan, w: World, u: World, subject: string)
    requires plan.removes && IsClean(plan, w) && IsOurs(plan, u)
    requires u.branches == WithRemoval(plan, w.branches, subject)
    ensures IsClearable(plan, w, u) <==> subject == RemovalMessage(plan.folder)
  {
    hide FirstFree, RemovalMessage, IsRemovalName, IsOurs;
    var b := FirstFree(w.branches);
    FreeNamesAreRemovalNames(w);
    assert IsStale(plan, u, b) <==> subject == RemovalMessage(plan.folder);
    assert forall c :: c in u.branches && c !in w.branches <==> c == b;
  }

  /** On what killed moves left and the next would clear, a kill leaves more than the next clears exactly when it
      was between the removal branch and its commit, or while clearing with the stale branch still there. */
  lemma KillMattersFromResidue(plan: Plan, killed: Trial, w: World, u: World, at: Step)
    requires IsClean(plan, w) && IsResidue(plan, w, u) && IsClearable(plan, w, u) && ListsBranches(plan, u)
    requires IsKilledAt(killed, at)
    ensures var after := Convert(plan, killed, u).0;
            IsClearable(plan, w, after) <==> !LeavesBareBranch(plan, at) && !LeavesStaleBranch(plan, at, after)
  {
    hide IsClean, IsFresh, IsBefore, AllCleared, Forward, IsClearable, KilledClearing, IsStale, RemovalMessage, Kept;
    CleanIsFresh(plan, w);
    ResidueHasAll(plan, w, u);
    hide IsResidue;
    if Rank(at) >= Rank(MakeFolder) {
      ClearsResidue(plan, w, u, killed);
      ClearableKeepsNone(plan, w, u);
      assert Based(plan, w, u) == w;
      KilledOnTheWay(plan, killed, w, MakeFolder, AllCleared(plan, w, u), at);
      MovingIsClearable(plan, w, at, Forward(plan, killed, MakeFolder, AllCleared(plan, w, u)).0);
    } else {
      KilledClearingIs(plan, killed, w, u, at);
      ClearingIsClearable(plan, killed, w, u, at);
    }
  }

  /** From a clean start, a move killed before any step and tried again goes through; and it ends as an
      unkilled move does unless, and only unless, it was killed between the removal branch and its commit. */
  lemma KillMattersExactly(plan: Plan, killed: Trial, w: World, at: Step, again: Plan, trial: Trial)
    requires IsClean(plan, w) && ListsBranches(plan, w) && IsKilledAt(killed, at)
    requires IsSamePlan(plan, again) && ListsBranches(again, Convert(plan, killed, w).0) && AllWorks(trial)
    ensures Convert(plan, trial, w) == (FinalDisk(plan, w), Moved)
    ensures Convert(again, trial, Convert(plan, killed, w).0).1 == Moved
    ensures Convert(again, trial, Convert(plan, killed, w).0) == Convert(plan, trial, w) <==>
            !(at == CommitRemoval && plan.removes && plan.tip != RemovalMessage(plan.folder))
  {
    hide Convert, IsClean, IsResidue, FinalDisk, AllWorks, ListsBranches, RemovalMessage, IsKilledAt, IsClearable, IsStale;
    var tries := [(plan, killed)];
    assert tries[..0] == [] && AfterTries([], w) == w;
    var u := Convert(plan, killed, w).0;
    assert AfterTries(tries, w) == u;
    UnkilledMove(plan, w, trial);
    CleanIsResidue(plan, w);
    KilledMovesEndExactly(plan, w, tries, again, trial, trial);
    KillMattersFromResidue(plan, killed, w, w, at);
    NoStaleAfterClearing(plan, killed, w, at);
  }

  lemma NoStaleAfterClearing(plan: Plan, killed: Trial, w: World, at: Step)
    requires IsClean(plan, w) && ListsBranches(plan, w) && IsKilledAt(killed, at)
    ensures !LeavesStaleBranch(plan, at, Convert(plan, killed, w).0)
  {
    hide IsStale, StaleDeleted, IsClean, ListsBranches, IsResidue, Forward, IsClearable;
    if at == ClearWorktrees || at == ClearBranches {
      CleanIsResidue(plan, w);
      KilledClearingIs(plan, killed, w, w, at);
      SameBranchesNoStale(plan, w, KilledClearing(plan, killed, w, w, at));
    }
  }

  lemma SameBranchesNoStale(plan: Plan, w: World, v: World)
    requires IsClean(plan, w) && v.branches == w.branches
    ensures forall b :: !IsStale(plan, v, b)
  {
    assert forall b :: IsStale(plan, v, b) ==> IsStale(plan, w, b);
  }

  /** The try is of the same move, git listing the branches, and was killed where it does not matter. */
  ghost predicate IsSafeKill(plan: Plan, before: World, try: (Plan, Trial), after: World) {
    && IsSamePlan(plan, try.0) && ListsBranches(try.0, before)
    && exists at :: IsKilledAt(try.1, at) && !LeavesBareBranch(plan, at) && !LeavesStaleBranch(plan, at, after)
  }

  ghost predicate AreSafeKills(plan: Plan, w: World, tries: seq<(Plan, Trial)>) {
    forall k | 0 <= k < |tries| :: IsSafeKill(plan, AfterTries(tries[..k], w), tries[k], AfterTries(tries[..k + 1], w))
  }

  lemma SafeKillsBefore(plan: Plan, w: World, tries: seq<(Plan, Trial)>)
    requires AreSafeKills(plan, w, tries) && tries != []
    ensures AreSafeKills(plan, w, tries[..|tries| - 1])
    ensures IsSafeKill(plan, AfterTries(tries[..|tries| - 1], w), tries[|tries| - 1], AfterTries(tries, w))
  {
    hide IsSafeKill, AfterTries;
    var before := tries[..|tries| - 1];
    forall k | 0 <= k < |before|
      ensures IsSafeKill(plan, AfterTries(before[..k], w), before[k], AfterTries(before[..k + 1], w))
    {
      assert before[..k] == tries[..k] && before[k] == tries[k] && before[..k + 1] == tries[..k + 1];
    }
    assert tries[..|tries| - 1 + 1] == tries;
  }

  lemma SafeKillIsKill(plan: Plan, before: World, try: (Plan, Trial), after: World) returns (at: Step)
    requires IsSafeKill(plan, before, try, after)
    ensures IsKilledAt(try.1, at) && !LeavesBareBranch(try.0, at) && !LeavesStaleBranch(try.0, at, after)
  {
    hide IsKilledAt;
    at :| IsKilledAt(try.1, at) && !LeavesBareBranch(plan, at) && !LeavesStaleBranch(plan, at, after);
    assert forall b :: IsStale(plan, after, b) == IsStale(try.0, after, b);
  }

  lemma {:induction false} SafeKillsStayClearable(plan: Plan, w: World, tries: seq<(Plan, Trial)>)
    requires IsClean(plan, w) && AreSafeKills(plan, w, tries)
    ensures AreKills(plan, w, tries)
    ensures IsResidue(plan, w, AfterTries(tries, w)) && IsClearable(plan, w, AfterTries(tries, w))
  {
    hide Convert, IsClean, IsResidue, IsClearable, IsKilledAt, AreSafeKills, LeavesBareBranch, LeavesStaleBranch, ListsBranches;
    if tries == [] {
      CleanIsResidue(plan, w);
    } else {
      var before, last := tries[..|tries| - 1], tries[|tries| - 1];
      SafeKillsBefore(plan, w, tries);
      SafeKillsStayClearable(plan, w, before);
      var u, after := AfterTries(before, w), AfterTries(tries, w);
      var at := SafeKillIsKill(plan, u, last, after);
      SamePlanSameDisks(plan, last.0, w, u);
      KillMattersFromResidue(last.0, last.1, w, u, at);
      KillLeavesResidue(last.0, last.1, w, u, at);
      SamePlanSameDisks(plan, last.0, w, after);
      forall k | 0 <= k < |before| ensures before[..k] == tries[..k] && before[k] == tries[k] {
      }
    }
  }

  /** A move killed any number of times where it does not matter, and then tried again, reaches the very disk an
      unkilled move does. */
  lemma KilledMovesEndTheSame(plan: Plan, w: World, tries: seq<(Plan, Trial)>, again: Plan, trial: Trial, whole: Trial)
    requires IsClean(plan, w) && ListsBranches(plan, w) && AreSafeKills(plan, w, tries)
    requires IsSamePlan(plan, again) && ListsBranches(again, AfterTries(tries, w)) && AllWorks(trial) && AllWorks(whole)
    ensures Convert(again, trial, AfterTries(tries, w)) == Convert(plan, whole, w) == (FinalDisk(plan, w), Moved)
  {
    hide Convert, IsClean, IsResidue, FinalDisk, AllWorks, ListsBranches, IsClearable, AreSafeKills, AreKills;
    SafeKillsStayClearable(plan, w, tries);
    KilledMovesEndExactly(plan, w, tries, again, trial, whole);
    UnkilledMove(plan, w, whole);
  }

  /** A try killed between clearing the stale folder and clearing the stale branch leaves that branch for good:
      the next try no longer knows it as its own, and makes a second one. */
  lemma KillWhileClearingLeavesABranch(plan: Plan, w: World, u: World, killed: Trial, trial: Trial)
    requires plan.removes && IsClean(plan, w) && IsResidue(plan, w, u) && ListsBranches(plan, u)
    requires IsOurs(plan, u) && u.branches == WithRemoval(plan, w.branches, RemovalMessage(plan.folder))
    requires IsKilledAt(killed, ClearWorktrees) && AllWorks(trial)
    ensures var (after, outcome) := Convert(plan, trial, Convert(plan, killed, u).0);
            && outcome == Moved
            && |after.branches| == |w.branches| + 2 && |FinalDisk(plan, w).branches| == |w.branches| + 1
  {
    var v := FolderGone(plan, u);
    assert Convert(plan, killed, u).0 == v && IsResidue(plan, w, v) by {
      hide Forward, IsClean, FoldersLeft;
      KilledClearingIs(plan, killed, w, u, ClearWorktrees);
      KillLeavesResidue(plan, killed, w, u, ClearWorktrees);
    }
    hide Convert, IsResidue, RemovalMessage, IsClean, AllWorks;
    WorksFromResidue(plan, trial, w, v);
    OneBranchMore(w.branches, FirstFree(w.branches), RemovalMessage(plan.folder));
    OneBranchMore(u.branches, FirstFree(u.branches), RemovalMessage(plan.folder));
  }
}

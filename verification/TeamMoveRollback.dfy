/** What a failed move leaves: everything it made is accounted for, so taking that back restores the
    disk but for what belonged to an earlier, stale try. */
module TeamMoveRollback {
  import opened Wrappers
  import opened TeamMove

  // ----- what a run has changed, and who answers for it

  /** The folder may be replaced: it is not there, it is empty, or it is a stale try's. */
  ghost predicate IsReplaceable(plan: Plan, w: World) {
    plan.folder in w.folders ==> w.folders[plan.folder] == EMPTY || IsOurs(plan, w)
  }

  ghost predicate FoldersAccounted(plan: Plan, start: World, folders: map<Path, Folder>, made: Option<Path>) {
    && folders - {plan.folder} == start.folders - {plan.folder}
    && if made.Some? then made.value == plan.folder && IsReplaceable(plan, start)
       else folders == start.folders || (IsOurs(plan, start) && plan.folder !in folders)
  }

  /** A branch of the start, of a stale try of this same move. */
  ghost predicate IsOldStale(plan: Plan, start: World, branch: string) {
    IsOurs(plan, start) && IsStale(plan, start, branch)
  }

  ghost predicate GitAccounted(plan: Plan, start: World, branches: map<string, string>, worktrees: set<Worktree>,
                               made: Option<string>) {
    && (forall b | b in branches && made != Some(b) :: b in start.branches && branches[b] == start.branches[b])
    && (forall b | b in start.branches && b !in branches :: IsOldStale(plan, start, b))
    && (made.Some? && made.value in start.branches ==> IsOldStale(plan, start, made.value))
    && (start.head.Some? ==> start.head.value in branches && made != start.head)
    && (forall t | t in worktrees :: t.branch in branches)
    && (forall t | t in worktrees :: if made == Some(t.branch) then t.folder == plan.folder else t in start.worktrees)
  }

  /** Of the start's worktrees whose folders were there, only one in the project folder can be gone, and only once
      that folder has been cleared or made anew. */
  ghost predicate WorktreesKept(plan: Plan, start: World, w: World, made: Option<Path>) {
    forall t | t in start.worktrees && t.folder in start.folders && t !in w.worktrees ::
      t.folder == plan.folder && (made.Some? || plan.folder !in w.folders)
  }

  ghost predicate KeysAccounted(plan: Plan, start: World, keys: set<Key>, made: set<Key>) {
    keys == start.keys + made && (made == {} || made == CopiedKeys(plan, start.keys))
  }

  /** The note a stale try left is cleared; any other stays until the move writes its own. */
  ghost predicate NoteAccounted(plan: Plan, start: World, note: Option<Path>, movedTo: bool) {
    if movedTo then note == Some(plan.folder)
    else note == start.note || (note == None && IsOurs(plan, start) && start.note == Some(plan.folder))
  }

  /** Every difference between the disk and the one the move started on is one it made, or a stale try's. */
  ghost predicate IsAccounted(plan: Plan, start: World, run: Run) {
    && run.w.head == start.head && (run.ours ==> IsOurs(plan, start))
    && (run.made.branch.Some? ==> run.made.folder.Some?)
    && FoldersAccounted(plan, start, run.w.folders, run.made.folder)
    && GitAccounted(plan, start, run.w.branches, run.w.worktrees, run.made.branch)
    && WorktreesKept(plan, start, run.w, run.made.folder)
    && KeysAccounted(plan, start, run.w.keys, run.made.keys)
    && NoteAccounted(plan, start, run.w.note, run.made.movedTo)
  }

  /** What has been made before step `s`. */
  ghost predicate IsAt(s: Step, made: Made) {
    && (made.folder.Some? <==> Rank(s) > Rank(MakeFolder))
    && (Rank(s) <= Rank(ChooseBranch) ==> made.branch == None)
    && (Rank(s) <= Rank(CopyTheKeys) ==> made.keys == {})
    && (Rank(s) <= Rank(WriteNote) ==> !made.movedTo)
  }

  lemma StartIsAccounted(plan: Plan, start: World)
    requires IsWorld(start)
    ensures IsAccounted(plan, start, Run(start, NOTHING, false)) && IsAt(CountAgain, NOTHING)
  {
  }

  // ----- step by step

  lemma DeletionAccounts(plan: Plan, start: World, w: World, branch: string)
    requires IsOurs(plan, start) && w.head == start.head && GitAccounted(plan, start, w.branches, w.worktrees, None)
    requires IsStale(plan, w, branch) && !IsCheckedOut(w, branch)
    ensures GitAccounted(plan, start, BranchDeleted(w, branch).branches, w.worktrees, None)
  {
  }

  lemma {:induction false} StaleDeletedAccounts(plan: Plan, start: World, w: World, names: seq<string>, stuck: set<string>)
    requires IsOurs(plan, start) && w.head == start.head && GitAccounted(plan, start, w.branches, w.worktrees, None)
    ensures var after := StaleDeleted(plan, w, names, stuck).0;
            after == w.(branches := after.branches) && GitAccounted(plan, start, after.branches, w.worktrees, None)
    decreases |names|
  {
    hide GitAccounted;
    if names == [] {
    } else if !IsStale(plan, w, names[0]) {
      StaleDeletedAccounts(plan, start, w, names[1..], stuck);
    } else if names[0] in stuck || IsCheckedOut(w, names[0]) {
    } else {
      DeletionAccounts(plan, start, w, names[0]);
      StaleDeletedAccounts(plan, start, BranchDeleted(w, names[0]), names[1..], stuck);
    }
  }

  lemma FolderChangeAccounts(plan: Plan, start: World, run: Run, f: Folder)
    requires FoldersAccounted(plan, start, run.w.folders, run.made.folder)
    requires run.made.folder.Some? ||
             (IsReplaceable(plan, start) && (run.w.folders == start.folders || plan.folder !in run.w.folders))
    ensures FoldersAccounted(plan, start, FolderChanged(plan, run.w, f).folders, Some(plan.folder))
  {
    assert FolderChanged(plan, run.w, f).folders - {plan.folder} == run.w.folders - {plan.folder};
  }

  lemma FolderStepsAccount(plan: Plan, start: World, s: Step, run: Run)
    requires IsAccounted(plan, start, run) && IsAt(s, run.made) && Effect(plan, s, run).Some?
    ensures FoldersAccounted(plan, start, Effect(plan, s, run).value.w.folders, Effect(plan, s, run).value.made.folder)
  {
    hide GitAccounted, WorktreesKept, KeysAccounted, NoteAccounted, FirstFree, CopiedKeys;
    var after := Effect(plan, s, run).value;
    match s
    case ClearFolder =>
      assert run.w.folders - {plan.folder} - {plan.folder} == run.w.folders - {plan.folder};
    case ClearBranches =>
      if run.ours { StaleDeletedAccounts(plan, start, run.w, plan.listing, {}); }
    case MakeFolder | MarkFolder | StartFolder | CopyTeam | MoveDocuments | ListMembers | RewriteContracts | LogMove
       | RemoveMarker =>
      assert plan.folder in after.w.folders;
      FolderChangeAccounts(plan, start, run, after.w.folders[plan.folder]);
    case _ =>
  }

  lemma PruneAccounts(plan: Plan, start: World, w: World, made: Option<string>)
    requires GitAccounted(plan, start, w.branches, w.worktrees, made)
    ensures GitAccounted(plan, start, Pruned(w).branches, Pruned(w).worktrees, made)
  {
  }

  lemma ChooseAccounts(plan: Plan, start: World, w: World)
    requires GitAccounted(plan, start, w.branches, w.worktrees, None) && w.head == start.head
    ensures GitAccounted(plan, start, w.branches, w.worktrees, Some(FirstFree(w.branches)))
  {
    var b := FirstFree(w.branches);
  }

  lemma BranchStepsAccount(plan: Plan, start: World, s: Step, run: Run)
    requires GitAccounted(plan, start, run.w.branches, run.w.worktrees, run.made.branch) && run.made.branch.Some?
    requires s == AddBranch || s == CommitRemoval || s == DropScratch
    ensures var after := Effect(plan, s, run).value;
            GitAccounted(plan, start, after.w.branches, after.w.worktrees, run.made.branch)
  {
  }

  lemma GitStepsAccount(plan: Plan, start: World, s: Step, run: Run)
    requires IsAccounted(plan, start, run) && IsAt(s, run.made) && Effect(plan, s, run).Some?
    ensures var after := Effect(plan, s, run).value;
            GitAccounted(plan, start, after.w.branches, after.w.worktrees, after.made.branch)
  {
    hide FoldersAccounted, KeysAccounted, NoteAccounted, GitAccounted, WorktreesKept;
    match s
    case ClearWorktrees => PruneAccounts(plan, start, run.w, run.made.branch);
    case ClearBranches => if run.ours { StaleDeletedAccounts(plan, start, run.w, plan.listing, {}); }
    case PruneAgain => PruneAccounts(plan, start, run.w, run.made.branch);
    case ChooseBranch => ChooseAccounts(plan, start, run.w);
    case AddBranch | CommitRemoval | DropScratch => if run.made.branch.Some? { BranchStepsAccount(plan, start, s, run); }
    case _ =>
  }

  lemma KeysAndNoteAccount(plan: Plan, start: World, s: Step, run: Run)
    requires IsAccounted(plan, start, run) && IsAt(s, run.made) && Effect(plan, s, run).Some?
    ensures var after := Effect(plan, s, run).value;
            && KeysAccounted(plan, start, after.w.keys, after.made.keys)
            && NoteAccounted(plan, start, after.w.note, after.made.movedTo)
            && after.w.head == start.head && (after.ours ==> IsOurs(plan, start))
            && (after.made.branch.Some? ==> after.made.folder.Some?)
  {
    hide GitAccounted;
    if s == ClearBranches && run.ours {
      StaleDeletedAccounts(plan, start, run.w, plan.listing, {});
    }
  }

  lemma PruneKeeps(plan: Plan, start: World, w: World, made: Option<Path>)
    requires FoldersAccounted(plan, start, w.folders, made) && WorktreesKept(plan, start, w, made)
    ensures WorktreesKept(plan, start, Pruned(w), made)
  {
    forall t | t in start.worktrees && t.folder in start.folders && t !in Pruned(w).worktrees
      ensures t.folder == plan.folder && (made.Some? || plan.folder !in w.folders)
    {
      assert t.folder in start.folders - {plan.folder} <==> t.folder in w.folders - {plan.folder};
    }
  }

  lemma StepKeepsWorktrees(plan: Plan, start: World, s: Step, run: Run)
    requires IsAccounted(plan, start, run) && IsAt(s, run.made) && Effect(plan, s, run).Some?
    ensures WorktreesKept(plan, start, Effect(plan, s, run).value.w, Effect(plan, s, run).value.made.folder)
  {
    hide GitAccounted, KeysAccounted, NoteAccounted, StaleDeleted, FoldersAccounted, FirstFree, CopiedKeys, RemovalMessage;
    if s == ClearWorktrees || s == PruneAgain {
      PruneKeeps(plan, start, run.w, run.made.folder);
    } else if s == ClearBranches {
      hide WorktreesKept;
      ClearingKeepsWorktrees(plan, start, run);
    }
  }

  lemma ClearingKeepsWorktrees(plan: Plan, start: World, run: Run)
    requires IsAccounted(plan, start, run) && IsAt(ClearBranches, run.made)
    ensures run.ours ==> WorktreesKept(plan, start, StaleDeleted(plan, run.w, plan.listing, {}).0, run.made.folder)
  {
    hide GitAccounted, KeysAccounted, NoteAccounted, FoldersAccounted;
    if run.ours {
      StaleDeletedAccounts(plan, start, run.w, plan.listing, {});
    }
  }

  lemma StepAccounts(plan: Plan, start: World, s: Step, run: Run)
    requires IsAccounted(plan, start, run) && IsAt(s, run.made) && Effect(plan, s, run).Some?
    ensures IsAccounted(plan, start, Effect(plan, s, run).value)
  {
    hide FoldersAccounted, GitAccounted, WorktreesKept, KeysAccounted, NoteAccounted, Effect;
    FolderStepsAccount(plan, start, s, run);
    GitStepsAccount(plan, start, s, run);
    KeysAndNoteAccount(plan, start, s, run);
    StepKeepsWorktrees(plan, start, s, run);
  }

  lemma StepMovesOn(plan: Plan, s: Step, run: Run)
    requires IsAt(s, run.made) && s != RemoveMarker
    ensures Effect(plan, s, run).Some? ==> IsAt(Next(s).value, Effect(plan, s, run).value.made)
    ensures s == ClearNote || IsSkipped(plan, s) ==> IsAt(Next(s).value, run.made)
  {
    hide StaleDeleted, FirstFree, CopiedKeys;
  }

  lemma TidyAccounts(plan: Plan, start: World, run: Run)
    requires GitAccounted(plan, start, run.w.branches, run.w.worktrees, run.made.branch) && run.made.branch.Some?
    ensures var w := BranchDeleted(ScratchDropped(plan, run), run.made.branch.value);
            GitAccounted(plan, start, w.branches, w.worktrees, run.made.branch)
  {
  }

  lemma TidyKeepsWorktrees(plan: Plan, start: World, run: Run)
    requires WorktreesKept(plan, start, run.w, run.made.folder) && run.made.branch.Some? && run.made.folder.Some?
    ensures WorktreesKept(plan, start, BranchDeleted(ScratchDropped(plan, run), run.made.branch.value), run.made.folder)
  {
  }

  lemma SameWorktreesKept(plan: Plan, start: World, w: World, v: World, made: Option<Path>)
    requires WorktreesKept(plan, start, w, made) && v.worktrees == w.worktrees && v.folders == w.folders
    ensures WorktreesKept(plan, start, v, made)
  {
  }

  lemma BrokenAccounts(plan: Plan, trial: Trial, start: World, s: Step, run: Run)
    requires IsAccounted(plan, start, run) && IsAt(s, run.made)
    ensures IsAccounted(plan, start, Broken(plan, trial, s, run)) && Broken(plan, trial, s, run).made == run.made
    ensures Broken(plan, trial, s, run).w.note == run.w.note
    ensures Broken(plan, trial, s, run).w.folders == run.w.folders
  {
    hide FoldersAccounted, GitAccounted, WorktreesKept, KeysAccounted, NoteAccounted;
    if s == ClearBranches && run.ours {
      StaleDeletedAccounts(plan, start, run.w, plan.listing, trial.stuck);
      SameWorktreesKept(plan, start, run.w, StaleDeleted(plan, run.w, plan.listing, trial.stuck).0, run.made.folder);
    } else if run.made.branch.Some? {
      TidyAccounts(plan, start, run);
      TidyKeepsWorktrees(plan, start, run);
    }
  }

  lemma RefusalAccounts(plan: Plan, start: World, run: Run)
    requires IsAccounted(plan, start, run) && IsAt(ClearBranches, run.made) && Effect(plan, ClearBranches, run).None?
    ensures IsAccounted(plan, start, run.(w := StaleDeleted(plan, run.w, plan.listing, {}).0))
  {
    hide FoldersAccounted, GitAccounted, WorktreesKept, KeysAccounted, NoteAccounted;
    StaleDeletedAccounts(plan, start, run.w, plan.listing, {});
    SameWorktreesKept(plan, start, run.w, StaleDeleted(plan, run.w, plan.listing, {}).0, run.made.folder);
  }

  /** Wherever a move stops, what it made accounts for what changed. */
  lemma {:induction false} MoveIsAccounted(plan: Plan, trial: Trial, start: World, s: Step, run: Run)
    requires IsAccounted(plan, start, run) && IsAt(s, run.made)
    ensures IsAccounted(plan, start, Forward(plan, trial, s, run).0)
    decreases 20 - Rank(s)
  {
    hide IsAccounted, Effect, Broken, IsAt;
    match trial.fate(s)
    case Killed =>
      BrokenAccounts(plan, trial, start, s, run);
    case Fails =>
      BrokenAccounts(plan, trial, start, s, run);
      if s == ClearNote || IsSkipped(plan, s) {
        StepMovesOn(plan, s, run);
        MoveIsAccounted(plan, trial, start, Next(s).value, run);
      }
    case Works =>
      if Effect(plan, s, run).Some? {
        StepAccounts(plan, start, s, run);
        if s != RemoveMarker {
          StepMovesOn(plan, s, run);
          MoveIsAccounted(plan, trial, start, Next(s).value, Effect(plan, s, run).value);
        }
      } else if s == ClearBranches {
        RefusalAccounts(plan, start, run);
      }
  }

  // ----- taking it back

  ghost predicate UndoWorks(trial: Trial) {
    forall u :: trial.undo(u) == Works
  }

  lemma TakenBranchIsFree(plan: Plan, start: World, run: Run, w: World)
    requires IsAccounted(plan, start, run) && run.made.branch.Some?
    requires w.head == run.w.head && plan.folder !in w.folders
    requires w.worktrees == set t | t in run.w.worktrees && t.folder in w.folders
    ensures !IsCheckedOut(w, run.made.branch.value)
  {
  }

  /** What a whole undo leaves of an accounted run. */
  lemma UndoneIs(plan: Plan, trial: Trial, start: World, run: Run)
    requires UndoWorks(trial) && IsAccounted(plan, start, run)
    ensures var (w, isAlive) := Undone(trial, run.w, run.made);
            && isAlive && w.head == start.head
            && w.folders == (if run.made.folder.Some? then run.w.folders - {plan.folder} else run.w.folders)
            && w.branches == (if run.made.branch.Some? then run.w.branches - {run.made.branch.value} else run.w.branches)
            && w.keys == start.keys - run.made.keys
            && w.note == (if run.made.movedTo then None else run.w.note)
            && w.worktrees == (set t | t in run.w.worktrees && t.folder in w.folders)
  {
    hide GitAccounted, NoteAccounted;
    var made := run.made;
    var noted := UndoEffect(TakeNote, run.w, made);
    var cleared := UndoEffect(TakeFolder, UndoEffect(PruneFirst, noted, made), made);
    var pruned := UndoEffect(PruneLast, cleared, made);
    assert Undone(trial, run.w, made) == (UndoEffect(TakeKeys, UndoEffect(TakeBranch, pruned, made), made), true);
    assert pruned.worktrees == set t | t in run.w.worktrees && t.folder in pruned.folders;
    if made.branch.Some? {
      TakenBranchIsFree(plan, start, run, pruned);
    }
  }

  // ----- which step fails

  /** The move goes on from the step: it works, or it is one whose failure is passed over. */
  ghost predicate IsPassed(plan: Plan, trial: Trial, s: Step) {
    trial.fate(s) == Works || (trial.fate(s) == Fails && (s == ClearNote || IsSkipped(plan, s)))
  }

  /** A folder that is neither empty nor a stale try's is in the way. */
  ghost predicate IsFolderInTheWay(plan: Plan, start: World) {
    plan.folder in start.folders && start.folders[plan.folder] != EMPTY && !IsOurs(plan, start)
  }

  ghost function WithFolderCleared(plan: Plan, start: World): World {
    Pruned(start.(folders := start.folders - {plan.folder}))
  }

  /** A stale branch is checked out, so git refuses to delete it. */
  ghost predicate IsBranchInTheWay(plan: Plan, start: World) {
    IsOurs(plan, start) && !StaleDeleted(plan, WithFolderCleared(plan, start), plan.listing, {}).1
  }

  /** Every step goes on but the last, which fails. */
  ghost predicate FailsLast(plan: Plan, trial: Trial, start: World) {
    && trial.fate(RemoveMarker) == Fails && (forall s | s != RemoveMarker :: IsPassed(plan, trial, s))
    && !IsFolderInTheWay(plan, start) && !IsBranchInTheWay(plan, start)
  }

  ghost predicate FailsLastFrom(plan: Plan, trial: Trial, s: Step) {
    trial.fate(RemoveMarker) == Fails && forall t | Rank(s) <= Rank(t) < Rank(RemoveMarker) :: IsPassed(plan, trial, t)
  }

  lemma FailsLastNext(plan: Plan, trial: Trial, s: Step)
    requires s != RemoveMarker
    ensures FailsLastFrom(plan, trial, s) <==> IsPassed(plan, trial, s) && FailsLastFrom(plan, trial, Next(s).value)
  {
    hide IsPassed;
    forall t ensures Rank(t) == Rank(s) ==> t == s {
    }
  }

  /** From the folder's mark on nothing is refused, so the note is written and taken back only when the last step fails. */
  lemma {:induction false} LateEnd(plan: Plan, trial: Trial, s: Step, run: Run)
    requires Rank(s) > Rank(MakeFolder) && (run.made.movedTo <==> s == RemoveMarker)
    ensures var (after, outcome) := Forward(plan, trial, s, run);
            outcome == Failed && after.made.movedTo <==> FailsLastFrom(plan, trial, s)
    decreases 20 - Rank(s)
  {
    hide Effect, Broken, FailsLastFrom;
    LateStep(plan, trial, s, run);
    if s == RemoveMarker {
      LastStepEnds(plan, trial);
    } else {
      FailsLastNext(plan, trial, s);
      if trial.fate(s) == Works {
        LateEnd(plan, trial, Next(s).value, Effect(plan, s, run).value);
      } else if trial.fate(s) == Fails && IsSkipped(plan, s) {
        LateEnd(plan, trial, Next(s).value, run);
      }
    }
  }

  lemma LastStepEnds(plan: Plan, trial: Trial)
    ensures FailsLastFrom(plan, trial, RemoveMarker) <==> trial.fate(RemoveMarker) == Fails
  {
  }

  lemma LateStep(plan: Plan, trial: Trial, s: Step, run: Run)
    requires Rank(s) > Rank(MakeFolder)
    ensures Effect(plan, s, run).Some?
    ensures Effect(plan, s, run).value.made.movedTo == (run.made.movedTo || s == WriteNote)
    ensures Broken(plan, trial, s, run).made == run.made
    ensures IsSkipped(plan, s) ==> s != WriteNote && s != RemoveMarker
    ensures s != RemoveMarker ==> (Next(s).value == RemoveMarker <==> s == WriteNote)
  {
    hide StaleDeleted, FirstFree, CopiedKeys, Pruned, RemovalMessage, FolderStep, FolderChanged, ScratchDropped, BranchDeleted, IsOurs;
  }

  /** What a move is before step `s`, up to making the folder. */
  ghost predicate IsEarly(plan: Plan, start: World, s: Step, run: Run) {
    && run.made == NOTHING
    && (Rank(s) <= Rank(ClearFolder) ==> run.w == start)
    && (Rank(s) > Rank(ClearFolder) ==>
          run.ours == IsOurs(plan, start)
          && run.w.folders == if run.ours then start.folders - {plan.folder} else start.folders)
    && (s == ClearWorktrees ==> run.w == start.(folders := run.w.folders))
    && (s == ClearBranches ==> run.w == Pruned(start.(folders := run.w.folders)))
  }

  /** The source refuses from step `s` on. */
  ghost predicate IsRefusedFrom(plan: Plan, start: World, s: Step) {
    IsFolderInTheWay(plan, start) || (Rank(s) <= Rank(ClearBranches) && IsBranchInTheWay(plan, start))
  }

  lemma EarlyStep(plan: Plan, trial: Trial, start: World, s: Step, run: Run)
    requires IsEarly(plan, start, s, run) && Rank(s) <= Rank(MakeFolder)
    ensures Effect(plan, s, run).None? <==>
            (s == ClearBranches && IsBranchInTheWay(plan, start)) || (s == MakeFolder && IsFolderInTheWay(plan, start))
    ensures Effect(plan, s, run).Some? && s != MakeFolder ==>
              IsEarly(plan, start, Next(s).value, Effect(plan, s, run).value)
    ensures Effect(plan, s, run).Some? && s == MakeFolder ==> !Effect(plan, s, run).value.made.movedTo
    ensures s == ClearNote ==> IsEarly(plan, start, MakeFolder, run)
    ensures run.made == Broken(plan, trial, s, run).made == NOTHING && !IsSkipped(plan, s)
  {
    hide StaleDeleted;
    if s == ClearBranches {
      OnlyBranches(plan, run.w, plan.listing);
    }
  }

  lemma {:induction false} OnlyBranches(plan: Plan, w: World, names: seq<string>)
    ensures StaleDeleted(plan, w, names, {}).0.folders == w.folders
    decreases |names|
  {
    if names != [] {
      OnlyBranches(plan, BranchDeleted(w, names[0]), names[1..]);
      OnlyBranches(plan, w, names[1..]);
    }
  }

  lemma {:induction false} EarlyEnd(plan: Plan, trial: Trial, start: World, s: Step, run: Run)
    requires IsEarly(plan, start, s, run) && Rank(s) <= Rank(MakeFolder)
    ensures var (after, outcome) := Forward(plan, trial, s, run);
            outcome == Failed && after.made.movedTo <==> FailsLastFrom(plan, trial, s) && !IsRefusedFrom(plan, start, s)
    decreases 20 - Rank(s)
  {
    hide Effect, Broken, FailsLastFrom, IsEarly, IsFolderInTheWay, IsBranchInTheWay, StaleDeleted;
    EarlyStep(plan, trial, start, s, run);
    FailsLastNext(plan, trial, s);
    if trial.fate(s) == Works && Effect(plan, s, run).Some? {
      if s == MakeFolder {
        LateEnd(plan, trial, MarkFolder, Effect(plan, s, run).value);
      } else {
        EarlyEnd(plan, trial, start, Next(s).value, Effect(plan, s, run).value);
      }
    } else if trial.fate(s) == Fails && s == ClearNote {
      EarlyEnd(plan, trial, start, MakeFolder, run);
    }
  }

  /** A failed move had written its note exactly when its last step is the one that failed. */
  lemma WritesNoteExactly(plan: Plan, trial: Trial, start: World)
    ensures var (run, outcome) := Forward(plan, trial, CountAgain, Run(start, NOTHING, false));
            outcome == Failed && run.made.movedTo <==> FailsLast(plan, trial, start)
  {
    hide Forward, IsPassed, IsFolderInTheWay, IsBranchInTheWay;
    EarlyEnd(plan, trial, start, CountAgain, Run(start, NOTHING, false));
    forall s ensures Rank(s) < Rank(RemoveMarker) <==> s != RemoveMarker {
    }
  }

  // ----- what a failed move leaves

  /** After a failed move that was taken back whole: nothing the move made is left, and nothing else is gone.
      No other folder changed; the project folder is as it was, or gone where it was empty or a stale try's;
      every branch is as it was but stale ones of this same move; no key it copied is left and no other
      is gone; the note is as it was, but a stale try's own, or where the last step failed; and the worktrees
      are those of the start whose folders are there. */
  lemma RollbackRestores(plan: Plan, trial: Trial, start: World)
    requires IsWorld(start) && UndoWorks(trial) && trial.isLocked
    requires Forward(plan, trial, CountAgain, Run(start, NOTHING, false)).1 == Failed
    ensures var (w, outcome) := Convert(plan, trial, start);
            && outcome == Failed && w.head == start.head
            && (w.folders == start.folders || (w.folders == start.folders - {plan.folder} && IsReplaceable(plan, start)))
            && w.branches.Keys <= start.branches.Keys && (forall b | b in w.branches :: w.branches[b] == start.branches[b])
            && (forall b | b in start.branches && b !in w.branches :: IsOldStale(plan, start, b))
            && (w.keys == start.keys || w.keys == start.keys - CopiedKeys(plan, start.keys))
            && (w.note == start.note ||
                (w.note == None && (FailsLast(plan, trial, start) ||
                                    (IsOurs(plan, start) && start.note == Some(plan.folder)))))
            && w.worktrees == set t | t in start.worktrees && t.folder in w.folders
  {
    hide Forward, IsAccounted, Undone, IsWorld, IsOldStale, IsReplaceable, CopiedKeys, FailsLast, IsOurs;
    StartIsAccounted(plan, start);
    MoveIsAccounted(plan, trial, start, CountAgain, Run(start, NOTHING, false));
    var run := Forward(plan, trial, CountAgain, Run(start, NOTHING, false)).0;
    UndoneKeys(plan, start, run);
    UndoneIs(plan, trial, start, run);
    UndoneFolders(plan, start, run);
    UndoneGit(plan, start, run);
    UndoneWorktrees(plan, start, run);
    WritesNoteExactly(plan, trial, start);
  }

  lemma UndoneKeys(plan: Plan, start: World, run: Run)
    requires IsAccounted(plan, start, run)
    ensures start.keys - run.made.keys == start.keys || start.keys - run.made.keys == start.keys - CopiedKeys(plan, start.keys)
    ensures run.w.head == start.head
    ensures !run.made.movedTo ==>
              run.w.note == start.note || (run.w.note == None && IsOurs(plan, start) && start.note == Some(plan.folder))
  {
  }

  lemma UndoneFolders(plan: Plan, start: World, run: Run)
    requires IsAccounted(plan, start, run)
    ensures var folders := if run.made.folder.Some? then run.w.folders - {plan.folder} else run.w.folders;
            folders == start.folders || (folders == start.folders - {plan.folder} && IsReplaceable(plan, start))
  {
    hide GitAccounted;
    if run.made.folder.None? && run.w.folders != start.folders {
      assert run.w.folders == run.w.folders - {plan.folder};
    }
  }

  lemma UndoneGit(plan: Plan, start: World, run: Run)
    requires IsAccounted(plan, start, run)
    ensures var branches := if run.made.branch.Some? then run.w.branches - {run.made.branch.value} else run.w.branches;
            && branches.Keys <= start.branches.Keys && (forall b | b in branches :: branches[b] == start.branches[b])
            && (forall b | b in start.branches && b !in branches :: IsOldStale(plan, start, b))
  {
  }

  lemma UndoneWorktrees(plan: Plan, start: World, run: Run)
    requires IsAccounted(plan, start, run)
    ensures var folders := if run.made.folder.Some? then run.w.folders - {plan.folder} else run.w.folders;
            (set t | t in run.w.worktrees && t.folder in folders) == (set t | t in start.worktrees && t.folder in folders)
  {
    hide KeysAccounted, NoteAccounted;
    var folders := if run.made.folder.Some? then run.w.folders - {plan.folder} else run.w.folders;
    forall t | t in start.worktrees && t.folder in folders ensures t in run.w.worktrees {
      assert t.folder in run.w.folders - {plan.folder} <==> t.folder in start.folders - {plan.folder};
    }
  }

  /** The one thing that can be lost: an earlier move's note, exactly when every step goes on but the last. */
  lemma NoteSurvivesExactly(plan: Plan, trial: Trial, start: World)
    requires IsWorld(start) && UndoWorks(trial) && trial.isLocked
    requires IsOurs(plan, start) ==> start.note != Some(plan.folder)
    requires Forward(plan, trial, CountAgain, Run(start, NOTHING, false)).1 == Failed
    ensures Convert(plan, trial, start).0.note == start.note <==> start.note == None || !FailsLast(plan, trial, start)
  {
    hide Forward, IsAccounted, Undone, IsWorld, FailsLast, IsOurs;
    StartIsAccounted(plan, start);
    MoveIsAccounted(plan, trial, start, CountAgain, Run(start, NOTHING, false));
    var run := Forward(plan, trial, CountAgain, Run(start, NOTHING, false)).0;
    UndoneIs(plan, trial, start, run);
    UndoneKeys(plan, start, run);
    WritesNoteExactly(plan, trial, start);
  }

  /** A move to "team" from a root whose team had moved to "earlier", failing at its last step: the note is lost. */
  lemma EarlierNoteIsLost() returns (plan: Plan, trial: Trial, start: World)
    ensures IsWorld(start) && UndoWorks(trial) && start.note == Some("earlier") && plan.folder == "team"
    ensures Convert(plan, trial, start).1 == Failed && Convert(plan, trial, start).0.note == None
  {
    plan := Plan("root", "team", "tip", false, {}, []);
    trial := Trial(true, (s: Step) => if s == RemoveMarker then Fails else Works, {}, true, (u: UndoStep) => Works);
    start := World(map[], Some("earlier"), map[], None, {}, {});
    assert FailsLast(plan, trial, start);
    hide Forward, IsAccounted, Undone, FailsLast;
    StartIsAccounted(plan, start);
    MoveIsAccounted(plan, trial, start, CountAgain, Run(start, NOTHING, false));
    WritesNoteExactly(plan, trial, start);
    UndoneIs(plan, trial, start, Forward(plan, trial, CountAgain, Run(start, NOTHING, false)).0);
  }

  // ----- whatever happens to the undo

  /** Nothing is gone that this move, or a stale try of it, did not make. */
  ghost predicate IsSpared(plan: Plan, start: World, w: World) {
    && w.head == start.head && w.folders - {plan.folder} == start.folders - {plan.folder}
    && (IsFolderInTheWay(plan, start) ==> plan.folder in w.folders && w.folders[plan.folder] == start.folders[plan.folder])
    && (forall b | b in start.branches ::
          (b in w.branches && w.branches[b] == start.branches[b]) || IsOldStale(plan, start, b))
    && (forall t | t in start.worktrees && t.folder in start.folders && t.folder != plan.folder :: t in w.worktrees)
    && (forall k | k in start.keys && k !in CopiedKeys(plan, start.keys) :: k in w.keys)
  }

  ghost predicate IsOwnMaking(plan: Plan, start: World, made: Made) {
    && (made.folder.Some? ==> made.folder.value == plan.folder && !IsFolderInTheWay(plan, start))
    && (made.branch.Some? && made.branch.value in start.branches ==> IsOldStale(plan, start, made.branch.value))
    && made.keys <= CopiedKeys(plan, start.keys)
  }

  lemma AccountedIsSpared(plan: Plan, start: World, run: Run)
    requires IsAccounted(plan, start, run)
    ensures IsSpared(plan, start, run.w) && IsOwnMaking(plan, start, run.made)
  {
    hide CopiedKeys, RemovalMessage, IsStale;
  }

  lemma PruneSpares(plan: Plan, start: World, w: World)
    requires IsSpared(plan, start, w)
    ensures IsSpared(plan, start, Pruned(w))
  {
    hide IsOldStale, CopiedKeys, IsFolderInTheWay;
    forall t | t in start.worktrees && t.folder in start.folders && t.folder != plan.folder ensures t in Pruned(w).worktrees {
      assert t.folder in w.folders - {plan.folder} <==> t.folder in start.folders - {plan.folder};
    }
  }

  lemma UndoStepSpares(plan: Plan, start: World, u: UndoStep, w: World, made: Made)
    requires IsSpared(plan, start, w) && IsOwnMaking(plan, start, made)
    ensures IsSpared(plan, start, UndoEffect(u, w, made))
  {
    hide IsOldStale, CopiedKeys, IsFolderInTheWay, Pruned, IsCheckedOut;
    PruneSpares(plan, start, w);
    if u == TakeFolder {
      assert w.folders - {plan.folder} - {plan.folder} == w.folders - {plan.folder};
    }
  }

  lemma UndoSpares(plan: Plan, trial: Trial, start: World, w: World, made: Made)
    requires IsSpared(plan, start, w) && IsOwnMaking(plan, start, made)
    ensures IsSpared(plan, start, Undone(trial, w, made).0)
  {
    forall u: UndoStep, v: World | IsSpared(plan, start, v) ensures IsSpared(plan, start, UndoEffect(u, v, made)) {
      UndoStepSpares(plan, start, u, v, made);
    }
    hide UndoEffect, IsSpared;
  }

  /** However a try ends - moved, failed, killed, with an undo that works, fails or dies - nothing else is gone: no
      other folder, no folder that was in the way, no branch but stale ones of this same move, no worktree
      elsewhere, and no key of another project. */
  lemma NothingElseIsLost(plan: Plan, trial: Trial, start: World)
    requires IsWorld(start)
    ensures IsSpared(plan, start, Convert(plan, trial, start).0)
  {
    hide Forward, IsAccounted, Undone, IsWorld, IsSpared;
    StartIsAccounted(plan, start);
    AccountedIsSpared(plan, start, Run(start, NOTHING, false));
    MoveIsAccounted(plan, trial, start, CountAgain, Run(start, NOTHING, false));
    var run := Forward(plan, trial, CountAgain, Run(start, NOTHING, false)).0;
    AccountedIsSpared(plan, start, run);
    UndoSpares(plan, trial, start, run.w, run.made);
  }
}

/** Which project opens: before the commit point the old root opens itself, from it on both places open
    the project folder, and there is no state between. */
module TeamMoveHome {
  import opened Wrappers
  import opened TeamMove

  datatype Answer = Opened(root: Path) | HalfMade | NoProject

  /** Opening the project folder: refused while it is being made. */
  function OpenFolder(w: World, folder: Path): Answer {
    if folder !in w.folders then NoProject
    else if w.folders[folder].marker.Some? then HalfMade
    else if w.folders[folder].hasTeam then Opened(folder)
    else NoProject
  }

  /** A folder counts as finished once it has a list and has lost its marker. */
  predicate IsFinished(w: World, folder: Path) {
    folder in w.folders && w.folders[folder].isListed && w.folders[folder].marker.None?
  }

  /** Opening the old root: its note is followed to a finished project folder, and ignored otherwise. */
  function OpenRoot(w: World, root: Path): Answer {
    if w.note.Some? && IsFinished(w, w.note.value) then OpenFolder(w, w.note.value) else Opened(root)
  }

  /** A folder is refused while marked and opens as itself when it has a team; the old root opens as itself unless its
      note names a folder that is there, listed and not marked, which then opens in its place. */
  lemma OpensExactly(w: World, root: Path, folder: Path)
    ensures OpenFolder(w, folder) == HalfMade <==> folder in w.folders && w.folders[folder].marker != None
    ensures forall p :: OpenFolder(w, folder) == Opened(p) <==>
              p == folder && folder in w.folders && w.folders[folder].marker == None && w.folders[folder].hasTeam
    ensures (exists p :: w.note == Some(p) && p in w.folders && w.folders[p].isListed && w.folders[p].marker == None)
            ==> OpenRoot(w, root) == OpenFolder(w, w.note.value)
    ensures !(exists p :: w.note == Some(p) && p in w.folders && w.folders[p].isListed && w.folders[p].marker == None)
            ==> OpenRoot(w, root) == Opened(root)
  {
  }

  /** The old root's note leads nowhere: there is none, or what it names is not finished. */
  predicate IsNoteIdle(w: World) {
    w.note.Some? ==> !IsFinished(w, w.note.value)
  }

  /** The folder is no project that opens: it has no team, or is still being made; and its team came before its list. */
  predicate IsUnopened(w: World, folder: Path) {
    folder in w.folders ==>
      var f := w.folders[folder];
      (f.isListed ==> f.hasTeam) && (f.hasTeam ==> f.marker.Some?)
  }

  /** The move has not happened: the note leads nowhere, and the project folder does not open. */
  ghost predicate IsUncommitted(plan: Plan, w: World) {
    IsNoteIdle(w) && IsUnopened(w, plan.folder)
  }

  /** The move has happened. */
  ghost predicate IsCommitted(plan: Plan, w: World) {
    && w.note == Some(plan.folder) && IsFinished(w, plan.folder) && w.folders[plan.folder].hasTeam
  }

  /** Uncommitted, the old root alone opens; committed, both open the project folder. */
  lemma OneLiveHome(plan: Plan, w: World)
    ensures IsUncommitted(plan, w) ==> OpenRoot(w, plan.root) == Opened(plan.root) && !OpenFolder(w, plan.folder).Opened?
    ensures IsCommitted(plan, w) ==> OpenRoot(w, plan.root) == OpenFolder(w, plan.folder) == Opened(plan.folder)
  {
  }

  // ----- a move that has not happened yet

  /** What the project folder holds before step `s`. */
  ghost predicate IsOnTheWay(plan: Plan, s: Step, run: Run) {
    && IsUncommitted(plan, run.w)
    && (Rank(s) > Rank(MakeFolder) ==> plan.folder in run.w.folders)
    && (Rank(s) > Rank(MarkFolder) ==> run.w.folders[plan.folder].marker == Some(plan.root))
    && (Rank(s) > Rank(CopyTeam) ==> run.w.folders[plan.folder].hasTeam)
    && (Rank(s) > Rank(ListMembers) ==> run.w.folders[plan.folder].isListed)
    && (Rank(s) > Rank(WriteNote) ==> run.w.note == Some(plan.folder))
  }

  lemma {:induction false} DeletionKeepsHome(plan: Plan, w: World, names: seq<string>, stuck: set<string>)
    ensures var after := StaleDeleted(plan, w, names, stuck).0;
            after.folders == w.folders && after.note == w.note
    decreases |names|
  {
    if names != [] && IsStale(plan, w, names[0]) {
      DeletionKeepsHome(plan, BranchDeleted(w, names[0]), names[1..], stuck);
    } else if names != [] {
      DeletionKeepsHome(plan, w, names[1..], stuck);
    }
  }

  lemma StepOnTheWay(plan: Plan, s: Step, run: Run)
    requires IsOnTheWay(plan, s, run) && Effect(plan, s, run).Some?
    ensures s == RemoveMarker ==> IsCommitted(plan, Effect(plan, s, run).value.w)
    ensures s != RemoveMarker ==> IsOnTheWay(plan, Next(s).value, Effect(plan, s, run).value)
  {
    hide StaleDeleted, FirstFree, CopiedKeys;
    if s == ClearBranches {
      DeletionKeepsHome(plan, run.w, plan.listing, {});
    }
  }

  lemma BrokenKeepsHome(plan: Plan, trial: Trial, s: Step, run: Run)
    requires IsOnTheWay(plan, s, run)
    ensures IsUncommitted(plan, run.w) && IsUncommitted(plan, Broken(plan, trial, s, run).w)
    ensures IsUncommitted(plan, StaleDeleted(plan, run.w, plan.listing, {}).0)
  {
    hide StaleDeleted;
    DeletionKeepsHome(plan, run.w, plan.listing, trial.stuck);
    DeletionKeepsHome(plan, run.w, plan.listing, {});
  }

  lemma PassedOver(plan: Plan, s: Step, run: Run)
    requires IsOnTheWay(plan, s, run) && (s == ClearNote || IsSkipped(plan, s))
    ensures s != RemoveMarker && IsOnTheWay(plan, Next(s).value, run)
  {
  }

  /** From an uncommitted disk a move commits or leaves it uncommitted, wherever it stops. */
  lemma {:induction false} MoveCommitsOrNot(plan: Plan, trial: Trial, s: Step, run: Run)
    requires IsOnTheWay(plan, s, run)
    ensures var (after, outcome) := Forward(plan, trial, s, run);
            if outcome == Moved then IsCommitted(plan, after.w) else IsUncommitted(plan, after.w)
    decreases 20 - Rank(s)
  {
    hide Effect, Broken, IsOnTheWay, StaleDeleted, IsCommitted, IsUncommitted;
    BrokenKeepsHome(plan, trial, s, run);
    match trial.fate(s)
    case Killed =>
    case Fails =>
      if s == ClearNote || IsSkipped(plan, s) {
        PassedOver(plan, s, run);
        MoveCommitsOrNot(plan, trial, Next(s).value, run);
      }
    case Works =>
      if Effect(plan, s, run).Some? {
        StepOnTheWay(plan, s, run);
        if s != RemoveMarker {
          MoveCommitsOrNot(plan, trial, Next(s).value, Effect(plan, s, run).value);
        }
      }
  }

  lemma UndoKeepsUncommitted(plan: Plan, trial: Trial, w: World, made: Made)
    requires IsUncommitted(plan, w)
    ensures IsUncommitted(plan, Undone(trial, w, made).0)
  {
    forall u: UndoStep, v: World | IsUncommitted(plan, v) ensures IsUncommitted(plan, UndoEffect(u, v, made)) {
    }
    hide UndoEffect, IsUncommitted;
  }

  // ----- a move that has happened

  /** The disk is as it was, but for worktrees whose folders were gone already. */
  ghost predicate OnlyPrunedFrom(w: World, after: World) {
    && after == w.(worktrees := after.worktrees)
    && after.worktrees <= w.worktrees
    && forall t | t in w.worktrees && t !in after.worktrees :: t.folder !in w.folders
  }

  ghost predicate IsIdle(run: Run) {
    run.made == NOTHING && !run.ours
  }

  lemma CommittedStep(plan: Plan, trial: Trial, s: Step, run: Run)
    requires IsCommitted(plan, run.w) && IsIdle(run) && Rank(s) <= Rank(MakeFolder)
    ensures s == MakeFolder ==> Effect(plan, s, run).None?
    ensures s != MakeFolder ==>
              Effect(plan, s, run).Some? && var after := Effect(plan, s, run).value;
              IsIdle(after) && (after.w == run.w || after.w == Pruned(run.w))
    ensures Broken(plan, trial, s, run) == run
    ensures !IsSkipped(plan, s)
  {
    hide StaleDeleted;
  }

  lemma {:induction false} CommittedStays(plan: Plan, trial: Trial, start: World, s: Step, run: Run)
    requires IsCommitted(plan, run.w) && IsIdle(run) && Rank(s) <= Rank(MakeFolder) && OnlyPrunedFrom(start, run.w)
    ensures var (after, outcome) := Forward(plan, trial, s, run);
            outcome != Moved && after.made == NOTHING && OnlyPrunedFrom(start, after.w)
    decreases 20 - Rank(s)
  {
    hide Effect, Broken, StaleDeleted;
    CommittedStep(plan, trial, s, run);
    match trial.fate(s)
    case Killed =>
    case Fails =>
      if s == ClearNote { CommittedStays(plan, trial, start, MakeFolder, run); }
    case Works =>
      if s != MakeFolder {
        CommittedStays(plan, trial, start, Next(s).value, Effect(plan, s, run).value);
      } else {
        assert Effect(plan, s, run).None?;
      }
  }

  /** Once moved, a move tried again refuses, and deletes nothing: whatever fails, the disk is as it was, but
      for worktrees whose folders were gone already. */
  lemma AgainRefuses(plan: Plan, trial: Trial, w: World)
    requires IsCommitted(plan, w)
    ensures var (after, outcome) := Convert(plan, trial, w);
            outcome != Moved && OnlyPrunedFrom(w, after) && IsCommitted(plan, after)
  {
    if trial.isLocked {
      CommittedStays(plan, trial, w, CountAgain, Run(w, NOTHING, false));
      var (run, outcome) := Forward(plan, trial, CountAgain, Run(w, NOTHING, false));
      if outcome == Failed {
        NothingToUndo(trial, w, run.w);
      }
    }
  }

  lemma NothingToUndo(trial: Trial, start: World, w: World)
    requires OnlyPrunedFrom(start, w)
    ensures OnlyPrunedFrom(start, Undone(trial, w, NOTHING).0)
  {
    forall u: UndoStep, v: World | OnlyPrunedFrom(start, v)
      ensures OnlyPrunedFrom(start, UndoEffect(u, v, NOTHING))
    {
      assert v.keys - NOTHING.keys == v.keys;
    }
    hide UndoEffect, OnlyPrunedFrom;
  }

  // ----- other folders

  /** Nothing has changed in any folder but the project folder, and no other was made. */
  ghost predicate IsSameElsewhere(plan: Plan, start: World, w: World, made: Made) {
    && w.folders - {plan.folder} == start.folders - {plan.folder}
    && (made.folder.Some? ==> made.folder.value == plan.folder)
  }

  lemma EffectStaysInFolder(plan: Plan, start: World, s: Step, run: Run)
    requires IsSameElsewhere(plan, start, run.w, run.made) && Effect(plan, s, run).Some?
    ensures IsSameElsewhere(plan, start, Effect(plan, s, run).value.w, Effect(plan, s, run).value.made)
  {
    hide StaleDeleted, FirstFree, CopiedKeys, RemovalMessage, FolderStep, IsOurs;
    DeletionKeepsHome(plan, run.w, plan.listing, {});
    var here := if plan.folder in run.w.folders then run.w.folders[plan.folder] else EMPTY;
    ChangedInPlace(run.w.folders, plan.folder, EMPTY);
    ChangedInPlace(run.w.folders, plan.folder, FolderStep(plan, s, here));
    if s == ClearFolder {
      assert run.w.folders - {plan.folder} - {plan.folder} == run.w.folders - {plan.folder};
    }
  }

  lemma BrokenStaysInFolder(plan: Plan, trial: Trial, start: World, s: Step, run: Run)
    requires IsSameElsewhere(plan, start, run.w, run.made)
    ensures IsSameElsewhere(plan, start, Broken(plan, trial, s, run).w, Broken(plan, trial, s, run).made)
    ensures IsSameElsewhere(plan, start, StaleDeleted(plan, run.w, plan.listing, {}).0, run.made)
  {
    hide StaleDeleted;
    DeletionKeepsHome(plan, run.w, plan.listing, {});
    DeletionKeepsHome(plan, run.w, plan.listing, trial.stuck);
  }

  lemma ChangedInPlace<K, V>(m: map<K, V>, k: K, v: V)
    ensures m[k := v] - {k} == m - {k}
  {
  }

  lemma {:induction false} MoveStaysInFolder(plan: Plan, trial: Trial, start: World, s: Step, run: Run)
    requires IsSameElsewhere(plan, start, run.w, run.made)
    ensures var after := Forward(plan, trial, s, run).0; IsSameElsewhere(plan, start, after.w, after.made)
    decreases 20 - Rank(s)
  {
    hide Effect, Broken, StaleDeleted, IsSameElsewhere;
    BrokenStaysInFolder(plan, trial, start, s, run);
    if Effect(plan, s, run).Some? {
      EffectStaysInFolder(plan, start, s, run);
    }
    if s != RemoveMarker {
      if trial.fate(s) == Works && Effect(plan, s, run).Some? {
        MoveStaysInFolder(plan, trial, start, Next(s).value, Effect(plan, s, run).value);
      } else if trial.fate(s) == Fails && (s == ClearNote || IsSkipped(plan, s)) {
        MoveStaysInFolder(plan, trial, start, Next(s).value, run);
      }
    }
  }

  lemma UndoStaysInFolder(plan: Plan, trial: Trial, start: World, w: World, made: Made)
    requires IsSameElsewhere(plan, start, w, made)
    ensures IsSameElsewhere(plan, start, Undone(trial, w, made).0, made)
  {
    forall u: UndoStep, v: World | IsSameElsewhere(plan, start, v, made)
      ensures IsSameElsewhere(plan, start, UndoEffect(u, v, made), made)
    {
      assert v.folders - {plan.folder} - {plan.folder} == v.folders - {plan.folder};
    }
    hide UndoEffect, IsSameElsewhere;
  }

  /** A try changes no folder but the one it is for, however it ends. */
  lemma TryStaysInFolder(plan: Plan, trial: Trial, w: World, other: Path)
    requires other != plan.folder
    ensures var after := Convert(plan, trial, w).0;
            (other in after.folders <==> other in w.folders)
            && (other in w.folders ==> after.folders[other] == w.folders[other])
  {
    hide Forward, Undone;
    var start := Run(w, NOTHING, false);
    MoveStaysInFolder(plan, trial, w, CountAgain, start);
    var run := Forward(plan, trial, CountAgain, start).0;
    UndoStaysInFolder(plan, trial, w, run.w, run.made);
    var after := Convert(plan, trial, w).0;
    assert other in after.folders <==> other in after.folders - {plan.folder};
    assert other in w.folders <==> other in w.folders - {plan.folder};
  }

  // ----- any number of tries

  ghost function AfterTries(tries: seq<(Plan, Trial)>, w: World): World {
    if tries == [] then w
    else Convert(tries[|tries| - 1].0, tries[|tries| - 1].1, AfterTries(tries[..|tries| - 1], w)).0
  }

  /** The try `k` goes through. */
  ghost predicate GoesThrough(tries: seq<(Plan, Trial)>, w: World, k: nat)
    requires k < |tries|
  {
    Convert(tries[k].0, tries[k].1, AfterTries(tries[..k], w)).1 == Moved
  }

  ghost predicate AreUnopened(w: World, places: set<Path>) {
    forall p | p in places :: IsUnopened(w, p)
  }

  /** The tries are of one old root, each for a place of its own, but after one goes through only for its place. */
  ghost predicate AreTries(tries: seq<(Plan, Trial)>, root: Path, places: set<Path>, w: World) {
    && (forall k | 0 <= k < |tries| :: tries[k].0.root == root && tries[k].0.folder in places)
    && forall j, k | 0 <= j < k < |tries| :: GoesThrough(tries, w, j) ==> tries[k].0.folder == tries[j].0.folder
  }

  /** Where the team is: nowhere new before a try goes through, and in its place from then on. */
  ghost predicate IsWhereItWent(tries: seq<(Plan, Trial)>, places: set<Path>, w: World, after: World) {
    && ((forall k | 0 <= k < |tries| :: !GoesThrough(tries, w, k)) ==> IsNoteIdle(after) && AreUnopened(after, places))
    && forall k | 0 <= k < |tries| :: GoesThrough(tries, w, k) ==>
         IsCommitted(tries[k].0, after) && AreUnopened(after, places - {tries[k].0.folder})
  }

  lemma TriesBefore(tries: seq<(Plan, Trial)>, root: Path, places: set<Path>, w: World)
    requires AreTries(tries, root, places, w) && tries != []
    ensures AreTries(tries[..|tries| - 1], root, places, w)
    ensures forall k | 0 <= k < |tries| - 1 :: GoesThrough(tries[..|tries| - 1], w, k) == GoesThrough(tries, w, k)
  {
    hide Convert, AfterTries;
    var before := tries[..|tries| - 1];
    forall k | 0 <= k < |before| ensures before[k] == tries[k] && GoesThrough(before, w, k) == GoesThrough(tries, w, k) {
      assert before[..k] == tries[..k];
    }
  }

  lemma OthersStayUnopened(plan: Plan, trial: Trial, w: World, places: set<Path>)
    requires AreUnopened(w, places) && plan.folder !in places
    ensures AreUnopened(Convert(plan, trial, w).0, places)
  {
    hide Convert;
    forall p | p in places ensures IsUnopened(Convert(plan, trial, w).0, p) {
      TryStaysInFolder(plan, trial, w, p);
    }
  }

  lemma OneTryMore(plan: Plan, trial: Trial, w: World, places: set<Path>)
    requires plan.folder in places && IsNoteIdle(w) && AreUnopened(w, places)
    ensures var (after, outcome) := Convert(plan, trial, w);
            && AreUnopened(after, places - {plan.folder})
            && if outcome == Moved then IsCommitted(plan, after) else IsNoteIdle(after) && AreUnopened(after, places)
  {
    hide Convert, IsUnopened;
    OneTry(plan, trial, w);
    OthersStayUnopened(plan, trial, w, places - {plan.folder});
  }

  lemma OneTryAfterTheMove(plan: Plan, trial: Trial, w: World, places: set<Path>)
    requires IsCommitted(plan, w) && AreUnopened(w, places - {plan.folder})
    ensures var (after, outcome) := Convert(plan, trial, w);
            outcome != Moved && IsCommitted(plan, after) && AreUnopened(after, places - {plan.folder})
  {
    hide Convert, AreUnopened, IsCommitted;
    AgainRefuses(plan, trial, w);
    OthersStayUnopened(plan, trial, w, places - {plan.folder});
  }

  lemma CommittedByFolder(plan: Plan, other: Plan, w: World)
    requires plan.folder == other.folder
    ensures IsCommitted(plan, w) == IsCommitted(other, w)
  {
  }

  lemma {:induction false} TeamIsWhereItWent(tries: seq<(Plan, Trial)>, root: Path, places: set<Path>, w: World)
    requires AreTries(tries, root, places, w) && IsNoteIdle(w) && AreUnopened(w, places)
    ensures IsWhereItWent(tries, places, w, AfterTries(tries, w))
  {
    hide Convert, IsNoteIdle, AreUnopened, IsCommitted;
    if tries != [] {
      var before, last := tries[..|tries| - 1], |tries| - 1;
      var (plan, trial) := tries[last];
      var u := AfterTries(before, w);
      TriesBefore(tries, root, places, w);
      TeamIsWhereItWent(before, root, places, w);
      assert tries[..last] == before;
      assert GoesThrough(tries, w, last) <==> Convert(plan, trial, u).1 == Moved;
      hide GoesThrough;
      if j :| 0 <= j < last && GoesThrough(tries, w, j) {
        assert GoesThrough(before, w, j) && before[j] == tries[j];
        CommittedByFolder(tries[j].0, plan, u);
        OneTryAfterTheMove(plan, trial, u, places);
        forall k | 0 <= k < |tries| && GoesThrough(tries, w, k)
          ensures IsCommitted(tries[k].0, AfterTries(tries, w)) && tries[k].0.folder == plan.folder
        {
          CommittedByFolder(tries[k].0, plan, AfterTries(tries, w));
        }
      } else {
        forall k | 0 <= k < |before| ensures !GoesThrough(before, w, k) {
          assert GoesThrough(before, w, k) == GoesThrough(tries, w, k);
        }
        OneTryMore(plan, trial, u, places);
      }
    }
  }

  /** However many tries are made, each for a place of its own until one goes through, and however each fails or
      dies - forward, clearing or being undone - the old root and the places never open as two projects: before,
      the old root alone opens, and from then on it opens the place the team went to, and no other place does. */
  lemma NeverTwoHomes(tries: seq<(Plan, Trial)>, root: Path, places: set<Path>, w: World)
    requires AreTries(tries, root, places, w) && IsNoteIdle(w) && AreUnopened(w, places)
    ensures var after := AfterTries(tries, w);
            (forall k | 0 <= k < |tries| :: !GoesThrough(tries, w, k)) ==>
              OpenRoot(after, root) == Opened(root) && forall p | p in places :: !OpenFolder(after, p).Opened?
    ensures var after := AfterTries(tries, w);
            forall k | 0 <= k < |tries| && GoesThrough(tries, w, k) ::
              && OpenRoot(after, root) == OpenFolder(after, tries[k].0.folder) == Opened(tries[k].0.folder)
              && forall p | p in places && p != tries[k].0.folder :: !OpenFolder(after, p).Opened?
  {
    hide AfterTries, GoesThrough;
    TeamIsWhereItWent(tries, root, places, w);
    var after := AfterTries(tries, w);
    forall k | 0 <= k < |tries| && GoesThrough(tries, w, k)
      ensures OpenRoot(after, root) == OpenFolder(after, tries[k].0.folder) == Opened(tries[k].0.folder)
      ensures forall p | p in places && p != tries[k].0.folder :: !OpenFolder(after, p).Opened?
    {
      var place := tries[k].0.folder;
      assert forall p | p in places && p != place :: p in places - {place};
    }
  }

  /** One try from an uncommitted disk: it has happened exactly when the move says so. */
  lemma OneTry(plan: Plan, trial: Trial, w: World)
    requires IsUncommitted(plan, w)
    ensures var (after, outcome) := Convert(plan, trial, w);
            if outcome == Moved then IsCommitted(plan, after) else IsUncommitted(plan, after)
  {
    if trial.isLocked {
      MoveCommitsOrNot(plan, trial, CountAgain, Run(w, NOTHING, false));
      var (run, outcome) := Forward(plan, trial, CountAgain, Run(w, NOTHING, false));
      if outcome == Failed {
        UndoKeepsUncommitted(plan, trial, run.w, run.made);
      }
    }
  }

  /** Once moved, always moved: however many tries follow for the same folder, and however they end. */
  lemma {:induction false} MovedForGood(tries: seq<(Plan, Trial)>, plan: Plan, w: World)
    requires forall k | 0 <= k < |tries| :: tries[k].0.folder == plan.folder
    requires IsCommitted(plan, w)
    ensures IsCommitted(plan, AfterTries(tries, w))
  {
    hide Convert;
    if tries != [] {
      MovedForGood(tries[..|tries| - 1], plan, w);
      AgainRefuses(tries[|tries| - 1].0, tries[|tries| - 1].1, AfterTries(tries[..|tries| - 1], w));
    }
  }
}

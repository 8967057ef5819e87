/** What the note of an earlier move changes: with it, and only with it, a killed move leaves two projects open. */
module TeamMoveNotes {
  import opened Wrappers
  import opened TeamMove
  import opened TeamMoveHome
  import opened TeamMoveRerun

  /** Of the old root, the project folder and the folder of an earlier move, two open as different projects. */
  ghost predicate OpensTwo(plan: Plan, earlier: Path, w: World) {
    exists a, b | a in Homes(plan, earlier, w) && b in Homes(plan, earlier, w) :: a.Opened? && b.Opened? && a != b
  }

  function Homes(plan: Plan, earlier: Path, w: World): set<Answer> {
    {OpenRoot(w, plan.root), OpenFolder(w, plan.folder), OpenFolder(w, earlier)}
  }

  /** With an earlier move's note, a move killed at its last step has the old root open itself again while the
      project it had moved to still opens. */
  lemma EarlierNoteOpensTwo(plan: Plan, trial: Trial, w: World, earlier: Path)
    requires IsClean(plan, w) && ListsBranches(plan, w) && IsKilledAt(trial, RemoveMarker)
    requires w.note == Some(earlier) && earlier != plan.folder && IsFinished(w, earlier) && w.folders[earlier].hasTeam
    ensures OpenRoot(w, plan.root) == OpenFolder(w, earlier) == Opened(earlier)
    ensures var after := Convert(plan, trial, w).0;
            OpenRoot(after, plan.root) == Opened(plan.root) && OpenFolder(after, earlier) == Opened(earlier)
  {
    hide Forward, AllCleared, IsClean, IsFresh, IsBefore, IsFinished, OpenRoot, OpenFolder, Based, Kept;
    CleanIsFresh(plan, w);
    CleanIsResidue(plan, w);
    BasedIsFresh(plan, w, w);
    ClearsResidue(plan, w, w, trial);
    KilledOnTheWay(plan, trial, Based(plan, w, w), MakeFolder, AllCleared(plan, w, w), RemoveMarker);
    var run := Forward(plan, trial, MakeFolder, AllCleared(plan, w, w)).0;
    FoldersOfBase(plan, w, run);
    TwoOpenBeforeTheLastStep(plan, w, run.w, earlier);
  }

  lemma FoldersOfBase(plan: Plan, w: World, run: Run)
    requires IsBefore(plan, Based(plan, w, w), RemoveMarker, run)
    ensures FoldersBefore(plan, w, RemoveMarker, run.w.folders) && run.w.note == Some(plan.folder)
  {
    hide GitBefore, KeysBetween, FolderBefore;
  }

  lemma TwoOpenBeforeTheLastStep(plan: Plan, w: World, v: World, earlier: Path)
    requires FoldersBefore(plan, w, RemoveMarker, v.folders) && v.note == Some(plan.folder)
    requires w.note == Some(earlier) && earlier != plan.folder && IsFinished(w, earlier) && w.folders[earlier].hasTeam
    ensures OpenRoot(w, plan.root) == OpenFolder(w, earlier) == Opened(earlier)
    ensures OpenRoot(v, plan.root) == Opened(plan.root) && OpenFolder(v, earlier) == Opened(earlier)
  {
  }

  /** A trial that works and is killed before its last step. */
  function KilledAtTheEnd(): (trial: Trial)
    ensures IsKilledAt(trial, RemoveMarker)
  {
    Trial(true, (s: Step) => if s == RemoveMarker then Killed else Works, {}, true, (u: UndoStep) => Works)
  }

  lemma IdleNoteOpensOne(plan: Plan, trial: Trial, w: World, earlier: Path)
    requires IsClean(plan, w) && w.note == Some(earlier) && IsUnopened(w, earlier)
    ensures !OpensTwo(plan, earlier, Convert(plan, trial, w).0)
  {
    hide Convert;
    assert IsUncommitted(plan, w);
    OneTry(plan, trial, w);
    OneLiveHome(plan, Convert(plan, trial, w).0);
    if earlier != plan.folder {
      TryStaysInFolder(plan, trial, w, earlier);
    }
  }

  /** No way a try can end leaves two projects open exactly when the folder the earlier note names is not finished. */
  lemma EarlierNoteMattersExactly(plan: Plan, w: World, earlier: Path)
    requires IsClean(plan, w) && ListsBranches(plan, w) && w.note == Some(earlier) && earlier != plan.root
    requires IsUnopened(w, earlier) || (IsFinished(w, earlier) && w.folders[earlier].hasTeam)
    ensures (forall trial: Trial :: !OpensTwo(plan, earlier, Convert(plan, trial, w).0)) <==> !IsFinished(w, earlier)
  {
    hide Convert, OpensTwo, IsClean, ListsBranches;
    if IsFinished(w, earlier) {
      var trial := KilledAtTheEnd();
      FinishedIsNotTheFolder(plan, w, earlier);
      EarlierNoteOpensTwo(plan, trial, w, earlier);
      TwoAnswers(plan, earlier, Convert(plan, trial, w).0);
    } else {
      forall trial: Trial ensures !OpensTwo(plan, earlier, Convert(plan, trial, w).0) {
        IdleNoteOpensOne(plan, trial, w, earlier);
      }
    }
  }

  lemma FinishedIsNotTheFolder(plan: Plan, w: World, earlier: Path)
    requires IsClean(plan, w) && IsFinished(w, earlier)
    ensures earlier != plan.folder
  {
  }

  lemma TwoAnswers(plan: Plan, earlier: Path, v: World)
    requires OpenRoot(v, plan.root) == Opened(plan.root) && OpenFolder(v, earlier) == Opened(earlier)
    requires earlier != plan.root
    ensures OpensTwo(plan, earlier, v)
  {
    assert Opened(plan.root) in Homes(plan, earlier, v) && Opened(earlier) in Homes(plan, earlier, v);
  }
}

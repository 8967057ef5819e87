/** The move as the source runs it: a disk and a record of what was made, changed in place. */
module TeamMoveRun {
  import opened Wrappers
  import opened BranchNames
  import opened TeamMove

  class Disk {
    var folders: map<Path, Folder>
    var note: Option<Path>
    var branches: map<string, string>
    var head: Option<string>
    var worktrees: set<Worktree>
    var keys: set<Key>

    constructor (w: World)
      ensures Now() == w
    {
      folders, note, branches, head, worktrees, keys := w.folders, w.note, w.branches, w.head, w.worktrees, w.keys;
    }

    ghost function Now(): World
      reads this
    {
      World(folders, note, branches, head, worktrees, keys)
    }

    method Prune()
      modifies this`worktrees
      ensures Now() == Pruned(old(Now()))
    {
      worktrees := set t | t in worktrees && t.folder in folders;
    }

    method DeleteBranch(branch: string)
      modifies this`branches
      ensures Now() == BranchDeleted(old(Now()), branch)
    {
      if !(head == Some(branch) || exists t | t in worktrees :: t.branch == branch) {
        branches := branches - {branch};
      }
    }
  }

  /** The record an undo works from, filled in as the move goes. */
  class MadeSoFar {
    var folder: Option<Path>
    var keys: set<Key>
    var branch: Option<string>
    var movedTo: bool

    constructor ()
      ensures Now() == NOTHING
    {
      folder, keys, branch, movedTo := None, {}, None, false;
    }

    ghost function Now(): Made
      reads this
    {
      Made(folder, keys, branch, movedTo)
    }

    /** One undo step on the disk; whether the move is still alive after it. */
    method TakeBack(disk: Disk, trial: Trial, u: UndoStep, wasAlive: bool) returns (isAlive: bool)
      modifies disk
      ensures (disk.Now(), isAlive) == UndoOne(trial, u, old(disk.Now()), Now(), wasAlive)
    {
      hide BranchDeleted, Pruned;
      isAlive := wasAlive && trial.undo(u) != Killed;
      if !isAlive || trial.undo(u) != Works { return; }
      match u {
        case TakeNote => if movedTo { disk.note := None; }
        case PruneFirst => if folder.Some? { disk.Prune(); }
        case TakeFolder => if folder.Some? { disk.folders := disk.folders - {folder.value}; }
        case PruneLast => disk.Prune();
        case TakeBranch => if branch.Some? { disk.DeleteBranch(branch.value); }
        case TakeKeys => disk.keys := disk.keys - keys;
      }
    }

    /** The undo: six steps, the last made first, none of which stops the others by failing. */
    method Undo(disk: Disk, trial: Trial) returns (isAlive: bool)
      modifies disk
      ensures (disk.Now(), isAlive) == Undone(trial, old(disk.Now()), Now())
    {
      hide UndoOne;
      isAlive := TakeBack(disk, trial, TakeNote, true);
      isAlive := TakeBack(disk, trial, PruneFirst, isAlive);
      isAlive := TakeBack(disk, trial, TakeFolder, isAlive);
      isAlive := TakeBack(disk, trial, PruneLast, isAlive);
      isAlive := TakeBack(disk, trial, TakeBranch, isAlive);
      isAlive := TakeBack(disk, trial, TakeKeys, isAlive);
    }
  }

  function Ending(fate: Fate): Outcome {
    if fate == Killed then Dead else Failed
  }

  /** The rest of the move from `s` and `before` is the rest from `t` and `after`, or has ended there. */
  ghost predicate Reaches(plan: Plan, trial: Trial, s: Step, before: Run, t: Step, after: Run, end: Option<Outcome>) {
    Forward(plan, trial, s, before) ==
    if end.None? then Forward(plan, trial, t, after) else (after, end.value)
  }

  lemma OneStep(plan: Plan, trial: Trial, s: Step, run: Run)
    requires s != RemoveMarker
    ensures trial.fate(s) == Works && Effect(plan, s, run).Some? ==>
              Forward(plan, trial, s, run) == Forward(plan, trial, Next(s).value, Effect(plan, s, run).value)
    ensures trial.fate(s) != Works && s != ClearBranches && s != ClearNote && s != CommitRemoval && !IsSkipped(plan, s) ==>
              Forward(plan, trial, s, run) == (run, Ending(trial.fate(s)))
    ensures trial.fate(s) == Fails && (s == ClearNote || IsSkipped(plan, s)) ==>
              Forward(plan, trial, s, run) == Forward(plan, trial, Next(s).value, run)
    ensures trial.fate(s) == Killed && s != ClearBranches ==> Forward(plan, trial, s, run) == (run, Dead)
  {
    hide Effect;
  }

  /** 0. What a dead try for the same folder left is cleared away. */
  method ClearAStaleMove(disk: Disk, plan: Plan, trial: Trial) returns (end: Option<Outcome>, ours: bool)
    modifies disk
    ensures Reaches(plan, trial, ClearFolder, Run(old(disk.Now()), NOTHING, false),
                    MakeFolder, Run(disk.Now(), NOTHING, ours), end)
  {
    hide Forward, Pruned, BranchDeleted, IsRemovalName, RemovalMessage;
    ghost var r0 := Run(disk.Now(), NOTHING, false);
    OneStep(plan, trial, ClearFolder, r0);
    if trial.fate(ClearFolder) != Works { return Some(Ending(trial.fate(ClearFolder))), false; }
    ours := plan.folder in disk.folders && disk.folders[plan.folder].marker == Some(plan.root);
    if ours {
      disk.folders := disk.folders - {plan.folder};
    }
    ghost var r1 := Run(disk.Now(), NOTHING, ours);
    OneStep(plan, trial, ClearWorktrees, r1);
    if trial.fate(ClearWorktrees) != Works { return Some(Ending(trial.fate(ClearWorktrees))), ours; }
    disk.Prune();
    ghost var r2 := Run(disk.Now(), NOTHING, ours);
    var stopped := false;
    if ours {
      stopped := ClearBranchesOf(disk, plan, if trial.fate(ClearBranches) == Works then {} else trial.stuck);
    }
    EndOfClearing(plan, trial, r2);
    if trial.fate(ClearBranches) != Works { return Some(Ending(trial.fate(ClearBranches))), ours; }
    if stopped { return Some(Failed), ours; }
    OneStep(plan, trial, ClearNote, Run(disk.Now(), NOTHING, ours));
    if trial.fate(ClearNote) == Killed { return Some(Dead), ours; }
    if ours && disk.note == Some(plan.folder) && trial.fate(ClearNote) == Works {
      disk.note := None;
    }
    end := None;
  }

  lemma EndOfClearing(plan: Plan, trial: Trial, run: Run)
    ensures var stuck := if trial.fate(ClearBranches) == Works then {} else trial.stuck;
            var (w, isThrough) := if run.ours then StaleDeleted(plan, run.w, plan.listing, stuck) else (run.w, true);
            Forward(plan, trial, ClearBranches, run) ==
            if trial.fate(ClearBranches) != Works then (run.(w := w), Ending(trial.fate(ClearBranches)))
            else if isThrough then Forward(plan, trial, ClearNote, run.(w := w))
            else (run.(w := w), Failed)
  {
    hide StaleDeleted;
  }

  /** The loop over the names git lists: the stale ones are deleted, until one cannot be. */
  method ClearBranchesOf(disk: Disk, plan: Plan, stuck: set<string>) returns (stopped: bool)
    modifies disk`branches
    ensures (disk.Now(), !stopped) == StaleDeleted(plan, old(disk.Now()), plan.listing, stuck)
  {
    hide IsRemovalName, RemovalMessage, BranchDeleted;
    ghost var before := disk.Now();
    assert plan.listing[0..] == plan.listing;
    for k := 0 to |plan.listing|
      invariant StaleDeleted(plan, before, plan.listing, stuck) == StaleDeleted(plan, disk.Now(), plan.listing[k..], stuck)
      invariant disk.folders == old(disk.folders)
    {
      var name := plan.listing[k];
      assert plan.listing[k..][1..] == plan.listing[k + 1..];
      var isOurs := name in disk.branches && IsRemovalName(name)
                    && disk.branches[name] == RemovalMessage(plan.folder);
      if isOurs {
        if name in stuck || disk.head == Some(name) || exists t | t in disk.worktrees :: t.branch == name {
          return true;
        }
        disk.DeleteBranch(name);
      }
    }
    stopped := false;
  }

  /** One step that writes inside the project folder alone. */
  method WriteFolder(disk: Disk, plan: Plan, trial: Trial, s: Step, ghost run: Run) returns (end: Option<Outcome>)
    requires s == MarkFolder || s == StartFolder || s == CopyTeam || s == MoveDocuments || s == ListMembers
             || s == RewriteContracts || s == LogMove
    requires run.w == disk.Now()
    modifies disk`folders
    ensures Reaches(plan, trial, s, run, Next(s).value, run.(w := disk.Now()), end)
  {
    hide Forward, StaleDeleted, Pruned, FirstFree;
    OneStep(plan, trial, s, run);
    if trial.fate(s) != Works { return Some(Ending(trial.fate(s))); }
    var here := if plan.folder in disk.folders then disk.folders[plan.folder] else EMPTY;
    disk.folders := disk.folders[plan.folder := FolderStep(plan, s, here)];
    end := None;
  }

  /** 1. The project folder: refused when one that is not empty is there. */
  method MakeTheFolder(disk: Disk, made: MadeSoFar, plan: Plan, trial: Trial, ghost ours: bool) returns (end: Option<Outcome>)
    modifies disk`folders, made`folder
    ensures Reaches(plan, trial, MakeFolder, Run(old(disk.Now()), old(made.Now()), ours),
                    MarkFolder, Run(disk.Now(), made.Now(), ours), end)
  {
    hide StaleDeleted, Pruned, FirstFree;
    OneStep(plan, trial, MakeFolder, Run(disk.Now(), made.Now(), ours));
    if trial.fate(MakeFolder) != Works { return Some(Ending(trial.fate(MakeFolder))); }
    if plan.folder in disk.folders && disk.folders[plan.folder] != EMPTY {
      return Some(Failed);
    }
    disk.folders := disk.folders[plan.folder := EMPTY];
    made.folder := Some(plan.folder);
    end := None;
  }

  /** 3. The team's keys are copied to the new project. */
  method CopyKeys(disk: Disk, made: MadeSoFar, plan: Plan, trial: Trial, ghost ours: bool) returns (end: Option<Outcome>)
    modifies disk`keys, made`keys
    ensures Reaches(plan, trial, CopyTheKeys, Run(old(disk.Now()), old(made.Now()), ours),
                    MoveDocuments, Run(disk.Now(), made.Now(), ours), end)
  {
    hide StaleDeleted, Pruned, FirstFree, Forward;
    OneStep(plan, trial, CopyTheKeys, Run(disk.Now(), made.Now(), ours));
    if trial.fate(CopyTheKeys) != Works { return Some(Ending(trial.fate(CopyTheKeys))); }
    made.keys := CopiedKeys(plan, disk.keys);
    disk.keys := disk.keys + made.keys;
    end := None;
  }

  /** 1-3. The folder, marked and started; the team; the keys. */
  method MakeTheProject(disk: Disk, made: MadeSoFar, plan: Plan, trial: Trial, ghost ours: bool) returns (end: Option<Outcome>)
    modifies disk`folders, disk`keys, made`folder, made`keys
    ensures Reaches(plan, trial, MakeFolder, Run(old(disk.Now()), old(made.Now()), ours),
                    MoveDocuments, Run(disk.Now(), made.Now(), ours), end)
  {
    hide Forward;
    end := MakeTheFolder(disk, made, plan, trial, ours);
    if end.Some? { return; }
    end := WriteFolder(disk, plan, trial, MarkFolder, Run(disk.Now(), made.Now(), ours));
    if end.Some? { return; }
    end := WriteFolder(disk, plan, trial, StartFolder, Run(disk.Now(), made.Now(), ours));
    if end.Some? { return; }
    end := WriteFolder(disk, plan, trial, CopyTeam, Run(disk.Now(), made.Now(), ours));
    if end.Some? { return; }
    end := CopyKeys(disk, made, plan, trial, ours);
  }

  /** 4-7. The documents; the members; the contracts and checks. */
  method FillTheProject(disk: Disk, made: MadeSoFar, plan: Plan, trial: Trial, ghost ours: bool) returns (end: Option<Outcome>)
    modifies disk`folders
    ensures Reaches(plan, trial, MoveDocuments, Run(old(disk.Now()), made.Now(), ours),
                    PruneAgain, Run(disk.Now(), made.Now(), ours), end)
  {
    hide Forward;
    end := WriteFolder(disk, plan, trial, MoveDocuments, Run(disk.Now(), made.Now(), ours));
    if end.Some? { return; }
    end := WriteFolder(disk, plan, trial, ListMembers, Run(disk.Now(), made.Now(), ours));
    if end.Some? { return; }
    end := WriteFolder(disk, plan, trial, RewriteContracts, Run(disk.Now(), made.Now(), ours));
  }

  lemma SkippedDoesNothing(plan: Plan, s: Step, run: Run)
    requires IsSkipped(plan, s) && run.made.branch == None
    ensures Effect(plan, s, run) == Some(run) && s != RemoveMarker && s != ClearBranches
  {
    hide FirstFree, StaleDeleted, RemovalMessage, CopiedKeys, FolderStep, Pruned;
  }

  lemma SkipsRemoval(plan: Plan, trial: Trial, s: Step, run: Run)
    requires IsSkipped(plan, s) && run.made.branch == None
    ensures Forward(plan, trial, s, run) ==
            if trial.fate(s) == Killed then (run, Dead) else Forward(plan, trial, Next(s).value, run)
  {
    hide Forward, Effect;
    SkippedDoesNothing(plan, s, run);
    OneStep(plan, trial, s, run);
  }

  /** 8. The removal branch, unless git holds nothing to remove. */
  method MakeRemovalBranch(disk: Disk, made: MadeSoFar, plan: Plan, trial: Trial, ghost ours: bool)
    returns (end: Option<Outcome>)
    requires made.branch == None
    modifies disk`branches, disk`worktrees, made`branch
    ensures Reaches(plan, trial, PruneAgain, Run(old(disk.Now()), old(made.Now()), ours),
                    LogMove, Run(disk.Now(), made.Now(), ours), end)
  {
    hide Forward;
    if !plan.removes {
      end := PassRemoval(disk, made, plan, trial, ours);
      return;
    }
    end := ChooseTheBranch(disk, made, plan, trial, ours);
    if end.Some? { return; }
    end := AddTheBranch(disk, made, plan, trial, ours);
    if end.Some? { return; }
    end := CommitTheRemoval(disk, made, plan, trial, ours);
  }

  method ChooseTheBranch(disk: Disk, made: MadeSoFar, plan: Plan, trial: Trial, ghost ours: bool)
    returns (end: Option<Outcome>)
    requires plan.removes
    modifies disk`worktrees, made`branch
    ensures Reaches(plan, trial, PruneAgain, Run(old(disk.Now()), old(made.Now()), ours),
                    AddBranch, Run(disk.Now(), made.Now(), ours), end)
    ensures end.None? ==> made.branch.Some?
  {
    hide Forward, StaleDeleted, RemovalMessage, FirstFree, Pruned, CopiedKeys, FolderStep;
    OneStep(plan, trial, PruneAgain, Run(disk.Now(), made.Now(), ours));
    if trial.fate(PruneAgain) != Works { return Some(Ending(trial.fate(PruneAgain))); }
    disk.Prune();
    OneStep(plan, trial, ChooseBranch, Run(disk.Now(), made.Now(), ours));
    if trial.fate(ChooseBranch) != Works { return Some(Ending(trial.fate(ChooseBranch))); }
    var branch := TeamMove.FreeBranch(disk.branches);
    ghost var n: nat :| IsFirstFree(disk.branches, n) && branch == Candidate(REMOVAL, n);
    FreeIsFirstFree(disk.branches, n);
    made.branch := Some(branch);
    end := None;
  }

  method AddTheBranch(disk: Disk, made: MadeSoFar, plan: Plan, trial: Trial, ghost ours: bool)
    returns (end: Option<Outcome>)
    requires plan.removes && made.branch.Some?
    modifies disk`branches, disk`worktrees
    ensures Reaches(plan, trial, AddBranch, Run(old(disk.Now()), made.Now(), ours),
                    CommitRemoval, Run(disk.Now(), made.Now(), ours), end)
  {
    hide Forward, StaleDeleted, RemovalMessage, FirstFree, Pruned, CopiedKeys, FolderStep;
    var branch := made.branch.value;
    OneStep(plan, trial, AddBranch, Run(disk.Now(), made.Now(), ours));
    if trial.fate(AddBranch) != Works { return Some(Ending(trial.fate(AddBranch))); }
    disk.branches := disk.branches[branch := plan.tip];
    disk.worktrees := disk.worktrees + {Worktree(plan.folder, branch)};
    end := None;
  }

  lemma FreeIsFirstFree(branches: map<string, string>, n: nat)
    requires IsFirstFree(branches, n)
    ensures FirstFree(branches) == Candidate(REMOVAL, n)
  {
    var name := FirstFree(branches);
    var k: nat :| IsFirstFree(branches, k) && name == Candidate(REMOVAL, k);
    FirstFreeIsOne(branches, n, k);
  }

  method PassRemoval(disk: Disk, made: MadeSoFar, plan: Plan, trial: Trial, ghost ours: bool) returns (end: Option<Outcome>)
    requires !plan.removes && made.branch == None
    ensures Reaches(plan, trial, PruneAgain, Run(disk.Now(), made.Now(), ours),
                    LogMove, Run(disk.Now(), made.Now(), ours), end)
  {
    hide Forward;
    ghost var run := Run(disk.Now(), made.Now(), ours);
    SkipsRemoval(plan, trial, PruneAgain, run);
    SkipsRemoval(plan, trial, ChooseBranch, run);
    SkipsRemoval(plan, trial, AddBranch, run);
    SkipsRemoval(plan, trial, CommitRemoval, run);
    SkipsRemoval(plan, trial, DropScratch, run);
    end := if trial.fate(PruneAgain) == Killed || trial.fate(ChooseBranch) == Killed || trial.fate(AddBranch) == Killed
              || trial.fate(CommitRemoval) == Killed || trial.fate(DropScratch) == Killed then Some(Dead) else None;
  }

  /** The commit in the scratch worktree, and the worktree's end: with its branch when the commit failed. */
  method CommitTheRemoval(disk: Disk, made: MadeSoFar, plan: Plan, trial: Trial, ghost ours: bool)
    returns (end: Option<Outcome>)
    requires made.branch.Some? && plan.removes
    modifies disk`branches, disk`worktrees
    ensures Reaches(plan, trial, CommitRemoval, Run(old(disk.Now()), made.Now(), ours),
                    LogMove, Run(disk.Now(), made.Now(), ours), end)
  {
    hide StaleDeleted, RemovalMessage, FirstFree, BranchDeleted, Pruned;
    var branch := made.branch.value;
    var scratch := Worktree(plan.folder, branch);
    OneStep(plan, trial, CommitRemoval, Run(disk.Now(), made.Now(), ours));
    if trial.fate(CommitRemoval) == Killed { return Some(Dead); }
    if trial.fate(CommitRemoval) == Fails {
      if trial.isTidy {
        disk.worktrees := disk.worktrees - {scratch};
        disk.DeleteBranch(branch);
      }
      return Some(Failed);
    }
    disk.branches := disk.branches[branch := RemovalMessage(plan.folder)];
    OneStep(plan, trial, DropScratch, Run(disk.Now(), made.Now(), ours));
    if trial.fate(DropScratch) != Works { return Some(Ending(trial.fate(DropScratch))); }
    disk.worktrees := disk.worktrees - {scratch};
    end := None;
  }

  lemma LastStep(plan: Plan, trial: Trial, run: Run)
    ensures Forward(plan, trial, RemoveMarker, run) ==
            if trial.fate(RemoveMarker) == Works then (Effect(plan, RemoveMarker, run).value, Moved)
            else (run, Ending(trial.fate(RemoveMarker)))
  {
  }

  /** 9-11. The log, the note, and the commit point. */
  method Finish(disk: Disk, made: MadeSoFar, plan: Plan, trial: Trial, ghost ours: bool) returns (end: Outcome)
    modifies disk`folders, disk`note, made`movedTo
    ensures Forward(plan, trial, LogMove, Run(old(disk.Now()), old(made.Now()), ours)) ==
            (Run(disk.Now(), made.Now(), ours), end)
  {
    hide Forward, StaleDeleted, FirstFree, Pruned, RemovalMessage, CopiedKeys, ScratchDropped, BranchDeleted, IsOurs;
    var logged := WriteFolder(disk, plan, trial, LogMove, Run(disk.Now(), made.Now(), ours));
    if logged.Some? { return logged.value; }
    OneStep(plan, trial, WriteNote, Run(disk.Now(), made.Now(), ours));
    if trial.fate(WriteNote) != Works { return Ending(trial.fate(WriteNote)); }
    disk.note := Some(plan.folder);
    made.movedTo := true;
    LastStep(plan, trial, Run(disk.Now(), made.Now(), ours));
    if trial.fate(RemoveMarker) != Works { return Ending(trial.fate(RemoveMarker)); }
    var here := if plan.folder in disk.folders then disk.folders[plan.folder] else EMPTY;
    disk.folders := disk.folders[plan.folder := here.(marker := None)];
    end := Moved;
  }

  method MoveTeam(disk: Disk, made: MadeSoFar, plan: Plan, trial: Trial) returns (end: Outcome, ours: bool)
    requires made.Now() == NOTHING
    modifies disk, made
    ensures Forward(plan, trial, CountAgain, Run(old(disk.Now()), NOTHING, false)) ==
            (Run(disk.Now(), made.Now(), ours), end)
  {
    hide Forward;
    OneStep(plan, trial, CountAgain, Run(disk.Now(), NOTHING, false));
    if trial.fate(CountAgain) != Works { return Ending(trial.fate(CountAgain)), false; }
    var stop: Option<Outcome>;
    stop, ours := ClearAStaleMove(disk, plan, trial);
    if stop.Some? { return stop.value, ours; }
    stop := MakeTheProject(disk, made, plan, trial, ours);
    if stop.Some? { return stop.value, ours; }
    stop := FillTheProject(disk, made, plan, trial, ours);
    if stop.Some? { return stop.value, ours; }
    stop := MakeRemovalBranch(disk, made, plan, trial, ours);
    if stop.Some? { return stop.value, ours; }
    end := Finish(disk, made, plan, trial, ours);
  }

  /** One try at the move, from its lock to its undo: what it leaves is what the rule says. */
  method ConvertInPlace(disk: Disk, plan: Plan, trial: Trial) returns (end: Outcome)
    modifies disk
    ensures (disk.Now(), end) == Convert(plan, trial, old(disk.Now()))
  {
    hide Forward, Undone;
    if !trial.isLocked { return Failed; }
    var made := new MadeSoFar();
    var ours: bool;
    end, ours := MoveTeam(disk, made, plan, trial);
    if end == Failed {
      var isAlive := made.Undo(disk, trial);
      end := if isAlive then Failed else Dead;
    }
  }
}

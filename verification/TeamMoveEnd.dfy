/** What a move that goes through leaves, whatever it started on: the folder, the note, the branch and the keys. */
module TeamMoveEnd {
  import opened Wrappers
  import opened Texts
  import opened BranchNames
  import opened TeamMove
  import opened TeamMoveHome
  import opened TeamMoveRerun

  // ----- the keys

  /** Every wanted key of the old root's is there for the project folder, and no other key is new, and none is gone. */
  ghost predicate HasKeysCopied(plan: Plan, before: set<Key>, after: set<Key>) {
    && before <= after
    && (forall n | n in plan.wanted && Key(plan.root, n) in before :: Key(plan.folder, n) in after)
    && forall k | k in after && k !in before :: k.project == plan.folder && k.name in plan.wanted && Key(plan.root, k.name) in before
  }

  ghost predicate AreKeysAt(plan: Plan, start: World, s: Step, keys: set<Key>) {
    if Rank(s) <= Rank(CopyTheKeys) then keys == start.keys else HasKeysCopied(plan, start.keys, keys)
  }

  lemma StepOfKeys(plan: Plan, start: World, s: Step, run: Run)
    requires AreKeysAt(plan, start, s, run.w.keys) && Effect(plan, s, run).Some?
    ensures s != RemoveMarker ==> AreKeysAt(plan, start, Next(s).value, Effect(plan, s, run).value.w.keys)
    ensures s == RemoveMarker ==> HasKeysCopied(plan, start.keys, Effect(plan, s, run).value.w.keys)
    ensures s == ClearNote || IsSkipped(plan, s) ==> AreKeysAt(plan, start, Next(s).value, run.w.keys)
  {
    hide StaleDeleted, FirstFree, RemovalMessage, FolderStep, IsOurs;
    DeletionKeepsKeys(plan, run.w, plan.listing);
    SameRank(s, CopyTheKeys);
    CopyingKeys(plan, run.w.keys);
    hide CopiedKeys, HasKeysCopied;
    assert s != CopyTheKeys ==> Effect(plan, s, run).value.w.keys == run.w.keys;
  }

  lemma CopyingKeys(plan: Plan, keys: set<Key>)
    ensures HasKeysCopied(plan, keys, keys + CopiedKeys(plan, keys))
  {
  }

  lemma {:induction false} DeletionKeepsKeys(plan: Plan, w: World, names: seq<string>)
    ensures StaleDeleted(plan, w, names, {}).0.keys == w.keys
    decreases |names|
  {
    if names != [] {
      DeletionKeepsKeys(plan, w, names[1..]);
      DeletionKeepsKeys(plan, BranchDeleted(w, names[0]), names[1..]);
    }
  }

  lemma {:induction false} KeysOfMove(plan: Plan, trial: Trial, start: World, s: Step, run: Run)
    requires AreKeysAt(plan, start, s, run.w.keys)
    ensures var (after, outcome) := Forward(plan, trial, s, run);
            outcome == Moved ==> HasKeysCopied(plan, start.keys, after.w.keys)
    decreases 20 - Rank(s)
  {
    hide Effect, Broken, AreKeysAt, HasKeysCopied;
    if Effect(plan, s, run).Some? {
      StepOfKeys(plan, start, s, run);
    }
    if s != RemoveMarker {
      if trial.fate(s) == Works && Effect(plan, s, run).Some? {
        KeysOfMove(plan, trial, start, Next(s).value, Effect(plan, s, run).value);
      } else if trial.fate(s) == Fails && (s == ClearNote || IsSkipped(plan, s)) {
        PassedStepWorks(plan, s, run);
        KeysOfMove(plan, trial, start, Next(s).value, run);
      }
    }
  }

  lemma PassedStepWorks(plan: Plan, s: Step, run: Run)
    requires s == ClearNote || IsSkipped(plan, s)
    ensures Effect(plan, s, run).Some?
  {
    hide StaleDeleted, FirstFree, Pruned, RemovalMessage, FolderStep, IsOurs;
  }

  // ----- the folder, the note and the branch

  /** The names a removal branch may have. */
  function RemovalName(n: nat): string {
    if n == 1 then "catervas/moved-out" else "catervas/moved-out-" + Decimal(n)
  }

  /** What the removal commit says. */
  function MovedWords(folder: Path): string {
    "Remove Catervas's files: the team moved to " + folder
  }

  lemma RemovalMessageIs(folder: Path)
    ensures RemovalMessage(folder) == MovedWords(folder)
  {
  }

  lemma RemovalNameIs(n: nat)
    ensures Candidate(REMOVAL, n) == RemovalName(n)
  {
    assert REMOVAL + ("-" + Decimal(n)) == REMOVAL + "-" + Decimal(n);
  }

  /** A branch has the first of those names that no other has, and a commit that says where the team went. */
  ghost predicate HasRemovalBranch(plan: Plan, branches: map<string, string>, name: string, subject: string) {
    && name in branches && branches[name] == subject
    && exists n: nat :: n >= 1 && name == RemovalName(n) && forall m | 1 <= m < n :: RemovalName(m) in branches
  }

  ghost predicate IsNextName(branches: map<string, string>, name: string) {
    name !in branches && exists n: nat :: n >= 1 && name == RemovalName(n) && forall m | 1 <= m < n :: RemovalName(m) in branches
  }

  lemma FirstFreeIsNext(branches: map<string, string>)
    ensures IsNextName(branches, FirstFree(branches))
  {
    hide Candidate, RemovalName;
    var name := FirstFree(branches);
    var n :| IsFirstFree(branches, n) && name == Candidate(REMOVAL, n);
    RemovalNameIs(n);
    forall m: nat ensures Candidate(REMOVAL, m) == RemovalName(m) {
      RemovalNameIs(m);
    }
  }

  ghost predicate IsMakingFolder(plan: Plan, s: Step, folders: map<Path, Folder>) {
    Rank(s) > Rank(MakeFolder) ==> plan.folder in folders && folders[plan.folder] == FolderBefore(plan, s)
  }

  /** What branches there are before step `s`, and which the move has made. */
  ghost predicate IsMakingBranch(plan: Plan, start: World, s: Step, branches: map<string, string>, made: Option<string>) {
    && (made.Some? <==> plan.removes && Rank(s) > Rank(ChooseBranch))
    && if !plan.removes || Rank(s) <= Rank(AddBranch) then
         && (forall b | b in branches :: b in start.branches && branches[b] == start.branches[b])
         && (made.Some? ==> IsNextName(branches, made.value))
       else
         HasRemovalBranch(plan, branches, made.value,
                          if s == CommitRemoval then plan.tip else MovedWords(plan.folder))
  }

  lemma FoldersOfStep(plan: Plan, s: Step, run: Run)
    requires Effect(plan, s, run).Some? && Rank(s) >= Rank(MakeFolder)
    ensures Effect(plan, s, run).value.w.folders ==
            if s == MakeFolder then run.w.folders[plan.folder := EMPTY]
            else if FolderSteps(s) then
              run.w.folders[plan.folder := FolderStep(plan, s, if plan.folder in run.w.folders then run.w.folders[plan.folder] else EMPTY)]
            else run.w.folders
  {
    hide StaleDeleted, FirstFree, RemovalMessage, FolderStep, IsOurs, CopiedKeys;
  }

  lemma FolderOfStep(plan: Plan, s: Step, run: Run)
    requires IsMakingFolder(plan, s, run.w.folders) && s != RemoveMarker && Effect(plan, s, run).Some?
    ensures IsMakingFolder(plan, Next(s).value, Effect(plan, s, run).value.w.folders)
  {
    hide Effect, FolderStep, FolderBefore;
    if s == MakeFolder {
      FoldersOfStep(plan, s, run);
      FolderGrows(plan, MarkFolder);
    } else if Rank(s) > Rank(MakeFolder) {
      FoldersOfStep(plan, s, run);
      FolderGrows(plan, s);
      OtherStepsKeepFolder(plan, s, FolderBefore(plan, s));
    }
  }

  lemma OtherStepsKeepFolder(plan: Plan, s: Step, f: Folder)
    ensures !FolderSteps(s) ==> FolderStep(plan, s, f) == f
  {
  }

  lemma BranchesOfStep(plan: Plan, s: Step, run: Run)
    requires Effect(plan, s, run).Some?
    ensures var after := Effect(plan, s, run).value;
            && after.made.branch ==
               (if s == ChooseBranch && plan.removes then Some(FirstFree(run.w.branches)) else run.made.branch)
            && after.w.head == run.w.head
            && after.w.note == (if s == WriteNote then Some(plan.folder) else if s == ClearNote then after.w.note else run.w.note)
    ensures var after := Effect(plan, s, run).value;
            after.w.branches ==
              if s == ClearBranches then after.w.branches
              else if s == AddBranch && run.made.branch.Some? then run.w.branches[run.made.branch.value := plan.tip]
              else if s == CommitRemoval && run.made.branch.Some? then
                run.w.branches[run.made.branch.value := MovedWords(plan.folder)]
              else run.w.branches
  {
    RemovalMessageIs(plan.folder);
    hide StaleDeleted, FirstFree, FolderStep, IsOurs, CopiedKeys, RemovalMessage, MovedWords;
    OnlyStaleDeleted(plan, run.w, plan.listing, {});
  }

  lemma NewBranchHasName(plan: Plan, branches: map<string, string>, name: string, subject: string)
    requires IsNextName(branches, name)
    ensures HasRemovalBranch(plan, branches[name := subject], name, subject)
  {
    hide RemovalName;
  }

  lemma NewSubject(plan: Plan, branches: map<string, string>, name: string, before: string, subject: string)
    requires HasRemovalBranch(plan, branches, name, before)
    ensures HasRemovalBranch(plan, branches[name := subject], name, subject)
  {
    hide RemovalName;
  }

  lemma BranchOfStep(plan: Plan, start: World, s: Step, run: Run)
    requires IsMakingBranch(plan, start, s, run.w.branches, run.made.branch) && s != RemoveMarker && Effect(plan, s, run).Some?
    ensures var after := Effect(plan, s, run).value;
            IsMakingBranch(plan, start, Next(s).value, after.w.branches, after.made.branch)
  {
    hide IsNextName, HasRemovalBranch, MovedWords;
    BranchesOfStep(plan, s, run);
    if s == ClearBranches {
      ClearedBranches(plan, run);
    }
    hide Effect;
    SameRank(s, AddBranch);
    if s == ChooseBranch {
      FirstFreeIsNext(run.w.branches);
    } else if s == AddBranch && plan.removes {
      NewBranchHasName(plan, run.w.branches, run.made.branch.value, plan.tip);
    } else if s == CommitRemoval && plan.removes {
      NewSubject(plan, run.w.branches, run.made.branch.value, plan.tip, MovedWords(plan.folder));
    }
  }

  lemma ClearedBranches(plan: Plan, run: Run)
    requires Effect(plan, ClearBranches, run).Some?
    ensures var after := Effect(plan, ClearBranches, run).value.w.branches;
            forall b | b in after :: b in run.w.branches && after[b] == run.w.branches[b]
  {
    hide StaleDeleted;
    OnlyStaleDeleted(plan, run.w, plan.listing, {});
  }

  lemma PassedStep(plan: Plan, start: World, s: Step, run: Run)
    requires s == ClearNote || IsSkipped(plan, s)
    ensures s != RemoveMarker
    ensures IsMakingFolder(plan, s, run.w.folders) ==> IsMakingFolder(plan, Next(s).value, run.w.folders)
    ensures IsMakingBranch(plan, start, s, run.w.branches, run.made.branch) ==>
              IsMakingBranch(plan, start, Next(s).value, run.w.branches, run.made.branch)
  {
    hide IsNextName, HasRemovalBranch, FolderStep, FolderBefore, MovedWords;
    if s != ClearNote {
      FolderGrows(plan, s);
      OtherStepsKeepFolder(plan, s, FolderBefore(plan, s));
    }
  }

  /** What a move has made before step `s`. */
  ghost predicate IsMaking(plan: Plan, start: World, s: Step, run: Run) {
    && run.w.head == start.head && (Rank(s) > Rank(WriteNote) ==> run.w.note == Some(plan.folder))
    && IsMakingFolder(plan, s, run.w.folders) && IsMakingBranch(plan, start, s, run.w.branches, run.made.branch)
  }

  lemma StepOfMaking(plan: Plan, start: World, s: Step, run: Run)
    requires IsMaking(plan, start, s, run) && s != RemoveMarker
    ensures Effect(plan, s, run).Some? ==> IsMaking(plan, start, Next(s).value, Effect(plan, s, run).value)
    ensures s == ClearNote || IsSkipped(plan, s) ==> IsMaking(plan, start, Next(s).value, run)
  {
    hide Effect, IsMakingFolder, IsMakingBranch, MovedWords;
    SameRank(s, WriteNote);
    if Effect(plan, s, run).Some? {
      FolderOfStep(plan, s, run);
      BranchOfStep(plan, start, s, run);
      BranchesOfStep(plan, s, run);
    }
    if s == ClearNote || IsSkipped(plan, s) {
      PassedStep(plan, start, s, run);
    }
  }

  /** What a move that went through leaves, and what it has kept. */
  ghost predicate IsMoved(plan: Plan, start: World, w: World) {
    && w.note == Some(plan.folder) && w.head == start.head
    && plan.folder in w.folders
    && w.folders[plan.folder] == Folder(None, true, true, {Repository, Documents, Contracts, EventLog})
    && if plan.removes then
         exists name :: HasRemovalBranch(plan, w.branches, name, MovedWords(plan.folder))
       else forall b | b in w.branches :: b in start.branches && w.branches[b] == start.branches[b]
  }

  lemma LastOfMaking(plan: Plan, start: World, run: Run)
    requires IsMaking(plan, start, RemoveMarker, run) && Effect(plan, RemoveMarker, run).Some?
    ensures IsMoved(plan, start, Effect(plan, RemoveMarker, run).value.w)
  {
    hide Effect, HasRemovalBranch, FolderStep, FolderBefore, MovedWords;
    FoldersOfStep(plan, RemoveMarker, run);
    BranchesOfStep(plan, RemoveMarker, run);
    LastFolder(plan);
  }

  lemma {:induction false} MakingOfMove(plan: Plan, trial: Trial, start: World, s: Step, run: Run)
    requires IsMaking(plan, start, s, run)
    ensures var (after, outcome) := Forward(plan, trial, s, run); outcome == Moved ==> IsMoved(plan, start, after.w)
    decreases 20 - Rank(s)
  {
    hide Effect, Broken, IsMaking, IsMoved;
    if s == RemoveMarker {
      if Effect(plan, s, run).Some? {
        LastOfMaking(plan, start, run);
      }
    } else {
      StepOfMaking(plan, start, s, run);
      if trial.fate(s) == Works && Effect(plan, s, run).Some? {
        MakingOfMove(plan, trial, start, Next(s).value, Effect(plan, s, run).value);
      } else if trial.fate(s) == Fails && (s == ClearNote || IsSkipped(plan, s)) {
        MakingOfMove(plan, trial, start, Next(s).value, run);
      }
    }
  }

  /** A move that goes through, from any disk and passing over whatever it may, leaves the folder finished and whole, the
      note, the removal branch under the first free of its names and with its words, and every wanted key. */
  lemma MovedLeaves(plan: Plan, trial: Trial, w: World)
    requires Convert(plan, trial, w).1 == Moved
    ensures IsMoved(plan, w, Convert(plan, trial, w).0)
    ensures HasKeysCopied(plan, w.keys, Convert(plan, trial, w).0.keys)
  {
    hide Forward, IsMoved, HasKeysCopied;
    MakingOfMove(plan, trial, w, CountAgain, Run(w, NOTHING, false));
    KeysOfMove(plan, trial, w, CountAgain, Run(w, NOTHING, false));
  }

  // ----- what a stale branch is

  /** A number that fits in 64 bits, a `+` before it allowed. */
  ghost predicate IsCount(s: string) {
    exists sign, digits :: (sign == "" || sign == "+") && digits != "" && AreDigits(digits)
                           && Value(digits) < 18446744073709551616 && s == sign + digits
  }

  lemma CountIsU64(s: string)
    ensures IsU64(s) <==> IsCount(s)
  {
    hide Value;
    if IsU64(s) {
      if s[0] == '+' {
        assert s == "+" + s[1..];
      } else {
        assert s == "" + s;
      }
    }
    if sign, digits :| (sign == "" || sign == "+") && digits != "" && AreDigits(digits)
                       && Value(digits) < 18446744073709551616 && s == sign + digits {
      if sign == "+" {
        assert s[1..] == digits;
      } else {
        assert s == digits && IsDigit(digits[0]);
      }
    }
  }

  /** The names the cleaner knows: the bare one, or that and such a number. */
  lemma RemovalNameExactly(name: string)
    ensures IsRemovalName(name) <==>
            name == "catervas/moved-out" || exists count :: IsCount(count) && name == "catervas/moved-out-" + count
  {
    hide IsU64, IsCount;
    var dashed := REMOVAL + "-";
    assert dashed == "catervas/moved-out-";
    if dashed <= name {
      CountIsU64(name[|dashed|..]);
      assert name == dashed + name[|dashed|..];
    }
    if count :| IsCount(count) && name == dashed + count {
      assert name[|dashed|..] == count;
      CountIsU64(count);
    }
  }

  /** A branch is a stale one of this move's exactly when it has such a name and the words that name the folder. */
  lemma StaleExactly(plan: Plan, w: World, name: string)
    ensures IsStale(plan, w, name) <==>
            && name in w.branches && w.branches[name] == MovedWords(plan.folder)
            && (name == "catervas/moved-out" || exists count :: IsCount(count) && name == "catervas/moved-out-" + count)
  {
    RemovalMessageIs(plan.folder);
    hide IsRemovalName, IsCount, RemovalMessage, MovedWords;
    RemovalNameExactly(name);
  }

  /** Moves to different folders do not take each other's branches for their own. */
  lemma NoTwoFoldersStale(plan: Plan, other: Plan, w: World, name: string)
    requires IsStale(plan, w, name) && IsStale(other, w, name)
    ensures plan.folder == other.folder
  {
    var words := "Remove Catervas's files: the team moved to ";
    assert RemovalMessage(plan.folder)[|words|..] == plan.folder;
    assert RemovalMessage(other.folder)[|words|..] == other.folder;
  }
}

# Verification of Catervas's hardest logic

Catervas runs a team of agents in a repository. This project models the parts of it where a mistake
would be hard to see, and proves what they promise:

- **Counting a reply once.** Copies of a session are found through an index of reply fingerprints; the
  links between sessions are classified by how many touch a session; a union-find with path halving
  groups them; and of every group's replies with one fingerprint all but one session's are dropped.
  `SessionLinks`, `UnionFind`, `CountedOnce`, `SessionCopies`, `CopiesExactly`, `SessionOrder`, `LinkOrder`.
- **Projects from folders.** Which project a session's folder belongs to, and which found projects are
  one by their remote. `FolderPlaces`, `RemoteGroups`.
- **The move of a team into a project folder.** A transaction of many steps over a folder, a crash
  marker, a note, git branches, worktrees and keys, each of which can fail or be the last one before
  the process dies; its undo; its clearing of an earlier try; and its one commit point. `TeamMove` is
  the abstract disk, the steps and the whole try as a function, `TeamMoveRun` the imperative code,
  proved to do what that function says; `TeamMoveEnd`, `TeamMoveRollback`, `TeamMoveHome`,
  `TeamMoveRerun` and `TeamMoveNotes` prove the promises about every try, however it ends.
- **The autopilot's rate limits.** Three sliding hours and an exact release time. `RateLimiter`.
- **Branch names.** Slugs of whole words, the search for a free name, and the two namespaces.
  `BranchNames` and `BranchNamesExactly`, with `Texts` for joining, splitting and printing numbers.
- **Two codecs.** The chunked-body decoder against section 7.1 of RFC 9112 (`ChunkedBody`,
  `ChunkedBodyExactly`) and the terminal escaper against sections 2 and 7 of RFC 8259 (`Printable`).

`Orders`, `Sequences` and `Wrappers` hold the sorts, orders and filters the rest uses. Code that
changes state is modelled as methods with loops, arrays or classes and proved equal to a
specification function; expression code is modelled as functions. What such a function
rests on - which characters, figures, words and folders - is stated once more beside it with the
values written out, by members such as those whose names end in `Exactly`. A reply's fingerprint is called
its `mark` here, and a folder's canonical path `canonical`.

## Model

| member | source | states |
|---|---|---|
| UnionFind.HalvingKeepsRoots | crates/core/src/claude_history.rs:766-772 | One halving step leaves every node's representative and the measure that makes following parents end. |
| UnionFind.LinkMovesOneTree | crates/core/src/claude_history.rs:788 | Hanging one root under another moves exactly that root's tree, and no other node's representative changes. |
| UnionFind.ComponentOf | crates/core/src/claude_history.rs:766-772 | Always ends, answers the representative `start` had before the call, and changes no node's representative although it rewrites parents on its way. |
| UnionFind.UnionAll | crates/core/src/claude_history.rs:782-789 | After the loop two sessions have one representative exactly when a chain of linked pairs joins them. |
| SessionLinks.AreLinkedIsSymmetric | crates/core/src/claude_history.rs:756-764 | Whether two sessions are linked does not depend on which is asked first, although one side's marks alone are counted. |
| SessionLinks.AreLinkedExactly | crates/core/src/claude_history.rs:736-764 | Said reply by reply: two sessions are linked exactly when three different fingerprints are each held by a reply of both under different keys, and the replies of one of them that the other so holds are exactly its first ones. |
| SessionLinks.LinkedPairsAre | crates/core/src/claude_history.rs:856-859 | The all-pairs definition: exactly the pairs of a lower and a higher index that are linked, each once, in ascending order. |
| SessionLinks.IndexReplies | crates/core/src/claude_history.rs:844-849 | The index holds, under each fingerprint, exactly the sessions that hold it. |
| SessionLinks.Candidates | crates/core/src/claude_history.rs:850-855 | The candidates are exactly the pairs that hold some fingerprint in common. |
| SessionLinks.FindPairs | crates/core/src/claude_history.rs:843-859 | The indexed search loses no link and adds none: its pairs are the all-pairs definition, in the same order. |
| SessionLinks.CountDegrees | crates/core/src/claude_history.rs:860-864 | A session's degree is how many pairs touch it. |
| SessionLinks.LonePairByDegree | crates/core/src/claude_history.rs:869 | Both degrees are one exactly when the two sessions are in no other link. |
| CountedOnce.LonePairIsAGroup | crates/core/src/claude_history.rs:869-876 | A merging pair is a whole connected group. |
| CountedOnce.FirstHolderOfGroup | crates/core/src/claude_history.rs:809-816 | The session kept for a fingerprint is a matter of the group, whichever member is asked. |
| CountedOnce.PartnerIsFirstHolder | crates/core/src/claude_history.rs:809-816 | The partner branch agrees with the minimum: the kept side of a merging pair is the earliest holder by start, then row id, then position. |
| CountedOnce.KeptSession | crates/core/src/claude_history.rs:809-816 | Both branches together answer the group's first holder. |
| CountedOnce.FiledIsWholeGroup | crates/core/src/claude_history.rs:790-802 | What is filed under one representative and fingerprint is all of a connected group's replies with it, and nothing else. |
| CountedOnce.GroupReplies | crates/core/src/claude_history.rs:790-802 | Filing the replies, while path halving goes on, puts every reply of a linked session in its group once and in order. |
| CountedOnce.CopiesOfGroups | crates/core/src/claude_history.rs:803-828 | Taking the groups in any order gives exactly the drops of the rule, each once. |
| CountedOnce.RepliesCountedOnce | crates/core/src/claude_history.rs:776-831 | The whole procedure answers the rule's drops, sorted: every reply of a group but those of its fingerprint's first holder, with that holder's least key. |
| SessionCopies.LinkPairs | crates/core/src/claude_history.rs:865-890 | Every pair's link is the rule's, and the kept sessions recorded are exactly those of the pairs in no other link. |
| SessionCopies.CopiesAmong | crates/core/src/claude_history.rs:842-914 | The source's procedure answers what the rule over all pairs and all groups answers, for any sessions, duplicates and all. |
| SessionCopies.CopyLinksAreAMatching | crates/core/src/claude_history.rs:865-907 | With distinct session ids, no session a `CopyOf` names is named by any other link, `CopyOf` or `MaybeSame`. |
| SessionCopies.ReplyCopiesAre | crates/core/src/claude_history.rs:774-831 | A pair is answered exactly when some reply's drop says it. |
| SessionCopies.CountedOnceEach | crates/core/src/claude_history.rs:833-840 | With unique reply keys, of a connected group's replies with one fingerprint those not copied are exactly the first holder's. |
| SessionCopies.KeptForEachCopy | crates/core/src/claude_history.rs:774-831 | With unique reply keys, copied to kept is a function, keeps the fingerprint, goes to the first holder of the group, and no kept key is a copied one. |
| CopiesExactly.LinksExactly | crates/core/src/claude_history.rs:860-907 | Said of the sessions alone: the links are exactly, for every two linked ones, `CopyOf` the later to the earlier by start, row id and position when each is the other's only link, and else `MaybeSame` with the smaller id first. |
| CopiesExactly.LinksAreInOrder | crates/core/src/claude_history.rs:891 | Links are in the order of the first name, then the second, then a doubtful one before a merged one. |
| CopiesExactly.ReplyCopiesExactly | crates/core/src/claude_history.rs:774-831 | Said of the replies alone: a pair of keys is answered exactly when the first is of a reply whose fingerprint another session of its connected group has that starts before every other holder, and the second is that session's least key with it. |
| CopiesExactly.ReplyCopiesAreInOrder | crates/core/src/claude_history.rs:829 | The pairs are in the order of the copied key, then the kept one. |
| Orders.TextLeExactly | crates/core/src/claude_history.rs:883-887 | The order of names: a text before what it begins, and else by the first character that differs. |
| SessionOrder.CopiesIgnoreOrder | crates/core/src/claude_history.rs:842-914 | With distinct session ids and row ids, any permutation of the sessions gives the same links and the same reply copies. |
| LinkOrder.LinksAreByName | crates/core/src/claude_history.rs:891-907 | Links come in the order of the session each names first, whatever their kind. |
| LinkOrder.CopiesComeFirstExactly | crates/core/src/claude_history.rs:730 | The documented order, `CopyOf` before `MaybeSame`, holds exactly when, of the sessions given, the id of every one merged into another is no greater than the id of every one in a doubtful pair. |
| LinkOrder.CopiesNeedNotComeFirst | crates/core/src/claude_history.rs:730 | Five sessions for which it does not hold. |
| FolderPlaces.LongerIsDeeper | crates/core/src/claude_history.rs:321-323 | Of two folders that hold one path, the longer text is the one inside: comparing lengths compares depths. |
| FolderPlaces.PlaceIsWhereItBelongs | crates/core/src/claude_history.rs:324-389 | The place is the only one that a description with no lengths allows: never a blocked folder, else the git root, else the innermost root, else gone, else the outermost folder with no git. |
| FolderPlaces.EveryPlaceBelongs | crates/core/src/claude_history.rs:349-389 | Every folder is answered, in order, with the place that description gives it. |
| FolderPlaces.PlacesIgnoreOrder | crates/core/src/claude_history.rs:332-389 | Neither the order of the folders nor of the known roots, nor repeats, change a place. |
| FolderPlaces.NoRootIsBlocked | crates/core/src/claude_history.rs:329-330 | No project root is ever home or a temporary folder, whatever git or an earlier scan says. |
| FolderPlaces.NeverAProject | crates/core/src/claude_history.rs:337-341 | In terms of what is given: a folder has the place `NotAProject` exactly when it is one of the caller's not-projects, the file system's root, `/tmp` or `/var/tmp`, and none of those is the root of any project. |
| FolderPlaces.GitComesFirst | crates/core/src/claude_history.rs:345-360 | Any other folder is in the project of its git root when that root holds none of those. |
| FolderPlaces.PlaceExactly | crates/core/src/claude_history.rs:361-388 | And a folder with no such git root is in the innermost root above it - found before, with git unless the folder is gone, or a folder's git root now - or gone, or in the outermost listed folder above it that exists and has no git. |
| FolderPlaces.OutermostAgrees | crates/core/src/claude_history.rs:378-386 | A folder placed by the outermost rule has the root of every listed, existing, unblocked folder with no git that holds it. |
| FolderPlaces.RootIsPlacedAtItself | crates/core/src/claude_history.rs:350-388 | The root of a folder that exists is itself placed there exactly when git does not put it elsewhere. |
| FolderPlaces.RootCanBeElsewhere | crates/core/src/claude_history.rs:350-377 | A folder that exists, whose root git puts in another project. |
| FolderPlaces.RootOfGoneIsPlacedAtItself | crates/core/src/claude_history.rs:361-388 | The same for a gone folder's root: exactly when git says so, or it is a root found, or nothing with git and no folder without holds it. |
| FolderPlaces.RootOfGoneCanBeElsewhere | crates/core/src/claude_history.rs:361-377 | A gone folder whose root is itself in another project. |
| FolderPlaces.ScanningAgainMovesExactly | crates/core/src/claude_history.rs:332-389 | With any roots newly known, exactly when an existing folder stays where it was. |
| FolderPlaces.ScanningAgainMovesNothing | crates/core/src/claude_history.rs:332-389 | With this scan's roots newly known, every existing folder stays where it was, provided a root newly said to have git is one an existing folder was placed at. |
| FolderPlaces.NewGitMovesAFolder | crates/core/src/claude_history.rs:361-377 | A folder that exists and is moved, by a root newly said to have git that only a gone folder was placed at. |
| FolderPlaces.ScanningAgainMovesGoneExactly | crates/core/src/claude_history.rs:361-377 | A gone folder stays exactly when no added root holds it more closely. |
| FolderPlaces.ScanningAgainCanFindGone | crates/core/src/claude_history.rs:361-377 | A gone folder in no project that the next scan places. |
| RemoteGroups.Joins | crates/core/src/claude_history.rs:663-669 | A project joins a group exactly when it may share it with every project there, although the remote is compared with the group's first alone. |
| RemoteGroups.FoldByRemote | crates/core/src/claude_history.rs:650-676 | The groups are a partition of the indexes in order; every two projects of a group have one remote and are not apart; and every group before a project's own holds an earlier project that keeps it out. |
| RemoteGroups.OnlyOneGrouping | crates/core/src/claude_history.rs:650-676 | Those properties leave one grouping: any two that have them put the same projects together. |
| RemoteGroups.TogetherMayShare | crates/core/src/claude_history.rs:641-644 | Two projects of one group have one remote and were not said to be different, whichever order the pair is asked in. |
| RemoteGroups.SeparatedAreNotTogether | crates/core/src/claude_history.rs:641-660 | Of two projects in one group the remotes are one, and no pair the owner separated, smaller path first, names their roots. |
| RemoteGroups.NoRemoteIsAlone | crates/core/src/claude_history.rs:643 | A project with no remote is a group of its own. |
| RemoteGroups.NoTwoGroupsCouldBeOne | crates/core/src/claude_history.rs:641-644 | Two groups of one remote hold a pair said to be different, so no two could be merged. |
| RemoteGroups.GroupsAreSeparated | crates/core/src/claude_history.rs:641-660 | Two groups of one remote hold two projects whose roots are a pair the owner separated, smaller path first. |
| RemoteGroups.NothingApartIsByRemote | crates/core/src/claude_history.rs:641-644 | With no two projects of a remote apart, those of that remote are exactly one group. |
| TeamMove.FreeBranch | crates/cli/src/convert.rs:489-506 | The search ends within one more try than there are branches, with the first candidate that is no branch. |
| TeamMove.FreeNamesAreRemovalNames | crates/cli/src/convert.rs:467-470 | Every name the search can make is one the cleaner of a later try knows. |
| TeamMoveRun.MadeSoFar.Undo | crates/cli/src/convert.rs:99-114 | The undo in place leaves the disk the rule says, whichever of its steps fail and wherever it dies. |
| TeamMoveRun.ClearBranchesOf | crates/cli/src/convert.rs:466-481 | The loop over git's branch names deletes the stale ones in order until one cannot be deleted, and says whether it stopped. |
| TeamMoveRun.ClearAStaleMove | crates/cli/src/convert.rs:453-487 | Clearing in place refines the five clearing steps, with every failure and death. |
| TeamMoveRun.CommitTheRemoval | crates/cli/src/convert.rs:310-320 | The removal commit and the end of its worktree, with the branch tidied away when the commit failed. |
| TeamMoveRun.MoveTeam | crates/cli/src/convert.rs:147-361 | The move in place ends on the disk, with the record of what was made and the outcome, that the rule's chain of steps gives. |
| TeamMoveRun.ConvertInPlace | crates/cli/src/convert.rs:125-141 | One whole try, from its lock to its undo, leaves the disk and the outcome of the rule; every theorem below is about that rule. |
| TeamMoveEnd.MovedLeaves | crates/cli/src/convert.rs:175-361 | A try that goes through, from any disk: the folder is finished and whole, the note names it, a removal branch has the first free of its names and the words that name the folder, when one is due; every wanted key of the old root is there for the project folder, no other is new and none is gone. |
| TeamMoveEnd.StaleExactly | crates/cli/src/convert.rs:465-476 | A branch is a stale one exactly when its commit has those words and its name is the bare one or that with a number of 64 bits, a `+` before it allowed. |
| TeamMoveEnd.NoTwoFoldersStale | crates/cli/src/convert.rs:363-369 | No branch is a stale one of moves to two different folders. |
| TeamMoveRollback.MoveIsAccounted | crates/cli/src/convert.rs:147-361 | Wherever a move stops, every difference from the disk it started on, worktrees that are gone included, is one `Made` records, or a stale try's that was cleared. |
| TeamMoveRollback.UndoneIs | crates/cli/src/convert.rs:99-114 | What a whole undo leaves, including that the branch can only be deleted because the worktree that held it went first. |
| TeamMoveRollback.RollbackRestores | crates/cli/src/convert.rs:136-140 | After any failed step and an undo that works, nothing the move made is left: no other folder changed, the project folder is as it was, or gone where it was empty or a stale try's; every branch is as it was but stale ones of this same move; no key but the copied ones is gone; the worktrees are exactly the start's whose folders are there; and the note is as it was, unless it was a stale try's own or the last step is the one that failed. |
| TeamMoveRollback.NothingElseIsLost | crates/cli/src/convert.rs:99-114 | However a try ends, and whatever happens to its undo, no other folder, no folder in the way, no branch but stale ones of this same move, no worktree elsewhere and no key of another project is gone. |
| TeamMoveRollback.WritesNoteExactly | crates/cli/src/convert.rs:352-358 | A move has failed with its note written exactly when every step goes on but the last, which fails, and no folder or checked-out branch is in the way: a matter of the trial and the disk it starts on. |
| TeamMoveRollback.NoteSurvivesExactly | crates/cli/src/convert.rs:352-358 | In a failed try undone whole, the note of an earlier move is lost exactly when the step that failed is the last. |
| TeamMoveRollback.EarlierNoteIsLost | crates/cli/src/convert.rs:100-102 | A disk and a trial for which it is lost. |
| TeamMoveHome.OneLiveHome | crates/cli/src/project.rs:127-140 | Before the commit the old root opens itself and the folder does not open; after it both open the folder. |
| TeamMoveHome.OpensExactly | crates/store/src/repos.rs:91-115 | When the old root opens another folder than itself, and when a folder opens, is refused or is no project, by note, list, marker and team. |
| TeamMoveHome.MoveCommitsOrNot | crates/cli/src/convert.rs:352-358 | From an uncommitted disk a move is committed exactly when it says it moved, wherever else it stops or dies. |
| TeamMoveHome.AgainRefuses | crates/cli/src/convert.rs:176-179 | After the commit a try refuses, and whatever fails in it deletes nothing but forgotten worktrees. |
| TeamMoveHome.TryStaysInFolder | crates/cli/src/convert.rs:147-361 | However a try ends, it changes no folder but the one it is for. |
| TeamMoveHome.OneTry | crates/cli/src/convert.rs:352-358 | One whole try, undo included, has moved the team exactly when it says so. |
| TeamMoveHome.NeverTwoHomes | crates/cli/src/project.rs:127-140 | After any number of tries, each for a place of its own until one goes through and each failing or dying anywhere - forward, clearing or undoing - no two projects open: before, the old root alone does and none of the places; from then on both the old root and that place open it, and no other place does. The start may hold a note to a half-made place. |
| TeamMoveHome.MovedForGood | crates/cli/src/convert.rs:176-179 | Once moved, still moved after any number of further tries for that folder. |
| TeamMoveRerun.WorksFromResidue | crates/cli/src/convert.rs:453-487 | From whatever kills anywhere can leave, a move that works goes through to the disk of an unkilled one, but for the branches clearing keeps. |
| TeamMoveRerun.KillLeavesResidue | crates/cli/src/convert.rs:147-361 | A move killed before any step, clearing included, leaves from such leftovers such leftovers. |
| TeamMoveRerun.KilledMovesEndExactly | crates/cli/src/convert.rs:147-361 | After any number of kills at any moments a move that works goes through; and it reaches the very disk of an unkilled move exactly when every branch that was not there at the start is a stale one and the folder is still marked as this move's. |
| TeamMoveRerun.KillMattersFromResidue | crates/cli/src/convert.rs:453-487 | On leftovers the next try would clear, one more kill leaves what it would not exactly when it came between the removal branch and its commit, or at clearing the worktrees or branches with a stale branch still there. |
| TeamMoveRerun.KilledMovesEndTheSame | crates/cli/src/convert.rs:147-361 | So any number of kills, none of them like that, and then a move that works reach the very disk of an unkilled move: one branch under the same name, the note, the folder, no marker. |
| TeamMoveRerun.KillMattersExactly | crates/cli/src/convert.rs:304-320 | From a clean start, a kill before any step and a second try reach the disk of an unkilled move exactly when the kill was not between the removal branch, if one is made, and its commit. |
| TeamMoveRerun.KillWhileClearingLeavesABranch | crates/cli/src/convert.rs:457-481 | A try killed after it cleared the stale folder and before the stale branch leaves that branch for good, and the next makes a second one. |
| TeamMoveNotes.EarlierNoteOpensTwo | crates/cli/src/convert.rs:352-358 | Starting with a note to a finished folder, a move killed before its last step leaves two projects that open. |
| TeamMoveNotes.EarlierNoteMattersExactly | crates/cli/src/convert.rs:352-358 | From a disk with an earlier move's note, no way a try can end leaves two projects open exactly when the folder that note names is not finished. |
| RateLimiter.HeldWhenFull | crates/core/src/autopilot.rs:365-376 | A limit holds exactly when the past hour holds its figure of calls. |
| RateLimiter.AnswerExactly | crates/core/src/autopilot.rs:344-399 | By the numbers: a call is let through exactly when of the calls later than an hour before it fewer than three are alike, fewer than a third of the figure but at least one are of the tool, and fewer than the figure are there at all; else the first of these that fails is answered, with its figure. |
| RateLimiter.ReleaseExactly | crates/core/src/autopilot.rs:369-376 | The release time is an hour after the call that keeps the count at the figure: later ones fall short of it, and with those of that time they reach it. |
| RateLimiter.AnswerIgnoresOrderAndOldCalls | crates/core/src/autopilot.rs:365-367 | Histories with the same calls in the past hour get the same answer, whatever their order and their older calls. |
| RateLimiter.HeldLater | crates/core/src/autopilot.rs:369-376 | With no further calls, a limit says the same until its release time and nothing from then on, and one that does not hold does not come to hold. |
| RateLimiter.RefusalHoldsUntilRelease | crates/core/src/autopilot.rs:389-398 | A refusal is the identical refusal at every instant before its release time. |
| RateLimiter.ReleasedAtRelease | crates/core/src/autopilot.rs:389-398 | At its release time that limit and every one checked before it no longer holds. |
| RateLimiter.AllowedAtReleaseUnlessLaterFull | crates/core/src/autopilot.rs:338-339 | At the release time one more call is allowed exactly when no limit checked later is full of the calls left in that hour. |
| RateLimiter.AdmittedIsAllowedAtRelease | crates/core/src/autopilot.rs:338-339 | For every history let through under the same figure the promise is kept: at the release time the call is allowed. |
| RateLimiter.ReleaseIsNotAlwaysAllowed | crates/core/src/autopilot.rs:338-339 | Three calls let through under a figure of 9, after which it is not kept under a figure of 3; no history let through under 3 is like that. |
| RateLimiter.NoHourOverFull | crates/core/src/autopilot.rs:349-399 | In a history every call of which was let through, no hour holds more calls than any limit's figure. |
| RateLimiter.RateSafety | crates/core/src/autopilot.rs:344-399 | The figures themselves: all tools, a third of it but at least one for a tool, three for one input. |
| Texts.SplitJoined | crates/core/src/branch.rs:148 | Splitting joined parts gives the parts back. |
| Texts.ValueOfDecimal | crates/core/src/branch.rs:111 | Reading a printed number gives it back, so the candidates differ. |
| BranchNames.BranchSlug | crates/core/src/branch.rs:72-94 | The slug is the longest run of the text's lower-cased words that fits in 40 characters, the first 40 of a first word that does not, or `change`. |
| BranchNamesExactly.WordsAreWhatIsKept | crates/core/src/branch.rs:74-81 | Put together, a text's words are its ASCII letters and digits in their order, each capital as its small letter, and nothing else. |
| BranchNamesExactly.WordsAreRuns | crates/core/src/branch.rs:74-81 | Two letters are of one word exactly when all between them are letters or digits. |
| BranchNamesExactly.SlugExactly | crates/core/src/branch.rs:82-94 | By the numbers: `change` for no word, the first 40 letters of a first word that is longer, and else the first words, with a `-` between, that are 40 letters at most while the next word does not fit. |
| BranchNames.SlugIsOne | crates/core/src/branch.rs:68-70 | Words have one slug. |
| BranchNames.SlugsAreSlugs | crates/core/src/branch.rs:68-70 | A slug has one to 40 characters, no leading, trailing or doubled `-`, and is its own slug. |
| BranchNames.OneCandidateEach | crates/core/src/branch.rs:100-104 | One entry, equal or below with a `/`, holds at most one candidate. |
| BranchNames.FreeBranch | crates/core/src/branch.rs:99-117 | The search ends within one more try than there are entries; no entry holds its answer, and every earlier candidate is held. |
| BranchNamesExactly.CandidatesExactly | crates/core/src/branch.rs:99-117 | The names tried as they are written, for each kind, bare and then with `-2`, `-3` and so on. |
| BranchNamesExactly.HeldExactly | crates/core/src/branch.rs:100-104 | A name is held exactly by an entry that is it or goes on after it with a `/`. |
| BranchNamesExactly.NoZeroBefore | crates/core/src/branch.rs:111 | A number is printed in decimal with no zero before it. |
| BranchNames.TaskNumberExactly | crates/core/src/branch.rs:147-159 | The names that answer a number are exactly the three shapes, alone or behind one segment. |
| BranchNames.TaskNumberInvertsOldBranch | crates/core/src/branch.rs:119-130 | Every contract's number is read back from its old branch, with or without a remote's name. |
| BranchNamesExactly.OldBranchExactly | crates/core/src/branch.rs:119-130 | An old branch as it is written, by whether the contract changes code and what its change is. |
| BranchNamesExactly.OldNumberExactly | crates/core/src/branch.rs:141-159 | A name answers a number exactly when it is one of the three kinds, `CTV-` and one to six digits of that value, alone or behind one segment. |
| BranchNamesExactly.ValueByPlaces | crates/core/src/branch.rs:158 | Digits count ten times as much one place to the left. |
| BranchNames.NewNamesAreNotOld | crates/core/src/branch.rs:96-117 | No name made from a slug is read as an old one. |
| ChunkedBody.Unchunked | crates/cli/src/daemon_client.rs:158-171 | The loop ends, each turn taking at least a line, and answers what the decoding function says, panics on a cut character included. |
| ChunkedBodyExactly.SizeExactly | crates/cli/src/daemon_client.rs:161 | A line gives a size exactly when it is white space, hexadecimal digits of a number of 64 bits with a `+` before them allowed, and white space. |
| ChunkedBodyExactly.HexDigitsExactly | crates/cli/src/daemon_client.rs:161 | Which bytes are hexadecimal digits, small or capital, and what each counts for. |
| ChunkedBodyExactly.HexByPlaces | crates/cli/src/daemon_client.rs:161 | Digits count sixteen times as much one place to the left. |
| ChunkedBodyExactly.LineEndExactly | crates/cli/src/daemon_client.rs:160 | A line ends where a carriage return first stands before a line feed. |
| ChunkedBodyExactly.DropLineEndsExactly | crates/cli/src/daemon_client.rs:168 | After a chunk every line's end that follows is passed over. |
| ChunkedBodyExactly.CharactersExactly | crates/cli/src/daemon_client.rs:129 | What is read as one character is exactly the bytes of one code point a text may hold (section 3 of RFC 3629). |
| ChunkedBody.LossyOfCut | crates/cli/src/daemon_client.rs:129 | A text of whole characters cut after any byte is read up to the character the cut is in, which is replaced. |
| ChunkedBody.DecodesWhatIsGiven | crates/cli/src/daemon_client.rs:129-171 | For chunks of whole characters, any first bytes of the encoding, read lossily, decode to exactly the data of the chunks that are whole and come before any with an extension, if and only if the cut is in no character with two or three bytes left of its chunk; with two it panics, and only then. |
| ChunkedBody.CutCharacterPanics | crates/cli/src/daemon_client.rs:167 | A character of two bytes received up to the first, which panics. |
| ChunkedBody.DecodeInvertsEncode | crates/cli/src/daemon_client.rs:129-171 | A whole encoding, read lossily, decodes to its chunks' data exactly when every chunk is whole characters and has no extension. |
| ChunkedBody.ExtensionIsLost | crates/cli/src/daemon_client.rs:161-163 | A chunk with an extension, whose data does not come back. |
| Printable.PrintedIsShown | crates/cli/src/printable.rs:24-26 | Answering a clean text itself is no different from escaping it character by character. |
| Printable.EscapedExactly | crates/cli/src/printable.rs:16-23 | Which characters are escaped, by code point. |
| Printable.EscapeExactly | crates/cli/src/printable.rs:31 | Each is written as `\u` and the four small hexadecimal digits of its code point. |
| Printable.EscIsShown | crates/cli/src/printable.rs:9-11 | The escape character is written `\u001b`. |
| Printable.PrintedBoth | crates/cli/src/printable.rs:27-37 | Printing distributes over putting texts one after the other. |
| Printable.PrintedHoldsNone | crates/cli/src/printable.rs:9-11 | What is printed holds nothing to escape, and printing it again changes nothing. |
| Printable.PrintedKeepsStrings | crates/cli/src/printable.rs:11-13 | A well-formed JSON string stands for the same characters when printed. |
| Printable.PrintedKeepsJsonExactly | crates/cli/src/printable.rs:11-13 | A JSON text stays the same JSON when printed exactly when no carriage return stands between its tokens. |
| Printable.ReturnBetweenTokensIsLost | crates/cli/src/printable.rs:12-13 | The smallest text that does not. |

### Where the code and its words differ

The model follows the code.

- Links are documented as `CopyOf` first (claude_history.rs:730); the code sorts all by name.
- `frees_at` is documented as when one more call is allowed (autopilot.rs:338). That holds for calls let
  through under the same figure; when the figure is lowered within the hour, a limit checked later can
  still be full then.
- `printable` is documented to keep a JSON line the same JSON (printable.rs:12); a carriage return
  between tokens, which JSON allows, becomes an escape there, which it does not.
- A chunk extension (section 7.1.1 of RFC 9112) stops the decoder instead of being passed over.
- The answer is read as text before its chunks are counted in bytes: a chunk that ends inside a character
  is not given back, and a body cut inside one can panic (daemon_client.rs:129, 167).
- A move killed between adding the removal branch and committing on it leaves that branch, with a
  subject the cleaner does not know; one killed while clearing can leave a branch too.
- A failed last step takes back an earlier move's note with its own, and a move killed before it leaves two
  projects that open when that note was to a finished folder.

## Left out

- FolderPlaces.ScanningAgainMovesNothing: a root newly said to have git that only a gone folder was placed at is not covered, because it can then take in other folders; `FolderPlaces.ScanningAgainMovesExactly` says when.
- TeamMoveHome.NeverTwoHomes: starts from no note to a finished folder, and once a try has gone through the later ones are for its place; `TeamMoveNotes.EarlierNoteMattersExactly` says that with such a note, and only then, the promise fails. Chains of notes through several roots are not modelled.
- TeamMoveRerun.KilledMovesEndExactly: the tries before the last are killed ones; what a try that fails and is undone leaves is in `TeamMoveRollback.RollbackRestores`.
- RateLimiter.RateSafety: a figure of zero is left out, since a team's `paid_calls_per_hour` is at least 1 (docs/schemas/team.schema.json).
- BranchNames.FreeBranch: the counter does not wrap at 32 bits, nor the removal branch's at 64; the bound on the tries says how many entries that would take.
- RemoteGroups.OnlyOneGrouping: says which projects are together; the order of the groups and in them is fixed by the partition.
- Paths are sequences of names, so `..`, doubled slashes, letter case and links are not modelled, nor is canonicalising; a name's length is in characters, not bytes.
- In the move, copying `.catervas/`, `remove_dir_all`, writing a file, and copying or deleting all the keys are one step each; the parent folders made on the way stay after an undo and are not on the modelled disk.
- The name of the removal branch is chosen where `Made` records it, after the worktrees are pruned; the source reads it one line before, and pruning changes no branch.
- What the documents, contracts, members and log entries of the move hold; they are written inside the new folder alone.
- Git, the file system, clocks, keychains and the network themselves: what git lists is a parameter, each step has a fate, and times are integers.
- The head of an answer, which is read lossily together with its body; and white space beyond ASCII around a chunk's size.
- Ordered maps and sets that are walked for a sorted result are walked in any order; the sort is an insertion sort.
- Task ids as `CTV-` and one to six digits, as docs/schemas/task-contract.schema.json has them.
- Reading transcripts, accounts, exports and remotes; budgets, `choices_for` and `move_of`; the daemon, its runs and the command line.

# Boxi: restore, selection and daemon control, modelled and proved in Dafny

Boxi is a graphical front end to the Box Backup client. This project models the parts of it that
decide something: which files are backed up, which are restored and where to, how an interrupted
restore goes on, how the configuration comes back from disk, and how the thread that talks to the
backup daemon shares its state with the user interface. `dafny verify dfyconfig.toml` checks all of it.

| part | files | modelled code |
|---|---|---|
| resumable restore | `Bytes`, `ResumeRecord`, `ResumeInfo`, `ServerTree`, `RestoreProgress`, `Restore` | `src/Restore.cc` |
| exclude rules and backup tree | `LocalPath`, `ExcludeRules`, `BackupTree`, `BackupScan`, `BackupActivation`, `FreshName`, `BackupPanel`, `BackupClicks` | `src/Location.cc`, `src/BackupLocationsPanel.cc`, `src/FileTree.cc`, `src/ProgressPanel.cc` |
| configuration | `ConfigText`, `ClientConfig`, `ConfigFormat` | `src/ClientConfig.cc`, `src/Location.cc`, `include/Location.h` |
| daemon control | `ClientConnection`, `ConnectionHistory` | `src/ClientConnection.cc` |
| restore selection and passes | `RestoreSelection`, `RestorePlan`, `RestorePruning`, `RestoreRun` | `src/RestoreFilesPanel.cc`, `src/RestoreProgressPanel.cc` |
| server cache | `ServerCache` | `src/RestoreFilesPanel.cc`, `src/ServerConnection.cc` |

Code that changes things step by step is modelled as classes and methods with loops
(`RestoreJob`, `RestoreResumeInfo`, `BoxiExcludeList`, `BackupLocationsPanel`, `ClientConfig`,
`ClientConnection`, `RestoreSpec`, `RestoreFilesPanel`, `RestoreProgressPanel`, `ServerCache`, `ServerCacheNode`),
each method specified by a function of the values that it works on; the theorems are about those
functions and about every run.

## Main results

- **A crash at any step of a restore loses nothing.** A run may stop after every single step. What
  is then on disk and in the resume file is enough for a later run; a run that completes, after any
  number of crashes, leaves exactly the server's tree, every file with its contents and every directory
  with its attributes (`Restore.RestoreJob.Run`, `RunUntilDone`; `ServerTree.MatchesIsUnique` says that
  this tree is the same for every history). Every id in the
  last saved record names something whose whole content is on disk, and finished bytes that the
  record does not cover are, the file finished last apart, at most 128*1024 (`RestoreProgress.LossInBytes`); a resumed run fetches no file that the record covers.
- **The resume record is self-delimiting.** It decodes to the saved levels whatever follows it, and
  none of its strict prefixes decodes, so writing it over a longer old file is safe
  (`ResumeRecord.ChainRoundTrip`, `StrictPrefixRejected`, `OverwriteLoads`). The round trip holds if
  and only if every level name fits in the reader's buffer.
- **The forms of the exclude rules agree.** Matcher, compiled exclude list, displayed state and
  pruning scan mean the same (`ExcludeRules.BoxListAgrees`); which files the scan of a location and
  the tree agree on is given exactly (`BackupTree.ScanAgreesExactly`).
- **A click on the backup tree does what it shows.** For every branch of the click and every node of
  the tree, what the node shows afterwards is given (`BackupClicks.ClickOnExcludedShows`, and for any
  expressions whatever they find `ClickOnExcludedShowsExactly`; `PlainClickShows`, `ExactClickShows`,
  `ClickOnIncludedShows`, `ClickOutsideShows`, `ClickOnLocationShows`, `UnconfirmedClickKeeps`), and refreshing from the node where the location begins makes every node
  right (`BackupPanel.BackupLocationsPanel.OnTreeNodeActivate`). The rules that a click writes are given with
  their text (`BackupClicks.ClickOnExcludedWrites`); where expressions are taken by their letters, a directory whose
  name begins with that of the clicked one keeps its state (`LongerNameIsKept`).
- **The configuration comes back.** From text to text: a second save and load changes nothing, for
  every file in the layout that is written (`ClientConfig.SecondSaveIsIdentity`), and a first one groups the rules
  of each location, which changes nothing that the tree shows, under an exact condition
  (`SavedLocationsComeBackGrouped`, `TreeShowsTheSame`). What stands in the file is given letter by letter
  (`ConfigFormat.SavedText`, `RuleLine`), and so are the rules read under each key (`KeysGiveKinds`).
- **A restore fetches what is selected, once.** The counting pass prunes the list of marks so that
  the restoring pass has every selected file exactly once (`RestorePruning.FetchedExactly`), in the version that the date asks for
  (`FetchedVersionExactly`), counts what
  is then fetched (`CountedIsFetched`), and never comes upon a local object that it made before
  (`RestoreRun.RestoreProgressPanel.StartRestore`).
- **Requests to the daemon are not lost.** In every interleaving an accepted request stays until the
  worker takes it, is served within six steps of the worker (a start within five), and causes one
  launch, or one command, the right one (`ClientConnection.RequestStays`, `ServedWithinSixSteps`,
  `OneLaunchPerStart`, `OneCommandPerRequest`, `CommandsOnTheWire`). While the worker takes itself to be
  connected it has connected with success and has noticed no disconnect since (`ConnectionHistory.ConnectedSince`);
  what each result of connecting, reading and launching leads to is given for every interleaving (`ConnectEnds`, `ReadEnds`, `LaunchEnds`).
- **The cache of the server's tree follows the connection.** After any sequence of listings, connections
  and disconnections, on any nodes, children given for a node are what a listing of that node on the
  present connection said (`ServerCache.ServerCache.Browse`, `GetChildren`).

## Where the code does less than one might expect

Each of these is stated by a lemma at an input that fails, and by one with the exact condition under
which the expected property does hold.

- `GetExcludedState` leaves the excluding pointer as it was when a path is always included and
  nothing excludes it (src/Location.cc:349-357); so a node of the tree can keep a rule as excluding it
  that does not match it (`BackupTree.StalePointerExample`, exact conditions in
  `BackupTree.ExcludedByIsFirstMatch` and `ExcludeRules.PointersAreFirstMatches`).
- There are rules with which the scan of a location does not agree with the tree, if the location is at
  "/", where entries are named with two separators and an exact rule does not match
  (`BackupTree.RootScanMisses`), or if an earlier location has the same path or one is above it, because
  the tree then shows what that one says (`NestedScanMisses`; three clicks make such a pair,
  `BackupClicks.NestedByClicks`). In all other cases the two agree with any rules (`ScanAgreesExactly`).
- Nothing is escaped in the expressions that a click makes for what is below a directory. For a path
  with special characters such an expression can find a node elsewhere, which the click then includes
  too, or miss one that is below (`BackupClicks.UnescapedExpressionDecides`). What is shown in any case
  is in `ClickOnExcludedShowsExactly`; it is what it is meant to be for each node on the way to which
  the expressions find just what is below (`ClickOnExcludedShows`). A plain file that is excluded by
  itself needs no expression.
- Removing the exact rule that excludes a node includes it only if the list does not hold the rule
  twice and no other rule excludes the node (`BackupClicks.RemovingExactRuleExample`, exact condition
  in `ExactClickShows`).
- A saved restore level whose name is longer than the reader's buffer is rejected
  (`ResumeRecord.LongNameRejected`, exact condition in `ChainRoundTrip`).
- Locations do not come back from the configuration file if a value holds the parser's separator
  character, if a value, name or path holds a line break, if a name holds an equals sign, so that its
  line is taken for a setting, or if two locations of one name differ, because each block is fetched by
  its name (`ClientConfig.SeparatorMakesTwo`, `LineBreakIsLost`, `EqualsSignIsLost`, `NamesakeIsLost`); in all other cases they do (`SavedLocationsComeBackGrouped`).
- A node with both an include and an exclude mark, whose parent is not included, is shown as included
  but never restored; four clicks make one (`RestorePruning.ClashByClicks`, exact condition in `PassedIsShown`).
- `succeeded` starts as false and is tested after each entry (src/RestoreProgressPanel.cc:286, 327), so
  nothing is fetched when the first entry of the list is an exclude; four clicks make such a list
  (`RestorePruning.ExcludeFirstByClicks`, exact condition in `RestoreRun.RestoreProgressPanel.StartRestore`).
- The assertion at the start of `OnConnect` fails exactly when a start has been asked for since the
  dispatch; that at the start of `OnConnectedIdle` exactly when, since the dispatch, a command has been
  asked for or, in a restart, a process has terminated (`ClientConnection.ConnectAssertionHolds`,
  `IdleAssertionHolds`, witnesses `ConnectAssertionCanFail`, `IdleAssertionCanFail`,
  `RestartAssertionCanFail`). The model returns from the handler there.
- A disconnect that is read when a command has already been asked for is not noticed: the worker goes on as
  connected, and writes the command (`ConnectionHistory.DisconnectIsMissed`). It is noticed exactly if no
  command has been asked for since the reading began (`ReadEnds`; in a restart `ReadEndsInRestart`), so those
  that come while the worker takes itself to be connected are the missed ones (`ConnectedSince`).
- A command whose sending throws leaves the worker in a state from which no request is accepted any
  more, unless it is that of a restart (`ClientConnection.CommandCanThrow`, `ThrownCommandBlocks`); a request can be accepted
  in some continuation exactly if no such command has thrown and the worker has not been destroyed
  (`RequestsAreStillAccepted`).
- `BST_RESTARTING` is left for `BST_START`, but for `BST_SHUTDOWN` exactly when the thread is destroyed
  (`ClientConnection.RestartCanEndInShutdown`, exact condition in `RestartingEndsInStart`).

## Assumptions

- The server's tree does not change between the runs of one restore; names are unique in a
  directory, ids are unique, not zero and 64 bits wide, and no name of a directory is longer than
  PATH_MAX bytes: a longer one would be saved before making the directory fails, and that record could
  never be loaded (`ResumeRecord.LongNameRejected`). A save of the resume file is one step.
- The library's `ExcludeList` excludes what a definite or regular-expression entry matches unless the
  always-include list matches it. Regular expressions are an abstract relation; no theorem takes an
  expression to find anything in particular, but some have as a condition what `^p/` finds.
- The library's configuration parser reads a setting or a name as it was written on its line, keeps
  the blocks in file order, gives the first block of a name when asked for one by name, and joins the
  values of a repeated key in file order with its separator; a name with an equals sign is taken for a
  setting, and the block after it is an error; splitting keeps empty parts. What it does with spaces at
  the ends of a line, comment signs and braces inside a line is not modelled, and a file counts as one
  that can be loaded only if it is laid out as Boxi writes it.
- The dispatcher loop and `OnStartClient` are commented out in the source (src/ClientConnection.cc:66-168,
  502-519); the model follows the comments.
- The id of the store's root directory is 1, and the parser's separator is the character with code 1, as in the Box Backup library.
- Nodes of the server cache are told apart by their paths, and the entry that a node matches is kept
  by value. The cached tree is the same in the counting and in the restoring pass.

## Model

| member | source | states |
|---|---|---|
| Bytes.Int64RoundTrip | src/Restore.cc:134-139 | reading back the eight bytes written for a 64-bit id or count gives the same number, whatever follows |
| Bytes.Int32RoundTrip | src/Restore.cc:148-149 | the same for the four bytes of a name length |
| Bytes.Int64Text | src/Restore.cc:134-139 | which eight bytes a number is written as, least significant first |
| Bytes.Int32Text | src/Restore.cc:148-149 | which four bytes a name length is written as |
| ResumeRecord.IdsRoundTrip | src/Restore.cc:135-139 | the ids of a level come back as the same set, and the bytes after them are left unread |
| ResumeRecord.IdsAscending | src/Restore.cc:135-139 | where each id of a level stands in the record: behind the smaller ones, in its eight bytes |
| ResumeRecord.NameRoundTrip | src/Restore.cc:148-150 | a level name comes back, with the bytes after it unread, exactly when it is no longer than the reader's buffer |
| ResumeRecord.RecordText | src/Restore.cc:131-160 | the parts of a record in their order: number of ids, ids, and id, length and name of the next level followed by its record, or a zero |
| ResumeRecord.ChainRoundTrip | src/Restore.cc:131-219 | decoding the bytes of a chain of levels followed by any tail gives that chain and leaves the tail, if and only if every name in it fits the reader's buffer |
| ResumeRecord.LongNameRejected | src/Restore.cc:201-203 | a chain that can be written whose record no reader accepts, because one name is a byte too long for the buffer |
| ResumeRecord.DecodeChainIgnoresTail | src/Restore.cc:179-219 | what the decoder reads of some bytes, it reads too when more bytes follow |
| ResumeRecord.StrictPrefixRejected | src/Restore.cc:178-219 | no strict prefix of a saved record is accepted |
| ResumeRecord.OverwriteText | src/Restore.cc:127-128 | a file that is written over begins with what is written, and keeps what a longer old one has behind that |
| ResumeRecord.OverwriteLoads | src/Restore.cc:127-128 | a record written over any older content, longer or not, without truncation, loads as the new chain |
| ResumeInfo.ByteStream.ReadFullBuffer | src/Restore.cc:178 | a read gives the wanted number of bytes and advances past them, or fails when there are not so many left |
| ResumeInfo.RestoreResumeInfo.AddLevel | src/Restore.cc:97-104 | links a new empty level below, noting its id and name, and leaves the ids of this level |
| ResumeInfo.RestoreResumeInfo.RemoveLevel | src/Restore.cc:107-114 | unlinks the level below and forgets its id and name |
| ResumeInfo.RestoreResumeInfo.SaveLevel | src/Restore.cc:131-160 | appends to the stream exactly the encoding of the chain that the linked levels represent |
| ResumeInfo.RestoreResumeInfo.WriteRestored | src/Restore.cc:134-139 | appends the ids in ascending order, each in eight bytes; their number is written before it |
| ResumeInfo.RestoreResumeInfo.WriteNext | src/Restore.cc:145-150 | appends the id, the length and the bytes of the name of the next level |
| ResumeInfo.RestoreResumeInfo.ReadRestored | src/Restore.cc:182-190 | reads the ids of one level as the decoder does |
| ResumeInfo.RestoreResumeInfo.ReadName | src/Restore.cc:199-204 | reads a name, or rejects one that is longer than the buffer |
| ResumeInfo.RestoreResumeInfo.LoadLevel | src/Restore.cc:179-219 | succeeds exactly when the decoder accepts the bytes, and then links levels that represent the decoded chain |
| ResumeInfo.RestoreResumeInfo.LoadNext | src/Restore.cc:195-216 | the same for the part after the ids of a level |
| ServerTree.FindDirAt | src/Restore.cc:299-312 | asking the server for a directory's id gives the directory that has this path |
| ServerTree.MatchesExactly | src/Restore.cc:242-437 | disk and server match if and only if they have the same paths, each file has the contents that the server has, and each directory its attributes |
| ServerTree.WholeExactly | src/Restore.cc:334-358 | an object counts as restored if and only if it is on disk with the contents or attributes that the server has |
| ServerTree.MatchesIsUnique | src/Restore.cc:242-437 | two disks that match the same server tree are the same, so the outcome of a restore does not depend on its history |
| RestoreProgress.ListObject | src/Restore.cc:369 | listing one more object of the innermost directory covers it with what is below it, uncovers nothing and covers nothing else |
| RestoreProgress.DescendInChain | src/Restore.cc:421-422 | adding a level for a child directory that is not listed keeps the chain one of the server's tree |
| RestoreProgress.DescendCovers | src/Restore.cc:421-422 | adding a level changes nothing about what the chain covers |
| RestoreProgress.Ascend | src/Restore.cc:430-433 | leaving a level and listing its directory covers that directory, and keeps everything covered that was |
| RestoreProgress.OffSpineUncovered | src/Restore.cc:325-328 | an object of the innermost directory that is not listed is covered by no level at all |
| RestoreProgress.ChainFits | src/Restore.cc:131-160 | a chain of the server's tree has ids, counts and names of a size that the record can hold |
| RestoreProgress.TouchKeepsTruth | src/Restore.cc:334-358 | changing on disk only one place that a record does not cover keeps the record truthful |
| RestoreProgress.SaveIsSound | src/Restore.cc:262-265 | after a save the record on disk is the chain in memory, and all invariants hold |
| RestoreProgress.PutIsSound | src/Restore.cc:267-296 | a change of one uncovered object on disk keeps all invariants |
| RestoreProgress.PutObjectIsSound | src/Restore.cc:267-317 | putting an object of the right kind at an uncovered place keeps all invariants |
| RestoreProgress.RemoveFileIsSound | src/Restore.cc:334-335 | removing an uncovered file before it is fetched keeps all invariants |
| RestoreProgress.ListingIsSound | src/Restore.cc:368-369 | listing an object that is wholly on disk keeps all invariants |
| RestoreProgress.DescendingIsSound | src/Restore.cc:420-422 | going into a child directory keeps all invariants |
| RestoreProgress.AscendingIsSound | src/Restore.cc:254-258 | coming out of a child directory that is wholly on disk keeps all invariants |
| RestoreProgress.FinishingFileIsSound | src/Restore.cc:371-389 | one more finished file keeps the bound on what a crash repeats, as long as the bytes counted since the last save are at most 128*1024 |
| RestoreProgress.CountedIsSize | src/Restore.cc:371-376 | the bytes counted since a save are the sizes of the files finished since; links count for nothing |
| RestoreProgress.LossInBytes | src/Restore.cc:376-388 | every file finished is covered by the saved record, but for some of which all but the last have at most 131072 bytes together |
| RestoreProgress.StartChain | src/Restore.cc:83-87 | the chain of a new restore is one of the tree and covers nothing |
| Restore.RestoreJob.Save | src/Restore.cc:116-129 | the file begins with the encoding of the levels in memory, the rest of an older file stays behind it, and nothing finished is uncovered any more |
| Restore.RestoreJob.EnsureDirectory | src/Restore.cc:267-296 | a directory is there afterwards, made with mode 0700 only if nothing was there, and nothing else changes; a file is never found in its place; all invariants hold even if it is cut short |
| Restore.RestoreJob.FetchFile | src/Restore.cc:334-358 | the file is on disk with the contents given, nothing else is changed, added or removed, and being cut short between removal and completion keeps all invariants |
| Restore.RestoreJob.MarkFile | src/Restore.cc:368-369 | the file's id joins those of the innermost level, and the file counts as finished |
| Restore.RestoreJob.EnterLevel | src/Restore.cc:421-422 | the linked levels and their chain gain one empty level |
| Restore.RestoreJob.LeaveLevel | src/Restore.cc:254-258 | the linked levels and their chain lose the innermost level, and its id is listed above |
| Restore.RestoreJob.LeaveWhole | src/Restore.cc:254-258 | when the directory of the level below is wholly on disk, leaving the level lists it and keeps all invariants |
| Restore.RestoreJob.RestoreFiles | src/Restore.cc:319-401 | all files of the directory are listed and on disk, and a save follows if bytes were written since the last |
| Restore.RestoreJob.RestoreFile | src/Restore.cc:328-391 | before every file the bytes finished since the last save are at most 128*1024, and so after it |
| Restore.RestoreJob.SaveIfDue | src/Restore.cc:376-388 | a save comes if and only if more than 131072 bytes have been written since the last, so that no more are ever left unsaved between files |
| Restore.RestoreJob.RestoreDir | src/Restore.cc:242-437 | unless cut short, everything at and below the directory is on disk, outer levels are as before and inner ones gone; if cut short, all invariants hold |
| Restore.RestoreJob.FetchDirectory | src/Restore.cc:299-317 | once the saved record is that in memory, which it must be before: the listing is the server's, and the directory with its attributes is on disk |
| Restore.RestoreJob.ResumeBelow | src/Restore.cc:246-259 | the directory that an earlier run was in is finished first and listed in its parent |
| Restore.RestoreJob.RestoreSubdirectories | src/Restore.cc:404-436 | all entries of the directory are listed at the end |
| Restore.RestoreJob.RestoreSubdirectory | src/Restore.cc:411-434 | the child directory is wholly on disk and listed, the levels are as before |
| Restore.RestoreJob.Run | src/Restore.cc:463-531 | which of the results comes when; on completion exactly the paths of the server are on disk, each file with its contents and each directory with its attributes, and the resume file is gone; after a crash the state can be resumed from, with bounded loss; a resumed run finishes no file that the saved record covers |
| Restore.RestoreJob.LoadLevels | src/Restore.cc:496-503 | a resume file left by this restore is always accepted, and gives the levels last saved |
| Restore.RestoreJob.RunUntilDone | src/Restore.cc:463-531 | after any number of crashes, each followed by a resume, a run that does not crash leaves exactly the server's paths, contents and attributes on disk |
| Restore.SavedRecordLoads | src/Restore.cc:163-176 | in every state that a crash can leave, the resume file decodes to the chain last saved |
| Restore.LoadedIsSound | src/Restore.cc:496-503 | starting again from the saved record satisfies all invariants |
| Restore.SavedIdsAreOnDisk | src/Restore.cc:221-222 | whenever a crash can come, each id in any saved level names an object of that level's directory whose whole content is on disk |
| Restore.SavedDescentIsInTree | src/Restore.cc:223-228 | each saved next-level id names a child directory of its level, under the saved name, and the level's own directory is on disk |
| Restore.DirectoryWhole | src/Restore.cc:404-437 | when all entries of a directory are listed, everything at and below it is on disk |
| Restore.EntryIsFresh | src/Restore.cc:327-328 | an entry whose id is not listed is one that no level of the chain covers |
| Restore.OnlyNew | src/Restore.cc:325-328 | in every state of a run, the files that it has finished are ones that the record it began with does not cover |
| LocalPath.BelowPrefix | src/BackupLocationsPanel.cc:1211-1213 | with a separator after it, one path string begins another exactly when it is a directory above it |
| LocalPath.FullPathInjective | src/BackupLocationsPanel.cc:120 | path strings are equal exactly when the paths are |
| LocalPath.FullPathOfChild | src/ProgressPanel.cc:361 | a directory's path string, a separator and a name give the child's path string |
| LocalPath.PathText | src/ProgressPanel.cc:361 | how the path strings of the root, of what is in it and of what is in a directory look |
| ExcludeRules.FirstMatch | src/Location.cc:247-346 | the rule found is in the list and does apply to the path |
| ExcludeRules.FirstMatchIsAnyMatch | src/Location.cc:247-346 | a rule is found exactly when some rule of that sense applies |
| ExcludeRules.AppliesExactly | src/Location.cc:262-322 | a rule applies if and only if it is of the sense and for the kind of object in question, and names the path, or holds an expression that compiles and finds it |
| ExcludeRules.FirstMatchIsFirst | src/Location.cc:247-346 | of the rules that apply, the one found is the first in the list |
| ExcludeRules.JudgedByRules | src/Location.cc:203-360 | the state reported: always included if some including rule applies, else excluded if some excluding one does, else included; the path of the location is included and "/" has no location, whatever the rules |
| ExcludeRules.PointersAreFirstMatches | src/Location.cc:323-357 | the including pointer is the first match; the excluding one is, exactly unless something always includes the path, nothing excludes it and the pointer was set before |
| ExcludeRules.InterleavingIsIrrelevant | src/Location.cc:243-347 | the whole verdict depends only on the order within each sense, not on how the senses are interleaved |
| ExcludeRules.BoxListExists | src/Location.cc:379-417 | the compiled list exists exactly when every expression of the kind in question compiles |
| ExcludeRules.BoxListHolds | src/Location.cc:381-409 | each of the four parts of the compiled list holds exactly the values of the rules of its kind |
| ExcludeRules.BoxListMatches | src/Location.cc:381-409 | each half of the compiled list has a path exactly when a rule of that sense applies to it |
| ExcludeRules.BoxListAgrees | src/Location.cc:203-420 | off the location root and "/", the matcher says excluded exactly when the compiled list excludes |
| ExcludeRules.RemovedHasTheRest | src/Location.cc:160-175 | removing a rule takes one occurrence of it away and nothing else, whatever the list |
| ExcludeRules.BoxiExcludeList.Contains | src/Location.cc:81-89 | tells whether the rule is in the list |
| ExcludeRules.BoxiExcludeList.AddEntry | src/Location.cc:79-97 | a rule that is there already is not added; another goes to the end |
| ExcludeRules.BoxiExcludeList.InsertEntry | src/Location.cc:99-124 | a rule that is there already is not inserted; an index out of range is clamped |
| ExcludeRules.BoxiExcludeList.ReplaceEntry | src/Location.cc:126-139 | the first occurrence, and no other place, gets the new rule; a missing one is reported |
| ExcludeRules.BoxiExcludeList.RemoveEntry | src/Location.cc:160-175 | the first occurrence goes; a missing one is reported |
| ExcludeRules.BoxiLocation.GetExcludedState | src/Location.cc:203-360 | the two passes compute the verdict, pointers and matched flag included, that the other lemmas are about |
| ExcludeRules.BoxiLocation.GetBoxExcludeList | src/Location.cc:370-420 | the loop builds the compiled list, or nothing where the library throws |
| BackupTree.FindLocation | src/BackupLocationsPanel.cc:113-126 | the location found has this path; none is found only if no location has it |
| BackupTree.FirstIsFirst | src/BackupLocationsPanel.cc:113-126 | of the locations with this path the first is found |
| BackupTree.OutsideHasNoRules | src/BackupLocationsPanel.cc:143-148 | a node outside all locations obeys no rule |
| BackupTree.LocationRootState | src/BackupLocationsPanel.cc:106-157 | a location begins with no rule in force, below a node outside all locations |
| BackupTree.StandingIsRoot | src/BackupLocationsPanel.cc:106-127 | a location's nodes in the tree are its own if and only if no earlier location has its path and none is above it |
| BackupTree.LocationInherited | src/BackupLocationsPanel.cc:93-98 | everything below the beginning of a location is in that location |
| BackupTree.ShownExcludedStep | src/BackupLocationsPanel.cc:141-159 | inside a location a node is shown as excluded exactly when its parent is, or a rule excludes it and none always includes it |
| BackupTree.ExcludedBelow | src/BackupLocationsPanel.cc:149-153 | everything below an excluded node is excluded |
| BackupTree.ShownExcludedExactly | src/BackupLocationsPanel.cc:141-159 | a node of a location is shown as excluded if and only if, for some node on the way down to it, a rule excludes that node and none always includes it |
| BackupTree.KeptExcludedExactly | src/BackupLocationsPanel.cc:141-159 | the same in terms of what is kept for the node: an excluding rule and no including one |
| BackupTree.RulesInForce | src/BackupLocationsPanel.cc:84-159 | which rules are kept for a node of a location: all of its parent's if that is excluded, and otherwise the first of each sense that matches it, but where only an including one does, the parent's excluding one |
| BackupTree.ExcludedByIsFirstMatch | src/Location.cc:349-357 | below a node that is not excluded, the rule kept as excluding a node is the first that matches, if and only if it does not happen that nothing excludes the node, something always includes it and its parent keeps a rule |
| BackupTree.StalePointerExample | src/Location.cc:349-357 | an always included entry of a directory with both kinds of rules is left naming the directory's rule, which does not match it |
| BackupTree.RefusesWhatIsExcluded | src/ProgressPanel.cc:377-404 | below a node that is not excluded, the scan refuses an entry exactly when the tree shows it as excluded |
| BackupTree.FilesBelowExactly | src/ProgressPanel.cc:317-428 | the files below a directory are listed once each, and nothing else is |
| BackupTree.ScanCountsAsIfAlone | src/ProgressPanel.cc:317-428 | the scan of any location off "/", nested or not, counts exactly the files below it that the tree would show as not excluded without the other locations, in reading order |
| BackupTree.ScanCountsWhatIsShown | src/ProgressPanel.cc:317-428 | the scan of a location off "/" that has its nodes to itself counts exactly the files below it that the tree shows as not excluded, in reading order |
| BackupTree.ScanAgreesExactly | src/ProgressPanel.cc:317-428 | for given locations and tree, the scan of one location agrees with the tree whatever the rules are, if and only if there is no file below it, or it is not at "/", no earlier one has its path and none is above it |
| BackupTree.NestedScanMisses | src/BackupLocationsPanel.cc:93-127 | for any location inside another or behind one of the same path, and any file below: a rule with which its scan leaves the file out while the tree shows it as not excluded |
| BackupTree.RootScanMisses | src/ProgressPanel.cc:361 | for any file: a location at "/" whose scan counts it although a rule excludes it by its path and the tree shows that |
| Progress.ProgressCounters.ResetCounters | src/ProgressPanel.cc:265-278 | all four counters are zero |
| Progress.ProgressCounters.NotifyMoreFilesCounted | src/ProgressPanel.cc:144-155 | only the counted files and bytes grow, by the given amounts |
| Progress.ProgressCounters.NotifyMoreFilesDone | src/ProgressPanel.cc:157-177 | only the finished files and bytes grow, by the given amounts |
| BackupScan.CountLocalFiles | src/ProgressPanel.cc:317-428 | the recursion adds to the counters the number and total size of the files that the scan does not refuse, or no more than that if the user stops it or a directory cannot be read |
| BackupScan.TotalSizeExactly | src/ProgressPanel.cc:377-386 | the total size of one more file is greater by its size |
| BackupScan.CountLocation | src/ProgressPanel.cc:317-428 | scanning any location off "/", unless it is cut short, adds the number and total size of the files below it that the tree would show as not excluded without the others, and of those that it does show so if the location has its nodes to itself; cut short, it adds no more |
| BackupActivation.ExcludedHeight | src/BackupLocationsPanel.cc:1182-1187 | the walk up the tree ends at the root at the latest |
| BackupActivation.IncludingExtends | src/BackupLocationsPanel.cc:1179-1235 | the older rules stay in front as they were, and what follows are exactly made rules, all of them present |
| BackupActivation.LiteralMeansBelow | src/BackupLocationsPanel.cc:1211-1217 | in a library in which `^` with the path and a separator behind it finds exactly what begins with that text, the expression made for a directory finds, on the way to any node, exactly what is below |
| BackupActivation.ByLettersExample | src/BackupLocationsPanel.cc:1209-1217 | there is a library that takes every such expression by its letters |
| BackupActivation.IncludingMatches | src/BackupLocationsPanel.cc:1172-1236 | for every node, whatever expressions find: which nodes the new list excludes and always includes, in terms of the old list, of the way from the clicked node up and of what the made expressions find |
| BackupActivation.MadeAsMeant | src/BackupLocationsPanel.cc:1209-1229 | where the expressions mean what they are meant to, the made rules exclude what is below the highest excluded node, and always include the way down to the clicked node and what is below it |
| BackupActivation.SameLocation | src/BackupLocationsPanel.cc:108-127 | other rules leave every node in the location that it was in |
| BackupActivation.OtherNodesKeepTheirState | src/BackupLocationsPanel.cc:93-159 | nodes outside the location whose rules are edited keep their whole state |
| BackupActivation.ExcludedTop | src/BackupLocationsPanel.cc:1182-1198 | the walk ends inside the location, below a node that is not excluded |
| BackupActivation.OutsideTopKept | src/BackupLocationsPanel.cc:1172-1236 | nodes not at or below the highest excluded node keep their whole state, where on the way the made expressions find just what is below their directories |
| BackupActivation.ChainIncluded | src/BackupLocationsPanel.cc:1182-1198 | the clicked node and the excluded nodes above it are not excluded any more, if no expression strays to a node above them |
| BackupActivation.BelowIncluded | src/BackupLocationsPanel.cc:1220-1229 | everything below a clicked directory is not excluded any more, where on the way the made expressions find just what is below their directories |
| BackupActivation.OffChain | src/BackupLocationsPanel.cc:1209-1218 | beside the way down to the clicked node, a node stays excluded unless older AlwaysInclude rules lead all the way to it, where on the way the made expressions find just what is below their directories |
| BackupActivation.IncludingShows | src/BackupLocationsPanel.cc:1148-1239 | for every node of the tree, where on the way the made expressions find just what is below their directories: whether it is shown as excluded after the click, and that others keep their state |
| BackupActivation.ExcludedByTop | src/BackupLocationsPanel.cc:93-98 | an excluded node names the first rule that excludes the highest excluded node above it |
| BackupActivation.KeptByRemoval | src/BackupLocationsPanel.cc:1158-1170 | removing a rule that matches neither a node nor any above it keeps that node's state |
| BackupActivation.RemovingExactRuleShows | src/BackupLocationsPanel.cc:1158-1170 | removing the node's own exact rule includes it if and only if the list does not hold that rule twice and no other rule excludes the node, and changes nothing outside its subtree |
| BackupActivation.ExcludingShows | src/BackupLocationsPanel.cc:1271-1282 | a click on an included node excludes it with everything below it and changes no other node |
| FreshName.DecimalValue | src/BackupLocationsPanel.cc:1316-1317 | the printed counter can be read back, so different counters print differently |
| FreshName.DecimalText | src/BackupLocationsPanel.cc:1316-1317 | how the counter is printed: digit by digit |
| FreshName.CandidatesDiffer | src/BackupLocationsPanel.cc:1289-1317 | no name is tried twice |
| FreshName.Pigeonhole | src/BackupLocationsPanel.cc:1299-1318 | among one more names than there are locations, one is free |
| FreshName.FindFreshName | src/BackupLocationsPanel.cc:1286-1318 | the loop ends within one more round than there are locations, with a name that no location has: the stem (or `root`), or else the stem, an underscore and the first number from 1 on that is free |
| BackupPanel.HighestIsLocationRoot | src/BackupLocationsPanel.cc:1053-1063 | going up while the parent is in the same location ends where the location begins |
| BackupPanel.LocationIsBelow | src/BackupLocationsPanel.cc:1048-1063 | every node of a location is at or below the node where it begins |
| BackupPanel.BackupLocationsPanel.UpdateState | src/BackupLocationsPanel.cc:84-159 | with the parent's state right, the node's state becomes what working it out from the root gives; no other node's state changes |
| BackupPanel.BackupLocationsPanel.UpdateStateIcon | src/FileTree.cc:90-113 | refreshing a node and its subtree makes all of it right and touches nothing else |
| BackupPanel.BackupLocationsPanel.FindLocationNode | src/BackupLocationsPanel.cc:1052-1063 | finds the highest node reached through nodes of the same location |
| BackupPanel.BackupLocationsPanel.IncludeNode | src/BackupLocationsPanel.cc:1172-1236 | the loop up the tree edits the list to the one that the lemmas are about |
| BackupPanel.BackupLocationsPanel.RefreshLocation | src/BackupLocationsPanel.cc:1325-1330 | after an edit of one location's rules, refreshing only from where it begins makes every node of the whole tree right |
| BackupPanel.BackupLocationsPanel.OnTreeNodeActivate | src/BackupLocationsPanel.cc:1027-1335 | every branch of the click: the new locations, kept in the objects that hold them, and that every node shows what working it out from the root gives |
| BackupPanel.BackupLocationsPanel.AddLocation | src/BackupLocationsPanel.cc:1284-1323 | a click outside all locations adds one for the node under a name that is free |
| BackupPanel.BackupLocationsPanel.RemoveLocation | src/BackupLocationsPanel.cc:1263-1267 | the first location that is the same goes, and every node is right |
| BackupClicks.ClickOnExcludedShows | src/BackupLocationsPanel.cc:1148-1239 | a click on a node excluded by inheritance or by an expression, for each node, where on the way the made expressions find just what is below their directories: it, all above and all below it are not excluded; beside it a node changes only by older AlwaysInclude rules; all others keep their state |
| BackupClicks.ClickOnExcludedWrites | src/BackupLocationsPanel.cc:1172-1236 | which rules are in the list after a click on an excluded node, written out: the older ones in front, the rule for each node from the clicked one up to the highest excluded one, the two expressions `^p/` that exclude what is below that one if it is not the clicked one, and for a directory the two that include what is below it |
| BackupClicks.LiteralClickShows | src/BackupLocationsPanel.cc:1148-1239 | where expressions are taken by their letters, what is said of such a click holds for every node of the tree |
| BackupClicks.LongerNameIsKept | src/BackupLocationsPanel.cc:1209-1217 | so a node beside the clicked one whose name begins with its name keeps its state |
| BackupClicks.ClickOnExcludedShowsExactly | src/BackupLocationsPanel.cc:1172-1236 | whatever the made expressions find: after such a click a node of the location is excluded if and only if some node on the way down to it is matched by an older or made excluding rule and by no older or made including one; outside the location nothing changes |
| BackupClicks.UnescapedExpressionDecides | src/BackupLocationsPanel.cc:1220-1229 | when a rule excludes a directory and a node beside or below it, a click on the directory includes that node exactly if the expression made for the directory finds it, wherever it is |
| BackupClicks.SecondClickExcludes | src/BackupLocationsPanel.cc:1073-1147 | a second click excludes the node and what is below it again; what is not below keeps its state, at once if the list holds no pair of expressions around the node, and otherwise where these find just what is below it |
| BackupClicks.PlainClickShows | src/BackupLocationsPanel.cc:1271-1282 | a click on a node that no rule is in force for adds its own exact rule, written out, and excludes it with everything below it; all other nodes keep their state |
| BackupClicks.ExactClickShows | src/BackupLocationsPanel.cc:1158-1170 | a click on a node that its own exact rule excludes takes one occurrence of it away and changes no other location; the node is included if and only if that was the only one and no other rule excludes it; what is not below keeps its state |
| BackupClicks.ClickOnIncludedShows | src/BackupLocationsPanel.cc:1073-1147 | a click on an always included node takes away one occurrence of the rule in force and of the pair of expressions around it; each node of the location is then shown as excluded exactly as the rules left say, and others keep their state |
| BackupClicks.FenceText | src/BackupLocationsPanel.cc:1085-1106 | which pair of expressions goes with the exact rule of a node, written out: the two that exclude what is below it, if both are there |
| BackupClicks.ClickOutsideShows | src/BackupLocationsPanel.cc:1284-1323 | after a click outside all locations, everything at and below the node is in the new location under no rule, even what was in a location further down, and all other nodes keep their state |
| BackupClicks.ClickOutsideAdds | src/BackupLocationsPanel.cc:1284-1323 | the location added is at the end, for the path clicked, with no rules and a name that no other has |
| BackupClicks.ClickOnLocationShows | src/BackupLocationsPanel.cc:1249-1269 | a confirmed click on the place of a location: what is not below keeps its state, with later locations moved up by one; what is below is outside all locations if no other one begins on the way, and otherwise shows what the rules of the one that begins there say |
| BackupClicks.UnconfirmedClickKeeps | src/BackupLocationsPanel.cc:1108-1269 | without the confirmation that a click on the place of a location, or on a node included by another rule than its own, asks for, nothing changes |
| BackupClicks.RemovingExactRuleExample | src/BackupLocationsPanel.cc:1158-1170 | a click that removes a file's own exact rule, and leaves the file excluded by another |
| BackupClicks.NestedByClicks | src/BackupLocationsPanel.cc:1284-1323 | three clicks that put one location inside another, with a file that the scan of the inner one leaves out and the tree shows as not excluded |
| ConfigText.SplitJoin | src/Location.cc:66-77 | splitting the joined values of a key gives them back when none holds the separator |
| ConfigText.SplitJoinLength | src/Location.cc:66-77 | if one holds the separator, there are more values than before |
| ConfigText.FileIsRead | src/ClientConfig.cc:527-560 | the text written for blocks in which nothing holds a line break and no name an equals sign is read as those blocks |
| ConfigText.ReadFileIsPlain | src/ClientConfig.cc:126-147 | nothing that is read from a file holds a line break, and no name an equals sign |
| ClientConfig.ReloadedIsGrouped | src/Location.cc:36-77 | reading a rule list from the values that its lines give groups it by the eight kinds, if and only if no value holds the separator |
| ClientConfig.SeparatorMakesTwo | src/Location.cc:66-77 | any value with one separator in it comes back as two rules |
| ClientConfig.GroupingIsStable | src/Location.cc:51-55 | within each kind the order stays |
| ClientConfig.GroupingTwice | src/Location.cc:51-55 | grouping a grouped list changes nothing |
| ClientConfig.ReadRulesAreGrouped | src/Location.cc:47-64 | whatever the lines, the rules read from them are grouped |
| ClientConfig.GroupingKeepsMeaning | src/ClientConfig.cc:90-124 | every path has the same excluded state before and after, and the compiled lists exist and exclude alike |
| ClientConfig.FirstOfNameComesBack | src/ClientConfig.cc:98-106 | without line breaks, and equals signs in names, every saved location comes back as the first one of its name, read from its lines |
| ClientConfig.SavedLocationsComeBackGrouped | src/ClientConfig.cc:90-124 | all locations come back from the text in order with grouped rules, if and only if no value holds the separator, nothing holds a line break, no name holds an equals sign, and locations of one name have the same path and grouped rules |
| ClientConfig.NamesakeIsLost | src/ClientConfig.cc:98-106 | of any two locations of one name with different paths, the first comes back twice and the second is lost |
| ClientConfig.LineBreakIsLost | src/ClientConfig.cc:549-553 | a location with a rule whose value holds a line break does not come back |
| ClientConfig.EqualsSignIsLost | src/ClientConfig.cc:533-536 | no list with a location whose name holds an equals sign comes back |
| ClientConfig.LoadedIsTidy | src/ClientConfig.cc:90-124 | the locations of any file in the layout that is written meet the condition for coming back, and their rules are grouped |
| ClientConfig.SecondSaveIsIdentity | src/ClientConfig.cc:527-560 | for every file in the layout that is written, saving and loading what it gave changes nothing |
| ClientConfig.TreeShowsTheSame | src/ClientConfig.cc:556-557 | after saving and loading, every node of the backup tree is in the same location and shown as excluded exactly if it was |
| ClientConfig.ClientConfig.Save | src/ClientConfig.cc:527-567 | the file holds the text of the locations, which `ConfigFormat.SavedText` writes out, and what is in memory is what that text loads as; if it cannot be read, memory stays as it was |
| ClientConfig.ClientConfig.TextOf | src/ClientConfig.cc:527-560 | the loops over locations and rules write the text that the theorems are about and `ConfigFormat.SavedText` writes out |
| ClientConfig.ClientConfig.Load | src/ClientConfig.cc:126-175 | memory holds the locations that the text gives and notes its blocks as the original, or stays as it was if the text cannot be read |
| ClientConfig.ClientConfig.GetConfigurationLocations | src/ClientConfig.cc:90-124 | one location for each name, in order, each with the path and rules of the block that this name gives |
| ClientConfig.ClientConfig.ReadExcludeList | src/Location.cc:47-64 | the rules read are those that `ConfigFormat.KeysGiveKinds` and `KindsInOrder` say: the kinds in turn, each with all values of its key |
| ClientConfig.ClientConfig.AddSeparatedList | src/Location.cc:66-77 | a rule for each value goes to the end, in order |
| ClientConfig.ClientConfig.IsClean | src/ClientConfig.cc:610-636 | clean exactly when the locations are those of the file last loaded, in number and in order |
| ConfigFormat.KeyTexts | include/Location.h:82-127 | the eight keys, written out |
| ConfigFormat.RuleLine | src/ClientConfig.cc:540-548 | the line of text for a rule of each kind, written out, behind the lines of the rules before it |
| ConfigFormat.LocationText | src/ClientConfig.cc:533-553 | the text of the block of a location, written out |
| ConfigFormat.SavedText | src/ClientConfig.cc:527-560 | the text of the file: its header, the blocks of the locations in their order, and its end |
| ConfigFormat.KeysGiveKinds | src/Location.cc:36-77 | where no value holds the separator, a rule is among those read if and only if its value stands in a line under the key of its kind, written out for the eight kinds |
| ConfigFormat.ValuesOfAKey | src/Location.cc:66-77 | two values of a key become two rules in their order, and so does one value with the character 1 in it |
| ConfigFormat.KindsInOrder | src/Location.cc:36-45 | in which order the eight kinds are read, whatever the order of the lines |
| ConfigFormat.PathUnderItsKey | src/ClientConfig.cc:108-113 | the path of a location is read from under the key `Path`, and a block without one gives no location |
| ClientConnection.InvariantHolds | src/ClientConnection.cc:284-712 | in every interleaving the worker's place and the shared state fit together, and every request is accounted for |
| ClientConnection.AssertionsHold | src/ClientConnection.cc:566-622 | in every interleaving the assertions on entering and on finishing a command, and on finishing a launch, hold |
| ClientConnection.OthersOnly | src/ClientConnection.cc:650-712 | what the user interface and terminated processes can change while the worker holds no lock: the state only from connecting or restarting to start, or from connected to the first command asked for |
| ClientConnection.DispatchedSince | src/ClientConnection.cc:66-168 | every run in which a handler has been dispatched to consists of a run up to the dispatch, in the state that it found, and steps of others after it |
| ClientConnection.ConnectAssertionHolds | src/ClientConnection.cc:287 | in every run from a dispatch on, with anything interleaved, the assertion at the start of OnConnect holds if and only if no start has been asked for in between |
| ClientConnection.IdleAssertionHolds | src/ClientConnection.cc:471-472 | the assertion at the start of OnConnectedIdle holds if and only if in between no command has been asked for or, dispatched in a restart, no process has terminated |
| ClientConnection.ConnectAssertionCanFail | src/ClientConnection.cc:287 | an interleaving in which the assertion at the start of OnConnect fails |
| ClientConnection.IdleAssertionCanFail | src/ClientConnection.cc:471-472 | an interleaving in which the assertion at the start of OnConnectedIdle fails |
| ClientConnection.RestartAssertionCanFail | src/ClientConnection.cc:471-472 | an interleaving in which the same assertion fails in a restart |
| ClientConnection.RequestStays | src/ClientConnection.cc:694-712 | an accepted request stays in the state until the worker's handler for it takes it, or the worker is destroyed |
| ClientConnection.OneCommandPerRequest | src/ClientConnection.cc:566-622 | accepted requests of a kind are those written, thrown, cut off by destruction, and at most one still open |
| ClientConnection.OneLaunchPerStart | src/ClientConnection.cc:503-518 | accepted starts and restarts that have come so far are launches made, starts cut off by destruction, and at most one still open |
| ClientConnection.CommandsOnTheWire | src/ClientConnection.cc:566-622 | in every interleaving there is one `terminate` on the wire for each stop or restart that has been written, one `force-sync` for each sync and one `reload` for each reload |
| ClientConnection.RestartingEndsInStart | src/ClientConnection.cc:485-491 | restarting is left for shutdown exactly when the worker is destroyed, and otherwise only for start |
| ClientConnection.RestartCanEndInShutdown | src/ClientConnection.cc:485-491 | an interleaving in which the worker is destroyed in a restart |
| ClientConnection.WorkerComesCloser | src/ClientConnection.cc:66-168 | while a request is open, others do not delay it and each step of the worker brings it closer, until the command is sent or the process launched |
| ClientConnection.ServedWithinSixSteps | src/ClientConnection.cc:66-168 | however the others interleave, the command of an open request is sent within six steps of the worker, and an open start leads to a launch within five |
| ClientConnection.BlockedExactly | src/ClientConnection.cc:566-622 | in every interleaving, the worker is blocked if and only if a command other than that of a restart has thrown or the worker has been destroyed |
| ClientConnection.BlockedForGood | src/ClientConnection.cc:694-712 | once it is blocked, whatever happens, it stays so and no request is accepted |
| ClientConnection.ThrownCommandBlocks | src/ClientConnection.cc:566-622 | once the sending of a stop, sync or reload command has thrown, no request is ever accepted again |
| ClientConnection.CommandCanThrow | src/ClientConnection.cc:566-579 | an interleaving in which the command of a stop throws, and stopping stays |
| ClientConnection.RequestsAreStillAccepted | src/ClientConnection.cc:694-712 | some continuation accepts a request, if and only if no command other than that of a restart has thrown and the worker has not been destroyed |
| ClientConnection.ClientConnection.SetWorkerState | src/ClientConnection.cc:694-712 | a request is accepted exactly in the state that it asks for, written out for each, and then the state is the request's; a refused one notes an invalid state |
| ClientConnection.ClientConnection.OnClientTerminate | src/ClientConnection.cc:650-692 | which state a terminated process leads to from each, that it leaves pending requests alone, and that one that has failed is noted while a process is waited for |
| ClientConnection.ClientConnection.OnConnect | src/ClientConnection.cc:284-301 | for every result of connecting, with anything interleaved before it is used: the worker is connected if it is no error and still connecting if it is one, with the result noted unless interrupted, or a start has been asked for; the handler is one of the model's event sequences, ended by that result |
| ClientConnection.ClientConnection.OnConnectedIdle | src/ClientConnection.cc:468-500 | for everything that reading can give: from connected and from restarting the state and the error that follow, or those of a request or a terminated process that has come in between; one of the model's event sequences, ended by that result |
| ClientConnection.ClientConnection.OnStartClient | src/ClientConnection.cc:503-518 | both assertions of the handler hold with anything interleaved; one launch is made, and for every result of it the worker then connects, with the result noted |
| ClientConnection.ClientConnection.OnStopClient | src/ClientConnection.cc:566-579 | both assertions of the handler hold with anything interleaved; `terminate` is written once and the worker is connected with no error left, or if sending throws nothing is written and the state stays that of the command |
| ClientConnection.ClientConnection.OnRestartClient | src/ClientConnection.cc:581-592 | the assertion of the handler holds with anything interleaved; `terminate` is written once unless sending throws, and the state stays restarting, or is start if the process has terminated |
| ClientConnection.ClientConnection.OnSyncClient | src/ClientConnection.cc:594-607 | both assertions of the handler hold with anything interleaved; `force-sync` is written once and the worker is connected with no error left, or if sending throws nothing is written and the state stays that of the command |
| ClientConnection.ClientConnection.OnReloadClient | src/ClientConnection.cc:609-622 | both assertions of the handler hold with anything interleaved; `reload` is written once and the worker is connected with no error left, or if sending throws nothing is written and the state stays that of the command |
| ClientConnection.ClientConnection.SendCommand | src/ClientConnection.cc:572 | the command of the request under way goes on the wire once, unless it throws |
| ClientConnection.ClientConnection.Entry | src/ClientConnection.cc:67-167 | every run of the worker's loop is one of the model's event sequences, with one handler entered in each round until it is destroyed; the fields are what the events make of them |
| ConnectionHistory.StatesOfRequests | src/ClientConnection.cc:566-622 | where each request can be made, in which state it waits and is under way, and what is written for it |
| ConnectionHistory.ConnectEnds | src/ClientConnection.cc:284-301 | for every run and every result of connecting: connected exactly if it is no error, unless a start has been asked for meanwhile, which then stands; what is noted as the last error |
| ConnectionHistory.ConnectSucceeds | src/ClientConnection.cc:284-301 | from the dispatch on, connecting with success leaves the worker connected if and only if no start is asked for before the result is used |
| ConnectionHistory.ConnectedSince | src/ClientConnection.cc:284-301 | in every run that ends connected, or with a command open or under way: the last result of connecting was no error, and every disconnect read since came when a command had already been asked for |
| ConnectionHistory.DisconnectIsMissed | src/ClientConnection.cc:475-482 | an interleaving in which a disconnect is read and not noticed |
| ConnectionHistory.ReadBegins | src/ClientConnection.cc:468-473 | a handler dispatched to for reading reads if and only if nothing has come in between |
| ConnectionHistory.ReadEnds | src/ClientConnection.cc:474-500 | what each result of reading leads to while connected, and what is noted: to connecting exactly after a disconnect with no command asked for meanwhile; a timeout is no error |
| ConnectionHistory.ReadEndsInRestart | src/ClientConnection.cc:485-500 | the same in a restart: a disconnect, or a terminated process, leads to start |
| ConnectionHistory.LaunchEnds | src/ClientConnection.cc:503-518 | whatever comes in between, after a launch the worker connects, and its result is noted |
| ConnectionHistory.CommandGoesOut | src/ClientConnection.cc:566-622 | which state a command is under way in, and which command goes on the wire |
| ConnectionHistory.CommandEnds | src/ClientConnection.cc:566-622 | once it is out the worker is connected, or goes on with the restart, and no error is left |
| ConnectionHistory.TalliesExactly | src/ClientConnection.cc:284-712 | which step counts as a request accepted, a command written, thrown or cut off, or a launch, and that no other does |
| ConnectionHistory.AnsweredAfterSixSteps | src/ClientConnection.cc:66-168 | a waiting request, given by its state, has led to its command, or a start to a launch, when the worker has made six steps and has not been destroyed |
| ConnectionHistory.DispatchForgets | src/ClientConnection.cc:66-168 | reading the state at the head of the loop forgets the last error, and ends the worker exactly on shutdown |
| RestoreSelection.AncestorIsLess | src/RestoreFilesPanel.cc:78 | sorting by path string puts a directory before everything below it |
| RestoreSelection.LessExactly | src/RestoreFilesPanel.cc:78 | one string is less than another if it is a beginning of it or has the smaller character at the first place where they differ |
| RestoreSelection.AddKeepsOrder | src/RestoreFilesPanel.cc:62-87 | adding a mark keeps the list sorted by path and free of repeats |
| RestoreSelection.RemoveKeepsOrder | src/RestoreFilesPanel.cc:89-99 | removing a mark keeps the list sorted, and no copy of it stays |
| RestoreSelection.RestoreSpec.Add | src/RestoreFilesPanel.cc:62-87 | a mark that is there is not added; a new one goes before the first with a greater path |
| RestoreSelection.RestoreSpec.Remove | src/RestoreFilesPanel.cc:89-99 | the first equal mark goes, all others stay in order |
| RestoreSelection.MarkAt | src/RestoreFilesPanel.cc:236-272 | a node that matches an entry has that entry's sense, and the entry is for the node or one above it; a node that matches none is not included |
| RestoreSelection.MarkExactly | src/RestoreFilesPanel.cc:236-272 | a node is as the one above it, unless it has an entry of the other sense, which is then the one that it obeys |
| RestoreSelection.MarkNeedsOnlyAncestors | src/RestoreFilesPanel.cc:236-272 | what a node shows depends only on the entries for it and for the nodes above it |
| RestoreSelection.BelowByPathString | src/RestoreFilesPanel.cc:284-301 | the test on path strings finds exactly what is below the directory |
| RestoreSelection.ToggledIsOneEntry | src/RestoreFilesPanel.cc:568-598 | a click adds or removes exactly one entry, the one for the clicked node that differs from what it inherits, and keeps the order |
| RestoreSelection.ToggleFlips | src/RestoreFilesPanel.cc:568-603 | a click flips the included state of the node and changes no node outside its subtree |
| RestoreSelection.ToggleFlipsBelow | src/RestoreFilesPanel.cc:245-272 | a node below without marks of its own or in between flips too |
| RestoreSelection.ToggleTwice | src/RestoreFilesPanel.cc:568-603 | a second click restores what every node of the tree shows |
| RestoreSelection.ClicksKeepOrder | src/RestoreFilesPanel.cc:568-603 | every list that clicks can make is sorted and has no repeats |
| RestoreSelection.RestoreFilesPanel.UpdateState | src/RestoreFilesPanel.cc:236-330 | the node, and those above it if asked for, get the mark that the list gives them, and the icon is the right one |
| RestoreSelection.RestoreFilesPanel.ChooseIcon | src/RestoreFilesPanel.cc:274-330 | the partial icon comes exactly when the node matches no entry and something below it has an include entry |
| RestoreSelection.IconExactly | src/RestoreFilesPanel.cc:274-330 | which of the six icons a node has, if and only if what is the case |
| RestoreSelection.RestoreFilesPanel.UpdateStateIcon | src/FileTree.cc:90-113 | what is refreshed is right, parents and subtree as asked for, and nothing else changes |
| RestoreSelection.RestoreFilesPanel.ToggleEntry | src/RestoreFilesPanel.cc:568-598 | the branches of the click make the list the toggled one |
| RestoreSelection.RestoreFilesPanel.OnTreeNodeActivate | src/RestoreFilesPanel.cc:568-603 | after a click every node of the tree, refreshed or not, has the right mark and icon |
| RestorePlan.MostRecentIsGreatest | src/RestoreFilesPanel.cc:889-910 | the most recent version is the one with the greatest id, of equal ones the first; there is none exactly if there are no versions |
| RestorePlan.LatestBeforeIsLatest | src/RestoreProgressPanel.cc:389-411 | the version for a date is the latest not after it, of equal ones the last listed; there is none exactly if all are later |
| RestorePlan.ChosenExactly | src/RestoreProgressPanel.cc:380-411 | the version to restore: without a date the one with the greatest id, the first of equal ones; with a date the latest that is not after it, the last of equal ones; none if there is none such |
| RestorePlan.WalkCount | src/RestoreProgressPanel.cc:486-630 | a walk fetches a file exactly once if following names from its start finds it with nothing excluded, deleted or missing on the way, and otherwise not at all |
| RestorePlan.WalkItems | src/RestoreProgressPanel.cc:593-627 | every item of a walk is the one that following names finds, with its version and directory id |
| RestorePlan.LookupExactly | src/RestoreProgressPanel.cc:486-630 | following names finds a file if and only if after every number of them there is a node, not excluded, whose version to restore is not deleted and is a directory, or at the end a file |
| RestorePlan.SeenIsReached | src/RestoreProgressPanel.cc:413-484 | the counting walk looks at the entries of exactly the nodes that are reached through directories that are not excluded or deleted |
| RestorePlan.LookupThrough | src/RestoreProgressPanel.cc:413-484 | a file is found from above exactly if the walk from above gets to a node on the way and the file is found from there |
| RestorePruning.DroppedMembers | src/RestoreProgressPanel.cc:430-450 | the loop over the entries at the visited nodes removes exactly the include entries that it comes to before an exclude entry of the node |
| RestorePruning.PassMembers | src/RestoreProgressPanel.cc:241-275 | the counting pass keeps every exclude entry and the order, and an include entry that goes is below another include entry |
| RestorePruning.KeptApart | src/RestoreProgressPanel.cc:241-275 | no include entry that is left is reached from another one, unless its node is excluded |
| RestorePruning.FindsExactly | src/RestoreProgressPanel.cc:486-630 | the same from an entry of the list, in terms of the exclude entries |
| RestorePruning.FetchedOnce | src/RestoreProgressPanel.cc:241-328 | for every sorted list, tree and file: the plan has the file exactly once if some include entry finds it, and else not at all |
| RestorePruning.FetchedExactly | src/RestoreProgressPanel.cc:241-328 | the plan has a file once if there is an include entry for it or above it, from which down to it every node is there, has a version to restore, and is not deleted and not excluded; otherwise not at all |
| RestorePruning.FetchedVersion | src/RestoreProgressPanel.cc:380-411 | what is fetched is the version chosen for the file, not deleted and not a directory, asked for from the directory that it is in: by the version chosen for that if the file was found from above, and otherwise by its most recent one |
| RestorePruning.FetchedVersionExactly | src/RestoreProgressPanel.cc:380-411 | every item of a plan has the version that the date, or its absence, asks for, written out |
| RestorePruning.AskedForFrom | src/RestoreProgressPanel.cc:295-309 | by which id of its directory a file is asked for: if an entry above reaches it by that of the version chosen for the directory, and otherwise by that of the most recent one |
| RestorePruning.CountAtExactly | src/RestoreProgressPanel.cc:241-328 | how often a file is in a plan |
| RestorePruning.CountedIsFetched | src/RestoreProgressPanel.cc:241-328 | the files counted are those of the plan, in the same order; it rests on the entries being sorted |
| RestorePruning.PassKeepsHead | src/RestoreProgressPanel.cc:281-328 | the first entry of the list survives the counting pass |
| RestorePruning.PassedIsShown | src/RestoreFilesPanel.cc:258-272 | the nearest marks select a node if and only if the tree shows it as included and the nearest marked node is not a clash of both marks |
| RestorePruning.LivePathExactly | src/RestoreProgressPanel.cc:486-630 | the way down to a file is live if and only if every node on it is there, with a version to restore that is not deleted, of directories and at the end of a file |
| RestorePruning.ClashMeans | src/RestoreFilesPanel.cc:568-598 | in a clash, of the node and those above it the nearest one with an entry has both, and the one above that is not included |
| RestorePruning.ClashIf | src/RestoreFilesPanel.cc:568-598 | the converse |
| RestorePruning.FetchedIfShown | src/RestoreProgressPanel.cc:486-630 | a file whose way down is live is fetched once if the tree shows it as included and its nearest mark is no clash, and otherwise not at all |
| RestorePruning.ClashByClicks | src/RestoreFilesPanel.cc:568-598 | four clicks after which a node is shown as included but carries an exclude entry |
| RestorePruning.ExcludeFirstByClicks | src/RestoreProgressPanel.cc:286-328 | four clicks after which the list begins with an exclude entry although something is included |
| RestoreRun.GetMostRecent | src/RestoreFilesPanel.cc:889-910 | the loop finds the version with the greatest id, the first of equal ones, or none if there are none |
| RestoreRun.GetVersionToRestore | src/RestoreProgressPanel.cc:380-411 | with a date the loop finds the latest version that is not after it, the last of equal ones, or none if all are later; without one it finds the version with the greatest id |
| RestoreRun.CheckEntries | src/RestoreProgressPanel.cc:430-450 | the loop over a copy of the entries removes what is redundant at the node and stops exactly if it is excluded |
| RestoreRun.RoomForEntry | src/RestoreProgressPanel.cc:536-551 | nothing made for an earlier entry, directories above it included, is at or below where a later entry's node goes |
| RestoreRun.BytesExactly | src/RestoreProgressPanel.cc:622 | each file counts with its blocks times the size of a block |
| RestoreRun.RestoreProgressPanel.CountFilesRecursive | src/RestoreProgressPanel.cc:413-484 | unless stopped or a listing fails, the entries lose what the walk finds redundant and the counters grow by the files and bytes of the walk; after a stop or failure they have grown by no more; the first entry stays |
| RestoreRun.RestoreProgressPanel.FindAbove | src/RestoreProgressPanel.cc:111-124 | the search up from the target ends at the directory with the current path, before it would go past the root |
| RestoreRun.RestoreProgressPanel.MakeLocalPath | src/RestoreProgressPanel.cc:77-146 | the loop over the path string ends; it visits the proper ancestors below the root from the top down, makes only those, and the result is the base with the node's components |
| RestoreRun.RestoreProgressPanel.FetchFile | src/RestoreProgressPanel.cc:604-627 | a file fetched is noted at its own place, with the id and version asked for, below directories that are there; one that fails is reported |
| RestoreRun.RestoreProgressPanel.RestoreFilesRecursive | src/RestoreProgressPanel.cc:486-630 | what is fetched is a prefix of the walk, all of it on success; what is made locally is at or below the node; no object is found to exist already if there was room; a node is reported missing only if it is marked and has no version to restore |
| RestoreRun.RestoreProgressPanel.CountEntries | src/RestoreProgressPanel.cc:241-275 | unless stopped or a listing fails, the entries left are the survivors and the counters hold the files and bytes of the whole plan |
| RestoreRun.RestoreProgressPanel.ParentOf | src/RestoreProgressPanel.cc:295-309 | the parent that is asked for its most recent version always has one, and the id is that of its version with the greatest id |
| RestoreRun.RestoreProgressPanel.RestoreEntries | src/RestoreProgressPanel.cc:279-328 | what is fetched is a prefix of the plan, all of it on success; with no failure it succeeds exactly if there is a first entry and it is an include; else nothing is fetched |
| RestoreRun.RestoreProgressPanel.StartRestore | src/RestoreProgressPanel.cc:206-378 | whatever is still asked for from before, and with a stop request at any of the places where the user interface runs: files and bytes done are those of what is fetched, never exceed those counted and equal them on success; what is fetched is a prefix of the plan, all of it on success; the local files are those fetched, each below directories that were made; no object is found to exist already; a node is reported missing only if it is marked and has no version to restore; without failure it succeeds exactly if the first entry is an include; if it is not, nothing is fetched |
| ServerCache.ServerConnection.Connect | src/ServerConnection.cc:88-117 | every connection made gets a new number, and one that will do is kept with its number |
| ServerCache.ServerConnection.Disconnect | src/ServerConnection.cc:221-243 | not connected any more, the number unchanged |
| ServerCache.ServerConnection.ListDirectory | src/ServerConnection.cc:274-303 | an answer is what the server gives for the id asked for, and is noted with the number of the present connection; the number never falls |
| ServerCache.NamedCount | src/RestoreFilesPanel.cc:863-877 | grouping by name keeps every entry of a listing, as often as it occurs, under its own name |
| ServerCache.ServerCacheNode.Root | include/RestoreFilesPanel.h:150-163 | the root has the path "/" and one version, a directory with the id 1 |
| ServerCache.ServerCacheNode.Below | include/RestoreFilesPanel.h:165-189 | a child's path is its parent's, a separator and its name, with no second separator below the root |
| ServerCache.ServerCacheNode.GetMostRecent | src/RestoreFilesPanel.cc:889-910 | the remembered version is always the one with the greatest id |
| ServerCache.ServerCacheNode.ForgetVersions | src/RestoreFilesPanel.cc:849-859 | the old children lose their versions and what was remembered of them, and the table finds each by name |
| ServerCache.ServerCacheNode.TakeEntry | src/RestoreFilesPanel.cc:866-878 | an entry goes to the one child with its name, made if need be; names stay unique, other children are as before |
| ServerCache.ServerCacheNode.AddVersions | src/RestoreFilesPanel.cc:861-878 | old children stay in place, every child has exactly the entries of its name in listing order, and every name listed has a child |
| ServerCache.ServerCacheNode.TakeListing | src/RestoreFilesPanel.cc:849-887 | the listing is given to the children, old ones in place and every name listed having one, and noted as that of the present connection |
| ServerCache.ServerCacheNode.GetChildren | src/RestoreFilesPanel.cc:822-887 | children given are of the present connection; from the cache nothing changes; otherwise they are grouped from the listing for the id of the node's most recent version; after a failure children and versions are as before; the connection number never falls |
| ServerCache.ServerCache.GetChildren | src/RestoreFilesPanel.cc:822-887 | on any node of the tree: all nodes of the tree stay right, none is lost, others keep their children; children given have exactly the entries of their names in a listing made on the present connection, a new one being that for the id of the node's most recent version |
| ServerCache.ServerCache.Connect | src/ServerConnection.cc:88-117 | connecting anew leaves every node of the tree right |
| ServerCache.ServerCache.Disconnect | src/ServerConnection.cc:221-243 | so does disconnecting |
| ServerCache.ServerCache.Browse | src/RestoreFilesPanel.cc:822-887 | after any sequence of listings, connections and disconnections, on any nodes, each node that would answer from its cache holds what a listing on the present connection said, every child with exactly the entries of its name |

## Left out

- Widgets, icons of the backup tree, panels, message boxes and event tables; of the icons only those of the restore tree are modelled. Answers to a question are parameters.
- Network, TLS, keys, certificates, the setup wizard, and real file system calls: the server is a tree, the disk a map, and a failure or crash a nondeterministic step.
- Symbolic links, attributes of restored files, times and owners, Windows branches, character encodings, and what regular expressions mean.
- The Box Backup library itself; its behaviour is assumed as said above. `src/TestRestore.cc` and the other test sources are not modelled.
- `src/BackupFilesPanel.cc`, an older duplicate of the rule engine, `src/CompareFilesPanel.cc`, `src/Property.cc`, `src/ParamPanel.cc`, `src/Database.cc` and the chart code: they would add easy members only.
- Restoring deleted directories and undeleting afterwards (src/Restore.cc:300-306, 519-523): the tree is what the listing for the kind of restore gives.
- A negative stored name length in a resume file: the model rejects it, the source leaves it to the library.
- Saves cut short in the middle: a save is one step.
- Restore.RestoreJob.Run: the branch for a resume file that cannot be decoded is shown to be dead for files that this restore wrote, and files from elsewhere are not modelled.
- Restore.RestoreJob.EnsureDirectory: a file in the way of a directory is shown not to occur, so its removal is not modelled.
- BackupScan.CountLocalFiles: entries that are neither files, links nor directories are not modelled; the scan passes them over.
- ClientConnection.ClientConnection.OnConnectedIdle: the state of the daemon that it notes for display is not modelled.
- ClientConnection.OneCommandPerRequest: the launching of the daemon process and the bytes of a command line are not modelled, only that it is launched and which command is written.
- ClientConfig.SavedLocationsComeBackGrouped: what the library's parser does with spaces at the ends of a line, comment signs and braces inside a line is not modelled, so a value that it would change for such a reason counts as coming back.
- ClientConfig.SecondSaveIsIdentity: a file in another layout, such as one written by hand, is not modelled.
- ClientConfig.ClientConfig.Load: the other properties of the configuration are not modelled.
- ClientConfig.ClientConfig.Save: the rest of the file, and a failure to write it, are not modelled.
- ClientConfig.ClientConfig.IsClean: the other properties of the configuration are not compared; they and the listeners on them are not modelled.
- RestoreRun.RestoreProgressPanel.CountFilesRecursive: after a stop request or a failed listing the counters are bounded, not given exactly.
- The checks at the start of a restore for host, keys and account number, and the messages that it shows; the text of error messages is modelled only as their kind.
- ServerCache.ServerCacheNode.GetChildren: attributes of a listed directory are not kept; a node that answers from its cache may hold a listing for an id that was its most recent one before its parent was listed again; children are references, while the source keeps them in a vector that can move.
- Lazy loading of tree nodes: the trees of both panels are modelled as loaded, and refreshing is over all of them.

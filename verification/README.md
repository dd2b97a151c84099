# MaculaOS: upgrades, root relocation and the text formats around them

A Dafny model of the parts of MaculaOS that change a disk or rewrite a file, with proofs of what they
promise: the A/B switch of a component version, the move of a root file system that lives in memory onto
a tmpfs, and the algorithms that read, merge, scan, rename, archive and retain.

`dafny verify dfyconfig.toml` checks everything.

## How the model is built

| file | models |
|---|---|
| `Component.dfy` | one component directory: versions, `current`, `previous`, every step of the switch, what a crash or a failing step leaves behind, and whole runs of upgrades |
| `ComponentDir.dfy` | the same switch as it runs: steps in place, early returns, a stack of deferred calls |
| `Upgrade.dfy` | the `upgrade` command over three components, and any number of such processes on one lock file |
| `Relocate.dfy` | the three tree walks that copy, move and delete the live root |
| `Environment.dfy` | `/etc/environment`: parse, merge, print |
| `Quoting.dfy`, `Utf8.dfy` | `strconv.Quote` and `Unquote`; characters in UTF-8 and the blanks of `strings.TrimSpace` |
| `YamlKeys.dfy` | renaming the keys of a nested map while Go ranges over it |
| `MagicScan.dfy` | the scanner that finds the file system image in the executable |
| `Backups.dfy`, `Archive.dfy`, `SizeFormat.dfy` | backup names, retention, choice, archive round trip, sizes |
| `Health.dfy`, `Cmdline.dfy`, `K3sArgs.dfy`, `SshKeys.dfy` | bounded restarts, kernel command line, k3s arguments, authorised keys |
| `Text.dfy` | strings, Go's string order, sorting |

Failures are explicit. `Component.Faults` names every step of the switch that can fail and every partial
state a directory copy or removal can leave; a theorem that quantifies over `Faults` quantifies over all
combinations of failures. A `World` carries a log of every state the disk has been in, so a statement about
all prefixes of the log is a statement about a crash at any moment. In the other classes `mayFail` lets any
fallible call fail or succeed arbitrarily; with `mayFail` false the same methods prove that they succeed.
`history` plays the part of the log there.

The order in which Go ranges over a map is arbitrary in every loop that depends on it, and so is the split
of a file into reads.

Go's `os.Rename` is modelled as Go has it: it refuses an existing directory as the new name.

## What the proofs found

* **Re-installing the running version.** `CopyComponent` ignores the error of the second
  `StatComponentVersion` (pkg/system/component.go:53). If that stat fails although the destination already
  runs the source's version, the version directory is moved aside while `current` points at it, and a crash
  then leaves `current` dangling. `Component.CrashSafety` shows that this is the only way to lose it: the
  switch is safe under all faults and crashes exactly when the versions differ or a leftover blocks it.
* **A plain file at the destination** is removed before the rename and not put back when the rename fails
  (`Component.AllOrNothing`).
* **The directory moved aside stays** as `<version>.old` after a successful re-install, since the deferred
  rename refuses an existing directory. It blocks every further re-install of that version
  (`Component.ReinstallOnce`).
* **`/mnt` in the new root** is created with the metadata of `/`, because the mount point had been given it
  when the walk comes by (`Relocation.MirrorOfOldRoot`).
* **Environment lines** that do not fit the scanner's buffer are dropped, and everything after them. Keys
  that begin with `#` are lost, and those that begin with `export` come back shorter;
  `Environment.ReadBack` gives the exact condition. Inner blanks in a key do no harm, and neither do trailing
  ones, since the equals sign follows.
* **The magic scanner** misses an occurrence that comes while another match is under way, because after a
  mismatch it does not look at the byte again. `MagicScan.Clear` is the exact condition, on the bytes alone:
  no beginning of the magic ends just before the occurrence, except where yet another one was in its way.
  So the magic is missed after one underscore and found after two (`MagicScan.FoundExactly`,
  `MagicScan.ObstructedIsMissed`, `MagicScan.ObstructedIsFound`).
* **Restoring over a longer file** leaves the tail of the old content, because the file is opened without
  truncation (`Archive.OverwriteIsExact`). A directory excluded by its own name only is made again when
  something in it was archived (`Archive.OnlyKeptComeBack`).
* **Restoring by date** picks the oldest backup whose name contains the date (`Backups.ChoiceByTime`).

## Model

| member | source | states |
|---|---|---|
| Component.CrashSafety | pkg/system/component.go:48-127 | From a well-formed destination whose `current` names `o`: in every state on disk, whatever fails and wherever the machine stops, `current` names a complete directory (old version unchanged, or all of the source's files), if and only if `o` differs from the source version or a leftover `current.tmp` or `.old` is there; and always when the destination's version can be read |
| Component.CopySafe | pkg/system/component.go:48-127 | The forward half for one fault pattern, as used in runs |
| Component.UnsafeReinstall | pkg/system/component.go:53-57 | A concrete fault pattern that breaks crash safety when the running version is installed again |
| Component.AsideIsUnsafe | pkg/system/component.go:88-95 | The state after moving the running version aside: `current` names nothing |
| Component.AllOrNothing | pkg/system/component.go:69-103 | A call that did not rename the new directory into place restores every entry exactly and leaves no temporary name, for all faults outside the undo steps, if and only if no plain file sits at the destination (or nothing is done at all) |
| Component.FileIsLost | pkg/system/component.go:97-103 | A plain file at the destination is gone after a failed rename |
| Component.WithLinkEnds | pkg/system/component.go:69-127 | Exactly what one call leaves under every name, for every fault pattern |
| Component.MoveAsideEnds | pkg/system/component.go:88-126 | The same from the point where the copy is complete, with the deferred move back |
| Component.SwitchEnds | pkg/system/component.go:101-126 | The same for the renames: `previous` is what `current` was unless its replacement failed |
| Component.CopiedMeansSwitched | pkg/system/component.go:101-126 | A call that returns true, for another version or with the destination's version read: `current` names the source version, which holds the source's files with its mode; `previous` names the version current before exactly when it could be replaced; that version is untouched; nothing else changed |
| Component.CopiesExactly | pkg/system/component.go:48-127 | For every fault pattern, exactly when a call copies and exactly when it reports no error: failing to set a mode or to replace `previous` ends nothing, any other failure on the way does, an up-to-date destination is no error |
| Component.NothingOffered | pkg/system/component.go:49-52 | A source without a readable version is an error, and nothing is touched |
| Component.VersionRead | pkg/system/component.go:23-44 | A version is read exactly when the link is there and the sibling it names is a directory; it is that name |
| Component.InstallsUnlessBlocked | pkg/system/component.go:48-127 | When nothing fails, another version is installed if and only if no `current.tmp` and no moved-aside directory of that version is left over; so the theorems about completed calls are not about nothing |
| Component.ReinstallOnce | pkg/system/component.go:88-95 | A version can be re-installed once; the directory moved aside stays and blocks the next time |
| Component.AttemptKeepsBootable | pkg/system/component.go:48-127 | One attempt, cut short anywhere: the component stays bootable, with the old directory unchanged or the source's files; excluded is only the fault of `Component.UnsafeReinstall`, the running version misread and installed again with nothing in the way |
| Component.RunReaches | pkg/system/component.go:48-127 | Induction over runs of upgrades, downgrades, failures and crashes |
| Component.RunsStayBootable | pkg/system/component.go:48-127 | In every state of every run of upgrades, downgrades, failures and crashes `current` names a version directory whose files came whole from some source; every completed call moves to a different version, keeps the one current before, and leaves `previous` on it. The stat of the destination may fail too; excluded are only attempts that re-install the running version through that fault with nothing in the way, which `Component.CrashSafety` shows to be unsafe |
| Component.CopyLogged | pkg/system/component.go:58-62 | With the remount flag the remount is the first event, without it there is none; the log ends in the actual state |
| ComponentDirs.ComponentDir.CopyComponent | pkg/system/component.go:48-127 | The imperative version, with its stack of deferred calls, leaves the same entries, goes through the same states and returns the same as the specification, for every fault pattern |
| ComponentDirs.ComponentDir.Install | pkg/system/component.go:64-126 | Whichever return is reached, the calls deferred by then, run last in first out, give the specified end |
| ComponentDirs.ComponentDir.DoMoveAside | pkg/system/component.go:88-99 | The way back is deferred exactly when the move succeeded |
| Upgrade.Upgrader.Run | pkg/cli/upgrade/upgrade.go:114-186 | It touches nothing unless both roots are valid and the lock is held; then every enabled component ends with what copying it alone gives, and the others as they were; whether anything was copied, and everything seen, is exactly what the three turns say, followed by sync and reboot |
| Upgrade.RunMeans | pkg/cli/upgrade/upgrade.go:133-185 | The same for the specification of the run: `Ran` names each component's own copying, when it remounts, and the log in order |
| Upgrade.UnblockedEndsAtSource | pkg/cli/upgrade/upgrade.go:133-158 | An enabled component with nothing in its way and no failure ends at its source's version, however the others fare, and if it was not there before the run counts as having copied |
| Upgrade.Upgrader.UpgradeComponent | pkg/cli/upgrade/upgrade.go:135-142 | One component: errors are logged, and the remount flag is dropped after a copy |
| Upgrade.UpgradeOneGuarded | pkg/cli/upgrade/upgrade.go:135-158 | One component's turn keeps: every write so far came after a remount, and the flag is only off once there was one |
| Upgrade.EveryWriteRemounted | pkg/cli/upgrade/upgrade.go:133-158 | With the remount flag every write of the whole run comes after a successful remount, for any mix of skips, failures and copies |
| Upgrade.EndsOnlyAfterCopy | pkg/cli/upgrade/upgrade.go:160-185 | Sync and reboot come last, each exactly when its flag is set and some component was copied, which then names its source's version; components not enabled are untouched |
| Upgrade.UpgradeOneEnds | pkg/cli/upgrade/upgrade.go:135-158 | What one component's turn changes |
| UpgradeLock.OneCopierAtATime | pkg/cli/upgrade/upgrade.go:122-131 | In every behaviour of any number of processes at most one is in its copy phase, and between the copying of two processes the first releases the lock and the second acquires it |
| UpgradeLock.Reachable | pkg/cli/upgrade/upgrade.go:122-131 | The inductive invariant holds in every reachable state |
| UpgradeLock.FlockKeeps | pkg/cli/upgrade/upgrade.go:128-130 | Taking or being refused the lock keeps the invariant |
| UpgradeLock.EndKeeps | pkg/cli/upgrade/upgrade.go:127-131 | So does the end of a process, by the deferred unlock, a fatal error or being killed |
| Relocation.Machine.CopyFS | pkg/transferroot/transferroot.go:50-211 | On success the system sees exactly the mirror of the old root; before the delete walk every state is a tree that holds each root-device file whole in the old place or the new; from then on the new root is complete in every state; when no removal resists, no regular file is left after the second walk, and the old root ends bare of all but what is mounted directly under it; it succeeds only if, and without failures if, no socket is on the root device |
| Relocation.MirrorOfOldRoot | pkg/transferroot/transferroot.go:63-165 | The mirror in terms of the old system: exactly the root-device part, each node as it was; each other mounted directory is there and empty; `/mnt` has the metadata of `/` |
| Relocation.MirrorIsTree | pkg/transferroot/transferroot.go:63-95 | The mirror is a tree, with nothing below a directory of another device |
| Relocation.MovedIsMirror | pkg/transferroot/transferroot.go:63-165 | When both walks are done the new root is the mirror |
| Relocation.Machine.CopyDirs | pkg/transferroot/transferroot.go:63-95 | First walk: after `path` exactly the directories reached from it have been added to the copy, and no file is lost at any moment |
| Relocation.Machine.CopyDirsIn | pkg/transferroot/transferroot.go:63-95 | The same for the entries of a directory, read before the copy is made |
| Relocation.Machine.MakeDir | pkg/transferroot/transferroot.go:72-87 | A directory is made where nothing is, in a parent already copied |
| Relocation.Machine.MoveFiles | pkg/transferroot/transferroot.go:99-165 | Second walk: after `path` everything reached from it is copied, none of it is a socket, only files below it have been removed, and all of them when no removal resists |
| Relocation.Machine.MoveFile | pkg/transferroot/transferroot.go:115-135 | A file is copied chunk by chunk and removed only when the copy is whole; a removal that fails is no error |
| Relocation.Machine.MoveLink | pkg/transferroot/transferroot.go:136-143 | A link gets the same target, owner and mode; the old one stays |
| Relocation.StillThere | pkg/transferroot/transferroot.go:100-108 | The second walk finds every node as it was before the walks, although it removes files on its way |
| Relocation.Machine.DeleteWalk | pkg/transferroot/transferroot.go:171-197 | In every state of the delete walk nothing is changed and everything mounted directly under `/` is complete, the new root among it; when nothing resists, all else is gone |
| Relocation.Machine.RemoveAll | pkg/transferroot/transferroot.go:187-192 | Removal from the bottom up, of anything that does not resist |
| Relocation.Machine.Pivot | pkg/transferroot/transferroot.go:167-211 | The new root stays complete until it becomes `/` |
| Quoting.QuoteRoundTrip | pkg/cc/funcs.go:296-311 | `strconv.Unquote` undoes `strconv.Quote` for every byte string, valid UTF-8 or not, and whatever characters count as printable |
| Quoting.QuoteFromReads | pkg/cc/funcs.go:296-311 | The same for the body from any byte on |
| Quoting.PiecesOf | pkg/cc/funcs.go:296-311 | What is written is a row of pieces, each read back as its bytes whatever follows |
| Quoting.QuotePlain | pkg/cc/funcs.go:311 | Plain text is written as it stands |
| Quoting.QuoteCharReads | pkg/cc/funcs.go:296-311 | Each character or stray byte, as it stands or as an escape of any kind, reads back as its bytes |
| Quoting.DoubleQuoted | pkg/cc/funcs.go:296 | Plain text in double quotes is that text |
| Quoting.SingleQuoted | pkg/cc/funcs.go:296-298 | One plain character in single quotes is that character; more are no quoted string |
| Quoting.BackQuoted | pkg/cc/funcs.go:296 | Between back quotes everything means itself |
| Environment.ReadBack | pkg/cc/funcs.go:280-313 | What is written reads back as the same map, for every map and any order of writing, if and only if every key is free of `=`, newline and leading blanks (Unicode ones too) and starts neither with `#` nor with `export`, and every line fits the scanner's buffer |
| Environment.OkLineReads | pkg/cc/funcs.go:284-301 | A line written for a proper key reads back as that key and its quoted value |
| Environment.BadLineReads | pkg/cc/funcs.go:285-291 | A line written for any other key that could have been read is lost or gives a shorter key |
| Environment.LongestBadKey | pkg/cc/funcs.go:284-313 | With any bad key the map cannot come back, however many of the lines are read |
| Environment.OverlongIsLost | pkg/cc/funcs.go:282-303 | The key of a line that does not fit the scanner's buffer is lost |
| Environment.ParsedKeysAreClean | pkg/cc/funcs.go:282-303 | What the keys of any file are like |
| Environment.EntriesRead | pkg/cc/funcs.go:282-313 | Reading the entries for any list of keys gives the map restricted to them |
| Environment.SecondApplication | pkg/cc/funcs.go:276-319 | A second application, in any order of either writing, merges to the same map and writes a file that holds it |
| Environment.EnvironmentFile.Read | pkg/cc/funcs.go:280-303 | The scanning loop reads what `Parse` says, up to the first line that does not fit its buffer |
| Environment.LastLineWins | pkg/cc/funcs.go:283-302 | A file says what its lines but the last say, overridden by the last |
| Environment.LastNewline | pkg/cc/funcs.go:282-284 | The newline of the last line may be missing |
| Environment.PlainLine | pkg/cc/funcs.go:284-300 | A line `key=text`, blanks around it, gives the key exactly that text when it is no quoted string |
| Environment.ExportLine | pkg/cc/funcs.go:289-300 | The same behind `export`, with or without blanks after it |
| Environment.WordLine | pkg/cc/funcs.go:291-300 | A line without an equals sign is a key with an empty value |
| Environment.CommentLine | pkg/cc/funcs.go:286-288 | A comment says nothing |
| Environment.QuotedLine | pkg/cc/funcs.go:296-300 | A quoted value is read as what was quoted |
| Environment.OldEntryKept | pkg/cc/funcs.go:276-319 | An existing unquoted entry that is not configured keeps its text, in the merged map and in the file written; configured ones are as configured |
| Environment.EnvironmentFile.Apply | pkg/cc/funcs.go:276-319 | The file written holds the old entries overridden by the configured ones, in some order, each once; without settings nothing changes; a write that fails leaves the old file or a beginning of the new one |
| YamlKeys.ToYamlKeys | pkg/config/write.go:41-52 | Every order of ranging, with entries made on the way visited or not, ends in the same fully renamed map |
| YamlKeys.RangeOver | pkg/config/write.go:42-51 | The same for the loop |
| YamlKeys.Visit | pkg/config/write.go:43-50 | One turn: the value is renamed inside and moves to the new key |
| YamlKeys.RenameOne | pkg/config/write.go:46-50 | One turn for an original entry, from the map halfway to the map one further |
| YamlKeys.MadeEntry | pkg/config/write.go:42-50 | An entry made by the loop is a fixed point when the loop gets to it |
| YamlKeys.RenamedTwice | pkg/config/write.go:41-52 | Renaming a renamed map changes nothing |
| YamlKeys.LeafKept | pkg/config/write.go:41-52 | No value is lost: each is found under its renamed path |
| YamlKeys.LeafComesFrom | pkg/config/write.go:41-52 | Nothing is made up: each value of the result comes from a path of the original |
| YamlKeys.PathsStayApart | pkg/config/write.go:41-52 | Different paths to values stay different |
| MagicScan.InFile | pkg/enterchroot/enter.go:173-208 | For any split into reads and any way they end: at the end of the file the answer is the end of the first findable occurrence in the bytes read, or that there is none; at any other report it is the same if the bytes before it hold one, and otherwise a failure. Findable is said of the bytes alone |
| MagicScan.SplitDoesNotMatter | pkg/enterchroot/enter.go:186-205 | The answer depends only on the bytes read before the first report, and on whether that is the end of the file |
| MagicScan.ScanChunk | pkg/enterchroot/enter.go:194-204 | The inner loop carries a match over from read to read |
| MagicScan.FoundExactly | pkg/enterchroot/enter.go:195-203 | An occurrence the scan gets to is found if and only if the bytes before it are clear: wherever a beginning of the magic ends just before it, another match was under way when that one began |
| MagicScan.FreshIsClear | pkg/enterchroot/enter.go:194-203 | The scanner has nothing matched exactly where the bytes are clear |
| MagicScan.FirstFindable | pkg/enterchroot/enter.go:194-205 | A findable occurrence is returned, it or an earlier one |
| MagicScan.HitIsFindable | pkg/enterchroot/enter.go:195-199 | What is returned is findable |
| MagicScan.UnobstructedIsFound | pkg/enterchroot/enter.go:195-203 | It is, when no non-empty proper beginning of the magic ends right before it |
| MagicScan.ObstructedIsMissed | pkg/enterchroot/enter.go:200-202 | A file that holds the magic and is reported not to |
| MagicScan.ObstructedIsFound | pkg/enterchroot/enter.go:195-203 | A file in which a beginning of the magic ends right before the magic, which is found all the same |
| MagicScan.HitMeans | pkg/enterchroot/enter.go:197-199 | A returned offset is just past an occurrence, and the first to be returned |
| Backups.NamesSortByTime | pkg/cli/backup/backup.go:225-227 | For one host the order of the names is the order of the times |
| Backups.NameIsFound | pkg/cli/backup/backup.go:225-227 | A backup's name is listed as one, and contains its day |
| Backups.PadOrder | pkg/cli/backup/backup.go:225 | Zero-padded numbers of one width compare as strings like numbers |
| Backups.BackupDir.List | pkg/cli/backup/backup.go:528-543 | Exactly the archives, each once, sorted; or an error |
| Backups.BackupDir.ApplyRetention | pkg/cli/backup/backup.go:598-619 | Exactly the last min(n, Retention) archives stay when every removal succeeds; nothing else is ever removed; without a configuration, or with a retention of zero or less, nothing is; a directory that cannot be read is an error and left as it is |
| Backups.KeptAreNewest | pkg/cli/backup/backup.go:610-616 | For one host, later in the listing means later in time |
| Backups.Choose | pkg/cli/backup/backup.go:274-301 | The latest, or the first that contains the date, or the right error |
| Backups.ChoiceByTime | pkg/cli/backup/backup.go:282-290 | The latest is the newest; for a date it is the oldest that matches |
| Archive.CreateTarball | pkg/cli/backup/backup.go:421-476 | The entries are those of exactly the paths below the given places that match no exclusion, with their content; when creating or writing fails, some of them |
| Archive.Walk | pkg/cli/backup/backup.go:435-469 | The same below one place, each path once |
| Archive.KeptFromMeans | pkg/cli/backup/backup.go:434-445 | A path is kept exactly when it exists below one of the places and matches no exclusion |
| Archive.MatchGlobMeans | pkg/cli/backup/backup.go:657-662 | A pattern that begins with a star matches exactly the names that end with the rest of it, any other exactly itself |
| Archive.ContainedExcludesAll | pkg/cli/backup/backup.go:440-445 | A pattern contained in a directory's path excludes everything in it, although the walk goes on into it |
| Archive.Target.ExtractTarball | pkg/cli/backup/backup.go:478-526 | The loop follows its specification, up to the first entry that fails; a failing system call leaves all entries before it extracted and touches only the place of its own entry and the way there |
| Archive.ExtractsExactly | pkg/cli/backup/backup.go:493-523 | Extraction succeeds if and only if nothing of another kind is in the way; then the tree holds the archived paths, the directories above them and all it held before |
| Archive.RoundTrip | pkg/cli/backup/backup.go:421-526 | Where the files are absent, every archived directory and file comes back as it was, and nothing else but directories above them |
| Archive.OnlyKeptComeBack | pkg/cli/backup/backup.go:440-445 | Exactly the paths that match no exclusion come back, if and only if no kept path lies in an excluded directory |
| Archive.OverwriteIsExact | pkg/cli/backup/backup.go:513-517 | Over an existing file the content comes back exactly when that file is not longer; otherwise the old tail stays behind it |
| SizeFormat.FormatSize | pkg/cli/backup/backup.go:644-655 | For every int64 of at least 1024: the divisor is the largest power of 1024 not above it, stays below 2^63, and the unit index is at most 5 |
| SizeFormat.NextUnit | pkg/cli/backup/backup.go:650-653 | One turn of the loop keeps the quotient right although each division rounds down |
| Health.Daemon.Watch | pkg/cli/health/health.go:221-251 | Over any run and any results, what is done is exactly what is due: an alert for each failure of an alerting check, a cleanup of its path for each failure of a cleaning check, a restart for each failure of a restarting check up to its limit and a giving-up for each one beyond, in the order of the failures, and nothing else; the first check of a name decides. The stored counts are the restarts issued, within the limit |
| Health.Daemon.OneRound | pkg/cli/health/health.go:233-247 | The same for one round, also with repeated names |
| Health.Daemon.OneFailure | pkg/cli/health/health.go:239-245 | One failed result: the first check of its name decides what is done, going by the failures before |
| Health.ReactionsAreDue | pkg/cli/health/health.go:472-495 | How often each alert, restart, giving-up and cleanup occurs |
| Health.CountDecides | pkg/cli/health/health.go:478-489 | Going by the stored count is going by the failures before |
| Health.FailedMeans | pkg/cli/health/health.go:234-237 | The failures of a name in a round are its results that are not ok |
| Health.Daemon.HandleFailure | pkg/cli/health/health.go:472-495 | What is done for each action, and the count afterwards |
| Health.Remove | pkg/cli/health/health.go:328-342 | The checks of other names, in order; an error when the name is unknown |
| Health.WithoutMeans | pkg/cli/health/health.go:330-336 | Removing a name removes every check of that name and no other |
| Health.RemoveUndoesAdd | pkg/cli/health/health.go:299-336 | Removing what was just added gives the old list back |
| Cmdline.ReadCmdline | pkg/config/read.go:170-191 | The loop follows its specification |
| Cmdline.SettingRead | pkg/config/read.go:172-177 | A dotted key, an equals sign and a value, with quotes around either, is that path with that value |
| Cmdline.SwitchRead | pkg/config/read.go:172-177 | A key without a value is set to `true` |
| Cmdline.EveryPathHoldsItsValues | pkg/config/read.go:170-189 | Each path holds its values in order of appearance, a string for one and a list for more, if and only if no path is a proper beginning of another |
| Cmdline.AllHeld | pkg/config/read.go:170-189 | Then the result holds nothing else either |
| Cmdline.AddOne | pkg/config/read.go:177-188 | One item more keeps that |
| Cmdline.PutElsewhere | pkg/config/read.go:178-187 | Storing at a path does not change any incomparable path |
| Cmdline.BlockedIsDropped | pkg/config/read.go:178-188 | An item with a plain value on its way, or a map at its end, is dropped |
| K3sArgs.ApplyK3s | pkg/cc/funcs.go:79-163 | When the script runs, and with which arguments and variables: base arguments, sorted labels, taints; an error exactly when the mode cannot be read |
| K3sArgs.VarsMean | pkg/cc/funcs.go:99-135 | Which variables are set, each exactly when it should be: full token or shared secret, server address, no download, no start |
| K3sArgs.GeneratedMean | pkg/cc/funcs.go:137-144 | Which labels are generated, and how many |
| K3sArgs.ArgsMean | pkg/cc/funcs.go:97-153 | The arguments in full: those configured, or else agent or server by the server's address, then flag and label for each label, then flag and taint for each taint |
| K3sArgs.ArgumentsAreDetermined | pkg/cc/funcs.go:137-153 | Every order of ranging over the labels gives the same arguments |
| K3sArgs.SameLabels | pkg/cc/funcs.go:137-144 | Permuted keys generate the same labels, each as often |
| K3sArgs.FlaggedAt | pkg/cc/funcs.go:147-153 | In the arguments the elements stand in order, each right after its flag |
| Text.SortedUnique | pkg/cc/funcs.go:145 | Two sorted sequences with the same elements are equal, so sorting has one result |
| SshKeys.Directory.WriteFileAtomic | pkg/util/util.go:12-29 | In every state the file is wholly as before or wholly new, other files are untouched, and the deferred removal takes at most the temporary file, whose name was free; it fails only when a system call does |
| SshKeys.Directory.AuthorizeSshKey | pkg/ssh/ssh.go:94-132 | In every state the file holds the old text, or the old text with the key and one newline if it was not there; on success the latter, with the old mode and the given owner; an empty key does nothing |
| SshKeys.Directory.SetAuthorizedKeys | pkg/ssh/ssh.go:45-49 | The content goes through one turn per key, in each of which a new key is put at the end with one newline, or nothing happens; in every state the old content is a prefix; without failures every key that could be had is processed |
| SshKeys.SecondPass | pkg/ssh/ssh.go:119-126 | After a pass without errors, a second pass with the same keys changes nothing, whatever fails in it |
| SshKeys.ProcessedAreContained | pkg/ssh/ssh.go:123-126 | Every key processed without error is in the file at the end |
| SshKeys.NewKeyHasItsLine | pkg/ssh/ssh.go:123-126 | A key that was new at its turn stands in the result followed by a newline; in a file of whole lines it begins a line |

## Left out

- Destination layout: version entries are real directories and links are relative names of siblings, as the images are built. Chains of links are followed in the destination, absolute targets are not modelled; a `current` that is not a link makes `copy.Copy` copy a directory, which is not modelled.
- Concurrent changes to a component directory by anything but the upgrade itself.
- Progress after a crash: leftovers block later upgrades, so only safety is proved.
- The flags of `upgrade` (pkg/cli/upgrade/upgrade.go:92-108) and the details of reboot, `nsenter` and `chroot`; whether a system root is valid and whether the lock file opens are parameters.
- Device nodes, pipes, hard links, timestamps, extended attributes and umask in `copyFS`; sockets and unknown files make it fail, as in the source. Only directories are mount points.
- `Relocate` itself beyond its fixed new root: the environment variable, `statfs` and the final `exec`.
- Whatever is mounted below a directory of the old root, not directly under `/`, is not shown to be spared by the delete walk; the source does not spare it either.
- The table behind `strconv.IsPrint`: which characters beyond ASCII are printed as they are is arbitrary.
- YamlKeys.ToYamlKeys: on values. Sub-maps shared between two places are not modelled, colliding keys are excluded, and `convert.ToYAMLKey`, which is not part of this model, is taken to be idempotent.
- The regular expression that cuts the kernel command line, YAML, schema mappers and `UpdateMerge`.
- The result of the k3s script, and the spare capacity `append` may share with the configured arguments.
- Fetching keys over the network, finding the home directory and preparing the `.ssh` directory; what became of each key is a parameter.
- The byte formats of tar and gzip, modes and owners in archives, links and unreadable files in what is archived.
- MagicScan.InFile: the offset is unbounded, the source's is a uint64.
- SizeFormat.FormatSize: gives the divisor and the unit; the rendering of the quotient with one decimal is floating point.
- Backup names for years past 9999, and clocks or time zones that jump backwards.
- `sort.Strings` is an insertion sort here; sorted results are unique.
- `createTarball` drops the errors of its deferred closes; so the model's success, like the source's, does not mean that the last bytes reached the disk.
- Running the health checks and the cleanup commands; the endless loop is any finite number of rounds.
- USB and S3 backups, HTTP, NATS, first boot, the terminal interface, installers and boot scripts.

# OPanel verification model

A Dafny model of the parts of OPanel that keep state, branch or calculate, with
proofs of what they promise over every input and every run. `dafny verify
dfyconfig.toml` checks the whole project.

| module | models |
|---|---|
| `Cron`, `CronRoundTrip` | the crontab printer, its line-by-line parser, and how far the one undoes the other |
| `CronFields` | which fields, schedules, commands and notes are valid, value by value |
| `CronReading` | how the parser reads any mix of spaces and tabs, and which note a job is given |
| `CronImport` | what the parser makes of a crontab the panel did not write |
| `Firewall` | compiling rules to an ordered chain with four named sets, against a declarative policy |
| `PhpFpm` | making pool directories and services match the wanted pools, with failing operations |
| `Schedules` | when daily and weekly jobs are due, and what a sweep makes of late or bunched ticks |
| `Jobs` | the per-owner `running` guard as an interleaving of starters, workers, uploads, deletes, failing writes and restarts |
| `Retention` | pruning scheduled archives to the newest few |
| `Accounts` | creating, deleting, suspending and re-roling accounts under the last-administrator rule |
| `Resellers` | the allowance checks and the handlers that check and then write |
| `RateLimit` | the login limiter, with its lazy garbage collection |
| `Sessions` | absolute and idle timeouts with a stamp written at most once a minute |
| `TermProto` | terminal frames on a byte stream |
| `Timestamps` | the stored time text and the order SQL gives it |
| `Text`, `Wrappers` | Go's string functions as the above use them; optional values and results |

Code that updates state is a class or a method with loops, proved equal to a
function of the old state; what the code promises is then proved about that
function, over one step or over every run. Beside each such function stands a lemma
that says, in terms of the input alone, what it gives. Calls to the agent, the
database's failures, the template, the address parser, the digest and random values
are parameters, so the statements hold for every behaviour of them. Times are
integers and a run's clock never goes backwards.

## Findings

Properties the code or its documentation suggests that do not hold as stated, or hold
in a sharper form. Each has its exact condition, and a concrete case or a family of
cases.

- The crontab round trip loses a command that holds `\%`, and a note that starts with
  `disabled: ` or with one of the header's phrases; it holds for all other valid jobs
  (`CronRoundTrip.CrontabRoundTrip`, an if-and-only-if).
- The text order of stored times is wrong within one second when the earlier fraction,
  trimmed, is a prefix of the later (`Timestamps.StoredOrder`). The comment beside
  `fmtTime` promises more; purges and renewals are right to within a second.
- An imported crontab is not validated. A row whose note is over 200 bytes or holds a
  carriage return is stored, and then refused by any edit that keeps the note
  (`CronImport.ImportedIsValidExactly`, `CronImport.LongNoteIsImported`).
- A successful `Apply` does not mean that every service runs on the files in its
  directory. When an earlier call rewrote the files and failed before the restart, the
  next one succeeds and leaves the service on the old ones (`PhpFpm.FreshExactly`,
  `PhpFpm.ApplyTwice`).
- A suspended account stays signed in when its sessions cannot be removed, until its
  next request (`Accounts.StepKeepsSessions`).
- A malware scan whose row is left saying running blocks its owner's scans for good. A
  restart leaves such rows, and so does an outcome that cannot be written, as when the
  scan has used up the time under which its outcome is written too. Backups close such
  rows at startup and do not ask them (`Jobs.RowCheckCatchesLostRows`,
  `Jobs.LostRowBlocksForever`, `Jobs.RowsAreLost`).
- The bound on login attempts in any window's length is `2 * limit - 1`, and it is
  reached (`RateLimit.GuessesPerWindow`, `RateLimit.BoundIsReached`).
- The two `Due` functions differ for a never-run schedule on the day of Go's zero time
  only (`Schedules.DueAgree`).
- n due scans can need more than n sweeps of a day when another schedule's hour comes
  in between (`Schedules.LaterHourTakesASweep`). A due scan is sure to be started
  exactly when some sweep comes with no more schedules due than sweeps made that day
  (`Schedules.StartedExactly`).

Where comments and code differ the model follows the code: `PrunableBackups` says
oldest first and returns newest first; the comment on `PoolFile` says that `www.conf`
must survive and `syncDir` removes it; `RunDue` says that it prunes, and `Prune` is a
separate call; an empty end of a range in a cron field, `5-`, is accepted as `5`.

## Model

| member | source | states |
|---|---|---|
| `Cron.EscapePercent` | internal/cron/cron.go:182-197 | the loop writes exactly the escaped command, whose laws are the CronRoundTrip rows below |
| `Cron.RenderJob` | internal/cron/cron.go:233-251 | one job prints as its note, its disabled mark, the five schedule words and the escaped command |
| `Cron.Render` | internal/cron/cron.go:222-254 | the header and then every job in id order |
| `Cron.IndexAfterFields` | internal/cron/cron.go:360-376 | the scan returns the first blank after the n-th field, or -1; on five words with any mix of spaces and tabs between them that is where CronReading.SpacedLineReads finds the command |
| `Cron.ParseLine` | internal/cron/cron.go:333-356 | the job a line holds, as read by CronReading.SpacedLineReads and CronImport.ParsedIsSound, or none |
| `Cron.ParseStep` | internal/cron/cron.go:270-308 | one line as the line machine takes it: header notes, disabled jobs, pending notes, assignments and jobs; what a run of them amounts to is CronReading.JobsKeepTheNearestNote |
| `Cron.Parse` | internal/cron/cron.go:266-311 | the jobs of the whole text, line by line; CronReading.JobsKeepTheNearestNote says which jobs and notes those are without the machine |
| `CronRoundTrip.EscapedLeavesNoBarePercent` | internal/cron/cron.go:182-197 | an escaped command has no percent without a backslash before it |
| `CronRoundTrip.EscapeIdempotent` | internal/cron/cron.go:182-197 | escaping twice is escaping once |
| `CronRoundTrip.EscapeInvertible` | internal/cron/cron.go:345-351 | unescaping gives the command back if and only if it holds no `\%` |
| `CronRoundTrip.BackslashesDoNotAccumulate` | internal/cron/cron.go:177-197 | however often a command is written, read and written again, its line never grows and never gains a bare percent |
| `CronRoundTrip.RenderedLineParses` | internal/cron/cron.go:333-356 | the line printed for a valid job, or any printable one, reads back as its normalised schedule and unescaped command |
| `CronRoundTrip.RenderedLineShape` | internal/cron/cron.go:314-330 | the line printed for a valid job is one line and is taken for neither a comment nor an assignment |
| `CronRoundTrip.HeaderParses` | internal/cron/cron.go:225-231 | the printed header leaves the parser where it started |
| `CronRoundTrip.ParseOfRender` | internal/cron/cron.go:266-311 | for every list of valid, or merely printable, jobs, parsing the printed file gives job by job, in id order, what each job's own lines say |
| `CronRoundTrip.OneJobRoundTrip` | internal/cron/cron.go:266-311 | a job comes back tidied and alone if and only if its command has no `\%` and its note does not read like one of the panel's lines |
| `CronRoundTrip.CrontabRoundTrip` | internal/cron/cron.go:222-376 | print then parse gives the same jobs in id order, tidied and with ids zeroed, if and only if every job is of that kind; whatever white space separates the schedule |
| `CronRoundTrip.OneJobSpoilsTheFile` | internal/cron/cron.go:280-351 | one job with `\%` in its command, or a note that reads like a header or a disabled job, spoils the round trip of any file it is in |
| `CronRoundTrip.RoundTripFails` | internal/cron/cron.go:345-351 | the concrete valid job whose command is `\%` does not come back |
| `CronRoundTrip.EveryMinuteValid` | internal/cron/cron.go:78-100 | five stars are a valid schedule, so the failing jobs exist |
| `CronRoundTrip.RenderIgnoresOrder` | internal/cron/cron.go:222-254 | rows with distinct ids print the same file in whatever order they arrive |
| `CronReading.PrintedJob` | internal/cron/cron.go:233-251 | how a job is printed whatever white space its schedule was typed with: its note, the mark of a disabled job, five words a space apart and the escaped command |
| `CronReading.SpacedLineReads` | internal/cron/cron.go:333-356 | five words of a valid schedule, separated by any nonempty mix of spaces and tabs, then a command, read as exactly that job |
| `CronReading.SpacedLineParses` | internal/cron/cron.go:266-376 | a crontab of one such line parses to that one job, enabled and without a note; no tab-separated job is dropped |
| `CronReading.AssignmentIsNoJob` | internal/cron/cron.go:314-330 | an assignment never reads as a job |
| `CronReading.JobsKeepTheNearestNote` | internal/cron/cron.go:266-311 | the forward scan with its pending note gives the jobs of all lines in order, each with the note that a look back from its line finds, past the header only |
| `CronFields.NumberValue` | internal/cron/cron.go:141-155 | which decimal numbers each of the five fields takes: 0-59, 0-23, 1-31, 1-12, 0-7 |
| `CronFields.MonthValue` | internal/cron/cron.go:141-155 | jan to dec, in any case, are 1 to 12 in the fourth field |
| `CronFields.WeekdayValue` | internal/cron/cron.go:141-155 | sun to sat, in any case, are 0 to 6 in the fifth field |
| `CronFields.NoNamesBefore` | internal/cron/cron.go:141-155 | the first three fields take no names |
| `CronFields.SingleField` | internal/cron/cron.go:103-139 | an item without list, range or step is valid exactly when it is a star or one of the field's values |
| `CronFields.RangeField` | internal/cron/cron.go:103-139 | a range is valid exactly when its low end is a value and its high end is missing or a value not below it |
| `CronFields.StepField` | internal/cron/cron.go:103-139 | a step is valid exactly on a valid base and from 1 to the field's highest number |
| `CronFields.ListField` | internal/cron/cron.go:103-139 | a list is valid exactly when each of its items is |
| `CronFields.ScheduleIsFiveFields` | internal/cron/cron.go:78-100 | words a space apart are a schedule exactly when they are five, the first does not start with @ and each is valid in its place |
| `CronFields.LengthLimits` | internal/cron/cron.go:164-219 | a job of printing characters is valid exactly when its command is not empty and at most 1000 and its note at most 200 of them |
| `CronImport.ParsedIsSound` | internal/cron/cron.go:266-311 | whatever text is parsed, every job has a valid schedule, a valid command and a one-line trimmed note that reads like none of the panel's lines |
| `CronImport.ImportedIsValidExactly` | internal/httpapi/cron_handlers.go:55-69 | an imported job passes Validate if and only if its note has no carriage return and at most 200 bytes |
| `CronImport.LongNoteIsImported` | internal/httpapi/cron_handlers.go:55-69 | texts with such jobs exist: every printable job with too long a note, written out |
| `CronImport.ImportRoundTrip` | internal/httpapi/cron_handlers.go:55-69 | a crontab the panel did not write, once imported and printed from its rows, reads back as the same jobs if and only if no parsed command holds `\%` |
| `Firewall.Dedupe` | internal/firewall/render.go:203-217 | compacting in place through the array being read and sorting leaves exactly its distinct members, strictly ascending |
| `Firewall.Partition` | internal/firewall/render.go:156-201 | fails exactly for a block or allow address that is none or too long a feed; otherwise each set holds the listed addresses of its family, sorted and distinct, malformed feed lines skipped |
| `Firewall.WriteSet` | internal/firewall/render.go:220-240 | lines of eight that concatenate back to the whole list |
| `Firewall.WriteProtections` | internal/firewall/render.go:77-104 | the fixed head of the chain followed by an accept for each SSH, panel and web port |
| `Firewall.WriteChain` | internal/firewall/render.go:77-114 | the whole chain in order, or a failure exactly when an enabled rule has an address that is none or an enabled port rule a protocol that is none of the four spellings |
| `Firewall.Render` | internal/firewall/render.go:52-117 | fails exactly when an enabled rule cannot be rendered or the feed is over 200000; otherwise first match decides every packet as the declarative policy does, in which tcp is opened by tcp, both and the empty protocol, and udp by udp and both |
| `Firewall.PortRuleMatches` | internal/firewall/render.go:120-153 | the accepts rendered for an enabled rule match a packet if and only if the rule opens it, said of the protocol text itself |
| `Firewall.SetsDecide` | internal/firewall/render.go:156-201 | a source is in the rendered allow or block sets if and only if some enabled rule or feed entry names it |
| `Firewall.SetsAreExact` | internal/firewall/render.go:156-201 | an address is an element of a rendered set if and only if it is of that family and an enabled rule with it, or the feed, lists it |
| `Firewall.FirstMatchIsPolicy` | internal/firewall/render.go:77-114 | first match over the chain equals the policy: known connections, invalid, loopback, allowlist, blocklist, icmp, protected ports, port rules, otherwise drop |
| `Firewall.OpenPortsExactly` | internal/firewall/render.go:105-153 | the rendered chain accepts an otherwise undecided tcp or udp packet if and only if an enabled port rule spells its protocol, covers its port and has no other source |
| `Firewall.TheWayInStaysOpen` | internal/firewall/render.go:34-45 | under every rule list the rendered chain drops a new connection to an SSH, panel or web port if and only if its source is blocked, not trusted and not the loopback |
| `PhpFpm.Host.RemoveStale` | internal/phpfpm/phpfpm.go:417-435 | after the first loop exactly the packaged and stale files are gone, and it reports whether any was |
| `PhpFpm.Host.WriteOne` | internal/phpfpm/phpfpm.go:437-450 | one wanted file: written exactly when it differs, and every failure is reported |
| `PhpFpm.Host.WriteWanted` | internal/phpfpm/phpfpm.go:437-450 | after the second loop every wanted file has its content and nothing else changed, reported exactly |
| `PhpFpm.Host.SyncDir` | internal/phpfpm/phpfpm.go:412-452 | the directory becomes the target, true is returned exactly when it changed, and a failure too leaves foreign files alone |
| `PhpFpm.TwoLoops` | internal/phpfpm/phpfpm.go:412-452 | removing and then writing is the target, and no removal is undone by a write |
| `PhpFpm.Host.SyncVersion` | internal/phpfpm/phpfpm.go:188-215 | one version of the first loop: not installed, unrenderable or synchronised, with the restart decision exact |
| `PhpFpm.Host.SyncAll` | internal/phpfpm/phpfpm.go:187-216 | the first loop over every supported version |
| `PhpFpm.Host.DriveUnit` | internal/phpfpm/phpfpm.go:218-263 | one version of the second loop: the settled service, which PhpFpm.UnitConverges spells out, reached only if each operation it takes worked, and touched only when it is not there yet |
| `PhpFpm.Host.DriveAll` | internal/phpfpm/phpfpm.go:218-264 | the second loop over every supported version: all settled, all operations worked |
| `PhpFpm.Host.Apply` | internal/phpfpm/phpfpm.go:171-268 | success leaves exactly the settled host, in which every version has converged: each pool's file its rendering, a version with pools running, started at boot when anything changed and otherwise as before, one without pools stopped and disabled, every other entry kept; nothing is written exactly when nothing was due, and then nothing changed; no operation it needed failed; it succeeds whenever its operations do; succeed or fail, only the panel's own files are touched |
| `PhpFpm.DirectoryIsThePools` | internal/phpfpm/phpfpm.go:412-452 | after success the panel's files are exactly the rendered pools, no packaged pool is left and every other entry is as it was |
| `PhpFpm.PoolHasItsFile` | internal/phpfpm/phpfpm.go:199-206 | with distinct names each pool's file holds its own rendering |
| `PhpFpm.ServicesFollowThePools` | internal/phpfpm/phpfpm.go:218-263 | after success a version with pools runs, is enabled if its files or sockets were wrong and as before otherwise; one without neither runs nor starts at boot |
| `PhpFpm.WantedForExactly` | internal/phpfpm/phpfpm.go:199-206 | the files wanted for a version are those of its pools, and of pools of one name the last one's rendering |
| `PhpFpm.TargetConverges` | internal/phpfpm/phpfpm.go:412-452 | the target directory said entry by entry: renderings, no packaged pool, nothing else of the panel's, the rest as it was |
| `PhpFpm.UnitConverges` | internal/phpfpm/phpfpm.go:218-263 | the settled service said field by field: running, enabled, and which definitions it has read |
| `PhpFpm.QuietIsUnchanged` | internal/phpfpm/phpfpm.go:171-268 | when nothing is due the settled host is the host itself |
| `PhpFpm.SecondApplyIsQuiet` | internal/phpfpm/phpfpm.go:171-268 | a second Apply with matching sockets has nothing to write, restart, start or stop |
| `PhpFpm.FreshExactly` | internal/phpfpm/phpfpm.go:212-263 | a service runs on the rendered definitions if and only if this Apply changed or started it or it already did |
| `PhpFpm.RewrittenStaysStale` | internal/phpfpm/phpfpm.go:187-264 | once a version's files are written and its running service untouched, an Apply with matching sockets leaves the service on the old definitions |
| `PhpFpm.ApplyTwice` | internal/phpfpm/phpfpm.go:171-268 | two calls: the first writes the files and every service operation fails; the second, in which nothing fails, succeeds and leaves the service as it was, on the old definitions |
| `Schedules.MalwareStartIsPeriodStart` | internal/malware/service.go:248-275 | whenever the day and hour gates pass, the step back of seven days does not happen |
| `Schedules.DueExactly` | internal/backups/schedule.go:51-69 | both decisions said of day, hour and rest of the moment: on, the hour come, a weekly one on its weekday, and not run since that hour of that day |
| `Schedules.EpochIsThursday` | internal/backups/schedule.go:51-69 | the weekday count is the calendar's: 1 January 1970 is a Thursday |
| `Schedules.DueAgree` | internal/malware/service.go:248-270 | the backup and malware decisions agree if and only if it is not a never-run schedule on the day of the zero time |
| `Schedules.DueAgreeInPractice` | internal/backups/schedule.go:51-69 | from the second day on the two decisions are the same |
| `Schedules.DueCanDisagree` | internal/malware/service.go:248-270 | a concrete schedule on which the two decisions differ |
| `Schedules.BackupSweep.RunDue` | internal/backups/schedule.go:76-109 | every due schedule is stamped and given its start's error, whether or not the start succeeds, no other is changed, and the counts are those of the due schedules that started and that did not |
| `Schedules.FiresOncePerOwedDay` | internal/backups/schedule.go:51-109 | over any non-decreasing ticks a schedule fires exactly once on each day it is owed a run and on no other |
| `Schedules.NeverRunFiresEveryDay` | internal/backups/schedule.go:51-109 | a never-run schedule fires as many times as there are days with a tick at or after its hour, on its weekday when weekly |
| `Schedules.SweepsAreIndependent` | internal/backups/schedule.go:76-109 | neither other schedules nor failing starts change the days on which a schedule fires |
| `Schedules.MalwareSweep.RunDue` | internal/malware/service.go:277-305 | at most one scan is started, one that is due, and none only if no due schedule could start; only its schedule is stamped |
| `Schedules.EveryDueScanStarts` | internal/malware/service.go:277-305 | with starts that fail differently from sweep to sweep, a due scan whose own starts succeed is started within n sweeps of one day when at most n schedules contend that day, in any listing order |
| `Schedules.StartedExactly` | internal/malware/service.go:277-305 | with a fixed set of startable schedules, a due scan is started that day in every listing order if and only if some sweep, the k-th of the day, comes when at most k of them are due |
| `Schedules.LaterHourTakesASweep` | internal/malware/service.go:277-305 | counting only what is due at the first sweep is not enough: a concrete run in which a later schedule takes the turn |
| `Jobs.Service.TryAcquire` | internal/malware/service.go:115-130 | the locked section of Start: refused exactly when the owner is marked or, where the rows are asked, one says running; otherwise the owner is marked |
| `Jobs.Service.CreateBackup` | internal/backups/service.go:149-159 | the row is stored as running and handed to a worker; or not stored, or stored and not read back, and the starter is about to release |
| `Jobs.Service.FinishBackup` | internal/db/backups.go:126-136 | the row, if it still exists, becomes ready when the archive was made and failed when not, with its owner; or is lost when that cannot be written |
| `Jobs.Service.ReleaseOwner` | internal/backups/service.go:162-166 | the owner's mark is removed and nothing else |
| `Jobs.Service.DeleteBackup` | internal/backups/service.go:312-323 | a running row is refused, any other is removed |
| `Jobs.Service.MarkStaleBackupsFailed` | internal/db/backups.go:177-186 | a restart forgets the marks and threads and fails every row left running |
| `Jobs.NextKeepsGuarded` | internal/backups/service.go:120-206 | every step of every thread keeps: an owner is marked exactly while one thread holds it |
| `Jobs.NextKeepsTended` | internal/backups/service.go:120-206 | every step keeps: a row that says running has a thread that will close it, or is lost |
| `Jobs.NextKeepsRowsKept` | internal/backups/service.go:120-206 | every step keeps: a row that a thread will close is not lost and still says running if it is there |
| `Jobs.NextKeepsTendersApart` | internal/backups/service.go:120-206 | every step keeps: no two threads close one row |
| `Jobs.AlwaysConsistent` | internal/backups/service.go:120-206 | all this holds in every state of every interleaving of starts, workers, uploads, deletes, failing writes and restarts |
| `Jobs.OneJobPerOwner` | internal/backups/service.go:120-206 | in every interleaving at most one archive or scan per owner is in flight, the owner is marked exactly while one holder exists, and when all threads have ended the map is empty and only lost rows say running |
| `Jobs.NothingLost` | internal/db/backups.go:81-137 | rows are lost only by a row that cannot be read back, an outcome that cannot be written or a restart that leaves rows running |
| `Jobs.BusyExactlyWhenHeld` | internal/malware/service.go:115-130 | Start is refused if and only if some starter or worker holds the owner or, where the rows are asked, one says running |
| `Jobs.ClosedRowsStayClosed` | internal/backups/service.go:312-323 | a row that is closed or gone says running in no later state of any run, so the status Delete read earlier is safe to act on |
| `Jobs.OutcomeIsTheWorkers` | internal/backups/service.go:172-203 | an outcome that is written is ready if and only if the archive was made, no other row changes, and a good archive goes on to be copied while a failed one gives its owner back |
| `Jobs.StatusIsEarned` | internal/backups/service.go:120-206 | in every run from an empty service a row says ready only if its own worker succeeded or its upload was recorded, and failed only if its own worker failed or a restart closed it |
| `Jobs.OutcomeStands` | internal/backups/service.go:120-206 | no step changes an outcome once written; only a delete of the row or of its owner takes it away |
| `Jobs.RestartRows` | internal/db/backups.go:177-186 | a closing restart turns running rows into failed ones and leaves the others; a restart that does not close leaves all |
| `Jobs.DeletesTakeTheirOwn` | internal/backups/service.go:312-323 | a delete takes its row and no other; deleting an account takes its rows and no others |
| `Jobs.RowCheckCatchesLostRows` | internal/malware/service.go:120-128 | the running-row query refuses more than the map exactly for owners of lost rows |
| `Jobs.LostRowBlocksForever` | internal/malware/service.go:115-142 | the owner of a lost row is refused in every later state of every run, until a restart closes rows, which for scans none does, or the account is deleted |
| `Jobs.RowsAreLost` | internal/malware/service.go:151-191 | lost rows are reached from an empty service, by a restart during a scan and by a failed scan whose outcome cannot be written; the owner is then held by nobody and refused |
| `Retention.Store.Delete` | internal/backups/service.go:312-323 | refused for a running row or an agent error other than a missing file; otherwise exactly that row goes |
| `Retention.FileGoneExactly` | internal/backups/service.go:312-323 | a file counts as gone exactly when the agent removed it or its error contains the words no such file |
| `Retention.Store.PruneOne` | internal/backups/schedule.go:126-135 | one schedule's archives: those whose file went away are removed, each is counted once |
| `Retention.Store.Prune` | internal/backups/schedule.go:116-138 | the rows left are exactly those that no query named when the pass began, which by PassExactly are the keep newest and never none, or whose file could not be removed, in place, and the counts are exact |
| `Retention.QueryOrder` | internal/db/backups.go:149-172 | the query ranks the owner's ready scheduled rows, each once, by later creation and then by higher id |
| `Retention.PrunableExactly` | internal/db/backups.go:149-172 | a row is prunable if and only if it is a ready scheduled row of the owner with at least one and at least keep newer ones |
| `Retention.OtherOwnersApart` | internal/backups/schedule.go:121-125 | pruning one owner does not change what the next schedule's query returns |
| `Retention.PassExactly` | internal/backups/schedule.go:116-138 | which rows a pass leaves, for any answers of the agent: all that are not ready scheduled rows of a scheduled owner, those with no newer one or with fewer than keep newer ones, and those whose file stayed |
| `Retention.AfterPass` | internal/backups/schedule.go:116-138 | after a pass each owner's list is its keep newest, or the newest alone when keep is below one, followed by exactly the rows whose delete failed, which are what the next pass is offered |
| `Retention.SecondPassIdle` | internal/backups/schedule.go:116-138 | after a pass whose deletes succeed each scheduled owner has its first keep rows, one when keep is below one, or all if there are no more, and a second pass removes nothing |
| `Accounts.Service.Create` | internal/panelusers/service.go:70-161 | the row is added, kept or rolled back according to which of the Linux account steps fail |
| `Accounts.Service.Delete` | internal/panelusers/service.go:185-234 | refused while the account owns anything or is the last active administrator; otherwise the row and its sessions go |
| `Accounts.Service.SetSuspended` | internal/panelusers/service.go:238-259 | suspending the last active administrator is refused; suspending ends the account's sessions, or reports that it could not |
| `Accounts.Service.UpdateProfile` | internal/panelusers/service.go:262-281 | an invalid role and demoting the last active administrator are refused |
| `Accounts.CreateExactly` | internal/panelusers/service.go:70-161 | when a creation succeeds, and the one row it adds: next id, not suspended, without a package |
| `Accounts.DeleteExactly` | internal/panelusers/service.go:185-234 | each refusal and its cause; otherwise the row and its sessions go, its customers lose their reseller and nothing else changes |
| `Accounts.SuspendExactly` | internal/panelusers/service.go:238-259 | each refusal and its cause; otherwise that account's flag is set, or cleared by a restore, nobody else's changes, and only suspending ends sessions |
| `Accounts.RoleExactly` | internal/panelusers/service.go:262-281 | each refusal and its cause; otherwise that account's role is the new one and nothing else changes |
| `Accounts.SignInExactly` | internal/auth/service.go:116-148 | a sign-in is refused for a missing or suspended account and otherwise adds that one session |
| `Accounts.CountPositive` | internal/db/users.go:151-157 | the count is positive if and only if another active administrator exists |
| `Accounts.RollbackRestores` | internal/panelusers/service.go:126-140 | a failed Linux account that is rolled back leaves the rows exactly as they were |
| `Accounts.GuardIsExact` | internal/panelusers/service.go:185-281 | ErrLastAdmin is returned if and only if the write would leave no active administrator |
| `Accounts.StepKeepsAdmin` | internal/panelusers/service.go:70-281 | every call keeps an active administrator |
| `Accounts.StepKeepsSessions` | internal/panelusers/service.go:185-257 | a call leaves someone signed in to a suspended account if and only if it suspended the account and could not remove its sessions |
| `Accounts.NeverLockedOut` | internal/panelusers/service.go:70-281 | over every sequence of create, delete, suspend, restore, re-role and sign-in calls an active administrator remains and no session of a deleted account survives |
| `Accounts.SuspendedAreSignedOut` | internal/panelusers/service.go:185-257 | over every such sequence in which removing sessions does not fail, no session of a suspended account survives |
| `Resellers.HandleUserCreate` | internal/httpapi/user_handlers.go:68-134 | the sequence of checks and writes: role, package, allowance, account, package assignment |
| `Resellers.HandleUserPlanAssign` | internal/httpapi/plan_handlers.go:197-255 | the sequence: target, right to manage, package, delta, allowance, write |
| `Resellers.CreateAccountExactly` | internal/httpapi/user_handlers.go:68-134 | Ok if and only if role, package, count, disk and the creation itself allow it; then there is one new row, the reseller's own customer, with its package |
| `Resellers.AssignExactly` | internal/httpapi/plan_handlers.go:197-255 | Ok if and only if the account is the caller's to manage, the package the caller's to give, a bigger one fits and the write works; then that account has that package, otherwise nothing changed, and the reply is not found exactly when the caller may not know of the account |
| `Resellers.DeleteAccountExactly` | internal/httpapi/user_handlers.go:241-264 | not found for an account the caller may not know of, refused for the caller's own and for one it may not manage, and otherwise exactly the service's deletion |
| `Resellers.AllocationAppend` | internal/db/scope.go:160-181 | a new customer adds one to the count and its package to the sum; nobody else's count |
| `Resellers.AllocationSetPlan` | internal/db/scope.go:160-181 | changing one customer's package changes the sum by exactly the difference and the count not at all |
| `Resellers.CreateCheckIsExact` | internal/panelusers/reseller.go:25-50 | an account is refused if and only if the count or the sum with it would not fit |
| `Resellers.AssignCheckIsExact` | internal/panelusers/reseller.go:54-74 | a package is refused if and only if it is bigger than the old one and the sum with it would not fit |
| `Resellers.HandleBounds` | internal/panelusers/reseller.go:25-74 | one request of a reseller takes no reseller past its limits, nor further past limits already exceeded |
| `Resellers.AllowancesHold` | internal/panelusers/reseller.go:25-74 | over every run of any resellers' create, assign and delete requests, a reseller within its account limit and disk cap stays within them |
| `RateLimit.Limiter.Gc` | internal/httpapi/ratelimit.go:65-75 | removes exactly the expired windows, when a window has passed since the last collection |
| `RateLimit.Limiter.Allow` | internal/httpapi/ratelimit.go:36-53 | the answer, the wait and the new counter |
| `RateLimit.Limiter.Reset` | internal/httpapi/ratelimit.go:57-61 | forgets the key and nothing else |
| `RateLimit.GcIsInvisible` | internal/httpapi/ratelimit.go:36-75 | over every run on a non-decreasing clock the answers are those of a limiter that never collects |
| `RateLimit.CollectionIsExact` | internal/httpapi/ratelimit.go:36-75 | in every run from an empty limiter, after each attempt: no window opened more than two windows ago is kept, nothing expired is kept just after a collection, and every live window is kept as if nothing were ever collected |
| `RateLimit.GuessesPerWindow` | internal/httpapi/ratelimit.go:36-53 | without a reset, any closed interval of one window holds at most 2 * limit - 1 allowed attempts |
| `RateLimit.GuessesInOneWindow` | internal/httpapi/ratelimit.go:36-53 | a window lets at most limit attempts through |
| `RateLimit.BoundIsReached` | internal/httpapi/ratelimit.go:36-53 | for every limit the limiter as it runs lets 2 * limit - 1 attempts of some run through, so the bound is exact |
| `RateLimit.WaitIsExact` | internal/httpapi/ratelimit.go:36-53 | a refused key that stays quiet is allowed if and only if it comes strictly later than the returned wait |
| `RateLimit.FixedWindow` | internal/httpapi/ratelimit.go:36-53 | a window stays where its first attempt put it: however many attempts follow, refused or not, the next is allowed exactly when within the limit or after that first window, and else waits for its end |
| `RateLimit.ResetForgets` | internal/httpapi/ratelimit.go:57-61 | after a reset the next attempt is allowed, and no other key is affected |
| `Sessions.Service.NewSessionAs` | internal/auth/service.go:174-194 | a new row under the hashed cookie that expires sessionTTL after it was made, refused when the id exists |
| `Sessions.Service.ValidateSession` | internal/auth/service.go:198-240 | the verdict and the rows left: expired, idle and orphaned sessions are removed, a suspended user's all are, an old stamp is renewed |
| `Sessions.Service.Logout` | internal/auth/service.go:243-248 | removes the session of the cookie and nothing else |
| `Sessions.VerdictExactly` | internal/auth/service.go:198-240 | accepted if and only if stored, not expired, not idle and of an existing account that is not suspended; a suspended account is told so |
| `Sessions.ValidationLeaves` | internal/auth/service.go:198-240 | what a request leaves stored, case by case, with the stamp renewed exactly when over a minute old |
| `Sessions.NewSessionLasts` | internal/auth/service.go:174-194 | an unused new session is accepted if and only if within sessionTTL and, where there is one, the idle timeout |
| `Sessions.EndingsAreExact` | internal/auth/service.go:198-248 | signing out ends that session; revoking, suspending or deleting ends all of the account's and no others; restoring ends none and clears the flag |
| `Sessions.DatedAlways` | internal/auth/service.go:174-240 | in every run each session expires exactly sessionTTL after it was made, and was not used before it was made |
| `Sessions.StampsTrailAlways` | internal/auth/service.go:198-240 | in every run each stored stamp is at most the last accepted request and at most a minute older |
| `Sessions.IdleTimeoutIsReal` | internal/auth/service.go:198-240 | no request is accepted after more than the idle timeout of real inactivity or after expiry, and no timeout is charged to less than the idle timeout less a minute |
| `Sessions.ActiveIsNeverSignedOut` | internal/auth/service.go:198-240 | whatever else happens, a session whose gaps stay within the idle timeout less a minute is accepted on every request before its expiry |
| `Sessions.SlackIsNeeded` | internal/auth/service.go:229-237 | the minute cannot be dropped: a concrete session away for exactly the idle timeout is refused |
| `TermProto.Stream.ReadFull` | internal/termproto/termproto.go:88-105 | fills the buffer from the front of the stream, or says whether it ended cleanly |
| `TermProto.WriteFrame` | internal/termproto/termproto.go:69-84 | appends exactly the encoded frame, or refuses an oversized payload and writes nothing |
| `TermProto.ReadFrame` | internal/termproto/termproto.go:88-105 | takes exactly one frame off the stream, or returns the error and what is left |
| `TermProto.DecodeEncode` | internal/termproto/termproto.go:69-105 | a written frame reads back as itself with the rest of the stream untouched |
| `TermProto.WireFormat` | internal/termproto/termproto.go:69-84 | a frame on the wire: the type, the length in four bytes with the most significant first, the payload; at most 1048576 bytes of it |
| `TermProto.StreamRoundTrip` | internal/termproto/termproto.go:69-105 | any frames written one after another read back as the same frames, to a clean end |
| `TermProto.PrefixIsAnError` | internal/termproto/termproto.go:88-105 | every proper prefix of a frame is an error, never another frame; the exact error by position |
| `TermProto.CutStream` | internal/termproto/termproto.go:88-105 | a stream cut anywhere yields a prefix of its frames, all of them only if nothing was cut |
| `TermProto.SizeRoundTrip` | internal/termproto/termproto.go:116-121 | Size inverts SizePayload on all 16-bit pairs |
| `TermProto.SizeOnlyFromPayload` | internal/termproto/termproto.go:108-113 | Size accepts exactly the payloads SizePayload builds |
| `TermProto.SizeFormat` | internal/termproto/termproto.go:116-121 | columns and then rows, each in two bytes with the most significant first |
| `Timestamps.SecondOrder` | internal/db/models.go:66-68 | calendar order of year, month, day, hour, minute and second is the order of elapsed seconds, leap years included |
| `Timestamps.YearsCount` | internal/db/models.go:66-68 | the days before a year are those of the Gregorian calendar |
| `Timestamps.KnownDates` | internal/db/models.go:66-68 | day numbers of 1970 and 2024, and which leap days exist |
| `Timestamps.TextOrder` | internal/db/models.go:66-68 | stored texts compare first by the second and then by the trimmed fraction |
| `Timestamps.StoredLayout` | internal/db/models.go:66-68 | the text of a time position by position: year, month, day, hour, minute, second and the fraction without its last zeros |
| `Timestamps.StoredOrder` | internal/db/models.go:66-68 | the text order of two times is right if and only if their seconds differ or the earlier fraction is not a prefix of the later |
| `Timestamps.DifferentSecondsOrder` | internal/db/models.go:66-68 | times in different seconds always compare correctly |
| `Timestamps.StoredOrderFails` | internal/db/models.go:66-68 | a concrete pair within one second that compares wrongly |
| `Timestamps.DeadlineWithinASecond` | internal/db/sessions.go:69-77 | a stored deadline compared in SQL with the present is right to within one second |
| `Timestamps.ParseOfFmt` | internal/db/models.go:66-72 | every stored time reads back as itself |

## Left out

- Agent sockets, HTTP routing, JSON, proxies, package installation and shell steps: input and output without logic of their own.
- Password hashing, one-time codes, passkeys, certificates: foreign libraries.
- SQL: tables are maps or sequences and every call is atomic; except in Jobs, a call that reports an error has written nothing.
- Text is a sequence of characters; invalid UTF-8 and the wording of errors are not modelled.
- CronReading.SpacedLineReads: between fields only spaces and tabs, as a crontab has them; other Unicode white space, which `strings.Fields` also splits at, is covered by `CronImport.ParsedIsSound` alone.
- Cron.Render: rows that share an id keep the order of the list here, while `sort.Slice` leaves it open.
- Firewall: nft syntax, comments on rules, address parsing, and the forward and output chains. Ports outside 0 to 65535 are not rejected, as in the code.
- PhpFpm: the socket directory, the tmpfiles rule and the systemd drop-ins of `Prepare` are one operation that may fail; log directories likewise. Choosing the pools from the sites, and the checks inside `Render`, are the parameter `render`. An empty rendering, which the template never gives, is not told apart from a full one.
- PhpFpm.Host.DriveUnit: an operation that fails leaves its service as it was, though a failed restart may stop it; which of several failures is reported is not modelled.
- Schedules.EveryDueScanStarts: a sufficient count, for starts that may fail at one sweep and succeed at the next; for a fixed set of startable schedules `Schedules.StartedExactly` is exact.
- Schedules.NeverRunFiresEveryDay: ticks on the first day of Go's calendar are set aside, because there a never-run schedule is not due (`Schedules.DueAgree`).
- Schedules: time zones, daylight saving and leap seconds; days have a fixed length. A stamp that cannot be stored is not modelled.
- Jobs: a thread is scheduled fairly or not at all; that every worker ends is not claimed.
- Retention: the file and the row are removed in one step, and nothing else runs during a pass.
- Accounts: the naming and password rules are inputs. Two overlapping calls, whose counts and writes interleave, are not modelled; nor is the seeding of the first administrator.
- Accounts: email, Linux identifiers and file access do not bear on the properties and are not modelled.
- Resellers: a package whose size is zero is unlimited and counts as zero, as in the code. Resizing a package and an administrator's moves between resellers are outside the runs, because the code does not check them. Two overlapping requests of one reseller are not modelled.
- Resellers: filesystem quotas, site and database counts, and audit entries.
- RateLimit: the mutex makes every call one step; times are integers counted from Go's zero time, where `lastGC` starts, and the key is any text.
- Sessions: cookies and digests are any text and any function. Failures of the touch and delete writes are not modelled.
- Timestamps.ParseOfFmt: only texts in UTC are read back, because only such are stored; other offsets are not modelled.
- Timestamps: years beyond four digits.
- Scope tests, role ranks, hostname matching, `maxChildren`, configuration parsing and list views: true but easy.

# HiveGuard in Dafny

A model of the parts of HiveGuard that are hardest to get right, with proofs of what they are for:
the log scanner behind agent queries, hybrid logical clocks, replicated ban records, CIDR blocks and
the ban store, what a node announces and what it accepts from peers, the rate limiter, trust scores,
proof of work, and configuration durations.

Code that changes state in place is modelled by classes and by methods with loops
(`LogScan.ScanFile`, `LogGzip.ScanLines`, `LogSource.RunQuery`, `Hlc.Clock`, `Crdt.Replica`,
`BanStore.InMemoryBanStore`, `RateLimiter.RateLimiter`, `Trust.TrustManager`, `DiffPages.DiffServer`).
Each is proved against a function of the old state, and the theorems are about that function. Clocks,
hash functions, timestamp detection and line matching are parameters: the theorems hold for all of them.

`dafny verify dfyconfig.toml` checks everything.

| file | what it is about |
|---|---|
| `LogLines`, `LogWalk`, `LogScan` | reading a file backwards in chunks, within a budget and a time window |
| `LogGzip`, `LogSource`, `LogQuery` | compressed files, rotated files, and the query over all of them |
| `Hlc`, `HlcNetwork` | one clock; any number of clocks exchanging stamps |
| `Crdt`, `CrdtReplicas` | merging ban records; nodes that create, change and exchange them |
| `Cidr`, `Whitelist`, `Bans`, `BanStore` | blocks of addresses, protected ranges, longest-prefix lookup |
| `Announce`, `Replication`, `DiffPages` | announcing bans in windows, admitting remote bans, paging answers |
| `RateLimiter`, `Trust`, `Hashcash`, `Durations` | the remaining protocol parts |
| `Arith`, `Options` | shared arithmetic, the option type |

## Where code and documentation differ

The model follows the code. For each case below there is a concrete failing input and the exact
condition under which the documented behaviour holds.

- A plain-file line longer than the carry limit is said to be dropped (hiveguard-daemon/src/agent_logs.rs:59).
  The backward scan may hand it over whole, cut, or not at all (`LogScan.OverlongComesWhole`,
  `LogScan.OverlongIsCut`, `LogScan.OverlongIsDropped`); it is dropped exactly if it starts at a chunk border and
  was over the limit there (`LogScan.DroppedIff`, `LogScan.OverrunOutcome`).
- In compressed files such lines are dropped, and those of exactly the limit as well (`LogGzip.LimitIsDropped`,
  `LogGzip.ShortIsAllIff`). But after a skipped head only one bounded read of the line it landed in is discarded, and
  the rest of a longer one is walked as a line (`LogGzip.FragmentIsWalked`, `LogGzip.StartsAtLineIff`).
- Lines of an older file are said not to inherit timestamps from a newer one (hiveguard-daemon/src/agent_logs.rs:1170).
  The walk state is not cleared between the current file and the first rotated one (`LogSource.LeakExample`,
  `LogSource.LeakShowsIff`).
- The early stop is described as 200 consecutive older lines. Lines newer than the window and lines without
  a timestamp do not interrupt the streak, and the first rotated file goes on with that of the current one
  (`LogWalk.StreakNotInterrupted`, `LogWalk.CarriedStreakStops`, `LogWalk.StopsIffOlderStretch`,
  `LogWalk.ConsecutiveStops`).
- `merge` is documented as commutative and idempotent (hiveguard-core/src/crdt.rs:83). It commutes if and only if
  a tie on the last-modified stamp carries the same text, and is idempotent if and only if the tombstone flag
  equals its quorum (`Crdt.MergeNeedNotCommute`, `Crdt.MergeCommutesIff`, `Crdt.ForcedFlagIsLost`,
  `Crdt.MergeIdempotentIff`). Records of a run in which no clock wraps commute (`CrdtReplicas.RunMergesCommute`).
- `tombstone_crdt_ban` (hiveguard-core/src/persistence/state_manager.rs:302-311) sets the flag without a voter, and
  a merge clears it again unless there is a quorum (`Crdt.ForcedFlagIsLost`, `Crdt.ForcedSurvivesIff`,
  `CrdtReplicas.KeptForeverIff`).
- The clock's 32-bit counter wraps in optimised builds, so a tick or receive does not always move forward
  (`Hlc.RemoteCounterCanWrap`, `Hlc.TickAdvances`, `Hlc.UpdateAdvances`, `HlcNetwork.CausalityIff`).
- The five-minute tolerance for clocks that run behind works exactly for records shorter than the limit by five
  minutes (`Announce.OneSecondBehind`, `Announce.TwoMinutesBehind`, `Announce.ToleratedIff`).
- Limits above `i64::MAX / 1000` seconds pass validation (hiveguard-core/src/config.rs:2378) and make the
  duration constructor panic (`Announce.GreatestLimitPanics`, `Announce.AnnouncedIff`).
- A penalty raises a score that is below its floor (`Trust.PenaltyCanRaise`, `Trust.PenaltyLowersIff`).
- A duration's number times its unit can wrap (`Durations.DaysCanWrap`, `Durations.ProductIsExactIff`), and a
  non-ASCII last character makes the parser panic (`Durations.AccentPanics`, `Durations.PanicsIff`).
- The ban store's lookups see only networks without host bits (`BanStore.HostBitHidesBan`,
  `BanStore.LookupIsLongest`). The layer above clears host bits before storing.

## Model

| member | source | states |
|---|---|---|
| `LogLines.SplitJoins` | hiveguard-daemon/src/agent_logs.rs:1339-1382 | splitting on newlines is lossless: the pieces hold no newline and join back to the text |
| `LogLines.SplitUnique` | hiveguard-daemon/src/agent_logs.rs:1339-1382 | no other newline-free pieces join to that text, so the two facts determine the split |
| `LogLines.SpansAreSplit` | hiveguard-daemon/src/agent_logs.rs:1364-1374 | the lines met walking back from newline to newline are the forward split in reverse |
| `LogWalk.RunIsFilter` | hiveguard-daemon/src/agent_logs.rs:1293-1337 | as long as it goes on, the walk has visited exactly the lines whose own or inherited time is in the window, in order |
| `LogWalk.RunReports` | hiveguard-daemon/src/agent_logs.rs:1293-1316 | a walk reports as many more lines as are not blank, and as oldest and newest time the least and greatest of the stamps it met and those it began with |
| `LogWalk.StepStreak` | hiveguard-daemon/src/agent_logs.rs:1317-1334 | what one line does to the streak, and that the walk stops exactly when an older stamped line makes it 200 |
| `LogWalk.StreakCounts` | hiveguard-daemon/src/agent_logs.rs:1317-1334 | the streak is the number of older stamps since the last stamp inside the window, or since before the file if the walk began with one |
| `LogWalk.StopLine` | hiveguard-daemon/src/agent_logs.rs:1317-1334 | a walk that stops does so at a line stamped before the window, having visited the window lines before it |
| `LogWalk.StopPoint` | hiveguard-daemon/src/agent_logs.rs:1317-1334 | where a walk stops, a stretch ends that counts exactly 200 older stamps, those of a carried streak included, and has none inside the window |
| `LogWalk.StopsIffOlderStretch` | hiveguard-daemon/src/agent_logs.rs:1317-1334 | for every log and every state it is entered in, the walk stops if and only if some stretch of lines, going on with the carried streak if it starts with the file, counts 200 older stamps and has none inside the window |
| `LogWalk.CarriedStreakStops` | hiveguard-daemon/src/agent_logs.rs:1135-1172 | a walk entered with a streak of 199 stops at one older line |
| `LogWalk.ConsecutiveStops` | hiveguard-daemon/src/agent_logs.rs:56-58 | 200 older lines in a row always stop the walk, and in a log whose lines are all stamped, none after the window, nothing else does |
| `LogWalk.StreakNotInterrupted` | hiveguard-daemon/src/agent_logs.rs:1317-1334 | a concrete log in which no two older lines follow one another, and on which the scan gives up |
| `LogWalk.OrderedLogsLoseNothing` | hiveguard-daemon/src/agent_logs.rs:1293-1337 | for every log in time order, stopping early loses no window line, unstamped lines included |
| `LogWalk.LostOnlyAfterStretch` | hiveguard-daemon/src/agent_logs.rs:1293-1337 | for any log and any state it is entered in, whatever is lost lies after such a stretch |
| `LogScan.HandleLine` | hiveguard-daemon/src/agent_logs.rs:1293-1337 | the in-place update of outcome, walk state and visits is the step of the walk, bytes and budget flag untouched |
| `LogScan.HandLines` | hiveguard-daemon/src/agent_logs.rs:1364-1370 | the inner loop hands over every line that starts in the buffer, newest first, until told to stop |
| `LogScan.ScanChunk` | hiveguard-daemon/src/agent_logs.rs:1355-1379 | one chunk keeps the stitching invariant: the carry is the part of the next line already read, unless the limit was passed |
| `LogScan.Want` | hiveguard-daemon/src/agent_logs.rs:1350-1356 | reads go chunk by chunk to exactly the point the budget allows, and are zero exactly there |
| `LogScan.ScanFile` | hiveguard-daemon/src/agent_logs.rs:1339-1382 | the scan ends, in every field, as the walk over exactly the texts due within the budget: each line due, cut where the carry was dropped; a scan that was not stopped has read as much as was left of the budget or the whole file, and the budget flag is set exactly if the file is larger |
| `LogScan.WholeIffFits` | hiveguard-daemon/src/agent_logs.rs:1339-1382 | chunk borders never show: the texts handed over are the pieces of the split if and only if no line overran the carry |
| `LogScan.ShortLinesFit` | hiveguard-daemon/src/agent_logs.rs:1375-1379 | lines no longer than the carry limit fit, whatever the chunk size |
| `LogScan.CutNowhereIff` | hiveguard-daemon/src/agent_logs.rs:1362-1379 | a line is handed over whole exactly when its part above the last chunk border is within the carry limit |
| `LogScan.DroppedIff` | hiveguard-daemon/src/agent_logs.rs:1371-1379 | a line is dropped, as documented for overlong ones, exactly when it starts at a chunk border and was over the limit there |
| `LogScan.OverrunOutcome` | hiveguard-daemon/src/agent_logs.rs:1362-1379 | what is handed over of any line: all of it exactly if it fits, nothing exactly if it is dropped, which only lines over the limit are, and otherwise a part |
| `LogScan.OverlongComesWhole` | hiveguard-daemon/src/agent_logs.rs:1365-1374 | a concrete line over the limit that is handed over whole |
| `LogScan.OverlongIsDropped` | hiveguard-daemon/src/agent_logs.rs:1375-1379 | a concrete line over the limit that is dropped |
| `LogScan.OverlongIsCut` | hiveguard-daemon/src/agent_logs.rs:1375-1379 | a concrete overlong line of which the first half is handed over as a line |
| `LogScan.HandedFurther` | hiveguard-daemon/src/agent_logs.rs:1349-1379 | the texts handed over within a budget are the first of those of the whole file |
| `LogGzip.HandleForward` | hiveguard-daemon/src/agent_logs.rs:1245-1280 | one line of the forward loop is the forward step |
| `LogGzip.SkipRest` | hiveguard-daemon/src/agent_logs.rs:1233-1243 | reading on in bounded reads ends right after the overlong line |
| `LogGzip.ShortIsAllIff` | hiveguard-daemon/src/agent_logs.rs:1232-1244 | dropping overlong lines drops nothing exactly when every line is short |
| `LogGzip.ForwardNext` | hiveguard-daemon/src/agent_logs.rs:1222-1244 | one bounded read yields the next line that counts, or the head of one to drop |
| `LogGzip.HandleRead` | hiveguard-daemon/src/agent_logs.rs:1222-1281 | one round of the loop moves to the next line, with bytes counted and the walk advanced by at most that line |
| `LogGzip.ScanLines` | hiveguard-daemon/src/agent_logs.rs:1217-1281 | the loop walks the lines in order up to an exact position: the end, the line at which the streak stopped it, or the point where one more read would exceed the budget; the budget flag says which |
| `LogGzip.ForwardIsFilter` | hiveguard-daemon/src/agent_logs.rs:1245-1280 | while it goes on, the forward scan has visited exactly the window lines |
| `LogGzip.ForwardReports` | hiveguard-daemon/src/agent_logs.rs:1245-1260 | likewise the forward scan: the count of lines and the oldest and newest time |
| `LogGzip.ForwardStop` | hiveguard-daemon/src/agent_logs.rs:1270-1278 | the forward scan gives up only at a line stamped after the window |
| `LogGzip.GivesUpIff` | hiveguard-daemon/src/agent_logs.rs:1270-1278 | for every file the forward scan gives up if and only if some stretch of lines counts 200 stamps after the window and none in it |
| `LogGzip.SawOlderMeans` | hiveguard-daemon/src/agent_logs.rs:1261-1269 | an older line was seen only if some line is stamped before the window, and, as long as the scan goes on, exactly if one of those walked is |
| `LogGzip.TailLines` | hiveguard-daemon/src/agent_logs.rs:1206-1214 | a scan that starts after a skipped head goes through the last lines of the file if what is left of the line it landed in ends within one read |
| `LogGzip.StartsAtLineIff` | hiveguard-daemon/src/agent_logs.rs:1206-1212 | it begins at a line exactly under that condition |
| `LogGzip.FragmentIsWalked` | hiveguard-daemon/src/agent_logs.rs:1206-1212 | a concrete overlong line of which the rest is walked as a line |
| `LogGzip.LimitIsDropped` | hiveguard-daemon/src/agent_logs.rs:1232-1244 | a concrete line of exactly the limit that is dropped |
| `LogGzip.OrderedFilesLoseNothing` | hiveguard-daemon/src/agent_logs.rs:1270-1278 | for every file in time order, giving up after 200 newer lines loses nothing |
| `LogSource.PlainSegment` | hiveguard-daemon/src/agent_logs.rs:1339-1382 | what a plain scan visited is fixed by where the budget let it begin and by the time it inherited: for files in time order all window lines from there on, and all of the file if the budget did not end; it reaches the window start exactly if a stretch of 200 older stamps, the streak it was entered with included, says so |
| `LogSource.GzipSegment` | hiveguard-daemon/src/agent_logs.rs:1216-1282 | what a forward scan visited is the window lines up to where it stopped or the budget ended; all from where it began, for files in time order that were read to the end, and then an older line was seen exactly if there is one |
| `LogSource.ForwardSegment` | hiveguard-daemon/src/agent_logs.rs:1206-1282 | a compressed file appears between its two marks, with all window lines of the tail unless the budget ended in the loop, which an exact trailer rules out |
| `LogSource.SkipsAsLittle` | hiveguard-daemon/src/agent_logs.rs:1200-1212 | a file with an exact trailer is read from its start if it fits what is left of the budget, and otherwise from the first line that begins where no more than that follows, or from within an overlong one |
| `LogSource.TailIsWhole` | hiveguard-daemon/src/agent_logs.rs:1206-1288 | in a regular file in time order, a tail in which an older line was seen has all the window lines of the file |
| `LogSource.ScanGz` | hiveguard-daemon/src/agent_logs.rs:1189-1290 | a file is read exactly if something is left of the budget and its trailer is at most 17 times that; then one segment, the one that begins at the skip point, the whole tail if the trailer is exact; the budget ended if it was not read, or is said to be larger than what was left and no older line was met, and otherwise only if the trailer was wrong |
| `LogSource.ScanPlain` | hiveguard-daemon/src/agent_logs.rs:1339-1382 | the same for a plain file, which is always opened, together with the time and the streak it leaves behind and the bytes it used |
| `LogSource.ScanSource` | hiveguard-daemon/src/agent_logs.rs:1129-1174 | for any budget: one segment for each of the first files, every file but the last read from its start and found without the window start; a source that fits is never cut; files are left out only if rotation is off, the window start was reached or the budget ended, and the last only if the file before is larger than what was left for it, its trailer was wrong, or the next one finds nothing left or is over 17 times that |
| `LogSource.WhyEnded` | hiveguard-daemon/src/agent_logs.rs:1129-1290 | exactly when the budget is reported as the end of a scan, and exactly when the window start is reported as reached, from sizes, trailers and lines alone |
| `LogSource.EarlierWhole` | hiveguard-daemon/src/agent_logs.rs:1145-1172 | for any budget, every file in time order but the last visited was visited whole |
| `LogSource.LastTail` | hiveguard-daemon/src/agent_logs.rs:1129-1174 | for any budget, of the last file visited every window line from where the scan began, if it is plain and in time order or compressed with an exact trailer |
| `LogSource.NothingMore` | hiveguard-daemon/src/agent_logs.rs:1146-1157 | in a source in time order, when the window start was reached the files not visited have no window lines |
| `LogSource.NothingMissed` | hiveguard-daemon/src/agent_logs.rs:1129-1174 | so what a scan that was not cut visited is every window line of every file |
| `LogSource.LeakShowsIff` | hiveguard-daemon/src/agent_logs.rs:1135-1172 | a time inherited from the current file changes what is found in the first rotated one exactly when that file ends in unstamped lines that are not all blank |
| `LogSource.LeakExample` | hiveguard-daemon/src/agent_logs.rs:1135-1172 | a concrete source of two files in which a line of the rotated one is lost because of the time it inherits from the current one |
| `LogSource.RunQuery` | hiveguard-daemon/src/agent_logs.rs:1466-1541 | end to end, for every source and budget: the items are the last `limit` matching lines of what was visited, in logged order, `matched` counts all matches and `truncated` is exact; `scan_capped` and `coverage_complete` hold exactly when `WhyEnded` says, given the bytes reported; in a source in time order a scan that was not capped has found every match in every file; a source that fits the budget is never capped |
| `LogQuery.Query.Accept` | hiveguard-daemon/src/agent_logs.rs:1479-1525 | the visitor's in-place update is one step of the accumulator |
| `LogQuery.TakePlain` | hiveguard-daemon/src/agent_logs.rs:1507-1523 | over a plain segment the accumulator keeps the newest matches found so far, up to the limit |
| `LogQuery.TakeGzip` | hiveguard-daemon/src/agent_logs.rs:1482-1517 | over a compressed segment it keeps the newest of them too, although they arrive oldest first |
| `LogQuery.QueryKeepsLast` | hiveguard-daemon/src/agent_logs.rs:1479-1525 | for every mix of segments and every limit, the result is the last `limit` matches of the whole log and the count of all |
| `LogQuery.Collect` | hiveguard-daemon/src/agent_logs.rs:1474-1525 | feeding visits one by one computes that accumulator, reversed at the end |
| `Hlc.Clock.Now` | hiveguard-core/src/hlc.rs:22-33 | a new clock has the physical time, counter zero and its node's hash |
| `Hlc.Clock.Tick` | hiveguard-core/src/hlc.rs:52-66 | the in-place tick is `Ticked`, and returns the new value |
| `Hlc.Clock.Update` | hiveguard-core/src/hlc.rs:72-99 | the in-place receive is `Updated`, and returns the new value |
| `Hlc.TickAdvances` | hiveguard-core/src/hlc.rs:52-66 | the wall time becomes the maximum, and the stamp moves forward except exactly when the counter wraps |
| `Hlc.UpdateAdvances` | hiveguard-core/src/hlc.rs:72-99 | the wall time becomes the greatest of the three, and the stamp moves forward except exactly when that stands still and the counter wraps, a condition on the inputs |
| `Hlc.UpdateFollowsRemote` | hiveguard-core/src/hlc.rs:72-99 | exactly when a receive comes after the stamp received, clamped or not |
| `Hlc.CounterGrowth` | hiveguard-core/src/hlc.rs:52-99 | counters grow by at most one over those they came from |
| `Hlc.CounterRestarts` | hiveguard-core/src/hlc.rs:52-99 | counters start over when the wall time is new: they count on, by one, only from a stamp with the same wall time, be it the own one or one received and not clamped |
| `Hlc.RemoteCounterCanWrap` | hiveguard-core/src/hlc.rs:85-97 | a concrete remote stamp that sends a clock back |
| `Hlc.SkewBound` | hiveguard-core/src/hlc.rs:68-102 | whatever stamps arrive, in any run, a clock is never more than five minutes ahead of the greatest time it read itself, and never behind it |
| `Hlc.LessIsTotalOrder` | hiveguard-core/src/hlc.rs:121-134 | stamps are totally ordered |
| `HlcNetwork.StampBounds` | hiveguard-core/src/hlc.rs:52-99 | in every run with synchronised physical clocks no stamp is ahead of the readings so far, and no receive is clamped |
| `HlcNetwork.CounterBound` | hiveguard-core/src/hlc.rs:52-99 | in every run no counter exceeds the number of earlier events |
| `HlcNetwork.CounterCountsWall` | hiveguard-core/src/hlc.rs:52-99 | in every run without clamped receives a counter is at most the number of earlier events with the same wall time |
| `HlcNetwork.DirectlyLater` | hiveguard-core/src/hlc.rs:52-99 | an event is later than its predecessor and than what it received exactly when neither the wrap nor the clamp sets it back |
| `HlcNetwork.CausalityIff` | hiveguard-core/src/hlc.rs:52-99 | for every run, of any length, on any nodes and clocks: whatever happens before an event has a smaller stamp if and only if every event moves forward |
| `HlcNetwork.CausalOrder` | hiveguard-core/src/hlc.rs:52-99 | every run of at most 2^32 events with synchronised physical clocks is causal |
| `HlcNetwork.SkewBreaksCausality` | hiveguard-core/src/hlc.rs:72-84 | one clock a millisecond more than the allowed skew behind breaks this |
| `Crdt.Replica.New` | hiveguard-core/src/crdt.rs:50-79 | a new record is stamped by the ticked clock, lasts a day, and has its reporter and no votes |
| `Crdt.Replica.Tombstone` | hiveguard-core/src/crdt.rs:135-139 | a vote is added, the flag becomes the quorum, the clock ticks |
| `Crdt.Replica.ExtendBan` | hiveguard-core/src/crdt.rs:142-145 | the end moves by the given time modulo 2^64, the clock ticks |
| `Crdt.FreshIsActive` | hiveguard-core/src/crdt.rs:50-79 | a new record is active until exactly 86,400,000 milliseconds after its stamp, unless that wraps, and holds what it was created with |
| `Crdt.ExtensionLasts` | hiveguard-core/src/crdt.rs:130-145 | an extended record is active until its old end plus the added time, unless that wraps or it is tombstoned, and changes in nothing else but its stamp |
| `Crdt.InactiveOnceOver` | hiveguard-core/src/crdt.rs:130-132 | a record is inactive from its end on, and before it exactly if it is tombstoned |
| `Crdt.VoteIsCounted` | hiveguard-core/src/crdt.rs:135-139 | after a vote the voters are those before and the one who voted, the flag says whether they are two or more, and nothing else changes but the stamp |
| `Crdt.TwoVotersEndIt` | hiveguard-core/src/crdt.rs:135-139 | two votes on a fresh record end it exactly if they are of different nodes |
| `Crdt.MergeCommutesIff` | hiveguard-core/src/crdt.rs:84-127 | merging commutes on the whole record exactly when a tie carries the same text |
| `Crdt.MergeIdempotentIff` | hiveguard-core/src/crdt.rs:84-127 | merging with itself gives a record back exactly when its flag is its quorum |
| `Crdt.MergeNeedNotCommute` | hiveguard-core/src/crdt.rs:94-106 | two concrete records on which each order of merging keeps a different reason |
| `Crdt.MergeAssociates` | hiveguard-core/src/crdt.rs:84-127 | merging is associative on all records of one subject, ties or not |
| `Crdt.VoteMovesUpIff` | hiveguard-core/src/crdt.rs:135-139 | a vote moves the record up the merge order exactly when its stamp is not earlier than the record's |
| `Crdt.ExtensionMovesUpIff` | hiveguard-core/src/crdt.rs:142-145 | an extension does so exactly when also the flag is the quorum and the end does not wrap |
| `Crdt.VoteCanGoBack` | hiveguard-core/src/crdt.rs:135-139 | a clock behind the record sets its stamp back, and merging brings the old stamp back |
| `Crdt.JoinUnique` | hiveguard-core/src/crdt.rs:84-127 | the join of a compatible set of records, described field by field without merging, is unique up to the tombstone flag |
| `Crdt.JoinMore` | hiveguard-core/src/crdt.rs:84-127 | merging one more record into a join gives the join with it |
| `Crdt.AbsorbIsJoin` | hiveguard-core/src/crdt.rs:84-127 | merging records in turn gives their join |
| `Crdt.AbsorbSomeIff` | hiveguard-core/src/crdt.rs:84-92 | merging records in turn succeeds exactly when all are about one subject |
| `Crdt.AbsorbFlag` | hiveguard-core/src/crdt.rs:108-126 | a record keeps its flag until something is merged into it; from then on it is the quorum of all voters |
| `Crdt.ForcedSurvivesIff` | hiveguard-core/src/persistence/state_manager.rs:302-311 | a flag set without a vote survives later merges exactly when there are none or all voters together are a quorum |
| `Crdt.ForcedFlagIsLost` | hiveguard-core/src/persistence/state_manager.rs:302-311 | a concrete record that is inactive when its flag is forced and active again after one merge, even with itself |
| `Crdt.Convergence` | hiveguard-core/src/crdt.rs:81-127 | the same records in any order and number leave the same record in every field but the flag, and the same flag except exactly when one side holds a single record whose flag is not its quorum |
| `CrdtReplicas.VotesStep` | hiveguard-core/src/crdt.rs:84-145 | no step takes a vote back, and a received record's votes are kept |
| `CrdtReplicas.VotesAreReal` | hiveguard-core/src/crdt.rs:108-139 | in every run, forced flags included, every voter really voted, a quorum shows in the flag, and nothing else does for subjects on which none was forced |
| `CrdtReplicas.VotersExactly` | hiveguard-core/src/crdt.rs:108-139 | in every run the voters of a replica are exactly those who voted on it here and those that came with the records that arrived |
| `CrdtReplicas.VotersVoted` | hiveguard-core/src/crdt.rs:135-139 | every voter on every record there ever was voted on its subject in some earlier step |
| `CrdtReplicas.TwoVotesEndIt` | hiveguard-core/src/crdt.rs:130-139 | two votes by different nodes at a replica keep it inactive at all later steps, whatever happens |
| `CrdtReplicas.VotesOnlyGrow` | hiveguard-core/src/crdt.rs:84-145 | over any stretch of a run, a replica keeps its votes |
| `CrdtReplicas.TombstoneIsForGood` | hiveguard-core/src/crdt.rs:130-139 | once voted, a replica's tombstone keeps it inactive at all later times, whatever merges, votes, extensions and forced flags follow |
| `CrdtReplicas.TombstoneSpreads` | hiveguard-core/src/crdt.rs:84-132 | a replica that received a record with a voted tombstone is inactive ever after |
| `CrdtReplicas.FlagExactly` | hiveguard-core/src/persistence/state_manager.rs:287-311 | in every run a replica's flag is set exactly when it has two voters or more, or the flag was forced and nothing merged or voted since |
| `CrdtReplicas.KeptForeverIff` | hiveguard-core/src/persistence/state_manager.rs:287-311 | a flag stays whatever happens next if and only if the voters are a quorum |
| `CrdtReplicas.StampsAreUnique` | hiveguard-core/src/hlc.rs:52-99 | in every run, however long, in which no clock wraps, each stamp is written under once, and every record carries the text written under its stamp |
| `CrdtReplicas.ShortRunsNeverWrap` | hiveguard-core/src/hlc.rs:52-99 | a run of fewer than 2^32 steps is such a run |
| `CrdtReplicas.WrapBreaksAgreement` | hiveguard-core/src/hlc.rs:58-63 | a concrete run in which the counter wraps and two records share a stamp and differ in their reason |
| `CrdtReplicas.RecordsAgree` | hiveguard-core/src/crdt.rs:95-106 | any two records there ever were with the same last-modified stamp carry the same text |
| `CrdtReplicas.ReplicaIsAbsorbed` | hiveguard-core/src/persistence/state_manager.rs:287-299 | in every run every replica is the merge, in order of arrival, of the records that came in since its last local change, after what that left |
| `CrdtReplicas.ReplicasConverge` | hiveguard-core/src/persistence/state_manager.rs:287-299 | two nodes whose replicas of a subject are made of the same records, however ordered or repeated, hold the same record, except exactly for a forced flag that one of them has not merged |
| `CrdtReplicas.RunMergesCommute` | hiveguard-core/src/crdt.rs:81-127 | merging the records of such a run commutes in every field, and is idempotent where no flag was forced |
| `Cidr.ContainsIsPrefix` | hiveguard-core/src/whitelist.rs:121-125 | membership in a block is agreement on the leading bits |
| `Cidr.NestOrDisjoint` | hiveguard-core/src/whitelist.rs:121-122 | any two blocks nest or are disjoint |
| `Cidr.OverlapIsExact` | hiveguard-core/src/whitelist.rs:121-125 | testing each block's own address against the other finds exactly the blocks that share an address, host bits or not |
| `Cidr.CoverIsExact` | hiveguard-core/src/whitelist.rs:104-109 | one block covers another exactly when it is no longer and holds its address |
| `Cidr.AroundIsTheOne` | hiveguard-core/src/ban_store.rs:117-161 | a canonical block holds an address exactly when it is the block of its length around it |
| `Cidr.WidestAndNarrowest` | hiveguard-core/src/whitelist.rs:121-125 | a block of length zero holds every address of its family, and a host route exactly its own |
| `Whitelist.WhitelistManager.Add` | hiveguard-core/src/whitelist.rs:62-64 | the entry is added and nothing else changes |
| `Whitelist.WhitelistManager.Remove` | hiveguard-core/src/whitelist.rs:66-68 | the entry is gone, and the result says whether it was there |
| `Whitelist.OverlapsIffSharedAddress` | hiveguard-core/src/whitelist.rs:83-99 | the overlap test holds exactly when the subject has a whitelisted address |
| `Whitelist.CoversIffOneEntryContainsAll` | hiveguard-core/src/whitelist.rs:104-109 | the cover test holds exactly when one entry contains every address of the subject |
| `Whitelist.ImmutableStaysProtected` | hiveguard-core/src/whitelist.rs:11-34 | no history of additions and removals unprotects an immutable range |
| `Whitelist.ImmutableIs` | hiveguard-core/src/whitelist.rs:11-34 | with no entry configured, exactly the loopback, private, link-local, documentation, unspecified, multicast and unique-local addresses are whitelisted, said by their leading bits |
| `BanStore.LookupIsLongest` | hiveguard-core/src/ban_store.rs:117-161 | probing one block per length finds the longest stored canonical block that holds the address, or that there is none |
| `BanStore.HostBitHidesBan` | hiveguard-core/src/ban_store.rs:117-161 | a concrete stored network with a host bit set that a lookup of its own address does not find |
| `BanStore.ZeroMeansNone` | hiveguard-core/src/ban_store.rs:117-161 | a length with a zero count can be skipped |
| `BanStore.InMemoryBanStore.constructor` | hiveguard-core/src/ban_store.rs:34-40 | a new store is empty with consistent counts |
| `BanStore.InMemoryBanStore.AddBan` | hiveguard-core/src/ban_store.rs:98-106 | the ban is stored under its subject and the counts stay exact |
| `BanStore.InMemoryBanStore.IncPrefix` | hiveguard-core/src/ban_store.rs:42-47 | the counts become those of the networks with one more |
| `BanStore.InMemoryBanStore.RemoveBan` | hiveguard-core/src/ban_store.rs:108-115 | the ban is gone, the result says whether it was there, the counts stay exact |
| `BanStore.InMemoryBanStore.DecPrefix` | hiveguard-core/src/ban_store.rs:49-60 | the counts become those of the networks with one less |
| `BanStore.InMemoryBanStore.IsBanned` | hiveguard-core/src/ban_store.rs:117-161 | skipping lengths by count finds the same ban as the plain lookup: the longest match |
| `BanStore.InMemoryBanStore.CoveringBans` | hiveguard-core/src/ban_store.rs:67-77 | exactly the stored bans whose block contains the whole subject, widest first |
| `BanStore.InMemoryBanStore.CleanupExpired` | hiveguard-core/src/ban_store.rs:167-181 | a ban is still there, unchanged, exactly if it has no end or one after now; the number of those gone is returned, the counts stay exact |
| `BanStore.CleanupKeepsAnswer` | hiveguard-core/src/ban_store.rs:117-181 | a lookup that found a ban still in force finds the same one after the cleanup |
| `BanStore.CleanupAnswers` | hiveguard-core/src/ban_store.rs:117-181 | after it no lookup finds a ban that is over, and one that finds none had no ban in force to find |
| `BanStore.InMemoryBanStore.RebuildPrefixCounts` | hiveguard-core/src/ban_store.rs:79-88 | counting afresh, in any order, restores consistency |
| `Announce.AnnouncedIff` | hiveguard-daemon/src/cluster.rs:992-1012 | for every limit: exactly which bans are announced, which are withheld, and which make the duration constructor panic; one that has not begun is announced by its first window |
| `Announce.GreatestLimitPanics` | hiveguard-daemon/src/cluster.rs:992-1001 | at the greatest limit that passes validation, an hour's ban panics |
| `Announce.AnnouncedIsWindow` | hiveguard-daemon/src/cluster.rs:992-1012 | a running ban is announced as itself when short and otherwise as the window of the present slice; the overflow check never interferes |
| `Announce.WindowsTile` | hiveguard-daemon/src/cluster.rs:974-1012 | at every instant of a ban exactly one window is in force, the announced one; windows meet end to start and never outlast the ban |
| `Announce.AnnouncementsOverTime` | hiveguard-daemon/src/cluster.rs:974-1012 | announcements are identical within a slice, and a later slice starts later and not before the earlier window ends |
| `Announce.AnnouncedIsAccepted` | hiveguard-daemon/src/cluster.rs:992-1039 | what is announced passes the policy of every peer with the same or a longer limit until the window ends |
| `Announce.AcceptedInstants` | hiveguard-daemon/src/cluster.rs:1015-1039 | for every policy, record and instant, exactly when a peer accepts: the prefix is long enough for its family, the record ends after it began, the limit is one the code can represent, and the instant lies between 300 seconds before the beginning and the end, with neither the lifetime nor the rest of it over the limit by a whole second |
| `Announce.TooWideIsRefused` | hiveguard-daemon/src/cluster.rs:1015-1026 | a ban on every IPv4 address is refused at every instant by a peer that takes nothing wider than a /24 |
| `Announce.ToleratedIff` | hiveguard-daemon/src/cluster.rs:1015-1039 | the five-minute tolerance works, at all its instants, exactly for records shorter than the limit by five minutes |
| `Announce.FullWindowInstants` | hiveguard-daemon/src/cluster.rs:1015-1039 | so a full-length window is accepted from less than a second before it starts |
| `Announce.OneSecondBehind` | hiveguard-daemon/src/cluster.rs:1015-1039 | a clock one second behind refuses such a window although the tolerance is five minutes |
| `Announce.TwoMinutesBehind` | hiveguard-daemon/src/cluster.rs:1015-1039 | at a limit of a day, a clock two minutes behind refuses a ban a minute shorter |
| `Replication.NeverOverwritesLocal` | hiveguard-daemon/src/cluster.rs:1041-1048 | an admitted record replaces only a peer's ban with a smaller key |
| `Replication.AdmittedIsAnswer` | hiveguard-daemon/src/cluster.rs:890-903 | after it is stored, an admitted record is the answer for its own address, and the store stays canonical |
| `Replication.TruncIsCanonical` | hiveguard-core/src/persistence/state_manager.rs:144-154 | clearing host bits gives a canonical block around the same address, and changes no canonical block |
| `Replication.ApplyBans` | hiveguard-daemon/src/cluster.rs:872-916 | the loop leaves the store that applying the message's records in order gives, and tells the enforcer of exactly the admitted subjects in order |
| `Replication.EnforcedIsStored` | hiveguard-daemon/src/cluster.rs:902-914 | every network whose ban is new or replaced reaches the enforcer, and only stored ones do |
| `Replication.LocalBansSurvive` | hiveguard-daemon/src/cluster.rs:872-916 | whatever is delivered, by any peers at any times under any filters, every ban of the node's own detectors and administrator is still there unchanged |
| `Replication.NothingProtectedIsBanned` | hiveguard-core/src/persistence/state_manager.rs:144-154 | and no stored network holds an immutably protected address, or one that was whitelisted all along |
| `Replication.BlastRadius` | hiveguard-daemon/src/cluster.rs:872-1039 | over any deliveries, every network whose ban is new or replaced holds a delivered record that every filter of its time let pass, with host bits cleared and its signer or sender as source; it ends, and is no wider than the limit of its family |
| `Replication.InForceSurvives` | hiveguard-core/src/ban_store.rs:167-181 | a ban that is in force is not cleaned up |
| `Replication.KeyOrder` | hiveguard-daemon/src/cluster.rs:1041-1048 | keys are totally ordered: by creation, then by end, a record without an end first |
| `Replication.TruncKeepsOverlap` | hiveguard-core/src/persistence/state_manager.rs:144-150 | clearing host bits does not change what a network overlaps, so the second test of the whitelist never decides |
| `Replication.GreatestKeyWins` | hiveguard-daemon/src/cluster.rs:872-916 | whoever sends what, whenever, in any order and number, with other deliveries in between: if no other network holds the subject's address, the greatest key wins among what was held and what the filters let pass |
| `Replication.OrderMatters` | hiveguard-daemon/src/cluster.rs:1041-1048 | with a wider network around the address it does matter: a narrow ban is stored if it comes first and not if it comes second |
| `Replication.NextWindowIff` | hiveguard-daemon/src/cluster.rs:974-1048 | a peer that holds one window of a long ban, and nothing else around its address, takes a later announcement exactly when it is of another window |
| `Replication.NextWindowStored` | hiveguard-daemon/src/cluster.rs:974-1048 | and stores it in place of the old one if its filters let it pass, so that the ban stays in force |
| `DiffPages.DiffServer.Serve` | hiveguard-daemon/src/cluster.rs:567-572 | a request gets the page at the peer's offset, which moves on by the page, and no other peer's offset changes |
| `DiffPages.PageStarts` | hiveguard-daemon/src/cluster.rs:567-572 | consecutive pages start every 256 records, around the end |
| `DiffPages.PageHolds` | hiveguard-daemon/src/cluster.rs:570-572 | a page holds the records from its start on, around the end |
| `DiffPages.PageIs` | hiveguard-daemon/src/cluster.rs:570-572 | a page is exactly the record at its start and those after it, around the end: all of them if there are no more than 256, and otherwise 256 |
| `DiffPages.EveryRecordServed` | hiveguard-daemon/src/cluster.rs:559-572 | within one round of requests every candidate is selected, whatever offset was left behind |
| `RateLimiter.RateLimiter.constructor` | hiveguard-core/src/anti_poison.rs:23-30 | a new limiter tracks nothing and has the default cap on keys |
| `RateLimiter.RateLimiter.CheckAndRecord` | hiveguard-core/src/anti_poison.rs:34-64 | the in-place check is `Check`, refusals and evictions included |
| `RateLimiter.RateLimiter.Cleanup` | hiveguard-core/src/anti_poison.rs:92-100 | exactly the entries in the window remain, and no key without one |
| `RateLimiter.RunKeepsInv` | hiveguard-core/src/anti_poison.rs:34-100 | in every run the limiter remembers of each key all that still matters of everything it ever accepted |
| `RateLimiter.NeverMoreThanMaximum` | hiveguard-core/src/anti_poison.rs:34-100 | in every run no window of time, anywhere, holds more accepted entries of a key than the maximum, and the number of keys is capped |
| `RateLimiter.DecisionsAreExact` | hiveguard-core/src/anti_poison.rs:34-64 | in every run a key with room is allowed exactly when its window is not full, and a key with an entry in its window always has room |
| `RateLimiter.RefusedIff` | hiveguard-core/src/anti_poison.rs:34-64 | in every run a check is refused exactly when the accepted entries of its key in the window are the maximum, or as many other keys as may be tracked each have an accepted entry in the window; said by the history of accepted entries alone |
| `RateLimiter.FirstIsAccepted` | hiveguard-core/src/anti_poison.rs:34-64 | a limiter that has seen nothing accepts the first entry of any key and remembers it |
| `RateLimiter.RoomIff` | hiveguard-core/src/anti_poison.rs:34-64 | in every state of a run a key has room exactly when fewer other keys than the cap have an accepted entry in the window |
| `Trust.CalculateScore` | hiveguard-core/src/trust.rs:152-165 | scores lie between zero and one |
| `Trust.ScoreIs` | hiveguard-core/src/trust.rs:152-165 | the score, said without division: the share of confirmed reports, counting one more than there are, plus a tenth from a day and a fifth from a week on, and at most one |
| `Trust.ReportsMoveScore` | hiveguard-core/src/trust.rs:152-165 | when exactly a confirmed report raises a score and a refuted one lowers it; time alone never lowers it |
| `Trust.PenaltyLowersIff` | hiveguard-core/src/trust.rs:141-146 | a penalty lowers exactly the scores above the floor and raises exactly those below |
| `Trust.PenaltyCanRaise` | hiveguard-core/src/trust.rs:141-146 | a concrete score that a penalty doubles |
| `Trust.PenaltiesStayInRange` | hiveguard-core/src/trust.rs:141-146 | any number of penalties keeps a score between the floor and where it was, or lifts it to the floor |
| `Trust.PenaltyCount` | hiveguard-core/src/trust.rs:141-146 | penalties are counted, saturating at 2^32 - 1 |
| `Trust.PenalisedScore` | hiveguard-core/src/trust.rs:141-146 | after any number of penalties the score is that power of nine tenths of it, or the floor of one tenth if that is greater |
| `Trust.RepeatsDoNotAmplify` | hiveguard-core/src/trust.rs:205-233 | a further report no heavier than an earlier one of the same node does not change the suspicion |
| `Trust.SuspicionBound` | hiveguard-core/src/trust.rs:205-233 | suspicion is at most the heaviest weight for each distinct node, however many reports there are |
| `Trust.ReportAdds` | hiveguard-core/src/trust.rs:205-233 | one more report adds exactly the trust in its node times what it is heavier than anything the node reported before; with zero for no reports this determines the suspicion |
| `Trust.WeightedSuspicionScore` | hiveguard-core/src/trust.rs:205-233 | the loops over reports and over the map of weights, in any order, compute the sum of trust times heaviest weight per node |
| `Trust.TrustManager.RecordTruePositive` | hiveguard-core/src/trust.rs:121-126 | a registered node has one more confirmed report and the score of the new counts; nothing else changes |
| `Trust.TrustManager.RecordFalsePositive` | hiveguard-core/src/trust.rs:129-134 | likewise for a refuted one |
| `Trust.TrustManager.PenalizeMinorityReporter` | hiveguard-core/src/trust.rs:141-146 | a registered node is penalised once; nothing else changes |
| `Trust.TrustManager.FindIsolated` | hiveguard-core/src/trust.rs:260-282 | in any order of iteration, exactly the addresses below the threshold with too few reporters |
| `Trust.TrustManager.PenalizeAll` | hiveguard-core/src/trust.rs:284-294 | each reporter of a drained address is penalised and listed once |
| `Trust.TrustManager.DrainIsolatedReports` | hiveguard-core/src/trust.rs:260-297 | in any order, exactly the isolated addresses are gone, judged by the old scores, and each node has one penalty and one mention per such address it reported |
| `Trust.DrainedIff` | hiveguard-core/src/trust.rs:260-282 | an address is drained exactly if its suspicion is below the threshold and fewer different nodes than required have reported it |
| `Trust.SweepInRange` | hiveguard-core/src/trust.rs:260-297 | a sweep keeps every score in range |
| `Hashcash.HasLeadingZeros` | hiveguard-core/src/hashcash.rs:81-92 | the byte and mask test holds exactly when the hash, read as one number, is below the bound of the difficulty |
| `Hashcash.MaskIsBound` | hiveguard-core/src/hashcash.rs:87-90 | the mask tests whether a byte is below a power of two |
| `Hashcash.Mine` | hiveguard-core/src/hashcash.rs:32-48 | the least nonce that meets the difficulty is found, and none exactly when there is none within the attempts |
| `Hashcash.Verify` | hiveguard-core/src/hashcash.rs:53-72 | a stamp is accepted exactly when its difficulty is at least 16 and its hash, read as one number, is below 2 to the power of 256 less the difficulty |
| `Hashcash.LowerIsEasier` | hiveguard-core/src/hashcash.rs:53-72 | a good stamp is good at every lower allowed difficulty |
| `Durations.RoundTrip` | hiveguard-core/src/config.rs:42-116 | for every duration, parsing what is displayed gives it back, and no product wraps |
| `Durations.DisplayUsesLargestUnit` | hiveguard-core/src/config.rs:98-116 | the text counts the largest unit that divides the duration |
| `Durations.NormalForm` | hiveguard-core/src/config.rs:42-116 | texts mean the same exactly when they have the same normal form |
| `Durations.ParseNumberAndUnit` | hiveguard-core/src/config.rs:42-62 | every text that is a number and a unit, with spaces around it, a plus sign and leading zeros, parses to the product modulo 2^64 if the number fits 64 bits and is an error otherwise |
| `Durations.OnlyNumberTexts` | hiveguard-core/src/config.rs:42-62 | nothing else parses to a finite duration |
| `Durations.PermanentIff` | hiveguard-core/src/config.rs:42-47 | a text parses to no end exactly if it is the keyword with white space around it |
| `Durations.EmptyIff` | hiveguard-core/src/config.rs:42-50 | and to the error of an empty text exactly if it is all white space |
| `Durations.Examples` | hiveguard-core/src/config.rs:42-62 | the documented examples, and the white space of a text file |
| `Durations.UnknownSuffixIff` | hiveguard-core/src/config.rs:50-62 | and to that of an unknown unit exactly if, trimmed, it is a number before an ASCII character that is none of the four |
| `Durations.PanicsIff` | hiveguard-core/src/config.rs:43-50 | the parser panics exactly when the last character that is not white space is not an ASCII one |
| `Durations.AccentPanics` | hiveguard-core/src/config.rs:50-50 | a concrete two-character text that panics |
| `Durations.ProductIsExactIff` | hiveguard-core/src/config.rs:54-60 | for every text that parses to a finite duration, the product is exact if and only if it fits 64 bits |
| `Durations.DaysCanWrap` | hiveguard-core/src/config.rs:54-60 | a concrete number of days that parses to less than one |

## Left out

- Files, sockets, QUIC, async tasks, locks and wall clocks: what is read arrives as a value, and every reading of a clock is a parameter.
- I/O errors while scanning logs, and the list of file names in a scan's outcome.
- Timestamp detection, line parsers, filters, regular expressions and JSON: any function from text to an optional time, and any predicate on text.
- Log statistics, buckets, profiles and source discovery: they would add members of the same kind as the query.
- The write-ahead log, snapshots and recovery: of the state layer only clearing host bits, the overlap check and merging are modelled; its accept predicate is arbitrary.
- Gossip, membership, Merkle digests, quorum collection, signatures and key exchange.
- `check_quarantine`, `median`, `would_allow`, `current_count`, node registration, report recording and clearing: one-line members.
- CTI feeds, GeoIP, SIEM output, the web and terminal interfaces, the command line, plugins and the enforcer itself.
- Announce.AnnouncedForm: the panics of the calendar library outside its date range are not modelled.
- Hlc.Clock.Update: the 64-bit overflow of physical time plus five minutes is not modelled.
- HlcNetwork.CausalOrder: at most 2^32 events; `HlcNetwork.CausalityIff` is exact for runs of any length.
- CrdtReplicas.StampsAreUnique: runs in which a clock wraps are not covered (a run of fewer than 2^32 steps has none, and `CrdtReplicas.WrapBreaksAgreement` shows one that fails), and node hashes are taken to be distinct.
- BanStore.InMemoryBanStore.IncPrefix: the 32-bit overflow of a count is not modelled.
- Cidr.AroundIsTheOne: masking an address is rounding down to a multiple of the block size, not a bit operation.
- Trust.CalculateScore: scores are real numbers, without floating-point rounding.
- Hashcash.Mine: the hash is any function from nonces to 32 bytes.
- DiffPages.DiffServer.Serve: throttling, sorting and filtering of the candidates, and the announced form of what is sent, are not part of it.
- Replication.GreatestKeyWins: holds for a subject with no other stored or accepted block around its address; `Replication.OrderMatters` shows why.
- LogSource.RunQuery: completeness is stated for sources in time order; for a compressed file that was skipped into, also only if its lines are all stamped and none is overlong, because lines without a time after the skip point are visited whatever their time. When the scan is capped is exact unless the last compressed file has a wrong trailer, and when coverage is complete unless such a file is also out of time order; there the causes are stated one way.

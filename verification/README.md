# A verified model of the DNS filter's core

This project models the parts of the DNS filter whose correctness is hardest to see from one function, and proves
what they promise as a whole:

- **Statistics** (`Statistics`, `StatisticsStore`, `StatisticsRuns`, `Sums`): a batch of query events is folded into
  per-hour rows; in permanent mode the same deltas also go into a lifetime table. Tables are maps, each public method
  is one all-or-nothing step, the process may end and open the database again between any two, and a ledger of the
  batches written is what the tables are measured against.
- **Source renaming** (`SourceMigration`): the start-up loop that moves blocklist statistics from filter names to
  filter tags.
- **Query log paging** (`QueryLog`, `LogPaging`, `LogChanges`, `LogPager`, `LogPagerRuns`, `LogViewChanges`): the page
  query with its cursor text, the export loop, and the page stack of the log view, over logs that stay and over logs
  that change while they are read.
- **Locks** (`LockProtocol`): the connection mutex and the read gate over any number of threads.
- **Client policy** (`Text`, `Addresses`, `Networks`, `Schedules`, `ScheduleTimes`, `PolicyRules`, `LineEdits`,
  `ParsedLines`, `PolicyUpserts`, `PolicyGroups`, `GroupUpserts`): address and network text, weekly schedules, policy
  resolution, and the edits of the line-oriented configuration text.
- **DNS wire format** (`DnsNames`, `DnsResponses`): host names, queries, and the parser of bootstrap responses, against
  messages laid out as in RFC 1035.
- **Configuration form** (`ConfigDraft`, `RuleMerge`): edits, loads, saves, filter updates, actions and rules from the
  log that interleave, and the merge of such a rule into the texts being edited.

Code that changes state step by step is a class or a method with loops, proved equal to a function of the old state;
what the program promises is then proved about that function, over whole runs. The database, the log view and the form
each have a `Session` method that takes the object through a run and states what its fields hold in the end.
The small definitions all this rests on are tied to literals by lemmas of their own: digits and letter case
(`HexTable`, `LowerTable`), day names (`DayTable`), where a message's fields stand (`HeaderLayout`, `RecordLayout`), which
integers fit (`FitsExactly`), how many pages there are (`TotalPagesLeast`). `dafny verify dfyconfig.toml` checks
everything.

Six things in the code are not as its surroundings suggest, and are stated as they are:

- Switching to permanent statistics leaves the five byte counters at 0, so `log_stats(0)` agrees with the window before
  the switch exactly when no bytes were counted (`SwitchAgreesIffNoBytes`). It rebuilds the lifetime table exactly when
  the stored setting was loaded before (`SwitchRebuildsIffLoaded`), which the program does on opening the database,
  unless reading it fails; a run without it goes wrong (`StaleSwitchHappens`).
- The form and the server read weekdays alike exactly when no item has a second hyphen (`WeekdaysAgree`,
  `SecondHyphen`). A rule whose days hold `@` or `=>` can pass the check of the exported edit, but the line printed for
  it reads as no rule (`MarkInDaysReadsAsNothing`, `HandTypedDays`); the dialog passes ticked days only, which are safe
  (`TickedDaysSafe`).
- The IPv6 parser also takes an IPv4 form before `::` (`ParserVersusRfc`, `DottedHead`).
- The rule shown for a client is the one that decides exactly when no later rule writes the same network
  (`FindEffectiveClientPolicyRule`).
- In the log view Next is safe, whatever the log, exactly when the view can tell (`NextSafeExactly`, over sessions
  `CarefulExactly`): in a cursor sort when the page counted is the one last loaded or nothing follows, by offset when a
  page of the query was loaded or Next does nothing. Failed loads break both: after a failed Next the page counted is
  another than the one loaded (`FailedNextHappens`, `NextAfterFailureMiscounts`), and a changed query keeps the total of
  the query before, so that after a failed first load Next shows an empty second page (`StaleTotalHappens`,
  `StaleTotalShowsNothing`).
- The export stops once it holds as many rows as match at that moment. When rows already exported are deleted meanwhile,
  it can end early without rows that matched throughout, and report nothing left out (`PruneMakesExportSilent`); it does
  so exactly when it stops with a cursor in hand and a full count (`SilentExactly`), and only after a deletion
  (`SilentNeedsDeletion`).

## Model

| member | source | states |
|---|---|---|
| Statistics.AggregateHourlyStats | src-tauri/src/database.rs:1603-1706 | the loop over a batch computes the aggregate of its rows |
| Statistics.AddEvent | src-tauri/src/database.rs:1610-1704 | one event adds to exactly the rows of its total, domain, client, upstream and blocklist dimensions |
| Statistics.AggregateIsClampedSum | src-tauri/src/database.rs:1603-1741 | every counter is the plain sum over the events, cut off once at 2^64 - 1; a row exists exactly when some event touches it |
| Statistics.AggregateIsTally | src-tauri/src/database.rs:1603-1706 | a row exists exactly when an event counts in it, by the table of which event counts in which total, domain, client, upstream or blocklist row; each of the twelve counters is the sum of what these events add by that table, at most 2^64 - 1 |
| Statistics.AggregatePermuted | src-tauri/src/database.rs:1603-1706 | batches with the same multiset of events aggregate to the same map, saturation included |
| Statistics.AggregateSplit | src-tauri/src/database.rs:1603-1741 | the map of a batch is the pointwise saturating sum of the maps of its two parts |
| Statistics.BatchConserves | src-tauri/src/database.rs:1603-1741 | without saturation total queries equal the domain sum, total blocked the domain and the blocklist sum, clients and upstreams never exceed their totals, and bytes are domain bytes plus background bytes |
| StatisticsStore.Database.InsertQueryEvents | src-tauri/src/database.rs:595-640 | writes the batch into the hourly table, and in permanent mode into the lifetime table, or nothing at all |
| StatisticsStore.Database.UpsertBatch | src-tauri/src/database.rs:1743-1796 | the upserts add every row of the batch once, whatever order the hash map gives |
| StatisticsStore.Database.PruneExpired | src-tauri/src/database.rs:763-803 | after a prune that commits a row is there exactly when it was and is at most as many hours old as the retention (8760 when permanent), or a total row of at most 720 hours, its counters unchanged; a prune that fails changes nothing |
| StatisticsStore.Database.SaveConfig | src-tauri/src/database.rs:501-527 | a save goes through exactly when it commits with at most 8760 hours; it then stores and caches the retention and rebuilds on a switch from finite to permanent; otherwise tables, stored and cached retention stay |
| StatisticsStore.Database.RebuildLifetimeStatistics | src-tauri/src/database.rs:2383-2413 | the grouping query over a window: sums of seven counters, first and last hour of every group |
| StatisticsStore.Database.ClearStatistics | src-tauri/src/database.rs:850-871 | afterwards no totals query of any window shows a query, a byte or a span, and the settings are kept; a clear that fails changes nothing |
| StatisticsStore.Database.LogStats | src-tauri/src/database.rs:876-893 | shows the lifetime row for 0 hours and the window's sums otherwise |
| StatisticsStore.CommitOneMore | src-tauri/src/database.rs:1743-1768 | upserting one more row of a batch is committing the batch with that row |
| StatisticsStore.RebuiltOneMore | src-tauri/src/database.rs:2383-2413 | grouping one more row changes just its group: sums grow, the span widens |
| StatisticsRuns.LifetimeIsLedger | src-tauri/src/database.rs:595-640 | in every run that ends with a permanent setting, restarts included, each lifetime counter is the plain sum of what the events of all batches written since the last clear or switch add, on top of that switch's sums; only a switch needs the setting loaded |
| StatisticsRuns.SpanIsLedger | src-tauri/src/database.rs:108-144 | in every such run a lifetime row exists exactly when an hour of that switch or a batch since names it, and was first and last seen at the earliest and latest of these times |
| StatisticsRuns.Session | src-tauri/src/database.rs:438-640 | the database object, used, closed and opened again in any order, holds that ledger and these spans in the end |
| StatisticsRuns.RestartIsInvisible | src-tauri/src/database.rs:438-499 | in a program that loads the configuration right after opening, nothing that follows a restart can tell that it happened |
| StatisticsRuns.LoadsAtOnceLoadsFirst | src-tauri/src/privileged_bridge/rpc_server.rs:128-140 | a program that loads the configuration right after opening loads it before every switch |
| StatisticsRuns.SwitchRebuildsIffLoaded | src-tauri/src/database.rs:508-515 | whatever the tables hold, a switch leaves the window's sums in the lifetime table, exactly when the cached retention is the stored one |
| StatisticsRuns.StaleSwitchHappens | src-tauri/src/database.rs:508-515 | a run that ends so: one query, a finite setting, a prune, a restart, and permanent again before the setting is loaded |
| StatisticsRuns.LifetimeTotals | src-tauri/src/database.rs:1486-1502 | after such a run `log_stats(0)` returns these sums and the first and last of these times, and fails exactly when one of the nine sums has reached 2^63 |
| StatisticsRuns.WindowTotals | src-tauri/src/database.rs:876-893 | for a window that begins after hour 0 `log_stats` returns the sums and the span of the total rows of its hours, and fails exactly when one of the nine sums has reached 2^63 |
| StatisticsRuns.RecordedCountsQueries | src-tauri/src/database.rs:1610-1640 | the recorded query total is the number of client queries recorded |
| StatisticsRuns.HourlyIsLedger | src-tauri/src/database.rs:595-640 | an hourly row that every prune of the run finds recent enough holds the plain sum of the events written since the last clear |
| StatisticsRuns.SwitchCopiesWindow | src-tauri/src/database.rs:2383-2413 | the switch makes each non-byte lifetime counter its window's sum, and each byte counter 0 |
| StatisticsRuns.SwitchKeepsTotals | src-tauri/src/database.rs:501-527 | the totals shown after the switch are those before it, without the bytes |
| StatisticsRuns.SwitchAgreesIffNoBytes | src-tauri/src/database.rs:2394-2406 | they agree in full exactly when no bytes were counted in the window |
| StatisticsRuns.PruneIsInvisible | src-tauri/src/database.rs:741-803 | whatever runs afterwards, no window the settings allow can tell whether a prune ran |
| SourceMigration.Connection.MigrateBlocklistSourceToId | src-tauri/src/database.rs:2205-2292 | the loop renames hourly rows, lifetime rows and log rows filter by filter, once |
| SourceMigration.MigrationConserves | src-tauri/src/database.rs:2220-2283 | for any filter list every hour's blocklist sum and the lifetime sum are kept, and a row holds exactly what was recorded under the sources that resolve to it |
| SourceMigration.OthersUntouched | src-tauri/src/database.rs:2220-2283 | other dimensions, and sources that are neither a filter name nor a tag, are left alone |
| SourceMigration.NoOldNamesLeft | src-tauri/src/database.rs:2220-2283 | when no name is a later filter's tag, no row is left under an old name |
| SourceMigration.CleansExactly | src-tauri/src/database.rs:2220-2283 | for any filter list, with repeated names or without, whatever the tables hold: no row is left under an old name exactly when no filter's name ends up at one, in the hourly and in the lifetime table |
| SourceMigration.DistinctNamesExactly | src-tauri/src/database.rs:2220-2283 | with distinct names that is exactly when no name is a later filter's tag |
| SourceMigration.ResolvesToOwnTag | src-tauri/src/database.rs:2220-2283 | a filter's name resolves to `f:` and its id when no earlier filter has that name and no later filter carries that tag as its name |
| SourceMigration.SpanIsMinMax | src-tauri/src/database.rs:2251-2277 | first and last seen of a merged row are the minimum and maximum of the rows merged |
| SourceMigration.LogsResolve | src-tauri/src/database.rs:2278-2282 | log rows follow the same renaming |
| SourceMigration.BytesStay | src-tauri/src/database.rs:2226-2270 | a source that is no old name keeps the bytes it had and gets none from the names renamed to it |
| QueryLog.RankedInOrder | src-tauri/src/database.rs:967-983 | the ranking lists the rows strictly in sort order |
| QueryLog.RankedAsAsked | src-tauri/src/database.rs:967-983 | written on the columns: "slowest" lists rows with a duration first, longest first, then by timestamp and id falling; "oldest" lists timestamps, then ids, rising, and every other name falling; a list of the rows is the ranking exactly when it is so listed |
| QueryLog.RankedUnique | src-tauri/src/database.rs:967-983 | there is only one such list, as ids break ties |
| QueryLog.CursorRoundTrip | src-tauri/src/database.rs:1863-1899 | a cursor's text reads back as the position it was made from |
| QueryLog.ForeignCursorRejected | src-tauri/src/database.rs:1863-1895 | a cursor of one sort is an error under any other |
| QueryLog.QueryLogsAdvanced | src-tauri/src/database.rs:920-1170 | the page query answers with the page of the ranking behind the cursor or at the offset: at most 20 to 200 matching rows of the table, listed as the sort asks |
| QueryLog.FetchRows | src-tauri/src/database.rs:1136-1163 | reading one row more than the page tells whether there are more, and the extra one is dropped |
| QueryLog.CursorPage | src-tauri/src/database.rs:1068-1163 | a cursor answer is the cut of the ranking behind the position, and its next cursor reads back as the cut's end |
| LogPaging.CursorsEnumerate | src-tauri/src/database.rs:1068-1163 | following `next_cursor` with arbitrary inserts and deletes between pages gives rows strictly in order, and in the end every row that matched throughout |
| LogPaging.CursorAbsentIffDone | src-tauri/src/database.rs:1136-1163 | the next cursor is absent exactly when nothing further matched |
| LogPaging.AnswerAt | src-tauri/src/database.rs:1068-1163 | asked with the cursor of the k-th row the query returns the rows after it |
| LogPaging.OffsetAnswer | src-tauri/src/database.rs:1027-1075 | in offset mode a page is the slice of its number |
| LogPaging.ServedTurn | src/query-log-export.ts:70-90 | over a loader that serves a list, one turn of the export loop keeps the rows up to the end of its page and takes the page for the last exactly when it is |
| LogPaging.CollectQueryLogExportRecords | src/query-log-export.ts:64-93 | over any loader that serves a list, the loop collects its first 50000 rows and reports truncation exactly when rows were left out |
| LogPaging.QueryServesPage | src-tauri/src/database.rs:1027-1163 | the page query is such a loader, by cursor for "newest" and "oldest" and by offset for "slowest" |
| LogPaging.ExportTable | src/query-log-export.ts:64-93 | on an unchanging table the export is the first min(total, 50000) matching rows in order |
| LogChanges.ExportInOrder | src/query-log-export.ts:64-93 | whatever is inserted or deleted between its pages, an export by cursor holds its rows strictly in order, none twice, each as it matched when a page was read |
| LogChanges.ExportComplete | src/query-log-export.ts:76-86 | once a page hands out no cursor, the export holds every row that matched throughout |
| LogChanges.SilentExactly | src/query-log-export.ts:80-92 | it leaves rows of its last page's log behind without reporting it exactly when it stops with a cursor in hand and at least as many rows as match then |
| LogChanges.SilentNeedsDeletion | src/query-log-export.ts:80-84 | then some exported row has been deleted meanwhile |
| LogChanges.PruneMakesExportSilent | src/query-log-export.ts:80-84 | of 401 to 600 rows, the first 200 deleted after the first page: 400 rows are exported, none reported left out |
| LogChanges.LastRowsMatchThroughout | src/query-log-export.ts:80-84 | the rows behind the 400th match throughout and are not exported |
| LogPagerRuns.NextLeadsExactly | src/main.ts:1374-1383 | on a given log, Next leads to a page that exists, with every cursor at its page, exactly when it fits or, by offset, that page exists all the same |
| LogPagerRuns.NextSafeExactly | src/main.ts:1374-1396 | on every log the view may stand for, Next leads exactly when it fits: in a cursor sort nothing follows or the page counted is the one last loaded, by offset a page of the query was loaded or the stale total ends at the current page |
| LogPagerRuns.OrderlyExactly | src/main.ts:1365-1396 | over whole sessions on a log, with any clicks, refreshes, query changes and failures: every page exists and every cursor stays at its page exactly when each Next led |
| LogPagerRuns.CarefulExactly | src/main.ts:1365-1396 | a session is safe whatever the log exactly when Next was pressed only when it fits |
| LogPagerRuns.PagesShowTheirRows | src/main.ts:4195-4252 | after every such session over an unchanging log the view shows exactly the rows of the page last loaded, with the total and the next cursor that belong to it |
| LogPagerRuns.PreviousTurns | src/main.ts:1365-1373 | Previous and its answer show the fifty rows of the page before |
| LogPagerRuns.NextTurns | src/main.ts:1374-1396 | Next and its answer, on a page shown that is not the last, show the fifty rows after it |
| LogPagerRuns.NothingForgotten | src/main.ts:4195-4252 | as long as no load fails, the page shown is the current one or the current one is requested or queued |
| LogPagerRuns.Session | src/main.ts:1365-1383 | the view's handlers, taken through such a session, end with these rows, this total and these cursors in its variables |
| LogPagerRuns.StaleIsRetried | src/main.ts:4224-4232 | a stale answer changes nothing shown and the current request goes out |
| LogPagerRuns.NextAfterFailureMiscounts | src/main.ts:4233-4242 | pressed when another page than the counted one was loaded last, Next counts one page and shows the rows of another |
| LogPagerRuns.FailedNextHappens | src/main.ts:4233-4242 | on every log with a second page, a load, Next and a failure end in such a view |
| LogPagerRuns.StaleTotalHappens | src/main.ts:4125-4129 | a changed query keeps the total of the one before: when its first load fails, Next by offset goes to a page that does not exist |
| LogPagerRuns.StaleTotalShowsNothing | src-tauri/src/database.rs:1027-1075 | there the page query answers with no rows |
| LogPagerRuns.StoreServes | src-tauri/src/database.rs:920-1170 | the page query meets what the page stack needs of a server |
| LogPagerRuns.StoreCursorsDistinct | src-tauri/src/database.rs:1897-1899 | its cursors differ from page to page |
| LogViewChanges.NextGoesOn | src/main.ts:1374-1383 | in the cursor sorts, whatever is inserted or deleted and whatever failed in between, every row the page behind Next shows comes strictly after every row shown when it was pressed |
| LockProtocol.OperationsDisciplined | src-tauri/src/database.rs:1173-1190 | every operation takes the mutex first, the write gate under it, the read gate alone, and no lock twice, also when its exclusive work breaks off at any point |
| LockProtocol.RunKeepsInv | src-tauri/src/database.rs:214-231 | in every run the locks exclude one another and fit the threads' positions |
| LockProtocol.NeverDeadlocked | src-tauri/src/database.rs:1173-1190 | while an operation is unfinished some thread can go on, also when waiting writers keep new readers out |
| LockProtocol.ExclusiveWorkIsAlone | src-tauri/src/database.rs:1256-1311 | during VACUUM or a truncating checkpoint no read connection is open and no other thread holds a lock |
| LockProtocol.SchedulesEnd | src-tauri/src/database.rs:1173-1311 | once no operation starts, every schedule is as long as the actions it takes and no longer than those left |
| LockProtocol.StuckMeansDone | src-tauri/src/database.rs:1173-1311 | a schedule that cannot be extended has finished every operation and released every lock |
| Addresses.Ipv4Exact | src/client-policy-form.ts:405-414 | the parser accepts exactly the dotted forms without leading zeros, each as its number |
| Addresses.ParseIpv6Side | src/client-policy-form.ts:438-459 | the loop over the tokens of one side gives its groups, or nothing |
| Addresses.FormsParse | src/client-policy-form.ts:416-436 | every form of section 2.2 of RFC 4291 (full, `::` anywhere, dotted tail) parses to the number it denotes |
| Addresses.WrittenOut | src/client-policy-form.ts:416-459 | eight 16-bit groups in four hexadecimal digits each parse to the number they spell |
| Addresses.HexReadsBack | src/client-policy-form.ts:453-457 | the four hexadecimal digits of a 16-bit number are read as it |
| Addresses.AcceptedIsForm | src/client-policy-form.ts:416-459 | every accepted text is a form of the grammar |
| Addresses.AcceptedIsEightWords | src/client-policy-form.ts:427-435 | every accepted text gives eight 16-bit groups and a value below 2^128 |
| Addresses.ParserVersusRfc | src/client-policy-form.ts:438-452 | an accepted text is an RFC 4291 form exactly when no dot stands before its `::` |
| Addresses.DottedHead | src/client-policy-form.ts:444-452 | `1.2.3.4::` is accepted and is no RFC form |
| Networks.ParsedNetworkValid | src/client-policy-form.ts:380-403 | a parsed network's address fits its family and its prefix the width of the address |
| Networks.NetworkExact | src/client-policy-form.ts:380-394 | a text parses to an address and a prefix exactly when it is that address and the prefix its full width, or that address, a slash and one to three digits of that value within the width |
| Networks.BareNetwork | src/client-policy-form.ts:389 | a network without a slash holds the one address it spells and no other |
| Networks.PrefixedNetwork | src/client-policy-form.ts:385-393 | an address, a slash and a prefix in decimal within the width parse to that prefix |
| Networks.NetworkTextChars | src/client-policy-form.ts:380-459 | network text holds hexadecimal digits, dots, colons and a slash only |
| Networks.ContainsIsBlock | src/client-policy-form.ts:461-467 | comparing shifted values is membership in one aligned block of 2^(bits - prefix) addresses |
| Networks.ContainsSharesBlock | src/client-policy-form.ts:461-467 | a network holds an address exactly when both are of one family and lie in one aligned block of two to the power of the bits the prefix leaves |
| Networks.LongerPrefixIsWithin | src/client-policy-form.ts:461-467 | of two networks that hold an address the one with the longer prefix lies inside the other |
| Networks.NestedOrDisjoint | src/client-policy-form.ts:461-467 | two networks of one family are nested or disjoint |
| Schedules.MarkRange | src/client-policy-form.ts:332-339 | the weekday loop ends and marks exactly the circular range |
| Schedules.RangeDays | src/client-policy-form.ts:332-339 | the days of a range run from the first to the last, on past Sunday when the first comes later |
| Schedules.NamedRange | src/client-policy-form.ts:326-331 | two names with a hyphen are that range, for the form and for the server |
| Schedules.ParseWeekdays | src/client-policy-form.ts:320-345 | the parser of the form and, with the other dialect, of the server computes the days of the notation |
| Schedules.SelectedIsUnion | src/client-policy-form.ts:325-340 | a day is selected exactly when some item's circular range holds it |
| Schedules.SomeDaySelected | src/client-policy-form.ts:341-343 | the check for no day at all never fails |
| Schedules.WeekdaysAgree | src-tauri/src/config.rs:1315-1350 | weekdays the form accepts mean the same to the server exactly when no item has a second hyphen, and are an error otherwise |
| Schedules.SecondHyphen | src/client-policy-form.ts:326 | such days exist |
| Schedules.SelectedDaysReadBack | src/client-policy-form.ts:187-196 | the notation printed for ticked days selects exactly those days, on both sides |
| ScheduleTimes.TimesAgree | src-tauri/src/config.rs:1352-1367 | a time the form accepts is the same minute to the server |
| ScheduleTimes.TimeExact | src/client-policy-form.ts:347-355 | the form reads exactly the texts from 00:00 to 23:59, each as its minute of the day |
| ScheduleTimes.ActiveExactly | src/client-policy-form.ts:295-313 | active exactly at the minutes of the times begun on selected days, across midnight and the week's end |
| ScheduleTimes.ScheduleActive | src/client-policy-form.ts:295-313 | a schedule is active exactly in the times its text names: begun on one of its days, from its start to its end |
| ScheduleTimes.ScheduleReadsBack | src/client-policy-form.ts:270-286 | a valid schedule without white space in its days reads back from its print |
| ScheduleTimes.ServerReadsSchedule | src-tauri/src/config.rs:1287-1313 | the server reads a printed schedule as the form means it, exactly when no item has a second hyphen |
| ScheduleTimes.TickedScheduleReadsBack | src/client-policy-form.ts:157-159 | with ticked days both sides read the mask and minutes meant |
| PolicyRules.FindClientPolicyRule | src/client-policy-form.ts:120-129 | finds the last rule of a network |
| PolicyRules.RuleLineExactly | src/client-policy-form.ts:241-268 | a line reads as a rule exactly when it starts with no `#` or `!` and is, white space aside, a network, the line's only `=>`, a name of 1 to 32 characters and, behind the only `@`, a schedule |
| PolicyRules.ParsedRules | src/client-policy-form.ts:241-268 | every parsed rule has a parsable network and a valid schedule |
| PolicyRules.BestRule | src/client-policy-form.ts:209-222 | the loop settles on the last rule with the greatest score |
| PolicyRules.ScoreExactly | src/client-policy-form.ts:209-222 | a rule takes part exactly when the address lies in the block its network text names and the minute in a time its schedule names, and its score is the prefix written |
| PolicyRules.BareRuleApplies | src/client-policy-form.ts:389 | a rule with a bare network applies to the address it spells, in its times, and to no other |
| PolicyRules.ResolveEffectiveClientPolicy | src/client-policy-form.ts:198-230 | the policy is the profile, network and schedule mark of the rule that decides: of those whose network text names a block around the client and whose schedule text a time around now, the longest prefix, and the last of these; without one it is "filter" |
| PolicyRules.ParsedScheduleDecides | src/client-policy-form.ts:270-313 | a parsed rule's schedule never makes resolution throw |
| PolicyRules.BestIsSmallest | src/client-policy-form.ts:219-221 | the deciding network lies inside every other network that applies |
| PolicyRules.FindEffectiveClientPolicyRule | src/client-policy-form.ts:232-239 | the rule shown is the deciding one exactly when no later rule writes the same network |
| LineEdits.UpsertLine | src/client-policy-form.ts:357-378 | the loop replaces the first match, drops the others, or appends behind the last line that is not blank |
| LineEdits.UpsertKeepsOthers | src/client-policy-form.ts:357-378 | afterwards exactly one line matches and the other lines are as before up to blanks at the end |
| LineEdits.UpsertIdempotent | src/client-policy-form.ts:357-378 | editing twice is editing once |
| ParsedLines.FindFromEnd | src/client-policy-form.ts:123-127 | the search from the end finds the last entry with a key |
| ParsedLines.ParsedPositions | src/client-policy-form.ts:76-81 | the entries read are what exactly the lines that hold one parse to, in order |
| ParsedLines.FindAfterUpsert | src/client-policy-form.ts:120-196 | finding after upserting gives the new entry for its key and the old answer for every other key |
| PolicyUpserts.UpsertClientPolicyRule | src/client-policy-form.ts:142-165 | refuses a bad network, name or schedule, and otherwise edits the line of the network |
| PolicyUpserts.CheckExactly | src/client-policy-form.ts:142-154 | the edit takes exactly the rules with a text that names a network, a name of 1 to 32 characters, and days and clock times that can be read |
| PolicyUpserts.RuleReadsBack | src/client-policy-form.ts:155-160 | a checked rule's line parses to the normalised rule exactly when its days are safe to print |
| PolicyUpserts.TickedDaysSafe | src/client-policy-form.ts:187-196 | days ticked in the form are safe |
| PolicyUpserts.MarkInDaysReadsAsNothing | src/client-policy-form.ts:155-160 | a checked rule with `@` or `=>` in its days prints a line that reads as no rule |
| PolicyUpserts.HandTypedDays | src/client-policy-form.ts:288-293 | such days pass the check, with every network, profile and time |
| PolicyUpserts.FindAfterRuleUpsert | src/client-policy-form.ts:120-165 | finding after upserting returns the normalised rule, and other networks find what they found before |
| PolicyUpserts.RuleUpsertLines | src/client-policy-form.ts:142-165 | one line for the network, all others kept, and a second upsert changes nothing |
| PolicyUpserts.RuleUpsertKeepsRules | src/client-policy-form.ts:142-165 | all other rules are the same in the same order |
| PolicyGroups.ReadOptions | src/client-policy-form.ts:98-115 | the loops over options and services say what the options say in any order |
| PolicyGroups.GroupSays | src/client-policy-form.ts:98-115 | a group bypasses or searches safely when an option is `bypass` or `safe_search`, and blocks exactly the known services that stand between bars behind a `block:` |
| PolicyGroups.ParseClientPolicyGroups | src/client-policy-form.ts:83-118 | the loop over the lines reads every group line |
| PolicyGroups.FindClientPolicyGroup | src/client-policy-form.ts:131-140 | finds the last group of a name |
| PolicyGroups.UpsertClientPolicyGroup | src/client-policy-form.ts:167-185 | refuses invalid and reserved names, and otherwise edits the line of the name |
| GroupUpserts.EditMatchesParser | src/client-policy-form.ts:181-184 | the edit replaces exactly the lines the parser reads as a group of that name |
| GroupUpserts.GroupReadsBack | src/client-policy-form.ts:172-180 | a printed group parses to itself with known services, sorted and without repeats |
| GroupUpserts.FindAfterGroupUpsert | src/client-policy-form.ts:131-185 | finding after upserting returns the normalised group, and other names find what they found before |
| GroupUpserts.GroupUpsertLines | src/client-policy-form.ts:167-185 | one line for the name, all others kept |
| GroupUpserts.GroupUpsertIdempotent | src/client-policy-form.ts:167-185 | a second upsert changes nothing |
| DnsNames.SkipDnsName | src-tauri/src/config.rs:1720-1739 | the loop finds the offset behind a name, over any octets |
| DnsNames.NameSkipped | src-tauri/src/config.rs:1720-1739 | a name laid out as in section 4.1.4 of RFC 1035 is skipped exactly |
| DnsNames.SkippedIsName | src-tauri/src/config.rs:1720-1739 | whatever is skipped is a name in that layout |
| DnsNames.NormalizedIsFixed | src-tauri/src/config.rs:1463-1480 | an accepted host name is a fixed point |
| DnsNames.HostnameExactly | src-tauri/src/config.rs:1463-1480 | exactly the texts of at most 253 characters that are labels with dots between them are host names, a label being 1 to 63 letters, digits and hyphens with no hyphen at either end |
| DnsNames.DecoratedHostname | src-tauri/src/config.rs:1463-1480 | white space around a host name and dots behind it are dropped and its letters become small |
| DnsNames.BuildDnsQuery | src-tauri/src/config.rs:1636-1653 | the query is header, the host's labels, type and class, or the first bad label's error |
| DnsNames.QueryLayout | src-tauri/src/config.rs:1636-1653 | a query's octets: the ID, recursion desired, one question, the name, the type and class IN, most significant octets first |
| DnsNames.HostnameEncodes | src-tauri/src/config.rs:1636-1653 | an accepted host name encodes into at most 255 octets, and skipping it from offset 12 lands four octets before the end |
| DnsResponses.ParseBootstrapIpResponse | src-tauri/src/config.rs:1655-1718 | the loops over questions and answers end and read in range, over any octets |
| DnsResponses.MessageParses | src-tauri/src/config.rs:1655-1718 | a laid out message with the query's ID and RCODE 0 gives, for type 1, the V4 addresses of exactly the records with type 1, class 1 and 4 octets, for type 28 the V6 addresses of those with type 28 and 16 octets, in order, for any other type nothing; without an address it is an error |
| DnsResponses.ParserExact | src-tauri/src/config.rs:1655-1718 | the parser accepts exactly the octets that are such a message with such an address in it |
| RuleMerge.LastConfigLine | src/config-draft-state.ts:80-89 | the search from the end finds the last line that is not blank |
| RuleMerge.MergeKeepsOthers | src/config-draft-state.ts:53-109 | merging a rule keeps every line of the draft that is no rule of its domain, in order, and puts the server's line last in the text the action is about |
| RuleMerge.SelectPositions | src/config-draft-state.ts:91-109 | the lines left are those at exactly the positions of no rule, in order |
| RuleMerge.ExactRuleIs | src/config-draft-state.ts:91-101 | a line is a rule of the domain exactly when, white space around it and letter case aside, it is the block or the allow rule for it |
| RuleMerge.RewriteRuleIs | src/config-draft-state.ts:103-109 | a rewrite is one of the domain exactly when its first word is the domain, letter case aside |
| RuleMerge.ServerLineNamesDomain | src-tauri/src/service_core.rs:924-941 | the domain read off the line the server appends is the one the rule was made for |
| RuleMerge.OneRuleLeft | src/config-draft-state.ts:53-78 | when the server's line is the answer's last, the merged draft holds it and no other rule for the domain in either text |
| ConfigDraft.ConfigView.FinishLoad | src/main.ts:2961-3073 | a load changes a loaded form only if draft and saved fingerprint are as when it began and, unless forced, the form was clean; it then is the answer, saved and clean |
| ConfigDraft.ConfigView.ReconcileEnabledConfig | src/main.ts:4274-4280 | a start or stop leaves a switch the user moved meanwhile and sets one that was not, changes no other field, and leaves the flag right |
| ConfigDraft.FlagIsRight | src/main.ts:3877-3895 | in every interleaving, once microtasks drain the dirty flag is set exactly when the form differs in switch, block list, rewrites or other configuration from the form last loaded, saved or rebased |
| ConfigDraft.FingerprintExact | src/main.ts:3877-3885 | two forms have the same fingerprint exactly when they agree in all these fields |
| ConfigDraft.Session | src/main.ts:1600-1608 | the form's handlers, run in any possible order, leave the flag so in its variables |
| ConfigDraft.LoadLosesNoEdit | src/config-draft-state.ts:11-17 | a load replaces a loaded form only if its configuration and the saved fingerprint are as when it began and, unless forced, the form agrees in all configuration fields with the form last loaded, saved or rebased |
| ConfigDraft.LoadGoesInExactly | src/config-draft-state.ts:1-17 | a load's answer becomes the form, saved and clean, exactly when nothing was loaded yet or all this holds; otherwise it changes nothing |
| ConfigDraft.OnlyLoadsAndActionsChange | src/main.ts:2954-3073 | in every interleaving the form changes behind the user's back in no other way than that, the switch of a start or stop, a rule from the log that leaves all other lines, and filter metadata that is no configuration |

## Left out

- SQLite, FTS5, WAL files and VACUUM internals: tables are maps and sequences with the effect of the statements; a
  transaction that fails for reasons outside the model is a flag of the step.
- Search, filters and the time window of a log query are one predicate on a row.
- The client address stored with an event, anonymised or not, is part of the event.
- `log_stats` shows totals only: the rankings, the traffic chart and the parallel connections' results are not modelled.
- Legacy minute and day tables, their backfills, and the one-time flags around the migrations.
- Lock poisoning, crashes in the middle of a migration, and a configuration that does not parse during the renaming.
- Page numbers typed into the log view, its search debounce, and page sizes other than the view's.
- Letter case outside ASCII: `toLowerCase` and `toLocaleLowerCase` are modelled on ASCII letters only.
- The strings of error messages; which check fails, and on which item, is modelled.
- The server's reading of client networks, policy names and groups: only its schedule parser is modelled.
- Validation of the form's fields before a save, and the refusal messages.
- Sockets, threads and timeouts of the bootstrap query, and the order and number of resolved addresses.
- BuildDnsQuery: the host is given as its octets, one character each, and the query number is a parameter.
- Fingerprints are the fields they serialise, not JSON text.
- FlagIsRight: relates the form to the one the client holds as saved; that this is what the server stores while a save and
  a filter update overlap is not modelled.
- LifetimeIsLedger: from 2^63 on SQLite keeps a counter as a rounded REAL and the rebuild's SUM fails, so plain sums are
  the code's below that bound only.
- MergeKeepsOthers: compares lines without the white space around them and leaves blank lines out.

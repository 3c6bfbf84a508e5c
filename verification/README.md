# Tables and lists of wpa_supplicant, verified

This project models the stateful core of wpa_supplicant 2.10 and proves what that core is relied on for:

- the **table of scanned networks** (`bss.c`): two orderings of the same entries, an array of the results
  of the round, and two pointers from outside, through rounds of start / results / end, eviction,
  reallocation, expiry and flushing; and the address filter that results pass on their way to it (`scan.c`);
- the **learning background scan** (`bgscan_learn.c`): a neighbour graph, the text file it is saved to, and
  the cursor that probes channels not yet learned;
- the **list of temporarily ignored BSSIDs** (`bssid_ignore.c`): escalating timeouts and lazy sweeping;
- the **network configuration** (`config.c`): the chains of networks by priority, the ids, and the parser
  and printer of frequency lists;
- two pieces of the **control interface** (`ctrl_iface.c`): the paged LIST_NETWORKS and the IPv4 header
  checksum.

`dafny verify dfyconfig.toml` checks everything.

## How it is built

Code that works by changing state is written as classes and methods with the fields, loops and branches of
the program: `BssTable.Table`, `BgscanLearn.Learner`, `BssidIgnore.IgnoreList`, `NetworkConfig.Config`,
`ScanFiling.ScanResults`, `Elements.WpaBuf`, the buffer and array methods of `TextFile`, `FreqBuffers`,
`ListNetworks` and `Checksum`. Each method
that changes state promises that the new state *as a value* is a specification function of the old one
(`Model() == BssModel.UpdateEnd(old(Model()), …)`). Where the program works entry by entry the
specification does not: `BssModel.UpdateEnd`, for instance, removes a set of entries at once, and
`BssSweeps` shows that the entry-by-entry sweep, with its removals under way, comes to the same.

The specification functions are pinned in turn by statements that do not mention them, about fields, octets and
positions: `BssTerms`, `BssMeaning` and `LearnMeaning` hold those about the table and the learned data, and the
members called `…Exactly` those elsewhere.

The properties are lemmas about the specification functions: over all tables, over all runs from the empty
table (`BssRuns.Run`, `ScanRounds.Session`, `LearnSessions.Session`, `IgnoreModel.History`), or over all
inputs.

In `BssModel`, an object of class `Bss` stands for the address of an entry, and the map `heap` holds the live
entries, so that a pointer dangles exactly when it is not a key of the map. A reallocation moves an entry to a
fresh address; the model always moves where the program reallocates, which is the harder case. A run goes on
while the current pointer dangles, as the program does, and is legal as long as no step reads through it.

Supplied from outside, as parameters: the clock, which entries match a configured network (`Env.known`), which
are candidates for WPS (`Env.wpsCandidate`), which addresses pass the BSSID filter (`Env.passes`), and the
settings that matter. `Env` may differ from step to step of a run. Memory is assumed to be available.

## What is false, and what holds instead

Each of these has a run from the empty table, or an input, that shows it, and an exact condition.

- **The current entry.** The first eviction pass does not ask whether an entry is in use, so filing a new
  result in a full table can take the current entry away: `BssWitnesses.CurrentCanBeEvicted`; exactly,
  `BssGuarantees.ResultKeepsCurrent`. Where the current entry is known or a candidate whenever a result comes,
  no outside pointer ever dangles: `BssGuarantees.PointersNeverDangle`.
- **Entries seen in the round.** With an expiration count of 0 the end of a round removes entries seen in it:
  `BssWitnesses.ZeroCountDropsSeen`; exactly, `BssRuns.SeenEntrySurvives`.
- **Early exits.** Flushing by age stops early, and the lookup by address takes the last hit, in trust that the
  recency list is ordered by time. Results of one round can have different ages, in any order:
  `BssWitnesses.OldEntryStays` and `BssWitnesses.LookupsDiffer`. `BssTimeOrder.ResultKeepsOrder` says exactly
  when a result keeps that order, `BssGuarantees.AgedExact` exactly when the early exit loses nothing, and
  `BssTimeOrder.TimelyRunsLoseNothing` that neither loses anything over runs in which no result is older than
  an entry.
- **Unique keys** fail in two ways. A hidden entry is given a name from outside when an open network of the
  same operator tells it (`events.c:1027-1065`, OWE transition mode); the next hidden result of that address
  finds no entry, makes another one, and that is given the same name: `BssWitnesses.NamedTwice`. And the command
  that files a result for tests (`ctrl_iface.c:9300`, built only with CONFIG_TESTING_OPTIONS) does not filter:
  `BssWitnesses.UnfilteredTwice`. `BssGuarantees.StepUnique` says exactly when a step keeps keys unique, and
  `BssGuarantees.UniqueExactly` over which runs they always are. Both places that fetch results from the driver
  filter them first by the filter that the lookup applies, so in the sessions of the program itself keys are
  always unique exactly if no hidden entry is given the name of another entry of its address:
  `ScanRounds.SessionKeysUnique`.
- **Symmetry of the neighbour graph** is lost when a scan has more than 50 matching results:
  `LearnProofs.FiftyOneBreakSymmetry`; exactly, `LearnProofs.ScanSymmetric`.
- **Lazy sweeping** cannot be observed through get, add and is_listed, but the answer of del shows it:
  `IgnoreProofs.DelShowsSweeping`; exactly, `IgnoreProofs.DelBySense`.
- **Frequency lists** come back from their text exactly when it fits in ten characters a number; numbers of ten
  digits need not: `FreqText.TenDigitsAreCut`; exactly, `FreqText.RoundTripIffRoom`.

## Model

| member | source | states |
|---|---|---|
| RelTime.CalculateUpdateTime | wpa_supplicant-2.10/wpa_supplicant/bss.c:264-279 | the field-by-field borrow arithmetic is exact: the update time is the fetch time less the age, in microseconds, and normalised |
| RelTime.BeforeIsEarlier | wpa_supplicant-2.10/src/utils/os.h:69-74 | comparing seconds and then microseconds is comparing the instants |
| RelTime.ExpiredIsExact | wpa_supplicant-2.10/src/utils/os.h:77-109 | expired holds exactly when more than the timeout has passed, in microseconds, also across a borrow and for negative ages |
| Elements.ParseEncode | wpa_supplicant-2.10/wpa_supplicant/bss.c:1232-1244 | walking well-formed elements followed by an incomplete tail finds exactly these elements |
| Elements.EncodeParse | wpa_supplicant-2.10/wpa_supplicant/bss.c:1232-1244 | every buffer is the encoding of the elements found in it, followed by an incomplete tail |
| Elements.GetVendorIeMulti | wpa_supplicant-2.10/wpa_supplicant/bss.c:1219-1252 | the buffer of the size of the input never overflows, and ends up with the payloads of the matching vendor elements in order; null exactly if that is nothing |
| Elements.GetVendorIeMultiBeacon | wpa_supplicant-2.10/wpa_supplicant/bss.c:1268-1297 | the loop written differently computes the same function of its buffer |
| Elements.PayloadOfEncoding | wpa_supplicant-2.10/wpa_supplicant/bss.c:1219-1297 | on encoded elements with an incomplete tail the payload is that of the elements |
| Elements.PayloadEmpty | wpa_supplicant-2.10/wpa_supplicant/bss.c:1246-1249 | the payload is empty exactly if every matching element ends after its four octets of type |
| Elements.PayloadConcat | wpa_supplicant-2.10/wpa_supplicant/bss.c:1232-1244 | the payload of a list of elements is that of its parts, in order |
| Elements.PayloadOfOne | wpa_supplicant-2.10/wpa_supplicant/bss.c:1240-1242 | of an element 221 that begins with the four octets of the type, what follows them is taken, of any other element nothing |
| Elements.Be32IsBigEndian | wpa_supplicant-2.10/src/utils/common.h:247-250 | reading four octets as a number keeps their lexicographic order, so that the first counts most |
| BssTable.Table.UpdatePendingConnect | wpa_supplicant-2.10/wpa_supplicant/bss.c:186-208 | turns the pending connect work from one entry to another, or cuts it off and marks it, only if it points there |
| BssTable.Table.Remove | wpa_supplicant-2.10/wpa_supplicant/bss.c:211-237 | takes the entry out of both lists, the count, the results (closing the gap) and the pending work, and changes nothing else |
| BssMeaning.RemoveExactly | wpa_supplicant-2.10/wpa_supplicant/bss.c:211-237 | by positions: one node leaves both lists, the results behind it move down by one, the count is one less, and pending work that points to it is cut off and marked; nothing else changes |
| BssTable.Table.Get | wpa_supplicant-2.10/wpa_supplicant/bss.c:248-261 | the first entry of the recency list with this key, or null; null always if the address does not pass the filter |
| BssMeaning.FoundAt | wpa_supplicant-2.10/wpa_supplicant/bss.c:248-261 | by positions: the first entry whose address and SSID are those of the key, if the address passes |
| BssTable.Table.IsInUse | wpa_supplicant-2.10/wpa_supplicant/bss.c:379-393 | decides whether an entry is in use |
| BssTerms.InUseIs | wpa_supplicant-2.10/wpa_supplicant/bss.c:379-393 | in fields: in use are the current entry, and, unless the current entry has another SSID, those whose address is not zero and that of the association or of the one under way |
| BssTable.Table.RemoveOldest | wpa_supplicant-2.10/wpa_supplicant/bss.c:396-434 | removes the victim of the two passes, and fails exactly if there is none |
| BssMeaning.UnknownGoes | wpa_supplicant-2.10/wpa_supplicant/bss.c:396-409 | in a full table the first entry in recency order goes that is neither known nor a candidate, in use or not |
| BssMeaning.UnprotectedGoes | wpa_supplicant-2.10/wpa_supplicant/bss.c:412-434 | where there is none, the first goes that is neither the current entry nor protected by its address; where every entry is, none goes and the limit is raised |
| BssTable.Table.AddEntry | wpa_supplicant-2.10/wpa_supplicant/bss.c:437-480 | gives out the next id, makes room if necessary, raises the limit if that fails, and appends a fresh entry to both lists |
| BssMeaning.AddedExactly | wpa_supplicant-2.10/wpa_supplicant/bss.c:437-480 | field by field: a result for no entry makes one with its own address, fields, time and elements, the next id and no misses, at the end of both lists and of the results |
| BssTable.Table.UpdateEntry | wpa_supplicant-2.10/wpa_supplicant/bss.c:613-717 | ignores a less current result of the round; else refreshes the entry, moves it to the end of the recency list, and, where it grows, to fresh memory at its old place in the id list with all pointers following |
| BssMeaning.LessCurrentIgnored | wpa_supplicant-2.10/wpa_supplicant/bss.c:619-653 | a second result of the round changes nothing if the entry is from an associated one, or if the result is not from one and is no newer |
| BssMeaning.TakenOverExactly | wpa_supplicant-2.10/wpa_supplicant/bss.c:655-717 | field by field: any other result gives the entry its fields, its time and its elements, unless the entry holds a P2P element and the result none, in which case the entry keeps its own; it gets new memory exactly if new elements need more; all other entries are as before |
| BssMeaning.TakenOverPlaces | wpa_supplicant-2.10/wpa_supplicant/bss.c:662-712 | by positions: the entry goes to the end of the recency list, keeps its place in the id list and in the results, and the current pointer and the pending work follow it |
| BssTable.Table.LearnOweName | wpa_supplicant-2.10/wpa_supplicant/events.c:1063-1065 | gives a hidden entry its name and the flag, in place, and keeps the table consistent |
| BssMeaning.NamedExactly | wpa_supplicant-2.10/wpa_supplicant/events.c:1063-1065 | only the name changes, and bit 7 of the flags is set, whatever the other bits are |
| BssTable.Table.UpdateStart | wpa_supplicant-2.10/wpa_supplicant/bss.c:729-735 | starts a round with no results, in a consistent table |
| BssTable.Table.AppendResult | wpa_supplicant-2.10/wpa_supplicant/bss.c:825-841 | the results grow by this one, also when the array has to be doubled |
| ScanFiling.FiledExactly | wpa_supplicant-2.10/wpa_supplicant/bss.c:755-805 | a result is filed under a key if and only if it is recent enough, has a first SSID element of at most 32 octets, has a P2P element where the interface needs one, is no P2P listen discovery, and the key is its address with the first mesh identifier of such a length or else the SSID |
| ScanFiling.ScanResults.Filter | wpa_supplicant-2.10/wpa_supplicant/scan.c:2240-2263 | compaction in place leaves the results that pass, in order, and no empty place among them |
| ScanFiling.FilteredMembers | wpa_supplicant-2.10/wpa_supplicant/scan.c:2222-2263 | what is left are exactly the results whose address passes |
| BssTable.Table.UpdateScanRes | wpa_supplicant-2.10/wpa_supplicant/bss.c:748-842 | files one result and keeps the table consistent, also while the current pointer dangles, unless an eviction would have to read through it |
| BssTable.Table.IsIncluded | wpa_supplicant-2.10/wpa_supplicant/bss.c:845-883 | both loops together decide whether frequency and SSID were asked for |
| BssTerms.IncludedIs | wpa_supplicant-2.10/wpa_supplicant/bss.c:845-883 | by positions: the frequency is in the list unless that is empty, and the SSID is in its list, or an empty one is, unless that is empty |
| BssTable.Table.UpdateEnd | wpa_supplicant-2.10/wpa_supplicant/bss.c:896-920 | the sweep, removing as it goes, counts one miss for each missed entry and removes exactly those with too many, in a consistent table |
| BssRuns.NothingExpires | wpa_supplicant-2.10/wpa_supplicant/bss.c:902-903 | without a new scan, or after an aborted one, the table stays as it is |
| BssRuns.EndExactly | wpa_supplicant-2.10/wpa_supplicant/bss.c:905-916 | field by field, after a new scan that was not aborted: a protected entry and one not asked for stay as they are; any other has one miss more if it was not seen in the round, and is gone exactly if its misses reach the limit |
| BssTable.Table.FlushByAge | wpa_supplicant-2.10/wpa_supplicant/bss.c:930-950 | removes the entries found before the early exit |
| BssMeaning.FlushByAgeExactly | wpa_supplicant-2.10/wpa_supplicant/bss.c:930-950 | by positions: an entry goes if and only if it is not protected and is old, and so is or protected is every entry before it |
| BssTable.Table.Flush | wpa_supplicant-2.10/wpa_supplicant/bss.c:973-987 | removes exactly the entries not in use |
| BssMeaning.FlushExactly | wpa_supplicant-2.10/wpa_supplicant/bss.c:973-987 | an entry stays, and as it was, if and only if it is the current one or protected by its address |
| BssTable.Table.GetBssid | wpa_supplicant-2.10/wpa_supplicant/bss.c:1006-1017 | the last entry of the recency list with this address |
| BssTable.Table.GetBssidLatest | wpa_supplicant-2.10/wpa_supplicant/bss.c:1031-1045 | of the entries with this address, the last one of greatest update time |
| BssSweeps.EndOneStep | wpa_supplicant-2.10/wpa_supplicant/bss.c:905-916 | handling the next entry takes the sweep from the effect on the entries before it to the effect including it, removals under way notwithstanding |
| BssInvariant.UpdateScanResInv | wpa_supplicant-2.10/wpa_supplicant/bss.c:748-842 | any result, wherever it is filed, keeps the whole table consistent, across eviction and reallocation |
| BssInvariant.MoveInv | wpa_supplicant-2.10/wpa_supplicant/bss.c:662-712 | moving a refreshed entry, with or without reallocation, keeps the whole table consistent, in particular the id order |
| BssInvariant.RemoveAllInv | wpa_supplicant-2.10/wpa_supplicant/bss.c:211-237 | removing any entries keeps the whole table consistent |
| BssInvariant.SeenIsSuffix | wpa_supplicant-2.10/wpa_supplicant/bss.c:812-841 | the entries seen in the round form a suffix of the recency list |
| BssRuns.ReachableTablesAreConsistent | wpa_supplicant-2.10/wpa_supplicant/bss.c:437-842 | in every reachable table, also after changes to entries from outside, both lists hold exactly the live entries, ids ascend below the next id, the recency list is ordered by round, the results are without repetition exactly the entries stamped with the round, and form a suffix |
| BssRuns.HandlesByKey | wpa_supplicant-2.10/wpa_supplicant/bss.c:807-811 | with unique keys, a result that passes the filter is about an entry exactly if it has its key |
| BssRuns.AfterResult | wpa_supplicant-2.10/wpa_supplicant/bss.c:613-717 | an accepted result takes over its own entry and leaves every other as it was |
| BssRuns.CountersCountMisses | wpa_supplicant-2.10/wpa_supplicant/bss.c:896-920 | over any run with a fixed limit of at least 1, each entry's counter is below the limit and equals the number of rounds with a new scan, not aborted, since its last accepted result that asked for it, did not see it and found it not protected |
| BssRuns.NextMissed | wpa_supplicant-2.10/wpa_supplicant/bss.c:896-920 | an entry seen in one round and missed in the next has one miss |
| BssWitnesses.MissedOnce | wpa_supplicant-2.10/wpa_supplicant/bss.c:896-920 | a run from the empty table in which that happens |
| BssRuns.EndDropsExactly | wpa_supplicant-2.10/wpa_supplicant/bss.c:905-916 | the end of a new, not aborted round drops exactly the entries that are not protected, were asked for, and whose counter reaches the limit with a miss counted if they were not seen |
| BssRuns.RunDropsExactly | wpa_supplicant-2.10/wpa_supplicant/bss.c:896-920 | over any run with a fixed limit of at least 1, the end of a round drops exactly the entries for which it counts the miss that, with those counted over the run, reaches the limit |
| BssRuns.SeenEntrySurvives | wpa_supplicant-2.10/wpa_supplicant/bss.c:905-916 | an entry seen in the round survives its end if and only if there was no new scan, or it was aborted, or the entry is protected or was not asked for, or the limit is at least 1 |
| BssWitnesses.ZeroCountDropsSeen | wpa_supplicant-2.10/wpa_supplicant/bss.c:912-915 | a run in which a count of 0 drops an entry seen in the round |
| BssRuns.WinnerStep | wpa_supplicant-2.10/wpa_supplicant/bss.c:619-653 | the test for a less current result keeps the winner of the round exactly |
| BssRuns.SeenEntriesCarryWinners | wpa_supplicant-2.10/wpa_supplicant/bss.c:619-661 | in every reachable table an entry seen in the round has the copied fields and the time of the first associated result about it if there is one, otherwise of the earliest among those of greatest update time, with the changes that the rest of the program made to them since; an entry not seen had no result |
| BssRuns.WinnerUnique | wpa_supplicant-2.10/wpa_supplicant/bss.c:619-653 | there is only one such result |
| BssGuarantees.ResultUnique | wpa_supplicant-2.10/wpa_supplicant/bss.c:807-811 | keys stay unique if and only if the result is skipped, passes the filter, or finds no entry of its key left once room is made |
| BssGuarantees.StepUnique | wpa_supplicant-2.10/wpa_supplicant/bss.c:248-261 | a step keeps keys unique if and only if it is no result that escapes the filter and finds its key left once room is made, and gives no entry the name of another one of its address |
| BssGuarantees.UniqueExactly | wpa_supplicant-2.10/wpa_supplicant/bss.c:248-261 | keys are unique after every step of a run if and only if every step meets that condition |
| BssGuarantees.ReachableKeysUnique | wpa_supplicant-2.10/wpa_supplicant/bss.c:248-261 | over any run whose results pass the filter, keys are always unique if and only if no entry is given the name of another one of its address |
| ScanRounds.SessionsPass | wpa_supplicant-2.10/wpa_supplicant/scan.c:2720-2757 | every result that the scan rounds and the transition candidates file has passed the filter in force |
| ScanRounds.SessionKeysUnique | wpa_supplicant-2.10/wpa_supplicant/wnm_sta.c:1338-1368 | so over any session, whatever the filter is in turn, keys are always unique if and only if no entry is given the name of another one of its address |
| BssWitnesses.NamedTwice | wpa_supplicant-2.10/wpa_supplicant/events.c:1027-1065 | a run whose results pass the filter in which a hidden entry gets its name twice, so that two entries have one key |
| BssWitnesses.UnfilteredTwice | wpa_supplicant-2.10/wpa_supplicant/ctrl_iface.c:9299-9301 | the command for tests, which does not filter, makes two entries of one key |
| BssGuarantees.MakeRoomKeepsCurrent | wpa_supplicant-2.10/wpa_supplicant/bss.c:396-434 | making room takes the current entry if and only if the table is full and it is the first that is neither known nor a candidate |
| BssGuarantees.ResultKeepsCurrent | wpa_supplicant-2.10/wpa_supplicant/bss.c:458-468 | the exact condition under which a result leaves the current pointer in the table |
| BssGuarantees.StepKeepsPointers | wpa_supplicant-2.10/wpa_supplicant/bss.c:691-701 | no step leaves a dangling pointer in the pending work, nor in the current pointer if the current entry is known or a candidate when results come |
| BssGuarantees.PointersNeverDangle | wpa_supplicant-2.10/wpa_supplicant/bss.c:691-701 | over any run in which the current entry is known or a candidate whenever a result comes, no outside pointer dangles |
| BssWitnesses.CurrentCanBeEvicted | wpa_supplicant-2.10/wpa_supplicant/bss.c:396-409 | a run from the empty table of capacity one, ending in a filed result that leaves the current pointer dangling |
| BssGuarantees.VictimIsOldest | wpa_supplicant-2.10/wpa_supplicant/bss.c:396-434 | the victim has the smallest round of its class, entries neither known nor candidates going first; there is none only if every entry is known or a candidate, and in use |
| BssGuarantees.AddWithinCapacity | wpa_supplicant-2.10/wpa_supplicant/bss.c:458-468 | an addition stays within the limit, and raises it if and only if the table is full and no entry may be evicted |
| BssGuarantees.NeverOverCapacity | wpa_supplicant-2.10/wpa_supplicant/bss.c:458-468 | over any run the count of entries does not exceed the limit |
| BssGuarantees.AgedExact | wpa_supplicant-2.10/wpa_supplicant/bss.c:941-949 | the early exit misses nothing if and only if no old unused entry stands behind a recent unused one |
| BssGuarantees.FlushByAgeExact | wpa_supplicant-2.10/wpa_supplicant/bss.c:930-950 | flushing takes only old unused entries, keeps the others as they are, and under time order takes all of them |
| BssGuarantees.LastIsLatest | wpa_supplicant-2.10/wpa_supplicant/bss.c:1006-1045 | the two lookups agree if the list is ordered by time, and in general exactly if nothing of that address is newer than the last hit |
| BssTimeOrder.ResultKeepsOrder | wpa_supplicant-2.10/wpa_supplicant/bss.c:662-712 | a result keeps the recency list ordered by time if and only if it is skipped or ignored, or no entry that stays is newer than it |
| BssTimeOrder.TimelyRunsStayOrdered | wpa_supplicant-2.10/wpa_supplicant/bss.c:748-842 | over any run in which no result is older than an entry, the recency list is ordered by time |
| BssTimeOrder.TimelyRunsLoseNothing | wpa_supplicant-2.10/wpa_supplicant/bss.c:930-1045 | over such runs the two lookups agree, and flushing takes exactly the old unused entries |
| BssWitnesses.LookupsDiffer | wpa_supplicant-2.10/wpa_supplicant/bss.c:1006-1045 | a run in which the two lookups differ |
| BssWitnesses.OldEntryStays | wpa_supplicant-2.10/wpa_supplicant/bss.c:941-949 | a run in which flushing leaves an old unused entry behind a new one |
| BgscanLearn.LearnBss.AddNeighbor | wpa_supplicant-2.10/wpa_supplicant/bgscan_learn.c:68-85 | appends an address that is neither the entry's own nor there already |
| BgscanLearn.Learner.NotifyScan | wpa_supplicant-2.10/wpa_supplicant/bgscan_learn.c:481-548 | the two loops over the results, on the entries in place, do what the specification says |
| LearnMeaning.ScanFrequencies | wpa_supplicant-2.10/wpa_supplicant/bgscan_learn.c:510-532 | after a scan an entry has the frequency of the last result of its address whose first SSID element is the network; where there is none, it is an entry that was there, unchanged |
| LearnMeaning.NeighborsExactly | wpa_supplicant-2.10/wpa_supplicant/bgscan_learn.c:496-538 | said of positions in the results: an address with a fitting result gets as neighbours the other addresses of the first 50 fitting results, and nothing else is added |
| LearnMeaning.ScanKeepsPlaces | wpa_supplicant-2.10/wpa_supplicant/bgscan_learn.c:523-532 | the entries that were there keep their order, behind the new ones |
| BgscanLearn.Learner.Save | wpa_supplicant-2.10/wpa_supplicant/bgscan_learn.c:161-192 | the text written |
| BgscanLearn.Learner.Load | wpa_supplicant-2.10/wpa_supplicant/bgscan_learn.c:101-158 | the entries read, chunk by chunk through the buffer of 128 characters with what it held before, on the entries in place; fails exactly without the header, and then changes nothing |
| BgscanLearn.Learner.GetFreqs | wpa_supplicant-2.10/wpa_supplicant/bgscan_learn.c:211-232 | each frequency that some entry has, once, and no other, before the terminator |
| BgscanLearn.Learner.GetSuppFreqs | wpa_supplicant-2.10/wpa_supplicant/bgscan_learn.c:348-377 | a frequency is in the list if and only if some channel of some mode has it and is enabled; each once, before the terminator; the cursor is at the start |
| BgscanLearn.Learner.GetProbeFreq | wpa_supplicant-2.10/wpa_supplicant/bgscan_learn.c:235-267 | the cyclic search ends, leaves a valid cursor, and appends what a probe of the specification adds |
| Probing.ProbeExactly | wpa_supplicant-2.10/wpa_supplicant/bgscan_learn.c:243-264 | by positions: one probe takes the first channel not learned, from the cursor on and round, and leaves the cursor behind it; if there is none it changes nothing |
| Probing.VisibleExactly | wpa_supplicant-2.10/wpa_supplicant/bgscan_learn.c:195-208 | what counts of an array is all before its first zero |
| Probing.PushAllCollects | wpa_supplicant-2.10/wpa_supplicant/bgscan_learn.c:211-232 | adding what is not there yet collects exactly the given frequencies, each once, with a terminator, and nothing is null only if there is none |
| Probing.ProbeRotates | wpa_supplicant-2.10/wpa_supplicant/bgscan_learn.c:243-264 | a probe takes the head of the queue of pending channels and puts it at the end; nothing happens exactly if the queue is empty |
| Probing.ProbesArePending | wpa_supplicant-2.10/wpa_supplicant/bgscan_learn.c:235-267 | consecutive probes come in the order of that queue |
| Probing.ProbesAreFair | wpa_supplicant-2.10/wpa_supplicant/bgscan_learn.c:235-267 | as many consecutive probes as there are unlearned channels add each of them exactly once, and no other |
| Probing.ProbesStayFair | wpa_supplicant-2.10/wpa_supplicant/bgscan_learn.c:270-315 | while more and more is learned between the calls: as many consecutive probes as there are supported channels add every one that is not learned at any of them; each call takes it or brings the cursor closer |
| Probing.NothingToProbe | wpa_supplicant-2.10/wpa_supplicant/bgscan_learn.c:243-266 | nothing is ever added when all supported channels are learned |
| LearnProofs.ScanAdds | wpa_supplicant-2.10/wpa_supplicant/bgscan_learn.c:496-538 | exactly what one scan adds to the entries and to the neighbour relation; addresses stay unique, without self-neighbours and repetitions |
| LearnProofs.ScanKeepsClosed | wpa_supplicant-2.10/wpa_supplicant/bgscan_learn.c:481-548 | after any scan every neighbour address has its own entry, however many results there were |
| LearnProofs.ScanSymmetric | wpa_supplicant-2.10/wpa_supplicant/bgscan_learn.c:486-538 | the relation stays symmetric if and only if every address beyond the first 50 was known already to each of these |
| LearnProofs.ScanPairwise | wpa_supplicant-2.10/wpa_supplicant/bgscan_learn.c:496-538 | up to 50 matching results become pairwise neighbours |
| LearnSessions.SessionsKeepGraph | wpa_supplicant-2.10/wpa_supplicant/bgscan_learn.c:398-548 | over any sessions of scans, with saving and loading between them, the data is well formed and closed, and symmetric if no scan had more than 50 matching results |
| LearnProofs.FiftyOneBreakSymmetry | wpa_supplicant-2.10/wpa_supplicant/bgscan_learn.c:486-505 | 51 results of as many access points make the relation asymmetric |
| TextFile.ChunksOfLines | wpa_supplicant-2.10/wpa_supplicant/bgscan_learn.c:117-125 | lines shorter than the buffer are read back one by one |
| TextFile.ChunksExactly | wpa_supplicant-2.10/wpa_supplicant/bgscan_learn.c:117-125 | for any text: the chunks are the text piece by piece, of at most 127 characters, with a line break only at the end, and one that has none is full or the last |
| LearnSessions.WrittenIgnoresTail | wpa_supplicant-2.10/wpa_supplicant/bgscan_learn.c:126-152 | what earlier lines left in the buffer behind a written line is not looked at |
| LearnSessions.LoadSaved | wpa_supplicant-2.10/wpa_supplicant/bgscan_learn.c:101-192 | loading the text that was saved gives the same entries, frequencies and neighbours in order, with the list of entries reversed, whatever the buffer held at first |
| LearnSessions.SaveLoadTwice | wpa_supplicant-2.10/wpa_supplicant/bgscan_learn.c:101-192 | two passes are the identity |
| LearnSessions.BssLineExactly | wpa_supplicant-2.10/wpa_supplicant/bgscan_learn.c:177-180 | the positions of address and frequency in a written line |
| LearnSessions.NeighborLineExactly | wpa_supplicant-2.10/wpa_supplicant/bgscan_learn.c:184-187 | the positions of both addresses in a written line |
| LearnSessions.OtherLines | wpa_supplicant-2.10/wpa_supplicant/bgscan_learn.c:126-152 | lines of another kind or with an address that cannot be read, and neighbours of an unknown address, change nothing |
| LearnSessions.LineEffect | wpa_supplicant-2.10/wpa_supplicant/bgscan_learn.c:126-152 | any line at all adds an entry without neighbours in front, or one neighbour to one entry, or changes nothing |
| Text.ReadAddrText | wpa_supplicant-2.10/src/utils/common.c:41-69 | an address printed and read is the same, whatever text follows |
| Text.ReadAddrExactly | wpa_supplicant-2.10/src/utils/common.c:41-69 | text is read as an address if and only if it begins with pairs of hexadecimal digits, in either case, with colons between them; the digits are the octets |
| Text.AtoiDecimal | wpa_supplicant-2.10/wpa_supplicant/bgscan_learn.c:134 | a number printed and read is the same, whatever follows that cannot prolong it |
| Text.AtoiSkips | wpa_supplicant-2.10/wpa_supplicant/bgscan_learn.c:134 | white space before a number does not matter |
| BssidIgnore.IgnoreList.Get | wpa_supplicant-2.10/wpa_supplicant/bssid_ignore.c:21-46 | clears after a reconfiguration, else sweeps; then finds the entry |
| BssidIgnore.IgnoreList.Add | wpa_supplicant-2.10/wpa_supplicant/bssid_ignore.c:65-108 | the new list, and the count answered |
| BssidIgnore.IgnoreList.Del | wpa_supplicant-2.10/wpa_supplicant/bssid_ignore.c:117-141 | unlinks the entry and answers whether there was one |
| BssidIgnore.IgnoreList.IsListed | wpa_supplicant-2.10/wpa_supplicant/bssid_ignore.c:150-162 | the count while the timeout has not passed, else 0 |
| BssidIgnore.IgnoreList.Clear | wpa_supplicant-2.10/wpa_supplicant/bssid_ignore.c:169-182 | the list is empty |
| BssidIgnore.IgnoreList.Update | wpa_supplicant-2.10/wpa_supplicant/bssid_ignore.c:190-221 | unlinks exactly the entries expired for more than an hour, keeping the order |
| IgnoreProofs.ListExactly | wpa_supplicant-2.10/wpa_supplicant/bssid_ignore.c:65-141 | by positions: add counts on in place, with the timeout of the new count, or puts an entry with 10 seconds in front; del closes the gap |
| IgnoreModel.BackoffIs | wpa_supplicant-2.10/wpa_supplicant/bssid_ignore.c:74-88 | the timeouts are 10, 10, 60, 120 and 600 seconds for the first five additions, and 1800 for all later ones |
| IgnoreModel.ClearedOrSwept | wpa_supplicant-2.10/wpa_supplicant/bssid_ignore.c:21-108 | in a history, get, is_listed and add clear the list after a reconfiguration, once, and sweep it otherwise |
| IgnoreProofs.ListMeansHistory | wpa_supplicant-2.10/wpa_supplicant/bssid_ignore.c:21-221 | over any history, bare sweeps included, with a clock that does not go back, each BSSID is listed once, with what the history means, less what was stale at the last sweep |
| IgnoreProofs.GetBySense | wpa_supplicant-2.10/wpa_supplicant/bssid_ignore.c:21-46 | what get answers depends on the adds, deletes, clears and reconfigurations only, not on when the list was swept |
| IgnoreProofs.AddBySense | wpa_supplicant-2.10/wpa_supplicant/bssid_ignore.c:65-108 | add counts on from what the history means, unless stale; the timeout is the step function of the count |
| IgnoreProofs.IsListedBySense | wpa_supplicant-2.10/wpa_supplicant/bssid_ignore.c:150-162 | listed, with its count, exactly while no more than the timeout has passed since the last add |
| IgnoreProofs.DelBySense | wpa_supplicant-2.10/wpa_supplicant/bssid_ignore.c:117-141 | del finds its BSSID if and only if its entry was not stale at the last sweep |
| IgnoreProofs.DelShowsSweeping | wpa_supplicant-2.10/wpa_supplicant/bssid_ignore.c:117-141 | two histories of the same meaning that del answers differently |
| NetworkConfig.Config.AddPrioNetwork | wpa_supplicant-2.10/wpa_supplicant/config.c:2674-2714 | in the linked chains, appends to the chain of this priority or inserts a new one before the first lower |
| NetworkConfig.Config.UpdatePrioList | wpa_supplicant-2.10/wpa_supplicant/config.c:2726-2744 | the chains become those built up from the list |
| NetworkConfig.Config.AddNetwork | wpa_supplicant-2.10/wpa_supplicant/config.c:3026-3054 | appends a fresh network with one more than the largest id, and rebuilds the chains |
| NetworkConfig.Config.RemoveNetwork | wpa_supplicant-2.10/wpa_supplicant/config.c:3063-3086 | unlinks the network with this id and rebuilds the chains; fails exactly if there is none |
| NetworkConfig.Config.SetPriority | wpa_supplicant-2.10/wpa_supplicant/ctrl_iface.c:3543-3586 | a priority that is really changed is followed by the rebuilt chains; setting the same again changes nothing |
| NetworkConfig.IdsStayAscending | wpa_supplicant-2.10/wpa_supplicant/config.c:3026-3086 | adding and removing keep the ids ascending along the list and non-negative |
| NetworkConfig.NextIdIsLargestPlusOne | wpa_supplicant-2.10/wpa_supplicant/config.c:3031-3039 | the id given out is 0 or one more than an id of the list, and larger than all |
| NetworkConfig.EditExactly | wpa_supplicant-2.10/wpa_supplicant/config.c:3026-3086 | after any edits, an addition puts one more than the last id at the end, and a removal takes exactly its id |
| NetworkConfig.EditsKeepAscending | wpa_supplicant-2.10/wpa_supplicant/config.c:3026-3086 | so does any sequence of additions and removals |
| NetworkConfig.EditsCount | wpa_supplicant-2.10/wpa_supplicant/config.c:3026-3086 | only additions increase the number of ids above a given one, each by at most one |
| PrioModel.AddPrioSorts | wpa_supplicant-2.10/wpa_supplicant/config.c:2674-2714 | adding the next network of the list keeps the chains sorting it |
| PrioModel.SortsIffBuilt | wpa_supplicant-2.10/wpa_supplicant/config.c:2674-2744 | chains sort the list by strictly descending priority and stably if and only if they are the ones built up incrementally |
| PrioModel.ChainsAreStableSort | wpa_supplicant-2.10/wpa_supplicant/config.c:2674-2744 | read one after the other, the chains do not increase in priority, and have the networks of each priority in list order |
| PrioModel.ChainsArePermutation | wpa_supplicant-2.10/wpa_supplicant/config.c:2674-2744 | every network is in the chains exactly as often as in the list |
| PrioModel.BuiltExactly | wpa_supplicant-2.10/wpa_supplicant/config.c:2674-2744 | by positions: every chain has one priority and networks of the list only, and the priorities strictly descend from chain to chain |
| PrioModel.EarlierStaysEarlier | wpa_supplicant-2.10/wpa_supplicant/config.c:2680-2692 | of two networks of one priority, the one that comes first in the list comes first in their chain |
| FreqBuffers.ParseIntArray | wpa_supplicant-2.10/wpa_supplicant/config.c:1380-1418 | the array always has room and is zero from the last number on, through every doubling, and holds the numbers of the text |
| FreqBuffers.WriteFreqs | wpa_supplicant-2.10/wpa_supplicant/config.c:1462-1492 | the buffer holds the text of the numbers, cut off where it is full, and is terminated |
| FreqText.RoundTripIffRoom | wpa_supplicant-2.10/wpa_supplicant/config.c:1380-1492 | reading back what was written gives the list if and only if its text fits the buffer, for all lists of positive numbers |
| FreqText.RoundTrip | wpa_supplicant-2.10/wpa_supplicant/config.c:1476-1489 | numbers below 10^9 always come back |
| FreqText.TenDigitsAreCut | wpa_supplicant-2.10/wpa_supplicant/config.c:1476-1489 | two numbers of ten digits do not |
| FreqText.JunkIsSkipped | wpa_supplicant-2.10/wpa_supplicant/config.c:1393-1415 | what stands between a number and the next blank is not looked at |
| FreqText.TextGrows | wpa_supplicant-2.10/wpa_supplicant/config.c:1480-1489 | one more number is written behind a blank, a negative one as the unsigned number it is to the printer |
| ListNetworks.ListNetworks | wpa_supplicant-2.10/wpa_supplicant/ctrl_iface.c:2677-2741 | the reply is the header and as many whole rows as fit, from the first network behind the last id |
| ListNetworks.PageExactly | wpa_supplicant-2.10/wpa_supplicant/ctrl_iface.c:2677-2741 | by positions: nothing if the header of 34 characters does not fit; else the header and the rows from the first network with an id above the last one, as many as leave room for the terminator, and not one less |
| ListNetworks.LastIdExactly | wpa_supplicant-2.10/wpa_supplicant/ctrl_iface.c:2694-2702 | a command goes on from an id only if it begins with LAST_ID=, and not from -1 |
| ListNetworks.RowColumns | wpa_supplicant-2.10/wpa_supplicant/ctrl_iface.c:2704-2735 | id, printable SSID, address or any, and flags, behind tabulators, and a line break |
| ListNetworks.FlagsOf | wpa_supplicant-2.10/wpa_supplicant/ctrl_iface.c:2722-2730 | the flags of a network that is not disabled, for each of its states |
| ListNetworks.FlagsOfDisabled | wpa_supplicant-2.10/wpa_supplicant/ctrl_iface.c:2722-2730 | those of one that is disabled and not current |
| ListNetworks.FlagsOfCurrentDisabled | wpa_supplicant-2.10/wpa_supplicant/ctrl_iface.c:2722-2730 | those of one that is disabled and current |
| ListNetworks.FlagsOfGroup | wpa_supplicant-2.10/wpa_supplicant/ctrl_iface.c:2722-2730 | those of a persistent group are the same with one flag more |
| ListNetworks.CommandNamesId | wpa_supplicant-2.10/wpa_supplicant/ctrl_iface.c:2695-2702 | the command made from an id goes on from this id |
| ListNetworks.RowNamesId | wpa_supplicant-2.10/wpa_supplicant/ctrl_iface.c:2706-2708 | a row begins with its id, whatever follows it |
| ListNetworks.RowIsLine | wpa_supplicant-2.10/wpa_supplicant/ctrl_iface.c:2706-2735 | a row is one line, whatever octets the SSID has |
| ListNetworks.ReadPage | wpa_supplicant-2.10/wpa_supplicant/ctrl_iface.c:2677-2741 | from the text of a page a client reads exactly the ids of its networks |
| Text.SsidTxtIsWhole | wpa_supplicant-2.10/src/utils/common.c:477-523 | the printable text of an SSID of up to 32 octets is never cut |
| Text.PrintableForms | wpa_supplicant-2.10/src/utils/common.c:477-523 | what each octet is printed as: itself, a backslash and a letter, or two hexadecimal digits of its value |
| Text.PrintableUnique | wpa_supplicant-2.10/src/utils/common.c:477-523 | different octets are printed differently, whole SSIDs too |
| Paging.PagePosition | wpa_supplicant-2.10/wpa_supplicant/ctrl_iface.c:2694-2738 | with ascending ids a page is a contiguous piece of the list, beginning right behind the last id, and empty only at the end |
| Paging.ReceivedInOrder | wpa_supplicant-2.10/wpa_supplicant/ctrl_iface.c:2677-2741 | however the list changes between pages, the ids received ascend, so none comes twice |
| Paging.PresentIsReceived | wpa_supplicant-2.10/wpa_supplicant/ctrl_iface.c:2677-2741 | a network present at every fetch is received |
| Paging.EmptyPageIsReached | wpa_supplicant-2.10/wpa_supplicant/ctrl_iface.c:2677-2741 | with more fetches than there are networks to come and networks added meanwhile, the client comes to an empty page |
| Paging.PagingIsComplete | wpa_supplicant-2.10/wpa_supplicant/ctrl_iface.c:2677-2741 | from any list with ascending ids, while networks are added and removed between the fetches: no id comes twice; one fetch more than there were networks at first and networks added meanwhile reaches the empty page; and there the client has every network that was there throughout |
| Paging.UnchangedIsReceived | wpa_supplicant-2.10/wpa_supplicant/ctrl_iface.c:2677-2741 | while the list does not change, one fetch more than there are networks comes to the empty page, with exactly the networks behind the first id received |
| Paging.FetchAll | wpa_supplicant-2.10/wpa_supplicant/ctrl_iface.c:2677-2741 | in particular, all pages of a list are the list |
| Paging.ReceivedWasPresent | wpa_supplicant-2.10/wpa_supplicant/ctrl_iface.c:2677-2741 | only what was in the list at some fetch is received |
| Checksum.AccumulatorFits | wpa_supplicant-2.10/wpa_supplicant/ctrl_iface.c:9560-9565 | the 32-bit accumulator cannot overflow if and only if there are at most 65537 words |
| Checksum.FoldKeepsSum | wpa_supplicant-2.10/wpa_supplicant/ctrl_iface.c:9567-9568 | folding keeps the sum modulo 65535, and gives 0 only for 0 |
| Checksum.Ipv4HdrChecksum | wpa_supplicant-2.10/wpa_supplicant/ctrl_iface.c:9558-9571 | with a wrapping accumulator the loops compute the complement of the folded sum, of the true sum up to 65537 words |
| Checksum.ChecksOut | wpa_supplicant-2.10/wpa_supplicant/ctrl_iface.c:9558-9571 | the checksum of a buffer is 0 if and only if its sum is a positive multiple of 65535 |
| Checksum.StoredChecksumChecksOut | wpa_supplicant-2.10/wpa_supplicant/ctrl_iface.c:9706-9715 | storing the checksum in a word that was zero makes the whole buffer check out |
| Checksum.StoreChecksum | wpa_supplicant-2.10/wpa_supplicant/ctrl_iface.c:9706-9715 | the same on the buffer in place, with the recomputation answering 0 |

## Left out

- BssTable.Table.UpdateEnd: the sweep goes over the list as it is at the start; the program's safe iteration over a linked list, from which only the entry in hand is removed, visits the same entries.
- BssTable.Table.Get: the linked lists are sequence fields; pointers to the neighbours in a list are not modelled.
- BssTable.Table.UpdateEntry: the comparison of old and new elements, which only serves notifications, and the HESSID are left out; so is the case of a failed reallocation.
- ListNetworks.ListNetworks: a failing print is one that does not fit; the C library's other reasons to fail are not modelled.
- Paging.PresentIsReceived: the client is any that asks on from the last id received until a page is empty; the skipping of rows in the graphical client is not modelled.
- BssRuns.Legal: a step that would read through a dangling current pointer is not part of any run; what the program does then is not determined.
- ScanRounds.SessionKeysUnique: of the transition candidates only that they are some of the filtered results is modelled, not how they are chosen.
- Text.AtoiDecimal: integers do not wrap, so texts of numbers beyond the C range, which the C library leaves undefined, have their true value.
- Failed allocations, and the branches that answer them.
- Wrap-around of `bss_next_id` and `bss_update_idx`.
- BssRuns.Enabled: that changes from outside give names only to hidden entries and leave the ASSOCIATED flag alone is taken from the places that make them (the name and flag of an OWE transition entry, the level and frequency of the current entry, the flag for ANQP fetches); the elements that lead to such a name are not modelled.
- Lowering `bss_max_count` during a run.
- How `wpa_bss_known` and the WPS candidate test are computed: they are parameters.
- The memory capacity of an entry's elements: the model compares the present lengths, as the program does.
- Null arguments, a missing learner file, and frequency arrays that were never set.
- ANQP data shared between entries; its code is not part of this model.
- Notifications, debug output, timers, and the driver.
- A second configuration file read into an existing one, which starts ids again from 0.
- The other fields of the configuration, the dispatcher and the other commands of the control interface, and the autoscan and simple background-scan modules: many branches, no invariant.

# Stargazer: a verified model of its algorithmic core

Stargazer is a firewall appliance: a kernel forwarding hook, an inspection daemon (`ipsd`) and a
command-line shell. This project models the parts of it that carry real algorithms and proves what
they promise, for every input and every run. `dafny verify dfyconfig.toml` checks all of it.

| files | what they model |
|---|---|
| `AcTheory`, `CaseFold`, `AcTrie`, `AcLinks`, `AhoCorasick`, `Counting` | the Aho-Corasick matcher: trie, breadth-first failure links, freezing, search, streaming |
| `IwinCache` | the 4-way set-associative initial-window cache with stamp eviction |
| `FlowAccounting`, `FlowFeatures` | the per-flow packet accounting of the kernel hook and the feature vector made from it |
| `Seccomp` | the system-call filter of the shell, on a classic-BPF interpreter |
| `NetlinkFormat`, `Ctdump` | writing a nested netlink request and reading one |
| `PasteBuffer` | serving pasted lines out of a byte buffer that is filled in arbitrary pieces |
| `Assoc`, `KvText`, `KvBuffer`, `ConfigEntry` | the key/value buffer, its text form, and the configure-entry commands |
| `Words`, `Abbrev`, `AbbrevBuffer` | word splitting, the resolution of abbreviated commands, and its 512-byte result buffer |
| `Common` | bytes and optional values |
| `Utf8`, `LineEditor`, `LineSession`, `CharZipper`, `SessionZipper` | the in-place line editor on a byte stream with history and completion, and the character zipper it implements |

The main results, hardest first:

1. **Matching.** After any additions and a build, `Automaton.Search` reports (id, i) exactly once for every
   added pattern that ends with byte i of the text, up to letter case if the automaton folds it, and was not overridden by a later
   addition of the same text, in order, and nothing else (`Automaton.AddPattern`, `Automaton.Build`,
   `Automaton.Search`, `ReportsUpToCase`). Any division of a text into chunks gives the same
   reports (`Automaton.SearchChunks`), and failure hops are at most the bytes read plus the depth of the start state.
2. **The filter.** For every architecture, call number and argument words, executing the jump table returns the
   verdict of a declarative allowlist (`FilterComputesPolicy`), told call by call in the kernel's own numbers (`VerdictOnMapping`, `VerdictOnSocket`, `VerdictOnIoctl`, `VerdictOnPrctl`, `VerdictOnPlain`).
3. **The editor.** The byte buffer, fed with the terminal's encoding of any run of keys (history arrows, Tab, Enter and Ctrl-C included) in which no typed
   character is cut by the end of the buffer, holds the byte image of a zipper over whole UTF-8
   characters (`EditorIsTheZipper`; every prefix of a run is a run, so it holds throughout), and what Enter hands out are the characters on the line (`TypedIsHandedOut`). Typing a character keeps it so if and only if there is room for all of it or none (`WholeExactlyWhenItFits`).
4. **The cache.** Each set holds the (at most four) most recently stored distinct flows of its bucket with their latest windows, so an
   entry is found if and only if fewer than four other flows of its bucket were stored since (`Table.Put`, `Table.Get`, `EntryLivesUntilFourOthers`), from either side of the connection (`BothSidesFindTheWindow`).
5. **The statistics.** The accumulators are the tallies of the packets seen, in machine arithmetic, a packet counting with the bytes behind its headers; on flows they can hold,
   the one-pass formula over exact reals is the textbook sample variance, and lengths and times are conserved
   (`FlowRecord.Account`, `SampleVarIsVariance`, `RecordIsConserved`, `GapsFillTheDuration`, `FeatureExtract`). How long a flow may last before its gap squares wrap is
   known to the nanosecond (`ShortFlowsAreExact`, `LongestIsSharp`).
6. **Abbreviations.** Resolution is idempotent, independent of registration order, and fails exactly on ambiguity
   (`ResolveIsIdempotent`, `OrderDoesNotMatter`, `FailsExactlyWhenAmbiguous`). The 512-byte result buffer is part of the model: what is written is the resolved text
   if and only if that has at most 511 characters (`ExactWhenItFits`), and the lines that make the resolver write behind its buffer are known exactly (`AnswerOverrunsExactly`).
7. **Round trips and runs.** Netlink requests read back (`RoundTrip`), and on any bytes it is known when the parser's reads stay inside (`ParseTuple`);
   the lines served from a drained batch are its lines, and its unfinished rest goes to the edit line or is dropped by its raw length (`Paste.ServeBatch`, `FragmentSurvives`);
   the key/value buffer is a bounded map, which survives being saved exactly when its entries are plain and their text is no longer than the save buffer (`Buffer.Set`, `SaveThenLoad`),
   and the two readers of that text agree on a key under an exact condition (`ReadersAgree`); the entry commands keep their consistency rules over whole runs exactly when none of them is one
   of two named commands (`PolicyRunsExactly`, `SslRunsExactly`).

Where the code differs from what is written about it, the model follows the code:

- `src/userspace/cli/cli_readline.c:72` calls the paste buffer 32 KiB; its size is 512 * 8 = 4096 bytes.
- `unset inspection-mode` does not re-scope an SSL profile, so a profile with protecting-server fields is left inconsistent, and only then (`SslStep`, `FieldsCanBeStranded`); setting the mode again repairs it (`SetModeRepairs`).

Properties that fail, with the exact condition:

- `src/userspace/cli/cli_readline.c:1115-1155` writes the separating space and the terminator of the resolved command without a test. On a line without an ambiguity in reach whose
  words fill the 512-byte buffer to its last byte with a word still to come, it writes behind the buffer (`AnswerOverrunsExactly`); the line reader hands out up to 511 characters,
  and 508 are enough (`ALineThatOverruns`). A resolved command of more than 511 characters that does not fill the buffer exactly loses words instead (`WhatIsWritten`).
- All callers of `kv_serialize` ignore its result and send what `strlen` finds in a 2048-byte buffer (`src/userspace/cli/cli_configure.c:785`, `src/userspace/cli/cli_configure.c:1249`, `src/userspace/cli/cli_configure.c:1344`, `src/userspace/cli/cli_configure.c:1410`, `src/userspace/cli/cli_configure.c:2129`).
  A longer text is therefore saved cut: the next value loses its end and the later entries are lost (`CutReadsBack`). Nothing is lost if and only if the text of the entries is at most as long as the buffer (`SaveThenLoad`);
  five fields of the update schedule with values of 398 characters are enough (`LongScheduleIsCut`). With no entries at all the buffer is not written, and what stood there is sent (`Save`).
- The tuple parser reads two or four bytes of an attribute whatever its length. It reads behind its region if and only if fewer bytes follow the attribute than it lacks (`FieldExactly`), as in a message of twelve bytes that ends with an empty source address (`MissingAddressLeavesTheRegion`).
- Setting `ips-profile` in the last free slot of the buffer drops the toggle silently, and that is the only command that breaks the rule (`PolicyStep`). It needs a loaded policy whose
  held and registered keys are together more than 64 (`RoomForTheToggle`); the registry knows fifteen keys of a policy (`src/userspace/common/sg_validate.c:213-235`), so dozens of others must have been saved with it (`LastSlotCanBeTaken`).
- A key of 64 characters or more is stored cut by `kv_set` but compared whole, so keys stay distinct if and only if the key is shorter, the buffer is full, or its first 63 characters are not held (`SetKeepsKeysDistinct`).
  No present caller passes such a key: it is a literal or comes from a 64-byte field and has been matched against the registry (`src/userspace/cli/cli_configure.c:950`, `src/userspace/cli/cli_configure.c:977`).
- Two readers of the same text give different values for a repeated key (`RepeatedKeysDisagree`), and agree exactly as `ReadersAgree` says.
- The clamp of a gap keeps one square within 64 bits, as `src/modules/pkt_forward.c:237-240` says; the running sum of squares is exact for every ordered flow shorter than 2^32 - 1 + 92682 microseconds and not for every longer one (`LongestIsSharp`).
- After the cache's 32-bit stamp has wrapped, a full set may lose its newest entry (`WrappedStampEvictsTheNewest`): the entry that goes is the one whose last store, reduced to 32 bits, comes first (`EvictsExactly`). If the stores that the set holds lie within 2^32 of the oldest, that is the oldest if and only if the counter has not wrapped between them (`EvictsTheOldestWithinARound`). That a window returned is the latest one for its flow holds at every stamp (`Table.Get`).

Assumptions about the surroundings, written as preconditions: clock readings are positive, and for the timing results they never go
back (the hook reads the clock before it takes the flow's lock, `src/modules/pkt_forward.c:206-209`). A callback of the matcher is represented by the number of its first non-zero answer (0: it never stops the scan).

## Model

| member | source | states |
|---|---|---|
| AcTheory.LongestIsTheLongestSuffix | src/userspace/ipsd/ac.c:120-129 | the string that a failure walk stands for is a suffix and no trie path that is a suffix is longer |
| AcTheory.LongestStep | src/userspace/ipsd/ac.c:214-219 | reading one more byte needs only the longest suffix found so far, not the text before it |
| AcTheory.LongestChunk | src/userspace/ipsd/ac.c:230-256 | the same for a whole chunk, which is why a node index is enough carried state |
| AcTheory.HitsAreExactlyTheSuffixPatterns | src/userspace/ipsd/ac.c:220-225 | what is due at a position is every non-empty pattern that is a suffix there, each once, longest first, under its id |
| AcTheory.HitsOfLongest | src/userspace/ipsd/ac.c:220-225 | the current node decides what ends here; the text it forgot does not matter |
| AcTheory.HitsViaLongestHit | src/userspace/ipsd/ac.c:160-163 | jumping straight to the longest hit, as output links do, loses no report |
| AcTheory.ScanConcat | src/userspace/ipsd/ac.c:230-256 | the reports of a text are those of its front followed by those of its rest at shifted offsets |
| AcTheory.ScanFromLongest | src/userspace/ipsd/ac.c:235-246 | a scan started from the node of the longest suffix reports what a scan with the whole past would |
| AcTheory.ScanReportsExactlyTheOccurrences | src/userspace/ipsd/ac.c:208-228 | the reports are exactly the pairs (pattern, position) where the pattern ends, ordered by position and then longest first, each with its id and offset |
| CaseFold.FoldsAlike | src/userspace/ipsd/ac.c:31-33 | normalising makes two texts equal if and only if they have the same length and differ at most in the case of letters A-Z, and not at all without folding |
| CaseFold.ReportsUpToCase | src/userspace/ipsd/ac.c:102-228 | on the bytes as given: addition k is reported at i exactly when no later addition has the same text and its pattern ends there, both up to letter case when folding, once each and in order |
| AcTrie.BGoto | src/userspace/ipsd/ac.c:70-79 | the binary search answers the edge on the byte, and -1 exactly when there is none |
| AcTrie.BEdgeAdd | src/userspace/ipsd/ac.c:82-100 | the list stays strictly sorted and gains exactly the new edge |
| AcTrie.LookupSpells | src/userspace/ipsd/ac.c:70-79 | a lookup succeeds exactly when the longer string is a trie path, and lands on its node |
| AcTrie.SameWordSameNode | src/userspace/ipsd/ac.c:102-118 | distinct nodes spell distinct strings |
| AcTrie.LongerByOneIsChild | src/userspace/ipsd/ac.c:102-118 | a node spelling one more byte hangs from that node by an edge on that byte |
| AcTrie.ExtendKeepsShape | src/userspace/ipsd/ac.c:107-115 | growing the trie by a node keeps sorted edges, tree structure and distinct spellings |
| AcLinks.BGotoFail | src/userspace/ipsd/ac.c:122-129 | the walk lands on the longest suffix of the extended string that is a trie path, using only links of shallower nodes, which are set |
| AcLinks.MissedEdge | src/userspace/ipsd/ac.c:122-129 | after a missing edge nothing is lost by going on from the failure node |
| AcLinks.FailOfChild | src/userspace/ipsd/ac.c:150-159 | a child's failure string is reached from its parent's failure string |
| AcLinks.ChildLinks | src/userspace/ipsd/ac.c:150-164 | fail and out_link of a child computed from its failure node are the right ones |
| AcLinks.QueuePush | src/userspace/ipsd/ac.c:152-164 | the queue gains a node that was not in it, keeps depth order and stays within the nodes discovered so far |
| AcLinks.LevelComplete | src/userspace/ipsd/ac.c:148-165 | every node no deeper than the one being expanded is already queued, so its links are set |
| AcLinks.QueueComplete | src/userspace/ipsd/ac.c:148-165 | when the queue runs empty every node has been queued |
| AcLinks.LinkRootChildren | src/userspace/ipsd/ac.c:139-147 | the depth-one loop links and queues the root's children without overrunning the queue |
| AcLinks.LinkChildren | src/userspace/ipsd/ac.c:150-164 | one turn of the main loop links and queues all children of the node taken |
| AcLinks.ComputeLinks | src/userspace/ipsd/ac.c:135-165 | fail is the longest proper suffix that is a path, out_link the nearest output; every non-root node is queued exactly once, in depth order, within n_nodes |
| AhoCorasick.Freeze | src/userspace/ipsd/ac.c:167-193 | each node's run in the flat array is its build-time list, the array is exactly full, the links are untouched |
| AhoCorasick.Grow | src/userspace/ipsd/ac.c:110-114 | a new node spells its parent's string and the byte, and no other node changes meaning |
| AhoCorasick.Insert | src/userspace/ipsd/ac.c:107-116 | the walk ends on the node spelling the normalised pattern; only prefixes of it were added |
| AhoCorasick.InsertPattern | src/userspace/ipsd/ac.c:102-118 | afterwards the outputs are those of the pattern map updated at the normalised pattern |
| AhoCorasick.Goto | src/userspace/ipsd/ac.c:196-206 | the runtime search over the flat array agrees with the build-time lookup for every node and byte |
| AhoCorasick.Advance | src/userspace/ipsd/ac.c:214-219 | one byte moves to the longest suffix that is a path; hops plus new depth are at most old depth plus one |
| AhoCorasick.Emit | src/userspace/ipsd/ac.c:220-225 | the output walk reports everything that ends here, in order, cut exactly at the callback's first non-zero answer |
| AhoCorasick.ScanByte | src/userspace/ipsd/ac.c:239-253 | one byte of the loop: the next state and the reports so far, or the reports up to the one that stopped the scan |
| AhoCorasick.DueAtNode | src/userspace/ipsd/ac.c:220-225 | what ends at a node is its own output and then what ends at its output link, which is shallower |
| AhoCorasick.ScanChunk | src/userspace/ipsd/ac.c:239-255 | reports, bytes read up to the stopping report, final state and total hops of the scanning loop from any node |
| AhoCorasick.NextChunk | src/userspace/ipsd/ac.c:230-256 | a chunk scanned from the carried state continues the scan of everything seen |
| AhoCorasick.Automaton.constructor | src/userspace/ipsd/ac.c:63-67 | a fresh automaton holds no pattern and is not built |
| AhoCorasick.Automaton.AddPattern | src/userspace/ipsd/ac.c:102-118 | -1 exactly when frozen, empty or negative id, and then nothing changes; else the addition is recorded and the pattern map updated |
| AhoCorasick.Automaton.Build | src/userspace/ipsd/ac.c:131-193 | the automaton becomes searchable for the same patterns; a second build changes nothing |
| AhoCorasick.Automaton.SearchStream | src/userspace/ipsd/ac.c:230-256 | from any carried state: reports, returned count, hop bound and the state after the bytes read, which end with the stopping report; an unusable state means the root; -1 when not built |
| AhoCorasick.Automaton.Search | src/userspace/ipsd/ac.c:208-228 | the reports of a whole text are the occurrences, up to letter case when folding, of the additions that stand, cut where the callback says stop; the count returned, and at most one hop per byte; -1 when not built |
| AhoCorasick.Automaton.SearchChunks | src/userspace/ipsd/ac.c:230-256 | every division of a text into chunks reports the occurrences in the whole, as one scan of it does, and ends in the state of the whole |
| IwinCache.RecentIsTheRecencyOrder | src/userspace/ipsd/ml_scan.c:67-103 | the reference list holds exactly the flows of a bucket ever stored, once each, by decreasing last store |
| IwinCache.LastStoreIsTheLast | src/userspace/ipsd/ml_scan.c:95-101 | the last store of a flow is of that flow and none behind it is |
| IwinCache.TopAfterRefresh | src/userspace/ipsd/ml_scan.c:80-85 | storing a held flow moves it to the front and loses no other |
| IwinCache.TopAfterReplace | src/userspace/ipsd/ml_scan.c:86-101 | storing a new flow pushes it in front and drops the fourth, if there is one |
| IwinCache.ChooseWay | src/userspace/ipsd/ml_scan.c:73-94 | the scan picks the way already holding the flow, else the first free one, else one with the smallest stamp |
| IwinCache.OldestIsLast | src/userspace/ipsd/ml_scan.c:88-91 | in a full set the smallest stamp marks the least recently stored flow |
| IwinCache.StoreRow | src/userspace/ipsd/ml_scan.c:95-101 | overwriting the chosen way leaves the set holding the reference list after the store |
| IwinCache.OtherRow | src/userspace/ipsd/ml_scan.c:71-73 | a store does not disturb the other sets |
| IwinCache.Table.constructor | src/userspace/ipsd/ml_scan.c:51-52 | the zeroed table of 16384 sets of four ways stands for no stores |
| IwinCache.Table.Install | src/userspace/ipsd/ml_scan.c:95-101 | one way is overwritten and every other way of the table keeps its entry |
| IwinCache.Table.Put | src/userspace/ipsd/ml_scan.c:67-103 | at every stamp: each set holds distinct flows with their latest windows, the one just stored among them; until the stamp wraps, exactly the most recent flows of its bucket; a negative window is ignored |
| IwinCache.Table.Lookup | src/userspace/ipsd/ml_scan.c:106-118 | the latest window of a flow its set holds, else -1; until the stamp wraps the flows held are those of the reference |
| IwinCache.Table.Get | src/userspace/ipsd/ml_scan.c:120-132 | the latest window of the flow, else of its reverse, never a stale one; until the stamp wraps, what the log of stores answers, and -1 exactly when neither is among the most recent |
| IwinCache.EntryLivesUntilFourOthers | src/userspace/ipsd/ml_scan.c:67-103 | after any later stores a flow is found if and only if fewer than four other flows of its bucket were among them |
| IwinCache.BothSidesFindTheWindow | src/userspace/ipsd/ml_scan.c:120-132 | after a store for (proto, a, b, x, y) both that tuple and (proto, b, a, y, x) are answered with its window until the bucket has seen four other flows, if the reply tuple was never stored itself |
| IwinCache.HashSamples | src/userspace/ipsd/ml_scan.c:55-65 | the sets of the all-zero flow and of one with five different fields, worked out |
| IwinCache.EvictsExactly | src/userspace/ipsd/ml_scan.c:88-101 | in a full set, at every state of the counter, a new flow takes the place of an entry if and only if its last store, reduced to 32 bits, comes first |
| IwinCache.EvictsTheOldestWithinARound | src/userspace/ipsd/ml_scan.c:88-101 | if the stores a full set holds lie within 2^32 of the oldest, the oldest entry goes if and only if the counter has not wrapped between them |
| IwinCache.WrappedStampEvictsTheNewest | src/userspace/ipsd/ml_scan.c:88-101 | four stores into an unused set, the last as the counter wraps, lead to a set in which the newest entry is the next to go |
| FlowAccounting.WrapAdd | src/modules/pkt_forward.c:227-229 | reducing a machine word at every step is reducing the whole sum once |
| FlowAccounting.PayloadFits | src/modules/pkt_forward.c:188-204 | the clamped payload length fits 16 bits whatever the headers claim |
| FlowAccounting.PayloadByConstruction | src/modules/pkt_forward.c:188-204 | a packet of an IP header of ihl words, a transport header (doff words for TCP, 8 bytes for UDP and ICMP, none otherwise) and n bytes has payload n; headers that claim more than there is leave 0 |
| FlowAccounting.GapByClock | src/modules/pkt_forward.c:244-248 | the gap is the whole microseconds between two readings of a 64-bit nanosecond clock, or 2^32 - 1 when at least that many passed |
| FlowAccounting.LeastIsTheLeast | src/modules/pkt_forward.c:249-250 | the minimum kept is a sample below all others, or the limit |
| FlowAccounting.MostIsTheGreatest | src/modules/pkt_forward.c:272-273 | the maximum kept is a sample above all others, or 0 without one |
| FlowAccounting.AccountLength | src/modules/pkt_forward.c:225-235 | length sum, square sum, count and per-direction totals stay the tallies of the packets seen; a packet with n bytes behind its headers adds n to the sum and to its direction, in 64 bits |
| FlowAccounting.AccountTime | src/modules/pkt_forward.c:237-254 | gap sum, square sum, count, minimum, first and last reading stay those of the packets seen, and change by the microseconds since the last reading |
| FlowAccounting.AccountFwdTime | src/modules/pkt_forward.c:256-268 | the same for gaps between original-direction packets |
| FlowAccounting.AccountFlags | src/modules/pkt_forward.c:274-284 | each flag counter stays the number of TCP packets carrying the flag, and changes by its own flag |
| FlowAccounting.AccountOpening | src/modules/pkt_forward.c:211-224 | the interfaces are those of the first original packet with recordable ones, the window that of the first original SYN with one |
| FlowAccounting.AccountExtremes | src/modules/pkt_forward.c:270-284 | of a direction: the shortest and longest payload, and exactly the TCP flags seen |
| FlowAccounting.FlowRecord.Account | src/modules/pkt_forward.c:170-286 | all fields together stay those of the extended history, and each changes as the packet's bytes, clock reading, flags, window and interfaces say |
| FlowFeatures.LengthsAreConserved | src/modules/pkt_forward.c:225-254 | bytes of both directions add up to the total, packets to the count, and there is one gap fewer than packets |
| FlowFeatures.RecordIsConserved | src/modules/pkt_forward.c:225-254 | on the record, in machine arithmetic, for every flow: pktlen_sum is bytes_fwd plus bytes_bwd, and the packet count is the gap count plus one |
| FlowFeatures.GapsFillTheDuration | src/modules/pkt_forward.c:237-254 | 1000 times the gap sum never exceeds last minus first reading, and falls short by under 1000 ns a gap when no gap was clamped |
| FlowFeatures.WithinTheClamp | src/modules/pkt_forward.c:237-248 | no gap of an ordered flow that lasts less than 2^32 microseconds is clamped |
| FlowFeatures.DirectionLiesWithin | src/modules/pkt_forward.c:256-268 | the original direction of an ordered flow is ordered and lies within it |
| FlowFeatures.SquaresWithinTheSquare | src/modules/pkt_forward.c:246-248 | the gap square sum is at most the square of the gap sum |
| FlowFeatures.LengthSumsAreBounded | src/modules/pkt_forward.c:227-229 | square sum at most 65535 squared per packet, and below 2^64 while the count has not wrapped |
| FlowFeatures.SquaresAreAtMost | src/modules/pkt_forward.c:240-248 | among clamped gaps with a given sum, the square sum is largest when one gap is as long as can be |
| FlowFeatures.ShortFlowsAreExact | src/modules/pkt_forward.c:225-268 | on ordered flows of fewer than 2^32 packets lasting less than 2^32 - 1 + 92682 microseconds no accumulator wraps |
| FlowFeatures.LongestIsSharp | src/modules/pkt_forward.c:237-248 | a three-packet flow of exactly that length wraps the square sum |
| FlowFeatures.SqDistExpands | src/userspace/ipsd/feature.c:35-43 | squared distances from any centre in terms of sum, square sum and count |
| FlowFeatures.SampleVarIsVariance | src/userspace/ipsd/feature.c:35-43 | the one-pass formula equals the sum of squared distances from the mean over n - 1 |
| FlowFeatures.ClampNeverActs | src/userspace/ipsd/feature.c:35-43 | over exact reals the clamp at 0 has nothing to do |
| FlowFeatures.OnePassOnFields | src/userspace/ipsd/feature.c:35-43 | the formula on any sum, square sum and count: v n (n - 1) = n q - s s where that is positive, else 0 |
| FlowFeatures.DurationOnFields | src/userspace/ipsd/feature.c:95-96 | Flow Duration times 1000 is the nanoseconds between the readings, 0 when they go back |
| FlowFeatures.TimingFeatures | src/userspace/ipsd/feature.c:55-68 | on any flow: the formulas on the reduced sums of its gaps, minimum and duration; deviations and mean of the gaps wherever the sums have not wrapped |
| FlowFeatures.SizeFeatures | src/userspace/ipsd/feature.c:70-81 | on any flow the formulas on the reduced sums of its lengths; on fewer than 2^32 packets variance, deviations, means and totals of the lengths |
| FlowFeatures.FeatureExtract | src/userspace/ipsd/feature.c:51-102 | the whole vector, index by index, as statistics of the accounted packets and as quotients of the record's fields; on ordered flows Flow IAT Mean times the gap count is at most Flow Duration |
| Seccomp.ExecIsRun | src/userspace/cli/cli_sandbox.c:277-397 | jumps are relative and forward, so executing by program counter is running what is left of the program |
| Seccomp.AllowsRuns | src/userspace/cli/cli_sandbox.c:213-215 | a list of plain allows returns ALLOW on its members and falls through with the accumulator intact |
| Seccomp.LadderRuns | src/userspace/cli/cli_sandbox.c:325-331 | comparisons with decreasing jump counts all land on the same ALLOW |
| Seccomp.GuardedLadderRuns | src/userspace/cli/cli_sandbox.c:322-333 | a guarded ladder decides on one argument word and its guard skips exactly to the next block |
| Seccomp.SocketRuns | src/userspace/cli/cli_sandbox.c:298-309 | socket passes only as AF_UNIX with masked type SOCK_STREAM, and the next block sees the call number again |
| Seccomp.IoctlRuns | src/userspace/cli/cli_sandbox.c:318-333 | ioctl gets a final answer: six commands pass, others get the default |
| Seccomp.NoExecRuns | src/userspace/cli/cli_sandbox.c:337-353 | mmap or mprotect gets a final answer on PROT_EXEC |
| Seccomp.PrctlRuns | src/userspace/cli/cli_sandbox.c:375-382 | three prctl operations pass, the rest goes on with the call number reloaded |
| Seccomp.PrologueRuns | src/userspace/cli/cli_sandbox.c:278-284 | a foreign architecture is killed; otherwise the body starts with the call number loaded |
| Seccomp.BlocksMeetThePolicy | src/userspace/cli/cli_sandbox.c:151-190 | the blocks' answers in table order are the declarative allowlist |
| Seccomp.FilterComputesPolicy | src/userspace/cli/cli_sandbox.c:277-397 | for every record, build mode and initial accumulator, execution ends in a return with the policy's verdict |
| Seccomp.ArgumentsLieInOrder | src/userspace/cli/cli_sandbox.c:217-240 | the words the filter loads: number, architecture, instruction pointer and six little-endian arguments from offset 16 on |
| Seccomp.VerdictOnMapping | src/userspace/cli/cli_sandbox.c:278-353 | an architecture other than 0xC00000B7 is killed; calls 222 and 226 pass if and only if bit 4 of the third argument is clear |
| Seccomp.VerdictOnSocket | src/userspace/cli/cli_sandbox.c:298-309 | call 198 passes if and only if its domain is 1 and the low byte of its type is 1 |
| Seccomp.VerdictOnIoctl | src/userspace/cli/cli_sandbox.c:318-333 | call 29 passes with exactly the commands 0x5401 to 0x5404, 0x540B and 0x5413 |
| Seccomp.VerdictOnPrctl | src/userspace/cli/cli_sandbox.c:375-382 | call 167 passes with exactly the operations 15, 21 and 39 |
| Seccomp.VerdictOnPlain | src/userspace/cli/cli_sandbox.c:151-396 | of all other calls exactly the 34 listed numbers pass, whatever their arguments |
| NetlinkFormat.FindAttr | src/userspace/ipsd/ctdump.c:71-88 | on any bytes the walk ends, stays in bounds, and finds the first well-formed attribute of the wanted type exactly when there is one |
| NetlinkFormat.FoundWhereItLies | src/userspace/ipsd/ctdump.c:71-88 | the position computed from the lengths walked over is where the payload found stands in the region |
| NetlinkFormat.AttrInFront | src/userspace/ipsd/ctdump.c:71-110 | a written attribute in front of anything is walked first, with its masked type and payload, and the walk goes on behind its padding |
| NetlinkFormat.WalkReadsEncodedBack | src/userspace/ipsd/ctdump.c:71-110 | any list of attributes, written and walked, reads back in order |
| NetlinkFormat.FindInFront | src/userspace/ipsd/ctdump.c:71-110 | the reader finds a written attribute or goes on behind its padding |
| NetlinkFormat.Be32RoundTrips | src/userspace/ipsd/ctdump.c:221-224 | network byte order is undone on reading |
| NetlinkFormat.HeaderFields | src/userspace/ipsd/ctdump.c:76-80 | the length is the first two bytes of a header, low one first, the type the next two without their two top bits |
| Ctdump.PutRaw | src/userspace/ipsd/ctdump.c:91-110 | appends the padded attribute, its length cut to 16 bits, or -1 exactly when it does not fit |
| Ctdump.NestStart | src/userspace/ipsd/ctdump.c:113-122 | appends a nested header, or -1 exactly when it does not fit |
| Ctdump.NestEnd | src/userspace/ipsd/ctdump.c:124-128 | patching the length makes the written bytes one nested attribute |
| Ctdump.PutIp | src/userspace/ipsd/ctdump.c:218-226 | appends the address nest, or -1 exactly when it does not fit |
| Ctdump.PutProto | src/userspace/ipsd/ctdump.c:228-239 | appends the protocol nest, with ports for TCP and UDP only |
| Ctdump.PutTuple | src/userspace/ipsd/ctdump.c:214-240 | appends the whole tuple nest |
| Ctdump.BuildCtGet | src/userspace/ipsd/ctdump.c:197-251 | -1 exactly when the buffer has fewer than 72 (TCP, UDP) or 56 bytes, else the length, with every byte of the message written out |
| Ctdump.RequestOnTheWire | src/userspace/ipsd/ctdump.c:197-251 | the 72 or 56 bytes of a request written out: message type 0x0101, flags 1, sequence 1, family 2, the nests and their numbers, values in network byte order |
| Ctdump.RequestReadsBack | src/userspace/ipsd/ctdump.c:319-348 | looking up the nests of a request gives the nests that were written |
| Ctdump.FullWidthIsInside | src/userspace/ipsd/ctdump.c:319-348 | if every attribute is at least as long as the parser reads, no read leaves the region |
| Ctdump.RequestFields | src/userspace/ipsd/ctdump.c:197-348 | the fields the parser reads from a request are the values of its tuple |
| Ctdump.ParseTuple | src/userspace/ipsd/ctdump.c:319-348 | on any bytes: -1 exactly without a tuple; each field is the fixed number of bytes at the first attribute of its type, or zero; the reads stay inside the region exactly when no field reaches behind its end |
| Ctdump.FieldExactly | src/userspace/ipsd/ctdump.c:327-345 | a field comes from its own attribute if and only if that is as wide as the read; the read leaves the region if and only if fewer bytes follow the attribute than it lacks |
| Ctdump.MissingAddressLeavesTheRegion | src/userspace/ipsd/ctdump.c:327-334 | a message of one source address attribute is read within its bytes if and only if the address is not missing |
| Ctdump.RoundTrip | src/userspace/ipsd/ctdump.c:197-348 | every five-tuple fits 512 bytes and is parsed back, ports as zero when the protocol has none |
| PasteBuffer.LinesFromSplit | src/userspace/cli/cli_readline.c:210-248 | the lines of a stream cut anywhere: the unfinished line carries over |
| PasteBuffer.OneLine | src/userspace/cli/cli_readline.c:210-248 | a stretch and its CR, LF or CR-LF make one line, stripped and cut, or none if blank |
| PasteBuffer.Paste.Compact | src/userspace/cli/cli_readline.c:172-181 | the unread bytes move to the front unchanged |
| PasteBuffer.Paste.Drain | src/userspace/cli/cli_readline.c:167-199 | the bytes taken are appended to the waiting ones, none lost or reordered, and all of them are taken if no read fails and they fit |
| PasteBuffer.Paste.FindEol | src/userspace/cli/cli_readline.c:213-222 | the first CR or LF, or -1 exactly without one |
| PasteBuffer.Paste.StepOver | src/userspace/cli/cli_readline.c:226-239 | moves past one line end, a CR-LF pair counting as one, and serves at most that line |
| PasteBuffer.Paste.ExtractLine | src/userspace/cli/cli_readline.c:210-248 | over any interleaving of drains and extractions the lines served are exactly the lines of all bytes drained, in order; without a line the buffer holds no line end |
| PasteBuffer.Paste.TakeFragment | src/userspace/cli/cli_readline.c:1197-1217 | the caller empties the buffer: the unfinished line goes, stripped, to the edit line if its raw length is below 511 and is dropped otherwise |
| PasteBuffer.Paste.ServeBatch | src/userspace/cli/cli_readline.c:1188-1217 | one batch as the program serves it: the lines of the drained bytes, then the unfinished rest for the edit line, and an empty buffer before the next drain |
| PasteBuffer.FragmentSurvives | src/userspace/cli/cli_readline.c:1202-1215 | a fragment reaches the edit line if and only if it has fewer than 511 raw bytes and is not all blanks |
| PasteBuffer.PastedComesOut | src/userspace/cli/cli_readline.c:210-248 | pasted lines, with any blanks in front and any of the three line ends, come out as their texts in order, blank ones left out and of a text of 512 bytes or more the first 511 |
| Assoc.LookupIsMap | src/userspace/cli/cli_configure.c:57-64 | linear search in a list with distinct keys is lookup in the map it stands for |
| Assoc.PutIsUpdate | src/userspace/cli/cli_configure.c:66-83 | overwrite-or-append is map update, except for a new key when full |
| Assoc.RemoveIsDelete | src/userspace/cli/cli_configure.c:85-96 | shifting down is map deletion |
| KvText.WrittenReadsBack | src/userspace/cli/cli_configure.c:99-159 | reading the text of some entries into a buffer appends exactly those entries |
| KvText.AssignsMeansAssignment | src/userspace/common/sg_validate.c:275-299 | for a key without '=' the two readers agree on which lines assign it |
| KvText.BufferTakesTheLast | src/userspace/cli/cli_configure.c:99-144 | for any text, parse-then-get gives the clipped last value of a key if there was a slot at its first mention, and nothing otherwise |
| KvText.ReadersAgree | src/userspace/common/sg_validate.c:275-299 | for any text, the two readers agree on a key if and only if it is not mentioned, or there was a slot and its clipped last value is its first |
| KvText.MentionedOnce | src/userspace/common/sg_validate.c:275-299 | a key mentioned once has one value, first and last |
| KvText.RepeatedKeysDisagree | src/userspace/common/sg_validate.c:275-299 | a text of two lines that give a key two values: the text reader takes the first, the buffer the last, clipped |
| KvText.LookupAfterLine | src/userspace/cli/cli_configure.c:99-144 | how one line changes the lookup of any key |
| KvText.UnmentionedStays | src/userspace/cli/cli_configure.c:99-144 | lines that do not assign a key leave its value alone |
| KvBuffer.Buffer.Get | src/userspace/cli/cli_configure.c:57-64 | lookup in the map |
| KvBuffer.Buffer.Set | src/userspace/cli/cli_configure.c:66-83 | for a key of any length: matched whole, stored cut, -1 exactly for a new key when 64 are held; map update for keys below 64 characters; the keys stay distinct if and only if the key is settable |
| KvText.SetKeepsKeysDistinct | src/userspace/cli/cli_configure.c:66-83 | setting a key keeps the keys distinct if and only if it has fewer than 64 characters, or the buffer is full, or its first 63 characters are not held |
| KvBuffer.Buffer.Unset | src/userspace/cli/cli_configure.c:85-96 | map deletion; modified exactly when the key was there |
| KvBuffer.Buffer.Parse | src/userspace/cli/cli_configure.c:99-144 | the buffer after reading a text is the fold of its lines; keys stay distinct and below 64 characters, values below 512 |
| KvText.ParsedIsPlain | src/userspace/cli/cli_configure.c:99-144 | whatever the text, only pairs that survive the format are read from it |
| KvBuffer.Buffer.Serialize | src/userspace/cli/cli_configure.c:147-159 | the length of the lines that fit, and the string left in the buffer: the text of all entries cut at its end; with no entries the buffer is untouched |
| KvBuffer.Save | src/userspace/cli/cli_configure.c:784-789 | what the callers send: the text of the entries cut at the end of the save buffer, or what stood there when there are none |
| KvText.CutReadsBack | src/userspace/cli/cli_configure.c:99-159 | reading a cut text of plain entries gives the whole lines, and of the next entry the key with the rest of its value if its equals sign is left |
| KvText.KeptIsAll | src/userspace/cli/cli_configure.c:147-159 | a cut text keeps everything if and only if at most its last line end is missing |
| KvBuffer.SaveThenLoad | src/userspace/cli/cli_configure.c:99-159 | saving and loading gives a buffer back if and only if its entries are plain (no empty key, no equals sign in a key, no line end) and their text is at most as long as the save buffer |
| KvBuffer.ReturnedLengthReadsBack | src/userspace/cli/cli_configure.c:147-159 | of the returned length alone: it gives back the entries it holds if and only if they are plain |
| KvBuffer.KvGet | src/userspace/common/sg_validate.c:275-299 | the value of the first line assigning the key, cut to the output, else empty |
| KvText.LongKeysDuplicate | src/userspace/cli/cli_configure.c:66-83 | any key of 64 characters or more, set twice, is stored twice |
| ConfigEntry.CheckSet | src/userspace/cli/cli_configure.c:971-1061 | exactly the commands the policy of checks accepts get through |
| ConfigEntry.OutOfScope | src/userspace/cli/cli_configure.c:1079-1087 | lists exactly the held keys that the mode does not allow |
| ConfigEntry.Rescope | src/userspace/cli/cli_configure.c:1077-1092 | what is left is exactly the allowed part of the configuration |
| ConfigEntry.ExecuteSet | src/userspace/cli/cli_configure.c:971-1099 | the buffer after `set` is the map after `set` |
| ConfigEntry.Execute | src/userspace/cli/cli_configure.c:971-1138 | the buffer refines the map under every command, and stays one that survives being saved |
| ConfigEntry.SetLeaves | src/userspace/cli/cli_configure.c:971-1065 | `set` is refused under exactly the listed conditions and then changes nothing; otherwise it puts the first 511 characters under its key and, but for two keys, nothing else changes |
| ConfigEntry.SetProfileLeaves | src/userspace/cli/cli_configure.c:1093-1099 | `set ips-profile` on a policy also puts `ips-status` to `enable` if there is a slot for it |
| ConfigEntry.SetModeLeaves | src/userspace/cli/cli_configure.c:1071-1092 | `set inspection-mode` keeps exactly the keys that are not fields of the other mode, with their values |
| ConfigEntry.UnsetLeaves | src/userspace/cli/cli_configure.c:1100-1134 | `unset` takes out its key, on a policy the toggle with the profile, and nothing else; refused under exactly the listed conditions |
| ConfigEntry.PolicyStep | src/userspace/cli/cli_configure.c:1062-1134 | a command keeps "ips-profile present iff ips-status is enable" if and only if it is not a new profile taking the last slot |
| ConfigEntry.LastSlotCanBeTaken | src/userspace/cli/cli_configure.c:1062-1099 | a saved policy with 63 keys outside the registry, loaded and given a profile, loses its toggle |
| ConfigEntry.RoomForTheToggle | src/userspace/cli/cli_configure.c:1096-1099 | with at most 64 held and registered keys together, the toggle among them, that cannot happen |
| ConfigEntry.PolicyRuns | src/userspace/cli/cli_configure.c:987-1134 | over every run of commands on a policy whose held and registered keys are together at most 64, the rule holds |
| ConfigEntry.PolicyRunsExactly | src/userspace/cli/cli_configure.c:987-1134 | on any policy, a run keeps the rule after every command if and only if no command of it takes the last slot for a new profile |
| ConfigEntry.SslStep | src/userspace/common/sg_validate.c:848-872 | a command keeps all held fields allowed if and only if it does not unset the mode of a profile holding a protecting-server field |
| ConfigEntry.SetModeRepairs | src/userspace/cli/cli_configure.c:1077-1092 | an accepted `set inspection-mode` leaves only allowed fields, whatever was held before |
| ConfigEntry.FieldsCanBeStranded | src/userspace/cli/cli_configure.c:1100-1134 | a profile in protecting-server mode with a certificate is left inconsistent by `unset inspection-mode` |
| ConfigEntry.SslRunsExactly | src/userspace/cli/cli_configure.c:987-1134 | a run keeps all held fields allowed after every command if and only if no command of it strands fields |
| ConfigEntry.SslRuns | src/userspace/cli/cli_configure.c:987-1134 | over every run without that unset all held fields stay allowed |
| ConfigEntry.LongScheduleIsCut | src/userspace/cli/cli_configure.c:784-789 | an update schedule with one value in five of its fields survives being saved if and only if the value has at most 397 characters |
| Words.WordCount | src/userspace/cli/cli_readline.c:604-618 | the number of words of the text |
| Words.NthWord | src/userspace/cli/cli_readline.c:620-645 | position and length of exactly the n-th word, or -1 exactly when there is none |
| Words.SplitOfJoin | src/userspace/cli/cli_readline.c:1100-1155 | words joined by single spaces split back into the same words |
| Words.SplitOfSpaced | src/userspace/cli/cli_readline.c:604-645 | the words of a text are found whatever the number of spaces before, between and behind them |
| Abbrev.ResolvedExtends | src/userspace/cli/cli_readline.c:1026-1162 | success keeps the number of words and each word extends what was typed; only a word of more than 63 characters may be cut instead |
| Abbrev.ChosenWord | src/userspace/cli/cli_readline.c:1047-1109 | a registered word is itself, a beginning of only one registered word is that word, and where no registered word starts so there is none |
| Abbrev.BeginningsResolve | src/userspace/cli/cli_readline.c:1026-1162 | a command typed by its words or by unmistakable beginnings of them resolves to that command |
| Abbrev.ResolveIsIdempotent | src/userspace/cli/cli_readline.c:1026-1162 | resolving a resolved command changes nothing |
| Abbrev.FailsExactlyWhenAmbiguous | src/userspace/cli/cli_readline.c:1133-1141 | failure exactly when a chain of choices leads to a word with no exact match and two distinct extensions, and the chain is what had been resolved |
| Abbrev.OrderDoesNotMatter | src/userspace/cli/cli_readline.c:1053-1099 | neither order nor repetition of the registered paths changes the result |
| Abbrev.OfferedWord | src/userspace/cli/cli_readline.c:1054-1080 | the word a path offers after the resolved prefix, if its first words are that prefix |
| Abbrev.Candidates | src/userspace/cli/cli_readline.c:1047-1109 | finds an exact word exactly when there is one, else collects the distinct extensions, cut to 63 characters, up to 64 of them; nothing when the buffer has lost a word |
| AbbrevBuffer.Put | src/userspace/cli/cli_readline.c:1115-1123 | one word into the 512-byte buffer: the space without a test, the word if it fits, and exactly when the terminator has no place left |
| AbbrevBuffer.AppendExactly | src/userspace/cli/cli_readline.c:1115-1123 | a word goes in behind a space while text, space and word have at most 511 characters, else the space alone |
| AbbrevBuffer.PassThrough | src/userspace/cli/cli_readline.c:1142-1157 | the remaining words go into the buffer as they are |
| AbbrevBuffer.ResolveCmd | src/userspace/cli/cli_readline.c:1026-1162 | for every registry, line and output size: -1, the text written, or an overrun of the result buffer, exactly as the bounded resolution answers |
| AbbrevBuffer.ExactWhenItFits | src/userspace/cli/cli_readline.c:1111-1157 | the text written is the resolved command if and only if that has at most 511 characters; an ambiguity is noticed if and only if the words before it fit |
| AbbrevBuffer.WhatIsWritten | src/userspace/cli/cli_readline.c:1111-1157 | in every case: a front of the command resolved by a chain of choices, the rest as typed, word by word into the buffer |
| AbbrevBuffer.RefusesExactly | src/userspace/cli/cli_readline.c:1133-1139 | the resolver refuses if and only if a chain of choices that fits the buffer leads to an ambiguous word |
| AbbrevBuffer.AnswerOverrunsExactly | src/userspace/cli/cli_readline.c:1111-1157 | the buffer is overrun if and only if no ambiguity is in reach and it is full to its last byte with a word still to come |
| AbbrevBuffer.ALineThatOverruns | src/userspace/cli/cli_readline.c:1142-1157 | wherever "conf" stands for `configure` and no word after it starts with z, "conf" and n times " z" overruns it exactly from n = 252 on, at 508 characters typed |
| AbbrevBuffer.OnlyConfigure | src/userspace/common/sg_cmd_defs.h:30 | with `configure` registered alone, "conf" stands for it and no word after it starts with z |
| AbbrevBuffer.ResolvedTextIsStable | src/userspace/cli/cli_readline.c:1026-1162 | a command that resolves to at most 511 characters is answered with that text, and the text typed again gets the same answer |
| Utf8.WellFormedIsShaped | src/userspace/cli/cli_readline.c:1682-1690 | a well-formed character announces its length in its first byte and continues with continuation bytes |
| Utf8.TopBits | src/userspace/cli/cli_readline.c:1682-1690 | continuation bytes and announced lengths by the top bits of a byte, for all 256 of them |
| Utf8.WellFormedIsEncoded | src/userspace/cli/cli_readline.c:1682-1690 | a well-formed sequence is the shortest encoding of its number, which is no surrogate and at most 0x10FFFF |
| Utf8.EncodedIsWellFormed | src/userspace/cli/cli_readline.c:1682-1690 | and the encoding of every such number is well formed and stands for it |
| LineEditor.MovesKeepTheLine | src/userspace/cli/cli_readline.c:1484-1540 | moving the cursor changes no byte of the line |
| LineEditor.Line.CutOut | src/userspace/cli/cli_readline.c:1370-1373 | the bytes between two positions disappear, the rest and the terminator close up |
| LineEditor.Line.AfterChar | src/userspace/cli/cli_readline.c:1367-1370 | the scan stops behind the continuation bytes of the character at the cursor |
| LineEditor.Line.BeforeChar | src/userspace/cli/cli_readline.c:1605-1608 | the scan stops at the first byte of the character before the cursor |
| LineEditor.Line.MoveLeft | src/userspace/cli/cli_readline.c:1512-1539 | the cursor goes back over one character's bytes |
| LineEditor.Line.MoveRight | src/userspace/cli/cli_readline.c:1484-1511 | the cursor goes ahead over one character's bytes |
| LineEditor.Line.DeleteNext | src/userspace/cli/cli_readline.c:1366-1375 | one character's bytes after the cursor disappear |
| LineEditor.Line.Backspace | src/userspace/cli/cli_readline.c:1602-1613 | one character's bytes before the cursor disappear |
| LineEditor.Line.EraseWord | src/userspace/cli/cli_readline.c:1409-1419 | the spaces and then the word before the cursor disappear |
| LineEditor.Line.ReadChar | src/userspace/cli/cli_readline.c:1682-1702 | how many bytes of a typed character are taken: its length, cut by the input and by the room |
| LineEditor.Line.Insert | src/userspace/cli/cli_readline.c:1704-1712 | the bytes go in at the cursor and the tail moves up |
| LineEditor.Line.EscapeKey | src/userspace/cli/cli_readline.c:1425-1600 | bytes read and effect of every escape sequence on the line; the history arrows are passed on |
| LineEditor.Line.ReadKey | src/userspace/cli/cli_readline.c:1315-1743 | one turn of the loop on the line: the zipper after it, the bytes read, and how it ends; Tab and the history arrows are passed on |
| LineEditor.Line.Show | src/userspace/cli/cli_readline.c:1454-1459 | another text replaces the line, the cursor behind it |
| LineSession.Session.constructor | src/userspace/cli/cli_readline.c:1167-1217 | a session starts with the fragment a paste left, at the end of the history, with nothing put aside |
| LineSession.Session.Up | src/userspace/cli/cli_readline.c:1447-1462 | one line back in the history; the line being typed is put aside first |
| LineSession.Session.Down | src/userspace/cli/cli_readline.c:1463-1483 | one line on; behind the newest comes the line put aside |
| LineSession.Session.CompleteLine | src/userspace/cli/cli_readline.c:1643-1665 | the completions of the line, one Tab after the other, round and round |
| LineSession.Session.ReadKey | src/userspace/cli/cli_readline.c:1315-1743 | one turn of the loop: line, history place, line put aside, completion round, bytes read and ending |
| LineSession.Session.Edit | src/userspace/cli/cli_readline.c:1274-1746 | the whole run over any byte stream is that of the zipper session, with 0 <= cursor <= pos < 512 throughout |
| LineSession.Session.ReadLine | src/userspace/cli/cli_readline.c:1167-1746 | the line on Enter, an empty one on Ctrl-C, else the end of input |
| LineSession.EndOfLine | src/userspace/cli/cli_readline.c:1316-1365 | from any state: bytes 13 and 10 end the run with the line unchanged, 3 with an empty line, 4 on an empty line with the end of input, and nothing behind them is read |
| LineSession.CopyStopsAtZero | src/userspace/cli/cli_readline.c:1449-1459 | a line is copied up to its first zero byte and at most 511 bytes of it |
| CharZipper.OneBack | src/userspace/cli/cli_readline.c:1512-1613 | on well-formed text, Left and Backspace move by or remove exactly one character |
| CharZipper.OneAhead | src/userspace/cli/cli_readline.c:1366-1600 | Right and Delete do the same ahead of the cursor |
| CharZipper.EraseOneWord | src/userspace/cli/cli_readline.c:1409-1419 | erasing a word by bytes is erasing whole characters |
| SessionZipper.FullSessionIgnores | src/userspace/cli/cli_readline.c:1680-1681 | a full line drops a typed character byte by byte |
| CharZipper.KeyIsItsBytes | src/userspace/cli/cli_readline.c:1315-1743 | the bytes a key sends do to the line what the key does to its characters |
| CharZipper.ForeignIsIgnored | src/userspace/cli/cli_readline.c:1425-1600 | control bytes and escape sequences without a meaning are read whole and change nothing |
| SessionZipper.KeyIsImage | src/userspace/cli/cli_readline.c:1315-1743 | the same for the whole session, history arrows, Tab, Enter and Ctrl-C included, with how each key ends the run |
| SessionZipper.EditorIsTheZipper | src/userspace/cli/cli_readline.c:1315-1743 | over every run of keys without a cut character, up to the key that ends it, the session is the image of one over characters: the cursor is on a character boundary and every line shown or put aside is well formed |
| SessionZipper.TypedIsHandedOut | src/userspace/cli/cli_readline.c:1315-1323 | any run of keys and then Enter answers with the bytes of the characters on the line |
| SessionZipper.CancelledIsEmpty | src/userspace/cli/cli_readline.c:1325-1334 | and with Ctrl-C in its place with an empty line |
| SessionZipper.HistoryReturns | src/userspace/cli/cli_readline.c:1447-1483 | any number of lines back in the history and forward again brings back the line that was being typed |
| SessionZipper.AfterUps | src/userspace/cli/cli_readline.c:1447-1462 | after n presses of Up from the end the line shown is the n-th newest of the history |
| SessionZipper.AfterTabs | src/userspace/cli/cli_readline.c:1643-1665 | Tab goes through the m completions in order: the press behind q rounds and j more shows number j |
| SessionZipper.WholeExactlyWhenItFits | src/userspace/cli/cli_readline.c:1680-1712 | typing a character leaves whole characters if and only if all of it fits or the line is full |

## Left out

- IwinCache.Table.Get: that exactly the most recent flows are held is stated until the 32-bit stamp wraps; afterwards only that no window is stale.
- ConfigEntry.ExecuteSet: value syntax and the existence of referenced entries are answers carried by the command.
- ConfigEntry.Execute: the same, and the password prompt of administrators is not part of it.
- LineEditor.Line.EscapeKey: the 50 ms wait inside an escape sequence is taken as "the next byte, if there is one".
- LineSession.Session.ReadKey: the same, and how completions are found is a function handed in.
- LineSession.Session.Edit: the same, and the idle callback is not part of it.
- LineSession.Session.ReadLine: the same, and a terminal without raw mode, where the program reads a plain line instead, is not part of it.
- Allocation failure, match callbacks that change the automaton, and the 32-bit node and hit counters of the matcher.
- Update in place of the matcher's node array: nodes and edges are sequence-valued fields that the methods reassign, the breadth-first queue is an array.
- Floating-point rounding and the square root: features are exact reals, the root is any function that squares back.
- Strings hold no NUL byte; C strings end where the Dafny sequence ends.
- Anomaly checks of the hook (including the IP option walk), the score ring, adding a line to the history, host-name and value validators: short loops or decision tables.
- Terminal drawing, sockets, netlink transport, procfs, threads, locks, Landlock and capabilities.

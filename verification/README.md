# LVQR: a verified model

LVQR is a live-video relay. This project models its stateful core and proves properties of it: the DVR segment index,
the stream-key store and the auth chain above it, the webhook decision cache, the agent runner, config reload, the
archive drain, and the parsers and loops around them. One file per component; `dafny verify dfyconfig.toml` checks the
whole project.

Three kinds of model are used.

- **Objects.** What the relay updates in place is a class, with a predicate or an abstract value that every method
  ties to the old one: `RedbSegmentIndex`, `InMemoryStreamKeyStore`, `HotReloadAuthProvider`, `ConfigReloadHandle`,
  `SharedState` (webhook), `RunnerInner`, `SampleBuffer`, `LatencyTracker`.
- **Protocols.** What runs concurrently is a state machine whose steps are the single map, cell or notifier operations
  of the code; theorems quantify over every interleaving (`StreamKeyRaces`, `Webhook`, `Runner`,
  `ReloadRaces`, `ReloadReports`, `Auth`, `Drain`).
- **Codecs.** Each parser has a printer beside it, and a theorem that says which inputs it accepts, in both directions.

## Files

| file | what it models |
|---|---|
| Bytes.dfy, Utf8.dfy, Decimal.dfy, Text.dfy, Base64.dfy | big-endian numbers, lexicographic order, UTF-8, decimal numerals, string operations, URL-safe base64 |
| Segment.dfy | `SegmentRef`, its key codec and its value codec |
| Window.dfy | what a DVR query selects, on sets of rows alone |
| Index.dfy | the redb-backed index: record, range query, latest, summaries |
| Writer.dfy, Drain.dfy, DrainQuery.dfy | archive paths; one drain run with its detached tasks; finalize; DVR queries on what was drained |
| StreamKeys.dfy, StreamKeyRaces.dfy | the stream-key store, one call at a time and interleaved |
| Auth.dfy, ConfigReload.dfy, ReloadRaces.dfy, ReloadReports.dfy, ReloadOverlap.dfy | provider composition and the hot-swap cell; transactional reload, one at a time and interleaved |
| Webhook.dfy | pending map, notifier, batch fetcher, decision cache |
| Runner.dfy | agents attached and removed while sources come and go |
| Boxes.dfy, Asc.dfy | ISO media boxes and MPEG-4 descriptors |
| ByteRange.dfy, SignedUrl.dfy | HTTP ranges on archive files; signed URLs |
| Slo.dfy, Whisper.dfy | latency percentiles; the transcription windowing loop |

## Where code and documentation differ

- `find_range` is documented to return every overlapping segment. It looks at one predecessor of the window only, so it
  misses a row that starts before a later predecessor yet reaches into the window. One query is complete exactly when no
  such row exists (`Window.CompleteIffNoneHidden`); all queries on a stream are complete exactly when no row ends more
  than one tick after a later row starts (`Window.AllWindowsComplete`). Disjoint extents, which the documentation of
  `end_dts` asks for, are enough. `Window.HiddenRowExample` is a stream on which the documented promise fails.
- `rotate` is documented to invalidate the old token at once. With two overlapping rotates of one id, the later one can
  remove the earlier one's token before the earlier one has indexed it, and the replaced token goes on working
  (`StreamKeyRaces.OverlappingRotatesLeaveStaleToken`). Once all calls have returned, the promise holds exactly when no
  removal missed a token whose key lives (`StreamKeyRaces.ReplacedTokensDieIff`). The stronger property that the reverse
  map is exact holds exactly when no removal missed at all (`StreamKeyRaces.ExactInverseIffNoneMissed`); calls that do
  not overlap per id guarantee both.
- `remove_agent` and `add_agent` go wrong in two ways when calls about one agent overlap. A callback that has read the
  factory list spawns a drain for an agent removed meanwhile, and the drain outlives the removal
  (`Runner.LateCallbackOutlivesRemoval`). An agent added again between the two halves of its removal finds its old row,
  spawns nothing, and loses the row (`Runner.ReaddedAgentLosesItsTask`). `Runner.SettledRunsAttachEverything` gives the
  exact condition for each.
- Two overlapping reloads can leave the auth chain of one file with the ICE list and secret of the other
  (`ReloadOverlap.OverlappingReloadsMix`). The live state is that of the last reload to commit exactly when no other
  reload replaced a part after it did, unless with an equal value (`ReloadRaces.LiveIsLastCommittedIff`). The reported
  keys can be off as well; `ReloadReports.ReportIsTrueIff` says exactly when they are not.
- Range headers are read more freely than section 2.1 of RFC 7233 has them. Numerals may have a plus sign and blanks
  around them, and a range whose last position is before its first, which that section calls invalid, is answered as
  unsatisfiable rather than ignored. `ByteRange.WrittenByTheRfcIff` says exactly which headers that leaves. On an empty
  file even a range with malformed numerals is unsatisfiable (`ByteRange.EmptyFileIff`); so is a suffix range, which the
  section counts as satisfiable when its length is not zero.
- `list_summaries` adds up counts and bytes in `u64`; the model wraps them, as a release build does.
- A live signed URL is said to open any URL under the broadcast's tree. The broadcast is taken to be everything up to
  the last slash, so the suffix opens the URLs one level below it (`SignedUrl.SignedSuffixOpensTree`) and is refused on
  every deeper one unless the MAC collides (`SignedUrl.DeeperUrlsAreRefused`). `SignedUrl.SuffixOpensIff` says of every
  path whether it is opened.

## Model

| member | source | states |
|---|---|---|
| Segment.EncodeKey | crates/lvqr-archive/src/segment.rs:73-87 | the key is two names, each behind two bytes of its length, and eight bytes of dts, high bytes first; a name over 65535 bytes is refused |
| Segment.PrefixFree | crates/lvqr-archive/src/segment.rs:63-72 | no stream's key prefix is a prefix of another stream's key, even when the names are prefixes of one another |
| Segment.KeyInjective | crates/lvqr-archive/src/segment.rs:73-87 | a key determines broadcast, track and dts |
| Segment.KeyOrderIsDtsOrder | crates/lvqr-archive/src/segment.rs:71-72 | within a stream, byte order of keys is numeric order of dts, both directions |
| Segment.RangeStaysInStream | crates/lvqr-archive/src/index.rs:226-257 | a valid key lies in a half-open scan between two keys of a stream exactly when it is that stream's and its dts is in range |
| Segment.StreamRangeIsStream | crates/lvqr-archive/src/segment.rs:89-105 | the closed range between the prefix bounds holds exactly the stream's keys |
| Segment.TakeName | crates/lvqr-archive/src/index.rs:143-165 | a name is read exactly when the input starts with a length-prefixed UTF-8 name, and that reading is the only one |
| Segment.DecodeKey | crates/lvqr-archive/src/index.rs:142-174 | accepts exactly the encodings, and returns the only preimage; truncation and trailing bytes are errors |
| Segment.EncodeValue | crates/lvqr-archive/src/segment.rs:116-128 | each field stands at its offset, the path length cast to 32 bits before the path itself |
| Segment.ReadFixedFields | crates/lvqr-archive/src/segment.rs:133-154 | the fixed fields are read at their offsets exactly when 41 bytes are there and the keyframe byte is 0 or 1 |
| Segment.DecodeValue | crates/lvqr-archive/src/segment.rs:133-178 | decode of encode is the identity for paths under 4 GiB and an error above; every accepted string re-encodes to itself |
| Segment.ValueInjective | crates/lvqr-archive/src/segment.rs:107-128 | key fields and encoded value determine the row |
| Bytes.LexIsNumeric | crates/lvqr-archive/src/segment.rs:71-72 | at equal width, byte order of big-endian numbers is numeric order |
| Bytes.LexBetween | crates/lvqr-archive/src/segment.rs:89-105 | whatever lies between two strings with a common prefix has that prefix |
| Utf8.ValidUtf8Iff | crates/lvqr-archive/src/index.rs:157-164 | a byte string is taken as text exactly when it is the encodings of Unicode scalar values, one behind the other |
| Utf8.EncodeTextInjective | crates/lvqr-archive/src/index.rs:157-164 | and of one sequence of them only |
| Window.SelectedOverlaps | crates/lvqr-archive/src/index.rs:205-267 | a selected row belongs to the stream and overlaps the window, always |
| Window.CompleteIffNoneHidden | crates/lvqr-archive/src/index.rs:221-247 | one window is answered completely exactly when no row reaches into it from behind a later predecessor |
| Window.AllWindowsComplete | crates/lvqr-archive/src/index.rs:221-247 | all windows of a stream are answered completely exactly when no row ends more than a tick after a later one starts |
| Window.DisjointStreamsAreComplete | crates/lvqr-archive/src/segment.rs:35-40 | with disjoint extents every window is answered completely |
| Window.WholeStreamSelected | crates/lvqr-archive/src/index.rs:205-267 | the window from 0 to the greatest dts selects the whole stream, overlapping extents or not |
| Window.HiddenRowExample | crates/lvqr-archive/src/index.rs:221-247 | a stream and window on which an overlapping row is missed |
| Window.AscendingUnique | crates/lvqr-archive/src/index.rs:33-35 | there is one way to list a set of rows by ascending dts, so membership and order determine an answer |
| Index.ScanEncodes | crates/lvqr-archive/src/index.rs:229-241 | a byte-range scan of the table is the encoding of the rows whose keys are in range |
| Index.StreamScan | crates/lvqr-archive/src/index.rs:255-264 | a scan between two keys of a stream finds exactly its rows of that dts range |
| Index.KeyOrderAscends | crates/lvqr-archive/src/index.rs:33-35 | rows of one stream in key order ascend by dts |
| Index.JoinScans | crates/lvqr-archive/src/index.rs:242-264 | the last row before the window, if it reaches in, followed by the rows starting in it is exactly the selection, in order |
| Index.RedbSegmentIndex.Record | crates/lvqr-archive/src/index.rs:186-203 | accepts exactly non-empty extents with names that fit, overwrites the row with the same key, and leaves the rest; a refusal changes nothing |
| Index.RedbSegmentIndex.Insert | crates/lvqr-archive/src/index.rs:196-202 | one table insert keeps key order and the encoding, and adds or replaces one row |
| Index.RedbSegmentIndex.DecodeEntry | crates/lvqr-archive/src/index.rs:236-238 | a stored entry decodes to the row it encodes, or fails when its path was too long for its length field |
| Index.RedbSegmentIndex.FindRange | crates/lvqr-archive/src/index.rs:205-267 | the answer is exactly the selected rows in strictly ascending dts; it fails exactly when a name is too long or a row it reads does not decode |
| Index.RedbSegmentIndex.LastStarting | crates/lvqr-archive/src/index.rs:227-241 | the leading scan ends at the greatest row of the stream in the dts range |
| Index.RedbSegmentIndex.RowsStarting | crates/lvqr-archive/src/index.rs:251-264 | the window scan is every row of the stream starting in the window, in order |
| Index.RecordThenFind | crates/lvqr-archive/src/index.rs:186-267 | after any sequence of records, a query lists exactly the overlapping rows in order if and only if no row is hidden, which disjoint extents guarantee; and the whole stream for the full window |
| Window.AnswerIff | crates/lvqr-archive/src/index.rs:205-267 | the same of any answer that lists the selection |
| Index.RedbSegmentIndex.Latest | crates/lvqr-archive/src/index.rs:269-285 | the row of greatest dts of the stream, or none when it has no rows |
| Index.RedbSegmentIndex.ListSummaries | crates/lvqr-archive/src/index.rs:109-136 | the group-by of all rows, one summary per stream in order of broadcast and then track, although the scan is in key order; each gives the number of its stream's rows, the first start with that row's timescale, and the last end |
| Index.Accumulate | crates/lvqr-archive/src/index.rs:118-133 | one map step extends the group-by by one row |
| Index.SummariesConserve | crates/lvqr-archive/src/index.rs:100-136 | the streams of a group-by partition the rows: counts and lengths add up to those of all rows |
| Index.TotalLengthAdds | crates/lvqr-archive/src/index.rs:118-133 | the bytes of a stream are the lengths of its rows, each counted once |
| Index.LeastAndGreatest | crates/lvqr-archive/src/index.rs:121-122 | the reported start is the least of the stream and the reported end the greatest, both attained |
| Writer.SegmentPathInjective | crates/lvqr-archive/src/writer.rs:168-174 | distinct sequence numbers give distinct paths, past the eight-digit padding too |
| Writer.SegmentIsNotInit | crates/lvqr-archive/src/writer.rs:118-174 | no segment path is the init segment's path |
| Writer.ArchiveLayout | crates/lvqr-archive/src/writer.rs:116-174 | segments lie at `<dir>/<broadcast>/<track>/<number>.m4s`, the number filled up to eight digits and no further, and the init segment beside them at `init.mp4` |
| Drain.DrainTrack | crates/lvqr-cli/src/archive.rs:156-273 | one task for each fragment of positive duration and no other, in order, numbered from one: its payload, and a row with its names, extent up to the end of time at the latest, timescale, keyframe flag, length, offset zero and path; the init segment is persisted from the first fragment where that works |
| Drain.JobsIndependent | crates/lvqr-cli/src/archive.rs:156-273 | with distinct dts the tasks of a run have their own paths and index keys, and every row is one the index accepts |
| Drain.StepKeepsMerged | crates/lvqr-cli/src/archive.rs:232-273 | after any subset of writes and records, disk and index are the old ones overlaid with exactly that work |
| Drain.OrderDoesNotMatter | crates/lvqr-cli/src/archive.rs:232-273 | every completion order of the detached tasks gives the same disk and the same index |
| Drain.EqualDtsRaces | crates/lvqr-cli/src/archive.rs:232-273 | for two tasks with one key, the completion order decides which row survives |
| Drain.RunArchivesEveryJob | crates/lvqr-cli/src/archive.rs:156-273 | a complete run leaves exactly one row per task, each row's file holding its payload, and the init segment as it was |
| Drain.ConcatAssets | crates/lvqr-archive/src/provenance.rs:435-451 | succeeds exactly when every file exists, and concatenates them in order |
| Drain.FileBytesConcat | crates/lvqr-archive/src/provenance.rs:435-451 | the files are read one behind the other, each once, in the order of the rows |
| Drain.Finalize | crates/lvqr-cli/src/archive.rs:306-343 | the bytes to sign are the init segment and then every indexed segment file of the stream in dts order |
| Drain.FinalizeReadsRecorded | crates/lvqr-cli/src/archive.rs:274-343 | finalize does not wait for the detached tasks: whenever it runs it reads the payloads of the tasks recorded by then in dts order, for fragments with distinct dts drained in any order; and that is the whole recording exactly when all tasks have recorded |
| Drain.FinalizeReadsBack | crates/lvqr-archive/src/provenance.rs:516-521 | after all tasks, whatever order they were drained or completed in, it reads every payload exactly once in dts order |
| Drain.InOrderDrainReadsBack | crates/lvqr-archive/src/provenance.rs:516-521 | when the kept fragments came in dts order, that is the order they were drained in |
| DrainQuery.CompleteRunArchives | crates/lvqr-cli/src/archive.rs:156-273 | after a complete run every kept fragment has its row and every row of the stream its fragment, with extent and flags, and the file holds the payload |
| DrainQuery.WindowAnswersFragments | crates/lvqr-archive/src/index.rs:205-267 | what a query selects after a complete run of disjoint fragments is exactly the fragments whose extent meets the window, each once, by dts |
| DrainQuery.QueryAfterRun | crates/lvqr-archive/src/index.rs:205-267 | the same of the answer of the query itself, which fails only where a path is too long to decode |
| StreamKeys.OpKeepsInverse | crates/lvqr-auth/src/stream_key_store.rs:181-241 | mint, revoke and rotate keep the token map the exact inverse of the id map |
| StreamKeys.HistoryKeepsInverse | crates/lvqr-auth/src/stream_key_store.rs:175-241 | so does any history of them with fresh ids and tokens |
| StreamKeys.LookupExact | crates/lvqr-auth/src/stream_key_store.rs:175-179 | a lookup hits exactly the live, unexpired key that carries the token |
| StreamKeys.OldTokenMisses | crates/lvqr-auth/src/stream_key_store.rs:205-241 | right after revoke or rotate the old token misses |
| StreamKeys.UnissuedStaysOut | crates/lvqr-auth/src/stream_key_store.rs:181-241 | a token that is not indexed stays so through any operations that do not generate it |
| StreamKeys.MintedKeyHitsIff | crates/lvqr-auth/src/stream_key_store.rs:181-203 | through any later operations on other keys, a minted key is found under its token as it was asked for: for good without a TTL or with one of zero, else until the TTL, saturating, has passed |
| StreamKeys.RotatedKeyHitsIff | crates/lvqr-auth/src/stream_key_store.rs:213-241 | a rotated key is found under its new token; with no override it keeps tag, scope and expiry, and with one it has exactly those of the override |
| StreamKeys.InMemoryStreamKeyStore.GetByToken | crates/lvqr-auth/src/stream_key_store.rs:175-179 | a hit is the live, unexpired key with that token; a miss means every key with it has expired |
| StreamKeys.InMemoryStreamKeyStore.MintKey | crates/lvqr-auth/src/stream_key_store.rs:181-203 | adds exactly the new key, with the tag and scope of the spec, expired exactly once its TTL has passed, if there is one and it is not zero |
| StreamKeys.InMemoryStreamKeyStore.RevokeKey | crates/lvqr-auth/src/stream_key_store.rs:205-211 | removes exactly that key and its token |
| StreamKeys.InMemoryStreamKeyStore.RotateKey | crates/lvqr-auth/src/stream_key_store.rs:213-241 | replaces the token and keeps tag, scope and expiry, or takes them from the override; an unknown id changes nothing |
| StreamKeyRaces.NextKeepsInv | crates/lvqr-auth/src/stream_key_store.rs:175-241 | every single map operation, of any call, keeps the accounting of every token |
| StreamKeyRaces.RunKeepsInv | crates/lvqr-auth/src/stream_key_store.rs:175-241 | on every interleaving the accounting holds, and neither collision panic fires |
| StreamKeyRaces.LookupIsSound | crates/lvqr-auth/src/stream_key_store.rs:175-179 | a lookup returns only a live, unexpired key its token was issued to, and never one revoked at an earlier point of the run |
| StreamKeyRaces.RevokedForever | crates/lvqr-auth/src/stream_key_store.rs:205-211 | a revoked id stays revoked |
| StreamKeyRaces.LiveKeysAreIndexed | crates/lvqr-auth/src/stream_key_store.rs:181-241 | at quiescence every live key's token maps to its id, on every run |
| StreamKeyRaces.ExactInverseIffNoneMissed | crates/lvqr-auth/src/stream_key_store.rs:226-240 | at quiescence the token map is the exact inverse exactly when every removal found its entry |
| StreamKeyRaces.SerialRunsKeepInverse | crates/lvqr-auth/src/stream_key_store.rs:205-241 | when operations on one id do not overlap, it is |
| StreamKeyRaces.SerialIdIsExact | crates/lvqr-auth/src/stream_key_store.rs:205-241 | and for each id by itself, whatever calls on other ids are half done: its tokens are indexed exactly when they are current |
| StreamKeyRaces.StaleHitIff | crates/lvqr-auth/src/stream_key_store.rs:175-241 | in every reachable state, exactly when a replaced token still works: it is indexed, its key lives, and its removal is either still to come or found nothing |
| StreamKeyRaces.ReplacedTokensDieIff | crates/lvqr-auth/src/stream_key_store.rs:226-240 | once all calls have returned, the promise that replaced tokens are dead holds exactly when no removal missed a token whose key lives |
| StreamKeyRaces.OverlappingRotatesLeaveStaleToken | crates/lvqr-auth/src/stream_key_store.rs:226-240 | a run of two overlapping rotates after which a replaced token still finds the key |
| StreamKeyRaces.UninterruptedCalls | crates/lvqr-auth/src/stream_key_store.rs:181-241 | the steps of a call nobody interrupts add up to the sequential operation |
| StreamKeyRaces.LookupReturnsIff | crates/lvqr-auth/src/stream_key_store.rs:175-179 | whatever other calls do between its two map reads, a lookup returns the unexpired record of the id its token led to, as it is at the second read; with nothing in between, the sequential lookup |
| Auth.PublishAllowedIff | crates/lvqr-auth/src/multi_key_provider.rs:72-98 | a publish passes exactly when a live key with a matching scope grants it, or no live key carries the token and there is a fallback that allows it |
| Auth.CheckAllowsIff | crates/lvqr-auth/src/static_provider.rs:69-92 | every chain, however nested, decides by the keys of the store and the settings at its bottom: a static provider allows what has no token set for it or presents that very token, and a layer without a fallback denies what no key grants |
| Auth.StaticDenials | crates/lvqr-auth/src/static_provider.rs:69-92 | a static provider denies exactly a wrong or missing token, each with its reason |
| Auth.NoFallbackDenies | crates/lvqr-auth/src/multi_key_provider.rs:63-70 | without a fallback everything that no key carries is denied |
| Auth.RotatedTokenPublishesIff | crates/lvqr-auth/src/multi_key_provider.rs:72-98 | through any later operations on other keys and under every fallback, a rotated token opens exactly the scope the key had, or the override's, until the key expires |
| Auth.MintedTokenPublishesIff | crates/lvqr-auth/src/multi_key_provider.rs:72-98 | the same of a minted token and its spec |
| Auth.ScopeMismatchDenies | crates/lvqr-auth/src/multi_key_provider.rs:72-98 | a key scoped to another broadcast denies under every fallback, with the reason for a missing or for a different broadcast |
| Auth.ScopeMismatchDeniesOnEveryRun | crates/lvqr-auth/src/hot_reload_provider.rs:69-94 | and on every run of loads, swaps and decisions whose swaps keep the layer over the store |
| Auth.CellHoldsLatestSwap | crates/lvqr-auth/src/hot_reload_provider.rs:69-74 | on every run the cell holds the provider swapped in last, or the initial one |
| Auth.DecidedAsLoaded | crates/lvqr-auth/src/hot_reload_provider.rs:88-94 | every check is decided by the provider swapped in last before it loaded, whatever is swapped in before it decides |
| Auth.OldTokenIsFallbackOnly | crates/lvqr-auth/src/multi_key_provider.rs:63-98 | once revoked or rotated away, a token is decided by the fallback alone, through whatever operations follow, unless one generates that token again |
| Auth.OldTokenIsFallbackOnlyOnRuns | crates/lvqr-auth/src/multi_key_provider.rs:63-98 | the same on concurrent runs whose calls on each id do not overlap, as soon as no call is on that id |
| Auth.OldTokenDecidedIff | crates/lvqr-auth/src/multi_key_provider.rs:63-98 | on every run, an old token is decided by the fallback alone unless it is a stale hit, which only a missed or pending removal makes it |
| Auth.StoreDecidesOnlyPublish | crates/lvqr-auth/src/multi_key_provider.rs:72-98 | subscribe and admin decisions do not depend on the store or its history |
| Auth.HotReloadAuthProvider.Swap | crates/lvqr-auth/src/hot_reload_provider.rs:69-74 | extends the run by one swap, and the object stays the cell of that run |
| Auth.HotReloadAuthProvider.CheckCurrent | crates/lvqr-auth/src/hot_reload_provider.rs:88-94 | an uninterrupted check is decided by the latest provider among all swaps so far, by the settings at the bottom of its chain; of a static provider exactly when the token set for the request is the one presented, or none is set |
| ConfigReload.ConfigReloadHandle.Reload | crates/lvqr-cli/src/config_reload.rs:361-484 | goes through exactly when the file parses, names at most one remote strategy and the chosen provider comes up; a failure changes nothing; a success makes the chain, ICE list, secret and URLs those of the file, a setting of the file winning over that of start-up, and reports exactly the differences |
| ConfigReload.ConfigReloadHandle.ReloadAll | crates/lvqr-cli/src/config_reload.rs:361-484 | after any run of reloads one after another the live state is a pure function of the boot values and the last good file |
| ReloadRaces.RunKeepsPartsDerived | crates/lvqr-cli/src/config_reload.rs:436-466 | on every interleaving of reloads, each part of the live state is derived from boot values and the file of the reload that replaced it last |
| ReloadRaces.LiveIsLastCommittedIff | crates/lvqr-cli/src/config_reload.rs:436-466 | on every run, the live state is that of the last reload to commit exactly when each part was last replaced by that reload or with an equal value; and who replaced a part last is who took that step last in the run |
| ReloadRaces.LiveIsOfOneFileIff | crates/lvqr-cli/src/config_reload.rs:436-466 | on every run, the live state belongs to a given file, or to the boot, exactly when each part's last writer gave it the value it would have |
| ReloadRaces.ByIsLast | crates/lvqr-cli/src/config_reload.rs:436-466 | the record of a part's last writer names the reload that took the last such step, and nobody when none was taken |
| ReloadRaces.AloneRunsAreNeverMixed | crates/lvqr-cli/src/config_reload.rs:436-466 | in particular when the swaps of different reloads do not overlap, whenever none is swapping, though reading and building overlap freely |
| ReloadReports.ReportIsTrueIff | crates/lvqr-cli/src/config_reload.rs:413-457 | the reported keys are those of what a reload replaced exactly when, category by category, what it had read and what it replaced differ from its own value alike |
| ReloadReports.SoleReportsAreConsecutive | crates/lvqr-cli/src/config_reload.rs:413-457 | when no reload begins to read between another one's first read and its commit, every report is the differences of consecutive live states |
| ReloadOverlap.OverlappingReloadsMix | crates/lvqr-cli/src/config_reload.rs:436-466 | a run of two overlapping reloads that leaves the chain of one file with the ICE list and secret of the other |
| ConfigReload.ConfigReloadHandle.BuildInner | crates/lvqr-cli/src/config_reload.rs:180-263 | builds the provider the precedence rules choose, if it comes up, with a warning exactly for each configured strategy that is not built in |
| ConfigReload.ChosenIff | crates/lvqr-cli/src/config_reload.rs:180-263 | the precedence rules, said of each kind of provider and of each of its settings by itself, the file's first and that of start-up second, choose exactly one provider and that is the one built |
| ConfigReload.AppliedIff | crates/lvqr-cli/src/config_reload.rs:361-484 | the live state is determined by the file and the boot values setting by setting |
| ConfigReload.SucceedsIff | crates/lvqr-cli/src/config_reload.rs:361-400 | whether a reload goes through, said of the rules alone |
| ConfigReload.TokensDecideAfterReload | crates/lvqr-cli/src/config_reload.rs:102-166 | end to end, once a file is applied that leaves the relay to static tokens, a request passes exactly when it presents the file's token for it, or the one from start-up where the file has none, or none is set |
| ConfigReload.LastGoodIsLatestSuccess | crates/lvqr-cli/src/config_reload.rs:361-484 | the last good file is that of the latest attempt that succeeded, if any did |
| ConfigReload.DifferencesAreExact | crates/lvqr-cli/src/config_reload.rs:413-457 | the reported keys are "auth" and exactly the categories that changed, none twice |
| Webhook.EvictIfFull | crates/lvqr-auth/src/webhook_provider.rs:345-354 | at capacity, one entry of least expiry goes; below it nothing does |
| Webhook.EvictionMakesRoom | crates/lvqr-auth/src/webhook_provider.rs:311-318 | storing after eviction keeps the cache within its capacity |
| Webhook.SharedState.CheckContext | crates/lvqr-auth/src/webhook_provider.rs:176-193 | a fresh entry decides; otherwise the context is filed once and denied for now |
| Webhook.SharedState.ProcessBatch | crates/lvqr-auth/src/webhook_provider.rs:284-318 | one POST per key of the batch, the cache within capacity, every new entry the answer to a post, held for the allow TTL if it is an allow and for the deny TTL if it is a deny |
| Webhook.NextKeepsInv | crates/lvqr-auth/src/webhook_provider.rs:176-321 | every atomic step of checkers and fetcher keeps cache soundness, wakeups, batch accounting and the bound |
| Webhook.RunKeepsInv | crates/lvqr-auth/src/webhook_provider.rs:176-321 | and so does every interleaving |
| Webhook.HitIsRecentAnswer | crates/lvqr-auth/src/webhook_provider.rs:176-193 | a check that read the clock, and then hits the cache however much later, returns a decision the endpoint gave for exactly that context, an allow given less than the allow TTL before the clock was read and a deny less than the deny TTL |
| Webhook.AnswerDecidesUntilExpiry | crates/lvqr-auth/src/webhook_provider.rs:176-318 | the other half: an answer that is stored decides every check for its context that read the clock within its TTL, until a later store evicts or replaces it, and no check that read it later |
| Webhook.KeyDeterminesContext | crates/lvqr-auth/src/webhook_provider.rs:102-122 | two contexts share a cache key only if they are equal |
| Webhook.ReachableIsLive | crates/lvqr-auth/src/webhook_provider.rs:186-192 | no lost wakeup: pending work implies a permit, an awake fetcher, or a checker about to notify; and the cache is bounded |
| Webhook.QuiescentMeansAnswered | crates/lvqr-auth/src/webhook_provider.rs:274-321 | when fetcher and checkers are idle, everything ever enqueued has been answered |
| Webhook.NoSpuriousBatches | crates/lvqr-auth/src/webhook_provider.rs:274-291 | the fetcher takes the pending map no more often than checkers have notified it |
| Webhook.BatchTerminates | crates/lvqr-auth/src/webhook_provider.rs:284-318 | the work left in a batch strictly decreases with each fetcher step, no other step adds to it, and the fetcher is never stuck |
| Webhook.BatchPostedOnce | crates/lvqr-auth/src/webhook_provider.rs:284-318 | when a batch ends, exactly the keys taken have been posted, each once |
| Runner.NextKeepsCovered | crates/lvqr-agent/src/runner.rs:58-103 | through every step, a registered agent that accepts a present source has its row, or a thread is about to insert it, or it was swept away while the agent was registered |
| Runner.NextKeepsInv | crates/lvqr-agent/src/runner.rs:58-205 | every step of any interleaving keeps that, one drain per row, and rows only for agents that are registered, about to be aborted, or orphans |
| Runner.NoDrainForMissingSource | crates/lvqr-agent/src/runner.rs:173-187 | on every run a drain is started only by a call that inserted the source itself or found it in the registry when it looked |
| Runner.SettledRunsAttachEverything | crates/lvqr-agent/src/runner.rs:173-205 | however additions, removals, insertions and callbacks interleave, overlapping or not, once all have returned each row has one drain; every accepting registered agent is attached to every present source exactly when no such row was swept while the agent was registered; and no unregistered agent has a drain exactly when no orphan is one's |
| Runner.ApartRunsAreExact | crates/lvqr-agent/src/runner.rs:173-205 | when the calls about each agent do not overlap, both hold |
| Runner.AddsAndCallbacksAttachEverything | crates/lvqr-agent/src/runner.rs:173-187 | for every interleaving of additions with insertions and callbacks, unconditionally, every registered agent ends with exactly one drain for each present source it accepts |
| Runner.LateCallbackOutlivesRemoval | crates/lvqr-agent/src/runner.rs:288-297 | a settled run on which a callback overlapping a removal leaves a drain of the removed agent |
| Runner.ReaddedAgentLosesItsTask | crates/lvqr-agent/src/runner.rs:173-205 | a settled run on which an agent added again during its removal ends registered and not attached |
| Runner.RunnerInner.SpawnFor | crates/lvqr-agent/src/runner.rs:58-103 | spawns exactly when there is no row and the factory accepts; idempotent per key |
| Runner.RunnerInner.AddAgentNow | crates/lvqr-agent/src/runner.rs:173-187 | a new agent gets a task for exactly the live sources it accepts; a known name changes nothing |
| Runner.RunnerInner.OnEntryCreated | crates/lvqr-agent/src/runner.rs:288-297 | a new source gets a task for exactly the registered agents that accept it |
| Runner.RunnerInner.RemoveAgentNow | crates/lvqr-agent/src/runner.rs:192-205 | aborts and counts exactly the tasks of that name, and leaves all others |
| Runner.Drive | crates/lvqr-agent/src/runner.rs:313-386 | start, every fragment in order, stop; a panic at start ends the drain, and of later calls exactly the panicking ones are counted and passed over |
| Boxes.WalkBoxes | crates/lvqr-agent-whisper/src/asc.rs:42-69 | the cursor loop finds what the recursive definition finds, in bounds on every input |
| Boxes.FindBoxIff | crates/lvqr-agent-whisper/src/mdat.rs:33-57 | a box is found exactly when the input is well-formed boxes of other types, then that box, then any bytes |
| Boxes.ExtractFirstMdat | crates/lvqr-agent-whisper/src/mdat.rs:33-57 | the same for the type with the letters `mdat`, stated of the method itself |
| Boxes.Descend | crates/lvqr-agent-whisper/src/asc.rs:42-69 | descends into the first child of each type in turn |
| Boxes.FindsNested | crates/lvqr-agent-whisper/src/asc.rs:42-69 | finds the leaf of every printed nesting, with any siblings before and any bytes after at each level |
| Boxes.FoundIsNested | crates/lvqr-agent-whisper/src/asc.rs:42-69 | whatever is found is the leaf of such a nesting |
| Asc.ReadDescriptorLength | crates/lvqr-agent-whisper/src/asc.rs:77-86 | reads (n, width) exactly when the input starts with n in that many seven-bit groups, one to four |
| Asc.GroupsInOrder | crates/lvqr-agent-whisper/src/asc.rs:77-86 | the groups of a length stand with the high bits first |
| Asc.FindDescriptorIn | crates/lvqr-agent-whisper/src/asc.rs:92-113 | the loop finds what the recursive definition finds, in bounds on every input |
| Asc.FindDescriptorIff | crates/lvqr-agent-whisper/src/asc.rs:92-113 | a descriptor is found exactly when the body is the skipped bytes, well-formed descriptors of other tags, that descriptor, and any bytes |
| Asc.ExtractAsc | crates/lvqr-agent-whisper/src/asc.rs:120-199 | returns an audio configuration exactly when the segment is a printed chain around it, with any siblings and tails: boxes moov, trak, mdia, minf, stbl, stsd, mp4a and esds, and descriptors 3, 4 and 5 |
| Asc.AscOfIff | crates/lvqr-agent-whisper/src/asc.rs:120-199 | the same of the chain of searches the method performs |
| ByteRange.ParseSingleRange | crates/lvqr-cli/src/archive.rs:800-862 | a single range always lies inside the file |
| ByteRange.RangeIsExact | crates/lvqr-cli/src/archive.rs:800-862 | every header that denotes a range gets exactly the requested bytes the file has, and is unsatisfiable exactly when there are none |
| ByteRange.BackwardsIsUnsatisfiable | crates/lvqr-cli/src/archive.rs:830-832 | a header whose last position is before its first is unsatisfiable on every file |
| ByteRange.WrittenByTheRfcIff | crates/lvqr-cli/src/archive.rs:800-862 | on a non-empty file, a header that denotes a range is answered as section 2.1 of RFC 7233 has it exactly when it is not backwards and each side of its dash is digits or nothing |
| ByteRange.ByTheRfcIff | crates/lvqr-cli/src/archive.rs:800-862 | on a non-empty file a header is answered by the RFC exactly when every range it denotes conforms to the grammar; on an empty one, exactly when it conforms or is ignored |
| ByteRange.DenotesOne | crates/lvqr-cli/src/archive.rs:800-862 | a header denotes at most one range |
| ByteRange.SignedNumeralsAreServed | crates/lvqr-cli/src/archive.rs:823-853 | numerals with a plus sign are served, on every file that has the bytes |
| ByteRange.IgnoredIff | crates/lvqr-cli/src/archive.rs:800-862 | on a non-empty file a header is ignored exactly when it denotes no single range |
| ByteRange.EmptyFileIff | crates/lvqr-cli/src/archive.rs:818-821 | on an empty file every header of the right shape is unsatisfiable and every other is ignored |
| ByteRange.PrintedRangeIsExact | crates/lvqr-cli/src/archive.rs:800-862 | printing any of the three forms and parsing it gives that range |
| ByteRange.RangesReassemble | crates/lvqr-cli/src/archive.rs:749-775 | the bodies of successive ranges that cover the file join to the file |
| ByteRange.ResponseIsExact | crates/lvqr-cli/src/archive.rs:745-795 | a header that asks for bytes gets those the file has, with their place, or the news that there are none; without one, or with one that asks for nothing of a non-empty file, the whole file |
| ByteRange.BroadcastIsRecovered | crates/lvqr-cli/src/archive.rs:964-981 | slashes at the end aside, a segment file is checked as its broadcast, and any other path as itself |
| Decimal.ParsePrint | crates/lvqr-cli/src/archive.rs:823-853 | a printed number parses back |
| Decimal.ParseIff | crates/lvqr-cli/src/archive.rs:823-853 | what parses is exactly an optional plus sign, any zeros, and the printed number, if it fits its type |
| Text.SplitJoin | crates/lvqr-cli/src/auth_middleware.rs:149-159 | splitting undoes joining |
| Text.TrimRemoves | crates/lvqr-cli/src/archive.rs:804-817 | trimming removes exactly the blanks at both ends |
| Base64.DecodeEncode | crates/lvqr-cli/src/signed_url.rs:152-157 | decoding an encoding gives the bytes back |
| Base64.EncodeDecode | crates/lvqr-cli/src/signed_url.rs:83-90 | every accepted text is the encoding of what it decodes to: there are no two spellings of one signature |
| Base64.AlphabetIs | crates/lvqr-cli/src/signed_url.rs:83-83 | the alphabet, letter by letter |
| Base64.EncodeConcat | crates/lvqr-cli/src/signed_url.rs:152-157 | each three bytes are encoded by themselves |
| Base64.EncodesBits | crates/lvqr-cli/src/signed_url.rs:152-157 | and as four characters that spell the same bits |
| Base64.OneByteLeft | crates/lvqr-cli/src/signed_url.rs:152-157 | one byte left over is encoded as if zeros followed, without the two characters those would fill |
| Base64.TwoBytesLeft | crates/lvqr-cli/src/signed_url.rs:152-157 | and two bytes without the one |
| SignedUrl.LiveInputInjective | crates/lvqr-cli/src/signed_url.rs:131-133 | the signed text determines scheme, broadcast and expiry, even for broadcasts that hold "?exp=" |
| SignedUrl.LiveIsNotPlayback | crates/lvqr-cli/src/archive.rs:506-506 | no live text is a playback text |
| SignedUrl.VerifyIff | crates/lvqr-cli/src/signed_url.rs:59-96 | exactly one text is accepted, the signature itself, before its expiry; expired, malformed and not attempted are answered exactly when they are the case |
| SignedUrl.SignatureIsScoped | crates/lvqr-cli/src/signed_url.rs:167-189 | a signature opens what it was made for until it expires, and anything else only where the MAC collides |
| SignedUrl.PlaybackOpensIff | crates/lvqr-cli/src/archive.rs:500-514 | a playback signature opens its path until its expiry, and another path or expiry exactly where the MAC collides |
| SignedUrl.WireFormat | crates/lvqr-cli/src/signed_url.rs:131-157 | what is signed for a live broadcast and what the suffix says, letter by letter |
| SignedUrl.SkipsOtherKeys | crates/lvqr-cli/src/auth_middleware.rs:149-159 | the extractor finds a parameter behind any parameters with other keys |
| SignedUrl.FirstValueIff | crates/lvqr-cli/src/auth_middleware.rs:149-159 | the extractor finds exactly the first non-empty value of the key |
| SignedUrl.LivePath | crates/lvqr-cli/src/auth_middleware.rs:167-180 | the broadcast is recovered from its URLs, slashes in the name included |
| SignedUrl.ExtractBroadcastIff | crates/lvqr-cli/src/auth_middleware.rs:167-180 | a path has a broadcast exactly when it is `/hls/` or `/dash/`, that broadcast, a slash and a last part |
| SignedUrl.LiveGateAllowsIff | crates/lvqr-cli/src/auth_middleware.rs:86-125 | exactly what passes the gate, over all paths and queries: a path under a broadcast, the first expiry still to come, and the first signature the one of scheme, broadcast and expiry |
| SignedUrl.SuffixOpensIff | crates/lvqr-cli/src/auth_middleware.rs:86-125 | end to end, what a signed suffix does on every path at either router: not attempted without a broadcast in the path, refused as expired, or opened exactly when the MAC of what is asked for is the one signed |
| SignedUrl.SignedSuffixOpensTree | crates/lvqr-cli/src/auth_middleware.rs:86-125 | it opens every URL one level under the broadcast until it expires, wherever it stands among other parameters |
| SignedUrl.DeeperUrlsAreRefused | crates/lvqr-cli/src/signed_url.rs:120-130 | it opens no deeper URL under the broadcast unless the MAC collides |
| Slo.SampleBuffer.Push | crates/lvqr-admin/src/slo.rs:70-78 | read from its oldest slot, the ring is exactly the last 1024 samples pushed, and the total counts all, saturating |
| Slo.SampleBuffer.Percentiles | crates/lvqr-admin/src/slo.rs:82-94 | the exact percentiles and maximum of the retained samples, in order; zeros when there are none |
| Slo.SummaryMeans | crates/lvqr-admin/src/slo.rs:82-94 | what is reported in numbers: of the last 1024 samples at most 50, 95 and 99 percent are below the figures and more are not above them, and none is above the maximum |
| Slo.CountIsCardinality | crates/lvqr-admin/src/slo.rs:82-94 | the counts are numbers of samples |
| Slo.PercentilesOrdered | crates/lvqr-admin/src/slo.rs:82-94 | the rank bounds determine a percentile, and a higher percentile is not smaller |
| Slo.PercentileOfMultiset | crates/lvqr-admin/src/slo.rs:82-94 | percentiles depend on the multiset of samples only |
| Slo.RankIsPercentile | crates/lvqr-admin/src/slo.rs:89-91 | in sorted order the entry at floor(k*n/100) meets both rank bounds |
| Slo.SortSorts | crates/lvqr-admin/src/slo.rs:86-87 | the sorted copy is ascending and a permutation |
| Slo.LatencyTracker.Record | crates/lvqr-admin/src/slo.rs:148-162 | one more sample in that key's history, and no other key's touched |
| Slo.LatencyTracker.Snapshot | crates/lvqr-admin/src/slo.rs:168-192 | one entry per key, in key order, each reporting exactly its own history |
| Slo.SortIn | crates/lvqr-admin/src/slo.rs:186-190 | adding a collected entry keeps the list ordered by key and loses none |
| Slo.ReportsUnique | crates/lvqr-admin/src/slo.rs:168-192 | a key's history determines its entry |
| Whisper.Run | crates/lvqr-agent-whisper/src/worker.rs:165-224 | each pass takes the frames from the first after the pass before it up to the first decoded frame that fills the window, and a last pass takes what is left; together they are every decoded sample, in order |
| Whisper.PassesConserve | crates/lvqr-agent-whisper/src/worker.rs:165-224 | passes of that shape concatenate to everything decoded |
| Whisper.FullPassLength | crates/lvqr-agent-whisper/src/worker.rs:181-196 | a pass before the close starts at the dts of its first frame, holds at least a window, and for a positive window less than one frame's output more |
| Whisper.WindowsUnique | crates/lvqr-agent-whisper/src/worker.rs:165-224 | frames and window determine the passes |

## Left out

- redb, DashMap, ArcSwap and tokio internals: an ordered byte map, one atomic step per map operation, an atomic cell and a one-permit notifier stand for them. `retain` on a map is one step.
- HMAC, JWT and JWKS verification, C2PA signing, AAC decoding and whisper inference: functions or outcomes the model knows nothing of.
- File-system errors, io_uring and directory creation: writing is an update of a map from path to bytes, and a write that fails is a task that never records.
- HTTP routing, JSON shapes, metrics and tracing.
- Random ids and tokens and the clock: parameters; fresh ones have not been used before.
- Lock poisoning, and callbacks outside a tokio runtime, which spawn nothing.
- The broadcaster registry: an entry is in the registry before its callback begins. A finished drain keeps its row, so a re-published source is covered by that row and not by a new drain.
- `install` with two factories of one name.
- Runner.SettledRunsAttachEverything: acceptance is fixed per agent name, so an agent added again under its old name with a factory that accepts other sources is outside the model; and a row is not told from a running drain, which may have finished with its source.
- ByteRange.ByTheRfcIff: that a suffix range counts as satisfiable on an empty file is left aside, as there is no byte to send; a numeral past 64 bits and a list of ranges count as headers to ignore, which the RFC permits.
- Archive directories that are not UTF-8, and re-opening an index file that something else wrote.
- A second publish of the same track: sequence numbers restart at one, so its files overwrite those of the first.
- ConfigReload.ConfigReloadHandle.ReloadAll: models reloads one after another; overlapping ones are in `ReloadRaces`, without the time, kind and warnings of the status.
- ConfigReload.ConfigReloadHandle.Reload: warnings are values naming the ignored URL, and error texts are not modelled.
- StreamKeyRaces.NextKeepsInv: calls that miss on their first map read change nothing and are not steps.
- Webhook.HitIsRecentAnswer: the time of an answer is when its POST came back, which is when the source computes the expiry.
- Webhook.SharedState.ProcessBatch: runs one batch without interference; the interleaved protocol covers the rest.
- SignedUrl.SignatureIsScoped: says nothing about how hard a collision of the MAC is to find.
- SignedUrl.LivePath: paths are compared as they stand, without percent-decoding, as the source does.
- Slo.LatencyTracker.Snapshot: sorts by inserting each collected entry in place; the order of collection is arbitrary, as a hash map's is.
- Whisper.Run: samples are opaque, and the captions made from a pass and their timestamps are not part of this model.
- Runner.Drive: the fragment stream is given, each fragment with whether the agent panics on it.
- The token-only live auth path, cookies and headers; JSON config parsing; the CLI; cluster, mesh, HLS and DASH servers.

# Verified model of the Gemini web proxy

The repository serves an OpenAI-style interface on top of the Gemini web app. This project models
the algorithms and state machines inside it that decide what a client sees, which exit and which
account a request uses, and what survives a restart, and proves what they promise over all inputs
and all runs.

| module | component |
|---|---|
| `FenceGate`, `StreamPipeline`, `Utf8` | streaming: cumulative frames become deltas, tool-call fences are withheld, the tail is completed at the end |
| `Varint`, `Envelope` | the protobuf walk that finds an embedded MP4, and the encoder of the extension packer |
| `RateLimit` | the limiter of one exit: leases and two sliding windows |
| `ProxyPool`, `Seeding` | proxies: circuit breaker, sticky and round-robin choice, the list in memory beside the table, and the row that follows the start-up parameter |
| `CookieJar`, `CookieOrder` | cookie strings: parsing, merging of Set-Cookie headers, account identity, the canonical order of captured cookies |
| `AccountPool` | accounts: least-recently-used rotation, health, trying several accounts |
| `Rollup`, `Percentiles` | hourly and daily statistics with retention |
| `Conversations` | the bounded store of conversations and the fingerprints that find them |
| `QueueDaemon` | the job queue of the cookie daemon, with crashes at any point |
| `GoStrings`, `Wrappers` | byte strings with first occurrence, `Option` |

Code that changes state is a class or a method with loops, proved equal to a function on values;
the lemmas about runs are about that function. Text that Go handles as bytes is `seq<byte>`.

## How the main results fit together

- **Streaming.** `RemoveFences` is the meaning of the regular expression (leftmost, non-greedy),
  said without any scanning. `GateRefinesRegex` and `ChunkingIsInvisible` say that the incremental
  gate computes it wherever the chunks end; `GateSendsExactlyTheSafeText` says that what it sends is
  the longest text that can be shown at that moment. `GatedStreamIsExactWhen` carries this to the end of
  the answer, where the final text is trimmed.
- **Envelope.** `Reaches` is the grammar of messages in messages. `SearchIsExact` connects it with
  the recursive walk in both directions and `SearchChooses` says which video is returned. The
  encoder closes the circle: `VarintRoundTrip`, `FieldsRoundTrip`, `EncodedEnvelopeIsSearched`.
- **Limits and leases.** `VerdictIsHistorical` ties the pruned lists to the whole history of grants;
  `LimitsHoldOverRuns` follows. `Pool.PickPreferring` and `Pool.AcquireSlot` use the same slot
  function; `LeasesAreAccountedFor`, `WindowsHoldPerExit` and `RoundRobinSpreads` are about runs of
  the steps that their contracts promise.
- **List and table.** The request path reads a list in memory that is read from the table after every
  edit, and reading can fail. `Pool` takes the outcome of each read as an argument;
  `ListEmptyExactly` and `DirectExactly` say together when a deployment with proxies sends a
  request from its own address.
- **Proxies over restarts.** `Pool.SyncSeededProxy` equals `SyncListed`; the lemmas of `Seeding`
  are about runs of it mixed with requests, panel edits and failing reads.
- **Statistics.** `Stats.Valid()` holds the conservation law: the hourly table, percentile columns
  included, is exact over all requests ever inserted, whatever was swept, and so is every day of the
  daily table that is not late. `ExactIsUnique` makes the
  totals a complete description, and `Percentiles.RankIsUnique` the percentiles.
- **Rotation.** `FairExactly` decides fairness for every table and clock; `FirstRoundIsFair` and
  `EveryWindowIsFair` are the cases a deployment can rely on.
- **Daemon.** `World` keeps the variables and the state file apart; a change and its write are two
  steps, and a crash may come after either. The class `Daemon` is proved to perform such steps, and
  `CountsAreConserved` and `JobsStartAtMostOnce` hold for every sequence of steps. Rows may be swept
  at any time; those that no poll has seen are entered as missed (`PollMissesExactly`), and none is
  if sweeps stay behind the stored id (`LateSweepsMissNothing`). A stored schedule outlives any
  number of kills and starts (`ScheduleSurvives`, `ScheduleFires`).

- **In plain terms.** A predicate or constant that a body shares with its specification is also said
  in literals, apart from both: which bytes are a video (`SearchMeans`), what each column counts
  (`ExactIsCounted`), which header is an update (`MergeFollows`), which status counts as a failure
  (`MarkByStatus`, `DisabledExactly`), which names come first (`CanonicalIsOrdered`), which rows count
  (`PollRows`), which URLs are accepted (`AcceptedMeans`), what white space is (`TrimSpaceMeans`).

## Where the code does not do what its comments promise

Each of these is a lemma, with the exact condition under which the code is right where there is one.

- The tail is said to be lost only if upstream rewrote the answer. It is also lost when a leading
  fence exposes white space that was already sent and is trimmed from the final text
  (`TailLostAfterLeadingFence`, `GatedStreamIsExactWhen`).
- The envelope's top level has no length check like the one added below it: it panics, or reads the
  spare capacity of the slice, on an overlong length (`EnvelopePanicsExactly`).
- A value that is neither empty nor accepted as a proxy URL costs the previous row: it is dropped
  before the new value is refused, and kv goes on naming it (`SchemelessValueLosesSeed`, `SeedLostExactly`, `LostSeedStaysLost`).
- A first load of the proxies that fails makes the list empty, and an empty list counts as a
  deployment without proxies: requests leave from the host's own address with the fallback off
  (`FailedFirstLoadExposesHost`, `DirectExactly`), and a start then neither drops its old row nor
  sees the user's (`FollowsExactly`).
- Least-recently-used rotation counts whole seconds. Once all accounts were used within the current
  second, all further picks of that second fall on one account (`SameSecondIsNotFair`; exactly when
  the rotation is fair: `FairExactly`).
- A daily row made while requests of its day still wait for the hourly roll-up is too small and
  stays so (`DayIsCompleteExactly`, `LateDailyRow`). `Stats` keeps the set of these late days over
  runs: a daily run makes late exactly the days it passes with open hours, and every other closed
  day stays exact (`DailyCatchup`, `DaysStayExact`).
- The account identity joins its two parts with a separator that they may contain
  (`IdentityCanBeAmbiguous`, `IdentityIsSharedExactly`).
- The conversation fingerprint is not that of one history: every history of two or more messages,
  plain texts included, has the text of a single message whose content holds the rest
  (`CanonicalIsSharedExactly`). Histories without separators inside never share one
  (`CanonicalIsInjective`).
- A daemon whose stored id is still 0 starts over at the newest row, so failures that arrived before
  its first poll are not counted (`StartSkipsExactly`, `EmptyStartLosesRows`).
- The decoder drops bits beyond the 64th without an error (`VarintSurvivesExactly`, `VarintWrapsAt64Bits`).

## Assumptions

- One call under its lock is one step; `recordProxyResult` counts as one step although it changes
  the table before the list.
- Tables are sequences or maps; ids are never reused; a statement that changes a table succeeds.
  Reading the proxies may break off and reading `requests` in the daemon may fail.
- The limiter's and the daemon's clocks do not go backwards. `Stats` takes times from the second day of
  the epoch on and no request that lands in an hour already closed; a sweep comes after a catch-up
  that closed everything it removes, which `Stats.Boot` establishes. `LateInsertExactly` and
  `SweepIsHarmlessExactly` say what else would happen.
- A write of the daemon's state file succeeds and is atomic; a change of the variables is not torn
  by an interrupt between two assignments.

## Model

| member | source | states |
|---|---|---|
| `FenceGate.GateRefinesRegex` | internal/app/messages.go:318-342 | for every received text, what was sent, plus the opening marker if a fence is open, plus the buffer is the text with all leftmost non-greedy fence matches removed |
| `FenceGate.ChunkingIsInvisible` | internal/app/messages.go:318-342 | any division of a text into pushes leaves sent, buffer and fence flag as one push of the whole text does |
| `FenceGate.DrainSplits` | internal/app/messages.go:319-342 | draining, receiving more and draining again equals receiving everything and draining once, from any gate state |
| `FenceGate.DrainKeepsSent` | internal/app/messages.go:289-290 | sent text is only ever extended |
| `FenceGate.DrainSettles` | internal/app/messages.go:321-341 | when a push returns, no complete marker is left in the buffer and the buffer outside a fence is a proper prefix of the opening marker |
| `FenceGate.GateIsSafe` | internal/app/messages.go:284-287 | what was sent is a prefix of the fence-free text for every continuation of the stream |
| `FenceGate.GateIsTight` | internal/app/messages.go:284-287 | for every received text there is a continuation whose fence-free text is exactly what was sent |
| `FenceGate.GateSendsExactlyTheSafeText` | internal/app/messages.go:284-287 | a text is a prefix of the fence-free text under every continuation if and only if it is a prefix of what was sent: nothing unsafe goes out and nothing safe is withheld |
| `FenceGate.FirstFenceByIndex` | internal/app/messages.go:321-336 | the first opening marker and the first closing one behind it are exactly the match the regular expression reports, and there is no match if one of them is missing |
| `FenceGate.RemovalMeans` | internal/app/messages.go:367-392 | the removal, in literals: a text without "```tool_call", anything, "```" stays as it is, and of any other the first and shortest such piece goes and the removal goes on behind it |
| `FenceGate.PartialIsLongest` | internal/app/messages.go:348-358 | the length kept back is that of the longest suffix that is a proper prefix of the marker |
| `FenceGate.PartialPrefixLen` | internal/app/messages.go:348-359 | the loop finds that longest length for every text and marker, and 0 for an empty marker |
| `FenceGate.HeldBackIsEnough` | internal/app/messages.go:337-339 | no marker can start in the part that is sent, whatever arrives next |
| `FenceGate.ToolFenceGate.Send` | internal/app/messages.go:310-316 | the text is appended to what was sent and handed to the client as one piece; an empty text is not handed over |
| `FenceGate.ToolFenceGate.Push` | internal/app/messages.go:319-342 | after any pushes the fields are those of a gate that received the whole text at once, the pieces handed to the client concatenate to `sent`, both only grow, and `sent` is the longest text that is safe to show at that moment |
| `StreamPipeline.SentIsWholeChars` | internal/app/messages.go:344-347 | a text of complete UTF-8 characters is sent in complete characters, wherever the pushes are cut |
| `Utf8.CutBetweenChars` | internal/app/messages.go:346-347 | a cut in front of a byte that is not a continuation byte splits no character |
| `Utf8.PrefixSurvivesTrim` | internal/app/messages.go:392 | a non-empty first part of whole characters still starts the trimmed text exactly if nothing was trimmed in front and enough is left at the end |
| `Utf8.TrimSpaceMeans` | internal/app/messages.go:392 | trimming takes the encoded forms of the white-space code points from both ends, and leaves none there |
| `Utf8.EncodedIsWhole` | internal/app/messages.go:344-347 | every encoded sequence of code points is a text of whole characters |
| `StreamPipeline.DeltasAddUp` | internal/app/gemini.go:297-305 | over any frames the deltas concatenate to `emitted`, which only grows by extension and is always the text of a frame |
| `StreamPipeline.CumulativeFramesEmitAll` | internal/app/gemini.go:297-305 | frames that extend each other are emitted to the end |
| `StreamPipeline.DeltaTracker.Push` | internal/app/gemini.go:297-305 | a frame that properly extends `emitted` yields what is new; any other frame yields nothing and changes nothing |
| `StreamPipeline.TailCompletesOrNothing` | internal/app/server.go:431-440 | the tail completes the text exactly if what was sent is its beginning; otherwise nothing is sent again |
| `StreamPipeline.GatedStreamIsExactWhen` | internal/app/server.go:373-377 | if the emitted text begins the final one, the client ends with exactly the final text if and only if nothing was sent, or fence removal exposes no leading white space and no sent byte is trimmed at the end |
| `StreamPipeline.GatedStreamIsExact` | internal/app/server.go:373-377 | in particular nothing is lost or repeated when fence removal exposes no outer white space |
| `StreamPipeline.TailLostAfterLeadingFence` | internal/app/server.go:431-440 | a concrete stream whose tail is lost: a leading fence exposes a line break that was sent before trimming removed it from the final text |
| `StreamPipeline.PlainTextPasses` | internal/app/messages.go:318-342 | a text without backticks is sent at once and unchanged |
| `StreamPipeline.StreamToClient` | internal/app/server.go:294-306 | for all frames, with or without tools: after every frame the client has been sent exactly what can be shown by then, no event is empty, and the missing tail comes as at most one more event; on cumulative frames the events add up to the final text, with tools to its fence-free text if that has no outer white space |
| `StreamPipeline.CumulativeStreamIsExact` | internal/app/server.go:373-377 | without tools, cumulative frames arrive complete and each byte once |
| `StreamPipeline.StreamEnds` | internal/app/server.go:373-377 | what the client has in the end on cumulative frames, with and without tools |
| `Varint.ProtobufVarint` | internal/app/media.go:369-387 | for every offset, also one behind the end: reading succeeds exactly if one of the ten bytes from there is below 128, and then yields their lower seven bits to base 128, lowest first, modulo 2^64, and the offset right behind |
| `Varint.DecodeFailsExactly` | internal/app/media.go:372-386 | reading fails exactly if none of the first ten bytes ends the number |
| `Varint.DecodeMeans` | internal/app/media.go:369-387 | what is read, by positions: up to and with the first byte below 128, if that is among the first ten, its base-128 value modulo 2^64 |
| `Varint.PyVarint` | tools/cookie-sync/pack_crx.py:25-34 | the byte loop produces the base-128 encoding |
| `Varint.VarintRoundTrip` | tools/cookie-sync/pack_crx.py:25-34 | for every n below 2^64 and any bytes behind it, the Go reader returns n and the offset right behind the encoding, within ten bytes |
| `Varint.VarintSurvivesExactly` | internal/app/media.go:369-387 | decoding an encoded number gives it back, with its length, if and only if it is below 2^64 |
| `Varint.VarintWrapsAt64Bits` | internal/app/media.go:378-385 | 2^64 is encoded by Python and read as 0 by Go |
| `Envelope.ProtobufSkip` | internal/app/media.go:390-408 | for every offset, where the value of every wire type ends, including the unchecked signed addition for lengths, and which wire types are refused |
| `Envelope.ReadField` | internal/app/media.go:459-475 | the tag and length of the field at an offset, for every byte string |
| `Envelope.LooksLikeMime` | internal/app/media.go:571-580 | accepts exactly 3 to 63 bytes from 32 to 126 whose first byte 47 is neither first nor last |
| `Envelope.ExtractVideoFromResourceDepth` | internal/app/media.go:517-567 | for every byte string, mime and depth the walk stays in bounds, terminates and returns the video and mime of the recursive specification; a video has the bytes 102 116 121 112 at offset 4 and more than 12 in all, is carried by the message, and is found whenever the message carries one |
| `Envelope.ExtractVideoFromResource` | internal/app/media.go:454-513 | the top walk is that specification at depth 0, with the same guarantees in plain bytes |
| `Envelope.SearchIsExact` | internal/app/media.go:517-567 | a video is found exactly if the grammar reaches an MP4 within the depth, size and field-number limits, and it is one the grammar reaches |
| `Envelope.SearchMeans` | internal/app/media.go:485-509 | the same without the predicates and limits of the walk: nesting goes through contents of at least 32 bytes in fields below 100 that are neither a video nor a mime string, at most seven messages deep |
| `Envelope.FirstMimeWins` | internal/app/media.go:491-507 | with none known, the mime string returned is the first one a field contributes, by its content or with a nested video, and there is none exactly if no field does |
| `Envelope.SearchChooses` | internal/app/media.go:486-509 | which of several reachable videos is returned: the last one found inside a nested message, else the first direct one |
| `Envelope.VideoIgnoresMime` | internal/app/media.go:491-506 | the mime string passed down never changes which video is found |
| `Envelope.MimeSticks` | internal/app/media.go:495-507 | a mime string that is known is never replaced |
| `Envelope.MimeIsGenuine` | internal/app/media.go:491-507 | a returned mime string was given by the caller or has the shape of one |
| `Envelope.ReachedIsSlice` | internal/app/media.go:485-509 | every reachable video is a contiguous part of the message, longer than 12 bytes and with `ftyp` at offset 4 |
| `Envelope.ItemIsSlice` | internal/app/media.go:485 | every visited payload is a contiguous part of its message |
| `Envelope.ExtractVideoFromEnvelope` | internal/app/media.go:423-450 | the unguarded top-level walk, with the spare capacity behind a Go slice and the panic beyond it, equals its specification; a video has `ftyp` at offset 4 and more than 12 bytes, and one is returned whenever a top-level field carries one, so also if one of its fields is one |
| `Envelope.EnvelopeIsExact` | internal/app/media.go:423-450 | the first top-level field with a reachable video decides; without one, the walk ends, searches into spare capacity, or panics, depending on the field that overruns |
| `Envelope.EnvelopeMeans` | internal/app/media.go:423-450 | the outcome in plain bytes: a carried video is always found, and without an overlong length nothing else is |
| `Envelope.EnvelopePanicsExactly` | internal/app/media.go:443 | it panics if and only if some length exceeds even the capacity and no field before it holds a reachable video |
| `Envelope.EnvelopePanicsOnOverlongLength` | internal/app/media.go:443 | the two bytes 0x0a 0x05 without spare capacity make it panic |
| `Envelope.WellFormedEnvelopeIsTotal` | internal/app/media.go:423-450 | with well-formed top-level lengths it never panics and finds a video exactly if one is reachable in some field |
| `Envelope.FirstFieldOfEncoded` | tools/cookie-sync/pack_crx.py:37-42 | reading a field written by `pb_bytes` yields its number, length and content |
| `Envelope.FieldsRoundTrip` | tools/cookie-sync/pack_crx.py:41-42 | walking a concatenation of `pb_bytes` fields visits exactly those fields, in order, and no length overruns |
| `Envelope.WireRoundTrip` | internal/app/media.go:390-408 | walking a message of numbers, 8-byte, 4-byte and length-delimited fields, written as the encoding specification says, visits exactly the length-delimited ones, in order, and no length overruns |
| `Envelope.WrittenVideoIsFound` | internal/app/media.go:423-450 | a video written as a field of a message that is a field of an envelope, among any other fields, is found |
| `Envelope.EncodedEnvelopeIsSearched` | internal/app/media.go:423-450 | on an envelope written field by field the search never panics and returns the video of the first field that reaches one |
| `RateLimit.LimitsHoldOverRuns` | internal/app/ratelimit.go:63-89 | over every run with fixed limits and a nondecreasing clock no closed window of 60 or 3600 seconds holds more grants than the limit, and `inflight` is the number of unreleased grants and within its limit |
| `RateLimit.VerdictIsHistorical` | internal/app/ratelimit.go:68-88 | the verdict is the one the whole history of grants and releases demands, by the number of grants not released, in the last 60 and in the last 3600 seconds: refusals only at a limit really reached, and always then |
| `RateLimit.WindowCountsHistory` | internal/app/ratelimit.go:173-183 | after pruning, the length of a window list is the number of grants in the closed window, over the whole history |
| `RateLimit.WindowsAreCounted` | internal/app/ratelimit.go:68-70 | the windows of the laws are the grants of the last 60 and 3600 seconds, counted |
| `RateLimit.UsageIsInvisible` | internal/app/ratelimit.go:112-128 | removing all usage reads from a run, at whatever times they came, changes no verdict, granted or refused, and no reason |
| `RateLimit.RefusalIsStable` | internal/app/ratelimit.go:72-83 | a refused slot is refused again in the same second and the second try changes nothing |
| `RateLimit.StepKeepsInv` | internal/app/ratelimit.go:63-99 | every call keeps both lists equal to the end of the history, dropping only what is older than the window |
| `RateLimit.PruneTimestamps` | internal/app/ratelimit.go:173-183 | the loop drops the leading timestamps before the cutoff |
| `RateLimit.IpSlot.TryAcquire` | internal/app/ratelimit.go:63-89 | verdict and new fields for every state, time and limits, in the order concurrent, per minute, per hour |
| `RateLimit.IpSlot.Release` | internal/app/ratelimit.go:92-99 | one lease less, never below zero |
| `RateLimit.IpSlot.ReadUsage` | internal/app/ratelimit.go:112-128 | reports the pruned windows and changes nothing else |
| `ProxyPool.UnusableExactly` | internal/app/proxy.go:71-92 | a proxy that starts healthy is unusable if and only if it is disabled, or its last five results were failures and the cooldown has not passed or is off |
| `ProxyPool.BreakerMatchesHistory` | internal/app/proxy.go:294-321 | `fail_count` is the current failure streak and `last_used` the time of the last result |
| `ProxyPool.PickFailsOnlyWhenFull` | internal/app/proxy.go:275-283 | a pick fails only if every usable proxy is full |
| `ProxyPool.PreferredExactly` | internal/app/proxy.go:265-283 | the pick is the preferred exit if and only if that is usable and has room; the round robin never comes to it otherwise |
| `ProxyPool.RoundRobinSpreads` | internal/app/proxy.go:276-283 | over any run of picks without preference from one pool with room before each pick: picks less than a pool apart are different proxies, and any pool-size of consecutive picks comes to everybody |
| `ProxyPool.PickAtCursor` | internal/app/proxy.go:276-281 | with room everywhere and nobody preferred the proxy at the cursor is picked and the cursor moves by one |
| `ProxyPool.EverybodyHasATurn` | internal/app/proxy.go:277-278 | one turn of the round robin asks every proxy of the pool |
| `ProxyPool.OneLeaseCounts` | internal/app/proxy.go:248-284 | a pick takes exactly one lease, on the proxy it returns, and none anywhere else |
| `ProxyPool.LeasesAreAccountedFor` | internal/app/ratelimit.go:63-99 | over any run of requests and releases every exit's `inflight` is the number of its leases taken and not given back, and stays within the concurrency limit |
| `ProxyPool.WindowsHoldPerExit` | internal/app/ratelimit.go:63-89 | over any run of requests, releases and usage reads with a clock that does not go back, no closed window of 60 or 3600 seconds holds more leases of any exit than its limit |
| `ProxyPool.ExitHistory` | internal/app/ratelimit.go:28-128 | in any such run the slot of every exit has a history like that of a slot on its own, and is exactly what that history makes it |
| `ProxyPool.DirectExactly` | internal/app/gemini.go:246-277 | a request leaves from the host's own address if and only if that slot has room and the list is empty, or the fallback is on and every usable proxy is full |
| `ProxyPool.ListEmptyExactly` | internal/app/proxy.go:41-68 | over any run of reloads, edits and results the list is empty if and only if no reload has worked since the start, or the table was empty at the last one that did |
| `ProxyPool.ListIsTable` | internal/app/proxy.go:41-68 | after a successful reload the list stays equal to the table under any results and failing reloads, until the table is edited |
| `ProxyPool.FailedFirstLoadExposesHost` | internal/app/gemini.go:247-277 | a table with a proxy, a first load that failed and the fallback off: the request still leaves from the host's own address |
| `ProxyPool.ReadingAgainIsIdle` | internal/app/proxy.go:171-182 | with a list equal to the table, a start has the same result whether or not the list can be read again after the drop |
| `ProxyPool.FilterUsable` | internal/app/proxy.go:256-261 | the pool is the usable part of the list, in order |
| `ProxyPool.Pool.LoadProxies` | internal/app/proxy.go:41-68 | the list becomes the table whatever it was before, or stays as it was if reading breaks off |
| `ProxyPool.Pool.RecordResult` | internal/app/proxy.go:294-321 | table and list get the same change of the same row, also when the list lags behind; id 0 changes nothing |
| `ProxyPool.Pool.ProxyCreate` | internal/app/proxy.go:325-342 | accepted exactly with a name and one of four schemes in any letter case; then one new row under a fresh id, enabled, with weight at least 1 and no failures, else no change; a list that was the table still is if and only if it could be read again or nothing changed |
| `ProxyPool.AcceptedMeans` | internal/app/proxy.go:350-358 | exactly which URLs are accepted, character by character |
| `ProxyPool.Pool.ProxyUpdate` | internal/app/proxy.go:360-394 | the given columns of one row change; a list that was the table still is if and only if it could be read again or nothing changed |
| `ProxyPool.Pool.ProxyDelete` | internal/app/proxy.go:396-402 | exactly the row with this id goes; a list that was the table still is if and only if it could be read again or nothing changed |
| `ProxyPool.Pool.ProxyResetFailures` | internal/app/proxy.go:404-410 | the failures of one row are cleared; a list that was the table still is if and only if it could be read again or nothing changed |
| `ProxyPool.Pool.PoolHasProxyUrl` | internal/app/proxy.go:225-234 | whether any row has this URL |
| `ProxyPool.Pool.DropSeededProxy` | internal/app/proxy.go:197-222 | for any list: removes at most the remembered row, and only if the list has it with the previous value as its URL; the list follows if it can be read |
| `ProxyPool.Pool.SyncSeededProxy` | internal/app/proxy.go:165-192 | for any list and any failing reads: table, both kv entries and list after a start with this value, on every branch including a rejected value |
| `ProxyPool.SyncMeans` | internal/app/proxy.go:165-192 | what a start does, case by case and column by column |
| `ProxyPool.Pool.TrySlot` | internal/app/ratelimit.go:63-89 | the verdict on the slot of one exit, and its change; no other slot is touched |
| `ProxyPool.Pool.ReleaseSlot` | internal/app/ratelimit.go:92-99 | gives one lease of this exit back and touches no other slot |
| `ProxyPool.Pool.ReadSlot` | internal/app/ratelimit.go:112-128 | reports the pruned windows of one exit and changes nothing else |
| `ProxyPool.Pool.TryPreferred` | internal/app/proxy.go:265-274 | the preferred exit is returned if it has room; otherwise no lease is taken |
| `ProxyPool.Pool.RoundRobin` | internal/app/proxy.go:276-283 | the first proxy with room from the cursor on, one lease, cursor one further |
| `ProxyPool.Pool.PickPreferring` | internal/app/proxy.go:248-284 | follows the rule preferred first, then round robin; returns a usable proxy; one lease; moves the cursor only if the round robin was used |
| `ProxyPool.Pool.AcquireSlot` | internal/app/gemini.go:246-277 | the exit, the direct exit or the refusal with its reason that the rule demands, at most one lease, and where the cursor is afterwards; the preferred exit whenever it can be used and has room; an exit is enabled and has fewer than five failures or has cooled down; the direct exit exactly with an empty list, or the fallback on and every usable proxy full |
| `Seeding.RestartDropsOnlyItsOwn` | internal/app/proxy.go:171-219 | after any run of starts, requests and panel edits, and whatever reads fail, a start removes a row only if an earlier start created it, its URL is the one it was created with, and the value now differs |
| `Seeding.Perform` | internal/app/proxy.go:165-410 | every operation of these runs, done on a pool, leaves the table and the kv entries that the step of the run says |
| `Seeding.UnchangedValueIsInvisible` | internal/app/proxy.go:166-170 | over any run of starts with an unchanged value, requests and panel edits, the result is that of the run without the starts |
| `Seeding.RestartsFollowLastValue` | internal/app/proxy.go:165-192 | over any run of starts with accepted or empty values and working first loads, with requests and resets in between, the pool is the original rows plus at most one row for the last value, health apart |
| `Seeding.FollowsExactly` | internal/app/proxy.go:165-192 | one such start keeps that relation if and only if the first load works, or the value is the old one, or nothing was to be dropped and no row has the new value |
| `Seeding.SyncIgnoresHealth` | internal/app/proxy.go:165-192 | a start neither reads nor changes failure counts, times and errors |
| `Seeding.UntouchedPoolFollows` | internal/app/proxy.go:165-192 | a pool that was never seeded is in that relation for the empty value, so the series may start anywhere |
| `Seeding.SeedLostExactly` | internal/app/proxy.go:168-191 | for every pool, however edited: the remembered exit stays in the pool if and only if the value is the old one, empty, accepted or in a row that is left, or the remembered row was taken over, or another row has its URL |
| `Seeding.SchemelessValueLosesSeed` | internal/app/proxy.go:171-188 | a pool with nothing but the seeded exit and the value "1.2.3.4:80": the exit is deleted and kv goes on naming it |
| `Seeding.LostSeedStaysLost` | internal/app/proxy.go:166-191 | for every pool: once the exit is lost, starts with the old value or with further refused ones change nothing at all |
| `Seeding.NoListLosesNothing` | internal/app/proxy.go:206-218 | a start whose first load failed never loses the remembered exit |
| `CookieJar.MergedPairs` | internal/app/cookie_pool.go:716-753 | re-parsing a merged string gives the old pairs in order with refreshed values, then the new names; without effective update the string is returned as it was |
| `CookieJar.MergedValue` | internal/app/cookie_pool.go:716-753 | every name has the value of its last effective update, or else its old value, whatever order the map yields |
| `CookieJar.MergeComposes` | internal/app/cookie_pool.go:716-753 | merging in two steps agrees with merging at once for every name |
| `CookieJar.UpdatesAreLast` | internal/app/cookie_pool.go:720-733 | the update of a name is its last Set-Cookie that is no deletion |
| `CookieJar.UpdatesMean` | internal/app/cookie_pool.go:720-733 | which header is an update, without the collected map: the last one whose first part is a pair and no deletion decides, and a name that none sets has none |
| `CookieJar.MergeFollows` | internal/app/cookie_pool.go:716-753 | the same about the merged string: plain headers win, deletions are as good as absent, and unnamed cookies keep their values |
| `CookieJar.LowerFinds` | internal/app/cookie_pool.go:729 | the lower-cased header contains a text in small letters exactly if the header spells it somewhere in any letter case |
| `CookieJar.UpdatesAreClean` | internal/app/cookie_pool.go:720-733 | every collected name and value survives being written and parsed again |
| `CookieJar.RenderRoundTrip` | internal/app/cookie_pool.go:57-66 | parsing the joined form of clean pairs gives the pairs back, repeated names included |
| `CookieJar.PairsAreClean` | internal/app/cookie_pool.go:57-66 | everything the parser returns is trimmed, named and free of separators |
| `CookieJar.IdentityIsFaithful` | internal/app/cookie_pool.go:760-771 | equal identities mean equal SAPISID and equal session id, unless a SAPISID contains the bar |
| `CookieJar.IdentityIsSharedExactly` | internal/app/cookie_pool.go:760-771 | a cookie string shares its identity with one of other values if and only if the joined values can be cut at another bar with no white space in front of it to be trimmed |
| `CookieJar.JoinedPartsAreSharedExactly` | internal/app/cookie_pool.go:770 | two other parts with the same joined text exist if and only if a part contains the bar |
| `CookieJar.CookieOfValues` | internal/app/cookie_pool.go:760-771 | every pair of values that nothing is trimmed or cut from occurs as the identity of some cookie string |
| `CookieJar.IdentityCanBeAmbiguous` | internal/app/cookie_pool.go:760-771 | two cookie strings with different SAPISID and session id and the same identity |
| `CookieJar.SplitCookiePairs` | internal/app/cookie_pool.go:57-66 | the loop yields the pairs of the specification |
| `CookieJar.CookieIdentity` | internal/app/cookie_pool.go:760-771 | the value of the last pair named SAPISID and that of the last one named __Secure-1PSID, nothing where there is none, joined by a bar |
| `CookieJar.CollectUpdates` | internal/app/cookie_pool.go:720-733 | the map of effective updates |
| `CookieJar.RefreshParts` | internal/app/cookie_pool.go:737-746 | every old pair in place, with the new value if there is one, and the set of old names |
| `CookieJar.NewParts` | internal/app/cookie_pool.go:747-751 | every name that is not among the old ones, each once, in some order |
| `CookieJar.MergeSetCookie` | internal/app/cookie_pool.go:716-753 | the merged string for some order of the new names; re-parsed, every name has its last update or else its old value: the last header that sets a name decides, a plain `name=value` sets it unless the value is empty and the header says "expires=thu, 01 jan 1970" in any letter case, and such a deletion is as good as absent |
| `CookieOrder.CanonicalIgnoresOrder` | internal/app/browser_cdp.go:844-875 | for parts with distinct names every capture order gives the same string |
| `CookieOrder.CanonicalIsPermutation` | internal/app/browser_cdp.go:844-875 | the parts of the result are a permutation of the input |
| `CookieOrder.CanonicalIsOrdered` | internal/app/browser_cdp.go:844-875 | the nine names come in their order, each with its last part, and all other parts behind them in bytewise order, as often as they came |
| `CookieOrder.LeMeans` | internal/app/browser_cdp.go:877-883 | the order is bytewise: a beginning, or smaller at the first difference |
| `CookieOrder.SortedIsUnique` | internal/app/browser_cdp.go:877-883 | two sorted arrangements of the same parts are equal |
| `CookieOrder.SortStrings` | internal/app/browser_cdp.go:877-883 | the in-place insertion sort sorts the array and permutes it |
| `CookieOrder.KeyedIsLookup` | internal/app/browser_cdp.go:853-865 | with distinct names the key items are exactly the parts bearing these names |
| `CookieOrder.Classify` | internal/app/browser_cdp.go:853-865 | key items and remaining parts, the last part of a name winning |
| `CookieOrder.PickInOrder` | internal/app/browser_cdp.go:867-872 | the key items in the fixed order |
| `CookieOrder.OrderCookieString` | internal/app/browser_cdp.go:844-875 | key items in fixed order, then the others sorted, joined; told by the places of the nine names and bytewise order, for every input, repeated names included |
| `AccountPool.FirstRoundIsFair` | internal/app/cookie_pool.go:441-470 | with equal health and nobody used since before the first pick, n picks over n enabled accounts are pairwise different |
| `AccountPool.FairExactly` | internal/app/cookie_pool.go:441-470 | for every table and every clock: the picks all differ if and only if there are enough enabled accounts and each of the first ones in the order comes before those ahead of it once these are stamped |
| `AccountPool.EveryWindowIsFair` | internal/app/cookie_pool.go:441-470 | with equal health and a clock that does not go back, every window of n consecutive picks that begins in a new second is fair, however many picks share a second within it |
| `AccountPool.SameSecondIsNotFair` | internal/app/cookie_pool.go:466 | once all accounts carry the current second, every further pick of that second goes to the same account |
| `AccountPool.WaitingServedFirst` | internal/app/cookie_pool.go:449-467 | while an account waits, one that waits is picked, and the others go on waiting |
| `AccountPool.NextIsFirst` | internal/app/cookie_pool.go:449-465 | the picked row is first by health, then last use, then id, among the enabled ones not skipped |
| `AccountPool.FailCountIsStreak` | internal/app/cookie_pool.go:484-520 | `fail_count` is the number of 401 and 403 results since the last 200, counted by position, all other results ignored |
| `AccountPool.DisabledExactly` | internal/app/cookie_pool.go:484-549 | without panel edits an account is disabled if and only if its results contain three 401 or 403 with no 200 between them |
| `AccountPool.Pool.PickExcept` | internal/app/cookie_pool.go:441-470 | returns the row before all other enabled ones not skipped, by fewer failures, then earlier use, then lower id, and stamps exactly this row; none is returned exactly if all enabled rows are skipped |
| `AccountPool.Pool.MarkByStatus` | internal/app/cookie_pool.go:484-520 | exactly one row changes: a 200 clears the failures, a 401 or 403 adds one and disables from the third on, and any other status changes at most the error text |
| `AccountPool.Pool.AutoDisableIfDead` | internal/app/cookie_pool.go:537-549 | disables the row exactly if it is enabled and has three failures |
| `AccountPool.Pool.UpdateAccountCookie` | internal/app/cookie_pool.go:779-791 | a refreshed cookie is stored only under the same identity; no identity ever changes |
| `AccountPool.Pool.TryAccounts` | internal/app/gemini.go:405-456 | at most three different accounts are tried, each the first of the order among the untried ones at that moment and stamped then, all but a successful last one having failed; giving up means three failures or no untried enabled account; exactly the accounts that failed get one authentication failure each, with their own error; and the whole table afterwards |
| `Rollup.ExactIsUnique` | internal/app/scheduler.go:94-160 | an exact table is determined by the requests, so no repetition of catch-ups and no sweep can show in it |
| `Rollup.ExactIsCounted` | internal/app/scheduler.go:128-150 | a table is exact if and only if it has a row for exactly the closed buckets and keys with a request, and every column is the count or sum its name says |
| `Rollup.TotalsReport` | internal/app/scheduler.go:140-149 | the totals of an interval are these counts and sums over its requests |
| `Rollup.RowsAddUp` | internal/app/scheduler.go:140-146 | every row has requests = successes + failures, and at least one request |
| `Rollup.ExactClose` | internal/app/scheduler.go:222-236 | closing one more bucket keeps every row equal to the total of all its requests |
| `Rollup.ExactInsert` | internal/app/scheduler.go:94-160 | requests in open hours leave the closed ones exact |
| `Rollup.LateInsertExactly` | internal/app/scheduler.go:94-160 | a request keeps the table exact if and only if it does not land in a bucket already closed |
| `Rollup.SweepIsHarmlessExactly` | internal/app/scheduler.go:258-259 | a sweep leaves every total still to come as it is if and only if it takes no request that no closed hour covers |
| `Rollup.SweepSpares` | internal/app/scheduler.go:258-259 | a sweep does not change the total of any interval behind its cutoff |
| `Rollup.HoursAreTotals` | internal/app/scheduler.go:161-189 | the hourly rows of any stretch sum to all requests of its closed hours |
| `Rollup.DayIsCompleteExactly` | internal/app/scheduler.go:161-220 | a daily row is the true total of its day for every key if and only if no request of the day still waits for its hourly roll-up |
| `Rollup.LateDailyRow` | internal/app/scheduler.go:72-90 | two requests, an hourly catch-up at 23:30 and a daily one just after midnight: the row of the day reports one of them, and the catch-ups of the following days leave it so |
| `Rollup.ShortDay` | internal/app/scheduler.go:161-189 | when hour 23 waits for its roll-up the hourly rows of the day hold one of these two requests |
| `Rollup.DayGroupsAreExact` | internal/app/scheduler.go:161-220 | a day all of whose hours are closed gets a row for exactly the keys with requests, with their totals |
| `Rollup.NewestBucket` | internal/app/scheduler.go:53-54 | the largest bucket, or 0 for an empty table |
| `Rollup.OldestBucket` | internal/app/scheduler.go:80-81 | the smallest bucket, or 0 for an empty table |
| `Rollup.OldestRequest` | internal/app/scheduler.go:60-61 | the earliest time, or 0 without requests |
| `Rollup.GroupRequests` | internal/app/scheduler.go:128-150 | one group for exactly the keys with a request in the hour: requests, those with status 200 and the others are counted, milliseconds, prompt tokens and output tokens are summed, each column by a count or sum of its own; and all their latencies |
| `Rollup.RankGroups` | internal/app/scheduler.go:227-228 | every group gets the percentiles of its latencies |
| `Rollup.RanksClose` | internal/app/scheduler.go:222-236 | closing one more hour keeps the percentile columns those of all requests ever inserted |
| `Rollup.RanksOfReport` | internal/app/scheduler.go:239-251 | the columns have rank n*50/100 and n*95/100 among the n requests of the hour and key, by counting the faster and the not slower ones |
| `Rollup.LatenciesAreCounted` | internal/app/scheduler.go:140-149 | a group has as many latencies as requests |
| `Rollup.GroupHours` | internal/app/scheduler.go:161-189 | one group for exactly the keys with hourly rows of the day, each with the sum of these rows |
| `Rollup.Upsert` | internal/app/scheduler.go:222-236 | the rows of one bucket are written, in any order, and no other changes |
| `Rollup.Stats.Insert` | internal/app/scheduler.go:128-131 | a request in an open hour keeps every closed row exact, percentiles included |
| `Rollup.Stats.AggregateHour` | internal/app/scheduler.go:94-160 | closes one hour exactly, totals column by column and percentile columns, from the live requests alone; repeated on a closed hour it changes nothing |
| `Rollup.Stats.HourlyStart` | internal/app/scheduler.go:53-66 | between the starting point and the true boundary there is no request |
| `Rollup.Stats.CloseHours` | internal/app/scheduler.go:67-69 | the loop closes every hour before the open one |
| `Rollup.Stats.HourlyCatchup` | internal/app/scheduler.go:52-70 | after any downtime every hour before the current one is exact over all requests ever inserted: a row for exactly the hours and keys with a request, with the counts by status, the sums and the percentile columns of these; within the hour a second run changes nothing |
| `Rollup.Stats.AggregateDay` | internal/app/scheduler.go:161-220 | writes one day from its hourly rows; if all its hours are closed, these are the totals of all its requests |
| `Rollup.Stats.DailyStart` | internal/app/scheduler.go:72-86 | one day behind the newest row, or the day of the oldest hourly row; nothing to do exactly if there is neither |
| `Rollup.Stats.CloseDays` | internal/app/scheduler.go:87-89 | appends one row group per closed day and changes none |
| `Rollup.Stats.DaysStayExact` | internal/app/scheduler.go:72-90 | after a daily catch-up every closed day that is not late is exact over all requests: the days it closed, the days before it and the days it passed by |
| `Rollup.NothingLate` | internal/app/scheduler.go:72-90 | while no day is late, the daily table as a whole is exact |
| `Rollup.DaysInsert` | internal/app/scheduler.go:72-90 | a request in an open hour belongs to no day that counts as exact |
| `Rollup.Stats.DailyCatchup` | internal/app/scheduler.go:72-90 | rows are only appended, from one day behind the newest row on, each the sum of its hourly rows; day by day the rows are exact over all requests ever inserted, unless a daily run passed that day before its hours were closed, which is exactly what makes a day late; counts and sums are told column by column, for late days over the hours closed by then |
| `Rollup.Stats.RetentionSweep` | internal/app/scheduler.go:254-267 | after a catch-up, deletes exactly the requests before the cutoff, 86400 seconds a day, changes no statistics and keeps them exact |
| `Rollup.Stats.Boot` | internal/app/scheduler.go:16-18 | all hours and days that are over are closed, no day becomes late, every day caught up on is exact, and exactly the requests before the cutoff are gone |
| `Percentiles.LatencyPercentiles` | internal/app/scheduler.go:239-251 | both percentiles have the rank the index asks for, by counting smaller and not larger latencies; 0 for none; the first is not above the second |
| `Percentiles.SortedHoldsRanks` | internal/app/scheduler.go:243-249 | position k of the sorted latencies holds the value with rank k |
| `Percentiles.RankIsUnique` | internal/app/scheduler.go:239-251 | at most one value has a rank, so the order of the latencies cannot show |
| `Percentiles.RanksAreOrdered` | internal/app/scheduler.go:239-251 | a later rank has no smaller value |
| `Conversations.ConvStore.Get` | internal/app/conversation.go:57-72 | returns the entry exactly if it is stored and at most 5400 seconds old; an older one is removed; nothing else changes |
| `Conversations.ConvStore.Put` | internal/app/conversation.go:75-101 | stores with the current time; at most 4000 entries; nothing is lost while there is room, else exactly the expired entries if any, else exactly one that is updated no later than any other |
| `Conversations.ConvStore.Evict` | internal/app/conversation.go:82-100 | the one-pass loop does this for every iteration order of the map |
| `Conversations.ConvStore.Delete` | internal/app/conversation.go:47-54 | exactly this key goes; the empty key is ignored |
| `Conversations.CanonicalMessages` | internal/app/conversation.go:105-114 | the builder loop writes role, 0x1f, content, 0x1e for every message |
| `Conversations.CanonicalIsInjective` | internal/app/conversation.go:105-114 | different histories have different canonical texts unless a role or content contains a separator |
| `Conversations.CanonicalIsSharedExactly` | internal/app/conversation.go:105-114 | another history with the same canonical text exists if and only if there are two or more messages, or a single one with a unit separator inside |
| `Conversations.CanonicalCanCollide` | internal/app/conversation.go:105-114 | two different histories, of one message and of two, with the same canonical text |
| `Conversations.ContinuationIsFound` | internal/app/conversation.go:123-136 | the parent key of a history sent back with the answer and one more message is the child key it was stored under; with an injective hash and no separators no other history has that key |
| `QueueDaemon.CountsAreConserved` | tools/cookie-sync/queue_daemon.py:311-387 | after any run with crashes anywhere and rows swept at any time, the counting 502 rows up to the stored `lastRequestId` are the pending ones, those reported by the jobs ever written to the file, and those swept before they were read |
| `QueueDaemon.PollMissesExactly` | tools/cookie-sync/queue_daemon.py:106-121 | a poll passes a counting row unread if and only if one was swept behind the last id it knew |
| `QueueDaemon.LateSweepsMissNothing` | tools/cookie-sync/queue_daemon.py:102-126 | if every sweep takes only rows up to the stored id, nothing is missed over any run |
| `QueueDaemon.JobsStartAtMostOnce` | tools/cookie-sync/queue_daemon.py:365-387 | no job number is started twice across restarts, no started job waits in the file, and the jobs taken but not started are exactly those a crash found in hand |
| `QueueDaemon.EveryNumberIsAccountedFor` | tools/cookie-sync/queue_daemon.py:328-387 | every number ever written belongs to a waiting job or to a taken one, and never to both |
| `QueueDaemon.LaterRowsCountOnce` | tools/cookie-sync/queue_daemon.py:102-126 | once an id is stored, over any later run each counting row passed is counted exactly once, as pending, reported or missed by a sweep |
| `QueueDaemon.BaseStays` | tools/cookie-sync/queue_daemon.py:286-288 | once an id is stored no restart moves the base of the count, and the id never decreases |
| `QueueDaemon.StartSkipsExactly` | tools/cookie-sync/queue_daemon.py:286-288 | a start passes over counting rows if and only if no id is stored yet, the table can be read and it has such rows |
| `QueueDaemon.EmptyStartLosesRows` | tools/cookie-sync/queue_daemon.py:286-288 | a run in which a daemon first started on an empty table never counts the first failed request |
| `QueueDaemon.NothingStalls` | tools/cookie-sync/queue_daemon.py:328-346 | after any run a scheduled job is due within one period and a reached threshold within one cooldown |
| `QueueDaemon.ScheduleSurvives` | tools/cookie-sync/queue_daemon.py:282-304 | a stored moment for the next scheduled fetch stays where it is over every run of starts, crashes, polls and jobs before it in which no threshold fires |
| `QueueDaemon.ScheduleFires` | tools/cookie-sync/queue_daemon.py:340-346 | after any such run the first look at the clock at or behind that moment enqueues one scheduled fetch and sets the next one a period later |
| `QueueDaemon.BacklogFiresAtOnce` | tools/cookie-sync/queue_daemon.py:290-293 | a stored backlog of at least the threshold fires in the first iteration after a start, whatever cooldown was stored |
| `QueueDaemon.StepKeepsInv` | tools/cookie-sync/queue_daemon.py:275-387 | every change of the variables, every write, every crash and every start keeps counts, numbers and timers consistent, in the file and in memory |
| `QueueDaemon.HitsSplit` | tools/cookie-sync/queue_daemon.py:106-120 | polls at different moments divide the rows without overlap or gap |
| `QueueDaemon.PollRows` | tools/cookie-sync/queue_daemon.py:102-126 | the highest id and the number of rows behind the last one with status 502, in cookie mode only those whose text contains one of the seven hints |
| `QueueDaemon.Daemon.WriteState` | tools/cookie-sync/queue_daemon.py:302-304 | the file becomes the variables |
| `QueueDaemon.Daemon.Outside` | tools/cookie-sync/queue_daemon.py:102-115 | rows come and go and the process is killed without the daemon's doing: its variables and the file stay as they are |
| `QueueDaemon.Daemon.Load` | tools/cookie-sync/queue_daemon.py:276-298 | the variables after loading, field by field from the file: a future schedule and, below the threshold, the cooldown are kept; a schedule that has passed starts anew; the highest id is read only if none is stored |
| `QueueDaemon.Daemon.Start` | tools/cookie-sync/queue_daemon.py:276-306 | the same variables, written at once; one load and one write of the state machine |
| `QueueDaemon.Daemon.PollRequests` | tools/cookie-sync/queue_daemon.py:317-326 | all variables afterwards: the highest id read and the counting rows behind the old one added, written before anything else |
| `QueueDaemon.Daemon.EnqueueOnErrors` | tools/cookie-sync/queue_daemon.py:328-337 | at the threshold and outside the cooldown one job accounts for all pending rows, the next schedule is a period and the cooldown its length away; else nothing changes |
| `QueueDaemon.Daemon.EnqueueOnSchedule` | tools/cookie-sync/queue_daemon.py:340-346 | one job when the timer is due, which then starts anew |
| `QueueDaemon.Daemon.EnqueueOnExpiredSession` | tools/cookie-sync/queue_daemon.py:355-362 | a login job only while the queue is empty |
| `QueueDaemon.Daemon.EnqueueWhatIsDue` | tools/cookie-sync/queue_daemon.py:317-362 | the sources of jobs in their order: all variables afterwards, written, and a run of the state machine |
| `QueueDaemon.Daemon.ExecuteFirst` | tools/cookie-sync/queue_daemon.py:365-387 | the first job, if any waits, is started once, with rows arriving meanwhile; else nothing happens |
| `QueueDaemon.Daemon.TakeJob` | tools/cookie-sync/queue_daemon.py:365-367 | the first job and nothing else leaves the queue, and the file no longer has it when it is run |
| `QueueDaemon.Daemon.RunJob` | tools/cookie-sync/queue_daemon.py:368-387 | the job is started once; a successful login puts one fetch in front of the queue |
| `QueueDaemon.Daemon.Iterate` | tools/cookie-sync/queue_daemon.py:311-387 | one pass, with rows arriving while the job runs: all variables afterwards; the rows are read, a due threshold or timer gives a job, at most one job runs, the first that waited if any did, no due threshold is left behind; and it is a run of the state machine |
| `QueueDaemon.PassDoesItsWork` | tools/cookie-sync/queue_daemon.py:317-346 | what a pass adds up to: the newest id read, more job numbers if anything was due, one job for all pending rows, and the jobs that waited still in front |
| `QueueDaemon.PassKeepsTime` | tools/cookie-sync/queue_daemon.py:317-346 | what one pass makes of the pending count and of both timers |
| `QueueDaemon.PassQueues` | tools/cookie-sync/queue_daemon.py:328-362 | the jobs one pass puts behind those that wait: one for all failures if they are due, a scheduled one only if that is still due then, and a login only into an empty queue |

## Left out

- HTTP, TLS, WebSocket, browser control, uploads and HTML or JSON scraping: what upstream answers is an arbitrary input.
- `cleanGeminiText`: cleaned frames and the final text are arbitrary inputs of the streaming lemmas.
- The JSON inside a tool call and its random id: only the removal of its text is modelled.
- The reasoning stream: it uses the same tracker and tail functions without the gate.
- SHA-256: the hash of a conversation is an arbitrary function, injective where `ContinuationIsFound` needs it.
- The fields of a conversation other than `updated`: nothing in the store reads them.
- Rollup.GroupHours: the p50 and p95 columns of daily rows, which are averages of the hourly ones, are not computed.
- Rollup.Stats.AggregateDay: the same two columns are not written.
- Rollup.Stats.Insert: a request that lands in an hour already closed is not accepted; `LateInsertExactly` says it would break the row.
- Rollup.Stats.RetentionSweep: a sweep ahead of the catch-up is not accepted; `SweepIsHarmlessExactly` says when it would lose requests.
- Wrap-around of the round-robin cursor after 2^64 picks, and of the counters.
- Slots are values in a map of `Pool`; `IpSlot` is the object form of one slot, and the two are tied through the same functions.
- Weights of proxies are stored but never used for picking, in the original as here.
- The one-time migrations of old settings and the seeding of the cookie file: the same pattern as `SyncSeededProxy` on another table.
- Binding an account to an exit after a successful try, and the session-ticket rotation inside the account loop: `works` stands for its outcome.
- The account slot `authuser`, which the pick does not read.
- Go's rejection of overlong and surrogate UTF-8 forms in trimming: texts are decoded by their lead bytes.
- Error texts are cut by characters instead of bytes.
- Row errors that make a roll-up or a pick skip a row.
- Deletion of expired sessions in `retentionSweep`: it does not touch the statistics.
- An exception between taking a job and finishing it: for the queue it is a failed run of the job.
- History, last job and login flags in the daemon's state file: other keys, carried along by every write.
- Stopping the daemon by an interrupt: one more write, then an end.
- The session watchdog's own timer: whether it looks is part of its outcome.
- StreamPipeline.StreamToClient: how many events one frame gives is not stated, only what they add up to after each frame.
- QueueDaemon.Daemon.Iterate: rows that arrive while no job runs are steps between two passes.

# bnkscope: verified model of its algorithms

bnkscope watches F5 BNK clusters. Around its Kubernetes, Loki and Redis traffic sit
a number of small algorithms that have to be right for any input. This project
models them in Dafny and proves what they keep, undo and refine. `dafny verify
dfyconfig.toml` checks all of it.

What is modelled, one or more modules per source file:

- **The exporter's `remote_write` encoder** (`Varint`, `RemoteWriteCodec`, `RemoteWrite`)
  against a general proto3 reader that knows nothing about it (`ProtoReader`, after the
  Protocol Buffers Encoding guide, sections "Base 128 Varints" and "Length-Delimited
  Records").
- **The exporter's RESP2 client** (`Decimal`, `Resp`, `RedisClient`): the recursive reply
  reader, the request writer and the SCAN walk (Redis serialization protocol
  specification, sections "Bulk strings" and "Arrays").
- **The exporter's tables and text page** (`ExporterSamples`, `Exposition`): the filter
  that works in its own array, name sanitising, and the grouping promise of the
  Prometheus text format, section "Grouping and sorting".
- **The TTL and LRU cache** (`CacheSpec`, `Cache`) against a plain unbounded TTL map.
- **The histogram p95** (`Histogram`) against the true nearest-rank p95 of the observations.
- **LogQL construction** (`LogQueries`) against a LogQL reader (`LogQl`), **range queries**
  (`LogRange`), **paging** (`LogPaging`) and **series folding** (`SeriesFold`, `FoldLaws`).
- **The follow loop's decoding and line splitting** (`Utf8`, `LineFollow`) and **the ICMP checksum**
  (`IcmpChecksum`; section 1 of RFC 1071 and the Echo message of RFC 792).
- **State machines over stored rows**: cluster discovery (`DiscoverySpec`,
  `DiscoveryLaws`, `Discovery`), alert dispatch (`AlertSpec`, `AlertLaws`, `Alerts`), the
  release registry (`ReleaseSpec`, `ReleaseLaws`, `Releases`).
- **Kubeconfigs**: the normaliser, local discovery, and the two composed
  (`Yaml`, `KubeconfigNormalizer`, `KubeconfigDiscovery`).

`Bytes` and `Ordering` hold machine integers, lexicographic order and sorting. A source
loop is a method with a loop, an object with fields is a class; each is proved equal to a
function of its inputs, and the promises are lemmas about that function. What comes from
outside (probe answers, clock readings, Loki's and Redis' bytes, file contents, the
database's row order) is a parameter and is never restricted more than the text below says.

## Where the code and its own words part

The model follows the code. Each of these has a lemma giving the exact condition, a
concrete input, or both.

- `alert_service.py:80` subtracts the stored stamp from an aware clock. SQLite, which
  `core/config.py:110` and `docker-compose.yml:56` configure, gives a
  `DateTime(timezone=True)` back without its zone, and the subtraction raises; and any
  integer is taken for an interval, where `timedelta` holds 999999999 days either way. A
  call completes exactly when no enabled matching channel with an interval was sent to
  before and has one out of range or a stamp without a zone (`CompletesExactlyWhen`), and
  exactly then each matching channel gets its one history row (`OneRowEachExactlyWhen`).
  On SQLite that fails at the second alert after a commit (`SecondCallRaises`,
  `TwoAlertsOnSqlite`), out of range at the second alert anywhere (`OversizedRaises`), and
  for ever after (`StuckForEver`); on a database that keeps the zone, with intervals in
  range, it never does (`ZoneKeptCompletes`).
- `k8s_websocket.py:375` decodes each chunk by itself. The follow finishes, and sends
  exactly the nonempty lines, exactly when every chunk decodes (`Follow`): for valid text,
  when no cut falls inside a character (`EachDecodesExactlyWhen`). Otherwise it stops
  there with the piece it had buffered unsent (`CutInsideCharacter`).
- `redis.go:129-133` gives up on an error even when the read that brought it filled the
  buffer. A read of 4096 bytes or more may come with the connection's end, so a whole
  reply that ends in such a bulk string can be reported as EOF; no other can
  (`ReadFull`, `ReadReply`, `LateCosts`, `LongBulkEndsLong`).
- `remotewrite.go:21-23` speaks of sorted, unique label names. Nothing makes them unique:
  they are unique exactly when the metric name, external and key labels were
  (`StrictExactlyWhenDistinct`), and with a clash the unstable sort leaves the order open
  (`OrderingForced`).
- A RESP error inside an array ends the read, and the siblings after it stay in the
  stream: the connection stays in step exactly when nothing follows an error inside a
  value (`InStepExactlyWhen`).
- `cluster_discovery_service.py:439-440` promises a display name free of collisions. With
  all ninety-nine candidate names taken the last resort may be taken too, and
  exactly then the flush, and with it the run, fails (`ProcessFailsExactlyWhen`,
  `RunFailsExactlyWhen`).
- `release_registry_service.py:160-161` promises at most one OCI row for a tag. The session
  does not flush before a query (`database.py:68`), so a new tag listed twice in one call
  gets two rows (`OneRowPerTagExactlyWhen`).
- `llm_observability_service.py:560` compares rows, not entries, with the limit, and steps
  below the oldest timestamp. A finished run has everything exactly when the stored
  entries, taken in strides of the limit, have more than the gap between a full stride and
  the next entry, and nothing older is left behind a stride with a line that is not JSON
  (`CompleteExactlyWhen`). The gap is 0 at a store that answers up to and including the
  end it is asked for, and 1 at one that leaves the end out, as Loki's HTTP API says; there an
  entry one nanosecond below a page is on none (`OneBelowLost`).
- The LogQL escapes do not cover a newline, nor NUL, which Go's scanner reports: a filter
  or search text that holds one gives a query that is not LogQL at all (`BuildQuery`,
  `RequestSelector`, `RequestLogQuery`).
- `kubeconfig_discovery.py:126-128` says it never raises. It completes exactly when every
  file it can open is text, `contexts` can be walked, names can be looked up, and the
  first definition of each name is one Python can build a context from
  (`DiscoversExactlyWhen`); a numeric `server` is enough to raise (`NumericServerRaises`),
  where `contexts: x` is walked and skipped (`TextContextsSkipped`).
- Discovery accepts an exec command by the last component of its path, the normaliser
  compares the whole string: an adoptable context is refused exactly when its command
  names a directory (`AdoptableAcceptedExactlyWhen`).
- `main.go:414-416` speaks of fe80::/10. An IPv6 address is dropped exactly when its
  first group is fe80 (`LinkLocalExactlyWhen`); fe90::1 is kept (`KeptLinkLocal`).
- `connectivity_probe_service.py:108-109` folds twice. For any number of words that keeps
  the sum modulo 65535 exactly when the second fold carries nothing out of the low word,
  or a multiple of 65535 (`TwoFoldsExactlyWhen`); what the probe sends is far below the
  length where it can (`LongPacketMiscounted`).
- `backend_health.py:83-84` compares itself with `histogram_quantile`, which keeps label
  sets apart. Nothing but `le` is looked at here: with two label sets the target is 95% of
  the second one's total, and the bucket answered from is that of the true p95 exactly
  when the added counts cross there too (`TwoSetsExactlyWhen`, `TwoSetsMiss`).
- A test alert sent through `fire_alert` itself would count towards the totals like any
  other: the totals agree with the non-test rows exactly when no dispatched alert is typed
  "test" (`OneKeepsCounters`).
- `main.go:252` collects tokens once per segment. With any number of segments the page
  is grouped exactly when every family two runs of samples share goes through from one to
  the other (`SegmentsGroupedExactlyWhen`); with two segments and the same tokens, exactly
  when there are none, or one family of them and no table sample in the second segment
  (`TwoSegmentsGroupedExactlyWhen`).
- `llm_observability_service.py:187-189` puts its patterns between quotes unescaped. One
  reads back as itself exactly when it holds no backslash, quote, newline or NUL
  (`RawReadsBackExactlyWhen`); every caller passes the constant `2..`.

## Model

| member | source | states |
|---|---|---|
| `Varint.AppendUvarint` | tmm-stat-exporter/remotewrite.go:96-102 | the shifting loop appends exactly the varint of the value and keeps what was there |
| `Varint.UvarintRoundTrip` | tmm-stat-exporter/remotewrite.go:96-102 | for every uint64 and every suffix, an independent ten-byte-bounded reader gets the value back and consumes exactly the bytes emitted, at most ten |
| `Varint.UvarintMinimal` | tmm-stat-exporter/remotewrite.go:96-102 | no byte string a reader takes for a value is shorter than the one emitted |
| `Varint.SignedRoundTrip` | tmm-stat-exporter/remotewrite.go:116-119 | every int64 survives the cast to uint64, the varint and the cast back; a negative one takes exactly ten bytes |
| `RemoteWriteCodec.LabelRoundTrip` | tmm-stat-exporter/remotewrite.go:76-81 | a label's bytes, names and values arbitrary, decode to that label |
| `RemoteWriteCodec.PointRoundTrip` | tmm-stat-exporter/remotewrite.go:83-88 | the exact double bits and int64 timestamp come back |
| `RemoteWriteCodec.SeriesRoundTrip` | tmm-stat-exporter/remotewrite.go:52-56 | a series decodes to its labels in order and its single point |
| `RemoteWriteCodec.RequestRoundTrip` | tmm-stat-exporter/remotewrite.go:40-58 | the whole request decodes, no byte left over, to one series per sample in order |
| `RemoteWriteCodec.WireFormat` | tmm-stat-exporter/remotewrite.go:76-88 | a short label, point and series byte by byte: field numbers, wire types, the double little-endian |
| `RemoteWriteCodec.RequestFormat` | tmm-stat-exporter/remotewrite.go:57 | a short request byte by byte |
| `RemoteWrite.EncodeLabel` | tmm-stat-exporter/remotewrite.go:76-81 | emits the two length-delimited fields the label's decoding is proved about |
| `RemoteWrite.EncodeSample` | tmm-stat-exporter/remotewrite.go:83-88 | emits the fixed64 and varint fields the point's decoding is proved about |
| `RemoteWrite.DropPerInstance` | tmm-stat-exporter/remotewrite.go:63-74 | the external labels other than pod and node, order kept |
| `RemoteWrite.SortByName` | tmm-stat-exporter/remotewrite.go:50 | in place, leaves a name-sorted permutation; callers rely on no more, as `sort.Slice` is not stable |
| `Ordering.LexLeExactlyWhen` | tmm-stat-exporter/remotewrite.go:50 | the order meant: one is the start of the other, or has the smaller code at the first difference |
| `RemoteWrite.EncodeRequest` | tmm-stat-exporter/remotewrite.go:38-59 | every sample's label list is a name-sorted permutation of `__name__`, the external labels it is entitled to and its key labels |
| `RemoteWrite.BuildWriteRequest` | tmm-stat-exporter/remotewrite.go:24-61 | a general proto3 reader consumes every byte and finds one series per sample, in order: `__name__` with the metric, all of the sample's own labels, all external ones (but pod and node on a cluster-shared sample) and no other, each as often as given; names in byte order; the exact value bits and timestamp |
| `RemoteWrite.OrderingForced` | tmm-stat-exporter/remotewrite.go:50 | the sort's result is determined by the labels alone if and only if labels sharing a name are equal |
| `RemoteWrite.StrictExactlyWhenDistinct` | tmm-stat-exporter/remotewrite.go:21-23 | names come out strictly increasing, hence unique, if and only if they went in distinct |
| `RemoteWrite.GlobalSeriesAgreeExactlyWhen` | tmm-stat-exporter/remotewrite.go:25-45 | a cluster-shared sample encodes to identical bytes from any two exporters whose external labels agree apart from pod and node, whatever the two sorts did, if and only if its labels that share a name are equal |
| `RemoteWrite.ExternalLabelsKept` | tmm-stat-exporter/remotewrite.go:42-49 | other samples keep every external label; a shared one keeps all but pod and node |
| `Decimal.ItoaRoundTrip` | tmm-stat-exporter/redis.go:93-95 | every 64-bit integer reads back from its decimal text |
| `Resp.Parse` | tmm-stat-exporter/redis.go:78-124 | a success consumes at least three bytes and no outcome invents any, which is why the recursion ends |
| `Resp.RoundTrip` | tmm-stat-exporter/redis.go:78-124 | for every value (nested arrays, nulls, payloads holding CRLF, errors anywhere) and every trailing bytes, the reader returns that value and leaves exactly the trailing bytes, or reports the first error and leaves the siblings after it |
| `Resp.WireExamples` | tmm-stat-exporter/redis.go:86-123 | one value of each kind as the specification writes it |
| `Resp.LinesThatFail` | tmm-stat-exporter/redis.go:86-123 | every line that is no value: server error, unknown type, bad number, null, too little payload; what is reported and what is left |
| `Resp.NoLine` | tmm-stat-exporter/redis.go:79-85 | no line feed is the end of input, a line of fewer than three bytes a short reply |
| `Resp.RoundTripAll` | tmm-stat-exporter/redis.go:115-121 | the same for the elements of an array |
| `Resp.InStepExactlyWhen` | tmm-stat-exporter/redis.go:116-120 | no byte of a value is left in the stream if and only if nothing follows an error inside it |
| `Resp.LateCosts` | tmm-stat-exporter/redis.go:126-134 | where a reply ends in a long bulk string, the end of the connection come with its last bytes costs the value |
| `Resp.LongBulkEndsLong` | tmm-stat-exporter/redis.go:102-106 | for a lone bulk string that can happen if and only if payload and terminator are 4096 bytes or more |
| `RedisClient.RedisClient.Read` | tmm-stat-exporter/redis.go:129 | any nonempty part of what is there, up to the size asked for; a read of 4096 bytes or more may bring the last bytes and the end of the connection at once |
| `RedisClient.RedisClient.ReadFull` | tmm-stat-exporter/redis.go:126-136 | fails exactly when there are too few bytes or the read that completes the buffer brings the end with it; otherwise exactly the next bytes, however the reads were cut |
| `RedisClient.RedisClient.ReadReply` | tmm-stat-exporter/redis.go:78-124 | value or error and bytes left are those of the parsing function on the bytes as good as delivered: all of them, or one less where the end came with the last of a long bulk string |
| `RedisClient.RedisClient.ReadTyped` | tmm-stat-exporter/redis.go:86-123 | the switch on the type byte, every branch and error |
| `RedisClient.RedisClient.ReadItems` | tmm-stat-exporter/redis.go:115-121 | the array loop stops at the first failing element |
| `RedisClient.RedisClient.Do` | tmm-stat-exporter/redis.go:66-75 | one request out and one reply in; a flush that fails may have sent any part of the request from its start, reads nothing, and nothing is sent after it |
| `RedisClient.RedisClient.ScanMatch` | tmm-stat-exporter/redis.go:139-163 | keys, ending and bytes left are those of the cursor walk over the bytes as good as delivered; so are the bytes sent, up to part of the request a flush failed in |
| `RedisClient.CommandRoundTrip` | tmm-stat-exporter/redis.go:66-75 | the reader applied to the writer's bytes returns the argument list, whatever it holds, and takes nothing more |
| `RedisClient.WalkCollectsAll` | tmm-stat-exporter/redis.go:139-163 | a complete walk returns every string of every page in order, quotes each page's cursor in the next request and leaves what follows unread |
| `RedisClient.WalkReturnsKeys` | tmm-stat-exporter/redis.go:139-163 | over pages of bulk strings the keys returned are the pages' keys, page after page, and the requests sent are one per page, the first with cursor 0, each other with the cursor of the page before |
| `RedisClient.StringsAre` | tmm-stat-exporter/redis.go:152-157 | of any batch exactly the strings are taken, in order |
| `CacheSpec.InvariantHolds` | backend/core/cache.py:31-77 | over every run with a clock that never goes back: bounded size, entries in order of last touch, agreement with the unbounded map, every missing live key explained |
| `CacheSpec.EvictionLaw` | backend/core/cache.py:34-77 | a hit is the latest live value, never an expired, deleted or overwritten one; an unexpired key misses only if it was crowded out; the bound holds |
| `CacheSpec.EvictionLawExact` | backend/core/cache.py:54-60 | over every such run, deletions and gets of expired keys included, a live key misses if and only if it was crowded out: at some set 2048 distinct other keys had each been set or hit after its last touch and not been taken out since, by a delete or by a get after their time |
| `Cache.CacheService.Get` | backend/core/cache.py:41-52 | the answer is the value of the key's entry if it has not expired; a miss leaves no entry of the key, a hit moves it to the young end, and every other entry stays; a live key misses if and only if crowded out |
| `Cache.CacheService.Set` | backend/core/cache.py:54-60 | the entry is youngest and the size is back within its bound |
| `Cache.CacheService.PopOldest` | backend/core/cache.py:58-59 | the popping loop leaves the youngest 2048 |
| `Cache.CacheService.Delete` | backend/core/cache.py:62-64 | removes that key only, and says whether it was there |
| `Cache.CacheService.DeletePattern` | backend/core/cache.py:66-72 | removes exactly the matching keys and counts them |
| `Cache.CacheService.ClearAll` | backend/core/cache.py:74-77 | empties the store |
| `Cache.DiscardMatching` | backend/core/cache.py:69-71 | deleting the collected keys one by one is discarding by the pattern |
| `Histogram.HistogramP95` | backend/jobs/backend_health.py:79-121 | no answer exactly without buckets or observations; otherwise the interpolation of the first bucket that reaches the target |
| `Histogram.EstimateIs` | backend/jobs/backend_health.py:107-120 | the rule in numbers: which bucket answers, and the interpolated value; the unbounded bucket apart |
| `Histogram.BucketsOfIs` | backend/jobs/backend_health.py:92-103 | which samples count: those of the name with a bound that can be read, each one, in order |
| `Histogram.Scan` | backend/jobs/backend_health.py:109-121 | never divides by zero and never reaches the last return |
| `Histogram.CrossingBucketHoldsP95` | backend/jobs/backend_health.py:112-113 | the bucket that crosses the target holds the true nearest-rank p95 of any observations the buckets were counted from |
| `Histogram.EstimateAccuracy` | backend/jobs/backend_health.py:113-118 | estimate and true p95 lie in one bucket; the error is at most its width, and in the unbounded bucket the estimate is the largest finite bound, below the true value |
| `Histogram.P95Exists` | backend/jobs/backend_health.py:109-113 | whatever was observed has a nearest-rank p95 and a crossing bucket |
| `Histogram.NearestRankUnique` | backend/jobs/backend_health.py:83-87 | the nearest-rank p95 is one value |
| `Histogram.TwoSetsExactlyWhen` | backend/jobs/backend_health.py:92-118 | buckets of two label sets with the same bounds: the one answered from holds the p95 of all observations if and only if the added counts cross there; the target is 95% of the second set's total |
| `Histogram.TwoSetsMiss` | backend/jobs/backend_health.py:92-118 | one slow and one fast observation: the answer is a tenth of a second, their p95 five |
| `LogQueries.EscapeIsPerCharacter` | backend/services/llm_observability_service.py:52-59 | the two successive replacements are one substitution per character |
| `LogQueries.QuotedReadsBack` | backend/services/logs_service.py:97-99 | a quoted value reads back as itself, quotes and backslashes included, if and only if it holds no newline and no NUL |
| `LogQueries.SelectorReadsBack` | backend/services/logs_service.py:104 | a reader finds exactly the matchers, in order, before any pipeline |
| `LogQueries.LineFilterReadsBack` | backend/services/logs_service.py:106-111 | a reader finds exactly the search text |
| `LogQueries.BuildQuery` | backend/services/logs_service.py:69-113 | a hand-written query passes through; otherwise the reader recovers exactly the given label/value pairs in order and the stripped search text, if and only if none holds a newline or a NUL |
| `LogQueries.FiltersIs` | backend/services/logs_service.py:90-99 | one matcher for each filter that is set, in order, and no other |
| `LogQueries.StripIs` | backend/services/logs_service.py:85-86 | what is left of a text lies together in it, with nothing but space around |
| `LogQueries.RequestSelector` | backend/services/llm_observability_service.py:174-190 | on any arguments the parts as written; with patterns that need no escaping it reads back as the job, model and status matchers given, if and only if model and status hold no newline and no NUL |
| `LogQueries.RawReadsBackExactlyWhen` | backend/services/llm_observability_service.py:186-189 | a pattern quoted as it stands reads back as itself if and only if it holds no backslash, quote, newline or NUL |
| `LogQueries.RequestLogQuery` | backend/services/llm_observability_service.py:544-546 | the request-log query reads back with its selector, search text and JSON stage |
| `LogRange.QueryRange` | backend/services/logs_service.py:116-161 | every line of every stream is counted, those returned are newest first, and none cut off is newer than one returned |
| `LogRange.FlattenIs` | backend/services/logs_service.py:137-158 | the lines are those of every stream in turn, each under its labels, with "unknown" for a missing level |
| `Ordering.StableSortIsStable` | backend/services/logs_service.py:160 | the sort leaves ties in order |
| `SeriesFold.FillBucket` | backend/services/llm_observability_service.py:402-404 | each point's value is appended to its timestamp's list and to no other |
| `SeriesFold.Aggregate` | backend/services/llm_observability_service.py:398-404 | the nested dictionary holds, for each key that occurs and each timestamp, the values in row order |
| `SeriesFold.SortedKeys` | backend/services/llm_observability_service.py:406-409 | the keys in strictly ascending code-point order |
| `SeriesFold.Fold` | backend/services/llm_observability_service.py:391-412 | one series per key that occurs, names and timestamps strictly ascending, each value the sum or mean of what was recorded |
| `SeriesFold.ProviderIs` | backend/services/llm_observability_service.py:86-96 | which provider a model belongs to, capitals or not |
| `SeriesFold.ValuesIs` | backend/services/llm_observability_service.py:391-412 | what is recorded under a key at a time: the values of that time in the rows of that key, row by row |
| `FoldLaws.FoldConserves` | backend/services/llm_observability_service.py:391-412 | folding with sums conserves the total at every timestamp |
| `FoldLaws.FoldKeepsPickedTotals` | backend/services/llm_observability_service.py:391-412 | and the total over any choice of keys |
| `FoldLaws.FoldUnique` | backend/services/llm_observability_service.py:406-412 | the result is determined |
| `FoldLaws.FoldIgnoresRowOrder` | backend/services/llm_observability_service.py:399-404 | sum or mean, the result does not depend on the order of the rows |
| `FoldLaws.ProviderThroughModels` | backend/services/llm_observability_service.py:86-96 | folding by provider is folding by model and folding that by provider |
| `FoldLaws.MeanBetween` | backend/services/llm_observability_service.py:408 | a mean lies between any bounds its inputs share |
| `LogPaging.ParseLogLines` | backend/services/llm_observability_service.py:563-603 | the JSON-object lines newest first, ties in stream order, and the oldest timestamp of all entries; raises exactly on a line that cannot become a row |
| `LogPaging.FlattenIs` | backend/services/llm_observability_service.py:567-575 | the entries are the well-formed pairs of every stream in turn |
| `LogPaging.RecordsIs` | backend/services/llm_observability_service.py:577-603 | the rows are the records among the entries, in order |
| `LogPaging.Logs` | backend/services/llm_observability_service.py:529-561 | the rows are those of the newest entries of the window and the cursor is one below the oldest, present exactly when the rows fill the limit |
| `LogPaging.PagesStrictlyOlder` | backend/services/llm_observability_service.py:560 | no entry comes twice; each page is strictly older than those before and newest first within |
| `LogPaging.CompleteExactlyWhen` | backend/services/llm_observability_service.py:541-560 | whether or not the store answers the end it is asked for: a finished run fetches everything down to the last window's start if and only if the store, walked newest first in strides of the limit, leaves more than that gap after each full stride of records and nothing older within the range behind one with a line that is no record |
| `LogPaging.SomeListing` | backend/services/llm_observability_service.py:541-560 | the listing that condition speaks of exists for every store |
| `LogPaging.SpacedTimesComplete` | backend/services/llm_observability_service.py:541-560 | with timestamps further apart than the gap, so merely distinct at a store that answers the end too, nothing is lost |
| `LogPaging.OneBelowLost` | backend/services/llm_observability_service.py:560 | at a store that leaves the end out, two entries a nanosecond apart and pages of one: the older is on no page |
| `LogPaging.PagesListEverything` | backend/services/llm_observability_service.py:529-561 | laid end to end, the pages are the newest-first list of all matching entries, timestamps being so spaced |
| `LogPaging.FullPageStopsExactlyWhen` | backend/services/llm_observability_service.py:560 | a full page has no successor if and only if one of its lines is not JSON |
| `LineFollow.Follow` | backend/routes/k8s_websocket.py:364-397 | finishes if and only if every chunk of bytes decodes by itself, and then has sent exactly the nonempty lines of the decoded whole in order; otherwise exactly the whole lines before the first bad chunk |
| `LineFollow.CutInsideCharacter` | backend/routes/k8s_websocket.py:371-377 | a two-byte letter cut in half ends the follow with nothing sent |
| `Utf8.EachDecodesExactlyWhen` | backend/routes/k8s_websocket.py:375 | for valid text every chunk decodes by itself if and only if no cut falls inside a character |
| `Utf8.RoundTrip` | backend/routes/k8s_websocket.py:375 | the decoder gives back every text that was encoded |
| `Utf8.OnlyEncoding` | backend/routes/k8s_websocket.py:375 | and accepts no other bytes for it |
| `LineFollow.SplitJoins` | backend/routes/k8s_websocket.py:391 | splitting loses nothing and leaves no newline in a piece |
| `LineFollow.SplitUnique` | backend/routes/k8s_websocket.py:391 | no other list of newline-free pieces joins to the text |
| `LineFollow.SplitAppend` | backend/routes/k8s_websocket.py:390-393 | only the last piece can still grow |
| `IcmpChecksum.Checksum` | backend/services/connectivity_probe_service.py:106-110 | the complement of the twice folded word sum; up to 65536 words it cancels the sum modulo 65535 |
| `IcmpChecksum.FoldCongruent` | backend/services/connectivity_probe_service.py:108-109 | two folds keep the sum modulo 65535 in the low word, which is zero only for a zero sum |
| `IcmpChecksum.ChecksumVerifies` | backend/services/connectivity_probe_service.py:104-111 | with the checksum in its word, wherever that sits, the words of every packet of at most 65536 words fold to 0xFFFF |
| `IcmpChecksum.TwoFoldsExactlyWhen` | backend/services/connectivity_probe_service.py:108-109 | for any sum, two folds keep it modulo 65535 if and only if what the second carries out of the low word is a multiple of 65535 |
| `IcmpChecksum.LongPacketMiscounted` | backend/services/connectivity_probe_service.py:104-110 | a packet of 65539 words whose check word does not cancel its sum |
| `DiscoveryLaws.UniqueNameIsFree` | backend/services/cluster_discovery_service.py:439-450 | the name found is free whenever one of the ninety-nine is |
| `DiscoveryLaws.FewCollisions` | backend/services/cluster_discovery_service.py:441-449 | fewer than ninety-nine colliding names leave one free |
| `DiscoveryLaws.ProcessKeeps` | backend/services/cluster_discovery_service.py:325-376 | one context: ids and names stay unique, no row is dropped or renamed, no context gets a second row |
| `DiscoveryLaws.ProcessRegisters` | backend/services/cluster_discovery_service.py:350-376 | afterwards the context has a row if and only if it had one or met the rule, and the report names it |
| `DiscoveryLaws.ProcessIs` | backend/services/cluster_discovery_service.py:325-376 | one context over its fields: which are only reported, which row is refreshed, when one is added, and every field of that row |
| `DiscoveryLaws.UniqueNameIs` | backend/services/cluster_discovery_service.py:439-450 | the context's own name, else the first free suffix from 2 to 99, else the last resort |
| `DiscoveryLaws.SweepReports` | backend/services/cluster_discovery_service.py:253 | one report for each context, in order, with the state it was found in |
| `DiscoveryLaws.BackfillIs` | backend/services/cluster_discovery_service.py:271-297 | row by row: which are probed, and what a probe that answers or fails leaves on record |
| `DiscoveryLaws.ProcessFailsExactlyWhen` | backend/services/cluster_discovery_service.py:359-371 | the flush fails if and only if a context to be registered finds all ninety-nine names and the last resort taken |
| `DiscoveryLaws.SweepFailsExactlyWhen` | backend/services/cluster_discovery_service.py:253 | a sweep fails if and only if some candidate finds no name on the table as the candidates before it left it |
| `DiscoveryLaws.RunFailsExactlyWhen` | backend/services/cluster_discovery_service.py:238-254 | so does a whole run, on the backfilled table |
| `DiscoveryLaws.SweepRegisters` | backend/services/cluster_discovery_service.py:253 | the registration rule, if and only if, over a whole sweep |
| `DiscoveryLaws.RunKeeps` | backend/services/cluster_discovery_service.py:238-269 | a run drops, renames and renumbers nothing and adds no second row for a context |
| `DiscoveryLaws.RunRegisters` | backend/services/cluster_discovery_service.py:238-269 | the registration rule over backfill and sweep |
| `DiscoveryLaws.RunTwiceAddsNothing` | backend/services/cluster_discovery_service.py:238-269 | a repeat on unchanged contexts and probes cannot fail and adds no row |
| `DiscoveryLaws.RefreshForgetsNothing` | backend/services/cluster_discovery_service.py:350-357 | a known row is refreshed in place; a failed probe empties no version, namespace or component list |
| `DiscoveryLaws.BackfillSettles` | backend/services/cluster_discovery_service.py:271-297 | a row is re-probed until a probe succeeds and never after |
| `DiscoveryLaws.ActionPreserves` | backend/services/cluster_discovery_service.py:238-319 | one run, adoption or rename keeps every id, context and name constraint |
| `DiscoveryLaws.HistoryPreserves` | backend/services/cluster_discovery_service.py:238-319 | so does any sequence of them, with arbitrary probe results |
| `DiscoveryLaws.ContextsStayUnique` | backend/services/cluster_discovery_service.py:427-437 | one row per context, once true, stays true over every history |
| `Discovery.ClusterDiscoveryService.UniqueName` | backend/services/cluster_discovery_service.py:439-450 | the search loop returns a free name whenever there is one |
| `Discovery.ClusterDiscoveryService.ProcessOne` | backend/services/cluster_discovery_service.py:325-376 | table and report are those of the step function; a name clash changes nothing |
| `Discovery.ClusterDiscoveryService.BackfillFootprints` | backend/services/cluster_discovery_service.py:271-297 | exactly the rows without a footprint are probed, and the successes counted |
| `Discovery.ClusterDiscoveryService.RunSweep` | backend/services/cluster_discovery_service.py:238-269 | reports, count and table are those of backfill and sweep; a failure leaves the table as it was |
| `Discovery.ClusterDiscoveryService.AdoptOne` | backend/services/cluster_discovery_service.py:299-319 | not found, not adoptable with its reasons, or processed with everything allowed; reachable means registered |
| `AlertLaws.OneKeepsCounters` | backend/services/alert_service.py:101-126 | handling a channel keeps its totals equal to its sent and failed rows if and only if it sends nothing or the alert is not typed "test" |
| `AlertLaws.TestKeepsCounters` | backend/services/alert_service.py:311-326 | a test alert moves no total, interval or tally, found or not |
| `AlertLaws.OneKeepsSpacing` | backend/services/alert_service.py:77-93 | an attempt starts at least the interval after the channel's previous one was recorded |
| `AlertLaws.FireReports` | backend/services/alert_service.py:60-142 | the rows a completed call adds and the results it returns correspond one to one, in channel order |
| `AlertLaws.ResultsExactlyMatching` | backend/services/alert_service.py:62-75 | in what a completed call returns, each enabled matching channel has exactly one result, any other none |
| `AlertLaws.CompletesExactlyWhen` | backend/services/alert_service.py:62-80 | a call completes if and only if no enabled matching channel that was sent to has an interval out of range, or a nonzero one and a stamp without a zone |
| `AlertLaws.OneRowEachExactlyWhen` | backend/services/alert_service.py:67-116 | each enabled matching channel gets exactly one history row and any other none, if and only if the same condition holds |
| `AlertLaws.StopsAtFirst` | backend/services/alert_service.py:67-80 | otherwise the channels before the first such one are handled, and no other |
| `AlertLaws.SecondCallRaises` | backend/services/alert_service.py:78-80 | on a database that drops the zone, every matching alert after a dispatch and a commit raises |
| `AlertLaws.OversizedRaises` | backend/services/alert_service.py:78-80 | an interval out of range lets one alert through: every matching one after it raises, on any database |
| `AlertLaws.TwoAlertsOnSqlite` | backend/services/alert_service.py:78-80 | such a run of two alerts, written out, next to the same run on a database that keeps the zone |
| `AlertLaws.StuckForEver` | backend/services/alert_service.py:78-119 | a channel that raises so is never sent to again while its interval stays, whatever else happens |
| `AlertLaws.ZoneKeptCompletes` | backend/services/alert_service.py:46-142 | on a database that keeps the zone, with intervals in range, every call of every run completes and gives each matching channel its one row |
| `AlertLaws.RunKeeps` | backend/services/alert_service.py:46-142 | over every run of alerts, test alerts, edits and commits with a clock that never goes back, on either kind of database and whichever calls raise: attempts never closer than the interval, totals equal to the non-test rows |
| `Alerts.AlertService.FireAlert` | backend/services/alert_service.py:46-142 | raises if and only if a channel makes it, with the channels before it handled; otherwise one row and one result for each matching channel, in order, and each channel is sent to, recorded and left as its own fields say |
| `AlertLaws.SentExactlyWhenDue` | backend/services/alert_service.py:67-133 | a channel is sent to if and only if it is enabled, its filters pass, and it was never fired, has no interval or the interval is over; its row is then sent or failed as the request went, rate limited if the interval is not over; and what the channel shows afterwards |
| `AlertLaws.RaisesExactlyWhen` | backend/services/alert_service.py:67-80 | the raising condition over the fields, the bounds of timedelta in seconds |
| `Alerts.AlertService.HandleChannel` | backend/services/alert_service.py:67-133 | filters, the raising interval check, rate limit, dispatch and bookkeeping, branch by branch |
| `Alerts.AlertService.SendTest` | backend/services/alert_service.py:293-328 | says whether the channel exists; adds one row typed "test" that no tally counts, so totals that agreed with the history still do; channels and attempts stay |
| `Releases.ParseVersionParts` | backend/services/bnk_version.py:13-29 | the loop with its early break gives the leading integers, or (0) |
| `ReleaseLaws.OrderFreeExactlyWhen` | backend/services/release_registry_service.py:65-109 | a query resolves the same in every row order if and only if one row answers in the pass that decides |
| `Releases.ReleaseRegistryService.AnswerOrderFree` | backend/services/release_registry_service.py:65-109 | the same of the service, over any table whose ids are distinct |
| `ReleaseLaws.PrefixesClashExactlyWhen` | backend/services/release_registry_service.py:211-223 | some version matches two prefixes if and only if they are equal or one continues the other past a dot |
| `ReleaseLaws.SeparateRowsOrderFree` | backend/services/release_registry_service.py:65-109 | with unrelated prefixes, disjoint half-open ranges and distinct manifests every query is independent of row order |
| `ReleaseLaws.SyncKeepsAnswers` | backend/services/release_registry_service.py:170-204 | syncing changes no answer to any query |
| `ReleaseLaws.ObservedKeepsAnswers` | backend/services/release_registry_service.py:134-147 | nor does recording an observed version |
| `ReleaseLaws.SyncTwiceAddsNothing` | backend/services/release_registry_service.py:178-188 | the same tags again add nothing, repeated tags included |
| `ReleaseLaws.OneRowPerTagExactlyWhen` | backend/services/release_registry_service.py:156-205 | a call adds at most one row per tag if and only if no new tag is listed twice |
| `Releases.ReleaseRegistryService.ResolveGa` | backend/services/release_registry_service.py:65-109 | by prefix, failing that by half-open version range, failing that by manifest: the answer is that of the first active row in order that meets the condition, and there is none if and only if no active row meets any |
| `ReleaseLaws.ResolveIs` | backend/services/release_registry_service.py:65-109 | the same of the resolving function, every condition written out |
| `ReleaseLaws.SplitVersionIs` | backend/services/bnk_version.py:24 | a version is split at every dash and dot and nowhere else |
| `Releases.ReleaseRegistryService.GetOrCreateObserved` | backend/services/release_registry_service.py:111-147 | the existing row or one new one, and every query answered as before |
| `Releases.ReleaseRegistryService.CollectTags` | backend/services/release_registry_service.py:166-202 | the rows to add, freshly numbered, and how many tags resolved |
| `Releases.ReleaseRegistryService.SyncFromOci` | backend/services/release_registry_service.py:156-205 | the counts, the new table, every query answered as before, and nothing left to add; every row added is for a listed tag that resolves and was not on record, under its label and inactive, and every such tag has one |
| `KubeconfigNormalizer.NormalizeClusters` | backend/services/kubeconfig_normalizer.py:154-173 | the loop over entries, popping, skipping or refusing each, equals the list function, exceptions included |
| `KubeconfigNormalizer.NormalizeUsers` | backend/services/kubeconfig_normalizer.py:176-221 | the same for users, their three path fields and exec blocks |
| `KubeconfigNormalizer.NormalizeKubeconfig` | backend/services/kubeconfig_normalizer.py:68-109 | on success the document is portable and normalising it again changes nothing |
| `KubeconfigNormalizer.ResultPortable` | backend/services/kubeconfig_normalizer.py:154-221 | no cluster or user keeps a nonempty path or an exec command off the allowlist |
| `KubeconfigNormalizer.Idempotent` | backend/services/kubeconfig_normalizer.py:68-109 | normalising twice is normalising once |
| `KubeconfigNormalizer.RestUntouched` | backend/services/kubeconfig_normalizer.py:154-221 | nothing changes but paths whose inline form is present |
| `KubeconfigNormalizer.AcceptedExactlyWhen` | backend/services/kubeconfig_normalizer.py:92-109 | a document is accepted if and only if its lists can be walked, each path has its inline form and each exec command is allowed |
| `KubeconfigNormalizer.CheckExecIs` | backend/services/kubeconfig_normalizer.py:203-221 | an exec block passes if and only if its command is one of three; a list or mapping there raises |
| `KubeconfigDiscovery.InlinePaths` | backend/services/kubeconfig_discovery.py:226-263 | field by field: dropped, replaced by the file's contents, or a blocker |
| `KubeconfigDiscovery.InlinedHasNoPaths` | backend/services/kubeconfig_discovery.py:226-263 | without a blocker no path is left |
| `KubeconfigDiscovery.InlinedContents` | backend/services/kubeconfig_discovery.py:237-262 | what replaces each path, and that every other field stays |
| `KubeconfigDiscovery.AdoptableAcceptedExactlyWhen` | backend/services/kubeconfig_discovery.py:161-205 | an adoptable context is accepted by the normaliser if and only if its exec command, if any, names no directory |
| `KubeconfigDiscovery.AdoptableExactlyWhen` | backend/services/kubeconfig_discovery.py:161-205 | a context can be adopted if and only if its cluster is found and has a server, every path of cluster and user can be read, and its exec command, if any, is one of three |
| `KubeconfigDiscovery.BuiltIs` | backend/services/kubeconfig_discovery.py:161-205 | what a context carries, and the document made of it: one cluster, context and user under the names the context uses |
| `KubeconfigDiscovery.AllNamedIs` | backend/services/kubeconfig_discovery.py:134-147 | the contexts looked at: the named mappings of every list, file after file |
| `KubeconfigDiscovery.FirstWins` | backend/services/kubeconfig_discovery.py:143-151 | one context per name, built from the first definition of that name |
| `KubeconfigDiscovery.DiscoverContexts` | backend/services/kubeconfig_discovery.py:123-153 | the contexts of all readable files, distinct in name, or that it raises |
| `KubeconfigDiscovery.DiscoversExactlyWhen` | backend/services/kubeconfig_discovery.py:123-153 | it completes if and only if every file it opens is text, contexts can be walked, names can be looked up, and each name's first definition can be built; later ones are never looked into |
| `KubeconfigDiscovery.BuildsExactlyWhen` | backend/services/kubeconfig_discovery.py:161-205 | a context can be built if and only if its context is a mapping or nothing, `dict` takes its cluster and user, its paths are texts a file can have, its server parses and its exec lists can be walked as far as the guesses go |
| `KubeconfigDiscovery.DictExactlyWhen` | backend/services/kubeconfig_discovery.py:168-169 | `dict` takes nothing, a mapping, or a list of pairs with keys that hash |
| `KubeconfigDiscovery.NumericServerRaises` | backend/services/kubeconfig_discovery.py:286-298 | one context whose server is a number makes the whole call raise |
| `KubeconfigDiscovery.TextContextsSkipped` | backend/services/kubeconfig_discovery.py:143-145 | a text for the list of contexts is walked and gives none |
| `ExporterSamples.DropInternal` | tmm-stat-exporter/main.go:381-412 | while overwriting the array it reads, leaves exactly the order-preserving filter in front and the rest of the array as it was |
| `ExporterSamples.InternalExactlyWhen` | tmm-stat-exporter/main.go:392-419 | what makes a row internal: a key text that starts with an underscore or decodes to a link-local address |
| `ExporterSamples.KeptExactly` | tmm-stat-exporter/main.go:392-410 | nothing internal is kept and every other row is kept as often as it occurred |
| `ExporterSamples.LinkLocalExactlyWhen` | tmm-stat-exporter/main.go:414-419 | an IPv6 address counts as link-local if and only if its first group is fe80 |
| `ExporterSamples.KeptLinkLocal` | tmm-stat-exporter/main.go:414-419 | fe90::1, inside fe80::/10, does not |
| `ExporterSamples.SanitizeName` | tmm-stat-exporter/main.go:515-535 | the loop gives a legal Prometheus name for every nonempty input |
| `ExporterSamples.SanitizeIs` | tmm-stat-exporter/main.go:515-535 | character by character: legal ones stay, others become underscores, a leading digit gets one |
| `ExporterSamples.SanitizeKeepsValid` | tmm-stat-exporter/main.go:515-535 | legal names are left alone |
| `ExporterSamples.SanitizeCollides` | tmm-stat-exporter/main.go:515-535 | different columns can end up with one name, hence the side condition below |
| `ExporterSamples.CollectColumn` | tmm-stat-exporter/main.go:230-247 | one sample per kept row: the metric, the row's number in the column or 0, and each key column's name made legal with the row's text, addresses decoded |
| `ExporterSamples.CollectTable` | tmm-stat-exporter/main.go:208-248 | a block per numeric column over the kept rows |
| `ExporterSamples.CollectSegment` | tmm-stat-exporter/main.go:202-253 | tables in the configured order, missing or unreadable ones skipped, tokens last |
| `ExporterSamples.SegmentSamplesAre` | tmm-stat-exporter/main.go:202-248 | of each configured table that is there and readable, in order, the blocks of its value columns over the rows kept |
| `ExporterSamples.MetricIs` | tmm-stat-exporter/main.go:229-231 | how a metric is named after table and column |
| `Exposition.HandleMetrics` | tmm-stat-exporter/main.go:421-448 | the header, then a TYPE line wherever the metric changes; past the header the page shows exactly the samples, in order |
| `Exposition.GroupStartsWithType` | tmm-stat-exporter/main.go:435-446 | in a grouped page every sample follows its family's TYPE line with nothing else in between |
| `Exposition.PageGroupedExactlyWhen` | tmm-stat-exporter/main.go:421-448 | one TYPE line per family with its samples contiguous after it, if and only if equal metrics stand together and none borrows the header's names |
| `Exposition.SortedTokensContiguous` | tmm-stat-exporter/main.go:317-323 | sorted tokens stand together by metric, whichever sort ran |
| `Exposition.OneSegmentGrouped` | tmm-stat-exporter/main.go:161-254 | for one segment with distinct tables and metric names the page is grouped |
| `Exposition.Collect` | tmm-stat-exporter/main.go:164-188 | every segment's samples, one health row each in one block, and the failure of the first segment only |
| `Exposition.SegmentsGroupedExactlyWhen` | tmm-stat-exporter/main.go:164-254 | for any number of segments, each tidy by itself, the page is grouped if and only if every family two runs share goes through from one to the other and none borrows the header's names |
| `Exposition.TwoSegmentsGroupedExactlyWhen` | tmm-stat-exporter/main.go:250-252 | two segments with the same tokens: grouped if and only if there are none, or one family of them and no table sample in the second segment |
| `Exposition.PartsAreSamples` | tmm-stat-exporter/main.go:164-187 | what `collect` gathers is those runs laid end to end |
| `Exposition.FlatContiguousExactlyWhen` | tmm-stat-exporter/main.go:435-446 | contiguous runs laid end to end are contiguous if and only if every metric two of them share goes through |

## Left out

- Snappy compression, TLS, HTTP, WebSocket and Kubernetes transport, the scheduler: only
  what they deliver appears, as parameters.
- `RemoteWrite.BuildWriteRequest`: label names and values are byte strings; that a proto3
  `string` must be UTF-8 is not checked. The decoding is stated for requests shorter than
  2^63 bytes, which every Go slice is.
- `RemoteWrite.EncodeRequest`: field numbers are the 1 and 2 the schema uses.
- `RedisClient.RedisClient.ReadReply`: Go's panic on allocating a huge announced length is
  not modelled; such a bulk string reads as a short input. The connection's end is the only
  read error; timeouts are not modelled.
- `RedisClient.RedisClient.ScanMatch`: `get`, and reading token members and their values,
  are not modelled; tokens are given as sorted samples.
- `ExporterSamples.CollectSegment`: the tmstat parser, `DecodeAddr` and number formatting
  are taken as given; text is characters here and bytes in the encoder.
- `Exposition.HandleMetrics`: lines are values, not text; label escaping is not modelled.
- `Cache.CacheService.Get`: `None` as a stored value cannot be told from a miss in the
  source; here a hit on it is a hit. Glob matching is a predicate, calls are sequential
  (the source holds a lock), and `cached` with its key building is left out.
- `Histogram.EstimateAccuracy`: numbers are reals, so rounding is not modelled, nor are
  NaN and negative infinity as bounds; the accuracy is stated for one label set's buckets
  with distinct nonnegative bounds, as Prometheus writes them. More than two label sets are
  answered as `HistogramP95` says, but not compared with the true p95.
- `LogQueries.BuildQuery`: the reader knows one-letter escapes; it needs no others, since
  none are written.
- `LineFollow.Follow`: the stream is bytes, as urllib3 gives it; the error message sent
  after a failure, and the client going away, are not modelled.
- `LogRange.QueryRange`: timestamps arrive as integers; a malformed value raises in the source.
- `SeriesFold.Fold`: values are reals; Python's float sums depend on order in the last bits.
  `str.lower` beyond ASCII is not modelled.
- `LogPaging.CompleteExactlyWhen`: stored timestamps are above 1, since a cursor of 0 reads
  as "now", and the store does not change below the cursor while paging. Which fields a row
  shows, and the store being unavailable, are not modelled.
- `DiscoveryLaws.HistoryPreserves`: sweeps and adoptions are sequential; concurrent
  sessions are not modelled. Encryption of kubeconfigs, log lines and the probe itself
  are left out; provider and region of a candidate are given.
- `AlertLaws.RunKeeps`: the interval of a channel is fixed over the run and ids are
  distinct; a caller that rolls the session back after an alert was sent loses its stamp,
  and rollbacks are not part of the runs. Payloads, HTTP status and durations are not
  modelled.
- `Releases.ParseVersionParts`: Python's `int` on one part is a parameter.
- `KubeconfigNormalizer.NormalizeKubeconfig`: YAML text is taken as its parsed document;
  anchors that share one mapping between entries, numbers other than integers, dates, sets
  and binary scalars, and messages to the user, are left out.
- `KubeconfigDiscovery.DiscoversExactlyWhen`: which texts `urlparse` refuses is given. A
  pair written as a two-key mapping inside a list handed to `dict`, exec arguments written
  as a mapping, and Python's `True == 1` as names are left out: the first is taken to
  raise, the second to hold no region.
- `KubeconfigDiscovery.BuildsExactlyWhen`: no text of the model holds a lone surrogate,
  which YAML's escapes can write and which makes `open` raise on a path that has one.
- `KubeconfigDiscovery.DiscoverContexts`: the search path for kubeconfig files and the
  values of the provider and region guesses are left out; base64 is opaque.
- Rankings, trends, filter data, usage and the other read-only endpoints, and the row
  schemas: they would add easy members only.
- `jobs/health_monitor.py` and the exporter's push loop are not part of this model.

# MikroTik dashboard core, modelled in Dafny

The dashboard is a single PHP page. On each request it serves its cached
snapshot while that snapshot is fresh. Otherwise it asks a MikroTik router
over SSH for three things, in order:

1. the device metadata from `/system/resource/print`;
2. the interface list from `/interface/print`, filtered by an exact list
   or by case-insensitive name patterns;
3. the traffic rates of each selected interface, from
   `/interface/monitor-traffic ... once`.

The new snapshot is then cached. Any exception raised while talking to the
router turns into a failure result carrying the exception's message.

This project models that core, with one module per concern:

- `Text`: the PHP string primitives the parsers use.
  - `trim` and PCRE `\s`
  - `explode` and `implode`
  - `preg_split('/\s+/')`
  - ASCII `strtolower` and `stripos`
  - digit filtering and integer reading
- `KvParser`: `parse_kv_lines`, which turns RouterOS print output into rows.
  It covers terse `key=value` lines and `key: value` fragments.
- `Channel`: `ros_exec` and the exceptions raised by `ssh_connect` and
  `ros_exec`. The router is an oracle that maps each command string to its
  output or to a fault.
- `Probe`: `ros_print_any` (terse, then as-value, then bare) and
  `ros_uptime_cpu`. Each probe records the commands it sent, in order.
- `Interfaces`: `ros_interfaces_filtered`, in exact mode and in pattern mode.
- `Rate`: `parse_rate_to_bps`. The float cast is modelled as an exact
  decimal, and `round` rounds halves away from zero.
- `Monitor`: `ros_monitor_once` and `ros_monitor_ethernet_bulk`.
- `Cache`: `cache_get` and `cache_set`, as a class holding the cache file's
  snapshot and its modification time.
- `Poll`: the controller. It serves a cache hit; otherwise it makes a fresh
  poll and caches only a success.
- `Scenarios`: worked examples from the documented behaviour. They cover the
  rate examples, the parser's response shapes, both selection modes, a TTL
  of 0, an unreachable router, and two polls in a row.

Every loop of the source is a method proved against the function that
specifies it. The properties that matter are proved about those functions.

Where the code and its documented behaviour part ways, the model follows
the code:

- Kept lines are never empty, so the blank-line branch of `parse_kv_lines`
  (index.php:55) and that of `ros_monitor_ethernet_bulk` (index.php:137)
  never run. As a result, all `key: value` fragments of a response merge
  into one row, which comes after the terse rows. Two blank-line-separated
  blocks naming `eth0` and then `eth1` give the single row
  `{name: eth1, type: ether}`.
- The cache's age test is `>` (index.php:187), so the bound is inclusive.
  With the configured TTL of 0, a second read in the same second is a hit.
- A `cpu-load` value without any digits reads as 0, not as a missing load.
- A rate written with a minus sign and a unit reads as a negative number.
- In pattern mode, a name carried by two rows is listed twice.

## Model

| member | source | states |
|---|---|---|
| Text.Trim | index.php:44 | trim strips exactly the leading and trailing trim characters; the result is empty iff the input is all trim characters, otherwise it starts and ends with a non-trim character |
| Text.TrimIdempotent | index.php:44 | trimming twice is trimming once |
| Text.TrimOfPadded | index.php:44 | trim of a word padded with trim characters is that word |
| Text.TrimKeepsChars | index.php:44 | every character of the trimmed text comes from the input |
| Text.Lower | index.php:120 | strtolower lower-cases each character in place and keeps the length |
| Text.LowerIdempotent | index.php:120 | lower-casing twice is lower-casing once |
| Text.IndexOf | index.php:61 | the first occurrence of a character: no earlier character equals it |
| Text.IndexOfAt | index.php:61 | a position holding the character with none before it is the first occurrence |
| Text.Explode | index.php:51 | explode never returns an empty list, no piece holds the separator, and imploding the pieces gives the input back |
| Text.ExplodeImplode | index.php:51 | exploding the implosion of separator-free pieces gives those pieces back |
| Text.SplitAtFirst | index.php:61 | `explode($c, $s, 2)`: the head has no `c`, and head, `c` and tail rebuild the input |
| Text.SplitOnSpaceRuns | index.php:59 | preg_split on `\s+` yields at least one piece and no piece holds whitespace |
| Text.SplitOnSpaceRunsKeepsText | index.php:59 | the pieces, concatenated, are exactly the input's non-whitespace characters |
| Text.SplitOnSpaceRunsKeepsChar | index.php:59 | every non-whitespace character of the input lands in some piece |
| Text.SplitOnSpaceRunsOfWords | index.php:59 | splitting non-empty words joined by single spaces gives the words back |
| Text.SplitOnSpaceRunsCuts | index.php:59 | the pieces and the whitespace runs between them interleave back to the input; there is one run fewer than pieces, every run is non-empty whitespace, and every piece but the first and last is non-empty |
| Text.SplitOnSpaceRunsFirst | index.php:59 | the first piece is the input up to its first whitespace character |
| Text.SplitOnSpaceRunsEnds | index.php:59 | the first piece is empty iff the input is empty or starts with whitespace, and the last piece is empty iff it is empty or ends with whitespace |
| Text.DigitsOnly | index.php:87 | `preg_replace('/[^0-9]/', '', ...)` yields only digits, never more characters than the input |
| Text.DigitsOnlyAppend | index.php:87 | the digit filter distributes over concatenation |
| Text.DecimalValueOfShowNat | index.php:87 | reading back the decimal rendering of a number gives the number |
| Text.DecimalValueSnoc | index.php:87 | appending a digit shifts the value one place and adds the digit |
| KvParser.KeepTruthy | index.php:51 | every kept line is trimmed (no trim character at either end) and truthy (neither "" nor "0"), and there are no more lines than pieces |
| KvParser.KeepTruthyOne | index.php:51 | one piece is kept, trimmed, iff its trimmed text is truthy |
| KvParser.KeepTruthyAppend | index.php:51 | the filter distributes over concatenation, so it keeps the pieces' order |
| KvParser.KeepTruthyMembers | index.php:51 | a line is kept iff it is truthy and is the trimmed text of some piece |
| KvParser.KeptLines | index.php:51 | every line the parsers iterate over is trimmed, truthy and free of newlines |
| KvParser.KeptLinesOfLines | index.php:51 | the kept lines of newline-joined lines are exactly those lines, trimmed, minus the falsy ones |
| KvParser.FirstPresent | index.php:86 | `??` chains: None iff no key is present, otherwise the value of the first present key |
| KvParser.FirstPresentOfFirst | index.php:86 | the first present key decides the lookup |
| KvParser.FirstPresentOfTwo | index.php:92 | `$r[a] ?? ($r[b] ?? null)` spelled out case by case |
| KvParser.AssignPairs | index.php:59-63 | the tokens' assignments only add keys: every earlier key stays, and every new key is the key of some `=` token |
| KvParser.TerseRecordKeys | index.php:57-64 | every key of a terse line's row is the key of one of its `=` tokens |
| KvParser.AssignPairsHasKey | index.php:59-63 | every `=` token's key ends up in the terse row |
| KvParser.AssignPairsLastWins | index.php:59-63 | a key's value is that of the last token assigning it |
| KvParser.AssignPairsUntouched | index.php:59-63 | a key no token assigns keeps its earlier presence and value |
| KvParser.TerseRecordNonEmpty | index.php:57-64 | a line holding `=` always yields a non-empty row |
| KvParser.ColonPair | index.php:68-70 | a `key: value` fragment splits into a key that holds no `:` (the split is at the first one) and a value, both trimmed |
| KvParser.ColonRecord | index.php:68-71 | every key of the colon row is non-empty, trimmed and colon-free |
| KvParser.TerseLines | index.php:57 | a line is terse iff it is one of the lines and holds `=`; there are no more terse lines than lines |
| KvParser.TerseLinesAppend | index.php:57 | selecting the terse lines distributes over concatenation, so it keeps line order |
| KvParser.TerseRows | index.php:57-65 | no more terse rows than lines, and none of them empty |
| KvParser.TerseRowsOnePerLine | index.php:57-65 | one row per line holding `=`, the i-th row being the record of the i-th such line |
| KvParser.ColonRecordHasKey | index.php:68-71 | every fragment with a non-empty key puts that key in the colon row |
| KvParser.ColonRecordKeyFromFragment | index.php:68-71 | every key of the colon row comes from a fragment |
| KvParser.ColonRecordLastWins | index.php:68-71 | a key's value in the colon row is that of the last fragment setting it |
| KvParser.ParseRowsShape | index.php:50-76 | the rows are the terse rows in line order, then the merged colon row iff any fragment set a key; no row is empty |
| KvParser.PlainLinesIgnored | index.php:54-73 | a line with neither `=` nor `:` changes nothing |
| KvParser.ParseStep | index.php:54-73 | how one more line extends the terse rows and the colon row |
| KvParser.AssignTerseLine | index.php:58-63 | the inner loop assigns the tokens of one line as specified |
| KvParser.ParseKvLines | index.php:50-76 | the parse loop computes exactly the specified rows |
| Channel.FaultMessage | index.php:27-40 | each exception's message is non-empty |
| Channel.RosExec | index.php:35-45 | ros_exec succeeds iff the device produced output; the output is the device's text with only trim characters removed from its two ends, and it neither starts nor ends with one; an error has a non-empty message |
| Probe.Outcome | index.php:78-80 | one variant fails iff its command fails, with the same error, otherwise it gives the parsed rows |
| Probe.Variants | index.php:78 | three spellings of the query, the bare query last |
| Probe.VariantsDistinct | index.php:78 | the three spellings are distinct commands, each starting with the queried path |
| Probe.TryVariants | index.php:77-81 | variants are sent in order; every variant before the last sent ran and gave no rows; the result is the last sent variant's outcome; stopping early means rows or an error |
| Probe.TryVariantsEmpty | index.php:77-81 | a loop ending with no rows sent every remaining variant |
| Probe.TryVariantsAllEmpty | index.php:77-81 | when every remaining variant gives no rows, the loop ends with no rows |
| Probe.PrintAny | index.php:77-81 | terse, as-value, bare are tried in that order; the first failure or non-empty result ends the probe |
| Probe.EmptyProbeTriedAll | index.php:77-81 | a probe without rows sent all three variants |
| Probe.AllEmptyProbe | index.php:77-81 | when all three variants give no rows, the probe sent all three and has no rows |
| Probe.FailureStopsProbe | index.php:78 | a failing terse query ends the probe with its error, sending nothing else |
| Probe.MetadataFields | index.php:85-93 | uptime, cpu-load before cpu_load, version, board-name before board, read from the first row or an empty row |
| Probe.CpuLoadOfNumber | index.php:87 | a number followed by non-digit text (such as "12%") reads as that number |
| Probe.MetadataOf | index.php:85-93 | no rows give empty metadata; otherwise the load is present iff `cpu-load` or `cpu_load` is in the first row, the version iff `version` is, the board iff `board-name` or `board` is |
| Probe.CpuLoadOf | index.php:86-90 | a load value without digits reads as 0 |
| Probe.UptimeCpu | index.php:83-94 | the metadata of the resource probe's rows, or its error, with the commands it sent |
| Interfaces.KeepPresent | index.php:104-107 | the kept names are exactly the configured names that are present, no more of them than configured |
| Interfaces.MatchingNames | index.php:109-115 | at most one name per row |
| Interfaces.PresentNamesOfRows | index.php:99-103 | a name is present iff it is non-empty and some row carries it |
| Interfaces.PresentNames | index.php:99-103 | the empty name is never present |
| Interfaces.MatchingArePresent | index.php:109-115 | every name selected in pattern mode is present |
| Interfaces.MatchingNamesOfRows | index.php:109-115 | a name is selected in pattern mode iff it is non-empty, matches a pattern and some row carries it |
| Interfaces.MatchingNamesAppend | index.php:109-115 | one more row extends the selection by its name iff the name is non-empty and matches a pattern |
| Interfaces.SelectNames | index.php:104-115 | every selected name is present; exact mode selects no more names than configured, pattern mode no more than there are rows |
| Interfaces.ExactSelection | index.php:104-107 | in exact mode a configured name is shown iff the device has it |
| Interfaces.KeepPresentAll | index.php:104-107 | when the device has every configured name, the configured list is shown unchanged, in order |
| Interfaces.KeepPresentAppend | index.php:104-107 | one more configured name extends the kept list by that name iff it is present |
| Interfaces.MatchIgnoresCase | index.php:113 | matching ignores the case of the interface name |
| Interfaces.EmptyPatternMatchesAll | index.php:113 | an empty pattern matches every name |
| Interfaces.MatchesAny | index.php:113 | the inner loop stops at the first matching pattern and finds one iff some pattern matches |
| Interfaces.CollectPresent | index.php:99-103 | the loop builds the set of present names |
| Interfaces.KeepConfigured | index.php:104-107 | the exact-mode loop keeps the present configured names in order |
| Interfaces.CollectMatching | index.php:109-115 | the pattern-mode loop yields the matching names in row order |
| Interfaces.FilterInterfaces | index.php:99-115 | the whole filter computes the specified selection |
| Interfaces.InterfacesFiltered | index.php:96-116 | the selection over the interface probe's rows, or its error, with the commands it sent |
| Rate.LeadingDecimal | index.php:122-126 | the float cast reads a negative number only from text starting with `-` |
| Rate.NearestNat | index.php:122-127 | the nearest whole number to a quotient, halves rounded up |
| Rate.RoundScaled | index.php:122-127 | round(value * factor) is within half of the exact product, halves away from zero, and keeps the sign |
| Rate.DigitsAndDots | index.php:126 | `preg_replace('/[^0-9.]/', '', ...)` yields only digits and dots, never more characters than the input |
| Rate.DigitsAndDotsOne | index.php:126 | one character is kept iff it is a digit or a dot |
| Rate.DigitsAndDotsAppend | index.php:126 | the filter distributes over concatenation, so it keeps the characters' order |
| Rate.UnitFactor | index.php:122-125 | the multiplier is at least 1, and above 1 iff the text ends in `kbps`, `mbps` or `gbps` |
| Rate.NumberText | index.php:122-126 | with a unit, the number is the text before it (four letters for a scaled unit, three for `bps`); without one, only digits and dots remain |
| Rate.NumberTextSign | index.php:122-126 | the number read before a unit is negative only if the text holds `-`; unit-less text never reads as negative |
| Rate.RateOfText | index.php:121-127 | a negative rate needs a `-` in the text; unit-less text gives a rate of at least 0 |
| Rate.RateNonNegative | index.php:119-127 | a rate without a minus sign, or without a unit, is never negative |
| Rate.RateIgnoresCase | index.php:120 | upper- and lower-case spellings of a rate read the same |
| Rate.LeadingDecimalOfWhole | index.php:122-126 | a digit string followed by a non-numeric character reads as its value |
| Rate.LeadingDecimalOfFraction | index.php:122-126 | digits, a dot and fraction digits read as the exact decimal they spell |
| Rate.NormalizeNumberWithUnit | index.php:120 | a lower-case number followed by a unit is unchanged by normalisation |
| Rate.RoundWhole | index.php:122-127 | a whole number scaled by a whole factor needs no rounding |
| Rate.UnitOfNumberWithUnit | index.php:122-125 | after a number ending in a digit, the suffix decides the unit, and the number text is what precedes it |
| Rate.RateOfNumberWithUnit | index.php:119-125 | a number with a unit reads as its exact value times the unit's multiplier, rounded half away from zero |
| Rate.RateOfBareDigits | index.php:126-127 | a bare digit string is a count of bits per second |
| Rate.RateOfWholeUnits | index.php:122-125 | a whole number with a unit reads as the number times the unit's multiplier |
| Monitor.MonitorCmd | index.php:155 | the command is the monitor prefix, the interface name, then " once" |
| Monitor.MonitorCmdInjective | index.php:155 | different interface names give different commands |
| Monitor.MonitorRecord | index.php:157-168 | every key of the record is assigned by some line, as a terse token or as a colon pair |
| Monitor.MonitorLaterUntouched | index.php:158-168 | lines that do not set a key leave its presence and value as they were |
| Monitor.MonitorUnset | index.php:158-168 | a key no line sets is absent |
| Monitor.MonitorRecordStep | index.php:158-168 | how one line updates the accumulated record |
| Monitor.MonitorColonWins | index.php:165-166 | a key last set by a colon line has that line's trimmed value |
| Monitor.MonitorTerseWins | index.php:160-164 | a key last set by a terse token has that token's value |
| Monitor.SampleFallbacks | index.php:169-171 | rx/tx read the `*-bits-per-second` field, then the `fp-` field, then 0 |
| Monitor.SampleOf | index.php:169-171 | without either rx field the rx rate is 0, and likewise for tx |
| Monitor.RateOrZero | index.php:169-171 | a missing field falls back to "0", which reads as rate 0 |
| Monitor.RateOfZero | index.php:169-171 | the fallback "0" reads as rate 0 |
| Monitor.EmptyRateIsZero | index.php:121 | an empty rate reads as 0 |
| Monitor.ReadMonitorLines | index.php:157-168 | the line loop computes the specified record |
| Monitor.MonitorSample | index.php:154-172 | the sample fails iff its command fails, with the command's error |
| Monitor.MonitorOnce | index.php:154-172 | ros_monitor_once gives the specified sample, and fails iff its command fails |
| Monitor.BulkCmd | index.php:131-132 | the command is the bulk prefix, the names joined by commas, then " once" |
| Monitor.BulkCmdNames | index.php:131-132 | comma-free names can be read back from the command by splitting at commas |
| Monitor.BulkStep | index.php:136-149 | one loop turn keeps the current block's entry in the output |
| Monitor.BulkFold | index.php:136-149 | the whole loop keeps the current block's entry in the output |
| Monitor.BulkStepKeys | index.php:138-142 | a turn adds at most the name of a `name:` line and removes nothing |
| Monitor.BulkKeys | index.php:136-150 | an interface is in the result iff some line names it |
| Monitor.StepKeepsField | index.php:144-148 | a turn that does not set a block's rate keeps it |
| Monitor.RepeatedNameKeepsRates | index.php:141 | naming a block again does not reset its rates |
| Monitor.FalsyBlockIgnored | index.php:144 | lines before any block, or under a block named "" or "0", change nothing |
| Monitor.BulkLastRateWins | index.php:144-148 | a block's rate is read from the last `rx-rate`/`tx-rate` line under that name |
| Monitor.BulkUnsetRate | index.php:141-148 | a named block without a rate line keeps rate 0 |
| Monitor.BulkLine | index.php:137-148 | one loop turn updates the output and current name as specified |
| Monitor.ReadBulkLines | index.php:134-150 | the bulk loop computes the specified map |
| Monitor.BulkSample | index.php:129-151 | the bulk sample fails iff its command fails, with the command's error |
| Monitor.MonitorBulk | index.php:129-151 | the bulk monitor gives the specified map, and fails iff its command fails |
| Cache.Lookup | index.php:185-190 | a hit iff an entry exists and its age is at most the TTL; a hit returns the stored data |
| Cache.ExpiryIsFinal | index.php:187 | once expired, an entry stays expired as time moves on |
| Cache.HitWindow | index.php:187 | an entry is served up to and including `writtenAt + ttl` |
| Cache.ZeroTtl | index.php:187 | with TTL 0 a same-second read hits and a read a second later misses |
| Cache.ResultCache.constructor | index.php:21-22 | the cache starts without a file |
| Cache.ResultCache.Get | index.php:185-190 | cache_get returns the stored data iff the entry's age is at most the TTL |
| Cache.ResultCache.Set | index.php:191 | cache_set stores the data with the current time; a failed write leaves the old file |
| Poll.MonitorCmds | index.php:201-204 | one monitor command per name, in order |
| Poll.MonitorAll | index.php:201-204 | on success, one entry per name in order with its monitored rates, all commands sent; on failure, the first failing name's error, with commands sent up to and including it |
| Poll.MonitorAllSticky | index.php:201-204 | once a prefix has failed, later names change nothing |
| Poll.MonitorAllStep | index.php:201-204 | after a prefix without failure, the next name's monitor decides the loop |
| Poll.MonitorsRates | index.php:201-204 | a monitor loop that did not fail holds, per name in order, that name's successful monitor sample |
| Poll.FreshPollStages | index.php:198-205 | a successful poll's three stages each succeeded |
| Poll.FreshPollSuccess | index.php:198-205 | a success is stamped now and holds the resource metadata and one entry per selected name, in selection order, with its rates |
| Poll.FreshPollSuccessSent | index.php:198-204 | a success sent the resource probe, the interface probe and one monitor per selected name, in that order |
| Poll.ProbeErrorNonEmpty | index.php:209-211 | a failing probe reports a non-empty message |
| Poll.MonitorErrorNonEmpty | index.php:209-211 | a failing monitor loop reports a non-empty message |
| Poll.FreshPollFailureMessage | index.php:209-211 | every failure is stamped now and carries a non-empty message |
| Poll.MonitorEach | index.php:201-204 | the controller's foreach computes the specified loop |
| Poll.Refresh | index.php:198-206 | the cache-miss branch computes the specified fresh poll |
| Poll.Poll | index.php:195-212 | a fresh entry is served without contacting the device; otherwise a fresh poll is made and only a success is written |
| Scenarios.Normalized | index.php:120 | lower-case text without padding is unchanged by normalisation |
| Scenarios.ThreeDigits | index.php:118 | the integer value of a three-digit string, digit by digit |
| Scenarios.TwoDotOne | index.php:118-122 | the float cast reads `dd.d` as the exact decimal ddd / 10 |
| Scenarios.KilobitRate | index.php:118-122 | "43.3kbps" reads as 43300 |
| Scenarios.MegabitRate | index.php:118-123 | "10.4mbps" reads as 10400000 |
| Scenarios.BitRate | index.php:118-125 | "123bps" reads as 123 |
| Scenarios.UnitlessRate | index.php:126-127 | "500" reads as 500 |
| Scenarios.ZeroRates | index.php:121 | "0bps", "" and " 0 " read as 0 |
| Scenarios.OneDotOne | index.php:122-125 | a decimal of the form `d.d` reads exactly |
| Scenarios.MinusOneDotOne | index.php:122-125 | a negative decimal of the form `-d.d` reads exactly |
| Scenarios.HalfRoundsUp | index.php:125 | "1.5bps" rounds to 2 |
| Scenarios.NegativeHalfRoundsDown | index.php:125 | "-1.5bps" rounds to -2 |
| Scenarios.NegativeRate | index.php:122 | "-5kbps" reads as -5000 |
| Scenarios.UpperCaseRate | index.php:120-122 | "43.3KBPS" reads as 43300 |
| Scenarios.KeyValueToken | index.php:61 | a `k=v` token splits into k and v |
| Scenarios.TwoPairs | index.php:59-63 | a line of two pairs gives both keys |
| Scenarios.TwoPairLine | index.php:57-64 | a terse line of two space-separated pairs gives exactly those two keys, the second winning on a repeat |
| Scenarios.TerseLineExample | index.php:57-64 | "a=1 b=2" gives {a: 1, b: 2} |
| Scenarios.SinglePairExample | index.php:57-64 | "c=3" gives {c: 3} |
| Scenarios.BlankLineDropped | index.php:51 | the empty line between two lines is dropped |
| Scenarios.TwoTerseLines | index.php:51-65 | two terse lines give two rows |
| Scenarios.TwoTerseLinesResponse | index.php:50-76 | a response of two terse lines parses to their two rows |
| Scenarios.TerseRecordsExample | index.php:57-64 | the records of "a=1 b=2" and "c=3" |
| Scenarios.TerseResponseExample | index.php:50-76 | "a=1 b=2", a blank line and "c=3" give two rows |
| Scenarios.ColonFragment | index.php:69 | "k: v" splits into k and v |
| Scenarios.ThreeLinesKept | index.php:51 | blank lines among three lines are dropped |
| Scenarios.FragmentLine | index.php:68-70 | a fragment line is kept as is and sets its key |
| Scenarios.ThreeFragments | index.php:68-74 | three fragments merge into one row |
| Scenarios.ThreeFragmentsResponse | index.php:50-76 | a response of three fragments parses to one row |
| Scenarios.RepeatedKeyMerges | index.php:50-76 | blank-line-separated blocks merge; a repeated key takes the later value |
| Scenarios.RepeatedKeyRow | index.php:68-74 | the merged row of two blocks with a repeated key |
| Scenarios.FragmentResponseExample | index.php:50-76 | two blocks naming eth0 and eth1 give the single row {name: eth1, type: ether} |
| Scenarios.ExactSelectionExample | index.php:104-107 | an exact list of three names, one missing on the device, shows the other two in list order |
| Scenarios.PatternPrefix | index.php:113 | a name starting with the pattern matches it |
| Scenarios.PatternSelectionExample | index.php:109-115 | pattern "ether" over ether2, sfp1, ether1 selects ether2 and ether1, in row order |
| Scenarios.ZeroTtlScenario | index.php:185-191 | with TTL 0, a read in the second of the write hits and one a second later misses |
| Scenarios.UnreachableRouter | index.php:195-211 | a router refusing the connection gives the failure "SSH connect failed" after one command |
| Scenarios.UnreachableRouterScenario | index.php:195-212 | polling an unreachable router through an empty cache reports the connect failure and leaves the cache empty |
| Scenarios.PollTwiceScenario | index.php:195-207 | a successful poll is served from the cache on a second request in the same second, without contacting the device; a failure is polled again |

## Left out

- SSH transport: connecting, authenticating, the shared `$_SSH` handle and
  streaming the reply. Each command's reply or fault is an input to the model
  (`Channel.Device`). The connection is opened once per request, so a
  connect or auth fault is the same for every command of a poll. The model
  does not force that.
- The filesystem and JSON: the cache file is `Cache.ResultCache.entry`, and
  its modification time is the entry's write time. An unreadable or corrupt
  file, and another request writing between the `filemtime` and the read,
  are not modelled. A silenced failed write is the `written` flag of
  `Cache.ResultCache.Set`.
- The clock: `time()` is the parameter `now`. One poll uses a single `now`
  for its cache check and its time stamp.
- HTTP, the HTML page, its JavaScript refresh, the `?json=1` output and its
  status code, and `format_bps` (index.php:177-182), which only formats text
  for display.
- Rate.RateToBps: the float cast is modelled as an exact decimal. IEEE
  rounding, exponents (`1e3kbps`), leading whitespace inside the number
  (the text is trimmed first) and float-to-int overflow are not modelled.
- PHP integer overflow, and numeric-string keys, which PHP turns into
  integer keys. Rows are modelled as `map<string, string>`, so the insertion
  order of a row's keys is not kept.
- Case folding beyond ASCII: `strtolower` and `stripos` fold ASCII letters
  only, as PHP 8 does.
- The configuration constants (host, credentials, `if_exact`,
  `if_name_match`, `CACHE_TTL`) are parameters: `Poll.Config` and the
  cache's `ttl`.
- `ros_monitor_ethernet_bulk` is modelled, but the controller never calls it.

/**
 * The traffic monitors: ros_monitor_once reads one interface's rates from
 * `/interface/monitor-traffic ... once`, merging terse and colon pairs into
 * one map; ros_monitor_ethernet_bulk reads several interfaces at once from
 * `/interface/ethernet/monitor ... once`, whose output is split into blocks
 * by `name:` lines.
 */
module Monitor {
  import opened Wrappers
  import opened Text
  import opened KvParser
  import opened Channel
  import opened Rate

  /** One interface's receive and transmit rates in bits per second. */
  datatype RateSample = RateSample(rxBps: int, txBps: int)

  // ------------------------------------------------------ ros_monitor_once

  const MonitorPrefix := "/interface/monitor-traffic interface="

  /**
   * The command ros_monitor_once sends: the name appears verbatim right
   * after the prefix and before the closing " once", so it can be read back.
   */
  function MonitorCmd(ifname: string): (cmd: string)
    ensures |cmd| == |MonitorPrefix| + |ifname| + |" once"|
    ensures cmd[..|MonitorPrefix|] == MonitorPrefix
    ensures cmd[|MonitorPrefix|..|MonitorPrefix| + |ifname|] == ifname
  {
    MonitorPrefix + ifname + " once"
  }

  /** Different interfaces get different monitor commands. */
  lemma MonitorCmdInjective(a: string, b: string)
    requires MonitorCmd(a) == MonitorCmd(b)
    ensures a == b
  {
    var cmd := MonitorCmd(a);
    assert |a| == |b|;
    assert a == cmd[|MonitorPrefix|..|MonitorPrefix| + |a|] == b;
  }

  /**
   * The `$kv` map after the loop over `lines`: a line holding `=` assigns
   * its tokens, otherwise a line holding `:` assigns its trimmed key and
   * value (an empty key included); later assignments overwrite earlier ones.
   */
  function MonitorRecord(lines: seq<string>): (kv: Record)
    ensures forall k :: k in kv ==> SetByLine(lines, k)
    decreases |lines|
  {
    if lines == [] then map[]
    else
      var init := lines[..|lines| - 1];
      var before := MonitorRecord(init);
      var last := lines[|lines| - 1];
      SetByLineOfInit(lines, init);
      if '=' in last then AssignPairs(before, SplitOnSpaceRuns(last))
      else if ':' in last then before[ColonPair(last).0 := ColonPair(last).1]
      else before
  }

  /** Line `line` assigns key `k`, as a terse token or as a colon pair. */
  ghost predicate LineSets(line: string, k: string) {
    if '=' in line then SetByToken(SplitOnSpaceRuns(line), k)
    else ':' in line && ColonPair(line).0 == k
  }

  /** Some line of `lines` assigns key `k`. */
  ghost predicate SetByLine(lines: seq<string>, k: string) {
    exists i :: 0 <= i < |lines| && LineSets(lines[i], k)
  }

  /** A key some line of the prefix assigns, or the last line assigns, is assigned by a line of the whole. */
  lemma SetByLineOfInit(lines: seq<string>, init: seq<string>)
    requires lines != [] && init == lines[..|lines| - 1]
    ensures forall k :: SetByLine(init, k) ==> SetByLine(lines, k)
    ensures forall k :: LineSets(lines[|lines| - 1], k) ==> SetByLine(lines, k)
  {
    forall k | SetByLine(init, k)
      ensures SetByLine(lines, k)
    {
      var i :| 0 <= i < |init| && LineSets(init[i], k);
      assert init[i] == lines[i];
    }
  }

  /** Lines that do not assign `k` leave its presence and value as they were. */
  lemma {:induction false} MonitorLaterUntouched(lines: seq<string>, n: nat, k: string)
    requires n <= |lines|
    requires forall j :: n <= j < |lines| ==> !LineSets(lines[j], k)
    ensures (k in MonitorRecord(lines)) == (k in MonitorRecord(lines[..n]))
    ensures k in MonitorRecord(lines) ==> MonitorRecord(lines)[k] == MonitorRecord(lines[..n])[k]
    decreases |lines|
  {
    if n < |lines| {
      var init := lines[..|lines| - 1];
      assert init[..n] == lines[..n];
      forall j | n <= j < |init|
        ensures !LineSets(init[j], k)
      {
        assert init[j] == lines[j];
      }
      MonitorLaterUntouched(init, n, k);
      var last := lines[|lines| - 1];
      assert !LineSets(last, k);
      if '=' in last {
        var tokens := SplitOnSpaceRuns(last);
        forall q | 0 <= q < |tokens|
          ensures !SetsKey(tokens, q, k)
        {
          assert !SetByToken(tokens, k);
        }
        AssignPairsUntouched(MonitorRecord(init), tokens, k);
      }
    } else {
      assert lines[..n] == lines;
    }
  }

  /** A key no line assigns is absent. */
  lemma MonitorUnset(lines: seq<string>, k: string)
    requires forall j :: 0 <= j < |lines| ==> !LineSets(lines[j], k)
    ensures k !in MonitorRecord(lines)
  {
    MonitorLaterUntouched(lines, 0, k);
  }

  /** The record after line `i`, from the record before it. */
  lemma MonitorRecordStep(lines: seq<string>, i: nat)
    requires i < |lines|
    ensures var ln := lines[i];
            var before := MonitorRecord(lines[..i]);
            MonitorRecord(lines[..i + 1])
            == if '=' in ln then AssignPairs(before, SplitOnSpaceRuns(ln))
               else if ':' in ln then before[ColonPair(ln).0 := ColonPair(ln).1]
               else before
  {
    assert lines[..i + 1][..i] == lines[..i];
  }

  /** The value of a key set by a colon line and by no later line is that line's trimmed value. */
  lemma MonitorColonWins(lines: seq<string>, i: nat, k: string)
    requires i < |lines| && '=' !in lines[i] && ':' in lines[i] && ColonPair(lines[i]).0 == k
    requires forall j :: i < j < |lines| ==> !LineSets(lines[j], k)
    ensures k in MonitorRecord(lines)
    ensures MonitorRecord(lines)[k] == ColonPair(lines[i]).1
  {
    MonitorLaterUntouched(lines, i + 1, k);
    MonitorRecordStep(lines, i);
  }

  /**
   * The value of a key set by token `p` of a terse line, by no later token
   * of that line and by no later line, is the text after that token's first `=`.
   */
  lemma MonitorTerseWins(lines: seq<string>, i: nat, p: nat, k: string)
    requires i < |lines| && '=' in lines[i]
    requires SetsKey(SplitOnSpaceRuns(lines[i]), p, k)
    requires forall q :: p < q < |SplitOnSpaceRuns(lines[i])| ==> !SetsKey(SplitOnSpaceRuns(lines[i]), q, k)
    requires forall j :: i < j < |lines| ==> !LineSets(lines[j], k)
    ensures k in MonitorRecord(lines)
    ensures MonitorRecord(lines)[k] == SplitAtFirst(SplitOnSpaceRuns(lines[i])[p], '=').1
  {
    MonitorLaterUntouched(lines, i + 1, k);
    MonitorRecordStep(lines, i);
    AssignPairsLastWins(MonitorRecord(lines[..i]), SplitOnSpaceRuns(lines[i]), p, k);
  }

  /**
   * `$kv['rx-bits-per-second'] ?? ($kv['fp-rx-bits-per-second'] ?? '0')` and
   * the same for tx, as rates: a direction neither of whose keys is present
   * reads as 0.
   */
  function SampleOf(kv: Record): (s: RateSample)
    ensures "rx-bits-per-second" !in kv && "fp-rx-bits-per-second" !in kv ==> s.rxBps == 0
    ensures "tx-bits-per-second" !in kv && "fp-tx-bits-per-second" !in kv ==> s.txBps == 0
  {
    var rx := FirstPresent(kv, ["rx-bits-per-second", "fp-rx-bits-per-second"]);
    var tx := FirstPresent(kv, ["tx-bits-per-second", "fp-tx-bits-per-second"]);
    FirstPresentOfTwo(kv, "rx-bits-per-second", "fp-rx-bits-per-second");
    FirstPresentOfTwo(kv, "tx-bits-per-second", "fp-tx-bits-per-second");
    RateOrZero(rx);
    RateOrZero(tx);
    RateSample(RateToBps(rx.GetOr("0")), RateToBps(tx.GetOr("0")))
  }

  /** A missing value falls back to "0", which reads as 0. */
  lemma RateOrZero(v: Option<string>)
    ensures v.None? ==> RateToBps(v.GetOr("0")) == 0
  {
    RateOfZero();
  }

  lemma RateOfZero()
    ensures RateToBps("0") == 0
  {
    assert Lower("0") == "0";
    TrimOfTrimmed("0");
  }

  /**
   * Receive is read from `rx-bits-per-second`, else `fp-rx-bits-per-second`,
   * else 0, and transmit likewise; a present key wins even when a fallback
   * is also present.
   */
  lemma SampleFallbacks(kv: Record)
    ensures SampleOf(kv).rxBps == (if "rx-bits-per-second" in kv then RateToBps(kv["rx-bits-per-second"])
                                   else if "fp-rx-bits-per-second" in kv then RateToBps(kv["fp-rx-bits-per-second"])
                                   else 0)
    ensures SampleOf(kv).txBps == (if "tx-bits-per-second" in kv then RateToBps(kv["tx-bits-per-second"])
                                   else if "fp-tx-bits-per-second" in kv then RateToBps(kv["fp-tx-bits-per-second"])
                                   else 0)
  {
    FirstPresentOfTwo(kv, "rx-bits-per-second", "fp-rx-bits-per-second");
    FirstPresentOfTwo(kv, "tx-bits-per-second", "fp-tx-bits-per-second");
    RateOfZero();
  }

  /** An empty value reads as 0: a present key with nothing after it still hides its fallback. */
  lemma EmptyRateIsZero()
    ensures RateToBps("") == 0
  {
    assert Lower("") == "";
  }

  /**
   * ros_monitor_once($ifname): the rates read from the monitor output, or,
   * exactly when the command fails, the command's error.
   */
  function MonitorSample(device: Device, ifname: string): (r: Result<RateSample>)
    ensures r.Err? <==> RosExec(device, MonitorCmd(ifname)).Err?
    ensures r.Err? ==> r.error == RosExec(device, MonitorCmd(ifname)).error
  {
    match RosExec(device, MonitorCmd(ifname))
    case Err(e) => Err(e)
    case Ok(raw) => Ok(SampleOf(MonitorRecord(KeptLines(raw))))
  }

  /** The loop that accumulates `$kv`. */
  method ReadMonitorLines(lines: seq<string>) returns (kv: Record)
    ensures kv == MonitorRecord(lines)
  {
    kv := map[];
    for i := 0 to |lines|
      invariant kv == MonitorRecord(lines[..i])
    {
      assert lines[..i + 1][..i] == lines[..i];
      var ln := lines[i];
      if '=' in ln {
        kv := AssignTerseLine(kv, ln);
      } else if ':' in ln {
        var pair := ColonPair(ln);
        kv := kv[pair.0 := pair.1];
      }
    }
    assert lines[..|lines|] == lines;
  }

  /** ros_monitor_once($ifname). */
  method MonitorOnce(device: Device, ifname: string) returns (r: Result<RateSample>)
    ensures r == MonitorSample(device, ifname)
    ensures r.Err? <==> RosExec(device, MonitorCmd(ifname)).Err?
  {
    var raw := RosExec(device, MonitorCmd(ifname));
    if raw.Err? {
      return Err(raw.error);
    }
    var kv := ReadMonitorLines(KeptLines(raw.value));
    r := Ok(SampleOf(kv));
  }

  // ---------------------------------------------- ros_monitor_ethernet_bulk

  const BulkPrefix := "/interface/ethernet/monitor numbers="

  /** The command ros_monitor_ethernet_bulk sends: the names joined by commas, between the prefix and " once". */
  function BulkCmd(ifnames: seq<string>): (cmd: string)
    ensures |cmd| == |BulkPrefix| + |Implode(ifnames, ',')| + |" once"|
    ensures cmd[..|BulkPrefix|] == BulkPrefix
    ensures cmd[|BulkPrefix|..|cmd| - |" once"|] == Implode(ifnames, ',')
  {
    BulkPrefix + Implode(ifnames, ',') + " once"
  }

  /** The names can be read back from the bulk command when none of them holds a comma. */
  lemma BulkCmdNames(ifnames: seq<string>)
    requires |ifnames| >= 1
    requires forall i :: 0 <= i < |ifnames| ==> ',' !in ifnames[i]
    ensures var cmd := BulkCmd(ifnames);
            Explode(cmd[|BulkPrefix|..|cmd| - |" once"|], ',') == ifnames
  {
    ExplodeImplode(ifnames, ',');
  }

  /** The loop state: the rates per block name, and the name of the block being read ("" before any). */
  datatype BulkState = BulkState(out: map<string, RateSample>, current: string)

  /** The block being read has an entry, or there is none yet. */
  predicate CurrentHasEntry(st: BulkState) {
    st.current == "" || st.current in st.out
  }

  predicate IsNameLine(ln: string) {
    StartsWith(ln, "name:")
  }

  function BlockName(ln: string): string
    requires IsNameLine(ln)
  {
    Trim(ln[|"name:"|..])
  }

  /** The rate a `key` line of the monitor sets: `rx-rate` sets receive, `tx-rate` transmit. */
  function FieldOf(s: RateSample, key: string): int {
    if key == "rx-rate" then s.rxBps else s.txBps
  }

  /**
   * One turn of the loop: a `name:` line starts a block, creating a zero
   * entry only for a name not seen before; a `key: value` line under a
   * block with a truthy name updates that block's `rx-rate` or `tx-rate`;
   * anything else changes nothing.
   */
  function BulkStep(st: BulkState, ln: string): (next: BulkState)
    requires CurrentHasEntry(st)
    ensures CurrentHasEntry(next)
  {
    if IsNameLine(ln) then
      var name := BlockName(ln);
      BulkState(if name in st.out then st.out else st.out[name := RateSample(0, 0)], name)
    else if Truthy(st.current) && ':' in ln then
      var pair := ColonPair(ln);
      var s := st.out[st.current];
      var s1 := if pair.0 == "rx-rate" then s.(rxBps := RateToBps(pair.1)) else s;
      var s2 := if pair.0 == "tx-rate" then s1.(txBps := RateToBps(pair.1)) else s1;
      BulkState(st.out[st.current := s2], st.current)
    else st
  }

  /** The state after the loop over `lines`. */
  function BulkFold(lines: seq<string>): (st: BulkState)
    ensures CurrentHasEntry(st)
    decreases |lines|
  {
    if lines == [] then BulkState(map[], "")
    else BulkStep(BulkFold(lines[..|lines| - 1]), lines[|lines| - 1])
  }

  /** The rates per interface name the bulk monitor returns. */
  function BulkRates(lines: seq<string>): map<string, RateSample> {
    BulkFold(lines).out
  }

  /** The block line `i` belongs to: the current name when the loop reaches it. */
  function CurrentAt(lines: seq<string>, i: nat): string
    requires i <= |lines|
  {
    BulkFold(lines[..i]).current
  }

  /** Line `i` is a name line for block `n`. */
  predicate NameLineAt(lines: seq<string>, i: int, n: string) {
    0 <= i < |lines| && IsNameLine(lines[i]) && BlockName(lines[i]) == n
  }

  /** Line `i` sets rate `key` of block `n`. */
  predicate RateLineOf(lines: seq<string>, i: int, n: string, key: string) {
    && 0 <= i < |lines|
    && !IsNameLine(lines[i])
    && CurrentAt(lines, i) == n && Truthy(n)
    && ':' in lines[i] && ColonPair(lines[i]).0 == key
  }

  lemma CurrentAtOfInit(lines: seq<string>, i: nat)
    requires i < |lines|
    ensures CurrentAt(lines, i) == CurrentAt(lines[..|lines| - 1], i)
  {
    assert lines[..i] == lines[..|lines| - 1][..i];
  }

  /** One step adds at most the name of a `name:` line and removes nothing. */
  lemma BulkStepKeys(st: BulkState, ln: string, n: string)
    requires CurrentHasEntry(st)
    ensures n in BulkStep(st, ln).out <==> n in st.out || (IsNameLine(ln) && BlockName(ln) == n)
  {
  }

  lemma NameLinesOfInit(lines: seq<string>, init: seq<string>, n: string)
    requires lines != [] && init == lines[..|lines| - 1]
    ensures (exists i :: NameLineAt(lines, i, n))
        <==> (exists i :: NameLineAt(init, i, n)) || NameLineAt(lines, |lines| - 1, n)
  {
    if exists i :: NameLineAt(init, i, n) {
      var i :| NameLineAt(init, i, n);
      assert init[i] == lines[i];
      assert NameLineAt(lines, i, n);
    }
    if exists i :: NameLineAt(lines, i, n) {
      var i :| NameLineAt(lines, i, n);
      if i < |lines| - 1 {
        assert init[i] == lines[i];
        assert NameLineAt(init, i, n);
      }
    }
  }

  /** The names in the result are exactly the names of the `name:` lines. */
  lemma {:induction false} BulkKeys(lines: seq<string>, n: string)
    ensures n in BulkRates(lines) <==> exists i :: NameLineAt(lines, i, n)
    decreases |lines|
  {
    if lines != [] {
      var init := lines[..|lines| - 1];
      BulkKeys(init, n);
      BulkStepKeys(BulkFold(init), lines[|lines| - 1], n);
      NameLinesOfInit(lines, init, n);
    }
  }

  /** A step that does not set rate `key` of block `n` keeps that rate. */
  lemma StepKeepsField(st: BulkState, ln: string, n: string, key: string)
    requires CurrentHasEntry(st) && n in st.out
    requires key == "rx-rate" || key == "tx-rate"
    requires IsNameLine(ln) || st.current != n || !Truthy(n) || ':' !in ln || ColonPair(ln).0 != key
    ensures n in BulkStep(st, ln).out
    ensures FieldOf(BulkStep(st, ln).out[n], key) == FieldOf(st.out[n], key)
  {
  }

  /** A `name:` line for a name already seen does not reset its rates. */
  lemma RepeatedNameKeepsRates(st: BulkState, ln: string)
    requires CurrentHasEntry(st) && IsNameLine(ln) && BlockName(ln) in st.out
    ensures BulkStep(st, ln).out == st.out
    ensures BulkStep(st, ln).current == BlockName(ln)
  {
  }

  /** Lines before any block, or under a block named "" or "0", change nothing. */
  lemma FalsyBlockIgnored(st: BulkState, ln: string)
    requires CurrentHasEntry(st) && !IsNameLine(ln) && !Truthy(st.current)
    ensures BulkStep(st, ln) == st
  {
  }

  /**
   * The rate of a block is the one set by the last line that sets it in
   * that block; lines of other blocks do not change it.
   */
  lemma {:induction false} BulkLastRateWins(lines: seq<string>, i: nat, n: string, key: string)
    requires key == "rx-rate" || key == "tx-rate"
    requires RateLineOf(lines, i, n, key)
    requires forall j :: i < j < |lines| ==> !RateLineOf(lines, j, n, key)
    ensures n in BulkRates(lines)
    ensures FieldOf(BulkRates(lines)[n], key) == RateToBps(ColonPair(lines[i]).1)
    decreases |lines|
  {
    var init := lines[..|lines| - 1];
    var last := lines[|lines| - 1];
    if i < |lines| - 1 {
      CurrentAtOfInit(lines, i);
      assert init[i] == lines[i];
      assert RateLineOf(init, i, n, key);
      forall j | i < j < |init|
        ensures !RateLineOf(init, j, n, key)
      {
        CurrentAtOfInit(lines, j);
        assert init[j] == lines[j];
        assert !RateLineOf(lines, j, n, key);
      }
      BulkLastRateWins(init, i, n, key);
      assert !RateLineOf(lines, |lines| - 1, n, key);
      assert lines[..|lines| - 1] == init;
      StepKeepsField(BulkFold(init), last, n, key);
    } else {
      assert lines[..i] == init;
    }
  }

  /** A block no line of which sets rate `key` keeps the 0 it was created with. */
  lemma {:induction false} BulkUnsetRate(lines: seq<string>, n: string, key: string)
    requires key == "rx-rate" || key == "tx-rate"
    requires n in BulkRates(lines)
    requires forall j :: 0 <= j < |lines| ==> !RateLineOf(lines, j, n, key)
    ensures FieldOf(BulkRates(lines)[n], key) == 0
    decreases |lines|
  {
    var init := lines[..|lines| - 1];
    var last := lines[|lines| - 1];
    assert !RateLineOf(lines, |lines| - 1, n, key);
    assert lines[..|lines| - 1] == init;
    if n in BulkRates(init) {
      forall j | 0 <= j < |init|
        ensures !RateLineOf(init, j, n, key)
      {
        CurrentAtOfInit(lines, j);
        assert init[j] == lines[j];
        assert !RateLineOf(lines, j, n, key);
      }
      BulkUnsetRate(init, n, key);
      StepKeepsField(BulkFold(init), last, n, key);
    }
  }

  /**
   * ros_monitor_ethernet_bulk($ifnames): the rates per block, or, exactly
   * when the command fails, the command's error.
   */
  function BulkSample(device: Device, ifnames: seq<string>): (r: Result<map<string, RateSample>>)
    ensures r.Err? <==> RosExec(device, BulkCmd(ifnames)).Err?
    ensures r.Err? ==> r.error == RosExec(device, BulkCmd(ifnames)).error
  {
    match RosExec(device, BulkCmd(ifnames))
    case Err(e) => Err(e)
    case Ok(raw) => Ok(BulkRates(KeptLines(raw)))
  }

  /** One turn of the loop body, updating `$out` and `$current` for line `ln`. */
  method BulkLine(out0: map<string, RateSample>, current0: string, ln: string)
    returns (out: map<string, RateSample>, current: string)
    requires CurrentHasEntry(BulkState(out0, current0))
    ensures BulkState(out, current) == BulkStep(BulkState(out0, current0), ln)
  {
    out, current := out0, current0;
    if StartsWith(ln, "name:") {
      var name := Trim(ln[|"name:"|..]);
      current := name;
      if name !in out {
        out := out[name := RateSample(0, 0)];
      }
      return;
    }
    if Truthy(current) && ':' in ln {
      var pair := ColonPair(ln);
      if pair.0 == "rx-rate" {
        out := out[current := out[current].(rxBps := RateToBps(pair.1))];
      }
      if pair.0 == "tx-rate" {
        out := out[current := out[current].(txBps := RateToBps(pair.1))];
      }
    }
  }

  /** The loop over the kept lines. */
  method ReadBulkLines(lines: seq<string>) returns (out: map<string, RateSample>)
    ensures out == BulkRates(lines)
  {
    out := map[];
    var current := "";
    for i := 0 to |lines|
      invariant BulkState(out, current) == BulkFold(lines[..i])
    {
      assert lines[..i + 1][..i] == lines[..i];
      out, current := BulkLine(out, current, lines[i]);
    }
    assert lines[..|lines|] == lines;
  }

  /** ros_monitor_ethernet_bulk($ifnames). */
  method MonitorBulk(device: Device, ifnames: seq<string>) returns (r: Result<map<string, RateSample>>)
    ensures r == BulkSample(device, ifnames)
    ensures r.Err? <==> RosExec(device, BulkCmd(ifnames)).Err?
  {
    var raw := RosExec(device, BulkCmd(ifnames));
    if raw.Err? {
      return Err(raw.error);
    }
    var out := ReadBulkLines(KeptLines(raw.value));
    r := Ok(out);
  }
}

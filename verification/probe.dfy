/**
 * ros_print_any and ros_uptime_cpu: a print query tried as `terse`, then
 * `as-value`, then bare, and the device metadata read from the first row
 * of `/system/resource/print`.
 */
module Probe {
  import opened Wrappers
  import opened Text
  import opened KvParser
  import opened Channel

  /** A probe's outcome, with the commands it sent, in the order sent. */
  datatype Probed<T> = Probed(result: Result<T>, sent: seq<string>)

  /** The three spellings of a print query, in the order they are tried, the bare query last. */
  function Variants(path: string): (vs: seq<string>)
    ensures |vs| == 3 && vs[2] == path
  {
    [path + " terse", path + " as-value", path]
  }

  /** The variants are three distinct commands, each on the queried path. */
  lemma VariantsDistinct(path: string)
    ensures forall k :: 0 <= k < 3 ==> |path| <= |Variants(path)[k]| && Variants(path)[k][..|path|] == path
    ensures forall j, k :: 0 <= j < k < 3 ==> Variants(path)[j] != Variants(path)[k]
  {
    var vs := Variants(path);
    assert |vs[0]| == |path| + 6 && |vs[1]| == |path| + 9;
  }

  /** What one variant yields: the command's error, or the rows parsed from its output. */
  function Outcome(device: Device, cmd: string): (r: Result<seq<Record>>)
    ensures r.Err? <==> RosExec(device, cmd).Err?
    ensures r.Err? ==> r.error == RosExec(device, cmd).error
    ensures r.Ok? ==> r.value == ParseRows(RosExec(device, cmd).value)
  {
    match RosExec(device, cmd)
    case Err(e) => Err(e)
    case Ok(out) => Ok(ParseRows(out))
  }

  /** A variant that ran and parsed to no rows, after which the next variant is tried. */
  predicate NoRows(r: Result<seq<Record>>) {
    r.Ok? && |r.value| == 0
  }

  /**
   * The loop of ros_print_any from variant `i` on, with `run` giving each
   * variant's outcome: each variant is sent in turn and the first that fails
   * or has rows is the answer; the last variant's outcome is returned even
   * when it has no rows. Every variant sent before the last one ran and had
   * no rows.
   */
  function TryVariants(run: string -> Result<seq<Record>>, cmds: seq<string>, i: nat): (p: Probed<seq<Record>>)
    requires i < |cmds|
    ensures 1 <= |p.sent| <= |cmds| - i
    ensures forall k :: 0 <= k < |p.sent| ==> p.sent[k] == cmds[i + k]
    ensures forall k :: 0 <= k < |p.sent| - 1 ==> NoRows(run(p.sent[k]))
    ensures p.result == run(p.sent[|p.sent| - 1])
    ensures |p.sent| < |cmds| - i ==> !NoRows(p.result)
    decreases |cmds| - i
  {
    var r := run(cmds[i]);
    if !NoRows(r) || i == |cmds| - 1 then Probed(r, [cmds[i]])
    else
      var rest := TryVariants(run, cmds, i + 1);
      var sent := [cmds[i]] + rest.sent;
      assert forall k :: 1 <= k < |sent| ==> sent[k] == rest.sent[k - 1];
      Probed(rest.result, sent)
  }

  /** A loop that ends without rows sent every variant from `i` on. */
  lemma TryVariantsEmpty(run: string -> Result<seq<Record>>, cmds: seq<string>, i: nat)
    requires i < |cmds|
    requires NoRows(TryVariants(run, cmds, i).result)
    ensures TryVariants(run, cmds, i).sent == cmds[i..]
  {
    var p := TryVariants(run, cmds, i);
    assert |p.sent| == |cmds| - i;
  }

  /** When every variant from `i` on has no rows, the loop ends without rows. */
  lemma TryVariantsAllEmpty(run: string -> Result<seq<Record>>, cmds: seq<string>, i: nat)
    requires i < |cmds|
    requires forall k :: i <= k < |cmds| ==> NoRows(run(cmds[k]))
    ensures NoRows(TryVariants(run, cmds, i).result)
  {
    var p := TryVariants(run, cmds, i);
    assert p.sent[|p.sent| - 1] == cmds[i + |p.sent| - 1];
  }

  /** The outcome of each variant on `device`. */
  function Runs(device: Device): string -> Result<seq<Record>> {
    cmd => Outcome(device, cmd)
  }

  /** ros_print_any($path): the three variants of the query, tried in order. */
  function PrintAny(device: Device, path: string): (p: Probed<seq<Record>>)
    ensures 1 <= |p.sent| <= 3
    ensures forall k :: 0 <= k < |p.sent| ==> p.sent[k] == Variants(path)[k]
    ensures forall k :: 0 <= k < |p.sent| - 1 ==> NoRows(Outcome(device, p.sent[k]))
    ensures p.result == Outcome(device, p.sent[|p.sent| - 1])
    ensures |p.sent| < 3 ==> !NoRows(p.result)
  {
    TryVariants(Runs(device), Variants(path), 0)
  }

  /** A probe that comes back without rows tried all three variants. */
  lemma EmptyProbeTriedAll(device: Device, path: string)
    requires NoRows(PrintAny(device, path).result)
    ensures PrintAny(device, path).sent == Variants(path)
  {
    TryVariantsEmpty(Runs(device), Variants(path), 0);
    assert Variants(path)[0..] == Variants(path);
  }

  /** When every variant ran and had no rows, all three were sent and the probe has no rows. */
  lemma AllEmptyProbe(device: Device, path: string)
    requires forall k :: 0 <= k < 3 ==> NoRows(Outcome(device, Variants(path)[k]))
    ensures NoRows(PrintAny(device, path).result)
    ensures PrintAny(device, path).sent == Variants(path)
  {
    TryVariantsAllEmpty(Runs(device), Variants(path), 0);
    EmptyProbeTriedAll(device, path);
  }

  /** A failing first variant ends the probe: nothing else is sent and its error is the result. */
  lemma FailureStopsProbe(device: Device, path: string)
    requires RosExec(device, path + " terse").Err?
    ensures PrintAny(device, path).sent == [path + " terse"]
    ensures PrintAny(device, path).result == Err(RosExec(device, path + " terse").error)
  {
    var p := PrintAny(device, path);
    assert p.sent[0] == path + " terse";
  }

  // ------------------------------------------------------------- metadata

  /** What ros_uptime_cpu reports; a missing field is None. */
  datatype Metadata = Metadata(uptime: string, cpuLoad: Option<nat>, version: Option<string>, board: Option<string>)

  /**
   * The CPU load of a raw `cpu-load` value: its digits, read as a number. A
   * value without any digit reads as 0, not as a missing load.
   */
  function CpuLoadOf(raw: string): (n: nat)
    ensures (forall k :: 0 <= k < |raw| ==> !IsDigit(raw[k])) ==> n == 0
  {
    if forall k :: 0 <= k < |raw| ==> !IsDigit(raw[k]) then
      DigitsOnlyOfNonDigits(raw);
      DecimalValue(DigitsOnly(raw))
    else DecimalValue(DigitsOnly(raw))
  }

  /**
   * The metadata of the first row of a resource listing, or of an empty row
   * when there is none. Each optional field is present exactly when one of
   * its keys is in that row.
   */
  function MetadataOf(rows: seq<Record>): (m: Metadata)
    ensures rows == [] ==> m == Metadata("", None, None, None)
    ensures rows != [] ==> (m.cpuLoad.Some? <==> "cpu-load" in rows[0] || "cpu_load" in rows[0])
    ensures rows != [] ==> (m.version.Some? <==> "version" in rows[0])
    ensures rows != [] ==> (m.board.Some? <==> "board-name" in rows[0] || "board" in rows[0])
  {
    var r := if rows == [] then map[] else rows[0];
    var cpu := FirstPresent(r, ["cpu-load", "cpu_load"]);
    FirstPresentOfTwo(r, "cpu-load", "cpu_load");
    FirstPresentOfTwo(r, "board-name", "board");
    Metadata(
      FirstPresent(r, ["uptime"]).GetOr(""),
      if cpu.Some? then Some(CpuLoadOf(cpu.value)) else None,
      FirstPresent(r, ["version"]),
      FirstPresent(r, ["board-name", "board"]))
  }

  /**
   * Each field of the metadata, read off the first row `r`: `uptime` or "",
   * `cpu-load` before `cpu_load`, `version`, `board-name` before `board`.
   */
  lemma MetadataFields(rows: seq<Record>)
    ensures var r: Record := if rows == [] then map[] else rows[0];
            var m := MetadataOf(rows);
            && m.uptime == (if "uptime" in r then r["uptime"] else "")
            && m.cpuLoad == (if "cpu-load" in r then Some(CpuLoadOf(r["cpu-load"]))
                             else if "cpu_load" in r then Some(CpuLoadOf(r["cpu_load"]))
                             else None)
            && m.version == (if "version" in r then Some(r["version"]) else None)
            && m.board == (if "board-name" in r then Some(r["board-name"])
                           else if "board" in r then Some(r["board"])
                           else None)
  {
    var r: Record := if rows == [] then map[] else rows[0];
    if "uptime" in r {
      FirstPresentOfFirst(r, ["uptime"], 0);
    }
    FirstPresentOfTwo(r, "cpu-load", "cpu_load");
    if "version" in r {
      FirstPresentOfFirst(r, ["version"], 0);
    }
    FirstPresentOfTwo(r, "board-name", "board");
  }

  /** A load written as a number followed by non-digit text (such as "12%") reads as that number. */
  lemma CpuLoadOfNumber(n: nat, rest: string)
    requires forall k :: 0 <= k < |rest| ==> !IsDigit(rest[k])
    ensures CpuLoadOf(ShowNat(n) + rest) == n
  {
    DigitsOnlyAppend(ShowNat(n), rest);
    DigitsOnlyOfDigits(ShowNat(n));
    DigitsOnlyOfNonDigits(rest);
    assert ShowNat(n) + [] == ShowNat(n);
    DecimalValueOfShowNat(n);
  }

  /** ros_uptime_cpu(): the metadata of `/system/resource/print`, or the error that stopped the probe. */
  function UptimeCpu(device: Device): (p: Probed<Metadata>)
    ensures p.sent == PrintAny(device, "/system/resource/print").sent
    ensures var rows := PrintAny(device, "/system/resource/print").result;
            && (rows.Ok? ==> p.result == Ok(MetadataOf(rows.value)))
            && (rows.Err? ==> p.result == Err(rows.error))
  {
    var p := PrintAny(device, "/system/resource/print");
    match p.result
    case Ok(rows) => Probed(Ok(MetadataOf(rows)), p.sent)
    case Err(e) => Probed(Err(e), p.sent)
  }
}

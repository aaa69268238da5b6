/**
 * The controller: serve the cached snapshot while it is fresh; otherwise
 * read the metadata, select the interfaces, monitor each selected interface
 * in turn, and cache the new snapshot. Any failure of the device channel
 * gives a failure result, which is never cached.
 */
module Poll {
  import opened Wrappers
  import opened KvParser
  import opened Channel
  import opened Probe
  import opened Interfaces
  import opened Monitor
  import opened Cache

  /** The configured `if_exact` list and `if_name_match` patterns. */
  datatype Config = Config(ifExact: seq<string>, ifNameMatch: seq<string>)

  /** One entry of `interfaces`. */
  datatype InterfaceRate = InterfaceRate(name: string, rxBps: int, txBps: int)

  /**
   * The dashboard data: `ok` true with time stamp, metadata and interface
   * rates, or `ok` false with the exception message (and no interfaces).
   */
  datatype PollResult =
    | Success(ts: int, meta: Metadata, interfaces: seq<InterfaceRate>)
    | Failure(ts: int, error: string)

  /** A poll's data and the commands it sent, in order. */
  datatype Polled = Polled(data: PollResult, sent: seq<string>)

  function RateEntry(name: string, s: RateSample): InterfaceRate {
    InterfaceRate(name, s.rxBps, s.txBps)
  }

  /** The monitor commands for `names`, in order. */
  function MonitorCmds(names: seq<string>): (cmds: seq<string>)
    ensures |cmds| == |names|
    ensures forall i :: 0 <= i < |names| ==> cmds[i] == MonitorCmd(names[i])
  {
    seq(|names|, i requires 0 <= i < |names| => MonitorCmd(names[i]))
  }

  /** ros_monitor_once on `device`, as a function of the interface name. */
  function Monitors(device: Device): string -> Result<RateSample> {
    ifname => MonitorSample(device, ifname)
  }

  /** Name `names[k]` is the first whose monitor fails. */
  predicate FirstFailure(monitor: string -> Result<RateSample>, names: seq<string>, k: int) {
    && 0 <= k < |names|
    && monitor(names[k]).Err?
    && forall j :: 0 <= j < k ==> monitor(names[j]).Ok?
  }

  /**
   * The controller's foreach over the selected names, with `monitor` reading
   * one interface: the interfaces are monitored in order and the first
   * failure ends the loop with its error.
   */
  function MonitorAll(monitor: string -> Result<RateSample>, names: seq<string>): (p: Probed<seq<InterfaceRate>>)
    ensures p.result.Ok? ==> && p.sent == MonitorCmds(names)
                             && |p.result.value| == |names|
                             && forall i :: 0 <= i < |names| ==>
                                  && monitor(names[i]).Ok?
                                  && p.result.value[i] == RateEntry(names[i], monitor(names[i]).value)
    ensures p.result.Err? ==> exists k :: && FirstFailure(monitor, names, k)
                                          && p.sent == MonitorCmds(names[..k + 1])
                                          && p.result.error == monitor(names[k]).error
    decreases |names|
  {
    if names == [] then Probed(Ok([]), [])
    else
      var init := names[..|names| - 1];
      var last := names[|names| - 1];
      var before := MonitorAll(monitor, init);
      if before.result.Err? then
        var k :| FirstFailure(monitor, init, k) && before.sent == MonitorCmds(init[..k + 1])
                 && before.result.error == monitor(init[k]).error;
        assert init[..k + 1] == names[..k + 1];
        assert FirstFailure(monitor, names, k);
        before
      else
        var sent := before.sent + [MonitorCmd(last)];
        assert sent == MonitorCmds(names);
        match monitor(last)
        case Err(e) =>
          assert names[..|names|] == names;
          assert FirstFailure(monitor, names, |names| - 1);
          Probed(Err(e), sent)
        case Ok(s) =>
          Probed(Ok(before.result.value + [RateEntry(last, s)]), sent)
  }

  /** Once a prefix of the names has failed, the rest of the names change nothing. */
  lemma {:induction false} MonitorAllSticky(monitor: string -> Result<RateSample>, names: seq<string>, n: nat)
    requires n <= |names|
    requires MonitorAll(monitor, names[..n]).result.Err?
    ensures MonitorAll(monitor, names) == MonitorAll(monitor, names[..n])
    decreases |names|
  {
    if n < |names| {
      var init := names[..|names| - 1];
      assert init[..n] == names[..n];
      MonitorAllSticky(monitor, init, n);
    } else {
      assert names[..n] == names;
    }
  }

  /** One more name after a prefix that did not fail: its monitor decides how the loop goes on. */
  lemma MonitorAllStep(monitor: string -> Result<RateSample>, names: seq<string>, i: nat)
    requires i < |names|
    requires MonitorAll(monitor, names[..i]).result.Ok?
    ensures var before := MonitorAll(monitor, names[..i]);
            var sent := before.sent + [MonitorCmd(names[i])];
            MonitorAll(monitor, names[..i + 1]) == match monitor(names[i])
              case Err(e) => Probed(Err(e), sent)
              case Ok(s) => Probed(Ok(before.result.value + [RateEntry(names[i], s)]), sent)
  {
    assert names[..i + 1][..i] == names[..i];
  }

  /**
   * A fresh poll: ros_uptime_cpu, then ros_interfaces_filtered, then
   * ros_monitor_once for each selected name; the first error becomes a
   * failure result at `now`.
   */
  function FreshPoll(device: Device, cfg: Config, now: int): Polled {
    var meta := UptimeCpu(device);
    if meta.result.Err? then Polled(Failure(now, meta.result.error), meta.sent)
    else
      var selected := InterfacesFiltered(device, cfg.ifExact, cfg.ifNameMatch);
      var sent := meta.sent + selected.sent;
      if selected.result.Err? then Polled(Failure(now, selected.result.error), sent)
      else
        var rates := MonitorAll(Monitors(device), selected.result.value);
        if rates.result.Err? then Polled(Failure(now, rates.result.error), sent + rates.sent)
        else Polled(Success(now, meta.result.value, rates.result.value), sent + rates.sent)
  }

  /** A successful fresh poll decomposes into its three stages, each of which succeeded. */
  lemma FreshPollStages(device: Device, cfg: Config, now: int)
    requires FreshPoll(device, cfg, now).data.Success?
    ensures var meta := UptimeCpu(device);
            var selected := InterfacesFiltered(device, cfg.ifExact, cfg.ifNameMatch);
            && meta.result.Ok? && selected.result.Ok?
            && var rates := MonitorAll(Monitors(device), selected.result.value);
               && rates.result.Ok?
               && FreshPoll(device, cfg, now)
                  == Polled(Success(now, meta.result.value, rates.result.value), meta.sent + selected.sent + rates.sent)
  {
  }

  /**
   * A successful fresh poll is stamped `now` and holds the metadata of the
   * resource listing and one entry per selected name, in selection order,
   * each with that interface's monitored rates.
   */
  lemma FreshPollSuccess(device: Device, cfg: Config, now: int)
    requires FreshPoll(device, cfg, now).data.Success?
    ensures var resources := PrintAny(device, "/system/resource/print");
            var listing := PrintAny(device, "/interface/print");
            var data := FreshPoll(device, cfg, now).data;
            && resources.result.Ok? && listing.result.Ok?
            && var names := SelectNames(listing.result.value, cfg.ifExact, cfg.ifNameMatch);
               && data.ts == now
               && data.meta == MetadataOf(resources.result.value)
               && |data.interfaces| == |names|
               && (forall i :: 0 <= i < |names| ==>
                     && MonitorSample(device, names[i]).Ok?
                     && data.interfaces[i] == RateEntry(names[i], MonitorSample(device, names[i]).value))
  {
    FreshPollStages(device, cfg, now);
    var meta := UptimeCpu(device);
    var names := InterfacesFiltered(device, cfg.ifExact, cfg.ifNameMatch).result.value;
    var rates := MonitorAll(Monitors(device), names);
    assert FreshPoll(device, cfg, now).data == Success(now, meta.result.value, rates.result.value);
    MonitorsRates(device, names);
  }

  /** A monitor loop over `device` that did not fail holds each name's monitored rates, in order. */
  lemma MonitorsRates(device: Device, names: seq<string>)
    requires MonitorAll(Monitors(device), names).result.Ok?
    ensures var rates := MonitorAll(Monitors(device), names).result.value;
            && |rates| == |names|
            && forall i :: 0 <= i < |names| ==>
                 && MonitorSample(device, names[i]).Ok?
                 && rates[i] == RateEntry(names[i], MonitorSample(device, names[i]).value)
  {
    assert forall i :: 0 <= i < |names| ==> Monitors(device)(names[i]) == MonitorSample(device, names[i]);
  }

  /**
   * A successful fresh poll sent the resource probe, then the interface
   * probe, then one monitor command per selected name, in selection order.
   */
  lemma FreshPollSuccessSent(device: Device, cfg: Config, now: int)
    requires FreshPoll(device, cfg, now).data.Success?
    ensures var listing := PrintAny(device, "/interface/print");
            && listing.result.Ok?
            && FreshPoll(device, cfg, now).sent
               == PrintAny(device, "/system/resource/print").sent + listing.sent
                  + MonitorCmds(SelectNames(listing.result.value, cfg.ifExact, cfg.ifNameMatch))
  {
    FreshPollStages(device, cfg, now);
  }

  /** A probe that fails reports the non-empty message of the command that failed. */
  lemma ProbeErrorNonEmpty(device: Device, path: string)
    requires PrintAny(device, path).result.Err?
    ensures PrintAny(device, path).result.error != ""
  {
    var p := PrintAny(device, path);
    assert RosExec(device, p.sent[|p.sent| - 1]).Err?;
  }

  /** A monitor loop that fails reports the non-empty message of the first monitor that failed. */
  lemma MonitorErrorNonEmpty(device: Device, names: seq<string>)
    requires MonitorAll(Monitors(device), names).result.Err?
    ensures MonitorAll(Monitors(device), names).result.error != ""
  {
    var p := MonitorAll(Monitors(device), names);
    var k :| FirstFailure(Monitors(device), names, k) && p.result.error == Monitors(device)(names[k]).error;
    assert RosExec(device, MonitorCmd(names[k])).Err?;
  }

  /** Every failure carries the non-empty message of the exception that caused it. */
  lemma FreshPollFailureMessage(device: Device, cfg: Config, now: int)
    requires FreshPoll(device, cfg, now).data.Failure?
    ensures FreshPoll(device, cfg, now).data.error != ""
    ensures FreshPoll(device, cfg, now).data.ts == now
  {
    var meta := UptimeCpu(device);
    if meta.result.Err? {
      ProbeErrorNonEmpty(device, "/system/resource/print");
    } else {
      var selected := InterfacesFiltered(device, cfg.ifExact, cfg.ifNameMatch);
      if selected.result.Err? {
        ProbeErrorNonEmpty(device, "/interface/print");
      } else {
        MonitorErrorNonEmpty(device, selected.result.value);
      }
    }
  }

  // ------------------------------------------------------------ the loop

  /** The controller's foreach: ros_monitor_once for each name in turn, stopping at the first exception. */
  method MonitorEach(device: Device, names: seq<string>) returns (p: Probed<seq<InterfaceRate>>)
    ensures p == MonitorAll(Monitors(device), names)
  {
    var ifs: seq<InterfaceRate> := [];
    var monitored: seq<string> := [];
    for i := 0 to |names|
      invariant MonitorAll(Monitors(device), names[..i]) == Probed(Ok(ifs), monitored)
    {
      var m := MonitorOnce(device, names[i]);
      assert Monitors(device)(names[i]) == m;
      MonitorAllStep(Monitors(device), names, i);
      monitored := monitored + [MonitorCmd(names[i])];
      if m.Err? {
        MonitorAllSticky(Monitors(device), names, i + 1);
        return Probed(Err(m.error), monitored);
      }
      ifs := ifs + [RateEntry(names[i], m.value)];
    }
    assert names[..|names|] == names;
    p := Probed(Ok(ifs), monitored);
  }

  /** The body of the controller's `try` block on a cache miss. */
  method Refresh(device: Device, cfg: Config, now: int) returns (polled: Polled)
    ensures polled == FreshPoll(device, cfg, now)
  {
    var meta := UptimeCpu(device);
    if meta.result.Err? {
      return Polled(Failure(now, meta.result.error), meta.sent);
    }
    var listing := PrintAny(device, "/interface/print");
    var sent := meta.sent + listing.sent;
    if listing.result.Err? {
      return Polled(Failure(now, listing.result.error), sent);
    }
    var names := FilterInterfaces(listing.result.value, cfg.ifExact, cfg.ifNameMatch);
    var rates := MonitorEach(device, names);
    if rates.result.Err? {
      return Polled(Failure(now, rates.result.error), sent + rates.sent);
    }
    polled := Polled(Success(now, meta.result.value, rates.result.value), sent + rates.sent);
  }

  /**
   * One request to the dashboard at second `now`: a fresh cached snapshot is
   * served as is, without contacting the device; otherwise a fresh poll is
   * made and, when it succeeded, written to the cache (`written` says whether
   * the write went through). A failure is never cached.
   */
  method Poll(cache: ResultCache<PollResult>, device: Device, cfg: Config, now: int, written: bool)
    returns (polled: Polled)
    modifies cache
    ensures var hit := Lookup(old(cache.entry), cache.ttl, now);
            && (hit.Some? ==> polled == Polled(hit.value, []) && cache.entry == old(cache.entry))
            && (hit.None? ==> polled == FreshPoll(device, cfg, now))
            && (hit.None? && polled.data.Success? ==>
                  cache.entry == (if written then Some(Entry(polled.data, now)) else old(cache.entry)))
            && (hit.None? && polled.data.Failure? ==> cache.entry == old(cache.entry))
  {
    var cached := cache.Get(now);
    if cached.Some? {
      return Polled(cached.value, []);
    }
    polled := Refresh(device, cfg, now);
    if polled.data.Success? {
      cache.Set(polled.data, now, written);
    }
  }
}

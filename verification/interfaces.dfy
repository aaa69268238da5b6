/**
 * ros_interfaces_filtered: which interfaces the dashboard shows. With a
 * configured exact list, the names of that list the device has, in the
 * list's order; otherwise every named interface row whose name contains one
 * of the patterns, ignoring case, in the device's order.
 */
module Interfaces {
  import opened Wrappers
  import opened Text
  import opened KvParser
  import opened Channel
  import opened Probe

  /** `$r['name'] ?? ''`. */
  function NameOf(r: Record): string {
    if "name" in r then r["name"] else ""
  }

  /** Row `i` of `rows` is named `n`. */
  predicate NamedAt(rows: seq<Record>, i: int, n: string) {
    0 <= i < |rows| && NameOf(rows[i]) == n
  }

  /** The keys of `$present`: the non-empty names of the rows (the empty name is never a key). */
  function PresentNames(rows: seq<Record>): (names: set<string>)
    ensures "" !in names
    decreases |rows|
  {
    if rows == [] then {}
    else
      var last := NameOf(rows[|rows| - 1]);
      PresentNames(rows[..|rows| - 1]) + (if last != "" then {last} else {})
  }

  /** The names of `names` that are in `present`, in order. */
  function KeepPresent(names: seq<string>, present: set<string>): (kept: seq<string>)
    ensures |kept| <= |names|
    ensures forall x :: x in kept <==> x in names && x in present
    decreases |names|
  {
    if names == [] then []
    else
      var before := KeepPresent(names[..|names| - 1], present);
      var x := names[|names| - 1];
      assert names == names[..|names| - 1] + [x];
      before + (if x in present then [x] else [])
  }

  /** `stripos($n, $m) !== false` for some pattern `$m`. */
  predicate MatchesAnyPattern(n: string, patterns: seq<string>) {
    exists j :: 0 <= j < |patterns| && ContainsIgnoreCase(n, patterns[j])
  }

  /** The non-empty row names that match a pattern, one per matching row, in row order. */
  function MatchingNames(rows: seq<Record>, patterns: seq<string>): (names: seq<string>)
    ensures |names| <= |rows|
    decreases |rows|
  {
    if rows == [] then []
    else
      var last := NameOf(rows[|rows| - 1]);
      MatchingNames(rows[..|rows| - 1], patterns) + (if last != "" && MatchesAnyPattern(last, patterns) then [last] else [])
  }

  /**
   * The selection: the exact list filtered by presence when one is
   * configured, else the pattern matches. Either way every selected name is
   * the non-empty name of some row, and there are no more of them than
   * configured names, or than rows.
   */
  function SelectNames(rows: seq<Record>, ifExact: seq<string>, patterns: seq<string>): (sel: seq<string>)
    ensures forall n :: n in sel ==> n in PresentNames(rows)
    ensures ifExact != [] ==> |sel| <= |ifExact|
    ensures ifExact == [] ==> |sel| <= |rows|
  {
    if ifExact != [] then KeepPresent(ifExact, PresentNames(rows))
    else
      MatchingArePresent(rows, patterns);
      MatchingNames(rows, patterns)
  }

  // ------------------------------------------------------------ lemmas

  /** A name is present exactly when it is non-empty and some row carries it. */
  lemma {:induction false} PresentNamesOfRows(rows: seq<Record>, n: string)
    ensures n in PresentNames(rows) <==> n != "" && exists i :: NamedAt(rows, i, n)
    decreases |rows|
  {
    if rows != [] {
      var init, last := rows[..|rows| - 1], NameOf(rows[|rows| - 1]);
      assert PresentNames(rows) == PresentNames(init) + (if last != "" then {last} else {});
      PresentNamesOfRows(init, n);
      RowsOfInit(rows, init, n);
    }
  }

  /** A name is matched exactly when it is non-empty, matches a pattern and some row carries it. */
  lemma {:induction false} MatchingNamesOfRows(rows: seq<Record>, patterns: seq<string>, n: string)
    ensures n in MatchingNames(rows, patterns) <==> n != "" && MatchesAnyPattern(n, patterns) && exists i :: NamedAt(rows, i, n)
    decreases |rows|
  {
    if rows != [] {
      var init, last := rows[..|rows| - 1], NameOf(rows[|rows| - 1]);
      assert MatchingNames(rows, patterns)
          == MatchingNames(init, patterns) + (if last != "" && MatchesAnyPattern(last, patterns) then [last] else []);
      MatchingNamesOfRows(init, patterns, n);
      RowsOfInit(rows, init, n);
    }
  }

  /** A row of a non-empty listing is a row of all but its last, or its last. */
  lemma RowsOfInit(rows: seq<Record>, init: seq<Record>, n: string)
    requires rows != [] && init == rows[..|rows| - 1]
    ensures (exists i :: NamedAt(rows, i, n))
        <==> (exists i :: NamedAt(init, i, n)) || NameOf(rows[|rows| - 1]) == n
  {
    if exists i :: NamedAt(init, i, n) {
      var i :| NamedAt(init, i, n);
      assert init[i] == rows[i];
      assert NamedAt(rows, i, n);
    }
    if exists i :: NamedAt(rows, i, n) {
      var i :| NamedAt(rows, i, n);
      if i < |rows| - 1 {
        assert init[i] == rows[i];
        assert NamedAt(init, i, n);
      }
    }
    if NameOf(rows[|rows| - 1]) == n {
      assert NamedAt(rows, |rows| - 1, n);
    }
  }

  /** Every name matched by a pattern is the name of a row of the listing. */
  lemma MatchingArePresent(rows: seq<Record>, patterns: seq<string>)
    ensures forall n :: n in MatchingNames(rows, patterns) ==> n in PresentNames(rows)
  {
    forall n | n in MatchingNames(rows, patterns)
      ensures n in PresentNames(rows)
    {
      MatchingNamesOfRows(rows, patterns, n);
      PresentNamesOfRows(rows, n);
    }
  }

  /** In exact mode a configured name is shown exactly when the device has it. */
  lemma ExactSelection(rows: seq<Record>, ifExact: seq<string>, patterns: seq<string>, n: string)
    requires ifExact != [] && n in ifExact
    ensures n in SelectNames(rows, ifExact, patterns) <==> n != "" && exists i :: NamedAt(rows, i, n)
  {
    PresentNamesOfRows(rows, n);
  }

  /** In exact mode, when the device has every configured name, the configured order is shown unchanged. */
  lemma {:induction false} KeepPresentAll(names: seq<string>, present: set<string>)
    requires forall k :: 0 <= k < |names| ==> names[k] in present
    ensures KeepPresent(names, present) == names
    decreases |names|
  {
    if names != [] {
      KeepPresentAll(names[..|names| - 1], present);
      InitThenLast(names);
    }
  }

  /** One more configured name: it is kept after the earlier ones exactly when it is present. */
  lemma KeepPresentAppend(names: seq<string>, x: string, present: set<string>)
    ensures KeepPresent(names + [x], present) == KeepPresent(names, present) + (if x in present then [x] else [])
  {
    assert (names + [x])[..|names|] == names;
  }

  /** One more row: its name is listed after the earlier ones exactly when it is non-empty and matches. */
  lemma MatchingNamesAppend(rows: seq<Record>, r: Record, patterns: seq<string>)
    ensures MatchingNames(rows + [r], patterns)
         == MatchingNames(rows, patterns) + (if NameOf(r) != "" && MatchesAnyPattern(NameOf(r), patterns) then [NameOf(r)] else [])
  {
    assert (rows + [r])[..|rows|] == rows;
  }

  /** Pattern matching ignores the case of the interface name. */
  lemma MatchIgnoresCase(n: string, patterns: seq<string>)
    ensures MatchesAnyPattern(n, patterns) <==> MatchesAnyPattern(Lower(n), patterns)
  {
    LowerIdempotent(n);
  }

  /** An empty pattern matches every name, since stripos finds the empty string at offset 0. */
  lemma EmptyPatternMatchesAll(n: string, patterns: seq<string>)
    requires "" in patterns
    ensures MatchesAnyPattern(n, patterns)
  {
    var j :| 0 <= j < |patterns| && patterns[j] == "";
    assert OccursAt(Lower(""), Lower(n), 0);
  }

  // ------------------------------------------------------------ methods

  /** The inner loop over the patterns, stopping at the first that matches. */
  method MatchesAny(n: string, patterns: seq<string>) returns (found: bool)
    ensures found <==> MatchesAnyPattern(n, patterns)
  {
    found := false;
    for j := 0 to |patterns|
      invariant !found
      invariant forall k :: 0 <= k < j ==> !ContainsIgnoreCase(n, patterns[k])
    {
      if ContainsIgnoreCase(n, patterns[j]) {
        found := true;
        break;
      }
    }
  }

  /** The loop that builds `$present`. */
  method CollectPresent(rows: seq<Record>) returns (present: set<string>)
    ensures present == PresentNames(rows)
  {
    present := {};
    for i := 0 to |rows|
      invariant present == PresentNames(rows[..i])
    {
      assert rows[..i + 1][..i] == rows[..i];
      var n := NameOf(rows[i]);
      if n != "" {
        present := present + {n};
      }
    }
    assert rows[..|rows|] == rows;
  }

  /** The exact-mode loop: the configured names that are present, in the configured order. */
  method KeepConfigured(ifExact: seq<string>, present: set<string>) returns (want: seq<string>)
    ensures want == KeepPresent(ifExact, present)
  {
    want := [];
    for i := 0 to |ifExact|
      invariant want == KeepPresent(ifExact[..i], present)
    {
      assert ifExact[..i + 1][..i] == ifExact[..i];
      if ifExact[i] in present {
        want := want + [ifExact[i]];
      }
    }
    assert ifExact[..|ifExact|] == ifExact;
  }

  /** The pattern-mode loop over the rows, skipping unnamed rows. */
  method CollectMatching(rows: seq<Record>, patterns: seq<string>) returns (want: seq<string>)
    ensures want == MatchingNames(rows, patterns)
  {
    want := [];
    for i := 0 to |rows|
      invariant want == MatchingNames(rows[..i], patterns)
    {
      assert rows[..i + 1][..i] == rows[..i];
      var n := NameOf(rows[i]);
      if n == "" {
        continue;
      }
      var found := MatchesAny(n, patterns);
      if found {
        want := want + [n];
      }
    }
    assert rows[..|rows|] == rows;
  }

  /** ros_interfaces_filtered on a listing already fetched. */
  method FilterInterfaces(rows: seq<Record>, ifExact: seq<string>, patterns: seq<string>) returns (want: seq<string>)
    ensures want == SelectNames(rows, ifExact, patterns)
  {
    var present := CollectPresent(rows);
    if ifExact != [] {
      want := KeepConfigured(ifExact, present);
      return;
    }
    want := CollectMatching(rows, patterns);
  }

  /** ros_interfaces_filtered($match): the selection over `/interface/print`, or the error that stopped the probe. */
  function InterfacesFiltered(device: Device, ifExact: seq<string>, patterns: seq<string>): (p: Probed<seq<string>>)
    ensures p.sent == PrintAny(device, "/interface/print").sent
    ensures var rows := PrintAny(device, "/interface/print").result;
            && (rows.Ok? ==> p.result == Ok(SelectNames(rows.value, ifExact, patterns)))
            && (rows.Err? ==> p.result == Err(rows.error))
  {
    var p := PrintAny(device, "/interface/print");
    match p.result
    case Ok(rows) => Probed(Ok(SelectNames(rows, ifExact, patterns)), p.sent)
    case Err(e) => Probed(Err(e), p.sent)
  }
}

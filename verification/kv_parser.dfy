/**
 * parse_kv_lines: turns one device response into rows (records of field
 * name to value). A line holding `=` is a terse row of whitespace-separated
 * `key=value` tokens and becomes a row at once; a line holding `:` but no
 * `=` is a `key: value` fragment of one accumulating row, emitted after all
 * terse rows. Because empty lines are filtered out before the loop, the
 * blank-line flush the loop carries is never taken: every fragment of a
 * response lands in the same single row.
 */
module KvParser {
  import opened Wrappers
  import opened Text

  /** One parsed row: field name to value. */
  type Record = map<string, string>

  /** PHP truthiness of a string: everything except "" and "0". */
  predicate Truthy(s: string) {
    s != "" && s != "0"
  }

  /** The trimmed lines of `pieces` that PHP's array_filter keeps, in order. */
  function KeepTruthy(pieces: seq<string>): (lines: seq<string>)
    ensures |lines| <= |pieces|
    ensures forall i :: 0 <= i < |lines| ==> Truthy(lines[i]) && Unpadded(lines[i])
  {
    if pieces == [] then []
    else
      var t := Trim(pieces[0]);
      (if Truthy(t) then [t] else []) + KeepTruthy(pieces[1..])
  }

  /** A single piece is kept, trimmed, exactly when its trim is truthy. */
  lemma KeepTruthyOne(piece: string)
    ensures KeepTruthy([piece]) == if Truthy(Trim(piece)) then [Trim(piece)] else []
  {
    assert [piece][1..] == [];
  }

  /** The filter works piece by piece: it distributes over concatenation, so the kept lines keep their order. */
  lemma {:induction false} KeepTruthyAppend(a: seq<string>, b: seq<string>)
    ensures KeepTruthy(a + b) == KeepTruthy(a) + KeepTruthy(b)
    decreases |a|
  {
    if a != [] {
      var t := Trim(a[0]);
      var head := if Truthy(t) then [t] else [];
      assert (a + b)[0] == a[0] && (a + b)[1..] == a[1..] + b;
      calc {
        KeepTruthy(a + b);
        head + KeepTruthy(a[1..] + b);
        { KeepTruthyAppend(a[1..], b); }
        head + (KeepTruthy(a[1..]) + KeepTruthy(b));
        { AppendAssoc(head, KeepTruthy(a[1..]), KeepTruthy(b)); }
        (head + KeepTruthy(a[1..])) + KeepTruthy(b);
        KeepTruthy(a) + KeepTruthy(b);
      }
    } else {
      assert a + b == b;
    }
  }

  /** A line is kept exactly when it is truthy and the trim of some piece. */
  lemma {:induction false} KeepTruthyMembers(pieces: seq<string>, line: string)
    ensures line in KeepTruthy(pieces) <==> Truthy(line) && exists p :: 0 <= p < |pieces| && Trim(pieces[p]) == line
    decreases |pieces|
  {
    if pieces != [] {
      KeepTruthyMembers(pieces[1..], line);
      if exists p :: 0 <= p < |pieces[1..]| && Trim(pieces[1..][p]) == line {
        var p :| 0 <= p < |pieces[1..]| && Trim(pieces[1..][p]) == line;
        assert Trim(pieces[p + 1]) == line;
      }
      if exists p :: 0 <= p < |pieces| && Trim(pieces[p]) == line {
        var p :| 0 <= p < |pieces| && Trim(pieces[p]) == line;
        if p > 0 {
          assert Trim(pieces[1..][p - 1]) == line;
        }
      }
    }
  }

  /** The line list every parser starts from: explode on "\n", trim each line, drop "" and "0". */
  function KeptLines(raw: string): (lines: seq<string>)
    ensures forall i :: 0 <= i < |lines| ==> Truthy(lines[i]) && Unpadded(lines[i])
    ensures forall i :: 0 <= i < |lines| ==> '\n' !in lines[i]
  {
    var pieces := Explode(raw, '\n');
    var lines := KeepTruthy(pieces);
    assert forall i :: 0 <= i < |lines| ==> '\n' !in lines[i] by {
      forall i | 0 <= i < |lines|
        ensures '\n' !in lines[i]
      {
        KeepTruthyMembers(pieces, lines[i]);
        if '\n' in lines[i] {
          var p :| 0 <= p < |pieces| && Trim(pieces[p]) == lines[i];
          TrimKeepsChars(pieces[p], '\n');
        }
      }
    }
    lines
  }

  /** The kept lines of lines joined by "\n" are their truthy trims, in order. */
  lemma KeptLinesOfLines(lines: seq<string>)
    requires |lines| >= 1
    requires forall p :: 0 <= p < |lines| ==> '\n' !in lines[p]
    ensures KeptLines(Implode(lines, '\n')) == KeepTruthy(lines)
  {
    ExplodeImplode(lines, '\n');
  }

  /** `keys[i]` is the first of `keys` present in `r`. */
  predicate FirstPresentAt(r: Record, keys: seq<string>, i: int) {
    && 0 <= i < |keys|
    && keys[i] in r
    && forall j :: 0 <= j < i ==> keys[j] !in r
  }

  /**
   * A lookup with fallbacks, PHP's `$r[k1] ?? ($r[k2] ?? ...)`: the value
   * of the first of `keys` present in `r`, or None when none is.
   */
  function FirstPresent(r: Record, keys: seq<string>): (v: Option<string>)
    ensures v.None? <==> forall i :: 0 <= i < |keys| ==> keys[i] !in r
    ensures v.Some? ==> exists i :: FirstPresentAt(r, keys, i) && v.value == r[keys[i]]
  {
    if keys == [] then None
    else if keys[0] in r then
      assert FirstPresentAt(r, keys, 0);
      Some(r[keys[0]])
    else
      var v := FirstPresent(r, keys[1..]);
      if v.Some? then
        var i :| FirstPresentAt(r, keys[1..], i) && v.value == r[keys[1..][i]];
        assert FirstPresentAt(r, keys, i + 1);
        v
      else
        v
  }

  /** The lookup finds the first present key: the position of that key decides the value. */
  lemma FirstPresentOfFirst(r: Record, keys: seq<string>, i: int)
    requires FirstPresentAt(r, keys, i)
    ensures FirstPresent(r, keys) == Some(r[keys[i]])
  {
    var v := FirstPresent(r, keys);
    var j :| FirstPresentAt(r, keys, j) && v.value == r[keys[j]];
    assert j == i;
  }

  /** `$r[a] ?? ($r[b] ?? null)`. */
  lemma FirstPresentOfTwo(r: Record, a: string, b: string)
    ensures FirstPresent(r, [a, b]) == (if a in r then Some(r[a]) else if b in r then Some(r[b]) else None)
  {
    if a in r {
      FirstPresentOfFirst(r, [a, b], 0);
    } else if b in r {
      FirstPresentOfFirst(r, [a, b], 1);
    } else {
      assert forall i :: 0 <= i < 2 ==> [a, b][i] !in r;
    }
  }

  // ------------------------------------------------------------ terse rows

  /** Token `tokens[p]` holds an `=` and assigns key `k`. */
  predicate SetsKey(tokens: seq<string>, p: int, k: string) {
    0 <= p < |tokens| && '=' in tokens[p] && SplitAtFirst(tokens[p], '=').0 == k
  }

  /**
   * `$kv[$k] = $v` for each token holding `=`, split at its first `=`, in
   * order; other tokens are skipped. Keys are only added, and every added key
   * is the key of some token.
   */
  function AssignPairs(kv: Record, tokens: seq<string>): (r: Record)
    ensures forall k :: k in kv ==> k in r
    ensures forall k :: k in r ==> k in kv || SetByToken(tokens, k)
    decreases |tokens|
  {
    if tokens == [] then kv
    else
      var init := tokens[..|tokens| - 1];
      var before := AssignPairs(kv, init);
      SetsKeyOfInit(tokens, init);
      var t := tokens[|tokens| - 1];
      if '=' in t then
        var pair := SplitAtFirst(t, '=');
        before[pair.0 := pair.1]
      else before
  }

  /** Some token of `tokens` sets key `k`. */
  ghost predicate SetByToken(tokens: seq<string>, k: string) {
    exists p :: SetsKey(tokens, p, k)
  }

  /** A key some token of the prefix sets is set by a token of the whole list. */
  lemma SetsKeyOfInit(tokens: seq<string>, init: seq<string>)
    requires tokens != [] && init == tokens[..|tokens| - 1]
    ensures forall k :: SetByToken(init, k) ==> SetByToken(tokens, k)
    ensures forall k :: '=' in tokens[|tokens| - 1] && SplitAtFirst(tokens[|tokens| - 1], '=').0 == k ==> SetByToken(tokens, k)
  {
    forall k | SetByToken(init, k)
      ensures SetByToken(tokens, k)
    {
      var p :| SetsKey(init, p, k);
      assert init[p] == tokens[p];
      assert SetsKey(tokens, p, k);
    }
    forall k | '=' in tokens[|tokens| - 1] && SplitAtFirst(tokens[|tokens| - 1], '=').0 == k
      ensures SetByToken(tokens, k)
    {
      assert SetsKey(tokens, |tokens| - 1, k);
    }
  }

  /** The record of one terse line: its preg_split('/\s+/') tokens assigned into an empty map. */
  function TerseRecord(line: string): Record {
    AssignPairs(map[], SplitOnSpaceRuns(line))
  }

  /** Every key of a terse line's record is the key of one of its tokens. */
  lemma TerseRecordKeys(line: string)
    ensures forall k :: k in TerseRecord(line) ==> SetByToken(SplitOnSpaceRuns(line), k)
  {
    var empty: Record := map[];
    assert TerseRecord(line) == AssignPairs(empty, SplitOnSpaceRuns(line));
    assert forall k :: k !in empty;
  }

  /** A key set by some token is in the result. */
  lemma {:induction false} AssignPairsHasKey(kv: Record, tokens: seq<string>, p: int)
    requires 0 <= p < |tokens| && '=' in tokens[p]
    ensures SplitAtFirst(tokens[p], '=').0 in AssignPairs(kv, tokens)
    decreases |tokens|
  {
    if p < |tokens| - 1 {
      AssignPairsHasKey(kv, tokens[..|tokens| - 1], p);
    }
  }

  /** The value of a key is the value of the last token that sets it. */
  lemma {:induction false} AssignPairsLastWins(kv: Record, tokens: seq<string>, p: int, k: string)
    requires SetsKey(tokens, p, k)
    requires forall q :: p < q < |tokens| ==> !SetsKey(tokens, q, k)
    ensures k in AssignPairs(kv, tokens)
    ensures AssignPairs(kv, tokens)[k] == SplitAtFirst(tokens[p], '=').1
    decreases |tokens|
  {
    var init := tokens[..|tokens| - 1];
    if p < |tokens| - 1 {
      forall q | p < q < |init|
        ensures !SetsKey(init, q, k)
      {
        assert init[q] == tokens[q] && !SetsKey(tokens, q, k);
      }
      AssignPairsLastWins(kv, init, p, k);
      assert !SetsKey(tokens, |tokens| - 1, k);
    }
  }

  /** A key no token sets keeps its earlier presence and value. */
  lemma {:induction false} AssignPairsUntouched(kv: Record, tokens: seq<string>, k: string)
    requires forall q :: 0 <= q < |tokens| ==> !SetsKey(tokens, q, k)
    ensures (k in AssignPairs(kv, tokens)) == (k in kv)
    ensures k in kv ==> AssignPairs(kv, tokens)[k] == kv[k]
    decreases |tokens|
  {
    if tokens != [] {
      var init := tokens[..|tokens| - 1];
      forall q | 0 <= q < |init|
        ensures !SetsKey(init, q, k)
      {
        assert init[q] == tokens[q] && !SetsKey(tokens, q, k);
      }
      AssignPairsUntouched(kv, init, k);
      assert !SetsKey(tokens, |tokens| - 1, k);
    }
  }

  /** A line holding `=` always yields a non-empty record: the token around that `=` sets a key. */
  lemma TerseRecordNonEmpty(line: string)
    requires '=' in line
    ensures TerseRecord(line) != map[]
  {
    var tokens := SplitOnSpaceRuns(line);
    SplitOnSpaceRunsKeepsChar(line, '=');
    var p :| 0 <= p < |tokens| && '=' in tokens[p];
    AssignPairsHasKey(map[], tokens, p);
  }

  /** One row per line holding `=`, in line order; the guard `if ($kv)` keeps every row non-empty. */
  function TerseRows(lines: seq<string>): (rows: seq<Record>)
    ensures |rows| <= |lines|
    ensures forall i :: 0 <= i < |rows| ==> rows[i] != map[]
    decreases |lines|
  {
    if lines == [] then []
    else
      var last := lines[|lines| - 1];
      TerseRows(lines[..|lines| - 1])
      + (if '=' in last && TerseRecord(last) != map[] then [TerseRecord(last)] else [])
  }

  /** The lines holding `=`, in order. */
  function TerseLines(lines: seq<string>): (r: seq<string>)
    ensures |r| <= |lines|
    ensures forall l :: l in r <==> l in lines && '=' in l
    decreases |lines|
  {
    if lines == [] then []
    else
      var last := lines[|lines| - 1];
      assert lines == lines[..|lines| - 1] + [last];
      TerseLines(lines[..|lines| - 1]) + (if '=' in last then [last] else [])
  }

  /** Selecting the `=` lines distributes over concatenation, so they keep their order. */
  lemma {:induction false} TerseLinesAppend(a: seq<string>, b: seq<string>)
    ensures TerseLines(a + b) == TerseLines(a) + TerseLines(b)
    decreases |b|
  {
    if b == [] {
      assert a + b == a;
    } else {
      var init, last := b[..|b| - 1], b[|b| - 1];
      assert (a + b)[..|a + b| - 1] == a + init && (a + b)[|a + b| - 1] == last;
      TerseLinesAppend(a, init);
      assert TerseLines(a + b) == TerseLines(a + init) + (if '=' in last then [last] else []);
    }
  }

  /** Every line holding `=` adds exactly one row: the i-th terse row is the record of the i-th such line. */
  lemma {:induction false} TerseRowsOnePerLine(lines: seq<string>)
    ensures |TerseRows(lines)| == |TerseLines(lines)|
    ensures forall i :: 0 <= i < |TerseRows(lines)| ==> TerseRows(lines)[i] == TerseRecord(TerseLines(lines)[i])
    decreases |lines|
  {
    if lines != [] {
      var init, last := lines[..|lines| - 1], lines[|lines| - 1];
      TerseRowsOnePerLine(init);
      if '=' in last {
        TerseRecordNonEmpty(last);
      }
      assert TerseRows(lines) == TerseRows(init) + (if '=' in last then [TerseRecord(last)] else []);
      assert TerseLines(lines) == TerseLines(init) + (if '=' in last then [last] else []);
    }
  }

  // ----------------------------------------------------------- colon rows

  /**
   * PHP array_map('trim', explode(':', $ln, 2)) on a line holding `:`: both
   * sides unpadded, the key free of `:`.
   */
  function ColonPair(line: string): (kv: (string, string))
    requires ':' in line
    ensures Unpadded(kv.0) && Unpadded(kv.1)
    ensures ':' !in kv.0
  {
    var pair := SplitAtFirst(line, ':');
    if ':' in Trim(pair.0) then
      TrimKeepsChars(pair.0, ':');
      assert false;
      (Trim(pair.0), Trim(pair.1))
    else (Trim(pair.0), Trim(pair.1))
  }

  /** Line `lines[i]` is a `key: value` fragment (no `=`, a `:`) with the non-empty key `k`. */
  predicate FragmentSets(lines: seq<string>, i: int, k: string) {
    && 0 <= i < |lines|
    && '=' !in lines[i] && ':' in lines[i]
    && k != "" && ColonPair(lines[i]).0 == k
  }

  /**
   * The accumulating `$current` row: every fragment with a non-empty key, in
   * order, later ones winning. Its keys are non-empty, unpadded and free of `:`.
   */
  function ColonRecord(lines: seq<string>): (r: Record)
    ensures forall k :: k in r ==> k != "" && ':' !in k && Unpadded(k)
    decreases |lines|
  {
    if lines == [] then map[]
    else
      var before := ColonRecord(lines[..|lines| - 1]);
      var last := lines[|lines| - 1];
      if '=' !in last && ':' in last && ColonPair(last).0 != "" then
        before[ColonPair(last).0 := ColonPair(last).1]
      else before
  }

  /** A key some fragment sets is in the colon row. */
  lemma {:induction false} ColonRecordHasKey(lines: seq<string>, i: int, k: string)
    requires FragmentSets(lines, i, k)
    ensures k in ColonRecord(lines)
    decreases |lines|
  {
    var init := lines[..|lines| - 1];
    if i < |lines| - 1 {
      assert init[i] == lines[i];
      ColonRecordHasKey(init, i, k);
    }
  }

  /** Every key of the colon row comes from a fragment. */
  lemma {:induction false} ColonRecordKeyFromFragment(lines: seq<string>, k: string)
    requires k in ColonRecord(lines)
    ensures exists i :: FragmentSets(lines, i, k)
    decreases |lines|
  {
    var init := lines[..|lines| - 1];
    var last := lines[|lines| - 1];
    if !FragmentSets(lines, |lines| - 1, k) {
      assert k in ColonRecord(init);
      ColonRecordKeyFromFragment(init, k);
      var i :| FragmentSets(init, i, k);
      assert init[i] == lines[i];
      assert FragmentSets(lines, i, k);
    }
  }

  /** The value of a key in the colon row is the value of the last fragment setting it. */
  lemma {:induction false} ColonRecordLastWins(lines: seq<string>, i: int, k: string)
    requires FragmentSets(lines, i, k)
    requires forall j :: i < j < |lines| ==> !FragmentSets(lines, j, k)
    ensures k in ColonRecord(lines) && ColonRecord(lines)[k] == ColonPair(lines[i]).1
    decreases |lines|
  {
    var init := lines[..|lines| - 1];
    if i < |lines| - 1 {
      assert init[i] == lines[i];
      forall j | i < j < |init|
        ensures !FragmentSets(init, j, k)
      {
        assert init[j] == lines[j] && !FragmentSets(lines, j, k);
      }
      ColonRecordLastWins(init, i, k);
      assert !FragmentSets(lines, |lines| - 1, k);
    }
  }

  // ---------------------------------------------------------------- rows

  /** parse_kv_lines($raw): the terse rows, then the colon row if it is non-empty (ParseRowsShape). */
  function ParseRows(raw: string): seq<Record> {
    var lines := KeptLines(raw);
    var current := ColonRecord(lines);
    TerseRows(lines) + (if current != map[] then [current] else [])
  }

  /**
   * The rows of a response: one per line holding `=`, in order, then one
   * row merging every colon fragment if there is any; no row is empty.
   */
  lemma ParseRowsShape(raw: string)
    ensures var lines := KeptLines(raw);
            var rows := ParseRows(raw);
            var terse := TerseLines(lines);
            && |rows| == |terse| + (if ColonRecord(lines) == map[] then 0 else 1)
            && (forall i :: 0 <= i < |terse| ==> rows[i] == TerseRecord(terse[i]))
            && (ColonRecord(lines) != map[] ==> rows[|rows| - 1] == ColonRecord(lines))
            && (forall i :: 0 <= i < |rows| ==> rows[i] != map[])
  {
    var lines := KeptLines(raw);
    var current := ColonRecord(lines);
    assert ParseRows(raw) == TerseRows(lines) + (if current != map[] then [current] else []);
    TerseRowsOnePerLine(lines);
  }

  /** Lines with neither `=` nor `:` leave the rows as they are. */
  lemma {:induction false} PlainLinesIgnored(lines: seq<string>, line: string)
    requires '=' !in line && ':' !in line
    ensures TerseRows(lines + [line]) == TerseRows(lines)
    ensures ColonRecord(lines + [line]) == ColonRecord(lines)
  {
    assert (lines + [line])[..|lines|] == lines;
  }

  /** Assigns the `key=value` tokens of one terse line into `kv0` (the inner foreach of the terse branch). */
  method AssignTerseLine(kv0: Record, line: string) returns (kv: Record)
    ensures kv == AssignPairs(kv0, SplitOnSpaceRuns(line))
  {
    var tokens := SplitOnSpaceRuns(line);
    kv := kv0;
    for p := 0 to |tokens|
      invariant kv == AssignPairs(kv0, tokens[..p])
    {
      assert tokens[..p + 1][..p] == tokens[..p];
      var pair := tokens[p];
      if pair == "" || '=' !in pair {
        continue;
      }
      var kv1 := SplitAtFirst(pair, '=');
      kv := kv[kv1.0 := kv1.1];
    }
    assert tokens[..|tokens|] == tokens;
  }

  /** One more line: how the terse rows and the colon row of a prefix grow. */
  lemma ParseStep(lines: seq<string>, i: nat)
    requires i < |lines|
    ensures var ln := lines[i];
            && TerseRows(lines[..i + 1])
               == TerseRows(lines[..i]) + (if '=' in ln && TerseRecord(ln) != map[] then [TerseRecord(ln)] else [])
            && ColonRecord(lines[..i + 1])
               == (if '=' !in ln && ':' in ln && ColonPair(ln).0 != "" then ColonRecord(lines[..i])[ColonPair(ln).0 := ColonPair(ln).1]
                   else ColonRecord(lines[..i]))
  {
    assert lines[..i + 1][..i] == lines[..i];
  }

  /**
   * parse_kv_lines as the loop it is. The flush on an empty line is left
   * out: no kept line is empty, so that branch never runs.
   */
  method ParseKvLines(raw: string) returns (rows: seq<Record>)
    ensures rows == ParseRows(raw)
  {
    var lines := KeptLines(raw);
    rows := [];
    var current: Record := map[];
    for i := 0 to |lines|
      invariant rows == TerseRows(lines[..i])
      invariant current == ColonRecord(lines[..i])
    {
      ParseStep(lines, i);
      var ln := lines[i];
      if '=' in ln {
        var kv := AssignTerseLine(map[], ln);
        if kv != map[] {
          rows := rows + [kv];
        }
        continue;
      }
      if ':' in ln {
        var kv := ColonPair(ln);
        if kv.0 != "" {
          current := current[kv.0 := kv.1];
        }
        continue;
      }
    }
    assert lines[..|lines|] == lines;
    if current != map[] {
      rows := rows + [current];
    }
  }
}

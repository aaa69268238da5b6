/**
 * The PHP string primitives the dashboard's parsers are built from, on
 * `string` = `seq<char>` with ASCII semantics: trim, explode, implode,
 * preg_split on `\s+`, strtolower, stripos, str_starts_with/str_ends_with,
 * stripping non-digits and reading a digit string as a number.
 */
module Text {

  /** The characters PHP's trim() strips by default: space, tab, LF, CR, NUL, vertical tab. */
  predicate IsTrimChar(c: char) {
    c == ' ' || c == '\t' || c == '\n' || c == '\r' || c == '\0' || c == '\U{0B}'
  }

  /** The characters PCRE's `\s` matches: space, tab, LF, vertical tab, form feed, CR. */
  predicate IsSpace(c: char) {
    c == ' ' || c == '\t' || c == '\n' || c == '\U{0B}' || c == '\U{0C}' || c == '\r'
  }

  predicate IsDigit(c: char) {
    '0' <= c <= '9'
  }

  predicate AllDigits(s: string) {
    forall i :: 0 <= i < |s| ==> IsDigit(s[i])
  }

  predicate NoSpace(s: string) {
    forall i :: 0 <= i < |s| ==> !IsSpace(s[i])
  }

  predicate StartsWith(s: string, prefix: string) {
    |prefix| <= |s| && s[..|prefix|] == prefix
  }

  predicate EndsWith(s: string, suffix: string) {
    |suffix| <= |s| && s[|s| - |suffix|..] == suffix
  }

  // ---------------------------------------------------------------- trim

  /** Number of trim characters at the start of `s`. */
  function LeadingTrim(s: string): (n: nat)
    ensures n <= |s|
    ensures forall k :: 0 <= k < n ==> IsTrimChar(s[k])
    ensures n < |s| ==> !IsTrimChar(s[n])
  {
    if |s| > 0 && IsTrimChar(s[0]) then 1 + LeadingTrim(s[1..]) else 0
  }

  /** Number of trim characters at the end of `s`. */
  function TrailingTrim(s: string): (n: nat)
    ensures n <= |s|
    ensures forall k :: |s| - n <= k < |s| ==> IsTrimChar(s[k])
    ensures n < |s| ==> !IsTrimChar(s[|s| - 1 - n])
  {
    if |s| > 0 && IsTrimChar(s[|s| - 1]) then 1 + TrailingTrim(s[..|s| - 1]) else 0
  }

  /** PHP trim($s): `s` without its leading and trailing trim characters. */
  function Trim(s: string): (r: string)
    ensures |r| <= |s|
    ensures r == [] <==> forall k :: 0 <= k < |s| ==> IsTrimChar(s[k])
    ensures r != [] ==> !IsTrimChar(r[0]) && !IsTrimChar(r[|r| - 1])
    ensures exists i :: PaddedAt(s, i, r)
  {
    var a := LeadingTrim(s);
    var t := s[a..];
    var r := t[..|t| - TrailingTrim(t)];
    assert PaddedAt(s, a, r);
    r
  }

  /** Neither starts nor ends with a trim character: a string trim() leaves as it is (TrimOfTrimmed). */
  predicate Unpadded(s: string) {
    s == [] || (!IsTrimChar(s[0]) && !IsTrimChar(s[|s| - 1]))
  }

  /** `r` sits at offset `i` of `s` with nothing but trim characters before and after it. */
  predicate PaddedAt(s: string, i: int, r: string) {
    && 0 <= i <= |s| - |r|
    && r == s[i..i + |r|]
    && (forall k :: 0 <= k < i ==> IsTrimChar(s[k]))
    && (forall k :: i + |r| <= k < |s| ==> IsTrimChar(s[k]))
  }

  /** `r` is `s` with nothing but trim characters removed from its two ends. */
  ghost predicate PaddedIn(s: string, r: string) {
    exists i :: PaddedAt(s, i, r)
  }

  /** A string that neither starts nor ends with a trim character is its own trim. */
  lemma TrimOfTrimmed(s: string)
    requires Unpadded(s)
    ensures Trim(s) == s
  {
  }

  /** Trim strips exactly the padding around a core that neither starts nor ends with a trim character. */
  lemma TrimOfPadded(s: string, i: int, w: string)
    requires PaddedAt(s, i, w)
    requires w != [] && !IsTrimChar(w[0]) && !IsTrimChar(w[|w| - 1])
    ensures Trim(s) == w
  {
    var r := Trim(s);
    var j :| PaddedAt(s, j, r);
    assert s[i] == w[0];
    assert r != [];
    assert s[j] == r[0];
    assert j == i;
    assert s[i + |w| - 1] == w[|w| - 1];
    assert s[j + |r| - 1] == r[|r| - 1];
    assert |r| == |w|;
  }

  /** Trim only removes characters: every character of the result is one of `s`. */
  lemma TrimKeepsChars(s: string, c: char)
    requires c in Trim(s)
    ensures c in s
  {
    var r := Trim(s);
    var i :| PaddedAt(s, i, r);
    var k :| 0 <= k < |r| && r[k] == c;
    assert s[i + k] == c;
  }

  /** Trimming twice is trimming once. */
  lemma TrimIdempotent(s: string)
    ensures Trim(Trim(s)) == Trim(s)
  {
    TrimOfTrimmed(Trim(s));
  }

  // ------------------------------------------------------ strtolower

  /** ASCII lower-casing of one character (strtolower is locale-insensitive since PHP 8.2). */
  function LowerChar(c: char): char {
    if 'A' <= c <= 'Z' then (c as int + 32) as char else c
  }

  function Lower(s: string): (r: string)
    ensures |r| == |s|
    ensures forall i :: 0 <= i < |s| ==> r[i] == LowerChar(s[i])
  {
    seq(|s|, i requires 0 <= i < |s| => LowerChar(s[i]))
  }

  lemma LowerIdempotent(s: string)
    ensures Lower(Lower(s)) == Lower(s)
  {
  }

  // ------------------------------------------------- explode / implode

  /** Index of the first occurrence of `c` in `s`. */
  function IndexOf(s: string, c: char): (i: nat)
    requires c in s
    ensures i < |s| && s[i] == c && c !in s[..i]
  {
    if s[0] == c then 0 else 1 + IndexOf(s[1..], c)
  }

  /** The first occurrence of `c` is at `i` when `s[i]` is `c` and no earlier character is. */
  lemma {:induction false} IndexOfAt(s: string, c: char, i: nat)
    requires i < |s| && s[i] == c
    requires forall k :: 0 <= k < i ==> s[k] != c
    ensures IndexOf(s, c) == i
  {
    if i > 0 {
      IndexOfAt(s[1..], c, i - 1);
    }
  }

  /** PHP implode($sep, $parts); the empty list gives the empty string. */
  function Implode(parts: seq<string>, sep: char): string {
    if |parts| == 0 then ""
    else if |parts| == 1 then parts[0]
    else parts[0] + [sep] + Implode(parts[1..], sep)
  }

  /** PHP explode($sep, $s): the pieces between occurrences of `sep`; never empty. */
  function Explode(s: string, sep: char): (parts: seq<string>)
    ensures |parts| >= 1
    ensures forall p :: 0 <= p < |parts| ==> sep !in parts[p]
    ensures Implode(parts, sep) == s
    decreases |s|
  {
    if sep !in s then [s]
    else
      var i := IndexOf(s, sep);
      var rest := Explode(s[i + 1..], sep);
      assert s == s[..i] + [sep] + s[i + 1..];
      assert ([s[..i]] + rest)[1..] == rest;
      [s[..i]] + rest
  }

  /** PHP explode($c, $s, 2) on a string that contains `c`: the text before and after its first occurrence. */
  function SplitAtFirst(s: string, c: char): (r: (string, string))
    requires c in s
    ensures c !in r.0
    ensures r.0 + [c] + r.1 == s
  {
    var i := IndexOf(s, c);
    assert s == s[..i] + [c] + s[i + 1..];
    (s[..i], s[i + 1..])
  }

  /** Exploding the implosion of pieces free of the separator gives the pieces back. */
  lemma {:induction false} ExplodeImplode(parts: seq<string>, sep: char)
    requires |parts| >= 1
    requires forall p :: 0 <= p < |parts| ==> sep !in parts[p]
    ensures Explode(Implode(parts, sep), sep) == parts
    decreases |parts|
  {
    if |parts| > 1 {
      var w, rest := parts[0], Implode(parts[1..], sep);
      var s := w + [sep] + rest;
      assert Implode(parts, sep) == s;
      IndexOfAt(s, sep, |w|);
      assert s[..|w|] == w && s[|w| + 1..] == rest;
      ExplodeImplode(parts[1..], sep);
      assert parts == [w] + parts[1..];
    }
  }

  // ----------------------------------------------- preg_split('/\s+/')

  /** Index of the first whitespace character of `s`, or |s|. */
  function FirstSpace(s: string): (i: nat)
    ensures i <= |s|
    ensures forall k :: 0 <= k < i ==> !IsSpace(s[k])
    ensures i < |s| ==> IsSpace(s[i])
  {
    if |s| == 0 || IsSpace(s[0]) then 0 else 1 + FirstSpace(s[1..])
  }

  /** Length of the run of whitespace at the start of `s`. */
  function SpaceRun(s: string): (n: nat)
    ensures n <= |s|
    ensures forall k :: 0 <= k < n ==> IsSpace(s[k])
    ensures n < |s| ==> !IsSpace(s[n])
  {
    if |s| > 0 && IsSpace(s[0]) then 1 + SpaceRun(s[1..]) else 0
  }

  /**
   * PHP preg_split('/\s+/', $s): the pieces between maximal runs of
   * whitespace, with an empty first (last) piece when `s` starts (ends)
   * with whitespace.
   */
  function SplitOnSpaceRuns(s: string): (pieces: seq<string>)
    ensures |pieces| >= 1
    ensures forall p :: 0 <= p < |pieces| ==> NoSpace(pieces[p])
    decreases |s|
  {
    var i := FirstSpace(s);
    if i == |s| then [s]
    else
      var j := i + SpaceRun(s[i..]);
      [s[..i]] + SplitOnSpaceRuns(s[j..])
  }

  /** The whitespace runs preg_split('/\s+/') cuts `s` at, in order. */
  function SpaceRuns(s: string): seq<string>
    decreases |s|
  {
    var i := FirstSpace(s);
    if i == |s| then []
    else
      var j := i + SpaceRun(s[i..]);
      [s[i..j]] + SpaceRuns(s[j..])
  }

  predicate AllSpace(s: string) {
    forall k :: 0 <= k < |s| ==> IsSpace(s[k])
  }

  /** `pieces[0] + seps[0] + pieces[1] + ... + pieces[n]`. */
  function Interleave(pieces: seq<string>, seps: seq<string>): string
    requires |seps| == |pieces| - 1
    decreases |pieces|
  {
    if |pieces| == 1 then pieces[0]
    else pieces[0] + seps[0] + Interleave(pieces[1..], seps[1..])
  }

  /**
   * One cut of preg_split('/\s+/'): the piece before the first whitespace,
   * the maximal run of whitespace after it, and the split of the rest.
   */
  lemma SplitStep(s: string, i: nat, j: nat)
    requires i == FirstSpace(s) < |s| && j == i + SpaceRun(s[i..])
    ensures i < j <= |s|
    ensures AllSpace(s[i..j]) && (j < |s| ==> !IsSpace(s[j]))
    ensures SplitOnSpaceRuns(s) == [s[..i]] + SplitOnSpaceRuns(s[j..])
    ensures SpaceRuns(s) == [s[i..j]] + SpaceRuns(s[j..])
  {
    RunAt(s, i, SpaceRun(s[i..]));
  }

  /** A run of whitespace of length `n` at the start of `s[i..]`, read as a slice of `s`. */
  lemma RunAt(s: string, i: nat, n: nat)
    requires i < |s| && IsSpace(s[i])
    requires n <= |s| - i
    requires forall k :: 0 <= k < n ==> IsSpace(s[i..][k])
    requires n < |s| - i ==> !IsSpace(s[i..][n])
    ensures 0 < n && AllSpace(s[i..i + n]) && (i + n < |s| ==> !IsSpace(s[i + n]))
    ensures s == s[..i] + s[i..i + n] + s[i + n..]
  {
    assert s[i..][0] == s[i];
    assert forall k :: 0 <= k < n ==> s[i..i + n][k] == s[i..][k];
    assert i + n < |s| ==> s[i + n] == s[i..][n];
  }

  /** preg_split('/\s+/') cuts at one run fewer than it has pieces, and every run is non-empty whitespace. */
  lemma {:induction false} SpaceRunsBetweenPieces(s: string)
    ensures |SpaceRuns(s)| == |SplitOnSpaceRuns(s)| - 1
    ensures forall k :: 0 <= k < |SpaceRuns(s)| ==> SpaceRuns(s)[k] != [] && AllSpace(SpaceRuns(s)[k])
    decreases |s|
  {
    var i := FirstSpace(s);
    if i < |s| {
      var j := i + SpaceRun(s[i..]);
      SplitStep(s, i, j);
      SpaceRunsBetweenPieces(s[j..]);
      RunsCons(s[i..j], SpaceRuns(s[j..]));
    }
  }

  /** Non-empty runs of whitespace stay so with one more in front. */
  lemma RunsCons(r: string, runs: seq<string>)
    requires r != [] && AllSpace(r)
    requires forall k :: 0 <= k < |runs| ==> runs[k] != [] && AllSpace(runs[k])
    ensures forall k :: 0 <= k < |[r] + runs| ==> ([r] + runs)[k] != [] && AllSpace(([r] + runs)[k])
  {
    assert forall k :: 1 <= k < |[r] + runs| ==> ([r] + runs)[k] == runs[k - 1];
  }

  /** No piece of preg_split('/\s+/') but the first and the last is empty. */
  lemma {:induction false} SplitOnSpaceRunsMiddle(s: string)
    ensures forall k :: 0 < k < |SplitOnSpaceRuns(s)| - 1 ==> SplitOnSpaceRuns(s)[k] != []
    decreases |s|
  {
    var i := FirstSpace(s);
    if i < |s| {
      var j := i + SpaceRun(s[i..]);
      SplitStep(s, i, j);
      SplitOnSpaceRunsMiddle(s[j..]);
      SplitOnSpaceRunsFirst(s[j..]);
      MiddleCons(s[..i], SplitOnSpaceRuns(s[j..]));
    }
  }

  /** Pieces whose middle ones are non-empty keep that with one more piece in front, if their first is non-empty. */
  lemma MiddleCons(p: string, pieces: seq<string>)
    requires forall k :: 0 < k < |pieces| - 1 ==> pieces[k] != []
    requires |pieces| > 1 ==> pieces[0] != []
    ensures forall k :: 0 < k < |[p] + pieces| - 1 ==> ([p] + pieces)[k] != []
  {
    assert forall k :: 1 <= k < |[p] + pieces| ==> ([p] + pieces)[k] == pieces[k - 1];
  }

  /** Interleaving a first piece and a first separator in front. */
  lemma InterleaveCons(p: string, r: string, pieces: seq<string>, seps: seq<string>)
    requires |seps| == |pieces| - 1
    ensures Interleave([p] + pieces, [r] + seps) == p + r + Interleave(pieces, seps)
  {
    assert ([p] + pieces)[1..] == pieces && ([r] + seps)[1..] == seps;
  }

  /** preg_split('/\s+/') loses nothing but the runs: the pieces with the runs between them are `s`. */
  lemma {:induction false} SplitOnSpaceRunsRebuild(s: string)
    ensures |SpaceRuns(s)| == |SplitOnSpaceRuns(s)| - 1
    ensures Interleave(SplitOnSpaceRuns(s), SpaceRuns(s)) == s
    decreases |s|
  {
    SpaceRunsBetweenPieces(s);
    var i := FirstSpace(s);
    if i < |s| {
      var j := i + SpaceRun(s[i..]);
      SplitStep(s, i, j);
      ThreeSlices(s, i, j);
      SplitOnSpaceRunsRebuild(s[j..]);
      InterleaveCons(s[..i], s[i..j], SplitOnSpaceRuns(s[j..]), SpaceRuns(s[j..]));
    }
  }

  /**
   * Where preg_split('/\s+/') cuts: `s` is its pieces with a non-empty run
   * of whitespace between each two, and no piece but the first and the last
   * is empty. With the pieces free of whitespace, this fixes the split.
   */
  lemma SplitOnSpaceRunsCuts(s: string)
    ensures var pieces, runs := SplitOnSpaceRuns(s), SpaceRuns(s);
            && |runs| == |pieces| - 1
            && (forall k :: 0 <= k < |runs| ==> runs[k] != [] && AllSpace(runs[k]))
            && (forall k :: 0 < k < |pieces| - 1 ==> pieces[k] != [])
            && Interleave(pieces, runs) == s
  {
    SpaceRunsBetweenPieces(s);
    SplitOnSpaceRunsMiddle(s);
    SplitOnSpaceRunsRebuild(s);
  }

  /**
   * The first piece of preg_split('/\s+/') is empty exactly when `s` is empty
   * or starts with whitespace, and the last exactly when it is empty or ends
   * with whitespace.
   */
  lemma SplitOnSpaceRunsEnds(s: string)
    ensures var pieces := SplitOnSpaceRuns(s);
            && (pieces[0] == [] <==> s == [] || IsSpace(s[0]))
            && (pieces[|pieces| - 1] == [] <==> s == [] || IsSpace(s[|s| - 1]))
  {
    SplitOnSpaceRunsFirst(s);
    SplitOnSpaceRunsLast(s);
  }

  /** The first piece is everything before the first whitespace character. */
  lemma SplitOnSpaceRunsFirst(s: string)
    ensures SplitOnSpaceRuns(s)[0] == s[..FirstSpace(s)]
  {
    var i := FirstSpace(s);
    if i < |s| {
      SplitStep(s, i, i + SpaceRun(s[i..]));
    } else {
      assert s[..i] == s;
    }
  }

  /** The last piece is empty exactly when `s` is empty or ends with whitespace. */
  lemma SplitOnSpaceRunsLast(s: string)
    ensures var pieces := SplitOnSpaceRuns(s);
            pieces[|pieces| - 1] == [] <==> s == [] || IsSpace(s[|s| - 1])
  {
    var pieces, runs := SplitOnSpaceRuns(s), SpaceRuns(s);
    SplitOnSpaceRunsCuts(s);
    InterleaveLast(pieces, runs);
    var last := pieces[|pieces| - 1];
    if last != [] {
      assert !IsSpace(last[|last| - 1]);
    } else if |pieces| > 1 {
      var run := runs[|runs| - 1];
      assert IsSpace(run[|run| - 1]);
    }
  }

  /**
   * Where an interleaving ends: with the last piece's last character when
   * that piece is non-empty, else with the last separator's.
   */
  lemma {:induction false} InterleaveLast(pieces: seq<string>, seps: seq<string>)
    requires |seps| == |pieces| - 1
    requires forall k :: 0 <= k < |seps| ==> seps[k] != []
    ensures var w, last := Interleave(pieces, seps), pieces[|pieces| - 1];
            && (|pieces| == 1 ==> w == last)
            && (last != [] ==> w != [] && w[|w| - 1] == last[|last| - 1])
            && (last == [] && |pieces| > 1 ==> w != [] && w[|w| - 1] == seps[|seps| - 1][|seps[|seps| - 1]| - 1])
    decreases |pieces|
  {
    if |pieces| > 1 {
      var p, r := pieces[0], seps[0];
      var rest, restSeps := pieces[1..], seps[1..];
      InterleaveLast(rest, restSeps);
      var tail := Interleave(rest, restSeps);
      var w := p + r + tail;
      assert Interleave(pieces, seps) == w;
      assert rest[|rest| - 1] == pieces[|pieces| - 1];
      if tail != [] {
        assert w[|w| - 1] == tail[|tail| - 1];
      } else {
        assert |rest| == 1;
        assert w[|w| - 1] == r[|r| - 1];
      }
      if |rest| > 1 {
        assert restSeps[|restSeps| - 1] == seps[|seps| - 1];
      }
    }
  }

  /** Cutting `s` at `i` and `j` and joining the three slices gives `s` back. */
  lemma ThreeSlices<T>(s: seq<T>, i: nat, j: nat)
    requires i <= j <= |s|
    ensures s[..i] + s[i..j] + s[j..] == s
  {
  }



  /** The characters of `s` that are not whitespace, in order. */
  function WithoutSpace(s: string): (r: string)
    ensures NoSpace(r)
  {
    if s == [] then []
    else (if IsSpace(s[0]) then [] else [s[0]]) + WithoutSpace(s[1..])
  }

  function Concat(pieces: seq<string>): string {
    if pieces == [] then [] else pieces[0] + Concat(pieces[1..])
  }

  lemma {:induction false} WithoutSpaceAppend(a: string, b: string)
    ensures WithoutSpace(a + b) == WithoutSpace(a) + WithoutSpace(b)
    decreases |a|
  {
    if a == [] {
      assert a + b == b;
    } else {
      assert (a + b)[1..] == a[1..] + b;
      WithoutSpaceAppend(a[1..], b);
    }
  }

  lemma {:induction false} WithoutSpaceOfSpaces(s: string)
    requires forall k :: 0 <= k < |s| ==> IsSpace(s[k])
    ensures WithoutSpace(s) == []
    decreases |s|
  {
    if s != [] {
      WithoutSpaceOfSpaces(s[1..]);
    }
  }

  lemma {:induction false} WithoutSpaceOfNoSpace(s: string)
    requires NoSpace(s)
    ensures WithoutSpace(s) == s
    decreases |s|
  {
    if s != [] {
      WithoutSpaceOfNoSpace(s[1..]);
    }
  }

  /** Dropping whitespace from a word, a run of whitespace and the rest leaves the word and the rest's text. */
  lemma {:induction false} WithoutSpaceOfWordThenRun(s: string, i: nat, j: nat)
    requires i <= j <= |s|
    requires NoSpace(s[..i])
    requires forall k :: i <= k < j ==> IsSpace(s[k])
    ensures WithoutSpace(s) == s[..i] + WithoutSpace(s[j..])
  {
    var a, b, c := s[..i], s[i..j], s[j..];
    assert s == a + (b + c);
    WithoutSpaceAppend(a, b + c);
    WithoutSpaceAppend(b, c);
    WithoutSpaceOfNoSpace(a);
    assert forall k :: 0 <= k < |b| ==> IsSpace(b[k]);
    WithoutSpaceOfSpaces(b);
    assert WithoutSpace(b + c) == WithoutSpace(c);
  }

  /** The pieces of preg_split('/\s+/') put back together are exactly the non-whitespace text. */
  lemma {:induction false} SplitOnSpaceRunsKeepsText(s: string)
    ensures Concat(SplitOnSpaceRuns(s)) == WithoutSpace(s)
    decreases |s|
  {
    var i := FirstSpace(s);
    if i == |s| {
      WithoutSpaceOfNoSpace(s);
      assert Concat([s]) == s + Concat([]);
    } else {
      var j := i + SpaceRun(s[i..]);
      var rest := SplitOnSpaceRuns(s[j..]);
      assert SplitOnSpaceRuns(s) == [s[..i]] + rest;
      WithoutSpaceOfWordThenRun(s, i, j);
      SplitOnSpaceRunsKeepsText(s[j..]);
      assert ([s[..i]] + rest)[1..] == rest;
    }
  }

  lemma {:induction false} InConcat(pieces: seq<string>, c: char)
    requires c in Concat(pieces)
    ensures exists p :: 0 <= p < |pieces| && c in pieces[p]
    decreases |pieces|
  {
    if c !in pieces[0] {
      InConcat(pieces[1..], c);
      var p :| 0 <= p < |pieces[1..]| && c in pieces[1..][p];
      assert c in pieces[p + 1];
    }
  }

  lemma {:induction false} InWithoutSpace(s: string, c: char)
    requires c in s && !IsSpace(c)
    ensures c in WithoutSpace(s)
    decreases |s|
  {
    if s[0] != c {
      InWithoutSpace(s[1..], c);
    }
  }

  /** A non-whitespace character of `s` lands in one of its preg_split pieces. */
  lemma SplitOnSpaceRunsKeepsChar(s: string, c: char)
    requires c in s && !IsSpace(c)
    ensures exists p :: 0 <= p < |SplitOnSpaceRuns(s)| && c in SplitOnSpaceRuns(s)[p]
  {
    SplitOnSpaceRunsKeepsText(s);
    InWithoutSpace(s, c);
    InConcat(SplitOnSpaceRuns(s), c);
  }

  /** The first whitespace of a word followed by whitespace (or by nothing) is right after the word. */
  lemma {:induction false} FirstSpaceAfterWord(w: string, rest: string)
    requires NoSpace(w)
    requires rest == [] || IsSpace(rest[0])
    ensures FirstSpace(w + rest) == |w|
    decreases |w|
  {
    if w == [] {
      assert w + rest == rest;
    } else {
      assert (w + rest)[1..] == w[1..] + rest;
      FirstSpaceAfterWord(w[1..], rest);
    }
  }

  /** A word, one space and text that starts without whitespace split into the word and the pieces of that text. */
  lemma SplitOnSpaceRunsOfWordThenSpace(w: string, rest: string)
    requires w != [] && NoSpace(w)
    requires rest != [] && !IsSpace(rest[0])
    ensures SplitOnSpaceRuns(w + " " + rest) == [w] + SplitOnSpaceRuns(rest)
  {
    var s := w + " " + rest;
    assert s == w + (" " + rest);
    FirstSpaceAfterWord(w, " " + rest);
    assert s[|w|..] == " " + rest;
    assert SpaceRun(s[|w|..]) == 1 by {
      assert (" " + rest)[1..] == rest;
    }
    assert s[..|w|] == w && s[|w| + 1..] == rest;
  }

  /**
   * preg_split('/\s+/') of non-empty words joined by single spaces gives the
   * words back.
   */
  lemma {:induction false} SplitOnSpaceRunsOfWords(words: seq<string>)
    requires |words| >= 1
    requires forall p :: 0 <= p < |words| ==> words[p] != [] && NoSpace(words[p])
    ensures SplitOnSpaceRuns(Implode(words, ' ')) == words
    decreases |words|
  {
    var w := words[0];
    if |words| == 1 {
      assert w + [] == w;
      FirstSpaceAfterWord(w, []);
    } else {
      var rest := Implode(words[1..], ' ');
      assert Implode(words, ' ') == w + " " + rest;
      ImplodeStartsWithFirst(words[1..], ' ');
      SplitOnSpaceRunsOfWordThenSpace(w, rest);
      SplitOnSpaceRunsOfWords(words[1..]);
      assert words == [w] + words[1..];
    }
  }

  /** A non-empty sequence is its prefix without the last element, then that element. */
  lemma InitThenLast<T>(s: seq<T>)
    requires s != []
    ensures s[..|s| - 1] + [s[|s| - 1]] == s
  {
  }

  /** Concatenation is associative. */
  lemma AppendAssoc<T>(x: seq<T>, y: seq<T>, z: seq<T>)
    ensures x + (y + z) == (x + y) + z
  {
  }

  /** The two sides of a character `c` placed between `a` and `b`. */
  lemma AroundChar(a: string, c: char, b: string)
    ensures (a + [c] + b)[|a|] == c
    ensures (a + [c] + b)[..|a|] == a && (a + [c] + b)[|a| + 1..] == b
  {
  }

  /** The implosion of pieces whose first is non-empty starts with that piece's first character. */
  lemma ImplodeStartsWithFirst(parts: seq<string>, sep: char)
    requires |parts| >= 1 && parts[0] != []
    ensures Implode(parts, sep) != [] && Implode(parts, sep)[0] == parts[0][0]
  {
  }

  // ------------------------------------------------------------ stripos

  predicate OccursAt(needle: string, hay: string, i: int) {
    0 <= i <= |hay| - |needle| && hay[i..i + |needle|] == needle
  }

  predicate IsSubstring(needle: string, hay: string) {
    exists i :: 0 <= i <= |hay| - |needle| && OccursAt(needle, hay, i)
  }

  /** PHP stripos($hay, $needle) !== false, with ASCII case folding; an empty needle always matches. */
  predicate ContainsIgnoreCase(hay: string, needle: string) {
    IsSubstring(Lower(needle), Lower(hay))
  }

  // ------------------------------------------------------------- digits

  /** PHP preg_replace('/[^0-9]/', '', $s): the digits of `s`, in order. */
  function DigitsOnly(s: string): (r: string)
    ensures AllDigits(r)
    ensures |r| <= |s|
  {
    if s == [] then []
    else (if IsDigit(s[0]) then [s[0]] else []) + DigitsOnly(s[1..])
  }

  lemma {:induction false} DigitsOnlyAppend(a: string, b: string)
    ensures DigitsOnly(a + b) == DigitsOnly(a) + DigitsOnly(b)
    decreases |a|
  {
    if a == [] {
      assert a + b == b;
    } else {
      assert (a + b)[1..] == a[1..] + b;
      DigitsOnlyAppend(a[1..], b);
    }
  }

  lemma {:induction false} DigitsOnlyOfDigits(s: string)
    requires AllDigits(s)
    ensures DigitsOnly(s) == s
    decreases |s|
  {
    if s != [] {
      DigitsOnlyOfDigits(s[1..]);
    }
  }

  lemma {:induction false} DigitsOnlyOfNonDigits(s: string)
    requires forall k :: 0 <= k < |s| ==> !IsDigit(s[k])
    ensures DigitsOnly(s) == []
    decreases |s|
  {
    if s != [] {
      DigitsOnlyOfNonDigits(s[1..]);
    }
  }

  function DigitValue(c: char): nat
    requires IsDigit(c)
  {
    c as int - '0' as int
  }

  function DigitChar(d: nat): (c: char)
    requires d < 10
    ensures IsDigit(c) && DigitValue(c) == d
  {
    (d + '0' as int) as char
  }

  /** PHP (int) of a digit string: its decimal value, 0 for the empty string. */
  function DecimalValue(ds: string): nat
    requires AllDigits(ds)
  {
    if ds == [] then 0
    else 10 * DecimalValue(ds[..|ds| - 1]) + DigitValue(ds[|ds| - 1])
  }

  /** Appending a digit shifts the value one decimal place and adds the digit. */
  lemma DecimalValueSnoc(ds: string, d: char)
    requires AllDigits(ds) && IsDigit(d)
    ensures DecimalValue(ds + [d]) == 10 * DecimalValue(ds) + DigitValue(d)
  {
    assert (ds + [d])[..|ds|] == ds;
  }

  /** The canonical decimal rendering of `n`, without leading zeros. */
  function ShowNat(n: nat): (r: string)
    ensures AllDigits(r) && r != []
  {
    if n < 10 then [DigitChar(n)] else ShowNat(n / 10) + [DigitChar(n % 10)]
  }

  /** Reading back the decimal rendering of a number gives the number. */
  lemma {:induction false} DecimalValueOfShowNat(n: nat)
    ensures DecimalValue(ShowNat(n)) == n
  {
    var r := ShowNat(n);
    if n >= 10 {
      assert r[..|r| - 1] == ShowNat(n / 10);
      DecimalValueOfShowNat(n / 10);
    } else {
      assert r[..|r| - 1] == [];
    }
  }

  /** Number of digits at the start of `s`. */
  function LeadingDigits(s: string): (n: nat)
    ensures n <= |s|
    ensures AllDigits(s[..n])
    ensures n < |s| ==> !IsDigit(s[n])
  {
    if |s| > 0 && IsDigit(s[0]) then 1 + LeadingDigits(s[1..]) else 0
  }

  lemma {:induction false} LeadingDigitsOfDigits(s: string, rest: string)
    requires AllDigits(s)
    requires rest == [] || !IsDigit(rest[0])
    ensures LeadingDigits(s + rest) == |s|
    decreases |s|
  {
    if s != [] {
      assert (s + rest)[1..] == s[1..] + rest;
      LeadingDigitsOfDigits(s[1..], rest);
    } else {
      assert s + rest == rest;
    }
  }
}

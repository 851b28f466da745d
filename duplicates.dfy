/**
 The DuplicatedCode detector on the raw source lines: normalisation (strip, drop
 blank lines and comment lines) followed by the quadratic comparison of windows of
 `minLines` normalised lines, at most one reported partner per start.
 */
module Duplicates {
  import opened Wrappers
  import opened Seqs
  import opened Text
  import opened SmellRules

  // ------------------------------------------------------------ normalisation

  /** A stripped line survives normalisation when it is non-empty and is not a comment. */
  predicate Kept(stripped: string) {
    stripped != [] && !StartsWith(stripped, "#")
  }

  function StripAll(lines: seq<string>): (r: seq<string>)
    ensures |r| == |lines|
    ensures forall k :: 0 <= k < |lines| ==> r[k] == Strip(lines[k])
  {
    seq(|lines|, k requires 0 <= k < |lines| => Strip(lines[k]))
  }

  /** The `normalized_lines` list built from `source_lines`. */
  function Normalized(lines: seq<string>): seq<string> {
    Filter(StripAll(lines), Kept)
  }

  /** The normalisation loop: one line at a time, strip it and keep it if it counts. */
  method NormalizeLines(lines: seq<string>) returns (norm: seq<string>)
    ensures norm == Normalized(lines)
  {
    norm := [];
    for k := 0 to |lines|
      invariant norm == Normalized(lines[..k])
    {
      var stripped := Strip(lines[k]);
      NormalizedStep(lines, k);
      if stripped != [] && !StartsWith(stripped, "#") {
        norm := norm + [stripped];
      }
    }
    assert lines[..|lines|] == lines;
  }

  /** Normalising one more line appends it, stripped, when it counts. */
  lemma NormalizedStep(lines: seq<string>, k: nat)
    requires k < |lines|
    ensures Normalized(lines[..k + 1]) ==
      Normalized(lines[..k]) + (if Kept(Strip(lines[k])) then [Strip(lines[k])] else [])
  {
    var all := StripAll(lines[..k + 1]);
    assert all == StripAll(lines[..k]) + [Strip(lines[k])];
    assert all[..|all| - 1] == StripAll(lines[..k]);
  }

  /** The normalised lines are the stripped input lines that are neither blank nor
      comments, in input order and each as often as it occurs among them (repeated
      lines are kept), and there are at most as many as input lines. */
  lemma NormalizedLines(lines: seq<string>)
    ensures |Normalized(lines)| <= |lines|
    ensures IsSubsequence(Normalized(lines), StripAll(lines))
    ensures forall l :: l in Normalized(lines) <==> l in StripAll(lines) && Kept(l)
    ensures forall l :: multiset(Normalized(lines))[l] == if Kept(l) then multiset(StripAll(lines))[l] else 0
  {
    FilterKeepsOrder(StripAll(lines), Kept);
    FilterMembers(StripAll(lines), Kept);
    forall l ensures multiset(Normalized(lines))[l] == if Kept(l) then multiset(StripAll(lines))[l] else 0 {
      FilterCounts(StripAll(lines), Kept, l);
    }
  }

  /** A kept stripped line is non-empty, does not start with `#`, and is its own strip. */
  lemma KeptLineIsClean(line: string)
    requires Kept(Strip(line))
    ensures Strip(line) != [] && Strip(line)[0] != '#' && Strip(Strip(line)) == Strip(line)
  {
    var l := Strip(line);
    assert l[..1] == [l[0]];
    StripIdempotent(line);
  }

  /** Every normalised line is non-empty, does not start with `#`, and is already
      stripped. */
  lemma NormalizedLinesAreClean(lines: seq<string>)
    ensures forall l :: l in Normalized(lines) ==> l != [] && l[0] != '#' && Strip(l) == l
  {
    var all := StripAll(lines);
    FilterMembers(all, Kept);
    forall k | 0 <= k < |lines| && Kept(all[k]) ensures all[k] != [] && all[k][0] != '#' && Strip(all[k]) == all[k] {
      KeptLineIsClean(lines[k]);
    }
  }

  // ----------------------------------------------------------- window search

  /** `sum(1 for a, b in zip(a, b) if a == b)` for two blocks of equal length. */
  function EqualPositions(a: seq<string>, b: seq<string>): (r: nat)
    requires |a| == |b|
    ensures r <= |a|
  {
    if a == [] then 0
    else EqualPositions(a[..|a| - 1], b[..|b| - 1]) + (if a[|a| - 1] == b[|b| - 1] then 1 else 0)
  }

  lemma {:induction false} EqualBlocks(a: seq<string>)
    ensures EqualPositions(a, a) == |a|
  {
    if a != [] {
      EqualBlocks(a[..|a| - 1]);
    }
  }

  lemma FractionAtMostOne(a: real, b: real)
    requires 0.0 <= a <= b && b > 0.0
    ensures 0.0 <= a / b <= 1.0
  {
    assert a / b * b == a;
  }

  /** The similarity of the windows starting at `i` and `j`: the fraction of equal
      positions, exactly. */
  function Similarity(norm: seq<string>, m: nat, i: nat, j: nat): (r: real)
    requires m > 0 && i + m <= |norm| && j + m <= |norm|
    ensures 0.0 <= r <= 1.0
  {
    var equal := EqualPositions(norm[i..i + m], norm[j..j + m]);
    FractionAtMostOne(equal as real, m as real);
    (equal as real) / (m as real)
  }

  /** `j` is compared with `i` by the two loops, and the windows are similar enough:
      `j` starts at `i + m`, and both loops stop before `len - m`. */
  predicate Similar(norm: seq<string>, m: nat, minSim: real, i: nat, j: nat)
    requires m > 0
  {
    i + m <= j && j + m < |norm| && Similarity(norm, m, i, j) >= minSim
  }

  /** The smallest partner `j < hi` of start `i`, as the inner loop meets them. */
  function FirstPartner(norm: seq<string>, m: nat, minSim: real, i: nat, hi: int): (r: Option<nat>)
    requires m > 0
    ensures r.Some? ==> r.value < hi && Similar(norm, m, minSim, i, r.value)
    ensures r.Some? ==> forall j :: i + m <= j < r.value ==> !Similar(norm, m, minSim, i, j)
    ensures r.None? ==> forall j :: i + m <= j < hi ==> !Similar(norm, m, minSim, i, j)
    decreases hi
  {
    if hi <= i + m then None
    else match FirstPartner(norm, m, minSim, i, hi - 1)
      case Some(j) => Some(j)
      case None => if Similar(norm, m, minSim, i, hi - 1) then Some(hi - 1) else None
  }

  function Pair(norm: seq<string>, m: nat, i: nat, j: nat): DuplicatePair
    requires m > 0 && i + m <= |norm| && j + m <= |norm|
  {
    DuplicatePair(i, j, m, Similarity(norm, m, i, j))
  }

  /** The pair recorded for start `i` once the inner loop has reached `hi`. */
  function PairFor(norm: seq<string>, m: nat, minSim: real, i: nat, hi: int): (r: seq<DuplicatePair>)
    requires m > 0
    ensures |r| <= 1
  {
    match FirstPartner(norm, m, minSim, i, hi)
    case Some(j) => [Pair(norm, m, i, j)]
    case None => []
  }

  /** The pairs recorded by the outer loop for the starts below `n`. */
  function PairsBefore(norm: seq<string>, m: nat, minSim: real, n: nat): seq<DuplicatePair>
    requires m > 0
  {
    if n == 0 then []
    else PairsBefore(norm, m, minSim, n - 1) + PairFor(norm, m, minSim, n - 1, |norm| - m)
  }

  /** `duplicates_found` at the end of the search. */
  function DuplicatePairs(norm: seq<string>, m: nat, minSim: real): seq<DuplicatePair>
    requires m > 0
  {
    PairsBefore(norm, m, minSim, if |norm| > m then |norm| - m else 0)
  }

  /** The `lines1` rendered of a pair: `"<first+1>-<first+length>"`. */
  function Lines1(d: DuplicatePair): string {
    DecimalString(d.first + 1) + "-" + DecimalString(d.first + d.length)
  }

  /** The suppression test `d['lines1'].startswith(str(i+1))` is the same as
      `d` starting at `i`, for every pair recorded no later than `i`: a rendered that
      starts with `i+1` must start with exactly those digits followed by `-`. */
  lemma LabelStartsWith(d: DuplicatePair, i: nat)
    requires d.first <= i
    ensures StartsWith(Lines1(d), DecimalString(i + 1)) <==> d.first == i
  {
    var a, b := DecimalString(d.first + 1), DecimalString(i + 1);
    var rendered := Lines1(d);
    if StartsWith(rendered, b) && d.first != i {
      if |b| <= |a| {
        assert a[..|b|] == rendered[..|b|];
        if |b| == |a| {
          assert a == b;
          DecimalInjective(d.first + 1, i + 1);
        } else {
          ProperDecimalPrefix(i + 1, d.first + 1);
        }
      } else {
        DigitsThenDash(a, b, DecimalString(d.first + d.length));
      }
    }
  }

  /** A string of digits longer than `a` is not a prefix of `a + "-" + rest`. */
  lemma DigitsThenDash(a: string, b: string, rest: string)
    requires |b| > |a| && forall k :: 0 <= k < |b| ==> IsDigit(b[k])
    ensures !StartsWith(a + "-" + rest, b)
  {
    assert (a + "-" + rest)[|a|] == '-';
  }

  lemma {:induction false} PairsBeforeStarts(norm: seq<string>, m: nat, minSim: real, n: nat)
    requires m > 0
    ensures forall d :: d in PairsBefore(norm, m, minSim, n) ==> d.first < n
  {
    if n > 0 {
      PairsBeforeStarts(norm, m, minSim, n - 1);
    }
  }

  /** How the inner loop's step at `j` changes the pair recorded for start `i`. */
  lemma PartnerStep(norm: seq<string>, m: nat, minSim: real, i: nat, j: nat)
    requires m > 0 && i + m <= j && j + m < |norm|
    ensures PairFor(norm, m, minSim, i, j + 1) ==
      if PairFor(norm, m, minSim, i, j) == [] && Similarity(norm, m, i, j) >= minSim
      then [Pair(norm, m, i, j)] else PairFor(norm, m, minSim, i, j)
  {
  }

  /** While the inner loop runs for start `i`, the suppression test on the rendered
      labels holds exactly when a pair for `i` has been recorded. */
  lemma SuppressionMeansRecorded(norm: seq<string>, m: nat, minSim: real, before: seq<DuplicatePair>, i: nat, j: int)
    requires m > 0
    requires forall d :: d in before ==> d.first < i
    ensures var found := before + PairFor(norm, m, minSim, i, j);
      (exists d :: d in found && StartsWith(Lines1(d), DecimalString(i + 1))) <==> PairFor(norm, m, minSim, i, j) != []
  {
    var found := before + PairFor(norm, m, minSim, i, j);
    forall d | d in found ensures StartsWith(Lines1(d), DecimalString(i + 1)) <==> d.first == i {
      LabelStartsWith(d, i);
    }
    if PairFor(norm, m, minSim, i, j) != [] {
      assert found[|before|] in found;
    }
  }

  /** The two loops of `detect_duplicated_code`: the outer loop over the starts `i`. */
  method FindDuplicates(norm: seq<string>, m: nat, minSim: real) returns (found: seq<DuplicatePair>)
    requires m > 0
    ensures found == DuplicatePairs(norm, m, minSim)
  {
    found := [];
    var i := 0;
    while i < |norm| - m
      invariant 0 <= i && (i <= |norm| - m || i == 0)
      invariant found == PairsBefore(norm, m, minSim, i)
    {
      PairsBeforeStarts(norm, m, minSim, i);
      found := FindPartner(norm, m, minSim, i, found);
      i := i + 1;
    }
  }

  /** The inner loop for start `i`: the partners `j` from `i + m` on, with the
      suppression test on earlier pairs evaluated literally on the rendered labels. */
  method FindPartner(norm: seq<string>, m: nat, minSim: real, i: nat, before: seq<DuplicatePair>)
    returns (found: seq<DuplicatePair>)
    requires m > 0 && i < |norm| - m
    requires forall d :: d in before ==> d.first < i
    ensures found == before + PairFor(norm, m, minSim, i, |norm| - m)
  {
    found := before;
    var j := i + m;
    while j < |norm| - m
      invariant i + m <= j <= |norm| - m || j == i + m
      invariant found == before + PairFor(norm, m, minSim, i, j)
    {
      PartnerStep(norm, m, minSim, i, j);
      if Similarity(norm, m, i, j) >= minSim {
        SuppressionMeansRecorded(norm, m, minSim, before, i, j);
        if !exists d :: d in found && StartsWith(Lines1(d), DecimalString(i + 1)) {
          found := found + [Pair(norm, m, i, j)];
        }
      }
      j := j + 1;
    }
    if j == i + m && j > |norm| - m {
      assert PairFor(norm, m, minSim, i, |norm| - m) == PairFor(norm, m, minSim, i, j);
    }
  }

  // ---------------------------------------------------- what the search reports

  /** A recorded pair: a similar partner `second` of `first`, the nearest one,
      with the window length and the exact similarity. */
  ghost predicate PairOk(norm: seq<string>, m: nat, minSim: real, d: DuplicatePair)
    requires m > 0
  {
    && d.length == m
    && Similar(norm, m, minSim, d.first, d.second)
    && d.similarity == Similarity(norm, m, d.first, d.second)
    && forall j :: d.first + m <= j < d.second ==> !Similar(norm, m, minSim, d.first, j)
  }

  ghost predicate StartsIncrease(r: seq<DuplicatePair>) {
    forall a, b :: 0 <= a < b < |r| ==> r[a].first < r[b].first
  }

  /** Every start below `n` that has a similar partner has a pair in `r`. */
  ghost predicate CoversStarts(norm: seq<string>, m: nat, minSim: real, r: seq<DuplicatePair>, n: nat)
    requires m > 0
  {
    forall i: nat, j: nat :: i < n && Similar(norm, m, minSim, i, j) ==> exists k :: 0 <= k < |r| && r[k].first == i
  }

  /** `r` reports, for the starts below `n`, exactly one pair per start that has a
      similar partner, with the nearest such partner, in increasing order of start. */
  ghost predicate IsDuplicateReport(norm: seq<string>, m: nat, minSim: real, r: seq<DuplicatePair>, n: nat)
    requires m > 0
  {
    && (forall k :: 0 <= k < |r| ==> r[k].first < n && PairOk(norm, m, minSim, r[k]))
    && StartsIncrease(r)
    && CoversStarts(norm, m, minSim, r, n)
  }

  lemma {:induction false} PairsBeforeValid(norm: seq<string>, m: nat, minSim: real, n: nat)
    requires m > 0
    ensures forall d :: d in PairsBefore(norm, m, minSim, n) ==> d.first < n && PairOk(norm, m, minSim, d)
  {
    if n > 0 {
      PairsBeforeValid(norm, m, minSim, n - 1);
      PairForOk(norm, m, minSim, n - 1, |norm| - m);
    }
  }

  lemma {:induction false} PairsBeforeIncrease(norm: seq<string>, m: nat, minSim: real, n: nat)
    requires m > 0
    ensures StartsIncrease(PairsBefore(norm, m, minSim, n))
  {
    if n > 0 {
      PairsBeforeIncrease(norm, m, minSim, n - 1);
      PairsBeforeStarts(norm, m, minSim, n - 1);
      PairForStart(norm, m, minSim, n - 1, |norm| - m);
      IncreaseAppend(PairsBefore(norm, m, minSim, n - 1), PairFor(norm, m, minSim, n - 1, |norm| - m), n - 1);
    }
  }

  /** The pair recorded for start `i` starts at `i`. */
  lemma PairForStart(norm: seq<string>, m: nat, minSim: real, i: nat, hi: int)
    requires m > 0
    ensures forall d :: d in PairFor(norm, m, minSim, i, hi) ==> d.first == i
  {
  }

  /** The pair recorded for start `i` is a valid pair starting at `i`. */
  lemma PairForOk(norm: seq<string>, m: nat, minSim: real, i: nat, hi: int)
    requires m > 0
    ensures forall d :: d in PairFor(norm, m, minSim, i, hi) ==> d.first == i && PairOk(norm, m, minSim, d)
  {
    match FirstPartner(norm, m, minSim, i, hi)
    case Some(j) =>
      assert PairFor(norm, m, minSim, i, hi) == [Pair(norm, m, i, j)];
    case None =>
  }

  /** Appending pairs at a start beyond all earlier ones keeps the starts increasing. */
  lemma IncreaseAppend(r0: seq<DuplicatePair>, last: seq<DuplicatePair>, n: nat)
    requires StartsIncrease(r0) && forall d :: d in r0 ==> d.first < n
    requires |last| <= 1 && forall d :: d in last ==> d.first == n
    ensures StartsIncrease(r0 + last)
  {
    var r := r0 + last;
    forall a, b | 0 <= a < b < |r| ensures r[a].first < r[b].first {
      if b >= |r0| {
        assert r[a] in r0 && r[b] in last;
      }
    }
  }

  lemma {:induction false} PairsBeforeCover(norm: seq<string>, m: nat, minSim: real, n: nat)
    requires m > 0
    ensures CoversStarts(norm, m, minSim, PairsBefore(norm, m, minSim, n), n)
  {
    if n > 0 {
      var r0 := PairsBefore(norm, m, minSim, n - 1);
      PairsBeforeCover(norm, m, minSim, n - 1);
      var last := PairFor(norm, m, minSim, n - 1, |norm| - m);
      var r := r0 + last;
      assert PairsBefore(norm, m, minSim, n) == r;
      forall i: nat, j: nat | i < n && Similar(norm, m, minSim, i, j) ensures exists k :: 0 <= k < |r| && r[k].first == i {
        if i < n - 1 {
          var k :| 0 <= k < |r0| && r0[k].first == i;
          assert r[k] == r0[k];
        } else {
          assert last != [];
          assert r[|r0|].first == i;
        }
      }
    }
  }

  /** The pairs of the whole search: nearest partners, one per start, in start order,
      and every start with a similar partner gets one. */
  lemma DuplicateReport(norm: seq<string>, m: nat, minSim: real)
    requires m > 0
    ensures IsDuplicateReport(norm, m, minSim, DuplicatePairs(norm, m, minSim), |norm|)
  {
    var n := if |norm| > m then |norm| - m else 0;
    var r := DuplicatePairs(norm, m, minSim);
    PairsBeforeValid(norm, m, minSim, n);
    PairsBeforeIncrease(norm, m, minSim, n);
    PairsBeforeCover(norm, m, minSim, n);
    assert forall k :: 0 <= k < |r| ==> r[k] in r;
    forall i: nat, j: nat | i < |norm| && Similar(norm, m, minSim, i, j)
      ensures exists k :: 0 <= k < |r| && r[k].first == i
    {
      assert i < n;
    }
  }

  lemma CoversWithoutLast(norm: seq<string>, m: nat, minSim: real, r: seq<DuplicatePair>, n: nat)
    requires m > 0 && n > 0 && r != [] && r[|r| - 1].first == n - 1
    requires CoversStarts(norm, m, minSim, r, n)
    ensures CoversStarts(norm, m, minSim, r[..|r| - 1], n - 1)
  {
    var r0 := r[..|r| - 1];
    forall i: nat, j: nat | i < n - 1 && Similar(norm, m, minSim, i, j)
      ensures exists k :: 0 <= k < |r0| && r0[k].first == i
    {
      var k :| 0 <= k < |r| && r[k].first == i;
      assert r0[k].first == i;
    }
  }

  /** Dropping the pair at start `n - 1` from a report over the starts below `n`
      leaves a report over the starts below `n - 1`. */
  lemma DropLastReport(norm: seq<string>, m: nat, minSim: real, r: seq<DuplicatePair>, n: nat)
    requires m > 0 && n > 0 && r != [] && r[|r| - 1].first == n - 1
    requires IsDuplicateReport(norm, m, minSim, r, n)
    ensures IsDuplicateReport(norm, m, minSim, r[..|r| - 1], n - 1)
  {
    var r0 := r[..|r| - 1];
    forall k | 0 <= k < |r0| ensures r0[k].first < n - 1 && PairOk(norm, m, minSim, r0[k]) {
      assert r[k].first < r[|r| - 1].first;
    }
    CoversWithoutLast(norm, m, minSim, r, n);
  }

  /** A recorded pair at start `i` is the one the search records for `i`. */
  lemma NearestPairIsRecorded(norm: seq<string>, m: nat, minSim: real, d: DuplicatePair)
    requires m > 0 && PairOk(norm, m, minSim, d)
    ensures PairFor(norm, m, minSim, d.first, |norm| - m) == [d]
  {
    var p := FirstPartner(norm, m, minSim, d.first, |norm| - m);
    assert p.Some? && p.value == d.second;
  }

  /** A report over the starts below `n` without a pair at `n - 1` is a report
      over the starts below `n - 1`, and the search records nothing for `n - 1`. */
  lemma NoLastPairReport(norm: seq<string>, m: nat, minSim: real, r: seq<DuplicatePair>, n: nat)
    requires m > 0 && n > 0 && !(r != [] && r[|r| - 1].first == n - 1)
    requires IsDuplicateReport(norm, m, minSim, r, n)
    ensures IsDuplicateReport(norm, m, minSim, r, n - 1)
    ensures PairFor(norm, m, minSim, n - 1, |norm| - m) == []
  {
    forall k | 0 <= k < |r| ensures r[k].first < n - 1 {
      if k < |r| - 1 {
        assert r[k].first < r[|r| - 1].first;
      }
    }
  }

  lemma NoStartsNoReport(r: seq<DuplicatePair>)
    requires forall k :: 0 <= k < |r| ==> r[k].first < 0
    ensures r == []
  {
    assert |r| > 0 ==> r[0].first < 0;
  }

  lemma AppendRecordedPair(norm: seq<string>, m: nat, minSim: real, r: seq<DuplicatePair>, n: nat)
    requires m > 0 && n > 0 && r != [] && r[|r| - 1].first == n - 1
    requires PairOk(norm, m, minSim, r[|r| - 1])
    requires r[..|r| - 1] == PairsBefore(norm, m, minSim, n - 1)
    ensures r == PairsBefore(norm, m, minSim, n)
  {
    var d := r[|r| - 1];
    NearestPairIsRecorded(norm, m, minSim, d);
    assert PairsBefore(norm, m, minSim, n) == r[..|r| - 1] + PairFor(norm, m, minSim, n - 1, |norm| - m);
    SplitLast(r);
  }

  lemma SplitLast<T>(r: seq<T>)
    requires r != []
    ensures r == r[..|r| - 1] + [r[|r| - 1]]
  {
  }

  /** The report property pins the result down: the search's pairs are the only
      sequence with it. */
  lemma {:induction false} DuplicateReportUnique(norm: seq<string>, m: nat, minSim: real, r: seq<DuplicatePair>, n: nat)
    requires m > 0
    requires IsDuplicateReport(norm, m, minSim, r, n)
    ensures r == PairsBefore(norm, m, minSim, n)
  {
    if n == 0 {
      NoStartsNoReport(r);
    } else {
      ReportShrinks(norm, m, minSim, r, n);
      DuplicateReportUnique(norm, m, minSim, Shrunk(r, n), n - 1);
      ReportGrows(norm, m, minSim, r, n);
    }
  }

  /** A report over the starts below `n` without its pair at start `n - 1`, if any. */
  function Shrunk(r: seq<DuplicatePair>, n: nat): seq<DuplicatePair> {
    if r != [] && r[|r| - 1].first == n - 1 then r[..|r| - 1] else r
  }

  lemma ReportShrinks(norm: seq<string>, m: nat, minSim: real, r: seq<DuplicatePair>, n: nat)
    requires m > 0 && n > 0 && IsDuplicateReport(norm, m, minSim, r, n)
    ensures IsDuplicateReport(norm, m, minSim, Shrunk(r, n), n - 1)
  {
    if r != [] && r[|r| - 1].first == n - 1 {
      DropLastReport(norm, m, minSim, r, n);
    } else {
      NoLastPairReport(norm, m, minSim, r, n);
    }
  }

  lemma ReportGrows(norm: seq<string>, m: nat, minSim: real, r: seq<DuplicatePair>, n: nat)
    requires m > 0 && n > 0 && IsDuplicateReport(norm, m, minSim, r, n)
    requires Shrunk(r, n) == PairsBefore(norm, m, minSim, n - 1)
    ensures r == PairsBefore(norm, m, minSim, n)
  {
    if r != [] && r[|r| - 1].first == n - 1 {
      AppendRecordedPair(norm, m, minSim, r, n);
    } else {
      NoLastPairReport(norm, m, minSim, r, n);
      assert r == PairsBefore(norm, m, minSim, n - 1) + [];
    }
  }

  /** The window that ends on the last normalised line is never compared: with
      `minLines = 3`, the lines `a, b, c, a, b, c` hold two identical windows and
      yet no pair is reported. */
  lemma LastWindowNeverCompared(minSim: real)
    ensures var norm := ["a", "b", "c", "a", "b", "c"];
      norm[0..3] == norm[3..6] && Similarity(norm, 3, 0, 3) == 1.0 && DuplicatePairs(norm, 3, minSim) == []
  {
    var norm := ["a", "b", "c", "a", "b", "c"];
    assert norm[0..3] == norm[3..6];
    EqualBlocks(norm[0..3]);
    assert PairsBefore(norm, 3, minSim, 1) == [];
    assert PairsBefore(norm, 3, minSim, 2) == [];
    assert PairsBefore(norm, 3, minSim, 3) == [];
  }
}

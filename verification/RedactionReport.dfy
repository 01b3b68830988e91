/**
 The report of a redaction run: per-row counts added up over the rows, kind by kind.

 Private keys are masked first, over the whole row; what the other detectors then do to the row, and
 the matches they count in it, are given.
 */
module RedactionReport {
  import opened Wrappers
  import opened Strings
  import opened Redaction

  const PRIVATE_KEY := "private_key"
  const MANIFEST_ROW_LIMIT := 50

  type Counts = map<string, nat>

  datatype Report = Report(spans: nat, rows: nat, byKind: seq<(string, nat)>, affected: seq<nat>)

  /** The other detectors: the row they leave, and how often each kind matched in it. */
  datatype Others = Others(redacted: Value -> Value, hits: Value -> Counts)

  function CountOf(counts: Counts, kind: string): nat {
    if kind in counts then counts[kind] else 0
  }

  // ----- sums over kinds -----

  function SumOver(counts: Counts, kinds: set<string>): nat
    requires kinds <= counts.Keys
  {
    if kinds == {} then 0
    else
      MinExists(kinds);
      var k :| IsMin(k, kinds);
      counts[k] + SumOver(counts, kinds - {k})
  }

  function Total(counts: Counts): nat {
    SumOver(counts, counts.Keys)
  }

  /** The sum does not depend on the order the kinds are taken in. */
  lemma {:induction false} SumRemove(counts: Counts, kinds: set<string>, x: string)
    requires kinds <= counts.Keys && x in kinds
    ensures SumOver(counts, kinds) == counts[x] + SumOver(counts, kinds - {x})
  {
    hide Less;
    MinExists(kinds);
    var k :| IsMin(k, kinds);
    if k != x {
      SumRemove(counts, kinds - {k}, x);
      SumRemove(counts, kinds - {x}, k);
      assert kinds - {k} - {x} == kinds - {x} - {k};
    }
  }

  lemma {:induction false} SumSame(a: Counts, b: Counts, kinds: set<string>)
    requires kinds <= a.Keys && kinds <= b.Keys && forall k :: k in kinds ==> a[k] == b[k]
    ensures SumOver(a, kinds) == SumOver(b, kinds)
  {
    hide Less;
    if kinds != {} {
      MinExists(kinds);
      var k :| IsMin(k, kinds);
      SumSame(a, b, kinds - {k});
    }
  }

  /** `tally[kind] = tally.get(kind, 0) + count`. */
  function Bump(counts: Counts, kind: string, count: nat): Counts {
    counts[kind := CountOf(counts, kind) + count]
  }

  lemma BumpTotal(counts: Counts, kind: string, count: nat)
    ensures Total(Bump(counts, kind, count)) == Total(counts) + count
  {
    hide SumOver;
    var after := Bump(counts, kind, count);
    var rest := after.Keys - {kind};
    SumRemove(after, after.Keys, kind);
    SumSame(after, counts, rest);
    if kind in counts {
      SumRemove(counts, counts.Keys, kind);
      assert counts.Keys - {kind} == rest;
    } else {
      assert counts.Keys == rest;
    }
  }

  // ----- sums over rows -----

  /** How many matches of one kind the rows hold together. */
  function KindSum(tallies: seq<Counts>, kind: string): nat {
    if tallies == [] then 0
    else KindSum(tallies[..|tallies| - 1], kind) + CountOf(tallies[|tallies| - 1], kind)
  }

  function RowSum(tallies: seq<Counts>): nat {
    if tallies == [] then 0 else RowSum(tallies[..|tallies| - 1]) + Total(tallies[|tallies| - 1])
  }

  /** The numbers, from 1, of the rows in which something matched. */
  function Affected(tallies: seq<Counts>): seq<nat> {
    if tallies == [] then []
    else
      var last := |tallies| - 1;
      Affected(tallies[..last]) + if tallies[last] != map[] then [|tallies|] else []
  }

  lemma {:induction false} AffectedAre(tallies: seq<Counts>)
    ensures forall n: nat :: n in Affected(tallies) <==> 1 <= n <= |tallies| && tallies[n - 1] != map[]
    ensures forall i, j :: 0 <= i < j < |Affected(tallies)| ==> Affected(tallies)[i] < Affected(tallies)[j]
  {
    if tallies != [] {
      AffectedAre(tallies[..|tallies| - 1]);
      var earlier := Affected(tallies[..|tallies| - 1]);
      assert forall i :: 0 <= i < |earlier| ==> earlier[i] in earlier;
    }
  }

  /** The kinds that matched anywhere, each with its count over all rows. */
  ghost predicate Sums(totals: Counts, tallies: seq<Counts>) {
    && (forall k :: k in totals <==> exists i :: 0 <= i < |tallies| && k in tallies[i])
    && forall k :: k in totals ==> totals[k] == KindSum(tallies, k)
  }

  /** What a report says of the rows' counts: each kind over all rows, the total both ways, the rows affected. */
  ghost predicate Summarizes(report: Report, tallies: seq<Counts>) {
    && (exists totals :: Sums(totals, tallies) && report.byKind == Listed(totals) && report.spans == Total(totals))
    && report.spans == RowSum(tallies)
    && report.rows == |Affected(tallies)|
    && report.affected == (if |Affected(tallies)| <= 50 then Affected(tallies) else Affected(tallies)[..50])
  }

  function FirstRows(numbers: seq<nat>): seq<nat> {
    if |numbers| <= MANIFEST_ROW_LIMIT then numbers else numbers[..MANIFEST_ROW_LIMIT]
  }

  /** Adding a row's counts one kind at a time keeps every sum. */
  method AddTally(totals: Counts, spans: nat, tally: Counts) returns (totals': Counts, spans': nat)
    requires spans == Total(totals)
    ensures totals'.Keys == totals.Keys + tally.Keys
    ensures forall k :: k in totals' ==> totals'[k] == CountOf(totals, k) + CountOf(tally, k)
    ensures spans' == spans + Total(tally) == Total(totals')
  {
    hide SumOver, Total;
    totals', spans' := totals, spans;
    var todo := tally.Keys;
    ghost var left := Total(tally);
    TotalIs(tally);
    while todo != {}
      invariant todo <= tally.Keys && left == SumOver(tally, todo)
      invariant totals'.Keys == totals.Keys + (tally.Keys - todo)
      invariant forall k :: k in totals' ==>
                  totals'[k] == CountOf(totals, k) + if k in todo then 0 else CountOf(tally, k)
      invariant spans' == Total(totals') && spans' + left == spans + Total(tally)
    {
      var kind :| kind in todo;
      SumRemove(tally, todo, kind);
      BumpTotal(totals', kind, tally[kind]);
      totals' := Bump(totals', kind, tally[kind]);
      spans' := spans' + tally[kind];
      left := left - tally[kind];
      todo := todo - {kind};
    }
    SumNone(tally);
  }

  lemma TotalIs(counts: Counts)
    ensures Total(counts) == SumOver(counts, counts.Keys)
  {
  }

  lemma SumNone(counts: Counts)
    ensures SumOver(counts, {}) == 0
  {
  }

  lemma SumsNext(totals: Counts, tallies: seq<Counts>, totals': Counts, tally: Counts)
    requires Sums(totals, tallies) && totals'.Keys == totals.Keys + tally.Keys
    requires forall k :: k in totals' ==> totals'[k] == CountOf(totals, k) + CountOf(tally, k)
    ensures Sums(totals', tallies + [tally])
  {
    var longer := tallies + [tally];
    assert longer[..|tallies|] == tallies && longer[|tallies|] == tally;
    forall k
      ensures k in totals' <==> exists i :: 0 <= i < |longer| && k in longer[i]
    {
      if k in totals {
        var i :| 0 <= i < |tallies| && k in tallies[i];
        assert k in longer[i];
      }
    }
    forall k | k in totals'
      ensures totals'[k] == KindSum(longer, k)
    {
      if k !in totals {
        AbsentKind(tallies, k);
      }
    }
  }

  lemma {:induction false} AbsentKind(tallies: seq<Counts>, k: string)
    requires forall i :: 0 <= i < |tallies| ==> k !in tallies[i]
    ensures KindSum(tallies, k) == 0
  {
    if tallies != [] {
      AbsentKind(tallies[..|tallies| - 1], k);
    }
  }

  function Listed(totals: Counts): seq<(string, nat)> {
    SortedFacts(totals.Keys);
    var kinds := Sorted(totals.Keys);
    assert forall i :: 0 <= i < |kinds| ==> kinds[i] in Elements(kinds);
    seq(|kinds|, i requires 0 <= i < |kinds| => (kinds[i], totals[kinds[i]]))
  }

  /** The kinds in ascending order, each with its count. */
  lemma ListedIs(totals: Counts)
    ensures var listed := Listed(totals);
            && |listed| == |totals.Keys|
            && (forall i, j :: 0 <= i < j < |listed| ==> Less(listed[i].0, listed[j].0))
            && (forall kind, count :: (kind, count) in listed <==> kind in totals && totals[kind] == count)
  {
    hide Less;
    SortedFacts(totals.Keys);
    var kinds := Sorted(totals.Keys);
    assert forall k :: k in kinds <==> k in Elements(kinds);
    AscendingSize(kinds);
    forall kind | kind in totals
      ensures (kind, totals[kind]) in Listed(totals)
    {
      var i :| 0 <= i < |kinds| && kinds[i] == kind;
      assert Listed(totals)[i] == (kind, totals[kind]);
    }
  }

  lemma {:induction false} AscendingSize(xs: seq<string>)
    requires Ascending(xs)
    ensures |Elements(xs)| == |xs|
  {
    hide Less;
    if xs == [] {
      assert Elements(xs) == {};
    } else {
      var last := |xs| - 1;
      AscendingSize(xs[..last]);
      assert Elements(xs) == Elements(xs[..last]) + {xs[last]};
      if xs[last] in xs[..last] {
        var i :| 0 <= i < last && xs[i] == xs[last];
        LessTrichotomy(xs[i], xs[last]);
      }
    }
  }

  /** The row after private-key masking, as far as its shape and leaves fix it: completely. */
  ghost predicate PrivateKeysMasked(row: Value, matches: seq<Span>, masked: Value) {
    var leaves := CollectTextValues(row);
    && Shape(masked) == Shape(row) && |Leaves(masked, None)| == |Leaves(row, None)|
    && exists spans ::
         && |spans| == |matches| && AllReachBack(Join(leaves, " "), END_MARKER, PLACEHOLDER, matches, spans)
         && forall i :: 0 <= i < |Leaves(row, None)| ==>
              var leaf := Leaves(row, None)[i];
              Leaves(masked, None)[i] ==
              if leaf.value.Text? && !(leaf.key == Some("role") && leaf.value.text in {"system", "user", "assistant", "tool"})
              then Leaf(leaf.key, Text(MaskFrom(leaf.value.text, Offset(leaves, i), spans, 0))) else leaf
  }

  /** A row's redaction and its counts; a row that is no object passes unchanged and uncounted. */
  ghost predicate RowDone(row: Value, matches: seq<Span>, others: Others, redacted: Value, tally: Counts) {
    if !row.Object? then redacted == row && tally == map[]
    else exists masked ::
      && PrivateKeysMasked(row, matches, masked) && redacted == others.redacted(masked)
      && tally == if matches == [] then others.hits(masked) else others.hits(masked)["private_key" := |matches|]
  }

  ghost predicate Detected(row: Value, matches: seq<Span>) {
    Tidy(matches, |Join(CollectTextValues(row), " ")|)
  }

  /** One row: private keys over the whole row, then the other kinds; a row that is no object stays. */
  method RedactRow(row: Value, matches: seq<Span>, others: Others) returns (redacted: Value, tally: Counts)
    requires Detected(row, matches) && forall v :: PRIVATE_KEY !in others.hits(v)
    ensures RowDone(row, matches, others, redacted, tally)
  {
    if !row.Object? {
      return row, map[];
    }
    var masked, spans, count := RedactRowPrivateKeys(row, matches);
    assert PrivateKeysMasked(row, matches, masked);
    tally := map[];
    if count > 0 {
      tally := tally[PRIVATE_KEY := count];
    }
    tally := others.hits(masked) + tally;
    redacted := others.redacted(masked);
  }

  ghost predicate RowsDone(rows: seq<Value>, matches: seq<seq<Span>>, others: Others, redacted: seq<Value>, tallies: seq<Counts>) {
    && |rows| == |matches| && |redacted| == |tallies| <= |rows|
    && forall i :: 0 <= i < |redacted| ==> RowDone(rows[i], matches[i], others, redacted[i], tallies[i])
  }

  /**
   `redact_rows`: every row redacted, and a report whose counts add up both ways. Each kind is
   counted over all rows, the total is the sum over rows and over kinds, and the affected rows are
   exactly those in which something matched.
   */
  method RedactRows(rows: seq<Value>, matches: seq<seq<Span>>, others: Others)
    returns (redacted: seq<Value>, report: Report)
    requires |matches| == |rows| && forall i :: 0 <= i < |rows| ==> Detected(rows[i], matches[i])
    requires forall v :: PRIVATE_KEY !in others.hits(v)
    ensures |redacted| == |rows|
    ensures exists tallies :: RowsDone(rows, matches, others, redacted, tallies) && Summarizes(report, tallies)
  {
    hide RowDone, Sums, Total, Detected, RowSum, Affected, Listed;
    redacted := [];
    ghost var tallies: seq<Counts> := [];
    var sums: Counts, affected: seq<nat>, spans: nat := map[], [], 0;
    NothingSummed();
    for k := 0 to |rows|
      invariant |redacted| == k && RowsDone(rows, matches, others, redacted, tallies)
      invariant Sums(sums, tallies) && spans == RowSum(tallies) == Total(sums)
      invariant affected == Affected(tallies)
    {
      ghost var before, earlier := sums, tallies;
      var row, tally := RedactRow(rows[k], matches[k], others);
      redacted := redacted + [row];
      tallies := tallies + [tally];
      RowNext(earlier, tally);
      if tally != map[] {
        affected := affected + [k + 1];
      }
      sums, spans := AddTally(sums, spans, tally);
      SumsNext(before, earlier, sums, tally);
    }
    report := Report(spans, |affected|, Listed(sums), FirstRows(affected));
    assert Summarizes(report, tallies);
  }

  lemma RowNext(tallies: seq<Counts>, tally: Counts)
    ensures RowSum(tallies + [tally]) == RowSum(tallies) + Total(tally)
    ensures forall kind :: KindSum(tallies + [tally], kind) == KindSum(tallies, kind) + if kind in tally then tally[kind] else 0
    ensures Affected(tallies + [tally]) == Affected(tallies) + if tally != map[] then [|tallies| + 1] else []
  {
    hide Total;
    assert (tallies + [tally])[..|tallies|] == tallies;
  }

  lemma NothingSummed()
    ensures Sums(map[], []) && Total(map[]) == 0 && RowSum([]) == 0 && Affected([]) == []
    ensures forall kind :: KindSum([], kind) == 0
  {
  }
}

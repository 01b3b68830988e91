/**
 The cleaning pass over dataset rows: exact duplicates, normalized duplicates and low-information
 rows are dropped in one scan that remembers the signatures it has met.
 */
module Cleaning {
  import opened Wrappers

  /** A row's exact and normalized signatures, and the number of tokens of a normalized signature. */
  datatype Signatures<!T> = Signatures(exact: T -> string, normalized: T -> string, tokens: string -> nat)

  datatype Options = Options(dedupe: bool, dropLowInformation: bool, threshold: nat)

  datatype Reason = ExactDuplicate | NormalizedDuplicate | LowInformation

  datatype RemovedRow = RemovedRow(rowNumber: nat, reason: Reason, sample: string)

  const SAMPLE_LENGTH := 120
  const MANIFEST_LIMIT := 100

  datatype CleanResult = CleanResult(
    inputRows: nat, keptRows: nat, removedRows: nat,
    exactDuplicates: nat, normalizedDuplicates: nat, lowInformation: nat, removed: seq<RemovedRow>)

  // ----- which rows go, and why -----

  function Exacts<T>(sig: Signatures<T>, rows: seq<T>): set<string> {
    set i | 0 <= i < |rows| :: sig.exact(rows[i])
  }

  /** The nonempty normalized signatures of the rows whose exact signature was new. */
  function Norms<T>(sig: Signatures<T>, rows: seq<T>): set<string> {
    set i | 0 <= i < |rows| && sig.exact(rows[i]) !in Exacts(sig, rows[..i]) && sig.normalized(rows[i]) != "" ::
      sig.normalized(rows[i])
  }

  function Low<T>(sig: Signatures<T>, o: Options, row: T): bool {
    o.dropLowInformation && 0 < sig.tokens(sig.normalized(row)) < o.threshold
  }

  /** Why row `i` is removed, if it is, in terms of the rows before it. */
  function Verdict<T>(sig: Signatures<T>, o: Options, rows: seq<T>, i: nat): Option<Reason>
    requires i < |rows|
  {
    if o.dedupe && sig.exact(rows[i]) in Exacts(sig, rows[..i]) then Some(ExactDuplicate)
    else if o.dedupe && sig.normalized(rows[i]) in Norms(sig, rows[..i]) then Some(NormalizedDuplicate)
    else if Low(sig, o, rows[i]) then Some(LowInformation)
    else None
  }

  /** The positions of the rows that stay, in order. */
  function KeptIndices<T>(sig: Signatures<T>, o: Options, rows: seq<T>, n: nat): (ks: seq<nat>)
    requires n <= |rows|
    ensures forall j :: 0 <= j < |ks| ==> ks[j] < n
  {
    if n == 0 then []
    else if Verdict(sig, o, rows, n - 1).None? then KeptIndices(sig, o, rows, n - 1) + [n - 1]
    else KeptIndices(sig, o, rows, n - 1)
  }

  function At<T>(rows: seq<T>, indices: seq<nat>): seq<T>
    requires forall j :: 0 <= j < |indices| ==> indices[j] < |rows|
  {
    seq(|indices|, j requires 0 <= j < |indices| => rows[indices[j]])
  }

  function Kept<T>(sig: Signatures<T>, o: Options, rows: seq<T>): seq<T> {
    At(rows, KeptIndices(sig, o, rows, |rows|))
  }

  function Tally<T>(sig: Signatures<T>, o: Options, rows: seq<T>, n: nat, reason: Reason): nat
    requires n <= |rows|
  {
    if n == 0 then 0
    else Tally(sig, o, rows, n - 1, reason) + if Verdict(sig, o, rows, n - 1) == Some(reason) then 1 else 0
  }

  function Removals<T>(sig: Signatures<T>, o: Options, rows: seq<T>, n: nat): seq<RemovedRow>
    requires n <= |rows|
  {
    if n == 0 then []
    else
      var v := Verdict(sig, o, rows, n - 1);
      if v.None? then Removals(sig, o, rows, n - 1)
      else Removals(sig, o, rows, n - 1) + [RemovedRow(n, v.value, Sample(sig, rows[n - 1]))]
  }

  function Sample<T>(sig: Signatures<T>, row: T): string {
    var s := sig.normalized(row);
    if |s| <= SAMPLE_LENGTH then s else s[..SAMPLE_LENGTH]
  }

  lemma SeenGrows<T>(sig: Signatures<T>, rows: seq<T>, k: nat)
    requires k < |rows|
    ensures Exacts(sig, rows[..k + 1]) == Exacts(sig, rows[..k]) + {sig.exact(rows[k])}
    ensures Norms(sig, rows[..k + 1]) ==
            Norms(sig, rows[..k]) +
            if sig.exact(rows[k]) in Exacts(sig, rows[..k]) || sig.normalized(rows[k]) == "" then {}
            else {sig.normalized(rows[k])}
  {
    assert rows[..k + 1] == rows[..k] + [rows[k]];
    assert rows[..k + 1][..k] == rows[..k];
    forall i | 0 <= i < k
      ensures rows[..k + 1][..i] == rows[..k][..i] && rows[..k + 1][i] == rows[..k][i]
    {
    }
  }

  /** The signatures remembered after the first `k` rows. */
  ghost predicate Remembers<T>(sig: Signatures<T>, o: Options, rows: seq<T>, k: nat,
                               exactSeen: set<string>, normalizedSeen: set<string>)
    requires k <= |rows|
  {
    o.dedupe ==> exactSeen == Exacts(sig, rows[..k]) && normalizedSeen == Norms(sig, rows[..k])
  }

  /** The verdict on one row, and the signatures remembered after it. */
  method Judge<T>(sig: Signatures<T>, o: Options, ghost rows: seq<T>, ghost k: nat, row: T,
                  exactSeen: set<string>, normalizedSeen: set<string>)
    returns (reason: Option<Reason>, exactSeen': set<string>, normalizedSeen': set<string>)
    requires k < |rows| && row == rows[k] && Remembers(sig, o, rows, k, exactSeen, normalizedSeen)
    ensures reason == Verdict(sig, o, rows, k)
    ensures Remembers(sig, o, rows, k + 1, exactSeen', normalizedSeen')
  {
    reason, exactSeen', normalizedSeen' := None, exactSeen, normalizedSeen;
    SeenGrows(sig, rows, k);
    if o.dedupe {
      if sig.exact(row) in exactSeen {
        reason := Some(ExactDuplicate);
      } else {
        exactSeen' := exactSeen + {sig.exact(row)};
        var signature := sig.normalized(row);
        if signature != "" && signature in normalizedSeen {
          reason := Some(NormalizedDuplicate);
        } else if signature != "" {
          normalizedSeen' := normalizedSeen + {signature};
        }
      }
    }
    if reason.None? && o.dropLowInformation {
      var tokens := sig.tokens(sig.normalized(row));
      if 0 < tokens < o.threshold {
        reason := Some(LowInformation);
      }
    }
  }

  /** What one more row adds to the kept rows, the removals and the counts. */
  lemma Advance<T>(sig: Signatures<T>, o: Options, rows: seq<T>, k: nat)
    requires k < |rows|
    ensures At(rows, KeptIndices(sig, o, rows, k + 1)) ==
            At(rows, KeptIndices(sig, o, rows, k)) + if Verdict(sig, o, rows, k).None? then [rows[k]] else []
    ensures Removals(sig, o, rows, k + 1) ==
            Removals(sig, o, rows, k) +
            if Verdict(sig, o, rows, k).None? then []
            else [RemovedRow(k + 1, Verdict(sig, o, rows, k).value, Sample(sig, rows[k]))]
    ensures forall reason :: Tally(sig, o, rows, k + 1, reason) ==
                             Tally(sig, o, rows, k, reason) + if Verdict(sig, o, rows, k) == Some(reason) then 1 else 0
  {
    hide Verdict, Sample;
  }

  /** `clean_rows`. */
  method CleanRows<T>(sig: Signatures<T>, o: Options, rows: seq<T>) returns (kept: seq<T>, result: CleanResult)
    ensures kept == Kept(sig, o, rows)
    ensures result.inputRows == |rows| && result.keptRows == |kept|
    ensures result.keptRows + result.removedRows == result.inputRows
    ensures result.exactDuplicates + result.normalizedDuplicates + result.lowInformation == result.removedRows
    ensures result.exactDuplicates == Tally(sig, o, rows, |rows|, ExactDuplicate)
    ensures result.normalizedDuplicates == Tally(sig, o, rows, |rows|, NormalizedDuplicate)
    ensures result.lowInformation == Tally(sig, o, rows, |rows|, LowInformation)
    ensures result.removed <= Removals(sig, o, rows, |rows|)
    ensures |result.removed| == if result.removedRows <= 100 then result.removedRows else 100
  {
    hide Verdict, Sample, KeptIndices, Removals, Tally, At, Remembers;
    Start(sig, o, rows);
    kept := [];
    var removed: seq<RemovedRow> := [];
    var exactSeen, normalizedSeen := {}, {};
    var exactCount, normalizedCount, lowCount := 0, 0, 0;
    for k := 0 to |rows|
      invariant kept == At(rows, KeptIndices(sig, o, rows, k))
      invariant removed == Removals(sig, o, rows, k)
      invariant |kept| + |removed| == k
      invariant exactCount + normalizedCount + lowCount == |removed|
      invariant exactCount == Tally(sig, o, rows, k, ExactDuplicate)
      invariant normalizedCount == Tally(sig, o, rows, k, NormalizedDuplicate)
      invariant lowCount == Tally(sig, o, rows, k, LowInformation)
      invariant Remembers(sig, o, rows, k, exactSeen, normalizedSeen)
    {
      var row := rows[k];
      Advance(sig, o, rows, k);
      var reason;
      reason, exactSeen, normalizedSeen := Judge(sig, o, rows, k, row, exactSeen, normalizedSeen);
      match reason {
        case None => kept := kept + [row];
        case Some(ExactDuplicate) => exactCount := exactCount + 1;
        case Some(NormalizedDuplicate) => normalizedCount := normalizedCount + 1;
        case Some(LowInformation) => lowCount := lowCount + 1;
      }
      if reason.Some? {
        removed := removed + [RemovedRow(k + 1, reason.value, Sample(sig, row))];
      }
    }
    result := CleanResult(|rows|, |kept|, |removed|, exactCount, normalizedCount, lowCount,
                          if |removed| <= MANIFEST_LIMIT then removed else removed[..MANIFEST_LIMIT]);
  }

  lemma Start<T>(sig: Signatures<T>, o: Options, rows: seq<T>)
    ensures At(rows, KeptIndices(sig, o, rows, 0)) == [] && Removals(sig, o, rows, 0) == []
    ensures forall reason :: Tally(sig, o, rows, 0, reason) == 0
    ensures Remembers(sig, o, rows, 0, {}, {})
  {
  }

  // ----- the verdicts, in terms of rows -----

  lemma ExactBefore<T>(sig: Signatures<T>, rows: seq<T>, i: nat, signature: string)
    requires i <= |rows|
    ensures signature in Exacts(sig, rows[..i]) <==> exists j :: 0 <= j < i && sig.exact(rows[j]) == signature
  {
    if j :| 0 <= j < i && sig.exact(rows[j]) == signature {
      assert rows[..i][j] == rows[j];
    }
  }

  /** Row `j` brings a new exact signature. */
  ghost predicate NewExact<T>(sig: Signatures<T>, rows: seq<T>, j: nat)
    requires j < |rows|
  {
    forall k :: 0 <= k < j ==> sig.exact(rows[k]) != sig.exact(rows[j])
  }

  lemma NormBefore<T>(sig: Signatures<T>, rows: seq<T>, i: nat, signature: string)
    requires i <= |rows|
    ensures signature in Norms(sig, rows[..i]) <==>
            signature != "" && exists j :: 0 <= j < i && sig.normalized(rows[j]) == signature && NewExact(sig, rows, j)
  {
    forall j | 0 <= j < i
      ensures rows[..i][j] == rows[j] && rows[..i][..j] == rows[..j]
      ensures NewExact(sig, rows, j) <==> sig.exact(rows[j]) !in Exacts(sig, rows[..j])
    {
      ExactBefore(sig, rows, j, sig.exact(rows[j]));
    }
    if signature != "" {
      if j :| 0 <= j < i && sig.normalized(rows[j]) == signature && NewExact(sig, rows, j) {
        assert sig.normalized(rows[..i][j]) in Norms(sig, rows[..i]);
      }
    }
  }

  /**
   Why a row goes. It repeats an earlier row's exact signature; or else the nonempty normalized
   signature of an earlier row that did not; or else it has some tokens, but fewer than the threshold.
   */
  lemma VerdictIs<T>(sig: Signatures<T>, o: Options, rows: seq<T>, i: nat)
    requires i < |rows|
    ensures var norm := sig.normalized(rows[i]);
            var exact := o.dedupe && !NewExact(sig, rows, i);
            var normal := o.dedupe && !exact && norm != "" &&
                          exists j :: 0 <= j < i && sig.normalized(rows[j]) == norm && NewExact(sig, rows, j);
            var low := !exact && !normal && o.dropLowInformation && 0 < sig.tokens(norm) < o.threshold;
            Verdict(sig, o, rows, i) ==
            if exact then Some(ExactDuplicate) else if normal then Some(NormalizedDuplicate)
            else if low then Some(LowInformation) else None
  {
    hide Exacts, Norms;
    ExactBefore(sig, rows, i, sig.exact(rows[i]));
    NormBefore(sig, rows, i, sig.normalized(rows[i]));
  }

  /** The positions of the rows with a verdict, among the first `n`. */
  function Judged<T>(sig: Signatures<T>, o: Options, rows: seq<T>, n: nat, reason: Reason): set<int>
    requires n <= |rows|
  {
    set i | 0 <= i < n && Verdict(sig, o, rows, i) == Some(reason)
  }

  lemma JudgedNext<T>(sig: Signatures<T>, o: Options, rows: seq<T>, n: nat, reason: Reason)
    requires n < |rows|
    ensures n !in Judged(sig, o, rows, n, reason)
    ensures Judged(sig, o, rows, n + 1, reason) ==
            Judged(sig, o, rows, n, reason) + if Verdict(sig, o, rows, n) == Some(reason) then {n as int} else {}
  {
    hide Verdict;
  }

  /** Each count is the number of rows with that verdict. */
  lemma {:induction false} TallyIs<T>(sig: Signatures<T>, o: Options, rows: seq<T>, n: nat, reason: Reason)
    requires n <= |rows|
    ensures Tally(sig, o, rows, n, reason) == |Judged(sig, o, rows, n, reason)|
  {
    hide Verdict;
    if n == 0 {
      assert Judged(sig, o, rows, 0, reason) == {};
    } else {
      hide Judged;
      TallyIs(sig, o, rows, n - 1, reason);
      JudgedNext(sig, o, rows, n - 1, reason);
    }
  }

  lemma SampleIs<T>(sig: Signatures<T>, row: T)
    ensures var text := sig.normalized(row); Sample(sig, row) == if |text| <= 120 then text else text[..120]
  {
  }

  /** Row `i` goes, and this is its entry: its number from 1, the reason and the sample. */
  ghost predicate IsRemoval<T>(sig: Signatures<T>, o: Options, rows: seq<T>, i: nat, entry: RemovedRow) {
    i < |rows| && Verdict(sig, o, rows, i).Some? && entry == RemovedRow(i + 1, Verdict(sig, o, rows, i).value, Sample(sig, rows[i]))
  }

  /** The removed rows, in order, each with its entry. */
  lemma {:induction false} RemovalsAre<T>(sig: Signatures<T>, o: Options, rows: seq<T>, n: nat) returns (at: seq<nat>)
    requires n <= |rows|
    ensures |at| == |Removals(sig, o, rows, n)| && forall i, j :: 0 <= i < j < |at| ==> at[i] < at[j] < n
    ensures forall k :: 0 <= k < |at| ==> at[k] < n && IsRemoval(sig, o, rows, at[k], Removals(sig, o, rows, n)[k])
    ensures forall i :: 0 <= i < n && Verdict(sig, o, rows, i).Some? ==> i in at
  {
    hide Verdict, Sample;
    if n == 0 {
      at := [];
    } else {
      at := RemovalsAre(sig, o, rows, n - 1);
      if Verdict(sig, o, rows, n - 1).Some? {
        ghost var earlier := at;
        at := at + [n - 1];
        assert forall i :: i in at <==> i in earlier || i == n - 1;
      }
    }
  }

  // ----- what stays -----

  lemma {:induction false} KeptIndicesAre<T>(sig: Signatures<T>, o: Options, rows: seq<T>, n: nat)
    requires n <= |rows|
    ensures var ks := KeptIndices(sig, o, rows, n);
            && (forall i, j :: 0 <= i < j < |ks| ==> ks[i] < ks[j])
            && (forall k :: 0 <= k < n ==> (k in ks <==> Verdict(sig, o, rows, k).None?))
  {
    hide Verdict;
    if n > 0 {
      KeptIndicesAre(sig, o, rows, n - 1);
      var earlier, all := KeptIndices(sig, o, rows, n - 1), KeptIndices(sig, o, rows, n);
      assert all == if Verdict(sig, o, rows, n - 1).None? then earlier + [n - 1] else earlier;
      hide KeptIndices;
      forall k | 0 <= k < n
        ensures k in all <==> Verdict(sig, o, rows, k).None?
      {
        if k < n - 1 {
          assert k in all <==> k in earlier;
        } else {
          assert forall j :: 0 <= j < |earlier| ==> earlier[j] < k;
        }
      }
    }
  }

  /** The kept rows are the rows without a verdict, in order. */
  lemma KeptAre<T>(sig: Signatures<T>, o: Options, rows: seq<T>) returns (at: seq<nat>)
    ensures |at| == |Kept(sig, o, rows)| && forall i, j :: 0 <= i < j < |at| ==> at[i] < at[j]
    ensures forall i :: i in at <==> 0 <= i < |rows| && Verdict(sig, o, rows, i).None?
    ensures forall k :: 0 <= k < |at| ==> at[k] < |rows| && Kept(sig, o, rows)[k] == rows[at[k]]
  {
    hide Verdict;
    KeptIndicesAre(sig, o, rows, |rows|);
    at := KeptIndices(sig, o, rows, |rows|);
    forall i | i in at
      ensures 0 <= i < |rows|
    {
      var k :| 0 <= k < |at| && at[k] == i;
    }
  }

  /** Two kept rows share neither their exact nor a nonempty normalized signature. */
  lemma KeptDiffer<T>(sig: Signatures<T>, o: Options, rows: seq<T>, i: nat, j: nat)
    requires i < j < |rows| && o.dedupe
    requires Verdict(sig, o, rows, i).None? && Verdict(sig, o, rows, j).None?
    ensures sig.exact(rows[i]) != sig.exact(rows[j])
    ensures sig.normalized(rows[i]) != "" ==> sig.normalized(rows[i]) != sig.normalized(rows[j])
  {
    assert rows[..j][i] == rows[i] && rows[..j][..i] == rows[..i];
    assert sig.exact(rows[i]) in Exacts(sig, rows[..j]);
    if sig.normalized(rows[i]) != "" {
      assert sig.normalized(rows[..j][i]) in Norms(sig, rows[..j]);
    }
  }

  /** The kept rows are a subsequence, with pairwise distinct signatures when deduplicating. */
  lemma KeptDistinct<T>(sig: Signatures<T>, o: Options, rows: seq<T>)
    ensures var ks, kept := KeptIndices(sig, o, rows, |rows|), Kept(sig, o, rows);
            && |kept| == |ks|
            && (forall j :: 0 <= j < |ks| ==> kept[j] == rows[ks[j]])
            && (o.dropLowInformation ==> forall j :: 0 <= j < |ks| ==>
                  sig.tokens(sig.normalized(kept[j])) == 0 || sig.tokens(sig.normalized(kept[j])) >= o.threshold)
            && (forall i, j :: 0 <= i < j < |ks| ==> ks[i] < ks[j])
            && (o.dedupe ==> forall i, j :: 0 <= i < j < |kept| ==>
                  && sig.exact(kept[i]) != sig.exact(kept[j])
                  && (sig.normalized(kept[i]) != "" ==> sig.normalized(kept[i]) != sig.normalized(kept[j])))
  {
    var ks, kept := KeptIndices(sig, o, rows, |rows|), Kept(sig, o, rows);
    KeptIndicesAre(sig, o, rows, |rows|);
    assert forall j :: 0 <= j < |ks| ==> ks[j] in ks;
    forall i, j | 0 <= i < j < |kept| && o.dedupe
      ensures sig.exact(kept[i]) != sig.exact(kept[j])
      ensures sig.normalized(kept[i]) != "" ==> sig.normalized(kept[i]) != sig.normalized(kept[j])
    {
      KeptDiffer(sig, o, rows, ks[i], ks[j]);
    }
  }

  lemma {:induction false} AllKept<T>(sig: Signatures<T>, o: Options, rows: seq<T>, n: nat)
    requires n <= |rows|
    requires forall k :: 0 <= k < n ==> Verdict(sig, o, rows, k).None?
    ensures KeptIndices(sig, o, rows, n) == seq(n, i => i)
  {
    if n > 0 {
      AllKept(sig, o, rows, n - 1);
    }
  }

  /** Cleaning what was kept removes nothing more. */
  lemma Idempotent<T>(sig: Signatures<T>, o: Options, rows: seq<T>)
    ensures Kept(sig, o, Kept(sig, o, rows)) == Kept(sig, o, rows)
  {
    var kept := Kept(sig, o, rows);
    KeptDistinct(sig, o, rows);
    forall k | 0 <= k < |kept|
      ensures Verdict(sig, o, kept, k).None?
    {
      assert forall i :: 0 <= i < k ==> kept[..k][i] == kept[i];
    }
    AllKept(sig, o, kept, |kept|);
  }

  // ----- why a removed row is no loss -----

  predicate Represents<T>(sig: Signatures<T>, a: T, b: T) {
    sig.exact(a) == sig.exact(b) || (sig.normalized(a) == sig.normalized(b) && sig.normalized(a) != "")
  }

  /** The row goes, and no row kept before it has its exact or its nonempty normalized signature. */
  ghost predicate Lost<T>(sig: Signatures<T>, o: Options, rows: seq<T>, i: nat)
    requires i < |rows|
  {
    Verdict(sig, o, rows, i).Some? && !HasKeptTwin(sig, o, rows, i)
  }

  /** Every removed row follows a kept row with the same exact or nonempty normalized signature. */
  ghost predicate Represented<T>(sig: Signatures<T>, o: Options, rows: seq<T>) {
    forall i :: 0 <= i < |rows| ==> !Lost(sig, o, rows, i)
  }

  ghost predicate HasKeptTwin<T>(sig: Signatures<T>, o: Options, rows: seq<T>, i: nat)
    requires i < |rows|
  {
    exists k :: 0 <= k < i && Verdict(sig, o, rows, k).None? && Represents(sig, rows[k], rows[i])
  }

  /**
   Rows with one exact signature agree on any normalized signature that some other row shares. It
   holds in particular when the exact signature determines the normalized one.
   */
  ghost predicate Coherent<T(!new)>(sig: Signatures<T>) {
    forall r, s, t | CounterTriple(sig, r, s, t) :: sig.normalized(t) == sig.normalized(s)
  }

  ghost predicate CounterTriple<T>(sig: Signatures<T>, r: T, s: T, t: T) {
    && sig.exact(s) == sig.exact(t) && sig.exact(r) != sig.exact(s)
    && sig.normalized(r) == sig.normalized(s) != ""
  }

  /** The first row to bring a normalized signature is kept. */
  lemma {:induction false} NormKeeper<T>(sig: Signatures<T>, o: Options, rows: seq<T>, n: nat, signature: string)
    requires n <= |rows| && o.dedupe && !o.dropLowInformation
    requires signature in Norms(sig, rows[..n])
    ensures signature != ""
    ensures exists k :: 0 <= k < n && Verdict(sig, o, rows, k).None? && sig.normalized(rows[k]) == signature
  {
    SeenGrows(sig, rows, n - 1);
    if signature in Norms(sig, rows[..n - 1]) {
      NormKeeper(sig, o, rows, n - 1, signature);
    } else {
      assert Verdict(sig, o, rows, n - 1).None?;
    }
  }

  lemma {:induction false} FirstExact<T>(sig: Signatures<T>, rows: seq<T>, n: nat, signature: string) returns (k: nat)
    requires n <= |rows| && signature in Exacts(sig, rows[..n])
    ensures k < n && sig.exact(rows[k]) == signature && signature !in Exacts(sig, rows[..k])
  {
    SeenGrows(sig, rows, n - 1);
    if signature in Exacts(sig, rows[..n - 1]) {
      k := FirstExact(sig, rows, n - 1, signature);
    } else {
      k := n - 1;
    }
  }

  /** A lost row follows an exact twin that went as the normalized duplicate of another row. */
  lemma LostFollowsTriple<T>(sig: Signatures<T>, o: Options, rows: seq<T>, i: nat) returns (q: nat, k: nat)
    requires o.dedupe && !o.dropLowInformation && i < |rows| && Lost(sig, o, rows, i)
    ensures q < k < i && CounterTriple(sig, rows[q], rows[k], rows[i])
    ensures sig.normalized(rows[k]) != sig.normalized(rows[i])
  {
    if Verdict(sig, o, rows, i) == Some(NormalizedDuplicate) {
      NormKeeper(sig, o, rows, i, sig.normalized(rows[i]));
    }
    k := FirstExact(sig, rows, i, sig.exact(rows[i]));
    assert Verdict(sig, o, rows, k) == Some(NormalizedDuplicate);
    NormKeeper(sig, o, rows, k, sig.normalized(rows[k]));
    q :| 0 <= q < k && Verdict(sig, o, rows, q).None? && sig.normalized(rows[q]) == sig.normalized(rows[k]);
    assert rows[..k][q] == rows[q];
  }

  lemma CoherentRepresented<T(!new)>(sig: Signatures<T>, o: Options, rows: seq<T>)
    requires Coherent(sig) && o.dedupe && !o.dropLowInformation
    ensures Represented(sig, o, rows)
  {
    forall i | 0 <= i < |rows|
      ensures !Lost(sig, o, rows, i)
    {
      if Lost(sig, o, rows, i) {
        var _, _ := LostFollowsTriple(sig, o, rows, i);
      }
    }
  }

  /** A row whose only earlier exact twin went as a normalized duplicate is lost. */
  lemma IncoherentLoses<T>(sig: Signatures<T>, o: Options, r: T, s: T, t: T)
    requires CounterTriple(sig, r, s, t) && sig.normalized(t) != sig.normalized(s)
    requires o.dedupe && !o.dropLowInformation
    ensures Lost(sig, o, [r, s, t], 2)
  {
    var rows := [r, s, t];
    SeenGrows(sig, rows, 0);
    SeenGrows(sig, rows, 1);
    assert Exacts(sig, rows[..0]) == {} && Norms(sig, rows[..0]) == {};
    assert sig.normalized(s) in Norms(sig, rows[..1]);
    assert Verdict(sig, o, rows, 1) == Some(NormalizedDuplicate);
    assert Verdict(sig, o, rows, 2) == Some(ExactDuplicate);
    assert !HasKeptTwin(sig, o, rows, 2);
  }

  /** Deduplication always leaves a representative exactly when the signatures are coherent. */
  lemma RepresentedIff<T(!new)>(sig: Signatures<T>, o: Options)
    requires o.dedupe && !o.dropLowInformation
    ensures (forall rows :: Represented(sig, o, rows)) <==> Coherent(sig)
  {
    if Coherent(sig) {
      forall rows
        ensures Represented(sig, o, rows)
      {
        CoherentRepresented(sig, o, rows);
      }
    } else {
      var r, s, t :| CounterTriple(sig, r, s, t) && sig.normalized(t) != sig.normalized(s);
      IncoherentLoses(sig, o, r, s, t);
      assert !Represented(sig, o, [r, s, t]);
    }
  }
}

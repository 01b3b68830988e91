/**
 Private-key redaction of one dataset row: spans are found in the row's leaves joined with single
 spaces, mapped back onto the leaves, and threaded through the row by a shared iterator.

 The detector's matches are given: sorted, non-overlapping and nonempty, as a regular-expression
 scan yields them.
 */
module Redaction {
  import opened Wrappers
  import opened Strings

  const PLACEHOLDER := "[REDACTED:private_key]"
  const END_MARKER := "-----END"
  const MESSAGE_ROLES := {"system", "user", "assistant", "tool"}

  /** The positions `start <= p < end`. */
  datatype Span = Span(start: nat, end: nat) {
    predicate Has(p: int) {
      start <= p < end
    }
  }

  /** Sorted, non-overlapping, nonempty spans inside a text of the given length. */
  ghost predicate Tidy(spans: seq<Span>, length: nat) {
    && (forall k :: 0 <= k < |spans| ==> spans[k].start < spans[k].end <= length)
    && (forall j, k :: 0 <= j < k < |spans| ==> spans[j].end <= spans[k].start)
  }

  /** Position `p` of a text that starts at `off` lies in a span. */
  predicate Covered(spans: seq<Span>, off: int, p: int) {
    exists k :: 0 <= k < |spans| && spans[k].Has(off + p)
  }

  predicate Opens(spans: seq<Span>, off: int, p: int) {
    exists k :: 0 <= k < |spans| && spans[k].start == off + p
  }

  // ----- finding the spans -----

  predicate OccursAt(text: string, pattern: string, k: int) {
    0 <= k && k + |pattern| <= |text| && text[k..k + |pattern|] == pattern
  }

  /** `text.rfind(pattern, lo, hi)`: the last occurrence inside the window. */
  function RFind(text: string, pattern: string, lo: nat, hi: nat): (r: Option<nat>)
    requires hi <= |text|
    ensures r.Some? ==> lo <= r.value && r.value + |pattern| <= hi && OccursAt(text, pattern, r.value)
    ensures forall k :: lo <= k && k + |pattern| <= hi && OccursAt(text, pattern, k) ==> r.Some? && k <= r.value
    decreases hi
  {
    if hi < lo + |pattern| then None
    else if OccursAt(text, pattern, hi - |pattern|) then Some(hi - |pattern|)
    else RFind(text, pattern, lo, hi - 1)
  }

  function PreviousEnd(matches: seq<Span>, k: nat): nat
    requires k <= |matches|
  {
    if k == 0 then 0 else matches[k - 1].end
  }

  /**
   How far back the span of one match reaches: a bare END marker is masked back to the nearest
   earlier placeholder after the previous match, or to that match's end.
   */
  ghost predicate ReachesBack(text: string, marker: string, placeholder: string, lo: nat, m: Span, span: Span) {
    && span.end == m.end && lo <= span.start <= m.start
    && (!OccursAt(text, marker, m.start) ==> span.start == m.start)
    && (OccursAt(text, marker, m.start) ==>
          && (span.start == lo || OccursAt(text, placeholder, span.start))
          && forall q :: span.start < q && q + |placeholder| <= m.start ==> !OccursAt(text, placeholder, q))
  }

  method SpanOf(text: string, marker: string, placeholder: string, cursor: nat, m: Span) returns (span: Span)
    requires cursor <= m.start < m.end <= |text|
    ensures ReachesBack(text, marker, placeholder, cursor, m, span)
  {
    var start := m.start;
    if OccursAt(text, marker, start) {
      var earlierMask := RFind(text, placeholder, cursor, start);
      start := if earlierMask.Some? then earlierMask.value else cursor;
    }
    span := Span(start, m.end);
  }

  ghost predicate AllReachBack(text: string, marker: string, placeholder: string,
                               matches: seq<Span>, spans: seq<Span>) {
    && |spans| <= |matches|
    && forall k :: 0 <= k < |spans| ==>
         ReachesBack(text, marker, placeholder, PreviousEnd(matches, k), matches[k], spans[k])
  }

  lemma MatchAfterCursor(text: string, matches: seq<Span>, k: nat)
    requires Tidy(matches, |text|) && k < |matches|
    ensures PreviousEnd(matches, k) <= matches[k].start < matches[k].end <= |text|
  {
  }

  lemma SpanAppended(text: string, marker: string, placeholder: string, matches: seq<Span>, spans: seq<Span>, span: Span)
    requires Tidy(matches, |text|) && Tidy(spans, |text|) && |spans| < |matches|
    requires AllReachBack(text, marker, placeholder, matches, spans)
    requires ReachesBack(text, marker, placeholder, PreviousEnd(matches, |spans|), matches[|spans|], span)
    ensures Tidy(spans + [span], |text|)
    ensures AllReachBack(text, marker, placeholder, matches, spans + [span])
  {
    hide ReachesBack, AllReachBack, Tidy;
    ReachAppend(text, marker, placeholder, matches, spans, span);
    ReachBounds(text, marker, placeholder, PreviousEnd(matches, |spans|), matches[|spans|], span);
    MatchAfterCursor(text, matches, |spans|);
    if spans == [] {
      TidyOne(span, |text|);
      assert [] + [span] == [span];
    } else {
      LastEnds(text, marker, placeholder, matches, spans);
      TidyAppend(spans, span, |text|);
    }
  }

  lemma ReachBounds(text: string, marker: string, placeholder: string, lo: nat, m: Span, span: Span)
    requires ReachesBack(text, marker, placeholder, lo, m, span)
    ensures span.end == m.end && lo <= span.start <= m.start
  {
  }

  lemma ReachAppend(text: string, marker: string, placeholder: string, matches: seq<Span>, spans: seq<Span>, span: Span)
    requires |spans| < |matches| && AllReachBack(text, marker, placeholder, matches, spans)
    requires ReachesBack(text, marker, placeholder, PreviousEnd(matches, |spans|), matches[|spans|], span)
    ensures AllReachBack(text, marker, placeholder, matches, spans + [span])
  {
    hide ReachesBack;
  }

  lemma TidyOne(span: Span, length: nat)
    requires span.start < span.end <= length
    ensures Tidy([span], length)
  {
  }

  lemma LastEnds(text: string, marker: string, placeholder: string, matches: seq<Span>, spans: seq<Span>)
    requires AllReachBack(text, marker, placeholder, matches, spans) && spans != []
    ensures spans[|spans| - 1].end == matches[|spans| - 1].end
  {
  }

  lemma TidyAppend(spans: seq<Span>, span: Span, length: nat)
    requires Tidy(spans, length) && spans != []
    requires spans[|spans| - 1].end <= span.start < span.end <= length
    ensures Tidy(spans + [span], length)
  {
    var longer, last := spans + [span], spans[|spans| - 1];
    forall j, k | 0 <= j < k < |longer|
      ensures longer[j].end <= longer[k].start
    {
      if k == |spans| && j < k - 1 {
        assert spans[j].end <= last.start < last.end;
      }
    }
  }

  method SpansBackTo(text: string, marker: string, placeholder: string, matches: seq<Span>)
    returns (spans: seq<Span>)
    requires Tidy(matches, |text|)
    ensures |spans| == |matches| && Tidy(spans, |text|)
    ensures AllReachBack(text, marker, placeholder, matches, spans)
  {
    spans := [];
    var cursor := 0;
    for k := 0 to |matches|
      invariant |spans| == k
      invariant cursor == PreviousEnd(matches, k)
      invariant Tidy(spans, |text|)
      invariant AllReachBack(text, marker, placeholder, matches, spans)
    {
      hide OccursAt, ReachesBack, Tidy, AllReachBack;
      MatchAfterCursor(text, matches, k);
      var span := SpanOf(text, marker, placeholder, cursor, matches[k]);
      SpanAppended(text, marker, placeholder, matches, spans, span);
      spans := spans + [span];
      cursor := matches[k].end;
    }
  }

  /** `_private_key_spans`: one span per match, each covering its match. */
  method PrivateKeySpans(text: string, matches: seq<Span>) returns (spans: seq<Span>)
    requires Tidy(matches, |text|)
    ensures |spans| == |matches| && Tidy(spans, |text|)
    ensures AllReachBack(text, END_MARKER, PLACEHOLDER, matches, spans)
  {
    spans := SpansBackTo(text, END_MARKER, PLACEHOLDER, matches);
  }

  // ----- masking one text -----

  /**
   The masked form of the part of a text from `p` on, character by character: `off` is where the
   text starts in the coordinates of the spans. Uncovered characters stay; a covered run leaves one
   placeholder where it enters the text and one more wherever another span opens.
   */
  function MaskFrom(text: string, off: nat, spans: seq<Span>, p: nat): string
    requires p <= |text|
    decreases |text| - p
  {
    if p == |text| then ""
    else MaskChar(text, off, spans, p) + MaskFrom(text, off, spans, p + 1)
  }

  function MaskChar(text: string, off: nat, spans: seq<Span>, p: nat): string
    requires p < |text|
  {
    if !Covered(spans, off, p) then [text[p]]
    else if p == 0 || Opens(spans, off, p) then PLACEHOLDER
    else ""
  }

  lemma Regroup(a: string, b: string, c: string)
    ensures a + b + c == a + (b + c)
  {
  }

  lemma {:induction false} MaskUncovered(text: string, off: nat, spans: seq<Span>, p: nat, q: nat)
    requires p <= q <= |text|
    requires forall i :: p <= i < q ==> !Covered(spans, off, i)
    ensures MaskFrom(text, off, spans, p) == text[p..q] + MaskFrom(text, off, spans, q)
    decreases q - p
  {
    if p < q {
      MaskUncovered(text, off, spans, p + 1, q);
      assert text[p..q] == [text[p]] + text[p + 1..q];
      Regroup([text[p]], text[p + 1..q], MaskFrom(text, off, spans, q));
    }
  }

  lemma {:induction false} MaskInside(text: string, off: nat, spans: seq<Span>, p: nat, q: nat)
    requires 0 < p <= q <= |text|
    requires forall i :: p <= i < q ==> Covered(spans, off, i) && !Opens(spans, off, i)
    ensures MaskFrom(text, off, spans, p) == MaskFrom(text, off, spans, q)
    decreases q - p
  {
    if p < q {
      MaskInside(text, off, spans, p + 1, q);
      assert MaskChar(text, off, spans, p) == "";
    }
  }

  /** One tidy span contributes the text up to it, and a single placeholder. */
  lemma MaskSpan(text: string, spans: seq<Span>, k: nat, cursor: nat)
    requires Tidy(spans, |text|) && k < |spans|
    requires cursor <= spans[k].start
    requires forall j :: 0 <= j < k ==> spans[j].end <= cursor
    ensures MaskFrom(text, 0, spans, cursor) ==
            text[cursor..spans[k].start] + PLACEHOLDER + MaskFrom(text, 0, spans, spans[k].end)
  {
    hide MaskFrom, Covered, Opens, Tidy;
    var s := spans[k];
    SpanFacts(text, spans, k, cursor);
    MaskUncovered(text, 0, spans, cursor, s.start);
    MaskInside(text, 0, spans, s.start + 1, s.end);
    MaskOpens(text, spans, s.start);
    Regroup(text[cursor..s.start], PLACEHOLDER, MaskFrom(text, 0, spans, s.end));
  }

  lemma MaskOpens(text: string, spans: seq<Span>, p: nat)
    requires p < |text| && Covered(spans, 0, p) && Opens(spans, 0, p)
    ensures MaskFrom(text, 0, spans, p) == PLACEHOLDER + MaskFrom(text, 0, spans, p + 1)
  {
  }

  lemma SpanFacts(text: string, spans: seq<Span>, k: nat, cursor: nat)
    requires Tidy(spans, |text|) && k < |spans|
    requires cursor <= spans[k].start
    requires forall j :: 0 <= j < k ==> spans[j].end <= cursor
    ensures spans[k].start < spans[k].end <= |text|
    ensures forall i :: cursor <= i < spans[k].start ==> !Covered(spans, 0, i)
    ensures Covered(spans, 0, spans[k].start) && Opens(spans, 0, spans[k].start)
    ensures forall i :: spans[k].start < i < spans[k].end ==> Covered(spans, 0, i) && !Opens(spans, 0, i)
  {
    var s := spans[k];
    assert s.Has(0 + s.start);
    forall i | s.start < i < s.end
      ensures Covered(spans, 0, i) && !Opens(spans, 0, i)
    {
      assert s.Has(0 + i);
    }
  }

  /** `_mask_private_key_spans`: exactly the complement of the spans, with one placeholder for each. */
  method MaskPrivateKeySpans(text: string, spans: seq<Span>) returns (masked: string)
    requires Tidy(spans, |text|)
    ensures masked == MaskFrom(text, 0, spans, 0)
  {
    hide Covered, Opens, MaskFrom;
    masked := "";
    var cursor: nat := 0;
    for k := 0 to |spans|
      invariant 0 <= cursor <= |text|
      invariant k < |spans| ==> cursor <= spans[k].start
      invariant forall j :: 0 <= j < k ==> spans[j].end <= cursor
      invariant masked + MaskFrom(text, 0, spans, cursor) == MaskFrom(text, 0, spans, 0)
    {
      MaskSpan(text, spans, k, cursor);
      var piece := text[cursor..spans[k].start] + PLACEHOLDER;
      Regroup(masked, piece, MaskFrom(text, 0, spans, spans[k].end));
      masked := masked + piece;
      cursor := spans[k].end;
    }
    MaskRest(text, spans, cursor);
    masked := masked + text[cursor..];
  }

  lemma MaskRest(text: string, spans: seq<Span>, cursor: nat)
    requires cursor <= |text| && forall j :: 0 <= j < |spans| ==> spans[j].end <= cursor
    ensures MaskFrom(text, 0, spans, cursor) == text[cursor..]
  {
    MaskUncovered(text, 0, spans, cursor, |text|);
  }

  // ----- mapping spans onto leaves -----

  function Max(a: int, b: int): int { if a >= b then a else b }

  function Min(a: int, b: int): int { if a <= b then a else b }

  /** Where a leaf starts in the text of the leaves joined with single spaces. */
  function Offset(leaves: seq<string>, i: nat): nat
    requires i <= |leaves|
  {
    if i == 0 then 0 else Offset(leaves, i - 1) + |leaves[i - 1]| + 1
  }

  lemma {:induction false} OffsetMonotone(leaves: seq<string>, i: nat, j: nat)
    requires i < j <= |leaves|
    ensures Offset(leaves, i) + |leaves[i]| + 1 <= Offset(leaves, j)
    decreases j
  {
    if i < j - 1 {
      OffsetMonotone(leaves, i, j - 1);
    }
  }

  /** A leaf's characters are the joined text's characters from its offset on. */
  lemma {:induction false} JoinedAt(leaves: seq<string>, i: nat)
    requires i < |leaves|
    ensures Offset(leaves, i) + |leaves[i]| <= |Join(leaves, " ")|
    ensures Join(leaves, " ")[Offset(leaves, i)..Offset(leaves, i) + |leaves[i]|] == leaves[i]
  {
    hide Join, Offset;
    JoinFrom(leaves, i);
    JoinHead(leaves[i..]);
    var rest := Join(leaves[i..], " ");
    assert Join(leaves, " ")[Offset(leaves, i)..Offset(leaves, i) + |leaves[i]|] == rest[..|leaves[i]|];
  }

  lemma JoinFrom(leaves: seq<string>, i: nat)
    requires i < |leaves|
    ensures Offset(leaves, i) <= |Join(leaves, " ")|
    ensures Join(leaves, " ")[Offset(leaves, i)..] == Join(leaves[i..], " ")
  {
    hide Join;
    if i == 0 {
      assert leaves[0..] == leaves;
    } else {
      assert leaves == leaves[..i] + leaves[i..];
      JoinConcat(leaves[..i], leaves[i..], " ");
      JoinedLength(leaves, i);
    }
  }

  lemma JoinHead(leaves: seq<string>)
    requires leaves != []
    ensures |leaves[0]| <= |Join(leaves, " ")|
    ensures Join(leaves, " ")[..|leaves[0]|] == leaves[0]
  {
  }

  lemma {:induction false} JoinedLength(leaves: seq<string>, i: nat)
    requires 1 <= i <= |leaves|
    ensures |Join(leaves[..i], " ")| == Offset(leaves, i) - 1
  {
    if i == 1 {
      assert leaves[..1] == [leaves[0]];
    } else {
      JoinedLength(leaves, i - 1);
      assert leaves[..i] == leaves[..i - 1] + [leaves[i - 1]];
      JoinConcat(leaves[..i - 1], [leaves[i - 1]], " ");
    }
  }

  /** The simple form: every span clipped to one leaf, the empty ones dropped. */
  function Clip(spans: seq<Span>, off: nat, length: nat): seq<Span> {
    if spans == [] then []
    else
      var last := spans[|spans| - 1];
      Clip(spans[..|spans| - 1], off, length) + ClipOne(last, off, length)
  }

  function ClipOne(s: Span, off: nat, length: nat): seq<Span> {
    var low, high := Max(s.start, off) - off, Min(s.end, off + length) - off;
    if high > low then [Span(low, high)] else []
  }

  /**
   Every position of the leaf is in a segment just when it is in a span; a segment opens where a
   span does, and where the leaf starts inside one.
   */
  ghost predicate Exact(segments: seq<Span>, spans: seq<Span>, off: nat, length: nat) {
    && (forall p :: 0 <= p < length ==> (Covered(segments, 0, p) <==> Covered(spans, off, p)))
    && (forall p :: 0 <= p < length ==>
          (Opens(segments, 0, p) <==> Opens(spans, off, p) || (p == 0 && Covered(spans, off, 0))))
  }

  lemma {:induction false} ClipExact(spans: seq<Span>, off: nat, length: nat, total: nat)
    requires Tidy(spans, total)
    ensures Tidy(Clip(spans, off, length), length)
    ensures Exact(Clip(spans, off, length), spans, off, length)
  {
    if spans != [] {
      var rest, last := spans[..|spans| - 1], spans[|spans| - 1];
      assert Tidy(rest, total);
      ClipExact(rest, off, length, total);
      assert spans == rest + [last];
      ClipOneExact(last, off, length);
      ClipAppendTidy(rest, last, off, length, total);
      ExactConcat(Clip(rest, off, length), ClipOne(last, off, length), rest, [last], off, length);
    }
  }

  /** Clipped segments end no later than the last span they come from. */
  lemma {:induction false} ClipEnds(spans: seq<Span>, off: nat, length: nat, bound: nat)
    requires forall k :: 0 <= k < |spans| ==> spans[k].end <= bound
    ensures forall k :: 0 <= k < |Clip(spans, off, length)| ==> off + Clip(spans, off, length)[k].end <= bound
  {
    if spans != [] {
      ClipEnds(spans[..|spans| - 1], off, length, bound);
    }
  }

  lemma ClipAppendTidy(rest: seq<Span>, last: Span, off: nat, length: nat, total: nat)
    requires Tidy(rest + [last], total) && Tidy(Clip(rest, off, length), length)
    ensures Tidy(Clip(rest, off, length) + ClipOne(last, off, length), length)
  {
    assert (rest + [last])[|rest|] == last;
    forall k | 0 <= k < |rest|
      ensures rest[k].end <= last.start
    {
      assert (rest + [last])[k] == rest[k];
    }
    ClipEnds(rest, off, length, last.start);
  }

  lemma CoveredConcat(a: seq<Span>, b: seq<Span>, off: int, p: int)
    ensures Covered(a + b, off, p) <==> Covered(a, off, p) || Covered(b, off, p)
    ensures Opens(a + b, off, p) <==> Opens(a, off, p) || Opens(b, off, p)
  {
    assert forall k :: 0 <= k < |b| ==> (a + b)[|a| + k] == b[k];
    assert forall k :: 0 <= k < |a| ==> (a + b)[k] == a[k];
  }

  lemma ExactConcat(a: seq<Span>, b: seq<Span>, x: seq<Span>, y: seq<Span>, off: nat, length: nat)
    requires Exact(a, x, off, length) && Exact(b, y, off, length)
    ensures Exact(a + b, x + y, off, length)
  {
    forall p | 0 <= p < length
      ensures Covered(a + b, 0, p) <==> Covered(x + y, off, p)
      ensures Opens(a + b, 0, p) <==> Opens(x + y, off, p) || (p == 0 && Covered(x + y, off, 0))
    {
      CoveredConcat(a, b, 0, p);
      CoveredConcat(x, y, off, p);
    }
  }

  lemma ClipOneExact(s: Span, off: nat, length: nat)
    requires s.start < s.end
    ensures Exact(ClipOne(s, off, length), [s], off, length)
  {
    var one := ClipOne(s, off, length);
    forall p | 0 <= p < length
      ensures Covered(one, 0, p) <==> Covered([s], off, p)
      ensures Opens(one, 0, p) <==> Opens([s], off, p) || (p == 0 && Covered([s], off, 0))
    {
      assert Covered([s], off, p) <==> [s][0].Has(off + p);
      assert Covered([s], off, 0) <==> [s][0].Has(off);
      assert Opens([s], off, p) <==> [s][0].start == off + p;
      assert |one| == 1 ==> (Covered(one, 0, p) <==> one[0].Has(0 + p));
      assert |one| == 1 ==> (Opens(one, 0, p) <==> one[0].start == 0 + p);
    }
  }

  /** Masking a leaf by its own segments is masking it by the spans of the joined text. */
  lemma {:induction false} MaskLeaf(spans: seq<Span>, off: nat, text: string, total: nat, p: nat)
    requires Tidy(spans, total) && p <= |text|
    ensures MaskFrom(text, 0, Clip(spans, off, |text|), p) == MaskFrom(text, off, spans, p)
    decreases |text| - p
  {
    if p < |text| {
      MaskLeaf(spans, off, text, total, p + 1);
      ClipExact(spans, off, |text|, total);
    }
  }

  lemma {:induction false} ClipNothing(spans: seq<Span>, off: nat, text: string, total: nat)
    requires Tidy(spans, total) && Clip(spans, off, |text|) == []
    ensures MaskFrom(text, off, spans, 0) == text
  {
    ClipExact(spans, off, |text|, total);
    forall i | 0 <= i < |text|
      ensures !Covered(spans, off, i)
    {
      assert !Covered([], 0, i);
    }
    MaskUncovered(text, off, spans, 0, |text|);
  }

  // ----- the two-pointer sweep -----

  function ClipLeaf(spans: seq<Span>, leaves: seq<string>, i: nat): seq<Span>
    requires i < |leaves|
  {
    Clip(spans, Offset(leaves, i), |leaves[i]|)
  }

  /** The leaf ends before the span starts, or starts after it ends: nothing of the span is in it. */
  lemma ClipMisses(spans: seq<Span>, k: nat, leaves: seq<string>, i: nat)
    requires k < |spans| && i < |leaves|
    requires Offset(leaves, i) + |leaves[i]| <= spans[k].start || spans[k].end <= Offset(leaves, i)
    ensures ClipLeaf(spans[..k + 1], leaves, i) == ClipLeaf(spans[..k], leaves, i)
  {
    ClipStep(spans, k, leaves, i);
  }

  lemma ClipStep(spans: seq<Span>, k: nat, leaves: seq<string>, i: nat)
    requires k < |spans| && i < |leaves|
    ensures ClipLeaf(spans[..k + 1], leaves, i) ==
            ClipLeaf(spans[..k], leaves, i) + ClipOne(spans[k], Offset(leaves, i), |leaves[i]|)
  {
    assert spans[..k + 1][..k] == spans[..k];
  }

  ghost predicate SweptTo(segments: seq<seq<Span>>, spans: seq<Span>, leaves: seq<string>, lo: nat, hi: nat) {
    && |segments| == |leaves|
    && forall i :: lo <= i < hi <= |leaves| ==> segments[i] == ClipLeaf(spans, leaves, i)
  }

  /** Every leaf before `first` ends at or before `limit`. */
  ghost predicate EndBefore(leaves: seq<string>, first: nat, limit: nat) {
    first <= |leaves| && forall i :: 0 <= i < first ==> Offset(leaves, i) + |leaves[i]| <= limit
  }

  /** Leaves that end before a span, or start after it, are swept by leaving them alone. */
  lemma MissedLeaves(segments: seq<seq<Span>>, spans: seq<Span>, k: nat, leaves: seq<string>, lo: nat, hi: nat)
    requires k < |spans| && hi <= |leaves|
    requires SweptTo(segments, spans[..k], leaves, lo, hi)
    requires EndBefore(leaves, hi, spans[k].start) || (lo < |leaves| ==> spans[k].end <= Offset(leaves, lo))
    ensures SweptTo(segments, spans[..k + 1], leaves, lo, hi)
  {
    forall i | lo <= i < hi
      ensures segments[i] == ClipLeaf(spans[..k + 1], leaves, i)
    {
      if lo < i {
        OffsetMonotone(leaves, lo, i);
      }
      ClipMisses(spans, k, leaves, i);
    }
  }

  /** Clipping one span to one more leaf moves that leaf to the swept side. */
  lemma SweptLeaf(segments: seq<seq<Span>>, spans: seq<Span>, k: nat, leaves: seq<string>, i: nat)
    requires k < |spans| && i < |leaves|
    requires SweptTo(segments, spans[..k + 1], leaves, 0, i) && SweptTo(segments, spans[..k], leaves, i, |leaves|)
    ensures var next := segments[i := segments[i] + ClipOne(spans[k], Offset(leaves, i), |leaves[i]|)];
            SweptTo(next, spans[..k + 1], leaves, 0, i + 1) && SweptTo(next, spans[..k], leaves, i + 1, |leaves|)
  {
    hide Offset, ClipLeaf, ClipOne;
    ClipStep(spans, k, leaves, i);
  }

  lemma OffsetNext(leaves: seq<string>, i: nat)
    requires i < |leaves|
    ensures Offset(leaves, i + 1) == Offset(leaves, i) + |leaves[i]| + 1
  {
  }

  lemma SweptLength(segments: seq<seq<Span>>, spans: seq<Span>, leaves: seq<string>, lo: nat, hi: nat)
    requires SweptTo(segments, spans, leaves, lo, hi)
    ensures |segments| == |leaves|
  {
  }

  lemma SweptJoin(segments: seq<seq<Span>>, spans: seq<Span>, leaves: seq<string>, mid: nat)
    requires mid <= |leaves| && SweptTo(segments, spans, leaves, 0, mid)
    requires SweptTo(segments, spans, leaves, mid, |leaves|)
    ensures SweptTo(segments, spans, leaves, 0, |leaves|)
  {
    hide ClipLeaf;
  }

  lemma SweptPart(segments: seq<seq<Span>>, spans: seq<Span>, leaves: seq<string>, mid: nat)
    requires mid <= |leaves| && SweptTo(segments, spans, leaves, 0, |leaves|)
    ensures SweptTo(segments, spans, leaves, 0, mid) && SweptTo(segments, spans, leaves, mid, |leaves|)
  {
    hide ClipLeaf;
  }

  lemma EndsKnown(leaves: seq<string>, first: nat, limit: nat)
    requires EndBefore(leaves, first, limit)
    ensures first <= |leaves|
  {
  }

  /** The inner loop over the leaves one span touches: those from `first` up to `last`. */
  method SweepSpan(leaves: seq<string>, spans: seq<Span>, k: nat, first: nat, segments: seq<seq<Span>>)
    returns (swept: seq<seq<Span>>, ghost last: nat, ghost steps: nat)
    requires k < |spans| && EndBefore(leaves, first, spans[k].start)
    requires SweptTo(segments, spans[..k], leaves, 0, |leaves|)
    ensures SweptTo(swept, spans[..k + 1], leaves, 0, |leaves|)
    ensures first <= last <= |leaves| && steps == last - first
    ensures first < last ==> Offset(leaves, last - 1) < spans[k].end
  {
    hide SweptTo, EndBefore, Offset, ClipOne, ClipLeaf;
    EndsKnown(leaves, first, spans[k].start);
    swept, steps := segments, 0;
    SweptPart(segments, spans[..k], leaves, first);
    MissedLeaves(segments, spans, k, leaves, 0, first);
    var index, offset := first, Offset(leaves, first);
    while index < |leaves| && offset < spans[k].end
      invariant first <= index <= |leaves| && offset == Offset(leaves, index) && steps == index - first
      invariant SweptTo(swept, spans[..k + 1], leaves, 0, index)
      invariant SweptTo(swept, spans[..k], leaves, index, |leaves|)
      invariant first < index ==> Offset(leaves, index - 1) < spans[k].end
    {
      SweptLeaf(swept, spans, k, leaves, index);
      SweptLength(swept, spans[..k], leaves, index, |leaves|);
      OffsetNext(leaves, index);
      swept := swept[index := swept[index] + ClipOne(spans[k], offset, |leaves[index]|)];
      offset := offset + |leaves[index]| + 1;
      index := index + 1;
      steps := steps + 1;
    }
    last := index;
    MissedLeaves(swept, spans, k, leaves, index, |leaves|);
    SweptJoin(swept, spans[..k + 1], leaves, index);
  }

  /**
   `_leaf_segments`: the sweep gives each leaf exactly its clipped spans, within a number of inner
   iterations linear in leaves plus spans.
   */
  method LeafSegments(leaves: seq<string>, spans: seq<Span>)
    returns (segments: seq<seq<Span>>, ghost steps: nat)
    requires Tidy(spans, |Join(leaves, " ")|)
    ensures |segments| == |leaves|
    ensures forall i :: 0 <= i < |leaves| ==> segments[i] == ClipLeaf(spans, leaves, i)
    ensures steps <= 2 * |leaves| + |spans|
  {
    hide SweptTo, EndBefore, Tidy, ClipLeaf;
    segments := seq(|leaves|, i => []);
    SweptNothing(segments, leaves);
    var first, firstOffset := 0, 0;
    steps := 0;
    ghost var reach: nat := 0;
    for k := 0 to |spans|
      invariant SweptTo(segments, spans[..k], leaves, 0, |leaves|)
      invariant first <= |leaves| && firstOffset == Offset(leaves, first)
      invariant first == 0 || (k > 0 && EndBefore(leaves, first, spans[k - 1].start))
      invariant steps <= first + k + reach && reach <= |leaves|
      invariant reach >= 1 ==> k > 0 && Offset(leaves, reach - 1) < spans[k - 1].end
    {
      InOrderAt(leaves, spans, |Join(leaves, " ")|, k, first);
      while first < |leaves| && firstOffset + |leaves[first]| <= spans[k].start
        invariant first <= |leaves| && firstOffset == Offset(leaves, first)
        invariant steps <= first + k + reach
        invariant EndBefore(leaves, first, spans[k].start)
      {
        EndBeforeNext(leaves, first, spans[k].start);
        firstOffset := firstOffset + |leaves[first]| + 1;
        first := first + 1;
        steps := steps + 1;
      }
      NoneSkippedTwice(leaves, first, reach, spans[k].start);
      ghost var last, sweep;
      segments, last, sweep := SweepSpan(leaves, spans, k, first, segments);
      steps := steps + sweep;
      if first < last {
        reach := last;
      }
    }
    SweptAll(segments, spans, leaves);
  }

  lemma SweptNothing(segments: seq<seq<Span>>, leaves: seq<string>)
    requires |segments| == |leaves| && forall i :: 0 <= i < |leaves| ==> segments[i] == []
    ensures SweptTo(segments, [], leaves, 0, |leaves|)
  {
  }

  lemma SweptAll(segments: seq<seq<Span>>, spans: seq<Span>, leaves: seq<string>)
    requires SweptTo(segments, spans[..|spans|], leaves, 0, |leaves|)
    ensures |segments| == |leaves|
    ensures forall i :: 0 <= i < |leaves| ==> segments[i] == ClipLeaf(spans, leaves, i)
  {
    assert spans[..|spans|] == spans;
  }

  /** The spans come in order, so a leaf that ends before one ends before the next. */
  lemma InOrderAt(leaves: seq<string>, spans: seq<Span>, length: nat, k: nat, first: nat)
    requires Tidy(spans, length) && k < |spans|
    requires first == 0 || (k > 0 && EndBefore(leaves, first, spans[k - 1].start))
    ensures EndBefore(leaves, first, spans[k].start) && spans[k].start < spans[k].end
    ensures k > 0 ==> spans[k - 1].end <= spans[k].start
  {
    assert k > 0 ==> spans[k - 1].start < spans[k - 1].end <= spans[k].start;
  }

  /** A leaf already touched is touched again only when it is the last of them. */
  lemma NoneSkippedTwice(leaves: seq<string>, first: nat, reach: nat, start: nat)
    requires first <= |leaves| && reach <= |leaves|
    requires first < |leaves| ==> start < Offset(leaves, first) + |leaves[first]|
    requires reach >= 1 ==> Offset(leaves, reach - 1) < start
    ensures reach <= first + 1
  {
    if first + 1 < reach {
      OffsetMonotone(leaves, first, reach - 1);
    }
  }

  lemma EndBeforeNext(leaves: seq<string>, first: nat, limit: nat)
    requires first < |leaves| && EndBefore(leaves, first, limit)
    requires Offset(leaves, first) + |leaves[first]| <= limit
    ensures EndBefore(leaves, first + 1, limit)
  {
  }

  /**
   The sweep is exact: for every leaf, its segments are sorted, disjoint and in bounds, and hold a
   position just when the joined text's position is in a span.
   */
  lemma SegmentsExact(leaves: seq<string>, spans: seq<Span>, i: nat)
    requires Tidy(spans, |Join(leaves, " ")|) && i < |leaves|
    ensures Tidy(ClipLeaf(spans, leaves, i), |leaves[i]|)
    ensures forall p :: 0 <= p < |leaves[i]| ==>
              (Covered(ClipLeaf(spans, leaves, i), 0, p) <==> Covered(spans, Offset(leaves, i), p))
  {
    ClipExact(spans, Offset(leaves, i), |leaves[i]|, |Join(leaves, " ")|);
  }

  // ----- rows -----

  /** A JSON value; `shown` is the text of a number or boolean. */
  datatype Value =
    | Null
    | Text(text: string)
    | Scalar(shown: string)
    | List(items: seq<Value>)
    | Object(fields: seq<Field>)

  datatype Field = Field(name: string, value: Value)

  /** A scalar with the key it is stored under, if it is an object's own field. */
  datatype Leaf = Leaf(key: Option<string>, value: Value)

  /** Every scalar but null, in container order. */
  function Leaves(value: Value, key: Option<string>): seq<Leaf>
    decreases value, 1
  {
    match value
    case Null => []
    case Text(_) => [Leaf(key, value)]
    case Scalar(_) => [Leaf(key, value)]
    case List(items) => ItemLeaves(items)
    case Object(fields) => FieldLeaves(fields)
  }

  function ItemLeaves(items: seq<Value>): seq<Leaf>
    decreases items, 0
  {
    if items == [] then [] else Leaves(items[0], None) + ItemLeaves(items[1..])
  }

  function FieldLeaves(fields: seq<Field>): seq<Leaf>
    decreases fields, 0
  {
    if fields == [] then []
    else Leaves(fields[0].value, Some(fields[0].name)) + FieldLeaves(fields[1..])
  }

  function Shown(leaf: Leaf): string {
    if leaf.value.Text? then leaf.value.text else if leaf.value.Scalar? then leaf.value.shown else ""
  }

  function ShownAll(leaves: seq<Leaf>): seq<string> {
    seq(|leaves|, i requires 0 <= i < |leaves| => Shown(leaves[i]))
  }

  /** `_collect_text_values`. */
  function CollectTextValues(value: Value): seq<string> {
    ShownAll(Leaves(value, None))
  }

  /** The containers of a value, with every leaf blanked. */
  function Shape(value: Value): Value
    decreases value, 1
  {
    match value
    case Null => Null
    case Text(_) => Text("")
    case Scalar(_) => Text("")
    case List(items) => List(ShapeItems(items))
    case Object(fields) => Object(ShapeFields(fields))
  }

  function ShapeItems(items: seq<Value>): seq<Value>
    decreases items, 0
  {
    if items == [] then [] else [Shape(items[0])] + ShapeItems(items[1..])
  }

  function ShapeFields(fields: seq<Field>): seq<Field>
    decreases fields, 0
  {
    if fields == [] then []
    else [Field(fields[0].name, Shape(fields[0].value))] + ShapeFields(fields[1..])
  }

  /** What `_replace_leaves` does to one leaf. */
  function ReplaceLeaf(leaf: Leaf, mask: Option<string>): Leaf {
    if mask.None? || !leaf.value.Text? || (leaf.key == Some("role") && leaf.value.text in MESSAGE_ROLES) then leaf
    else leaf.(value := Text(mask.value))
  }

  function ReplaceAll(leaves: seq<Leaf>, masks: seq<Option<string>>): seq<Leaf>
    requires |leaves| == |masks|
  {
    seq(|leaves|, i requires 0 <= i < |leaves| => ReplaceLeaf(leaves[i], masks[i]))
  }

  lemma ReplaceAllConcat(a: seq<Leaf>, b: seq<Leaf>, masks: seq<Option<string>>)
    requires |a| + |b| == |masks|
    ensures ReplaceAll(a + b, masks) == ReplaceAll(a, masks[..|a|]) + ReplaceAll(b, masks[|a|..])
  {
  }

  /** A value is determined by its shape and its leaves. */
  lemma {:induction false} ShapeAndLeaves(a: Value, b: Value, key: Option<string>)
    requires Shape(a) == Shape(b)
    requires Leaves(a, key) == Leaves(b, key)
    ensures a == b
    decreases a, 1
  {
    match a
    case Null =>
    case Text(_) => assert Leaves(b, key)[0].value == b;
    case Scalar(_) => assert Leaves(b, key)[0].value == b;
    case List(items) => ShapeAndItemLeaves(items, b.items);
    case Object(fields) => ShapeAndFieldLeaves(fields, b.fields);
  }

  lemma {:induction false} LeafCount(a: Value, b: Value, key: Option<string>)
    requires Shape(a) == Shape(b)
    ensures |Leaves(a, key)| == |Leaves(b, key)|
    decreases a, 1
  {
    match a
    case Null =>
    case Text(_) =>
    case Scalar(_) =>
    case List(items) => ItemLeafCount(items, b.items);
    case Object(fields) => FieldLeafCount(fields, b.fields);
  }

  lemma {:induction false} ItemLeafCount(a: seq<Value>, b: seq<Value>)
    requires ShapeItems(a) == ShapeItems(b)
    ensures |ItemLeaves(a)| == |ItemLeaves(b)|
    decreases a, 0
  {
    if a != [] {
      assert ShapeItems(a)[0] == Shape(a[0]) && ShapeItems(a)[1..] == ShapeItems(a[1..]);
      assert ShapeItems(b)[0] == Shape(b[0]) && ShapeItems(b)[1..] == ShapeItems(b[1..]);
      LeafCount(a[0], b[0], None);
      ItemLeafCount(a[1..], b[1..]);
    }
  }

  lemma {:induction false} FieldLeafCount(a: seq<Field>, b: seq<Field>)
    requires ShapeFields(a) == ShapeFields(b)
    ensures |FieldLeaves(a)| == |FieldLeaves(b)|
    decreases a, 0
  {
    if a != [] {
      assert ShapeFields(a)[0] == Field(a[0].name, Shape(a[0].value)) && ShapeFields(a)[1..] == ShapeFields(a[1..]);
      assert ShapeFields(b)[0] == Field(b[0].name, Shape(b[0].value)) && ShapeFields(b)[1..] == ShapeFields(b[1..]);
      LeafCount(a[0].value, b[0].value, Some(a[0].name));
      FieldLeafCount(a[1..], b[1..]);
    }
  }

  lemma {:induction false} ShapeAndItemLeaves(a: seq<Value>, b: seq<Value>)
    requires ShapeItems(a) == ShapeItems(b)
    requires ItemLeaves(a) == ItemLeaves(b)
    ensures a == b
    decreases a, 0
  {
    if a != [] {
      assert ShapeItems(a)[0] == Shape(a[0]) && ShapeItems(a)[1..] == ShapeItems(a[1..]);
      assert ShapeItems(b)[0] == Shape(b[0]) && ShapeItems(b)[1..] == ShapeItems(b[1..]);
      LeafCount(a[0], b[0], None);
      Cancel(Leaves(a[0], None), ItemLeaves(a[1..]), Leaves(b[0], None), ItemLeaves(b[1..]));
      ShapeAndLeaves(a[0], b[0], None);
      ShapeAndItemLeaves(a[1..], b[1..]);
      assert a == [a[0]] + a[1..] && b == [b[0]] + b[1..];
    }
  }

  lemma {:induction false} ShapeAndFieldLeaves(a: seq<Field>, b: seq<Field>)
    requires ShapeFields(a) == ShapeFields(b)
    requires FieldLeaves(a) == FieldLeaves(b)
    ensures a == b
    decreases a, 0
  {
    if a != [] {
      assert ShapeFields(a)[0] == Field(a[0].name, Shape(a[0].value)) && ShapeFields(a)[1..] == ShapeFields(a[1..]);
      assert ShapeFields(b)[0] == Field(b[0].name, Shape(b[0].value)) && ShapeFields(b)[1..] == ShapeFields(b[1..]);
      var key := Some(a[0].name);
      LeafCount(a[0].value, b[0].value, key);
      Cancel(Leaves(a[0].value, key), FieldLeaves(a[1..]), Leaves(b[0].value, key), FieldLeaves(b[1..]));
      ShapeAndLeaves(a[0].value, b[0].value, key);
      ShapeAndFieldLeaves(a[1..], b[1..]);
      assert a == [a[0]] + a[1..] && b == [b[0]] + b[1..];
    }
  }

  lemma Cancel<T>(a: seq<T>, b: seq<T>, c: seq<T>, d: seq<T>)
    requires a + b == c + d && |a| == |c|
    ensures a == c && b == d
  {
    assert a == (a + b)[..|a|] && c == (c + d)[..|a|];
    assert b == (a + b)[|a|..] && d == (c + d)[|a|..];
  }

  /** The shared iterator of masks, one per leaf. */
  class MaskIterator {
    const masks: seq<Option<string>>
    var position: nat

    constructor (masks: seq<Option<string>>)
      ensures this.masks == masks && position == 0
    {
      this.masks := masks;
      position := 0;
    }

    method Next() returns (mask: Option<string>)
      requires position < |masks|
      modifies this
      ensures mask == masks[old(position)] && position == old(position) + 1
    {
      mask := masks[position];
      position := position + 1;
    }
  }

  /**
   `_replace_leaves`: rebuilds a value in its own shape, taking from the iterator exactly one mask
   for each of its leaves.
   */
  method ReplaceLeaves(value: Value, masked: MaskIterator, key: Option<string>) returns (r: Value)
    requires masked.position + |Leaves(value, key)| <= |masked.masks|
    modifies masked
    ensures masked.position == old(masked.position) + |Leaves(value, key)|
    ensures Shape(r) == Shape(value)
    ensures Leaves(r, key) == ReplaceAll(Leaves(value, key), masked.masks[old(masked.position)..masked.position])
    ensures forall i :: 0 <= i < |Leaves(value, key)| ==>
              var leaf, mask := Leaves(value, key)[i], masked.masks[old(masked.position) + i];
              Leaves(r, key)[i] ==
              if mask.Some? && leaf.value.Text? && !(leaf.key == Some("role") && leaf.value.text in {"system", "user", "assistant", "tool"})
              then Leaf(leaf.key, Text(mask.value)) else leaf
    decreases value, 1
  {
    match value {
      case Object(fields) =>
        var rebuilt := ReplaceFields(fields, masked);
        r := Object(rebuilt);
      case List(items) =>
        var rebuilt := ReplaceItems(items, masked);
        r := List(rebuilt);
      case Null => r := Null;
      case Text(_) =>
        var replacement := masked.Next();
        r := ReplaceLeaf(Leaf(key, value), replacement).value;
      case Scalar(_) =>
        var replacement := masked.Next();
        r := value;
    }
  }

  lemma MasksSplit(a: seq<Leaf>, b: seq<Leaf>, masks: seq<Option<string>>, start: nat, middle: nat, end: nat)
    requires start + |a| == middle && middle + |b| == end <= |masks|
    ensures ReplaceAll(a + b, masks[start..end]) ==
            ReplaceAll(a, masks[start..middle]) + ReplaceAll(b, masks[middle..end])
  {
    ReplaceAllConcat(a, b, masks[start..end]);
    assert masks[start..end][..middle - start] == masks[start..middle];
    assert masks[start..end][middle - start..] == masks[middle..end];
  }

  lemma ConsItem(x: Value, xs: seq<Value>)
    ensures ShapeItems([x] + xs) == [Shape(x)] + ShapeItems(xs)
    ensures ItemLeaves([x] + xs) == Leaves(x, None) + ItemLeaves(xs)
  {
    assert ([x] + xs)[1..] == xs;
  }

  lemma ConsField(x: Field, xs: seq<Field>)
    ensures ShapeFields([x] + xs) == [Field(x.name, Shape(x.value))] + ShapeFields(xs)
    ensures FieldLeaves([x] + xs) == Leaves(x.value, Some(x.name)) + FieldLeaves(xs)
  {
    assert ([x] + xs)[1..] == xs;
  }

  method ReplaceItems(items: seq<Value>, masked: MaskIterator) returns (r: seq<Value>)
    requires masked.position + |ItemLeaves(items)| <= |masked.masks|
    modifies masked
    ensures masked.position == old(masked.position) + |ItemLeaves(items)|
    ensures ShapeItems(r) == ShapeItems(items)
    ensures ItemLeaves(r) == ReplaceAll(ItemLeaves(items), masked.masks[old(masked.position)..masked.position])
    decreases items, 0
  {
    if items == [] {
      return [];
    }
    hide ShapeItems, ItemLeaves, ReplaceAll, Shape, Leaves;
    ConsItem(items[0], items[1..]);
    assert items == [items[0]] + items[1..];
    ghost var start := masked.position;
    var first := ReplaceLeaves(items[0], masked, None);
    ghost var middle := masked.position;
    var rest := ReplaceItems(items[1..], masked);
    r := [first] + rest;
    ConsItem(first, rest);
    MasksSplit(Leaves(items[0], None), ItemLeaves(items[1..]), masked.masks, start, middle, masked.position);
  }

  method ReplaceFields(fields: seq<Field>, masked: MaskIterator) returns (r: seq<Field>)
    requires masked.position + |FieldLeaves(fields)| <= |masked.masks|
    modifies masked
    ensures masked.position == old(masked.position) + |FieldLeaves(fields)|
    ensures ShapeFields(r) == ShapeFields(fields)
    ensures FieldLeaves(r) == ReplaceAll(FieldLeaves(fields), masked.masks[old(masked.position)..masked.position])
    decreases fields, 0
  {
    if fields == [] {
      return [];
    }
    hide ShapeFields, FieldLeaves, ReplaceAll, Shape, Leaves;
    var key := Some(fields[0].name);
    ConsField(fields[0], fields[1..]);
    assert fields == [fields[0]] + fields[1..];
    ghost var start := masked.position;
    var first := ReplaceLeaves(fields[0].value, masked, key);
    ghost var middle := masked.position;
    var rest := ReplaceFields(fields[1..], masked);
    r := [Field(fields[0].name, first)] + rest;
    ConsField(Field(fields[0].name, first), rest);
    MasksSplit(Leaves(fields[0].value, key), FieldLeaves(fields[1..]), masked.masks, start, middle, masked.position);
  }

  /** The mask of leaf `i` masks it by the spans of the joined text; no mask means no span reaches it. */
  ghost predicate LeafMasked(leaves: seq<string>, spans: seq<Span>, i: nat, mask: Option<string>)
    requires i < |leaves|
  {
    var whole := MaskFrom(leaves[i], Offset(leaves, i), spans, 0);
    mask == Some(whole) || (mask == None && whole == leaves[i])
  }

  lemma LeafBySegments(leaves: seq<string>, spans: seq<Span>, i: nat)
    requires Tidy(spans, |Join(leaves, " ")|) && i < |leaves|
    ensures Tidy(ClipLeaf(spans, leaves, i), |leaves[i]|)
    ensures LeafMasked(leaves, spans, i, Some(MaskFrom(leaves[i], 0, ClipLeaf(spans, leaves, i), 0)))
    ensures ClipLeaf(spans, leaves, i) == [] ==> LeafMasked(leaves, spans, i, None)
  {
    hide Tidy, MaskFrom, Clip;
    SegmentsExact(leaves, spans, i);
    MaskLeaf(spans, Offset(leaves, i), leaves[i], |Join(leaves, " ")|, 0);
    if ClipLeaf(spans, leaves, i) == [] {
      ClipNothing(spans, Offset(leaves, i), leaves[i], |Join(leaves, " ")|);
    }
  }

  method MaskedLeaves(leaves: seq<string>, spans: seq<Span>) returns (masks: seq<Option<string>>)
    requires Tidy(spans, |Join(leaves, " ")|)
    ensures |masks| == |leaves|
    ensures forall i :: 0 <= i < |leaves| ==> LeafMasked(leaves, spans, i, masks[i])
  {
    hide Tidy, MaskFrom, ClipLeaf, LeafMasked;
    masks := [];
    var segments, _ := LeafSegments(leaves, spans);
    for i := 0 to |leaves|
      invariant |masks| == i
      invariant forall j :: 0 <= j < i ==> LeafMasked(leaves, spans, j, masks[j])
    {
      LeafBySegments(leaves, spans, i);
      if segments[i] != [] {
        var masked := MaskPrivateKeySpans(leaves[i], segments[i]);
        masks := masks + [Some(masked)];
      } else {
        masks := masks + [None];
      }
    }
  }

  /**
   `_redact_row_private_keys`: the row keeps its shape, and every leaf is redacted by the spans of
   the joined text; the tally is the number of spans.
   */
  method RedactRowPrivateKeys(row: Value, matches: seq<Span>)
    returns (r: Value, spans: seq<Span>, tally: nat)
    requires Tidy(matches, |Join(CollectTextValues(row), " ")|)
    ensures |spans| == |matches| == tally && Tidy(spans, |Join(CollectTextValues(row), " ")|)
    ensures AllReachBack(Join(CollectTextValues(row), " "), "-----END", "[REDACTED:private_key]", matches, spans)
    ensures Shape(r) == Shape(row) && |Leaves(r, None)| == |Leaves(row, None)|
    ensures forall i :: 0 <= i < |Leaves(row, None)| ==>
              var leaf := Leaves(row, None)[i];
              Leaves(r, None)[i] ==
              if leaf.value.Text? && !(leaf.key == Some("role") && leaf.value.text in {"system", "user", "assistant", "tool"})
              then Leaf(leaf.key, Text(MaskFrom(leaf.value.text, Offset(CollectTextValues(row), i), spans, 0))) else leaf
  {
    var leaves := CollectTextValues(row);
    spans := PrivateKeySpans(Join(leaves, " "), matches);
    tally := |spans|;
    if spans == [] {
      r := row;
      forall i | 0 <= i < |leaves|
        ensures MaskFrom(leaves[i], Offset(leaves, i), spans, 0) == leaves[i]
      {
        ClipNothing(spans, Offset(leaves, i), leaves[i], |Join(leaves, " ")|);
      }
      return;
    }
    var masks := MaskedLeaves(leaves, spans);
    var masked := new MaskIterator(masks);
    r := ReplaceLeaves(row, masked, None);
  }
}

/**
 * Go's `FindAll` with no limit, over a pattern given by what it matches at each position:
 * `m(p) == Some(e)` when the pattern's preferred match starting at `p` ends at `e`.
 * The search takes the leftmost position with a match, emits it, resumes at its end,
 * and otherwise advances by one character.
 */
module FindAll {
  import opened Wrappers

  datatype Span = Span(start: nat, end: nat)

  /** Every match is non-empty and ends inside the content of length `n`. */
  ghost predicate Advances(m: nat -> Option<nat>, n: nat) {
    forall p: nat :: m(p).Some? ==> p < m(p).value <= n
  }

  ghost predicate NoMatchIn(m: nat -> Option<nat>, lo: nat, hi: nat) {
    forall p: nat :: lo <= p < hi ==> m(p).None?
  }

  /** Where the search resumes before the `k`-th span: the scan start, or the previous span's end. */
  function ResumeAt(i: nat, r: seq<Span>, k: nat): nat
    requires k <= |r|
  {
    if k == 0 then i else r[k - 1].end
  }

  /**
   * `r` is the leftmost-first, non-overlapping list of matches of `m` in positions `i..n`:
   * each span is the match at its start, no match starts in any gap the search skips,
   * and none starts after the last span.
   */
  ghost predicate Leftmost(m: nat -> Option<nat>, n: nat, i: nat, r: seq<Span>) {
    && (forall k :: 0 <= k < |r| ==> i <= r[k].start < r[k].end <= n)
    && (forall k :: 0 <= k < |r| ==> m(r[k].start) == Some(r[k].end))
    && (forall k {:trigger ResumeAt(i, r, k)} :: 0 <= k < |r| ==>
          ResumeAt(i, r, k) <= r[k].start && NoMatchIn(m, ResumeAt(i, r, k), r[k].start))
    && NoMatchIn(m, ResumeAt(i, r, |r|), n)
  }

  /** A match at `i` followed by the leftmost list from its end is the leftmost list from `i`. */
  lemma LeftmostCons(m: nat -> Option<nat>, n: nat, i: nat, e: nat, rest: seq<Span>)
    requires i < e <= n && m(i) == Some(e) && Leftmost(m, n, e, rest)
    ensures Leftmost(m, n, i, [Span(i, e)] + rest)
  {
    var r := [Span(i, e)] + rest;
    forall k | 0 < k <= |r| ensures ResumeAt(i, r, k) == ResumeAt(e, rest, k - 1) {
    }
    forall k | 0 <= k < |r| ensures i <= r[k].start {
      if k > 0 {
        assert ResumeAt(e, rest, k - 1) <= rest[k - 1].start;
      }
    }
    assert ResumeAt(i, r, |r|) == ResumeAt(e, rest, |rest|);
  }

  /** No match at `i`: the leftmost list from `i + 1` is also the leftmost list from `i`. */
  lemma LeftmostSkip(m: nat -> Option<nat>, n: nat, i: nat, r: seq<Span>)
    requires i < n && m(i).None? && Leftmost(m, n, i + 1, r)
    ensures Leftmost(m, n, i, r)
  {
    if r == [] {
      assert ResumeAt(i, r, 0) == i && ResumeAt(i + 1, r, 0) == i + 1;
    } else {
      assert ResumeAt(i + 1, r, 0) == i + 1;
      forall k | 0 <= k < |r| ensures ResumeAt(i, r, k) <= r[k].start && NoMatchIn(m, ResumeAt(i, r, k), r[k].start) {
        assert ResumeAt(i + 1, r, k) <= r[k].start;
      }
      assert ResumeAt(i, r, |r|) == ResumeAt(i + 1, r, |r|);
    }
  }

  /** The scan loop itself: try position `i`, emit and resume at the end, or move on by one. */
  function SpansFrom(m: nat -> Option<nat>, n: nat, i: nat): (r: seq<Span>)
    requires Advances(m, n) && i <= n
    ensures Leftmost(m, n, i, r)
    decreases n - i
  {
    if i == n then
      assert ResumeAt(i, [], 0) == i;
      []
    else match m(i)
      case Some(e) =>
        var rest := SpansFrom(m, n, e);
        LeftmostCons(m, n, i, e, rest);
        [Span(i, e)] + rest
      case None =>
        var rest := SpansFrom(m, n, i + 1);
        LeftmostSkip(m, n, i, rest);
        rest
  }

  /** Every span ends before the `l`-th starts. */
  lemma {:induction false} EndsBefore(m: nat -> Option<nat>, n: nat, i: nat, r: seq<Span>, l: nat)
    requires Leftmost(m, n, i, r) && l < |r|
    ensures forall k :: 0 <= k < l ==> r[k].end <= r[l].start
    decreases l
  {
    if l > 0 {
      assert ResumeAt(i, r, l) <= r[l].start;
      EndsBefore(m, n, i, r, l - 1);
    }
  }

  /** Spans come left to right and never overlap. */
  lemma LeftmostOrdered(m: nat -> Option<nat>, n: nat, i: nat, r: seq<Span>)
    requires Leftmost(m, n, i, r)
    ensures forall k, l :: 0 <= k < l < |r| ==> r[k].end <= r[l].start
  {
    forall l | 0 <= l < |r| ensures forall k :: 0 <= k < l ==> r[k].end <= r[l].start {
      EndsBefore(m, n, i, r, l);
    }
  }

  /** After the first span the rest is the leftmost list from its end. */
  lemma LeftmostTail(m: nat -> Option<nat>, n: nat, i: nat, r: seq<Span>)
    requires Leftmost(m, n, i, r) && r != []
    ensures Leftmost(m, n, r[0].end, r[1..])
  {
    var tail := r[1..];
    LeftmostOrdered(m, n, i, r);
    forall k | 0 <= k <= |tail| ensures ResumeAt(r[0].end, tail, k) == ResumeAt(i, r, k + 1) {
    }
    forall k | 0 <= k < |tail| ensures r[0].end <= tail[k].start {
      assert r[k + 1] == tail[k];
    }
  }

  /** No match at `i`: the leftmost list from `i` is also the leftmost list from `i + 1`. */
  lemma LeftmostUnskip(m: nat -> Option<nat>, n: nat, i: nat, r: seq<Span>)
    requires i < n && m(i).None? && Leftmost(m, n, i, r)
    ensures Leftmost(m, n, i + 1, r)
  {
    assert ResumeAt(i, r, 0) == i && ResumeAt(i + 1, r, 0) == i + 1;
    forall k | 0 <= k < |r| ensures i + 1 <= r[k].start {
      if k > 0 {
        assert ResumeAt(i, r, k) <= r[k].start;
      }
    }
    forall k | 0 <= k <= |r| ensures ResumeAt(i + 1, r, k) == ResumeAt(i, r, k) || k == 0 {
    }
    forall k | 0 <= k < |r|
      ensures ResumeAt(i + 1, r, k) <= r[k].start && NoMatchIn(m, ResumeAt(i + 1, r, k), r[k].start)
    {
      assert ResumeAt(i, r, k) <= r[k].start;
    }
  }

  /** The two steps of the scan loop, as equations. */
  lemma SpansFromStep(m: nat -> Option<nat>, n: nat, i: nat)
    requires Advances(m, n) && i < n
    ensures m(i).Some? ==> SpansFrom(m, n, i) == [Span(i, m(i).value)] + SpansFrom(m, n, m(i).value)
    ensures m(i).None? ==> SpansFrom(m, n, i) == SpansFrom(m, n, i + 1)
  {
  }

  /** A match at the scan start is the first span. */
  lemma LeftmostHead(m: nat -> Option<nat>, n: nat, i: nat, r: seq<Span>, e: nat)
    requires i < n && m(i) == Some(e) && Leftmost(m, n, i, r)
    ensures r != [] && r[0] == Span(i, e)
  {
    assert ResumeAt(i, r, 0) == i;
    assert m(i).Some?;
  }

  /**
   * Uniqueness: any leftmost list is the one the scan produces, so `Leftmost` is a complete
   * description of `FindAll`'s answer.
   */
  lemma {:induction false} LeftmostIsSpansFrom(m: nat -> Option<nat>, n: nat, i: nat, r: seq<Span>)
    requires Advances(m, n) && i <= n && Leftmost(m, n, i, r)
    ensures r == SpansFrom(m, n, i)
    decreases n - i
  {
    if i == n {
      assert r == [];
    } else {
      SpansFromStep(m, n, i);
      if m(i).Some? {
        var e := m(i).value;
        LeftmostHead(m, n, i, r, e);
        LeftmostTail(m, n, i, r);
        LeftmostIsSpansFrom(m, n, e, r[1..]);
        assert r == [r[0]] + r[1..];
      } else {
        LeftmostUnskip(m, n, i, r);
        LeftmostIsSpansFrom(m, n, i + 1, r);
      }
    }
  }
}

/**
 * The endpoint pattern `https?://[^\s"]+` of the parsing worker, applied with `FindAll`.
 * It is case-sensitive; the greedy `s?` prefers `https://`, and the greedy `+` takes the
 * longest run of value characters.
 */
module Endpoint {
  import opened Wrappers
  import opened Text
  import FindAll

  /** The words the pattern accepts. */
  ghost predicate IsEndpointWord(w: string) {
    || (|w| > 8 && w[..8] == "https://" && forall k :: 8 <= k < |w| ==> IsValueChar(w[k]))
    || (|w| > 7 && w[..7] == "http://" && forall k :: 7 <= k < |w| ==> IsValueChar(w[k]))
  }

  /** `scheme` occurs at `i` and a value character follows it. */
  predicate OpensAt(s: string, i: nat, scheme: string) {
    i + |scheme| < |s| && s[i..i + |scheme|] == scheme && IsValueChar(s[i + |scheme|])
  }

  /**
   * The pattern's match starting at `i`, as its end: it exists exactly when some accepted word
   * starts at `i`, and it is the longest such word.
   */
  function MatchAt(s: string, i: nat): (r: Option<nat>)
    ensures r.Some? ==> i < r.value <= |s| && IsEndpointWord(s[i..r.value])
    ensures r.Some? ==> r.value == |s| || !IsValueChar(s[r.value])
    ensures r.Some? ==> forall e :: r.value < e <= |s| ==> !IsEndpointWord(s[i..e])
    ensures r.None? ==> forall e :: i < e <= |s| ==> !IsEndpointWord(s[i..e])
  {
    if OpensAt(s, i, "https://") then
      var e := ValueEnd(s, i + 8);
      assert s[i..e][..8] == s[i..i + 8];
      WordsBeyondRun(s, i, e);
      Some(e)
    else if OpensAt(s, i, "http://") then
      var e := ValueEnd(s, i + 7);
      assert s[i..e][..7] == s[i..i + 7];
      WordsBeyondRun(s, i, e);
      Some(e)
    else
      NoWordWithoutOpening(s, i);
      None
  }

  /** No accepted word from `i` extends past a non-value character at `e`. */
  lemma WordsBeyondRun(s: string, i: nat, e: nat)
    requires i + 7 < e <= |s| && (e == |s| || !IsValueChar(s[e]))
    ensures forall e' :: e < e' <= |s| ==> !IsEndpointWord(s[i..e'])
  {
    forall e' | e < e' <= |s| ensures !IsEndpointWord(s[i..e']) {
      assert s[i..e'][e - i] == s[e];
    }
  }

  /** Without an opening scheme followed by a value character no word starts at `i`. */
  lemma NoWordWithoutOpening(s: string, i: nat)
    requires !OpensAt(s, i, "https://") && !OpensAt(s, i, "http://")
    ensures forall e :: i < e <= |s| ==> !IsEndpointWord(s[i..e])
  {
    forall e | i < e <= |s| ensures !IsEndpointWord(s[i..e]) {
      var w := s[i..e];
      if |w| > 8 && w[..8] == "https://" {
        assert s[i..i + 8] == w[..8] && s[i + 8] == w[8];
      }
      if |w| > 7 && w[..7] == "http://" {
        assert s[i..i + 7] == w[..7] && s[i + 7] == w[7];
      }
    }
  }

  /** The pattern as a per-position matcher over `s`. */
  function Matcher(s: string): (m: nat -> Option<nat>)
    ensures FindAll.Advances(m, |s|)
  {
    p => MatchAt(s, p)
  }

  /** The spans `FindAll` reports for `s`: leftmost-first, non-overlapping, each an accepted word. */
  function Spans(s: string): (r: seq<FindAll.Span>)
    ensures FindAll.Leftmost(Matcher(s), |s|, 0, r)
    ensures forall k :: 0 <= k < |r| ==> r[k].end <= |s| && IsEndpointWord(s[r[k].start..r[k].end])
  {
    var r := FindAll.SpansFrom(Matcher(s), |s|, 0);
    assert forall k :: 0 <= k < |r| ==> Matcher(s)(r[k].start) == Some(r[k].end);
    r
  }

  /** The endpoint findings of one file's content, in order of position. */
  function Find(s: string): (r: seq<string>)
    ensures forall f :: f in r ==> IsEndpointWord(f)
  {
    var sp := Spans(s);
    seq(|sp|, k requires 0 <= k < |sp| => s[sp[k].start..sp[k].end])
  }

  /** Each finding is the text of the corresponding reported span. */
  lemma FindCutsSpans(s: string)
    ensures |Find(s)| == |Spans(s)|
    ensures forall k :: 0 <= k < |Spans(s)| ==> Find(s)[k] == s[Spans(s)[k].start..Spans(s)[k].end]
  {
  }

  /** Every match begins with `h`, so a stretch without one holds no match. */
  lemma NoMatchWithoutH(s: string, lo: nat, hi: nat)
    requires hi <= |s| && forall p :: lo <= p < hi ==> s[p] != 'h'
    ensures FindAll.NoMatchIn(Matcher(s), lo, hi)
  {
    forall p: nat | lo <= p < hi ensures MatchAt(s, p).None? {
      assert p + 7 < |s| ==> s[p..p + 7][0] == s[p];
      assert p + 8 < |s| ==> s[p..p + 8][0] == s[p];
    }
  }

  /** An endpoint holds no `"` and no whitespace, so each is written as exactly one line. */
  lemma WordIsClean(w: string)
    requires IsEndpointWord(w)
    ensures forall k :: 0 <= k < |w| ==> w[k] != '"' && !IsSpace(w[k])
  {
    var n := if |w| > 8 && w[..8] == "https://" then 8 else 7;
    forall k | 0 <= k < n && k < |w| ensures w[k] != '"' && !IsSpace(w[k]) {
      assert w[k] == w[..n][k];
    }
  }
}

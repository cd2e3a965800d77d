/**
 * The secret pattern `(?i)(api_key|token|secret)\s*[:=]\s*["']?([^"\s]+)["']?` of the parsing
 * worker, applied with `FindAll`, and the finding `"<label>: <value>"` built from its two groups.
 */
module Secret {
  import opened Wrappers
  import opened Text
  import FindAll

  /** The first group: one of the three keywords, in any ASCII case. */
  predicate IsLabel(w: string) {
    EqualsIgnoringCase(w, "api_key") || EqualsIgnoringCase(w, "token") || EqualsIgnoringCase(w, "secret")
  }

  predicate KeywordAt(s: string, i: nat, kw: string) {
    i + |kw| <= |s| && EqualsIgnoringCase(s[i..i + |kw|], kw)
  }

  predicate IsQuote(c: char) {
    c == '"' || c == '\''
  }

  /**
   * Length of the label the first group matches at `i`, or 0. The keywords start with
   * different letters, so at most one alternative can match and its length is determined.
   */
  function LabelLen(s: string, i: nat): (n: nat)
    ensures n > 0 ==> i + n <= |s| && IsLabel(s[i..i + n])
    ensures forall j :: i < j <= |s| && IsLabel(s[i..j]) ==> j == i + n
  {
    LabelDetermined(s, i);
    if KeywordAt(s, i, "api_key") then 7
    else if KeywordAt(s, i, "token") then 5
    else if KeywordAt(s, i, "secret") then 6
    else 0
  }

  lemma LabelDetermined(s: string, i: nat)
    ensures forall j :: i < j <= |s| && EqualsIgnoringCase(s[i..j], "api_key") ==>
      j == i + 7 && KeywordAt(s, i, "api_key")
    ensures forall j :: i < j <= |s| && EqualsIgnoringCase(s[i..j], "token") ==>
      j == i + 5 && KeywordAt(s, i, "token") && !KeywordAt(s, i, "api_key")
    ensures forall j :: i < j <= |s| && EqualsIgnoringCase(s[i..j], "secret") ==>
      j == i + 6 && KeywordAt(s, i, "secret") && !KeywordAt(s, i, "api_key") && !KeywordAt(s, i, "token")
  {
    forall j | i < j <= |s|
      ensures EqualsIgnoringCase(s[i..j], "token") ==> !KeywordAt(s, i, "api_key")
      ensures EqualsIgnoringCase(s[i..j], "secret") ==> !KeywordAt(s, i, "api_key") && !KeywordAt(s, i, "token")
    {
      assert s[i..j][0] == s[i];
      assert i + 5 <= |s| ==> s[i..i + 5][0] == s[i];
      assert i + 7 <= |s| ==> s[i..i + 7][0] == s[i];
    }
  }

  /**
   * One way the pattern (without its optional trailing quote) can match at `i`: the label ends
   * at `le`, the separator is at `sep`, the second group spans `vs..ve`, and between separator
   * and value there is whitespace, optionally followed by one quote.
   */
  ghost predicate Shape(s: string, i: nat, le: nat, sep: nat, vs: nat, ve: nat) {
    && i < le <= sep < vs < ve <= |s|
    && IsLabel(s[i..le])
    && AllSpaces(s, le, sep)
    && (s[sep] == ':' || s[sep] == '=')
    && (AllSpaces(s, sep + 1, vs) || (AllSpaces(s, sep + 1, vs - 1) && IsQuote(s[vs - 1])))
    && AllValueChars(s, vs, ve)
  }

  /**
   * Where the second group starts once the whitespace after the separator ends at `q`: the
   * greedy `["']?` takes a quote when a value character follows it, and otherwise backs off.
   */
  function ValueStart(s: string, q: nat): (r: nat)
    requires q <= |s|
    ensures q <= r <= q + 1 && r <= |s|
    ensures r == q + 1 ==> IsQuote(s[q])
    ensures (r < |s| && IsValueChar(s[r])) <==>
      (q < |s| && IsValueChar(s[q])) || (q + 1 < |s| && IsQuote(s[q]) && IsValueChar(s[q + 1]))
  {
    if q + 1 < |s| && IsQuote(s[q]) && IsValueChar(s[q + 1]) then q + 1 else q
  }

  /** Any way of matching at `i` agrees with the greedy choices on label, separator and value start. */
  lemma ShapeAgrees(s: string, i: nat, le: nat, sep: nat, vs: nat, ve: nat)
    ensures Shape(s, i, le, sep, vs, ve) ==>
      && LabelLen(s, i) == le - i
      && sep == SkipSpaces(s, le)
      && var v := ValueStart(s, SkipSpaces(s, sep + 1));
         v < |s| && IsValueChar(s[v]) && vs <= v && ve <= ValueEnd(s, v)
  {
    if Shape(s, i, le, sep, vs, ve) {
      SkipSpacesUnique(s, le, sep);
      var q := if AllSpaces(s, sep + 1, vs) then vs else vs - 1;
      SkipSpacesUnique(s, sep + 1, q);
      var v := ValueStart(s, q);
      if vs == v {
        ValueRunWithin(s, vs, ve);
      } else {
        assert vs == q && v == q + 1 && s[q] == '\'';
        ValueRunWithin(s, vs, ve);
        assert ValueEnd(s, q) == ValueEnd(s, q + 1);
      }
    }
  }

  /** Where the greedy choices fail, no way of matching exists. */
  lemma NoShape(s: string, i: nat)
    requires
      || LabelLen(s, i) == 0
      || var sep := SkipSpaces(s, i + LabelLen(s, i));
         || sep == |s| || (s[sep] != ':' && s[sep] != '=')
         || var v := ValueStart(s, SkipSpaces(s, sep + 1));
            v == |s| || !IsValueChar(s[v])
    ensures forall le: nat, sep: nat, vs: nat, ve: nat :: !Shape(s, i, le, sep, vs, ve)
  {
    forall le: nat, sep: nat, vs: nat, ve: nat ensures !Shape(s, i, le, sep, vs, ve) {
      if Shape(s, i, le, sep, vs, ve) {
        ShapeAgrees(s, i, le, sep, vs, ve);
      }
    }
  }

  /** Every way of matching at `i` ends its label, separator, value start and value no later than the greedy one. */
  lemma GreedyPreferred(s: string, i: nat, sep: nat, vs: nat, ve: nat)
    requires LabelLen(s, i) > 0 && sep == SkipSpaces(s, i + LabelLen(s, i))
    requires sep < |s| && vs == ValueStart(s, SkipSpaces(s, sep + 1)) && vs < |s| && ve == ValueEnd(s, vs)
    ensures forall le: nat, sep': nat, vs': nat, ve': nat :: Shape(s, i, le, sep', vs', ve') ==>
      le == i + LabelLen(s, i) && sep' == sep && vs' <= vs && ve' <= ve
  {
    forall le: nat, sep': nat, vs': nat, ve': nat | Shape(s, i, le, sep', vs', ve')
      ensures le == i + LabelLen(s, i) && sep' == sep && vs' <= vs && ve' <= ve
    {
      ShapeAgrees(s, i, le, sep', vs', ve');
    }
  }

  /** The greedy choices form a way of matching. */
  lemma GreedyIsShape(s: string, i: nat, sep: nat, vs: nat, ve: nat)
    requires LabelLen(s, i) > 0 && sep == SkipSpaces(s, i + LabelLen(s, i))
    requires sep < |s| && (s[sep] == ':' || s[sep] == '=')
    requires vs == ValueStart(s, SkipSpaces(s, sep + 1)) && vs < |s| && IsValueChar(s[vs])
    requires ve == ValueEnd(s, vs)
    ensures Shape(s, i, i + LabelLen(s, i), sep, vs, ve)
  {
    var q := SkipSpaces(s, sep + 1);
    if vs == q + 1 {
      assert AllSpaces(s, sep + 1, vs - 1) && IsQuote(s[vs - 1]);
    }
  }

  /** The positions of one match: label end, separator, second group, and the match end. */
  datatype SecretMatch = SecretMatch(labelEnd: nat, sep: nat, valueStart: nat, valueEnd: nat, end: nat)

  /**
   * The pattern's match at `i`. It exists exactly when some way of matching exists; it is that
   * way with the latest value start (an opening quote is consumed when it can be) and the longest
   * value; the trailing `["']?` then takes a quote right after the value.
   */
  function MatchAt(s: string, i: nat): (r: Option<SecretMatch>)
    ensures r.None? ==> forall le: nat, sep: nat, vs: nat, ve: nat :: !Shape(s, i, le, sep, vs, ve)
    ensures r.Some? ==> Shape(s, i, r.value.labelEnd, r.value.sep, r.value.valueStart, r.value.valueEnd)
    ensures r.Some? ==> forall le: nat, sep: nat, vs: nat, ve: nat :: Shape(s, i, le, sep, vs, ve) ==>
      le == r.value.labelEnd && sep == r.value.sep && vs <= r.value.valueStart && ve <= r.value.valueEnd
    ensures r.Some? ==> r.value.valueEnd == |s| || !IsValueChar(s[r.value.valueEnd])
    ensures r.Some? ==> r.value.end == r.value.valueEnd + 1 || r.value.end == r.value.valueEnd
    ensures r.Some? ==> (r.value.end == r.value.valueEnd + 1 <==> r.value.valueEnd < |s| && s[r.value.valueEnd] == '"')
  {
    var n := LabelLen(s, i);
    if n == 0 then
      NoShape(s, i);
      None
    else
      var sep := SkipSpaces(s, i + n);
      if sep == |s| || (s[sep] != ':' && s[sep] != '=') then
        NoShape(s, i);
        None
      else
        var q := SkipSpaces(s, sep + 1);
        var vs := ValueStart(s, q);
        if vs == |s| || !IsValueChar(s[vs]) then
          NoShape(s, i);
          None
        else
          var ve := ValueEnd(s, vs);
          var end := if ve < |s| && IsQuote(s[ve]) then ve + 1 else ve;
          GreedyIsShape(s, i, sep, vs, ve);
          GreedyPreferred(s, i, sep, vs, ve);
          Some(SecretMatch(i + n, sep, vs, ve, end))
  }

  /** The end of the match at `p`, as `FindAll` consumes it. */
  function EndAt(s: string, p: nat): (r: Option<nat>)
    ensures r.Some? ==> p < r.value <= |s|
  {
    match MatchAt(s, p)
    case Some(x) => Some(x.end)
    case None => None
  }

  function Matcher(s: string): (m: nat -> Option<nat>)
    ensures FindAll.Advances(m, |s|)
  {
    p => EndAt(s, p)
  }

  /**
   * The spans `FindAll` reports for `s`: leftmost-first, non-overlapping, each the whole of
   * the secret match starting there.
   */
  function Spans(s: string): (r: seq<FindAll.Span>)
    ensures FindAll.Leftmost(Matcher(s), |s|, 0, r)
    ensures forall k :: 0 <= k < |r| ==> MatchAt(s, r[k].start).Some? && MatchAt(s, r[k].start).value.end == r[k].end
  {
    var r := FindAll.SpansFrom(Matcher(s), |s|, 0);
    assert forall k :: 0 <= k < |r| ==> Matcher(s)(r[k].start) == Some(r[k].end);
    r
  }

  /** A finding's shape: a label, then `": "`, then a non-empty value free of `"` and whitespace. */
  ghost predicate IsSecretFinding(f: string) {
    var n := LabelLen(f, 0);
    n > 0 && n + 2 < |f| && f[n..n + 2] == ": " && AllValueChars(f, n + 2, |f|)
  }

  /** The text the worker sends for a match: the label as written, `": "`, then the value. */
  function Render(s: string, start: nat, x: SecretMatch): (f: string)
    requires MatchAt(s, start) == Some(x)
    ensures IsSecretFinding(f)
    ensures f[..LabelLen(f, 0)] == s[start..x.labelEnd]
    ensures f[LabelLen(f, 0) + 2..] == s[x.valueStart..x.valueEnd]
  {
    var f := s[start..x.labelEnd] + ": " + s[x.valueStart..x.valueEnd];
    var n := x.labelEnd - start;
    assert f[..n] == s[start..x.labelEnd];
    assert IsLabel(s[start..x.labelEnd]);
    assert f[0..n] == f[..n];
    assert 0 < n <= |f| && IsLabel(f[0..n]);
    assert LabelLen(f, 0) == n;
    assert f[n..n + 2] == ": ";
    assert f[n + 2..] == s[x.valueStart..x.valueEnd];
    f
  }

  /** Each reported span starts where the pattern matches. */
  lemma SpansMatch(s: string)
    ensures forall k :: 0 <= k < |Spans(s)| ==> MatchAt(s, Spans(s)[k].start).Some?
  {
    var sp := Spans(s);
    forall k | 0 <= k < |sp| ensures MatchAt(s, sp[k].start).Some? {
      assert Matcher(s)(sp[k].start).Some?;
    }
  }

  /** The secret findings of one file's content, one per reported span, in order of position. */
  function Find(s: string): (r: seq<string>)
    ensures forall f :: f in r ==> IsSecretFinding(f)
  {
    var sp := Spans(s);
    SpansMatch(s);
    seq(|sp|, k requires 0 <= k < |sp| => Render(s, sp[k].start, MatchAt(s, sp[k].start).value))
  }

  /** Each finding renders the match at the start of the corresponding reported span. */
  lemma FindRendersSpans(s: string)
    ensures |Find(s)| == |Spans(s)|
    ensures forall k :: 0 <= k < |Spans(s)| ==>
      && MatchAt(s, Spans(s)[k].start).Some?
      && Find(s)[k] == Render(s, Spans(s)[k].start, MatchAt(s, Spans(s)[k].start).value)
  {
    SpansMatch(s);
  }

  /** A secret finding holds no `"` and no line break, so each is written as exactly one line. */
  lemma FindingIsOneLine(f: string)
    requires IsSecretFinding(f)
    ensures forall k :: 0 <= k < |f| ==> f[k] != '"' && f[k] != '\n' && f[k] != '\r'
  {
    var n := LabelLen(f, 0);
    assert IsLabel(f[0..n]);
    forall k | 0 <= k < n ensures f[k] != '"' && f[k] != '\n' && f[k] != '\r' {
      assert f[k] == f[0..n][k];
    }
    forall k | n <= k < n + 2 ensures f[k] == ": "[k - n] {
      assert f[k] == f[n..n + 2][k - n];
    }
  }
}

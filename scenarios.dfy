/**
 * Worked inputs for the two patterns and for one run over a small walk, with the exact
 * findings and output files they produce.
 */
module Scenarios {
  import opened Wrappers
  import opened Text
  import FindAll
  import Secret
  import Endpoint
  import Results
  import Pipeline
  import Settings

  const KeyLine := "API_KEY=\"abcd1234\""
  const TokenLine := "token='abc'"
  const LoneQuote := "token=' x"
  const Url := "https://example.com/x"
  const Page := "visit " + Url + " and " + Url + " again"

  /** A double-quoted value: the opening quote is dropped and the closing one is consumed. */
  lemma KeyLineMatch()
    ensures Secret.MatchAt(KeyLine, 0) == Some(Secret.SecretMatch(7, 7, 9, 17, 18))
  {
    assert KeyLine[0..7] == "API_KEY";
    assert Secret.KeywordAt(KeyLine, 0, "api_key");
    assert Secret.LabelLen(KeyLine, 0) == 7;
    SkipSpacesUnique(KeyLine, 7, 7);
    SkipSpacesUnique(KeyLine, 8, 8);
    assert Secret.ValueStart(KeyLine, 8) == 9;
    assert AllValueChars(KeyLine, 9, 17);
    ValueEndUnique(KeyLine, 9, 17);
  }

  /** A match covering the whole content is the only span. */
  lemma WholeMatch(m: nat -> Option<nat>, n: nat)
    requires FindAll.Advances(m, n) && 0 < n && m(0) == Some(n)
    ensures FindAll.SpansFrom(m, n, 0) == [FindAll.Span(0, n)]
  {
  }

  lemma KeyLineSpans()
    ensures Secret.Spans(KeyLine) == [FindAll.Span(0, 18)]
  {
    KeyLineMatch();
    assert Secret.Matcher(KeyLine)(0) == Some(18);
    WholeMatch(Secret.Matcher(KeyLine), 18);
  }

  /** Content whose only reported span is a match at its start yields one finding, that match rendered. */
  lemma OneFinding(s: string, x: Secret.SecretMatch)
    requires Secret.MatchAt(s, 0) == Some(x) && Secret.Spans(s) == [FindAll.Span(0, x.end)]
    ensures Secret.Find(s) == [s[0..x.labelEnd] + ": " + s[x.valueStart..x.valueEnd]]
  {
    Secret.FindRendersSpans(s);
  }

  lemma KeyLineText()
    ensures KeyLine[0..7] + ": " + KeyLine[9..17] == "API_KEY: abcd1234"
  {
  }

  lemma TokenLineText()
    ensures TokenLine[0..5] + ": " + TokenLine[7..11] == "token: abc'"
  {
  }

  lemma KeyLineFindings()
    ensures Secret.Find(KeyLine) == ["API_KEY: abcd1234"]
  {
    KeyLineMatch();
    KeyLineSpans();
    OneFinding(KeyLine, Secret.SecretMatch(7, 7, 9, 17, 18));
    KeyLineText();
  }

  /** A single-quoted value: the opening quote is dropped, but the closing one is part of the value. */
  lemma TokenLineMatch()
    ensures Secret.MatchAt(TokenLine, 0) == Some(Secret.SecretMatch(5, 5, 7, 11, 11))
  {
    assert TokenLine[0..5] == "token";
    assert TokenLine[0..7][0] == 't';
    assert !Secret.KeywordAt(TokenLine, 0, "api_key");
    assert Secret.KeywordAt(TokenLine, 0, "token");
    assert Secret.LabelLen(TokenLine, 0) == 5;
    SkipSpacesUnique(TokenLine, 5, 5);
    SkipSpacesUnique(TokenLine, 6, 6);
    assert Secret.ValueStart(TokenLine, 6) == 7;
    assert AllValueChars(TokenLine, 7, 11);
    ValueEndUnique(TokenLine, 7, 11);
  }

  lemma TokenLineSpans()
    ensures Secret.Spans(TokenLine) == [FindAll.Span(0, 11)]
  {
    TokenLineMatch();
    assert Secret.Matcher(TokenLine)(0) == Some(11);
    WholeMatch(Secret.Matcher(TokenLine), 11);
  }

  lemma TokenLineFindings()
    ensures Secret.Find(TokenLine) == ["token: abc'"]
  {
    TokenLineMatch();
    TokenLineSpans();
    OneFinding(TokenLine, Secret.SecretMatch(5, 5, 7, 11, 11));
    TokenLineText();
  }

  /** A quote with no value character after it is itself the value. */
  lemma LoneQuoteMatch()
    ensures Secret.MatchAt(LoneQuote, 0) == Some(Secret.SecretMatch(5, 5, 6, 7, 7))
  {
    assert LoneQuote[0..5] == "token";
    assert LoneQuote[0..7][0] == 't';
    assert !Secret.KeywordAt(LoneQuote, 0, "api_key");
    assert Secret.KeywordAt(LoneQuote, 0, "token");
    assert Secret.LabelLen(LoneQuote, 0) == 5;
    SkipSpacesUnique(LoneQuote, 5, 5);
    SkipSpacesUnique(LoneQuote, 6, 6);
    assert Secret.ValueStart(LoneQuote, 6) == 6;
    assert AllValueChars(LoneQuote, 6, 7);
    ValueEndUnique(LoneQuote, 6, 7);
  }

  lemma PageGaps()
    ensures FindAll.NoMatchIn(Endpoint.Matcher(Page), 0, 6)
    ensures FindAll.NoMatchIn(Endpoint.Matcher(Page), 27, 32)
    ensures FindAll.NoMatchIn(Endpoint.Matcher(Page), 53, |Page|)
  {
    assert forall p :: 0 <= p < 6 ==> Page[p] != 'h';
    Endpoint.NoMatchWithoutH(Page, 0, 6);
    assert forall p :: 27 <= p < 32 ==> Page[p] != 'h';
    Endpoint.NoMatchWithoutH(Page, 27, 32);
    assert forall p :: 53 <= p < |Page| ==> Page[p] != 'h';
    Endpoint.NoMatchWithoutH(Page, 53, |Page|);
  }

  lemma PageFirstHit()
    ensures Endpoint.MatchAt(Page, 6) == Some(27)
  {
    assert Page[6..14] == "https://";
    assert AllValueChars(Page, 14, 27);
    ValueEndUnique(Page, 14, 27);
  }

  lemma PageSecondHit()
    ensures Endpoint.MatchAt(Page, 32) == Some(53)
  {
    assert Page[32..40] == "https://";
    assert AllValueChars(Page, 40, 53);
    ValueEndUnique(Page, 40, 53);
  }

  lemma PageSpans()
    ensures Endpoint.Spans(Page) == [FindAll.Span(6, 27), FindAll.Span(32, 53)]
  {
    var r := [FindAll.Span(6, 27), FindAll.Span(32, 53)];
    PageGaps();
    PageFirstHit();
    PageSecondHit();
    assert FindAll.ResumeAt(0, r, 0) == 0;
    assert FindAll.ResumeAt(0, r, 1) == 27;
    assert FindAll.ResumeAt(0, r, 2) == 53;
    assert FindAll.Leftmost(Endpoint.Matcher(Page), |Page|, 0, r);
    FindAll.LeftmostIsSpansFrom(Endpoint.Matcher(Page), |Page|, 0, r);
  }

  /** Content with exactly two reported spans yields the two texts they cover. */
  lemma TwoEndpoints(s: string, a: FindAll.Span, b: FindAll.Span)
    requires a.start <= a.end <= |s| && b.start <= b.end <= |s| && Endpoint.Spans(s) == [a, b]
    ensures Endpoint.Find(s) == [s[a.start..a.end], s[b.start..b.end]]
  {
    Endpoint.FindCutsSpans(s);
  }

  lemma PageCuts()
    ensures Page[6..27] == Url && Page[32..53] == Url
  {
  }

  /** Both occurrences of the URL are found, each stopping at the following space. */
  lemma PageFindings()
    ensures Endpoint.Find(Page) == [Url, Url]
  {
    PageSpans();
    TwoEndpoints(Page, FindAll.Span(6, 27), FindAll.Span(32, 53));
    PageCuts();
  }

  /** Content without the letter `h` holds no endpoint. */
  lemma NoEndpointsWithoutH(s: string)
    requires forall p :: 0 <= p < |s| ==> s[p] != 'h'
    ensures Endpoint.Find(s) == []
  {
    Endpoint.NoMatchWithoutH(s, 0, |s|);
    assert FindAll.ResumeAt(0, [], 0) == 0;
    assert FindAll.Leftmost(Endpoint.Matcher(s), |s|, 0, []);
    FindAll.LeftmostIsSpansFrom(Endpoint.Matcher(s), |s|, 0, []);
    Endpoint.FindCutsSpans(s);
  }

  lemma KeyLineNoEndpoints()
    ensures Endpoint.Find(KeyLine) == []
  {
    NoEndpointsWithoutH(KeyLine);
  }

  lemma TokenLineNoEndpoints()
    ensures Endpoint.Find(TokenLine) == []
  {
    NoEndpointsWithoutH(TokenLine);
  }

  const Walk := [
    Pipeline.File(Some(TokenLine)), Pipeline.Directory, Pipeline.File(None),
    Pipeline.File(Some(KeyLine)), Pipeline.File(Some(TokenLine)),
    Pipeline.WalkError, Pipeline.File(Some("secret: unseen"))]

  /** A walk of this shape feeds its files before the error, in order, and the unreadable one as None. */
  lemma FedFive(x: string, y: string, z: string)
    ensures Pipeline.Fed([Pipeline.File(Some(x)), Pipeline.Directory, Pipeline.File(None),
      Pipeline.File(Some(y)), Pipeline.File(Some(x)), Pipeline.WalkError, Pipeline.File(Some(z))])
      == [Some(x), None, Some(y), Some(x)]
  {
    var tail := [Pipeline.WalkError, Pipeline.File(Some(z))];
    assert Pipeline.Fed(tail) == [];
    var w4 := [Pipeline.File(Some(x))] + tail;
    assert w4[1..] == tail;
    assert Pipeline.Fed(w4) == [Some(x)] + Pipeline.Fed(tail);
    var w3 := [Pipeline.File(Some(y))] + w4;
    assert w3[1..] == w4;
    assert Pipeline.Fed(w3) == [Some(y)] + Pipeline.Fed(w4);
    var w2 := [Pipeline.File(None)] + w3;
    assert w2[1..] == w3;
    assert Pipeline.Fed(w2) == [None] + Pipeline.Fed(w3);
    var w1 := [Pipeline.Directory] + w2;
    assert w1[1..] == w2;
    assert Pipeline.Fed(w1) == Pipeline.Fed(w2);
    var w := [Pipeline.File(Some(x))] + w1;
    assert w == [Pipeline.File(Some(x)), Pipeline.Directory, Pipeline.File(None),
      Pipeline.File(Some(y)), Pipeline.File(Some(x)), Pipeline.WalkError, Pipeline.File(Some(z))];
    assert w[1..] == w1;
    assert Pipeline.Fed(w) == [Some(x)] + Pipeline.Fed(w1);
  }

  /** The walk feeds the three readable files before the error, in order, and the unreadable one as None. */
  lemma WalkFeeds()
    ensures Pipeline.Fed(Walk) == [Some(TokenLine), None, Some(KeyLine), Some(TokenLine)]
  {
    FedFive(TokenLine, KeyLine, "secret: unseen");
  }

  /** For any matcher, the findings of these four files are those of the three readable ones, in order. */
  lemma CollectFour(x: string, y: string, scan: string -> seq<string>)
    ensures Pipeline.Collect([Some(x), None, Some(y), Some(x)], scan) == scan(x) + scan(y) + scan(x)
  {
    Pipeline.CollectOne(Some(x), scan);
    Pipeline.CollectOne(Some(y), scan);
    Pipeline.CollectAppend([Some(y)], [Some(x)], scan);
    assert [Some(y)] + [Some(x)] == [Some(y), Some(x)];
    var tail := Pipeline.Collect([Some(y), Some(x)], scan);
    assert tail == scan(y) + scan(x);
    Pipeline.UnreadableFileIgnored([Some(x)], [Some(y), Some(x)], scan);
    assert [Some(x)] + [None] + [Some(y), Some(x)] == [Some(x), None, Some(y), Some(x)];
    Pipeline.CollectAppend([Some(x)], [Some(y), Some(x)], scan);
    assert [Some(x)] + [Some(y), Some(x)] == [Some(x), Some(y), Some(x)];
    assert scan(x) + (scan(y) + scan(x)) == scan(x) + scan(y) + scan(x);
  }

  /** For any matcher, the walk's findings are those of the three fed files' contents, in order. */
  lemma WalkCollects(scan: string -> seq<string>)
    ensures Pipeline.Collect(Pipeline.Fed(Walk), scan) == scan(TokenLine) + scan(KeyLine) + scan(TokenLine)
  {
    WalkFeeds();
    CollectFour(TokenLine, KeyLine, scan);
  }

  lemma ThreeFindings(found: seq<string>, p: seq<string>, q: seq<string>)
    requires found == p + q + p && p == ["token: abc'"] && q == ["API_KEY: abcd1234"]
    ensures found == ["token: abc'", "API_KEY: abcd1234", "token: abc'"]
  {
  }

  lemma WalkSecrets()
    ensures Pipeline.SecretsOf(Pipeline.Fed(Walk)) == ["token: abc'", "API_KEY: abcd1234", "token: abc'"]
  {
    WalkCollects(Secret.Find);
    KeyLineFindings();
    TokenLineFindings();
    ThreeFindings(Pipeline.SecretsOf(Pipeline.Fed(Walk)), Secret.Find(TokenLine), Secret.Find(KeyLine));
  }

  lemma WalkEndpoints()
    ensures Pipeline.EndpointsOf(Pipeline.Fed(Walk)) == []
  {
    WalkCollects(Endpoint.Find);
    KeyLineNoEndpoints();
    TokenLineNoEndpoints();
  }

  /** A line seen again later is written once, at its first position. */
  lemma DedupRepeat(x: string, y: string)
    requires x != y
    ensures Results.Dedup([x, y, x]) == [x, y]
  {
    assert [x, y, x][..2] == [x, y];
    assert [x, y][..1] == [x];
    assert [x][..0] == [];
    assert Results.Dedup([x]) == [x];
    assert Results.Dedup([x, y]) == [x, y];
  }

  lemma RenderTwo(x: string, y: string)
    ensures Results.Render([x, y]) == x + "\n" + y + "\n"
  {
    assert [x, y][1..] == [y];
    assert [y][1..] == [];
    assert Results.Render([y]) == y + "\n" + Results.Render([]);
  }

  /** The file written for three findings whose first and last coincide. */
  lemma RepeatFile(found: seq<string>, x: string, y: string)
    requires found == [x, y, x] && x != y
    ensures Results.Render(Results.Dedup(found)) == x + "\n" + y + "\n"
  {
    DedupRepeat(x, y);
    RenderTwo(x, y);
  }

  lemma SecretsFile(found: seq<string>)
    requires found == ["token: abc'", "API_KEY: abcd1234", "token: abc'"]
    ensures Results.Render(Results.Dedup(found)) == "token: abc'\nAPI_KEY: abcd1234\n"
  {
    var x, y := "token: abc'", "API_KEY: abcd1234";
    assert x[0] != y[0];
    RepeatFile(found, x, y);
  }

  lemma WalkSecretsFile()
    ensures Results.Render(Results.Dedup(Pipeline.SecretsOf(Pipeline.Fed(Walk)))) ==
      "token: abc'\nAPI_KEY: abcd1234\n"
  {
    WalkSecrets();
    SecretsFile(Pipeline.SecretsOf(Pipeline.Fed(Walk)));
  }

  lemma WalkEndpointsFile()
    ensures Results.Render(Results.Dedup(Pipeline.EndpointsOf(Pipeline.Fed(Walk)))) == ""
  {
    WalkEndpoints();
  }

  /** With neither directory given, both take the package's defaults. */
  lemma ExampleDirs()
    ensures Settings.OutputDirFor("com.example.app", "") == "com.example.app_output"
    ensures Settings.DeviceDirFor("com.example.app", "") == "/data/data/com.example.app"
  {
    assert "com.example.app" + "_output" == "com.example.app_output";
    assert "/data/data/" + "com.example.app" == "/data/data/com.example.app";
  }

  /**
   * A complete run with one parsing worker: the directories take their defaults, the repeated
   * secret is written once, nothing after the walk error is read, and the endpoints file is
   * created empty.
   */
  method ScanExample() returns (o: Pipeline.Outcome)
    ensures o == Pipeline.Completed("com.example.app_output", "/data/data/com.example.app",
      Some("token: abc'\nAPI_KEY: abcd1234\n"), Some(""))
  {
    WalkSecretsFile();
    WalkEndpointsFile();
    ExampleDirs();
    o := Pipeline.Run("app.apk", "com.example.app", "", "", Walk, true, true);
  }
}

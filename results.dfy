/**
 * `writeResults`: drain one category's findings into its output file, writing each item the
 * first time it is seen, followed by a newline.
 */
module Results {
  import opened Wrappers

  ghost predicate Distinct<T>(xs: seq<T>) {
    forall i, j :: 0 <= i < j < |xs| ==> xs[i] != xs[j]
  }

  /**
   * Order-preserving, first-occurrence deduplication, defined item by item in arrival order:
   * an item is kept when no earlier item equals it.
   */
  function Dedup(xs: seq<string>): (r: seq<string>)
    ensures forall x :: x in r <==> x in xs
    ensures Distinct(r)
    ensures |r| <= |xs|
  {
    if xs == [] then []
    else
      var d := Dedup(xs[..|xs| - 1]);
      var x := xs[|xs| - 1];
      assert forall y :: y in xs <==> y in xs[..|xs| - 1] || y == x by {
        assert xs == xs[..|xs| - 1] + [x];
      }
      if x in d then d else d + [x]
  }

  /** Position of the first occurrence of `x`. */
  function FirstIndex(xs: seq<string>, x: string): (i: nat)
    requires x in xs
    ensures i < |xs| && xs[i] == x && x !in xs[..i]
  {
    if xs[0] == x then 0
    else
      var j := FirstIndex(xs[1..], x);
      assert xs[..j + 1] == [xs[0]] + xs[1..][..j];
      j + 1
  }

  /** A first occurrence inside a prefix is the first occurrence in the whole sequence. */
  lemma FirstIndexInPrefix(xs: seq<string>, n: nat, x: string)
    requires n <= |xs| && x in xs[..n]
    ensures FirstIndex(xs, x) == FirstIndex(xs[..n], x)
  {
    var i, j := FirstIndex(xs, x), FirstIndex(xs[..n], x);
    assert xs[..n][..j] == xs[..j];
    assert forall p :: 0 <= p < j ==> xs[..j][p] == xs[p];
    assert forall p :: 0 <= p < i ==> xs[..i][p] == xs[p];
  }

  /** Kept items appear in the order of their first occurrence in the input. */
  lemma {:induction false} DedupFirstOccurrenceOrder(xs: seq<string>)
    ensures forall i, j :: 0 <= i < j < |Dedup(xs)| ==>
      FirstIndex(xs, Dedup(xs)[i]) < FirstIndex(xs, Dedup(xs)[j])
  {
    if xs != [] {
      var n := |xs| - 1;
      var p, x := xs[..n], xs[n];
      var d, r := Dedup(p), Dedup(xs);
      DedupFirstOccurrenceOrder(p);
      assert r == if x in d then d else d + [x];
      forall i, j | 0 <= i < j < |r| ensures FirstIndex(xs, r[i]) < FirstIndex(xs, r[j]) {
        assert r[i] == d[i] && d[i] in p;
        FirstIndexInPrefix(xs, n, d[i]);
        if j < |d| {
          assert r[j] == d[j] && d[j] in p;
          FirstIndexInPrefix(xs, n, d[j]);
        } else {
          assert r[j] == x && x !in p;
          assert FirstIndex(xs, x) == n;
        }
      }
    }
  }

  /** Distinct input passes through unchanged. */
  lemma {:induction false} DedupOfDistinct(xs: seq<string>)
    requires Distinct(xs)
    ensures Dedup(xs) == xs
  {
    if xs != [] {
      var n := |xs| - 1;
      DedupOfDistinct(xs[..n]);
      assert xs[n] !in xs[..n];
      assert xs == xs[..n] + [xs[n]];
    }
  }

  /** Deduplicating an already deduplicated list changes nothing. */
  lemma DedupIdempotent(xs: seq<string>)
    ensures Dedup(Dedup(xs)) == Dedup(xs)
  {
    DedupOfDistinct(Dedup(xs));
  }

  /**
   * Arrival order does not change which items are written: two arrival orders of the same
   * findings give the same set of lines.
   */
  lemma DedupArrivalOrder(xs: seq<string>, ys: seq<string>)
    requires multiset(xs) == multiset(ys)
    ensures forall x :: x in Dedup(xs) <==> x in Dedup(ys)
  {
    forall x ensures x in xs <==> x in ys {
      assert x in xs <==> x in multiset(xs);
      assert x in ys <==> x in multiset(ys);
    }
  }

  /** The file text: every line followed by a newline, as `Fprintln` writes it. */
  function Render(lines: seq<string>): (t: string)
    ensures |t| >= |lines|
    ensures lines != [] ==> |t| > 0 && t[|t| - 1] == '\n'
  {
    if lines == [] then "" else lines[0] + "\n" + Render(lines[1..])
  }

  lemma {:induction false} RenderSnoc(lines: seq<string>, x: string)
    ensures Render(lines + [x]) == Render(lines) + x + "\n"
  {
    if lines != [] {
      assert (lines + [x])[1..] == lines[1..] + [x];
      RenderSnoc(lines[1..], x);
    } else {
      assert [x][1..] == [];
    }
  }

  /** End of the line starting at `j`: the next newline, or the end of the text. */
  function LineEnd(t: string, j: nat): (k: nat)
    requires j <= |t|
    ensures j <= k <= |t| && '\n' !in t[j..k] && (k == |t| || t[k] == '\n')
    decreases |t| - j
  {
    if j == |t| || t[j] == '\n' then j
    else
      var k := LineEnd(t, j + 1);
      assert t[j..k] == [t[j]] + t[j + 1..k];
      k
  }

  /** A newline at `b` with none before it from `j` is where LineEnd stops. */
  lemma LineEndUnique(t: string, j: nat, b: nat)
    requires j <= b < |t| && '\n' !in t[j..b] && t[b] == '\n'
    ensures LineEnd(t, j) == b
  {
    var k := LineEnd(t, j);
    assert forall p :: j <= p < b ==> t[j..b][p - j] == t[p];
    assert forall p :: j <= p < k ==> t[j..k][p - j] == t[p];
  }

  /** Reading a file back as lines; a final newline does not start another line. */
  function ReadLines(t: string): (r: seq<string>)
    decreases |t|
  {
    if t == "" then []
    else
      var k := LineEnd(t, 0);
      if k == |t| then [t] else [t[..k]] + ReadLines(t[k + 1..])
  }

  /** Reading back what was written gives the written lines, when none contains a newline. */
  lemma {:induction false} ReadLinesRender(lines: seq<string>)
    requires forall l :: l in lines ==> '\n' !in l
    ensures ReadLines(Render(lines)) == lines
  {
    if lines != [] {
      var l := lines[0];
      var t := Render(lines);
      assert t == l + "\n" + Render(lines[1..]);
      assert t[..|l|] == l && t[|l|] == '\n';
      assert t[0..|l|] == l;
      LineEndUnique(t, 0, |l|);
      assert t[|l| + 1..] == Render(lines[1..]);
      ReadLinesRender(lines[1..]);
    }
  }

  /**
   * `writeResults` over the items its channel delivers. `created` is whether the output file
   * could be created; when it could not, nothing is written.
   */
  method WriteResults(created: bool, items: seq<string>) returns (file: Option<string>)
    ensures file == if created then Some(Render(Dedup(items))) else None
  {
    if !created {
      return None;
    }
    var seen: set<string> := {};
    var text := "";
    ghost var written: seq<string> := [];
    for i := 0 to |items|
      invariant written == Dedup(items[..i])
      invariant forall x :: x in seen <==> x in items[..i]
      invariant text == Render(written)
    {
      var item := items[i];
      assert items[..i + 1] == items[..i] + [item];
      if item !in seen {
        RenderSnoc(written, item);
        text := text + item + "\n";
        seen := seen + {item};
        written := written + [item];
      }
    }
    assert items[..|items|] == items;
    return Some(text);
  }

  /** Feeding the writer its own output reproduces that output. */
  lemma WriteResultsIdempotent(items: seq<string>)
    requires forall x :: x in items ==> '\n' !in x
    ensures Render(Dedup(ReadLines(Render(Dedup(items))))) == Render(Dedup(items))
  {
    ReadLinesRender(Dedup(items));
    DedupIdempotent(items);
  }
}

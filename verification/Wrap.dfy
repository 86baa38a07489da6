// The greedy line packer of the drawing, and why no packing uses fewer lines.
module Wrap {
  import opened Text

  // The text that is measured and the markup that is written.
  datatype Chunk = Chunk(plain: string, markup: string)

  const NOTE_BUDGET: nat := 108

  // Characters of one line: the chunks and the separators between them.
  function Width(g: seq<Chunk>, sep: string): nat {
    if g == [] then 0
    else if |g| == 1 then |g[0].plain|
    else |g[0].plain| + |sep| + Width(g[1..], sep)
  }

  function Markups(g: seq<Chunk>): seq<string> {
    seq(|g|, i requires 0 <= i < |g| => g[i].markup)
  }

  function Line(g: seq<Chunk>, sep: string): string {
    Join(Markups(g), sep)
  }

  function Lines(groups: seq<seq<Chunk>>, sep: string): (r: seq<string>)
    ensures |r| == |groups|
  {
    seq(|groups|, i requires 0 <= i < |groups| => Line(groups[i], sep))
  }

  function Plains(g: seq<Chunk>): seq<string> {
    seq(|g|, i requires 0 <= i < |g| => g[i].plain)
  }

  // A line, measured as it is shown, may overflow only when a single chunk does.
  predicate Fits(g: seq<Chunk>, sep: string) {
    g != [] && (|g| >= 2 ==> |Join(Plains(g), sep)| <= 108)
  }

  lemma {:induction false} WidthIs(g: seq<Chunk>, sep: string)
    ensures Width(g, sep) == |Join(Plains(g), sep)|
  {
    if |g| > 1 {
      assert Plains(g)[1..] == Plains(g[1..]);
      WidthIs(g[1..], sep);
    }
  }

  ghost predicate Packing(groups: seq<seq<Chunk>>, chunks: seq<Chunk>, sep: string) {
    Concat(groups) == chunks && forall i :: 0 <= i < |groups| ==> Fits(groups[i], sep)
  }

  // ------------------------------------------------------------------- the loop

  // The groups the loop still produces with `cur` open and `rest` unread.
  function Greedy(cur: seq<Chunk>, rest: seq<Chunk>, sep: string): seq<seq<Chunk>>
    decreases |rest|
  {
    if rest == [] then if cur == [] then [] else [cur]
    else if cur != [] && Width(cur + [rest[0]], sep) > NOTE_BUDGET then [cur] + Greedy([rest[0]], rest[1..], sep)
    else Greedy(cur + [rest[0]], rest[1..], sep)
  }

  lemma {:induction false} WidthGrows(g: seq<Chunk>, c: Chunk, sep: string)
    requires g != []
    ensures Width(g + [c], sep) == Width(g, sep) + |sep| + |c.plain|
  {
    if |g| > 1 {
      assert (g + [c])[1..] == g[1..] + [c];
      WidthGrows(g[1..], c, sep);
    } else {
      assert (g + [c])[1..] == [c];
    }
  }

  method WrapChunks(chunks: seq<Chunk>, sep: string) returns (lines: seq<string>)
    ensures lines == Lines(Greedy([], chunks, sep), sep)
  {
    lines := [];
    var plain, markup := "", [];
    ghost var done: seq<seq<Chunk>>, cur: seq<Chunk> := [], [];
    for i := 0 to |chunks|
      invariant lines == Lines(done, sep) && markup == Markups(cur)
      invariant cur != [] ==> |plain| == Width(cur, sep)
      invariant done + Greedy(cur, chunks[i..], sep) == Greedy([], chunks, sep)
    {
      var c := chunks[i];
      assert chunks[i..][0] == c && chunks[i..][1..] == chunks[i + 1..];
      var joined := if markup == [] then c.plain else plain + sep + c.plain;
      if cur != [] { WidthGrows(cur, c, sep); }
      if markup != [] && |joined| > NOTE_BUDGET {
        lines := lines + [Join(markup, sep)];
        plain, markup := c.plain, [c.markup];
        done, cur := done + [cur], [c];
      } else {
        plain, markup := joined, markup + [c.markup];
        cur := cur + [c];
      }
    }
    assert chunks[|chunks|..] == [];
    if markup != [] { lines := lines + [Join(markup, sep)]; }
  }

  // ------------------------------------------------------- it packs, in order

  lemma {:induction false} ConcatFront(g: seq<Chunk>, groups: seq<seq<Chunk>>)
    ensures Concat([g] + groups) == g + Concat(groups)
  {
    assert ([g] + groups)[1..] == groups;
  }

  lemma {:induction false} GreedyPacks(cur: seq<Chunk>, rest: seq<Chunk>, sep: string)
    requires cur == [] || Fits(cur, sep)
    ensures Packing(Greedy(cur, rest, sep), cur + rest, sep)
    decreases |rest|
  {
    if rest == [] {
      assert cur + rest == cur && [cur][1..] == [];
      assert Concat([cur]) == cur + Concat([]) == cur;
    } else if cur != [] && Width(cur + [rest[0]], sep) > NOTE_BUDGET {
      GreedyPacks([rest[0]], rest[1..], sep);
      ConcatFront(cur, Greedy([rest[0]], rest[1..], sep));
      assert [rest[0]] + rest[1..] == rest;
    } else {
      WidthIs(cur + [rest[0]], sep);
      GreedyPacks(cur + [rest[0]], rest[1..], sep);
      assert cur + [rest[0]] + rest[1..] == cur + rest;
    }
  }

  // ------------------------------------------------------------- and optimally

  lemma {:induction false} PrefixIsNarrower(g: seq<Chunk>, n: nat, sep: string)
    requires n <= |g|
    ensures Width(g[..n], sep) <= Width(g, sep)
  {
    if n > 0 && |g| > 1 {
      PrefixIsNarrower(g[1..], n - 1, sep);
      assert g[..n][1..] == g[1..][..n - 1];
    } else if |g| > 0 {
      assert n == 1 ==> g[..n] == g;
    }
  }

  lemma {:induction false} SuffixIsNarrower(g: seq<Chunk>, n: nat, sep: string)
    requires n <= |g|
    ensures Width(g[n..], sep) <= Width(g, sep)
  {
    if n > 0 {
      assert g[n..] == g[1..][n - 1..];
      SuffixIsNarrower(g[1..], n - 1, sep);
    }
  }

  // Dropping chunks off the front of a packing leaves a packing of the rest.
  lemma {:induction false} DropFront(groups: seq<seq<Chunk>>, n: nat, sep: string) returns (less: seq<seq<Chunk>>)
    requires n <= |Concat(groups)| && Packing(groups, Concat(groups), sep)
    ensures |less| <= |groups| && Packing(less, Concat(groups)[n..], sep)
    decreases |groups|
  {
    if n == 0 { return groups; }
    var g, rest := groups[0], groups[1..];
    assert Packing(rest, Concat(rest), sep);
    if n >= |g| {
      less := DropFront(rest, n - |g|, sep);
      assert Concat(groups)[n..] == Concat(rest)[n - |g|..];
    } else {
      less := [g[n..]] + rest;
      ConcatFront(g[n..], rest);
      SuffixIsNarrower(g, n, sep);
      WidthIs(g, sep);
      WidthIs(g[n..], sep);
      assert Concat(groups)[n..] == g[n..] + Concat(rest);
    }
  }

  // When the next chunk does not fit, no packing's first line reaches it either.
  lemma FirstLineStops(cur: seq<Chunk>, rest: seq<Chunk>, sep: string, other: seq<seq<Chunk>>)
    requires cur != [] && rest != [] && Width(cur + [rest[0]], sep) > NOTE_BUDGET
    requires other != [] && Packing(other, cur + rest, sep)
    ensures |other[0]| <= |cur| && other[0] == cur[..|other[0]|]
  {
    var g := other[0];
    assert Concat(other) == g + Concat(other[1..]);
    assert g == (cur + rest)[..|g|] && Fits(g, sep);
    if |g| > |cur| {
      assert g[..|cur| + 1] == cur + [rest[0]];
      PrefixIsNarrower(g, |cur| + 1, sep);
      WidthIs(g, sep);
    }
  }

  // So the chunks after the break take the other packing one line fewer.
  lemma BreakCosts(cur: seq<Chunk>, rest: seq<Chunk>, sep: string, other: seq<seq<Chunk>>)
    returns (less: seq<seq<Chunk>>)
    requires cur != [] && rest != [] && Width(cur + [rest[0]], sep) > NOTE_BUDGET
    requires Packing(other, cur + rest, sep)
    ensures |less| < |other| && Packing(less, rest, sep)
  {
    FirstLineStops(cur, rest, sep, other);
    var q, tail := |other[0]|, other[1..];
    assert Concat(other) == other[0] + Concat(tail);
    assert Concat(tail) == (cur + rest)[q..];
    less := DropFront(tail, |cur| - q, sep);
    assert (cur + rest)[q..][|cur| - q..] == rest;
  }

  lemma {:induction false} GreedyIsOptimal(cur: seq<Chunk>, rest: seq<Chunk>, sep: string, other: seq<seq<Chunk>>)
    requires Packing(other, cur + rest, sep)
    ensures |Greedy(cur, rest, sep)| <= |other|
    decreases |rest|
  {
    if rest == [] {
      assert other == [] ==> cur + rest == [];
    } else if cur != [] && Width(cur + [rest[0]], sep) > NOTE_BUDGET {
      var less := BreakCosts(cur, rest, sep, other);
      assert rest == [rest[0]] + rest[1..];
      GreedyIsOptimal([rest[0]], rest[1..], sep, less);
    } else {
      assert cur + rest == cur + [rest[0]] + rest[1..];
      GreedyIsOptimal(cur + [rest[0]], rest[1..], sep, other);
    }
  }

  // The lines are a packing of the chunks in order, and no packing has fewer.
  lemma WrapIsOptimal(chunks: seq<Chunk>, sep: string)
    ensures var groups := Greedy([], chunks, sep);
            && Packing(groups, chunks, sep)
            && forall other :: Packing(other, chunks, sep) ==> |Lines(groups, sep)| <= |other|
  {
    assert [] + chunks == chunks;
    GreedyPacks([], chunks, sep);
    forall other | Packing(other, chunks, sep) ensures |Greedy([], chunks, sep)| <= |other| {
      GreedyIsOptimal([], chunks, sep, other);
    }
  }
}

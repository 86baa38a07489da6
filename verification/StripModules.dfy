// The strippers over whole modules: the depth is carried from line to line.
module StripModules {
  import opened Text
  import opened Strippers

  datatype Module = Module(lines: seq<string>, depth: nat)

  function Cons(l: Left, m: Module): Module { Module([l.text] + m.lines, m.depth) }

  function SlowAll(lines: seq<string>, depth: nat): Module {
    if lines == [] then Module([], depth) else
    var l := Slow(lines[0], 0, depth);
    Cons(l, SlowAll(lines[1..], l.depth))
  }

  function FastAll(lines: seq<string>, depth: nat): Module {
    if lines == [] then Module([], depth) else
    var l := Fast(lines[0], 0, depth);
    Cons(l, FastAll(lines[1..], l.depth))
  }

  lemma SlowAllStep(lines: seq<string>, i: nat, depth: nat, done: seq<string>)
    requires i < |lines|
    ensures var l := Slow(lines[i], 0, depth);
            var rest := SlowAll(lines[i + 1..], l.depth);
            && SlowAll(lines[i..], depth).depth == rest.depth
            && done + SlowAll(lines[i..], depth).lines == (done + [l.text]) + rest.lines
  {
    assert lines[i..][1..] == lines[i + 1..];
  }

  lemma FastAllStep(lines: seq<string>, i: nat, depth: nat, done: seq<string>)
    requires i < |lines|
    ensures var l := Fast(lines[i], 0, depth);
            var rest := FastAll(lines[i + 1..], l.depth);
            && FastAll(lines[i..], depth).depth == rest.depth
            && done + FastAll(lines[i..], depth).lines == (done + [l.text]) + rest.lines
  {
    assert lines[i..][1..] == lines[i + 1..];
  }

  // One buffer per line, so the line count is stable.
  method SlowModule(lines: seq<string>) returns (out: seq<string>, depth: nat)
    ensures Module(out, depth) == SlowAll(lines, 0) && |out| == |lines|
  {
    out, depth := [], 0;
    ghost var goal := SlowAll(lines, 0);
    assert lines[0..] == lines;
    for i := 0 to |lines|
      invariant |out| == i
      invariant var rest := SlowAll(lines[i..], depth); Module(out + rest.lines, rest.depth) == goal
    {
      SlowAllStep(lines, i, depth, out);
      var buf, d := SlowLine(lines[i], depth);
      out, depth := out + [buf], d;
    }
    assert lines[|lines|..] == [] && out + [] == out;
  }

  method FastModule(lines: seq<string>) returns (out: seq<string>, depth: nat)
    ensures Module(out, depth) == FastAll(lines, 0) && |out| == |lines|
  {
    out, depth := [], 0;
    ghost var goal := FastAll(lines, 0);
    assert lines[0..] == lines;
    for i := 0 to |lines|
      invariant |out| == i
      invariant var rest := FastAll(lines[i..], depth); Module(out + rest.lines, rest.depth) == goal
    {
      FastAllStep(lines, i, depth, out);
      var buf, d := FastLine(lines[i], depth);
      out, depth := out + [buf], d;
    }
    assert lines[|lines|..] == [] && out + [] == out;
  }

  ghost predicate FlatAll(lines: seq<string>, depth: nat) {
    lines == [] || (Flat(lines[0], 0, depth) && FlatAll(lines[1..], Slow(lines[0], 0, depth).depth))
  }

  lemma {:induction false} FlatModulesAgree(lines: seq<string>, depth: nat)
    requires depth <= 1 && FlatAll(lines, depth)
    ensures SlowAll(lines, depth) == FastAll(lines, depth)
  {
    if lines != [] {
      FlatLinesAgree(lines[0], 0, depth);
      FastDepthIsABit(lines[0], 0, depth);
      FlatModulesAgree(lines[1..], Slow(lines[0], 0, depth).depth);
    }
  }

  lemma {:induction false} FastModuleDepthIsABit(lines: seq<string>, depth: nat)
    requires depth <= 1
    ensures FastAll(lines, depth).depth <= 1
  {
    if lines != [] {
      FastDepthIsABit(lines[0], 0, depth);
      FastModuleDepthIsABit(lines[1..], Fast(lines[0], 0, depth).depth);
    }
  }

  // Nesting: the jumper closes the outer comment at the inner end and shows what
  // follows.
  lemma NestedCommentDiffers()
    ensures SlowAll(["(*(**)x"], 0) == Module([""], 1) && FastAll(["(*(**)x"], 0) == Module(["x"], 0)
  {
    var line := "(*(**)x";
    NestedSlow();
    NestedFast();
    assert [line][1..] == [];
  }

  lemma NestedSlow()
    ensures Slow("(*(**)x", 0, 0) == Left("", 1)
  {
    var line := "(*(**)x";
    assert At(line, 0, "(*") && At(line, 2, "(*") && At(line, 4, "*)");
    assert line[6] == 'x' && !At(line, 6, "(*") && !At(line, 6, "*)");
    assert Slow(line, 6, 1) == Slow(line, 7, 1) == Left("", 1);
    AtDiffers(line, 4);
    assert Slow(line, 4, 2) == Slow(line, 6, 1);
    assert Slow(line, 2, 1) == Slow(line, 4, 2);
  }

  lemma NestedFast()
    ensures Fast("(*(**)x", 0, 0) == Left("x", 0)
  {
    NestedEnds("(*(**)x");
    FastOpens("(*(**)x", 0);
    NestedTail("(*(**)x");
  }

  // Inside, the first end is the inner one.
  lemma NestedEnds(line: string)
    requires line == "(*(**)x"
    ensures At(line, 0, "(*") && Fast(line, 2, 1) == Fast(line, 6, 0)
  {
    assert line[2] == '(' && line[4] == '*' && line[5] == ')';
    assert !At(line, 2, "*)") by { assert line[2..4][0] == '('; }
    assert !At(line, 3, "*)") by { assert line[3..5][1] == '*'; }
    assert At(line, 4, "*)");
    FastSkips(line, 2, 1);
    FastSkips(line, 3, 1);
  }

  lemma NestedTail(line: string)
    requires line == "(*(**)x"
    ensures Fast(line, 6, 0) == Left("x", 0)
  {
    FastCopies(line, 6);
    assert Fast(line, 7, 0) == Left("", 0) && [line[6]] + "" == "x";
  }

  // ------------------------------------------------------------- cutting a line short

  lemma AtCut(line: string, k: nat, i: nat, p: string)
    requires k <= |line| && |p| == 2
    ensures At(line[..k], i, p) <==> At(line, i, p) && i + 2 <= k
  {
    if i + 2 <= k { assert line[..k][i..i + 2] == line[i..i + 2]; }
  }

  lemma AtCuts(line: string, k: nat, i: nat)
    requires k <= |line|
    ensures At(line[..k], i, "(*") <==> At(line, i, "(*") && i + 2 <= k
    ensures At(line[..k], i, "*)") <==> At(line, i, "*)") && i + 2 <= k
    ensures At(line[..k], i, "\\*") <==> At(line, i, "\\*") && i + 2 <= k
  {
    AtCut(line, k, i, "(*");
    AtCut(line, k, i, "*)");
    AtCut(line, k, i, "\\*");
  }

  lemma {:induction false} FlatCut(line: string, k: nat, i: nat, depth: nat)
    requires k <= |line| && Flat(line, i, depth)
    ensures Flat(line[..k], i, depth)
    decreases |line| - i
  {
    if i < k {
      AtCuts(line, k, i);
      AtDiffers(line, i);
      if i + 1 == k {
        assert Flat(line[..k], i + 1, depth);
      } else if At(line, i, "(*") {
        FlatCut(line, k, i + 2, 1);
      } else if At(line, i, "*)") && depth > 0 {
        FlatCut(line, k, i + 2, depth - 1);
      } else if depth > 0 || !At(line, i, "\\*") {
        FlatCut(line, k, i + 1, depth);
      }
    }
  }

  // A nested opening shows: cut right after it, the counter stands at two.
  lemma {:induction false} NestingShows(line: string, i: nat, depth: nat) returns (k: nat)
    requires !Flat(line, i, depth)
    ensures i <= k <= |line| && Slow(line[..k], i, depth).depth >= 2
    decreases |line| - i
  {
    if At(line, i, "(*") && depth > 0 {
      k := i + 2;
      AtCuts(line, k, i);
      assert Slow(line[..k], i, depth) == Slow(line[..k], i + 2, depth + 1);
    } else {
      if At(line, i, "(*") {
        k := NestingShows(line, i + 2, 1);
      } else if At(line, i, "*)") && depth > 0 {
        k := NestingShows(line, i + 2, depth - 1);
      } else {
        k := NestingShows(line, i + 1, depth);
      }
      AtCuts(line, k, i);
    }
  }

  // ------------------------------------------------------------------ every prefix

  // The module up to character `k` of line `n`.
  function Cut(lines: seq<string>, n: nat, k: nat): seq<string>
    requires n < |lines| && k <= |lines[n]|
  {
    lines[..n] + [lines[n][..k]]
  }

  lemma {:induction false} FlatCutAll(lines: seq<string>, n: nat, k: nat, depth: nat)
    requires n < |lines| && k <= |lines[n]| && FlatAll(lines, depth)
    ensures FlatAll(Cut(lines, n, k), depth)
  {
    var cut := Cut(lines, n, k);
    if n == 0 {
      FlatCut(lines[0], k, 0, depth);
      assert cut == [lines[0][..k]] && cut[1..] == [];
    } else {
      assert cut[0] == lines[0] && cut[1..] == Cut(lines[1..], n - 1, k);
      FlatCutAll(lines[1..], n - 1, k, Slow(lines[0], 0, depth).depth);
    }
  }

  lemma {:induction false} NestingShowsAll(lines: seq<string>, depth: nat) returns (n: nat, k: nat)
    requires !FlatAll(lines, depth)
    ensures n < |lines| && k <= |lines[n]| && SlowAll(Cut(lines, n, k), depth).depth >= 2
  {
    if !Flat(lines[0], 0, depth) {
      n := 0;
      k := NestingShows(lines[0], 0, depth);
      var cut := Cut(lines, 0, k);
      assert cut == [lines[0][..k]] && cut[1..] == [];
    } else {
      n, k := NestingShowsAll(lines[1..], Slow(lines[0], 0, depth).depth);
      var cut := Cut(lines, n + 1, k);
      assert cut[0] == lines[0] && cut[1..] == Cut(lines[1..], n, k);
      n := n + 1;
    }
  }

  // The strippers agree, lines and depth, on every prefix of a module exactly when
  // no block comment opens inside an open one.
  lemma AgreeExactlyWithoutNesting(lines: seq<string>)
    ensures FlatAll(lines, 0) <==>
              forall n, k :: 0 <= n < |lines| && 0 <= k <= |lines[n]| ==>
                SlowAll(Cut(lines, n, k), 0) == FastAll(Cut(lines, n, k), 0)
  {
    if FlatAll(lines, 0) {
      forall n, k | 0 <= n < |lines| && 0 <= k <= |lines[n]|
        ensures SlowAll(Cut(lines, n, k), 0) == FastAll(Cut(lines, n, k), 0)
      {
        FlatCutAll(lines, n, k, 0);
        FlatModulesAgree(Cut(lines, n, k), 0);
      }
    } else {
      var n, k := NestingShowsAll(lines, 0);
      FastModuleDepthIsABit(Cut(lines, n, k), 0);
      assert SlowAll(Cut(lines, n, k), 0) != FastAll(Cut(lines, n, k), 0);
    }
  }
}

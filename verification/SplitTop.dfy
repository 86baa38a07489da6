// Cutting an expression at its top-level commas, the one parser primitive the
// `cfg` evaluator and the `cfg_attr` desugaring share.
module SplitTop {
  import opened Text

  function Nest(c: char): int {
    if c == '(' then 1 else if c == ')' then -1 else 0
  }

  // The parts of `s` when the scan enters it at parenthesis depth `depth`.
  function SplitFrom(s: string, depth: int): (parts: seq<string>)
    ensures |parts| >= 1
  {
    if s == "" then [""] else
    var d := depth + Nest(s[0]);
    var rest := SplitFrom(s[1..], d);
    if s[0] == ',' && d == 0 then [""] + rest else [[s[0]] + rest[0]] + rest[1..]
  }

  // What the loop will return: the parts cut so far, the open part `head`, and
  // the parts the unread text still gives.
  ghost function Glue(parts: seq<string>, head: string, rest: seq<string>): seq<string>
    requires rest != []
  {
    parts + [head + rest[0]] + rest[1..]
  }

  // One iteration: reading `expr[index]` moves it out of the unread text.
  lemma GlueStep(expr: string, parts: seq<string>, start: nat, index: nat, depth: int)
    requires start <= index < |expr|
    ensures var c := expr[index];
            var d := depth + Nest(c);
            Glue(parts, expr[start..index], SplitFrom(expr[index..], depth)) ==
            if c == ',' && d == 0 then
              Glue(parts + [expr[start..index]], "", SplitFrom(expr[index + 1..], d))
            else
              Glue(parts, expr[start..index + 1], SplitFrom(expr[index + 1..], d))
  {
    var c, head := expr[index], expr[start..index];
    assert expr[index..][1..] == expr[index + 1..];
    var rest := SplitFrom(expr[index + 1..], depth + Nest(c));
    assert head + "" == head && "" + rest[0] == rest[0];
    assert head + ([c] + rest[0]) == expr[start..index + 1] + rest[0];
  }

  // The loop of the source: `depth` and `start` move, a part is cut per comma.
  method Split(expr: string) returns (parts: seq<string>)
    ensures parts == SplitFrom(expr, 0)
  {
    parts := [];
    var depth, start, index := 0, 0, 0;
    GlueEnds(expr, []);
    while index < |expr|
      invariant 0 <= start <= index <= |expr|
      invariant Glue(parts, expr[start..index], SplitFrom(expr[index..], depth)) == SplitFrom(expr, 0)
    {
      GlueStep(expr, parts, start, index, depth);
      depth := depth + Nest(expr[index]);
      if expr[index] == ',' && depth == 0 {
        parts := parts + [expr[start..index]];
        start := index + 1;
        assert expr[start..index + 1] == "";
      }
      index := index + 1;
    }
    assert expr[index..] == "" && expr[start..index] == expr[start..];
    GlueEnds(expr[start..], parts);
    parts := parts + [expr[start..]];
  }

  lemma GlueEnds(s: string, parts: seq<string>)
    ensures s[0..] == s && Glue([], "", SplitFrom(s, 0)) == SplitFrom(s, 0)
    ensures Glue(parts, s, [""]) == parts + [s]
  {
    var all := SplitFrom(s, 0);
    assert "" + all[0] == all[0] && s + "" == s;
  }

  // Depth after reading `s`, and whether reading it cuts anywhere.
  function Net(s: string, depth: int): int {
    if s == "" then depth else Net(s[1..], depth + Nest(s[0]))
  }

  predicate Uncut(s: string, depth: int) {
    s == "" || (!(s[0] == ',' && depth == 0) && Uncut(s[1..], depth + Nest(s[0])))
  }

  // Joining the parts with commas gives the expression back: nothing is lost.
  lemma {:induction false} SplitLosesNothing(s: string, depth: int)
    ensures Join(SplitFrom(s, depth), ",") == s
  {
    if s != "" {
      var d := depth + Nest(s[0]);
      SplitLosesNothing(s[1..], d);
      var rest := SplitFrom(s[1..], d);
      var all := SplitFrom(s, depth);
      if s[0] == ',' && d == 0 {
        assert all[1..] == rest;
      } else {
        assert all[1..] == rest[1..];
        assert s == [s[0]] + s[1..];
        if |rest| > 1 {
          assert [s[0]] + rest[0] + "," + Join(rest[1..], ",") == [s[0]] + (rest[0] + "," + Join(rest[1..], ","));
        }
      }
    }
  }

  lemma {:induction false} SplitSkips(p: string, q: string, depth: int)
    requires Uncut(p, depth)
    ensures var rest := SplitFrom(q, Net(p, depth));
            SplitFrom(p + q, depth) == [p + rest[0]] + rest[1..]
  {
    if p == "" {
      assert p + q == q;
      var rest := SplitFrom(q, depth);
      assert "" + rest[0] == rest[0];
    } else {
      var d := depth + Nest(p[0]);
      assert (p + q)[1..] == p[1..] + q;
      SplitSkips(p[1..], q, d);
      var rest := SplitFrom(q, Net(p, depth));
      assert [p[0]] + (p[1..] + rest[0]) == p + rest[0] by { assert p == [p[0]] + p[1..]; }
    }
  }

  // `s` keeps the depth it was entered at and is cut nowhere, from any depth.
  ghost predicate Even(s: string) {
    forall d: nat :: Level(s, d)
  }

  ghost predicate Inside(s: string) {
    forall d: nat :: d > 0 ==> Level(s, d)
  }

  predicate Level(s: string, d: nat) {
    Net(s, d) == d && Uncut(s, d)
  }

  lemma {:induction false} NetConcat(p: string, q: string, d: int)
    ensures Net(p + q, d) == Net(q, Net(p, d))
    ensures Uncut(p + q, d) <==> Uncut(p, d) && Uncut(q, Net(p, d))
  {
    if p == "" {
      assert p + q == q;
    } else {
      assert (p + q)[1..] == p[1..] + q;
      NetConcat(p[1..], q, d + Nest(p[0]));
    }
  }

  lemma EvenConcat(p: string, q: string)
    requires Even(p) && Even(q)
    ensures Even(p + q)
  {
    forall d: nat ensures Level(p + q, d) {
      NetConcat(p, q, d);
      assert Level(p, d) && Level(q, d);
    }
  }

  lemma InsideConcat(p: string, q: string)
    requires Inside(p) && Inside(q)
    ensures Inside(p + q)
  {
    forall d: nat | d > 0 ensures Level(p + q, d) {
      NetConcat(p, q, d);
      assert Level(p, d) && Level(q, d);
    }
  }

  lemma EvenParens(s: string)
    requires Inside(s)
    ensures Even("(" + s + ")")
  {
    forall d: nat ensures Level("(" + s + ")", d) {
      NetConcat("(" + s, ")", d);
      NetConcat("(", s, d);
      assert Level(s, d + 1);
      assert Net("(", d) == d + 1 && Net(")", d + 1) == d;
    }
  }

  lemma {:induction false} PlainIsEven(s: string)
    requires forall i :: 0 <= i < |s| ==> s[i] !in "(),"
    ensures Even(s)
  {
    forall d: nat ensures Level(s, d) {
      PlainIsLevel(s, d);
    }
  }

  lemma {:induction false} PlainIsLevel(s: string, d: nat)
    requires forall i :: 0 <= i < |s| ==> s[i] !in "(),"
    ensures Level(s, d)
  {
    if s != "" {
      assert s[0] !in "(),";
      PlainIsLevel(s[1..], d);
    }
  }

  lemma CommaInside()
    ensures Inside(",")
  {
    forall d: nat | d > 0 ensures Level(",", d) {
      assert ","[1..] == "";
      assert Net(",", d) == Net("", d) && Uncut(",", d) == Uncut("", d);
    }
  }

  lemma {:induction false} JoinInside(parts: seq<string>)
    requires forall i :: 0 <= i < |parts| ==> Inside(parts[i])
    ensures Inside(Join(parts, ","))
  {
    if |parts| > 1 {
      JoinInside(parts[1..]);
      CommaInside();
      InsideConcat(parts[0], ",");
      InsideConcat(parts[0] + ",", Join(parts[1..], ","));
    }
  }

  // The inverse law: splitting a comma-join of even parts returns the parts.
  lemma {:induction false} SplitInvertsJoin(parts: seq<string>)
    requires parts != []
    requires forall i :: 0 <= i < |parts| ==> Even(parts[i])
    ensures SplitFrom(Join(parts, ","), 0) == parts
  {
    var p := parts[0];
    assert Even(p) && Level(p, 0);
    if |parts| == 1 {
      assert p + "" == p;
      SplitSkips(p, "", 0);
    } else {
      var q := Join(parts[1..], ",");
      SplitInvertsJoin(parts[1..]);
      assert Join(parts, ",") == p + ("," + q);
      SplitSkips(p, "," + q, 0);
      assert ("," + q)[1..] == q;
      assert SplitFrom("," + q, 0) == [""] + parts[1..];
    }
  }

  // ------------------------------------------------- parts that are cut themselves

  lemma {:induction false} OnePiece(s: string, depth: int)
    ensures |SplitFrom(s, depth)| == 1 <==> Uncut(s, depth)
    ensures Uncut(s, depth) ==> SplitFrom(s, depth) == [s]
  {
    if s != "" {
      OnePiece(s[1..], depth + Nest(s[0]));
      assert s == [s[0]] + s[1..];
    }
  }

  lemma {:induction false} NetShifts(s: string, d: int, e: int)
    ensures Net(s, d) - d == Net(s, e) - e
  {
    if s != "" { NetShifts(s[1..], d + Nest(s[0]), e + Nest(s[0])); }
  }

  lemma InsideBalances(s: string)
    requires Inside(s)
    ensures Net(s, 0) == 0 && (Uncut(s, 0) ==> Even(s))
  {
    assert Level(s, 1);
    NetShifts(s, 1, 0);
  }

  lemma {:induction false} SplitAtComma(p: string, q: string, depth: int)
    requires Net(p, depth) == 0
    ensures SplitFrom(p + ("," + q), depth) == SplitFrom(p, depth) + SplitFrom(q, 0)
  {
    var t := p + ("," + q);
    if p == "" {
      assert t == "," + q && t[1..] == q;
    } else {
      assert t[1..] == p[1..] + ("," + q);
      SplitAtComma(p[1..], q, depth + Nest(p[0]));
    }
  }

  // Each text cut by itself.
  function Cuts(texts: seq<string>): seq<string> {
    if texts == [] then [] else SplitFrom(texts[0], 0) + Cuts(texts[1..])
  }

  // The general law: a comma-join of balanced texts is cut into what each text is
  // cut into.
  lemma {:induction false} SplitOfJoin(texts: seq<string>)
    requires texts != [] && forall i :: 0 <= i < |texts| ==> Net(texts[i], 0) == 0
    ensures SplitFrom(Join(texts, ","), 0) == Cuts(texts)
  {
    if |texts| == 1 {
      assert Cuts(texts) == SplitFrom(texts[0], 0) + [];
    } else {
      var q := Join(texts[1..], ",");
      assert Join(texts, ",") == texts[0] + ("," + q);
      SplitAtComma(texts[0], q, 0);
      SplitOfJoin(texts[1..]);
    }
  }

  lemma {:induction false} CutsConcat(a: seq<string>, b: seq<string>)
    ensures Cuts(a + b) == Cuts(a) + Cuts(b)
  {
    if a == [] {
      assert a + b == b;
    } else {
      assert (a + b)[1..] == a[1..] + b;
      CutsConcat(a[1..], b);
    }
  }

  lemma {:induction false} PartsAreShorter(s: string, depth: int)
    ensures forall p :: p in SplitFrom(s, depth) ==> |p| <= |s|
  {
    if s != "" {
      PartsAreShorter(s[1..], depth + Nest(s[0]));
    }
  }
}

// Quoted values, which the comma cutter does not see as such: how one is misread as an
// operand, and exactly which are not.
module CfgQuotes {
  import opened Text
  import opened Cfg
  import opened CfgLaws

  // Pieces between commas that carry no parenthesis are read as atoms, whatever
  // they are.
  ghost predicate Piece(p: string) {
    Trimmed(PySpace, p) && forall i :: 0 <= i < |p| ==> p[i] !in "(),"
  }

  lemma {:induction false} PiecesAreKept(parts: seq<string>)
    requires forall i :: 0 <= i < |parts| ==> Piece(parts[i])
    ensures NonBlank(parts) == parts
  {
    if parts != [] {
      StripPadded(PySpace, "", parts[0], "");
      assert "" + parts[0] + "" == parts[0];
      PiecesAreKept(parts[1..]);
    }
  }

  lemma PieceIsAtom(p: string, shippable: set<string>)
    requires Piece(p)
    ensures CfgHolds(p, shippable) != Raises
    ensures p == "test" ==> CfgHolds(p, shippable) == No
  {
    StripPadded(PySpace, "", p, "");
    assert "" + p + "" == p;
    if |p| > 3 {
      assert p[..4][3] != '(' && "all("[3] == "any("[3] == "not("[3] == '(';
    }
  }

  // `all(text)` and its like, whatever the text is and whatever its last character:
  // that one is dropped unread.
  lemma LastIsUnread(op: Op, text: string, last: char, shippable: set<string>)
    requires !PySpace(last)
    ensures CfgHolds(OpName(op) + "(" + text + [last], shippable) ==
            Combine(op, Verdicts(NonBlank(SplitTop.SplitFrom(text, 0)), shippable))
  {
    var expr := OpName(op) + "(" + text + [last];
    OperatorText(op, text, last);
    OpPrefix(expr, op);
    HeldIsVerdicts(Operands(expr), shippable, |expr|);
  }

  lemma OperatorOnText(op: Op, text: string, shippable: set<string>)
    ensures CfgHolds(OpName(op) + "(" + text + ")", shippable) ==
            Combine(op, Verdicts(NonBlank(SplitTop.SplitFrom(text, 0)), shippable))
  {
    LastIsUnread(op, text, ')', shippable);
  }

  lemma OperatorText(op: Op, text: string, last: char)
    requires !PySpace(last)
    ensures var expr := OpName(op) + "(" + text + [last];
            Strip(PySpace, expr) == expr && expr[..4] == OpName(op) + "(" && expr[4..|expr| - 1] == text
  {
    var expr := OpName(op) + "(" + text + [last];
    StripPadded(PySpace, "", expr, "");
    assert "" + expr + "" == expr;
  }

  lemma {:induction false} AtomVerdicts(parts: seq<string>, shippable: set<string>)
    requires forall i :: 0 <= i < |parts| ==> Piece(parts[i])
    ensures Raises !in Verdicts(parts, shippable) && ("test" in parts ==> No in Verdicts(parts, shippable))
  {
    if parts != [] {
      PieceIsAtom(parts[0], shippable);
      AtomVerdicts(parts[1..], shippable);
    }
  }

  lemma PiecesWithTest(parts: seq<string>, shippable: set<string>)
    requires forall i :: 0 <= i < |parts| ==> Piece(parts[i])
    requires "test" in parts
    ensures CfgHolds("all" + "(" + Join(parts, ",") + ")", shippable) == No
  {
    forall i | 0 <= i < |parts| ensures SplitTop.Even(parts[i]) {
      SplitTop.PlainIsEven(parts[i]);
    }
    SplitTop.SplitInvertsJoin(parts);
    PiecesAreKept(parts);
    OperatorOnText(AllOf, Join(parts, ","), shippable);
    AtomVerdicts(parts, shippable);
  }

  // The cutter does not see quotes: a comma inside a value splits it, and a piece
  // that spells `test` withholds a gate some admissible build satisfies.
  lemma QuotedCommaIsMisread()
    ensures var t := Combo("", AllOf, "", [Pair("", "o", "", "", "a,test,b", "")], None, "");
            && CfgHolds(Render(t), {}) == No
            && Admissible({Setting("o", "a,test,b")}, {}) && Sat({Setting("o", "a,test,b")}, t)
  {
    var x := Pair("", "o", "", "", "a,test,b", "");
    var parts := ["o=\"a", "test", "b\""];
    JoinOfThree(parts[0], parts[1], parts[2]);
    QuotedText();
    RenderOp(AllOf, [x]);
    assert RenderAll([x]) == [Render(x)];
    forall i | 0 <= i < |parts| ensures Piece(parts[i]) { }
    PiecesWithTest(parts, {});
    SatAllOf({Setting("o", "a,test,b")}, x);
  }

  // The family: a cut value with balanced parentheses is left free by both `all` and
  // `any` exactly when none of its fragments passes for something definite.
  lemma QuotedValueIsFreeExactly(p: Src)
    requires p.Pair? && Legal(p) && SplitTop.Inside(p.value) && Cut(p)
    ensures (forall op :: op != NotOf ==> CfgHolds(Render(Combo("", op, "", [p], None, "")), {}) == Free) <==> Fits(p)
  {
    var rest := Verdicts(NonBlank(Fragments(p)), {});
    forall op { OneOperand(op, p); }
    BothFree(rest);
    FragmentsFit(p);
    assert AllOf != NotOf && AnyOf != NotOf;
  }

  lemma BothFree(rest: seq<Verdict>)
    ensures Combine(AllOf, [Free] + rest) == Free && Combine(AnyOf, [Free] + rest) == Free <==> Only(rest, Free)
  {
    var held := [Free] + rest;
    assert held[0] == Free && Free in held;
    if !Only(rest, Free) {
      var i :| 0 <= i < |rest| && rest[i] != Free;
      assert held[i + 1] == rest[i] && rest[i] in held;
    }
  }

  lemma FragmentsFit(p: Src)
    requires p.Pair? && SplitTop.Inside(p.value)
    ensures Only(Verdicts(NonBlank(Fragments(p)), {}), Free) <==> Fits(p)
  {
    if Fits(p) { QuietVerdicts(Fragments(p), {}); } else { LoudVerdict(Fragments(p)); }
  }

  lemma OneOperand(op: Op, p: Src)
    requires p.Pair? && Legal(p) && Cut(p)
    ensures CfgHolds(Render(Combo("", op, "", [p], None, "")), {}) ==
            Combine(op, [Free] + Verdicts(NonBlank(Fragments(p)), {}))
  {
    RenderOp(op, [p]);
    assert RenderAll([p]) == [Render(p)];
    OperatorOnText(op, Render(p), {});
    var first := SplitTop.SplitFrom(p.value + ("\"" + p.trail), 0)[0];
    RenderSplits(p);
    FirstStopsInside(p, first);
    FirstIsFree(p, first, {});
    NonBlankSplits(p.lead + Head(p) + first, Fragments(p), {});
  }

  lemma {:induction false} LoudVerdict(texts: seq<string>)
    requires exists i :: 0 <= i < |texts| && !Quiet(texts[i])
    ensures exists v :: v in Verdicts(NonBlank(texts), {}) && v != Free
  {
    if Quiet(texts[0]) {
      var i :| 0 <= i < |texts| && !Quiet(texts[i]);
      assert texts[1..][i - 1] == texts[i];
      LoudVerdict(texts[1..]);
      var v :| v in Verdicts(NonBlank(texts[1..]), {}) && v != Free;
      assert v in Verdicts(NonBlank(texts), {});
    } else {
      assert CfgHolds(texts[0], {}) in Verdicts(NonBlank(texts), {});
    }
  }

  // ---------------------------------------------------- values without parentheses

  lemma {:induction false} NoParensIsInside(s: string)
    requires '(' !in s && ')' !in s
    ensures SplitTop.Inside(s)
  {
    forall d: nat | d > 0 ensures SplitTop.Level(s, d) { NoParensIsLevel(s, d); }
  }

  lemma {:induction false} NoParensIsLevel(s: string, d: nat)
    requires '(' !in s && ')' !in s && d > 0
    ensures SplitTop.Level(s, d)
  {
    if s != "" {
      assert s[0] in s;
      NoParensIsLevel(s[1..], d);
    }
  }

  // `p` stands in `s` at offset `o`, character by character.
  ghost predicate Slice(p: string, s: string, o: nat) {
    o + |p| <= |s| && forall j :: 0 <= j < |p| ==> p[j] == s[o + j]
  }

  lemma {:induction false} PieceIsSlice(s: string, depth: int, i: nat) returns (o: nat)
    requires i < |SplitTop.SplitFrom(s, depth)|
    ensures Slice(SplitTop.SplitFrom(s, depth)[i], s, o) && (i == 0 ==> o == 0)
  {
    o := 0;
    if s != "" {
      var d := depth + SplitTop.Nest(s[0]);
      var cut := s[0] == ',' && d == 0;
      if !cut || i > 0 {
        var k := PieceIsSlice(s[1..], d, if cut then i - 1 else i);
        if i > 0 { o := k + 1; }
      }
    }
  }

  lemma StripIsSlice(sp: char -> bool, s: string) returns (o: nat)
    ensures Slice(Strip(sp, s), s, o)
  {
    var t := StripLeft(sp, s);
    StripLeftIsSuffix(sp, s);
    StripRightShape(sp, t);
    o := |s| - |t|;
  }

  lemma FragmentIsPlain(s: Src, i: nat)
    requires s.Pair? && Legal(s) && '(' !in s.value && ')' !in s.value && i < |Fragments(s)|
    ensures Quiet(Fragments(s)[i]) <==> Strip(PySpace, Fragments(s)[i]) !in NEVER_SHIPPED
  {
    var q, f := s.value + ("\"" + s.trail), Fragments(s)[i];
    var expr := Strip(PySpace, f);
    var o := PieceIsSlice(q, 0, i + 1);
    var k := StripIsSlice(PySpace, f);
    forall j | 0 <= j < |expr| ensures expr[j] != '(' && (expr[j] == '"' ==> o + k + j == |s.value|) {
      assert expr[j] == f[k + j] == q[o + k + j];
      CharsOfValue(s, o + k + j);
    }
    AtomIsPlain(expr, if |s.value| >= o + k then |s.value| - o - k else 0);
  }

  lemma CharsOfValue(s: Src, j: nat)
    requires s.Pair? && Legal(s) && '(' !in s.value && j < |s.value + ("\"" + s.trail)|
    ensures var q := s.value + ("\"" + s.trail); q[j] != '(' && (q[j] == '"' ==> j == |s.value|)
  {
    if j < |s.value| {
      assert s.value[j] in s.value;
    } else if j > |s.value| {
      assert PySpace(s.trail[j - |s.value| - 1]);
    }
  }

  lemma AtomIsPlain(expr: string, k: nat)
    requires expr == "" || Trimmed(PySpace, expr)
    requires forall j :: 0 <= j < |expr| ==> expr[j] != '(' && (expr[j] == '"' ==> j == k)
    ensures NoCombinator(expr) && (CfgAtom(expr, {}) == Free <==> expr !in NEVER_SHIPPED)
  {
    FourthIsNoParen(expr);
    StripPadded(PySpace, "", expr, "");
    assert "" + expr + "" == expr;
    OneQuoteNamesNothing(expr, k);
  }

  // A quoted value without parentheses is fit to be an operand exactly when no piece
  // of it after its first comma reads `test` or `kani`.
  lemma PlainValueFitsExactly(s: Src)
    requires s.Pair? && Legal(s) && '(' !in s.value && ')' !in s.value
    ensures Fits(s) <==>
              forall i :: 0 <= i < |Fragments(s)| ==> Strip(PySpace, Fragments(s)[i]) !in NEVER_SHIPPED
  {
    NoParensIsInside(s.value);
    forall i | 0 <= i < |Fragments(s)|
      ensures Quiet(Fragments(s)[i]) <==> Strip(PySpace, Fragments(s)[i]) !in NEVER_SHIPPED
    {
      FragmentIsPlain(s, i);
    }
  }

  // ------------------------------------------------------- parentheses in a value

  // Parentheses that balance the wrong way round open the operator they stand in:
  // under any key, a gate some admissible build satisfies is withheld.
  lemma UnbalancedValueIsMisread(key: string)
    requires Ident(key) && key != "feature"
    ensures var v := "),test,(";
            var t := Combo("", AllOf, "", [Combo("", AnyOf, "", [Pair("", key, "", "", v, "")], None, "")], None, "");
            && CfgHolds(Render(t), {}) == No
            && Admissible({Setting(key, v)}, {}) && Sat({Setting(key, v)}, t)
  {
    var x := Pair("", key, "", "", "),test,(", "");
    var y := Combo("", AnyOf, "", [x], None, "");
    var p := key + "=\"";
    RenderOp(AnyOf, [x]);
    RenderOp(AllOf, [y]);
    assert RenderAll([x]) == [Render(x)] && RenderAll([y]) == [Render(y)];
    UnbalancedText(key);
    KeyIsPiece(key);
    WrongWayRound(p, "test", "(\")", Render(y));
    SatAnyOf({Setting(key, "),test,(")}, x);
    SatAllOf({Setting(key, "),test,(")}, y);
  }

  lemma UnbalancedText(key: string)
    ensures "any" + "(" + Render(Pair("", key, "", "", "),test,(", "")) + ")" ==
            "any" + "(" + (key + "=\"") + ")" + ("," + ("test" + ("," + "(\")")))
  {
    PairText(key, "),test,(");
    ClosingText();
    Regroup(key + "=\"", "),test,(" + "\"", "," + ("test" + ("," + "(\")")));
  }

  lemma PairText(key: string, v: string)
    ensures Render(Pair("", key, "", "", v, "")) == (key + "=\"") + (v + "\"")
  {}

  lemma ClosingText()
    ensures ("),test,(" + "\"") + ")" == ")" + ("," + ("test" + ("," + "(\")")))
  {}

  lemma Regroup(p: string, v: string, w: string)
    requires v + ")" == ")" + w
    ensures "any" + "(" + (p + v) + ")" == "any" + "(" + p + ")" + w
  {
    assert "any" + "(" + (p + v) + ")" == "any" + "(" + p + (v + ")");
  }

  lemma KeyIsPiece(key: string)
    requires Ident(key)
    ensures Piece(key + "=\"")
  {
    var p := key + "=\"";
    forall i | 0 <= i < |p| ensures p[i] !in "()," {
      if i < |key| { assert IdentChar(key[i]); }
    }
    assert p[0] == key[0] && IdentChar(key[0]);
  }

  lemma WrongWayRound(p: string, b: string, c: string, text: string)
    requires Piece(p) && Piece(b) && b == "test" && c == "(\")"
    requires text == "any" + "(" + p + ")" + ("," + (b + ("," + c)))
    ensures CfgHolds("all" + "(" + text + ")", {}) == No
  {
    OperatorOnText(AllOf, text, {});
    UnbalancedPieces("any" + "(" + p + ")", b, c, p);
    UnbalancedVerdicts(p, b, c);
  }

  lemma UnbalancedPieces(a: string, b: string, c: string, p: string)
    requires Piece(p) && Piece(b) && a == "any" + "(" + p + ")" && c == "(\")"
    ensures NonBlank(SplitTop.SplitFrom(a + ("," + (b + ("," + c))), 0)) == [a] + ([b] + [c])
  {
    OneLevel(a, b, c, p);
    LevelPieces(a, b, c);
    assert a[0] == 'a' && a[|a| - 1] == ')';
    KeptAlone(a);
    KeptAlone(b);
    KeptAlone(c);
    NonBlankConcat([b], [c]);
    NonBlankConcat([a], [b] + [c]);
  }

  lemma LevelPieces(a: string, b: string, c: string)
    requires SplitTop.Level(a, 0) && SplitTop.Level(b, 0) && SplitTop.Level(c, 0)
    ensures SplitTop.SplitFrom(a + ("," + (b + ("," + c))), 0) == [a] + ([b] + [c])
  {
    SplitTop.SplitAtComma(b, c, 0);
    SplitTop.SplitAtComma(a, b + ("," + c), 0);
    SplitTop.OnePiece(a, 0);
    SplitTop.OnePiece(b, 0);
    SplitTop.OnePiece(c, 0);
  }

  lemma OneLevel(a: string, b: string, c: string, p: string)
    requires Piece(p) && Piece(b) && a == "any" + "(" + p + ")" && c == "(\")"
    ensures SplitTop.Level(a, 0) && SplitTop.Level(b, 0) && SplitTop.Level(c, 0)
  {
    SplitTop.PlainIsEven(b);
    SplitTop.PlainIsEven(p);
    SplitTop.PlainIsEven("\"");
    SplitTop.PlainIsEven("any");
    EvenIsInside(p);
    EvenIsInside("\"");
    SplitTop.EvenParens(p);
    SplitTop.EvenParens("\"");
    SplitTop.EvenConcat("any", "(" + p + ")");
    assert "any" + ("(" + p + ")") == a && "(" + "\"" + ")" == c;
  }

  lemma KeptAlone(p: string)
    requires Trimmed(PySpace, p)
    ensures NonBlank([p]) == [p]
  {
    StripPadded(PySpace, "", p, "");
    assert "" + p + "" == p && [p][1..] == [];
  }

  lemma UnbalancedVerdicts(p: string, b: string, c: string)
    requires Piece(p) && Piece(b) && b == "test" && Trimmed(PySpace, c) && |c| < 4
    ensures Combine(AllOf, Verdicts(["any" + "(" + p + ")"] + ([b] + [c]), {})) == No
  {
    PieceIsAtom(b, {});
    OpenedAny(p);
    NeverRaisesAlone(c);
    NoAmong("any" + "(" + p + ")", b, c);
  }

  lemma NoAmong(a: string, b: string, c: string)
    requires CfgHolds(a, {}) != Raises && CfgHolds(b, {}) == No && CfgHolds(c, {}) != Raises
    ensures Combine(AllOf, Verdicts([a] + ([b] + [c]), {})) == No
  {
    VerdictsConcat([b], [c], {});
    VerdictsConcat([a], [b] + [c], {});
    VerdictAlone(a);
    VerdictAlone(b);
    VerdictAlone(c);
    NoDecides(CfgHolds(a, {}), CfgHolds(c, {}));
  }

  lemma NoDecides(v: Verdict, w: Verdict)
    requires v != Raises && w != Raises
    ensures Combine(AllOf, [v] + ([No] + [w])) == No
  {
    assert ([v] + ([No] + [w]))[1] == No;
  }

  lemma OpenedAny(p: string)
    requires Piece(p)
    ensures CfgHolds("any" + "(" + p + ")", {}) != Raises
  {
    PieceIsAtom(p, {});
    OperatorOnText(AnyOf, p, {});
    SplitTop.PlainIsEven(p);
    assert SplitTop.Level(p, 0);
    SplitTop.OnePiece(p, 0);
    KeptAlone(p);
    VerdictAlone(p);
  }

  lemma VerdictAlone(p: string)
    ensures Verdicts([p], {}) == [CfgHolds(p, {})]
  {
    assert [p][1..] == [];
  }

  lemma NeverRaisesAlone(p: string)
    requires Trimmed(PySpace, p) && |p| < 4
    ensures CfgHolds(p, {}) != Raises
  {
    StripPadded(PySpace, "", p, "");
    assert "" + p + "" == p;
  }

  lemma SatAnyOf(c: Config, x: Src)
    requires Sat(c, x)
    ensures Sat(c, Combo("", AnyOf, "", [x], None, ""))
  {
    assert Combo("", AnyOf, "", [x], None, "").parts[0] == x;
  }

  lemma JoinOfThree(a: string, b: string, c: string)
    ensures Join([a, b, c], ",") == a + "," + (b + "," + c)
  {
    assert [a, b, c][1..] == [b, c] && [b, c][1..] == [c];
    assert Join([b, c], ",") == b + "," + Join([c], ",");
  }

  lemma QuotedText()
    ensures Render(Pair("", "o", "", "", "a,test,b", "")) == "o=\"a" + "," + ("test" + "," + "b\"")
  {
    assert Core(Pair("", "o", "", "", "a,test,b", "")) == "o=\"a,test,b\"";
  }

  lemma SatAllOf(c: Config, x: Src)
    requires Sat(c, x)
    ensures Sat(c, Combo("", AllOf, "", [x], None, ""))
  {
    assert Combo("", AllOf, "", [x], None, "").parts[0] == x;
  }
}

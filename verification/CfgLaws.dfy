// What the `cfg` evaluator is for: it reads every legal spelling as its syntax
// tree, its False is never wrong about any admissible build, and a larger set of
// shippable features can only make an answer less definite.
module CfgLaws {
  import opened Text
  import opened SplitTop
  import opened Cfg

  // ------------------------------------------------------- spellings are read back

  lemma PadIsEven(pad: string)
    requires AllIn(PySpace, pad)
    ensures Even(pad)
  {
    forall i | 0 <= i < |pad| ensures pad[i] !in "()," {
      assert PySpace(pad[i]);
    }
    PlainIsEven(pad);
  }

  lemma IdentIsEven(name: string)
    requires Ident(name)
    ensures Even(name) && Trimmed(PySpace, name)
  {
    forall i | 0 <= i < |name| ensures name[i] !in "()," {
      assert IdentChar(name[i]);
    }
    PlainIsEven(name);
    assert IdentChar(name[0]) && IdentChar(name[|name| - 1]);
  }

  // A key/value predicate up to and including the opening quote.
  ghost function Head(s: Src): string
    requires s.Pair?
  {
    s.key + s.g1 + "=" + s.g2 + "\""
  }

  lemma HeadIsEven(s: Src)
    requires s.Pair? && Legal(s)
    ensures Even(Head(s)) && Head(s)[0] == s.key[0] && !PySpace(Head(s)[0])
    ensures Core(s) == Head(s) + (s.value + "\"")
  {
    IdentIsEven(s.key);
    PadIsEven(s.g1);
    PadIsEven(s.g2);
    PlainIsEven("=");
    PlainIsEven("\"");
    EvenConcat(s.key, s.g1);
    EvenConcat(s.key + s.g1, "=");
    EvenConcat(s.key + s.g1 + "=", s.g2);
    EvenConcat(s.key + s.g1 + "=" + s.g2, "\"");
  }

  lemma EvenIsInside(t: string)
    requires Even(t)
    ensures Inside(t)
  {
    forall d: nat ensures Level(t, d) {}
  }

  // An operand balances, and is cut nowhere unless its value is.
  lemma PairIsInside(s: Src)
    requires s.Pair? && Legal(s) && Fits(s)
    ensures Inside(Core(s)) && (!Cut(s) ==> Even(Core(s)))
  {
    HeadIsEven(s);
    EvenIsInside(Head(s));
    PlainIsEven("\"");
    EvenIsInside("\"");
    InsideConcat(s.value, "\"");
    InsideConcat(Head(s), s.value + "\"");
    if !Cut(s) {
      var rest := "\"" + s.trail;
      OnePiece(s.value + rest, 0);
      NetConcat(s.value, rest, 0);
      InsideBalances(s.value);
      EvenConcat(s.value, "\"");
      EvenConcat(Head(s), s.value + "\"");
    }
  }

  lemma ComboShape(op: Op, gap: string, content: string)
    requires AllIn(PySpace, gap) && Inside(content)
    ensures Even(OpName(op) + gap + ("(" + content + ")"))
  {
    PlainIsEven(OpName(op));
    PadIsEven(gap);
    EvenParens(content);
    EvenConcat(OpName(op), gap);
    EvenConcat(OpName(op) + gap, "(" + content + ")");
  }

  lemma CoreShape(s: Src)
    requires Legal(s)
    ensures Trimmed(PySpace, Core(s))
  {
    match s
    case Flag(_, name, _) => IdentIsEven(name);
    case Pair(_, _, _, _, _, _) => HeadIsEven(s);
    case Combo(_, _, _, _, _, _) => ComboEnds(s);
  }

  lemma RenderStrips(s: Src)
    requires Legal(s)
    ensures Strip(PySpace, Render(s)) == Core(s) != ""
  {
    CoreShape(s);
    StripPadded(PySpace, s.lead, Core(s), s.trail);
  }

  lemma {:induction false} CoreIsInside(s: Src)
    requires Legal(s) && Fits(s)
    ensures Inside(Core(s)) && (!Cut(s) ==> Even(Core(s)))
    decreases s, 1
  {
    match s
    case Flag(_, name, _) =>
      IdentIsEven(name);
      EvenIsInside(name);
    case Pair(_, _, _, _, _, _) => PairIsInside(s);
    case Combo(_, op, gap, parts, blank, _) =>
      var texts := RenderAll(parts) + Trailer(blank);
      forall i | 0 <= i < |texts| ensures Inside(texts[i]) {
        if i < |parts| { RenderIsInside(parts[i]); } else { PadIsEven(blank.value); EvenIsInside(blank.value); }
      }
      JoinInside(texts);
      ComboShape(op, gap, Join(texts, ","));
      EvenIsInside(Core(s));
  }

  lemma {:induction false} RenderIsInside(s: Src)
    requires Legal(s) && Fits(s)
    ensures Inside(Render(s)) && (!Cut(s) ==> Even(Render(s)))
    decreases s, 2
  {
    CoreIsInside(s);
    PadIsEven(s.lead);
    PadIsEven(s.trail);
    EvenIsInside(s.lead);
    EvenIsInside(s.trail);
    InsideConcat(s.lead, Core(s));
    InsideConcat(s.lead + Core(s), s.trail);
    if !Cut(s) {
      EvenConcat(s.lead, Core(s));
      EvenConcat(s.lead + Core(s), s.trail);
    }
  }

  lemma RenderOp(op: Op, parts: seq<Src>)
    ensures Render(Combo("", op, "", parts, None, "")) == OpName(op) + "(" + Join(RenderAll(parts), ",") + ")"
  {
    assert RenderAll(parts) + Trailer(None) == RenderAll(parts);
    BareText(OpName(op), Join(RenderAll(parts), ","));
  }

  lemma BareText(name: string, text: string)
    ensures "" + (name + "" + ("(" + text + ")")) + "" == name + "(" + text + ")"
  {}

  // ------------------------------------------------------------- operands are cut

  lemma {:induction false} NonBlankConcat(a: seq<string>, b: seq<string>)
    ensures NonBlank(a + b) == NonBlank(a) + NonBlank(b)
  {
    if a == [] {
      assert a + b == b;
    } else {
      assert (a + b)[1..] == a[1..] + b;
      NonBlankConcat(a[1..], b);
    }
  }

  lemma BlankIsDropped(blank: Option<string>)
    requires blank.Some? ==> AllIn(PySpace, blank.value)
    ensures NonBlank(Cuts(Trailer(blank))) == []
  {
    if blank.Some? {
      PadIsEven(blank.value);
      assert Level(blank.value, 0);
      OnePiece(blank.value, 0);
      assert Cuts(Trailer(blank)) == [blank.value] + Cuts([]);
      StripPadded(PySpace, blank.value, "", "");
      assert blank.value + "" + "" == blank.value;
    }
  }

  lemma OperandTexts(s: Src)
    requires Legal(s) && s.Combo?
    ensures var texts := RenderAll(s.parts) + Trailer(s.blank);
            NonBlank(SplitFrom(Join(texts, ","), 0)) == NonBlank(Cuts(RenderAll(s.parts)))
  {
    var texts := RenderAll(s.parts) + Trailer(s.blank);
    BlankIsDropped(s.blank);
    CutsConcat(RenderAll(s.parts), Trailer(s.blank));
    NonBlankConcat(Cuts(RenderAll(s.parts)), Cuts(Trailer(s.blank)));
    if texts == [] {
      StripPadded(PySpace, "", "", "");
      assert "" + "" + "" == "" && [""][1..] == [];
      assert SplitFrom("", 0) == [""] && NonBlank([""]) == [];
    } else {
      forall i | 0 <= i < |texts| ensures Net(texts[i], 0) == 0 {
        if i < |s.parts| {
          RenderIsInside(s.parts[i]);
        } else {
          PadIsEven(s.blank.value);
          EvenIsInside(s.blank.value);
        }
        InsideBalances(texts[i]);
      }
      SplitOfJoin(texts);
    }
  }

  lemma OperandsOfCombo(s: Src)
    requires Legal(s) && s.Combo? && s.gap == ""
    ensures |Core(s)| >= 5 && Core(s)[..4] == OpName(s.op) + "("
    ensures Operands(Core(s)) == NonBlank(Cuts(RenderAll(s.parts)))
  {
    var content := Join(RenderAll(s.parts) + Trailer(s.blank), ",");
    assert Core(s) == OpName(s.op) + "(" + content + ")";
    assert Core(s)[4..|Core(s)| - 1] == content;
    OperandTexts(s);
  }

  // ------------------------------------------------------------ a value cut open

  lemma {:induction false} StripLeftIsSuffix(sp: char -> bool, s: string)
    ensures |StripLeft(sp, s)| <= |s| && StripLeft(sp, s) == s[|s| - |StripLeft(sp, s)|..]
  {
    if s != "" && sp(s[0]) { StripLeftIsSuffix(sp, s[1..]); }
  }

  // A feature needs two quotes.
  lemma OneQuoteNamesNothing(text: string, k: nat)
    requires forall i :: 0 <= i < |text| && text[i] == '"' ==> i == k
    ensures FeatureName(text) == None
  {
    if StartsWith(text, "feature") {
      var a := StripLeft(Blank, text[7..]);
      StripLeftIsSuffix(Blank, text[7..]);
      if a != "" {
        var b := StripLeft(Blank, a[1..]);
        StripLeftIsSuffix(Blank, a[1..]);
        assert b == text[|text| - |b|..];
        assert |b| >= 3 ==> b[0] == text[|text| - |b|] && b[|b| - 1] == text[|text| - 1];
      }
    }
  }

  ghost predicate NoCombinator(text: string) {
    !StartsWith(text, "all(") && !StartsWith(text, "any(") && !StartsWith(text, "not(")
  }

  lemma FourthIsNoParen(text: string)
    requires |text| > 3 ==> text[3] != '('
    ensures NoCombinator(text)
  {
    if |text| > 3 {
      assert text[..4][3] != '(' && "all("[3] == "any("[3] == "not("[3] == '(';
    }
  }

  lemma HeadIsNoCombinator(s: Src, v: string)
    requires s.Pair? && Legal(s)
    ensures NoCombinator(Head(s) + v)
  {
    var text, j := Head(s) + v, |s.key|;
    if j > 3 {
      assert text[3] == s.key[3] && IdentChar(s.key[3]);
      FourthIsNoParen(text);
    } else {
      assert text[j] == if s.g1 == "" then '=' else s.g1[0];
      assert |text| > 3 ==> text[..4][j] == text[j];
      assert "all("[j] != text[j] && "any("[j] != text[j] && "not("[j] != text[j];
    }
  }

  // Up to a comma the value is an atom whose quote never closes.
  lemma OpenQuoteIsFree(s: Src, v: string, shippable: set<string>)
    requires s.Pair? && Legal(s) && '"' !in v && Trimmed(PySpace, Head(s) + v)
    ensures CfgAtom(Head(s) + v, shippable) == Free
  {
    var text, k := Head(s) + v, |Head(s)| - 1;
    forall i | 0 <= i < |text| ensures text[i] == '"' ==> i == k { OneQuoteInHead(s, v, i); }
    assert text[k] == '"';
    OneQuoteIsFree(text, k, shippable);
  }

  lemma OneQuoteIsFree(text: string, k: nat, shippable: set<string>)
    requires Trimmed(PySpace, text) && k < |text| && text[k] == '"'
    requires forall i :: 0 <= i < |text| && text[i] == '"' ==> i == k
    ensures CfgAtom(text, shippable) == Free
  {
    StripPadded(PySpace, "", text, "");
    assert "" + text + "" == text;
    OneQuoteNamesNothing(text, k);
    assert '"' !in "test" && '"' !in "kani";
  }

  lemma OneQuoteInHead(s: Src, v: string, i: nat)
    requires s.Pair? && Legal(s) && '"' !in v && i < |Head(s) + v|
    ensures (Head(s) + v)[i] == '"' ==> i == |Head(s)| - 1
  {
    var a, b := |s.key|, |s.key| + |s.g1|;
    if i < a { assert IdentChar(s.key[i]); }
    else if i < b { assert PySpace(s.g1[i - a]); }
    else if b < i < |Head(s)| - 1 { assert PySpace(s.g2[i - b - 1]); }
    else if i >= |Head(s)| { assert v[i - |Head(s)|] in v; }
  }

  lemma {:induction false} StripRightStops(sp: char -> bool, a: string, b: string)
    requires a != "" && !sp(a[|a| - 1])
    ensures |a| <= |StripRight(sp, a + b)| <= |a + b|
    ensures StripRight(sp, a + b) == a + b[..|StripRight(sp, a + b)| - |a|]
  {
    if b != "" && sp(b[|b| - 1]) {
      assert (a + b)[..|a + b| - 1] == a + b[..|b| - 1];
      StripRightStops(sp, a, b[..|b| - 1]);
    } else {
      assert b[..|b|] == b;
    }
  }

  lemma FirstIsFree(s: Src, v: string, shippable: set<string>)
    requires s.Pair? && Legal(s) && '"' !in v
    ensures Strip(PySpace, s.lead + Head(s) + v) != "" && CfgHolds(s.lead + Head(s) + v, shippable) == Free
  {
    HeadIsEven(s);
    var text := s.lead + Head(s) + v;
    assert text == s.lead + (Head(s) + v);
    StripLeftPad(PySpace, s.lead, Head(s) + v);
    assert StripLeft(PySpace, Head(s) + v) == Head(s) + v;
    StripRightStops(PySpace, Head(s), v);
    var expr := Strip(PySpace, text);
    var kept := v[..|expr| - |Head(s)|];
    assert expr == Head(s) + kept;
    HeadIsNoCombinator(s, kept);
    OpenQuoteIsFree(s, kept, shippable);
  }

  // The first piece of a cut value stops inside the value.
  lemma FirstStopsInside(s: Src, first: string)
    requires s.Pair? && Legal(s) && Cut(s) && first == SplitFrom(s.value + ("\"" + s.trail), 0)[0]
    ensures '"' !in first
  {
    var q := s.value + ("\"" + s.trail);
    var r := SplitFrom(q, 0);
    SplitLosesNothing(q, 0);
    var more := Join(r[1..], ",");
    assert q == first + ("," + more);
    var k := |first|;
    assert q[k] == ',' && first == q[..k];
    forall j | |s.value| <= j < |q| ensures q[j] != ',' {
      assert j > |s.value| ==> PySpace(s.trail[j - |s.value| - 1]);
    }
    assert first == s.value[..k];
  }

  lemma QuietIsFree(text: string, shippable: set<string>)
    requires Quiet(text) && Strip(PySpace, text) != ""
    ensures CfgHolds(text, shippable) == Free
  {
    MoreFeaturesSayLess(text, {}, shippable);
  }

  // ----------------------------------------------------------------- the verdicts

  ghost function Verdicts(ops: seq<string>, shippable: set<string>): seq<Verdict> {
    if ops == [] then [] else [CfgHolds(ops[0], shippable)] + Verdicts(ops[1..], shippable)
  }

  lemma {:induction false} VerdictsConcat(a: seq<string>, b: seq<string>, shippable: set<string>)
    ensures Verdicts(a + b, shippable) == Verdicts(a, shippable) + Verdicts(b, shippable)
  {
    if a == [] {
      assert a + b == b;
    } else {
      assert (a + b)[1..] == a[1..] + b;
      VerdictsConcat(a[1..], b, shippable);
    }
  }

  lemma {:induction false} HeldIsVerdicts(ops: seq<string>, shippable: set<string>, bound: nat)
    requires forall p :: p in ops ==> |p| < bound
    ensures Held(ops, shippable, bound) == Verdicts(ops, shippable)
  {
    if ops != [] { HeldIsVerdicts(ops[1..], shippable, bound); }
  }

  // Nothing but `v`.
  ghost predicate Only(held: seq<Verdict>, v: Verdict) {
    forall i :: 0 <= i < |held| ==> held[i] == v
  }

  lemma {:induction false} QuietVerdicts(texts: seq<string>, shippable: set<string>)
    requires forall i :: 0 <= i < |texts| ==> Quiet(texts[i])
    ensures Only(Verdicts(NonBlank(texts), shippable), Free)
  {
    if texts != [] {
      QuietVerdicts(texts[1..], shippable);
      if Strip(PySpace, texts[0]) != "" { QuietIsFree(texts[0], shippable); }
    }
  }

  lemma RenderSplits(s: Src)
    requires s.Pair? && Legal(s)
    ensures var r := SplitFrom(s.value + ("\"" + s.trail), 0);
            SplitFrom(Render(s), 0) == [s.lead + Head(s) + r[0]] + Fragments(s)
  {
    HeadIsEven(s);
    PadIsEven(s.lead);
    EvenConcat(s.lead, Head(s));
    assert Level(s.lead + Head(s), 0);
    var q := s.value + ("\"" + s.trail);
    assert Render(s) == s.lead + Head(s) + q;
    SplitSkips(s.lead + Head(s), q, 0);
  }

  // However its value is cut, one operand is heard as one verdict.
  lemma OperandIsHeard(s: Src, shippable: set<string>)
    requires Legal(s) && Fits(s) && (!Cut(s) ==> CfgHolds(Render(s), shippable) == Kleene(s, shippable))
    ensures var held := Verdicts(NonBlank(SplitFrom(Render(s), 0)), shippable);
            held != [] && Only(held, Heard(s, shippable))
  {
    if Cut(s) {
      var first := SplitFrom(s.value + ("\"" + s.trail), 0)[0];
      RenderSplits(s);
      FirstStopsInside(s, first);
      FirstIsFree(s, first, shippable);
      QuietVerdicts(Fragments(s), shippable);
      NonBlankSplits(s.lead + Head(s) + first, Fragments(s), shippable);
    } else {
      RenderIsInside(s);
      assert Level(Render(s), 0);
      OnePiece(Render(s), 0);
      RenderStrips(s);
      NonBlankSplits(Render(s), [], shippable);
      assert [Render(s)] + [] == [Render(s)];
    }
  }

  lemma NonBlankSplits(first: string, rest: seq<string>, shippable: set<string>)
    requires Strip(PySpace, first) != ""
    ensures Verdicts(NonBlank([first] + rest), shippable) ==
            [CfgHolds(first, shippable)] + Verdicts(NonBlank(rest), shippable)
  {
    var all := [first] + rest;
    assert all[1..] == rest;
    var kept := [first] + NonBlank(rest);
    assert NonBlank(all) == kept && kept[1..] == NonBlank(rest);
  }

  // All that combining two lists of verdicts depends on.
  ghost predicate Alike(a: seq<Verdict>, b: seq<Verdict>) {
    && (forall v :: v in a <==> v in b)
    && (a == [] <==> b == []) && (a != [] ==> a[0] == b[0])
  }

  lemma CombineAlike(op: Op, a: seq<Verdict>, b: seq<Verdict>)
    requires Alike(a, b)
    ensures Combine(op, a) == Combine(op, b)
  {}

  lemma AlikeStep(f: seq<Verdict>, v: Verdict, a: seq<Verdict>, b: seq<Verdict>)
    requires f != [] && Only(f, v) && Alike(a, b)
    ensures Alike(f + a, [v] + b)
  {
    assert f[0] == v && v in f;
    forall x ensures x in f + a <==> x in [v] + b {}
  }

  lemma {:induction false} OperandsAreHeard(parts: seq<Src>, shippable: set<string>)
    requires forall i :: 0 <= i < |parts| ==> Legal(parts[i]) && Fits(parts[i])
    requires forall i :: 0 <= i < |parts| ==> CfgHolds(Render(parts[i]), shippable) == Kleene(parts[i], shippable)
    ensures Alike(Verdicts(NonBlank(Cuts(RenderAll(parts))), shippable), KleeneAll(parts, shippable))
  {
    if parts != [] {
      var here, more := SplitFrom(Render(parts[0]), 0), Cuts(RenderAll(parts[1..]));
      OperandIsHeard(parts[0], shippable);
      OperandsAreHeard(parts[1..], shippable);
      assert RenderAll(parts)[1..] == RenderAll(parts[1..]);
      NonBlankConcat(here, more);
      VerdictsConcat(NonBlank(here), NonBlank(more), shippable);
      AlikeStep(Verdicts(NonBlank(here), shippable), Heard(parts[0], shippable),
                Verdicts(NonBlank(more), shippable), KleeneAll(parts[1..], shippable));
    }
  }

  lemma FlagAtom(name: string, shippable: set<string>)
    requires Ident(name)
    ensures CfgAtom(name, shippable) == if name in NEVER_SHIPPED then No else Free
  {
    IdentIsEven(name);
    StripPadded(PySpace, "", name, "");
    assert "" + name + "" == name;
    if StartsWith(name, "feature") {
      var tail := name[7..];
      assert tail != "" ==> IdentChar(tail[0]);
      assert StripLeft(Blank, tail) == tail;
    }
  }

  // The two names no image sets, and no others.
  lemma BareNames(name: string, shippable: set<string>)
    requires Ident(name)
    ensures CfgHolds(name, shippable) == if name == "test" || name == "kani" then No else Free
  {
    var s := Flag("", name, "");
    assert Legal(s) && Render(s) == name;
    ReadsEverySpelling(s, shippable);
  }

  lemma StripBlanks(pad: string, rest: string)
    requires AllIn(PySpace, pad) && rest != "" && !PySpace(rest[0])
    ensures OnlyBlanks(pad) ==> StripLeft(Blank, pad + rest) == rest
    ensures !OnlyBlanks(pad) ==> var t := StripLeft(Blank, pad + rest); t != "" && PySpace(t[0])
  {
    if OnlyBlanks(pad) {
      StripLeftPad(Blank, pad, rest);
    } else if Blank(pad[0]) {
      assert (pad + rest)[1..] == pad[1..] + rest;
      StripBlanks(pad[1..], rest);
    }
  }

  lemma PairFeature(s: Src)
    requires Legal(s) && s.Pair? && s.key == "feature"
    ensures FeatureName(Core(s)) ==
            if s.value != "" && OnlyBlanks(s.g1) && OnlyBlanks(s.g2) then Some(s.value) else None
  {
    var b := "\"" + s.value + "\"";
    var a := "=" + (s.g2 + b);
    assert Core(s)[..7] == "feature" && Core(s)[7..] == s.g1 + a;
    StripBlanks(s.g1, a);
    StripBlanks(s.g2, b);
    if OnlyBlanks(s.g1) {
      assert a[1..] == s.g2 + b;
      assert b[1..|b| - 1] == s.value;
      assert '"' !in s.value;
    }
  }

  lemma PairOther(s: Src)
    requires Legal(s) && s.Pair? && s.key != "feature"
    ensures FeatureName(Core(s)) == None
  {
    if |s.key| < 7 {
      var tail := s.g1 + ("=" + s.g2 + "\"" + s.value + "\"");
      assert Core(s) == s.key + tail;
      assert Core(s)[|s.key|] == tail[0] && (PySpace(tail[0]) || tail[0] == '=');
      assert IdentChar("feature"[|s.key|]);
    } else if StartsWith(Core(s), "feature") {
      assert s.key[..7] == Core(s)[..7] == "feature";
      assert |s.key| > 7 && IdentChar(s.key[7]);
      var tail := Core(s)[7..];
      assert tail[0] == s.key[7];
      assert StripLeft(Blank, tail) == tail;
    }
  }

  lemma PairAtom(s: Src, shippable: set<string>)
    requires Legal(s) && s.Pair?
    ensures CfgAtom(Core(s), shippable) == Kleene(s, shippable)
  {
    CoreShape(s);
    StripPadded(PySpace, "", Core(s), "");
    assert "" + Core(s) + "" == Core(s);
    assert Core(s) !in NEVER_SHIPPED by {
      assert Core(s)[|Core(s)| - 1] == '"';
    }
    if s.key == "feature" { PairFeature(s); } else { PairOther(s); }
  }

  // An atom is not mistaken for a combinator, and a gap hides one.
  lemma NotACombinator(s: Src)
    requires Legal(s)
    requires !s.Combo? || s.gap != ""
    ensures NoCombinator(Core(s))
  {
    match s
    case Flag(_, name, _) =>
      assert |name| > 3 ==> IdentChar(name[3]);
      FourthIsNoParen(name);
    case Pair(_, _, _, _, value, _) =>
      HeadIsEven(s);
      HeadIsNoCombinator(s, value + "\"");
    case Combo(_, _, gap, _, _, _) =>
      GapIsFourth(s);
      FourthIsNoParen(Core(s));
  }

  lemma GapIsFourth(s: Src)
    requires Legal(s) && s.Combo? && s.gap != ""
    ensures |Core(s)| > 3 && Core(s)[3] == s.gap[0] && PySpace(s.gap[0])
  {
    var args := "(" + Join(RenderAll(s.parts) + Trailer(s.blank), ",") + ")";
    assert Core(s) == OpName(s.op) + s.gap + args;
  }

  lemma GapAtom(s: Src, shippable: set<string>)
    requires Legal(s) && s.Combo? && s.gap != ""
    ensures CfgAtom(Core(s), shippable) == Free
  {
    ComboEnds(s);
    CoreShape(s);
    StripPadded(PySpace, "", Core(s), "");
    assert "" + Core(s) + "" == Core(s);
    NotAnAtom(Core(s), shippable);
  }

  lemma ComboEnds(s: Src)
    requires s.Combo?
    ensures |Core(s)| > 4 && Core(s)[0] == OpName(s.op)[0] && Core(s)[|Core(s)| - 1] == ')'
  {
    var args := Join(RenderAll(s.parts) + Trailer(s.blank), ",");
    assert Core(s) == OpName(s.op) + s.gap + ("(" + args + ")");
  }

  lemma NotAnAtom(text: string, shippable: set<string>)
    requires |text| > 4 && text[0] != 'f' && text[|text| - 1] == ')' && Strip(PySpace, text) == text
    ensures CfgAtom(text, shippable) == Free
  {
    assert text !in NEVER_SHIPPED by {
      assert "test"[3] == 't' && "kani"[3] == 'i';
    }
    assert |text| >= 7 ==> text[..7][0] != 'f' == "feature"[0];
  }

  // The text evaluator reads every legal spelling as its syntax tree.
  lemma {:induction false} ReadsEverySpelling(s: Src, shippable: set<string>)
    requires Legal(s)
    ensures CfgHolds(Render(s), shippable) == Kleene(s, shippable)
    decreases s
  {
    RenderStrips(s);
    if s.Combo? && s.gap == "" {
      OperandsOfCombo(s);
      forall i | 0 <= i < |s.parts| ensures CfgHolds(Render(s.parts[i]), shippable) == Kleene(s.parts[i], shippable) {
        ReadsEverySpelling(s.parts[i], shippable);
      }
      OperandsAreHeard(s.parts, shippable);
      ComboVerdict(s, shippable);
    } else {
      NotACombinator(s);
      match s
      case Flag(_, name, _) => FlagAtom(name, shippable);
      case Pair(_, _, _, _, _, _) => PairAtom(s, shippable);
      case Combo(_, _, _, _, _, _) => GapAtom(s, shippable);
    }
  }

  lemma OpPrefix(expr: string, op: Op)
    requires |expr| >= 4 && expr[..4] == OpName(op) + "("
    ensures StartsWith(expr, "all(") <==> op == AllOf
    ensures StartsWith(expr, "any(") <==> op == AnyOf
    ensures StartsWith(expr, "not(") <==> op == NotOf
  {
    var head := expr[..4];
    assert head[1] == OpName(op)[1];
    assert "all("[1] == 'l' && "any("[1] == 'n' && "not("[1] == 'o';
  }

  lemma ComboVerdict(s: Src, shippable: set<string>)
    requires Legal(s) && s.Combo? && s.gap == "" && Strip(PySpace, Render(s)) == Core(s)
    requires |Core(s)| >= 5 && Core(s)[..4] == OpName(s.op) + "("
    requires Alike(Verdicts(Operands(Core(s)), shippable), KleeneAll(s.parts, shippable))
    ensures CfgHolds(Render(s), shippable) == Kleene(s, shippable)
  {
    HeldIsVerdicts(Operands(Core(s)), shippable, |Render(s)|);
    CombineAlike(s.op, Verdicts(Operands(Core(s)), shippable), KleeneAll(s.parts, shippable));
    OpPrefix(Core(s), s.op);
  }

  // ---------------------------------------------------------- definite is definite

  // False holds of no admissible build, and True of every one.
  lemma {:induction false} DefiniteIsRight(s: Src, shippable: set<string>, c: Config)
    requires Admissible(c, shippable)
    ensures Kleene(s, shippable) == No ==> !Sat(c, s)
    ensures Kleene(s, shippable) == Yes ==> Sat(c, s)
    decreases s
  {
    if s.Combo? {
      forall i | 0 <= i < |s.parts|
        ensures Kleene(s.parts[i], shippable) == No ==> !Sat(c, s.parts[i])
        ensures Kleene(s.parts[i], shippable) == Yes ==> Sat(c, s.parts[i])
      {
        DefiniteIsRight(s.parts[i], shippable, c);
      }
      if s.gap == "" { CombineIsRight(s, KleeneAll(s.parts, shippable), c); }
    }
  }

  lemma CombineIsRight(s: Src, held: seq<Verdict>, c: Config)
    requires s.Combo? && |held| == |s.parts|
    requires forall i :: 0 <= i < |held| ==>
               (held[i] == No ==> !Sat(c, s.parts[i])) && (held[i] == Yes ==> Sat(c, s.parts[i]))
    ensures Combine(s.op, held) == No ==> !Sat(c, s)
    ensures Combine(s.op, held) == Yes ==> Sat(c, s)
  {
    match s.op
    case NotOf =>
    case AllOf =>
      if No in held {
        var i :| 0 <= i < |held| && held[i] == No;
        assert !Sat(c, s.parts[i]);
      } else if Combine(AllOf, held) == Yes {
        forall i | 0 <= i < |held| ensures Sat(c, s.parts[i]) {
          assert held[i] in held;
        }
      }
    case AnyOf =>
      if Combine(AnyOf, held) == Yes {
        var i :| 0 <= i < |held| && held[i] == Yes;
        assert Sat(c, s.parts[i]);
      } else if Combine(AnyOf, held) == No {
        forall i | 0 <= i < |held| ensures !Sat(c, s.parts[i]) {
          assert held[i] in held;
        }
      }
  }

  // On text: a file is withheld only when no admissible build satisfies its gate.
  lemma FalseIsNeverBuilt(s: Src, shippable: set<string>, c: Config)
    requires Legal(s) && Admissible(c, shippable)
    requires CfgHolds(Render(s), shippable) == No
    ensures !Sat(c, s)
  {
    ReadsEverySpelling(s, shippable);
    DefiniteIsRight(s, shippable, c);
  }

  // ------------------------------------------------------------ more features, less said

  ghost predicate Less(a: Verdict, b: Verdict) {
    b == a || (b == Free && a != Raises)
  }

  // For every text, well formed or not.
  lemma {:induction false} MoreFeaturesSayLess(text: string, f: set<string>, g: set<string>)
    requires f <= g
    ensures Less(CfgHolds(text, f), CfgHolds(text, g))
    decreases |text|
  {
    var expr := Strip(PySpace, text);
    if StartsWith(expr, "all(") || StartsWith(expr, "any(") || StartsWith(expr, "not(") {
      var parts := Operands(expr);
      var a, b := Held(parts, f, |text|), Held(parts, g, |text|);
      HeldAt(parts, f, |text|);
      HeldAt(parts, g, |text|);
      forall i | 0 <= i < |parts| ensures Less(a[i], b[i]) {
        assert parts[i] in parts;
        MoreFeaturesSayLess(parts[i], f, g);
      }
      CombineSaysLess(AllOf, a, b);
      CombineSaysLess(AnyOf, a, b);
      CombineSaysLess(NotOf, a, b);
    }
  }

  lemma CombineSaysLess(op: Op, a: seq<Verdict>, b: seq<Verdict>)
    requires |a| == |b| && forall i :: 0 <= i < |a| ==> Less(a[i], b[i])
    ensures Less(Combine(op, a), Combine(op, b))
  {
    forall v | v in b && v != Free ensures v in a {
      var i :| 0 <= i < |b| && b[i] == v;
      assert Less(a[i], b[i]);
      assert a[i] in a;
    }
    forall v | v in a ensures v in b || (Free in b && v != Raises) {
      var i :| 0 <= i < |a| && a[i] == v;
      assert Less(a[i], b[i]);
      assert b[i] in b;
    }
  }
}

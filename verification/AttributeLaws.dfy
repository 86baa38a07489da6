// Desugaring preserves meaning, and the text pipeline builds the desugaring.
module AttributeLaws {
  import opened Text
  import opened SplitTop
  import opened Cfg
  import opened CfgLaws
  import opened Attributes

  // ------------------------------------------------------------- the text built

  lemma ParenShape(head: string, gap: string, content: string)
    requires Ident(head) && AllIn(PySpace, gap) && Inside(content)
    ensures var t := head + gap + ("(" + content + ")"); Trimmed(PySpace, t) && Even(t)
  {
    IdentIsEven(head);
    PadIsEven(gap);
    EvenParens(content);
    EvenConcat(head, gap);
    EvenConcat(head + gap, "(" + content + ")");
    assert (head + gap + ("(" + content + ")"))[0] == head[0];
  }

  lemma PaddedShape(p: Padded)
    requires AllIn(PySpace, p.lead) && AllIn(PySpace, p.trail)
    requires Trimmed(PySpace, Body(p.attr)) && Even(Body(p.attr))
    ensures Even(PaddedBody(p))
    ensures Strip(PySpace, PaddedBody(p)) == Body(p.attr)
  {
    PadIsEven(p.lead);
    PadIsEven(p.trail);
    EvenConcat(p.lead, Body(p.attr));
    EvenConcat(p.lead + Body(p.attr), p.trail);
    StripPadded(PySpace, p.lead, Body(p.attr), p.trail);
  }

  ghost function Tail(rest: seq<Padded>, blank: Option<string>): seq<string> {
    PaddedBodies(rest) + Trailer(blank)
  }

  ghost function Texts(a: Attr): seq<string>
    requires a.CfgAttrIs?
  {
    [Render(a.pred)] + Tail(a.rest, a.blank)
  }

  lemma {:induction false} TextsAreInside(a: Attr)
    requires a.CfgAttrIs? && LegalAttr(a)
    ensures forall i :: 0 <= i < |Texts(a)| ==> Inside(Texts(a)[i])
    decreases a, 0
  {
    forall i | 0 <= i < |Texts(a)| ensures Inside(Texts(a)[i]) {
      if i == 0 {
        RenderIsInside(a.pred);
      } else if i <= |a.rest| {
        PaddedIsInside(a.rest[i - 1]);
        assert Texts(a)[i] == Tail(a.rest, a.blank)[i - 1] == PaddedBodies(a.rest)[i - 1];
      } else {
        PadIsEven(a.blank.value);
        EvenIsInside(a.blank.value);
      }
    }
  }

  lemma {:induction false} PaddedIsInside(p: Padded)
    requires LegalPadded(p)
    ensures Inside(PaddedBody(p))
    decreases p
  {
    if !p.attr.Plain? {
      BodyShape(p.attr);
      PaddedShape(p);
      EvenIsInside(PaddedBody(p));
    }
  }

  lemma {:induction false} BodyShape(a: Attr)
    requires LegalAttr(a) && !a.Plain? && (a.CfgIs? ==> Fits(a.expr))
    ensures Trimmed(PySpace, Body(a)) && Even(Body(a))
    decreases a, 1
  {
    match a
    case CfgIs(gap, expr) =>
      RenderIsInside(expr);
      ParenShape("cfg", gap, Render(expr));
    case CfgAttrIs(gap, _, _, _) =>
      TextsAreInside(a);
      JoinInside(Texts(a));
      ParenShape("cfg_attr", gap, Join(Texts(a), ","));
  }

  lemma RenderNot(s: Src)
    ensures Render(Combo("", NotOf, "", [s], None, "")) == "not(" + Render(s) + ")"
  {
    RenderOp(NotOf, [s]);
    assert RenderAll([s]) == [Render(s)];
  }

  lemma RenderAny(s: Src, t: Src)
    ensures Render(Combo("", AnyOf, "", [s, t], None, "")) == "any(" + Render(s) + "," + Render(t) + ")"
  {
    RenderOp(AnyOf, [s, t]);
    RenderPair(s, t);
    AnyText(Render(s), Render(t));
  }

  lemma RenderPair(s: Src, t: Src)
    ensures RenderAll([s, t]) == [Render(s), Render(t)]
  {}

  lemma AnyText(a: string, b: string)
    ensures "any" + "(" + Join([a, b], ",") + ")" == "any(" + a + "," + b + ")"
  {
    assert [a, b][1..] == [b];
  }

  lemma RenderRepad(s: Src, pad: string)
    ensures Render(s.(lead := pad + s.lead)) == pad + Render(s)
    ensures Render(s.(lead := "", trail := "")) == Core(s)
  {
    assert Core(s.(lead := pad + s.lead)) == Core(s) == Core(s.(lead := "", trail := ""));
  }

  lemma ImplyString(c: string, r: string)
    ensures "any(" + ("not(" + c + ")") + "," + (" " + r) + ")" == "any(not(" + c + "), " + r + ")"
  {}

  lemma RenderImply(pred: Src, e: Src)
    ensures Render(ImplySrc(pred, e)) == "any(not(" + Core(pred) + "), " + Render(e) + ")"
  {
    var bare, spaced := pred.(lead := "", trail := ""), e.(lead := " " + e.lead);
    var neg := Combo("", NotOf, "", [bare], None, "");
    RenderRepad(pred, "");
    RenderRepad(e, " ");
    RenderNot(bare);
    RenderAny(neg, spaced);
    var c, r, t := Core(pred), Render(e), Render(ImplySrc(pred, e));
    assert t == "any(" + ("not(" + c + ")") + "," + (" " + r) + ")";
    ImplyString(c, r);
  }

  lemma LegalImply(pred: Src, e: Src)
    requires Legal(pred) && Fits(pred) && !Cut(pred) && Legal(e) && Fits(e)
    ensures Legal(ImplySrc(pred, e))
  {
    LegalBare(pred);
    LegalLead(e, " ");
    assert Legal(Combo("", NotOf, "", [pred.(lead := "", trail := "")], None, ""));
  }

  // Padding in front changes nothing about a predicate.
  lemma LegalLead(s: Src, pad: string)
    requires Legal(s) && AllIn(PySpace, pad)
    ensures var t := s.(lead := pad + s.lead); Legal(t) && (Fits(s) ==> Fits(t))
  {
    var t := s.(lead := pad + s.lead);
    assert s.Pair? ==> Fragments(t) == Fragments(s);
  }

  lemma LegalBare(s: Src)
    requires Legal(s) && Fits(s) && !Cut(s)
    ensures var t := s.(lead := "", trail := ""); Legal(t) && Fits(t) && !Cut(t)
  {
    var t := s.(lead := "", trail := "");
    if s.Pair? {
      OnePiece(s.value + ("\"" + s.trail), 0);
      NetConcat(s.value, "\"" + s.trail, 0);
      InsideBalances(s.value);
      PlainIsEven("\"");
      EvenConcat(s.value, "\"");
      assert Level(s.value + "\"", 0) && "\"" + t.trail == "\"";
      OnePiece(s.value + ("\"" + t.trail), 0);
    }
  }

  lemma {:induction false} ImplyText(pred: Src, es: seq<Src>)
    requires Legal(pred) && Fits(pred) && !Cut(pred) && LegalAll(es) && FitAll(es)
    ensures Imply(Core(pred), RenderAll(es)) == RenderAll(ImplyAll(pred, es))
    ensures LegalAll(ImplyAll(pred, es)) && FitAll(ImplyAll(pred, es))
  {
    if es != [] {
      RenderImply(pred, es[0]);
      LegalImply(pred, es[0]);
      ImplyText(pred, es[1..]);
    }
  }

  lemma {:induction false} RenderAllConcat(a: seq<Src>, b: seq<Src>)
    ensures RenderAll(a + b) == RenderAll(a) + RenderAll(b)
  {
    forall i | 0 <= i < |a + b| ensures RenderAll(a + b)[i] == (RenderAll(a) + RenderAll(b))[i] {}
  }

  lemma {:induction false} GuardedConcat(pred: string, a: seq<string>, b: seq<string>, bound: nat)
    requires forall p :: p in a + b ==> |p| < bound
    ensures (forall p :: p in a ==> |p| < bound) && forall p :: p in b ==> |p| < bound
    ensures Guarded(pred, a + b, bound) == Guarded(pred, a, bound) + Guarded(pred, b, bound)
  {
    forall p | p in a || p in b ensures |p| < bound { assert p in a + b; }
    if a == [] {
      assert a + b == b;
    } else {
      assert (a + b)[1..] == a[1..] + b;
      GuardedConcat(pred, a[1..], b, bound);
    }
  }

  lemma {:induction false} InertGivesNothing(pred: string, texts: seq<string>, bound: nat)
    requires forall p :: p in texts ==> |p| < bound && AttrCfgs(Strip(PySpace, p)) == []
    ensures Guarded(pred, texts, bound) == []
  {
    if texts != [] { InertGivesNothing(pred, texts[1..], bound); }
  }

  // What is not spelled as a `cfg` is read as none.
  lemma UnspelledGivesNothing(text: string)
    requires !Spelled(text)
    ensures AttrCfgs(text) == [] && AttrCfgs(Strip(PySpace, text)) == []
  {
    WrappedOpens(Strip(PySpace, text));
    if Wrapped(text, "cfg(") || Wrapped(text, "cfg_attr(") { WrappedIsTrimmed(text); }
  }

  lemma WrappedIsTrimmed(text: string)
    requires Wrapped(text, "cfg(") || Wrapped(text, "cfg_attr(")
    ensures Strip(PySpace, text) == text
  {
    assert text[0] == text[..4][0] == 'c';
    StripPadded(PySpace, "", text, "");
    assert "" + text + "" == text;
  }

  lemma WrappedOpens(t: string)
    ensures Wrapped(t, "cfg(") ==> Opens(t, "cfg")
    ensures Wrapped(t, "cfg_attr(") ==> Opens(t, "cfg_attr")
  {
    if Wrapped(t, "cfg(") {
      assert t[..3] == t[..4][..3] == "cfg" && t[3..][0] == t[..4][3];
    }
    if Wrapped(t, "cfg_attr(") {
      assert t[..8] == t[..9][..8] == "cfg_attr" && t[8..][0] == t[..9][8];
    }
  }

  // A gap in front of its parenthesis hides an attribute from the gate.
  lemma GapHides(a: Attr)
    requires !a.Plain? && a.gap != "" && AllIn(PySpace, a.gap)
    ensures AttrCfgs(Body(a)) == []
  {
    var name := if a.CfgIs? then "cfg" else "cfg_attr";
    var body := Body(a);
    assert body[|name|] == a.gap[0] && PySpace(a.gap[0]);
    assert |body| > 4 ==> body[..4][3] == body[3];
    assert |body| > 9 ==> body[..9][8] == body[8] && body[..9][3] == body[3];
    assert "cfg_attr("[3] == '_' && "cfg_attr("[8] == '(' && "cfg("[3] == '(';
  }

  lemma BlankGivesNothing(blank: Option<string>, pred: string, bound: nat)
    requires blank.Some? ==> AllIn(PySpace, blank.value)
    requires forall p :: p in Cuts(Trailer(blank)) ==> |p| < bound
    ensures Guarded(pred, Cuts(Trailer(blank)), bound) == []
  {
    if blank.Some? {
      PadIsEven(blank.value);
      assert Level(blank.value, 0);
      OnePiece(blank.value, 0);
      assert Cuts(Trailer(blank)) == [blank.value] + Cuts([]) == [blank.value];
      StripPadded(PySpace, blank.value, "", "");
      assert blank.value + "" + "" == blank.value;
      assert AttrCfgs("") == [];
      InertGivesNothing(pred, [blank.value], bound);
    }
  }

  lemma TailStep(rest: seq<Padded>, blank: Option<string>)
    requires rest != []
    ensures Cuts(Tail(rest, blank)) == SplitFrom(PaddedBody(rest[0]), 0) + Cuts(Tail(rest[1..], blank))
  {
    var all := Tail(rest, blank);
    assert all == [PaddedBody(rest[0])] + (PaddedBodies(rest[1..]) + Trailer(blank));
    assert all[1..] == Tail(rest[1..], blank);
  }

  lemma {:induction false} GuardedReads(pred: Src, rest: seq<Padded>, blank: Option<string>, bound: nat)
    requires Legal(pred) && Fits(pred) && !Cut(pred)
    requires blank.Some? ==> AllIn(PySpace, blank.value)
    requires forall i :: 0 <= i < |rest| ==> LegalPadded(rest[i])
    requires forall p :: p in Cuts(Tail(rest, blank)) ==> |p| < bound
    ensures Guarded(Core(pred), Cuts(Tail(rest, blank)), bound) == RenderAll(DesugarAll(pred, rest))
    ensures LegalAll(DesugarAll(pred, rest)) && FitAll(DesugarAll(pred, rest))
    decreases rest, 0
  {
    if rest == [] {
      assert Tail(rest, blank) == Trailer(blank);
      BlankGivesNothing(blank, Core(pred), bound);
    } else {
      var here, more := ImplyAll(pred, Desugar(rest[0].attr)), DesugarAll(pred, rest[1..]);
      TailStep(rest, blank);
      GuardedConcat(Core(pred), SplitFrom(PaddedBody(rest[0]), 0), Cuts(Tail(rest[1..], blank)), bound);
      GuardedHead(pred, rest[0], bound);
      GuardedReads(pred, rest[1..], blank, bound);
      RenderAllConcat(here, more);
      LegalConcat(here, more);
    }
  }

  lemma {:induction false} GuardedHead(pred: Src, p: Padded, bound: nat)
    requires Legal(pred) && Fits(pred) && !Cut(pred)
    requires LegalPadded(p) && forall q :: q in SplitFrom(PaddedBody(p), 0) ==> |q| < bound
    ensures var here := ImplyAll(pred, Desugar(p.attr));
            && LegalAll(here) && FitAll(here)
            && Guarded(Core(pred), SplitFrom(PaddedBody(p), 0), bound) == RenderAll(here)
    decreases p
  {
    if p.attr.Plain? {
      forall q | q in SplitFrom(PaddedBody(p), 0) ensures AttrCfgs(Strip(PySpace, q)) == [] {
        UnspelledGivesNothing(q);
      }
      InertGivesNothing(Core(pred), SplitFrom(PaddedBody(p), 0), bound);
    } else {
      ReadsEveryAttribute(p.attr);
      ImplyText(pred, Desugar(p.attr));
      StripsToBody(p);
      GuardedOne(Core(pred), PaddedBody(p), bound);
    }
  }

  lemma GuardedOne(pred: string, text: string, bound: nat)
    requires |text| < bound
    ensures Guarded(pred, [text], bound) == Imply(pred, AttrCfgs(Strip(PySpace, text)))
  {
    assert [text][1..] == [] && Guarded(pred, [], bound) == [];
  }

  lemma StripsToBody(p: Padded)
    requires LegalPadded(p) && !p.attr.Plain?
    ensures Strip(PySpace, PaddedBody(p)) == Body(p.attr) && SplitFrom(PaddedBody(p), 0) == [PaddedBody(p)]
  {
    BodyShape(p.attr);
    PaddedShape(p);
    assert Level(PaddedBody(p), 0);
    OnePiece(PaddedBody(p), 0);
  }

  lemma LegalConcat(a: seq<Src>, b: seq<Src>)
    requires LegalAll(a) && LegalAll(b)
    ensures LegalAll(a + b) && (FitAll(a) && FitAll(b) ==> FitAll(a + b))
  {}

  lemma CfgAttrSplits(a: Attr)
    requires a.CfgAttrIs? && LegalAttr(a) && a.gap == ""
    ensures Wrapped(Body(a), "cfg_attr(") && !Wrapped(Body(a), "cfg(")
    ensures SplitFrom(Body(a)[9..|Body(a)| - 1], 0) == [Render(a.pred)] + Cuts(Tail(a.rest, a.blank))
    ensures Strip(PySpace, Render(a.pred)) == Core(a.pred)
  {
    CfgAttrWraps(Join(Texts(a), ","));
    assert Body(a) == "cfg_attr" + ("(" + Join(Texts(a), ",") + ")");
    RenderStrips(a.pred);
    TextsSplit(a);
  }

  lemma CfgAttrWraps(content: string)
    ensures var t := "cfg_attr" + ("(" + content + ")");
            Wrapped(t, "cfg_attr(") && !Wrapped(t, "cfg(") && t[9..|t| - 1] == content
  {
    var t := "cfg_attr" + ("(" + content + ")");
    assert t == "cfg_attr(" + content + ")";
    assert t[..9] == "cfg_attr(" && t[..4][3] == '_';
  }

  lemma TextsSplit(a: Attr)
    requires a.CfgAttrIs? && LegalAttr(a)
    ensures SplitFrom(Join(Texts(a), ","), 0) == [Render(a.pred)] + Cuts(Tail(a.rest, a.blank))
  {
    TextsAreInside(a);
    forall i | 0 <= i < |Texts(a)| ensures Net(Texts(a)[i], 0) == 0 { InsideBalances(Texts(a)[i]); }
    SplitOfJoin(Texts(a));
    RenderIsInside(a.pred);
    assert Level(Render(a.pred), 0);
    OnePiece(Render(a.pred), 0);
    assert Texts(a)[1..] == Tail(a.rest, a.blank);
  }

  lemma CfgAttrUnfolds(a: Attr)
    requires a.CfgAttrIs? && LegalAttr(a) && a.gap == ""
    ensures forall p :: p in Cuts(Tail(a.rest, a.blank)) ==> |p| < |Body(a)|
    ensures AttrCfgs(Body(a)) == Guarded(Core(a.pred), Cuts(Tail(a.rest, a.blank)), |Body(a)|)
  {
    var inner, rest := Body(a)[9..|Body(a)| - 1], Cuts(Tail(a.rest, a.blank));
    CfgAttrSplits(a);
    PartsAreShorter(inner, 0);
    forall p | p in rest ensures |p| < |Body(a)| {
      assert p in SplitFrom(inner, 0);
    }
    assert ([Render(a.pred)] + rest)[1..] == rest;
  }

  lemma CfgUnfolds(expr: Src)
    ensures AttrCfgs(Body(CfgIs("", expr))) == [Render(expr)]
  {
    var body := Body(CfgIs("", expr));
    assert body == "cfg(" + Render(expr) + ")";
    assert body[4..|body| - 1] == Render(expr) && body[..4] == "cfg(";
  }

  // The gate reads every legal attribute as its desugaring.
  lemma {:induction false} ReadsEveryAttribute(a: Attr)
    requires LegalAttr(a)
    ensures AttrCfgs(Body(a)) == RenderAll(Desugar(a)) && LegalAll(Desugar(a))
    ensures !a.CfgIs? ==> FitAll(Desugar(a))
    decreases a, 1
  {
    if a.Plain? {
      UnspelledGivesNothing(a.text);
    } else if a.gap != "" {
      GapHides(a);
    } else if a.CfgIs? {
      CfgUnfolds(a.expr);
    } else {
      CfgAttrUnfolds(a);
      GuardedReads(a.pred, a.rest, a.blank, |Body(a)|);
    }
  }

  // --------------------------------------------------------------- its meaning

  lemma SatRepad(c: Config, s: Src, lead: string, trail: string)
    ensures Sat(c, s.(lead := lead, trail := trail)) == Sat(c, s)
  {}

  lemma SatImply(c: Config, pred: Src, e: Src)
    ensures Sat(c, ImplySrc(pred, e)) <==> (Sat(c, pred) ==> Sat(c, e))
  {
    var t := ImplySrc(pred, e);
    SatRepad(c, pred, "", "");
    SatRepad(c, e, " " + e.lead, e.trail);
    assert Sat(c, t.parts[0]) <==> !Sat(c, t.parts[0].parts[0]);
    assert Sat(c, t) <==> Sat(c, t.parts[0]) || Sat(c, t.parts[1]);
  }

  lemma SatAllConcat(c: Config, a: seq<Src>, b: seq<Src>)
    ensures SatAll(c, a + b) <==> SatAll(c, a) && SatAll(c, b)
  {
    if SatAll(c, a + b) {
      forall i | 0 <= i < |a| ensures Sat(c, a[i]) { assert a[i] == (a + b)[i]; }
      forall i | 0 <= i < |b| ensures Sat(c, b[i]) { assert b[i] == (a + b)[|a| + i]; }
    }
  }

  lemma SatImplyAll(c: Config, pred: Src, es: seq<Src>)
    ensures SatAll(c, ImplyAll(pred, es)) <==> (Sat(c, pred) ==> SatAll(c, es))
  {
    forall i | 0 <= i < |es| ensures Sat(c, ImplyAll(pred, es)[i]) <==> (Sat(c, pred) ==> Sat(c, es[i])) {
      SatImply(c, pred, es[i]);
    }
  }

  lemma {:induction false} DesugarAllMeans(c: Config, pred: Src, rest: seq<Padded>)
    ensures SatAll(c, DesugarAll(pred, rest)) <==> (Sat(c, pred) ==> SatAll(c, ActiveAll(c, rest, true)))
    decreases rest, 0
  {
    if rest != [] {
      var here := Desugar(rest[0].attr);
      DesugarMeans(c, rest[0].attr);
      SatImplyAll(c, pred, here);
      DesugarAllMeans(c, pred, rest[1..]);
      SatAllConcat(c, ImplyAll(pred, here), DesugarAll(pred, rest[1..]));
      SatAllConcat(c, Active(c, rest[0].attr, true), ActiveAll(c, rest[1..], true));
    }
  }

  // What one attribute is turned into holds exactly when everything it activates
  // does, as far as no gap hides it.
  lemma {:induction false} DesugarMeans(c: Config, a: Attr)
    ensures SatAll(c, Desugar(a)) <==> SatAll(c, Active(c, a, true))
    ensures SatAll(c, Active(c, a, false)) ==> SatAll(c, Desugar(a))
    ensures Tight(a) ==> (SatAll(c, Desugar(a)) <==> SatAll(c, Active(c, a, false)))
    decreases a, 1
  {
    if a.CfgAttrIs? { DesugarAllMeans(c, a.pred, a.rest); }
    BlindSeesLess(c, a);
    if Tight(a) { TightIsSeen(c, a); }
  }

  lemma {:induction false} BlindSeesLess(c: Config, a: Attr)
    ensures SatAll(c, Active(c, a, false)) ==> SatAll(c, Active(c, a, true))
    decreases a, 1
  {
    if a.CfgAttrIs? { BlindSeesLessAll(c, a.rest); }
  }

  lemma {:induction false} BlindSeesLessAll(c: Config, rest: seq<Padded>)
    ensures SatAll(c, ActiveAll(c, rest, false)) ==> SatAll(c, ActiveAll(c, rest, true))
    decreases rest, 0
  {
    if rest != [] {
      BlindSeesLess(c, rest[0].attr);
      BlindSeesLessAll(c, rest[1..]);
      SatAllConcat(c, Active(c, rest[0].attr, false), ActiveAll(c, rest[1..], false));
      SatAllConcat(c, Active(c, rest[0].attr, true), ActiveAll(c, rest[1..], true));
    }
  }

  lemma {:induction false} TightIsSeen(c: Config, a: Attr)
    requires Tight(a)
    ensures Active(c, a, true) == Active(c, a, false)
    decreases a, 1
  {
    if a.CfgAttrIs? { TightAreSeen(c, a.rest); }
  }

  lemma {:induction false} TightAreSeen(c: Config, rest: seq<Padded>)
    requires forall i :: 0 <= i < |rest| ==> TightPadded(rest[i])
    ensures ActiveAll(c, rest, true) == ActiveAll(c, rest, false)
    decreases rest, 0
  {
    if rest != [] {
      assert TightPadded(rest[0]);
      TightIsSeen(c, rest[0].attr);
      TightAreSeen(c, rest[1..]);
    }
  }

  // ------------------------------------------------------------ stacked attributes

  function CfgsOf(attrs: seq<Attr>): seq<string> {
    if attrs == [] then [] else AttrCfgs(Body(attrs[0])) + CfgsOf(attrs[1..])
  }

  ghost function DesugarStack(attrs: seq<Attr>): seq<Src> {
    if attrs == [] then [] else Desugar(attrs[0]) + DesugarStack(attrs[1..])
  }

  // Every cfg that build `c` activates on the item is satisfied: rustc keeps it.
  ghost predicate Kept(c: Config, attrs: seq<Attr>) { KeptBy(c, attrs, false) }

  ghost predicate KeptBy(c: Config, attrs: seq<Attr>, blind: bool) {
    forall i :: 0 <= i < |attrs| ==> SatAll(c, Active(c, attrs[i], blind))
  }

  ghost predicate TightAll(attrs: seq<Attr>) {
    forall i :: 0 <= i < |attrs| ==> Tight(attrs[i])
  }

  // Two or more expressions become operands of one `all`.
  ghost predicate LegalAttrs(attrs: seq<Attr>) {
    && (forall i :: 0 <= i < |attrs| ==> LegalAttr(attrs[i]))
    && (|DesugarStack(attrs)| > 1 ==> FitAll(DesugarStack(attrs)))
  }

  lemma {:induction false} StackReads(attrs: seq<Attr>)
    requires forall i :: 0 <= i < |attrs| ==> LegalAttr(attrs[i])
    ensures CfgsOf(attrs) == RenderAll(DesugarStack(attrs)) && LegalAll(DesugarStack(attrs))
  {
    if attrs != [] {
      ReadsEveryAttribute(attrs[0]);
      StackReads(attrs[1..]);
      RenderAllConcat(Desugar(attrs[0]), DesugarStack(attrs[1..]));
    }
  }

  lemma {:induction false} StackMeans(c: Config, attrs: seq<Attr>)
    ensures SatAll(c, DesugarStack(attrs)) <==> KeptBy(c, attrs, true)
  {
    if attrs != [] {
      DesugarMeans(c, attrs[0]);
      StackMeans(c, attrs[1..]);
      SatAllConcat(c, Desugar(attrs[0]), DesugarStack(attrs[1..]));
      KeptStep(c, attrs, true);
    }
  }

  lemma KeptStep(c: Config, attrs: seq<Attr>, blind: bool)
    requires attrs != []
    ensures KeptBy(c, attrs, blind) <==> SatAll(c, Active(c, attrs[0], blind)) && KeptBy(c, attrs[1..], blind)
  {
    if SatAll(c, Active(c, attrs[0], blind)) && KeptBy(c, attrs[1..], blind) {
      forall i | 0 <= i < |attrs| ensures SatAll(c, Active(c, attrs[i], blind)) {
        if i > 0 { assert attrs[i] == attrs[1..][i - 1]; }
      }
    }
  }

  // A gap only ever keeps more.
  lemma BlindKeepsMore(c: Config, attrs: seq<Attr>)
    ensures Kept(c, attrs) ==> KeptBy(c, attrs, true)
    ensures TightAll(attrs) ==> (Kept(c, attrs) <==> KeptBy(c, attrs, true))
  {
    forall i | 0 <= i < |attrs|
      ensures SatAll(c, Active(c, attrs[i], false)) ==> SatAll(c, Active(c, attrs[i], true))
      ensures Tight(attrs[i]) ==> Active(c, attrs[i], true) == Active(c, attrs[i], false)
    {
      BlindSeesLess(c, attrs[i]);
      if Tight(attrs[i]) { TightIsSeen(c, attrs[i]); }
    }
  }

  function Indented(texts: seq<string>): seq<string> {
    if texts == [] then [] else [" " + texts[0]] + Indented(texts[1..])
  }

  lemma {:induction false} JoinIndented(head: string, texts: seq<string>)
    ensures Join([head] + Indented(texts), ",") == Join([head] + texts, ", ")
    decreases |texts|
  {
    if texts != [] {
      var first, rest := texts[0], texts[1..];
      JoinIndented(first, rest);
      JoinHead(" ", first, Indented(rest));
      assert ([head] + Indented(texts))[1..] == [" " + first] + Indented(rest);
      assert ([head] + texts)[1..] == [first] + rest;
    }
  }

  lemma {:induction false} RenderSpaced(es: seq<Src>)
    ensures RenderAll(Spaced(es)) == Indented(RenderAll(es))
  {
    if es != [] {
      RenderRepad(es[0], " ");
      RenderSpaced(es[1..]);
      assert Spaced(es)[1..] == Spaced(es[1..]);
    }
  }

  lemma JoinHead(pad: string, head: string, rest: seq<string>)
    ensures Join([pad + head] + rest, ",") == pad + Join([head] + rest, ",")
  {
    assert ([pad + head] + rest)[1..] == rest == ([head] + rest)[1..];
  }

  // The single text expression of a stack is one spelling of its conjunction.
  lemma GateReads(es: seq<Src>)
    requires LegalAll(es) && (|es| > 1 ==> FitAll(es))
    ensures Gate(RenderAll(es)) == Render(GateSrc(es)) && Legal(GateSrc(es))
  {
    GateRenders(es);
    if |es| > 1 { SpacedIsLegal(es); }
  }

  lemma GateRenders(es: seq<Src>)
    ensures Gate(RenderAll(es)) == Render(GateSrc(es))
  {
    if es == [] {
      RenderOp(AllOf, es);
      assert RenderAll(es) == [] && Join([], ", ") == "" == Join([], ",");
    } else if |es| > 1 {
      GateText(es);
    }
  }

  lemma GateText(es: seq<Src>)
    requires es != []
    ensures Render(Combo("", AllOf, "", [es[0]] + Spaced(es[1..]), None, "")) ==
            "all(" + Join(RenderAll(es), ", ") + ")"
  {
    var parts := [es[0]] + Spaced(es[1..]);
    assert parts[1..] == Spaced(es[1..]);
    assert RenderAll(parts) == [Render(es[0])] + RenderAll(Spaced(es[1..]));
    RenderOp(AllOf, parts);
    RenderSpaced(es[1..]);
    JoinIndented(Render(es[0]), RenderAll(es[1..]));
    assert RenderAll(es) == [Render(es[0])] + RenderAll(es[1..]);
    assert "all" + "(" == "all(";
  }

  lemma SpacedIsLegal(es: seq<Src>)
    requires |es| > 1 && LegalAll(es) && FitAll(es)
    ensures Legal(GateSrc(es))
  {
    var parts := [es[0]] + Spaced(es[1..]);
    forall i | 0 <= i < |parts| ensures Legal(parts[i]) && Fits(parts[i]) {
      if i > 0 { LegalLead(es[i], " "); }
    }
  }

  lemma GateMeans(c: Config, es: seq<Src>)
    ensures Sat(c, GateSrc(es)) <==> SatAll(c, es)
  {
    if |es| != 1 && es != [] {
      var parts := [es[0]] + Spaced(es[1..]);
      forall i | 0 <= i < |es| ensures Sat(c, parts[i]) == Sat(c, es[i]) {
        if i > 0 { SatRepad(c, es[i], " " + es[i].lead, es[i].trail); }
      }
    }
  }

  // Any stack of attributes, nested `cfg_attr` included, becomes one expression. A
  // build satisfies it exactly when it satisfies every cfg that no gap hides, so
  // whenever it keeps the item, and only then if there is no gap.
  lemma StackedAttributesMean(attrs: seq<Attr>, c: Config)
    requires LegalAttrs(attrs)
    ensures var g := GateSrc(DesugarStack(attrs));
            && Gate(CfgsOf(attrs)) == Render(g) && Legal(g)
            && (Sat(c, g) <==> KeptBy(c, attrs, true))
            && (Kept(c, attrs) ==> Sat(c, g))
            && (TightAll(attrs) ==> (Sat(c, g) <==> Kept(c, attrs)))
  {
    StackReads(attrs);
    GateReads(DesugarStack(attrs));
    GateMeans(c, DesugarStack(attrs));
    StackMeans(c, attrs);
    BlindKeepsMore(c, attrs);
  }

  // With a gap the file is kept though no image compiles it: `#[cfg (test)]` is read
  // as no cfg at all, and no admissible build keeps the item.
  lemma HiddenGateIsMissed(shippable: set<string>, c: Config)
    requires Admissible(c, shippable)
    ensures var attrs := [CfgIs(" ", Flag("", "test", ""))];
            LegalAttrs(attrs) && CfgsOf(attrs) == [] && !Kept(c, attrs)
  {
    var a := CfgIs(" ", Flag("", "test", ""));
    var attrs := [a];
    GapHides(a);
    assert attrs[1..] == [] && CfgsOf([]) == [] && DesugarStack([]) == [];
    assert Active(c, a, false) == [Flag("", "test", "")];
    assert !Settable(Bare("test"), shippable);
    assert !Sat(c, Active(c, a, false)[0]);
    assert !SatAll(c, Active(c, attrs[0], false));
  }

  lemma WithheldIsNotKept(attrs: seq<Attr>, shippable: set<string>, c: Config)
    requires LegalAttrs(attrs) && Admissible(c, shippable)
    requires CfgHolds(Gate(CfgsOf(attrs)), shippable) == No
    ensures !Kept(c, attrs)
  {
    StackedAttributesMean(attrs, c);
    FalseIsNeverBuilt(GateSrc(DesugarStack(attrs)), shippable, c);
  }
}

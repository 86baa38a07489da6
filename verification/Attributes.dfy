// Attributes and the cfg expressions they impose. `cfg_attr(P, cfg(E))` is read
// as the implication `any(not(P), E)`, and stacked attributes are ANDed into one
// expression; the theorem is that the text built this way means what the
// attributes mean, nesting included.
module Attributes {
  import opened Text
  import opened SplitTop
  import opened Cfg

  // ------------------------------------------------------------------ on text

  predicate Wrapped(body: string, head: string) {
    |head| < |body| && StartsWith(body, head) && body[|body| - 1] == ')'
  }

  function AttrCfgs(body: string): seq<string>
    decreases |body|, 1, 0
  {
    if Wrapped(body, "cfg(") then [body[4..|body| - 1]]
    else if Wrapped(body, "cfg_attr(") then
      var inner := body[9..|body| - 1];
      PartsAreShorter(inner, 0);
      var parts := SplitFrom(inner, 0);
      Guarded(Strip(PySpace, parts[0]), parts[1..], |body|)
    else []
  }

  function Guarded(pred: string, parts: seq<string>, ghost bound: nat): seq<string>
    requires forall p :: p in parts ==> |p| < bound
    decreases bound, 0, |parts|
  {
    if parts == [] then []
    else Imply(pred, AttrCfgs(Strip(PySpace, parts[0]))) + Guarded(pred, parts[1..], bound)
  }

  function Imply(pred: string, exprs: seq<string>): (r: seq<string>)
    ensures |r| == |exprs|
  {
    if exprs == [] then []
    else ["any(not(" + pred + "), " + exprs[0] + ")"] + Imply(pred, exprs[1..])
  }

  function Gate(cfgs: seq<string>): string {
    if |cfgs| == 1 then cfgs[0] else "all(" + Join(cfgs, ", ") + ")"
  }

  // -------------------------------------------------------- spelling and meaning

  // `gap` is what stands between the name and its parenthesis.
  datatype Attr =
    | CfgIs(gap: string, expr: Src)
    | CfgAttrIs(gap: string, pred: Src, rest: seq<Padded>, blank: Option<string>)
    | Plain(text: string)

  datatype Padded = Padded(lead: string, attr: Attr, trail: string)

  predicate Opens(text: string, name: string) {
    StartsWith(text, name) && var t := StripLeft(PySpace, text[|name|..]); t != "" && t[0] == '('
  }

  // What rustc reads as one of the two, however it is spaced.
  predicate Spelled(text: string) {
    var t := Strip(PySpace, text);
    Opens(t, "cfg") || Opens(t, "cfg_attr")
  }

  // An attribute that stands for itself may say anything as long as it is neither
  // of the two.
  ghost predicate LegalAttr(a: Attr)
    decreases a
  {
    match a
    case CfgIs(gap, expr) => AllIn(PySpace, gap) && Legal(expr)
    case CfgAttrIs(gap, pred, rest, blank) =>
      && AllIn(PySpace, gap) && Legal(pred) && Fits(pred) && !Cut(pred)
      && (blank.Some? ==> AllIn(PySpace, blank.value))
      && forall i :: 0 <= i < |rest| ==> LegalPadded(rest[i])
    case Plain(text) => !Spelled(text)
  }

  // Inside a `cfg_attr` the cutter sees it too.
  ghost predicate LegalPadded(p: Padded)
    decreases p
  {
    && AllIn(PySpace, p.lead) && AllIn(PySpace, p.trail) && LegalAttr(p.attr)
    && (p.attr.CfgIs? ==> Fits(p.attr.expr))
    && (p.attr.Plain? ==> Inert(PaddedBody(p)))
  }

  // However a comma cuts it, no piece reads as a `cfg`.
  ghost predicate Inert(text: string) {
    Inside(text) && forall q :: q in SplitFrom(text, 0) ==> !Spelled(q)
  }

  function PaddedBody(p: Padded): string
    decreases p, 2
  {
    p.lead + Body(p.attr) + p.trail
  }

  function Body(a: Attr): string
    decreases a, 1
  {
    match a
    case CfgIs(gap, expr) => "cfg" + gap + ("(" + Render(expr) + ")")
    case CfgAttrIs(gap, pred, rest, blank) =>
      "cfg_attr" + gap + ("(" + Join([Render(pred)] + (PaddedBodies(rest) + Trailer(blank)), ",") + ")")
    case Plain(text) => text
  }

  function PaddedBodies(rest: seq<Padded>): (texts: seq<string>)
    ensures |texts| == |rest|
    ensures forall i :: 0 <= i < |rest| ==> texts[i] == PaddedBody(rest[i])
    decreases rest, 0
  {
    if rest == [] then []
    else [PaddedBody(rest[0])] + PaddedBodies(rest[1..])
  }

  // The cfg predicates an attribute activates under one build: those of a
  // `cfg_attr` count only when its own predicate holds there. To the `blind`, who
  // reads the text as the gate does, a gap hides the attribute; to rustc it does not.
  ghost function Active(c: Config, a: Attr, blind: bool): seq<Src>
    decreases a, 1
  {
    match a
    case CfgIs(gap, expr) => if blind && gap != "" then [] else [expr]
    case CfgAttrIs(gap, pred, rest, _) =>
      if (blind && gap != "") || !Sat(c, pred) then [] else ActiveAll(c, rest, blind)
    case Plain(_) => []
  }

  ghost function ActiveAll(c: Config, rest: seq<Padded>, blind: bool): seq<Src>
    decreases rest, 0
  {
    if rest == [] then [] else Active(c, rest[0].attr, blind) + ActiveAll(c, rest[1..], blind)
  }

  // No gap anywhere.
  ghost predicate Tight(a: Attr)
    decreases a
  {
    match a
    case CfgIs(gap, _) => gap == ""
    case CfgAttrIs(gap, _, rest, _) => gap == "" && forall i :: 0 <= i < |rest| ==> TightPadded(rest[i])
    case Plain(_) => true
  }

  ghost predicate TightPadded(p: Padded)
    decreases p
  {
    Tight(p.attr)
  }

  // ---------------------------------------------------- the expressions built

  function ImplySrc(pred: Src, e: Src): Src {
    var bare := pred.(lead := "", trail := "");
    Combo("", AnyOf, "", [Combo("", NotOf, "", [bare], None, ""), e.(lead := " " + e.lead)], None, "")
  }

  function ImplyAll(pred: Src, es: seq<Src>): (r: seq<Src>)
    ensures |r| == |es|
    ensures forall i :: 0 <= i < |es| ==> r[i] == ImplySrc(pred, es[i])
  {
    if es == [] then [] else [ImplySrc(pred, es[0])] + ImplyAll(pred, es[1..])
  }

  function Desugar(a: Attr): seq<Src>
    decreases a, 1
  {
    match a
    case CfgIs(gap, expr) => if gap != "" then [] else [expr]
    case CfgAttrIs(gap, pred, rest, _) => if gap != "" then [] else DesugarAll(pred, rest)
    case Plain(_) => []
  }

  function DesugarAll(pred: Src, rest: seq<Padded>): seq<Src>
    decreases rest, 0
  {
    if rest == [] then [] else ImplyAll(pred, Desugar(rest[0].attr)) + DesugarAll(pred, rest[1..])
  }

  function Spaced(es: seq<Src>): (r: seq<Src>)
    ensures |r| == |es|
    ensures forall i :: 0 <= i < |es| ==> r[i] == es[i].(lead := " " + es[i].lead)
  {
    seq(|es|, i requires 0 <= i < |es| => es[i].(lead := " " + es[i].lead))
  }

  function GateSrc(es: seq<Src>): Src {
    if |es| == 1 then es[0]
    else Combo("", AllOf, "", if es == [] then [] else [es[0]] + Spaced(es[1..]), None, "")
  }

  ghost predicate SatAll(c: Config, es: seq<Src>) {
    forall i :: 0 <= i < |es| ==> Sat(c, es[i])
  }

  ghost predicate LegalAll(es: seq<Src>) {
    forall i :: 0 <= i < |es| ==> Legal(es[i])
  }

  ghost predicate FitAll(es: seq<Src>) {
    forall i :: 0 <= i < |es| ==> Fits(es[i])
  }
}

// The three-valued `cfg` evaluator, on text. `Src` is the concrete syntax of a
// cfg predicate with every bit of padding kept, so that "for every spelling" is
// a quantifier over `Src`; `Sat` is what a build configuration makes of it.
module Cfg {
  import opened Text
  import opened SplitTop

  // True, False, None for "some buildable configuration could set it", and the
  // IndexError an operand-less `not()` ends in.
  datatype Verdict = Yes | No | Free | Raises

  datatype Op = AllOf | AnyOf | NotOf

  datatype Src =
    | Flag(lead: string, name: string, trail: string)
    | Pair(lead: string, key: string, g1: string, g2: string, value: string, trail: string)
    | Combo(lead: string, op: Op, gap: string, parts: seq<Src>, blank: Option<string>, trail: string)

  datatype Atom = Bare(name: string) | Setting(key: string, value: string)

  // One build: the bare options and the key/value settings, features included,
  // that it turns on.
  type Config = set<Atom>

  const NEVER_SHIPPED: set<string> := {"test", "kani"}

  // `test` and `kani` are off, and every feature that is on can be shipped.
  ghost predicate Admissible(c: Config, shippable: set<string>) {
    forall a :: a in c ==> Settable(a, shippable)
  }

  predicate Settable(a: Atom, shippable: set<string>) {
    match a
    case Bare(name) => name !in NEVER_SHIPPED
    case Setting(key, value) => key == "feature" ==> value in shippable
  }

  // ---------------------------------------------------------------- evaluator

  predicate Blank(c: char) { c == ' ' || c == '\t' }

  // `feature[ \t]*=[ \t]*"([^"]+)"`, matched against the whole atom.
  function FeatureName(atom: string): Option<string> {
    Assigned("feature", Blank, atom)
  }

  // A feature is read exactly off such an atom.
  lemma FeatureIsReadExactly(atom: string, f: string)
    ensures FeatureName(atom) == Some(f) <==>
              exists g1, g2 :: OnlyBlanks(g1) && OnlyBlanks(g2) && Assigns(atom, "feature", g1, g2, f)
  {
    if FeatureName(atom) == Some(f) { var g1, g2 := ReadAssigns(atom, "feature", Blank, f); }
    forall g1, g2 | OnlyBlanks(g1) && OnlyBlanks(g2) && Assigns(atom, "feature", g1, g2, f)
      ensures FeatureName(atom) == Some(f)
    {
      AssignsIsRead(atom, "feature", Blank, g1, g2, f);
    }
  }

  function CfgAtom(text: string, shippable: set<string>): Verdict {
    var atom := Strip(PySpace, text);
    if atom in NEVER_SHIPPED then No else
    match FeatureName(atom)
    case Some(f) => if f in shippable then Free else No
    case None => Free
  }

  function Combine(op: Op, held: seq<Verdict>): Verdict {
    if Raises in held then Raises else
    match op
    case NotOf =>
      if held == [] then Raises else
      (match held[0] case Yes => No case No => Yes case other => other)
    case AnyOf => if Yes in held then Yes else if Free in held then Free else No
    case AllOf => if No in held then No else if Free in held then Free else Yes
  }

  function NonBlank(parts: seq<string>): (kept: seq<string>)
    ensures forall p :: p in kept ==> p in parts
  {
    if parts == [] then []
    else if Strip(PySpace, parts[0]) == "" then NonBlank(parts[1..])
    else [parts[0]] + NonBlank(parts[1..])
  }

  // The operand texts of `all(...)`, `any(...)` or `not(...)`: the last character
  // is dropped unread, as the slice of the source drops it.
  function Operands(expr: string): (parts: seq<string>)
    requires |expr| >= 4
    ensures forall p :: p in parts ==> |p| < |expr|
  {
    var inner := if |expr| == 4 then "" else expr[4..|expr| - 1];
    PartsAreShorter(inner, 0);
    NonBlank(SplitFrom(inner, 0))
  }

  function CfgHolds(text: string, shippable: set<string>): Verdict
    decreases |text|, 1, 0
  {
    var expr := Strip(PySpace, text);
    if StartsWith(expr, "all(") then Combine(AllOf, Held(Operands(expr), shippable, |text|))
    else if StartsWith(expr, "any(") then Combine(AnyOf, Held(Operands(expr), shippable, |text|))
    else if StartsWith(expr, "not(") then Combine(NotOf, Held(Operands(expr), shippable, |text|))
    else CfgAtom(expr, shippable)
  }

  function Held(parts: seq<string>, shippable: set<string>, ghost bound: nat): (held: seq<Verdict>)
    requires forall p :: p in parts ==> |p| < bound
    ensures |held| == |parts|
    decreases bound, 0, |parts|
  {
    if parts == [] then []
    else [CfgHolds(parts[0], shippable)] + Held(parts[1..], shippable, bound)
  }

  lemma {:induction false} HeldAt(parts: seq<string>, shippable: set<string>, bound: nat)
    requires forall p :: p in parts ==> |p| < bound
    ensures forall i :: 0 <= i < |parts| ==> Held(parts, shippable, bound)[i] == CfgHolds(parts[i], shippable)
  {
    if parts != [] { HeldAt(parts[1..], shippable, bound); }
  }

  // ------------------------------------------------------- spelling and meaning

  predicate IdentChar(c: char) {
    'a' <= c <= 'z' || 'A' <= c <= 'Z' || '0' <= c <= '9' || c == '_'
  }

  ghost predicate Ident(s: string) {
    s != "" && AllIn(IdentChar, s)
  }

  // What the cutter, which does not see quotes, leaves of a quoted value after its
  // first top-level comma.
  function Fragments(s: Src): seq<string>
    requires s.Pair?
  {
    SplitFrom(s.value + ("\"" + s.trail), 0)[1..]
  }

  predicate Cut(s: Src) { s.Pair? && Fragments(s) != [] }

  // Fit to be an operand: the parentheses of a quoted value balance, and no fragment
  // of it passes for something definite. `QuotedValueIsFreeExactly` shows that the
  // second half is the exact condition and `QuotedCommaIsMisread` how it fails.
  ghost predicate Fits(s: Src) {
    s.Pair? ==> Inside(s.value) && forall i :: 0 <= i < |Fragments(s)| ==> Quiet(Fragments(s)[i])
  }

  predicate Quiet(text: string) {
    Strip(PySpace, text) == "" || CfgHolds(text, {}) == Free
  }

  // Well-formed concrete syntax. A quoted value holds no quote; as a gate of its own
  // it may hold anything else.
  ghost predicate Legal(s: Src)
    decreases s
  {
    && AllIn(PySpace, s.lead) && AllIn(PySpace, s.trail)
    && match s
       case Flag(_, name, _) => Ident(name)
       case Pair(_, key, g1, g2, value, _) =>
         && Ident(key) && AllIn(PySpace, g1) && AllIn(PySpace, g2)
         && '"' !in value
       case Combo(_, op, gap, parts, blank, _) =>
         && AllIn(PySpace, gap)
         && (op == NotOf ==> |parts| == 1)
         && (blank.Some? ==> AllIn(PySpace, blank.value))
         && forall i :: 0 <= i < |parts| ==> Legal(parts[i]) && Fits(parts[i])
  }

  function OpName(op: Op): string {
    match op case AllOf => "all" case AnyOf => "any" case NotOf => "not"
  }

  function Render(s: Src): string
    decreases s, 2
  {
    s.lead + Core(s) + s.trail
  }

  // A predicate without the padding around it.
  function Core(s: Src): string
    decreases s, 1
  {
    match s
    case Flag(_, name, _) => name
    case Pair(_, key, g1, g2, value, _) => key + g1 + "=" + g2 + "\"" + value + "\""
    case Combo(_, op, gap, parts, blank, _) =>
      OpName(op) + gap + ("(" + Join(RenderAll(parts) + Trailer(blank), ",") + ")")
  }

  function Trailer(blank: Option<string>): seq<string> {
    if blank.Some? then [blank.value] else []
  }

  function RenderAll(parts: seq<Src>): (texts: seq<string>)
    ensures |texts| == |parts|
    ensures forall i :: 0 <= i < |parts| ==> texts[i] == Render(parts[i])
    decreases parts, 0
  {
    if parts == [] then [] else [Render(parts[0])] + RenderAll(parts[1..])
  }

  // Whether configuration `c` satisfies the predicate, by the Rust Reference,
  // section "Conditional compilation".
  ghost predicate Sat(c: Config, s: Src)
    decreases s
  {
    match s
    case Flag(_, name, _) => Bare(name) in c
    case Pair(_, key, _, _, value, _) => Setting(key, value) in c
    case Combo(_, AllOf, _, parts, _, _) => forall i :: 0 <= i < |parts| ==> Sat(c, parts[i])
    case Combo(_, AnyOf, _, parts, _, _) => exists i :: 0 <= i < |parts| && Sat(c, parts[i])
    case Combo(_, NotOf, _, parts, _, _) => parts != [] && !Sat(c, parts[0])
  }

  // Kleene evaluation of the syntax tree. A gap before the parenthesis, a line
  // break around `=`, an empty feature name and an operand whose value is cut are
  // spellings the gate leaves free.
  function Kleene(s: Src, shippable: set<string>): Verdict
    decreases s, 1
  {
    match s
    case Flag(_, name, _) => if name in NEVER_SHIPPED then No else Free
    case Pair(_, key, g1, g2, value, _) =>
      if key == "feature" && value != "" && OnlyBlanks(g1) && OnlyBlanks(g2) && value !in shippable
      then No else Free
    case Combo(_, op, gap, parts, _, _) =>
      if gap != "" then Free else Combine(op, KleeneAll(parts, shippable))
  }

  function Heard(s: Src, shippable: set<string>): Verdict
    decreases s, 2
  {
    if Cut(s) then Free else Kleene(s, shippable)
  }

  function KleeneAll(parts: seq<Src>, shippable: set<string>): (held: seq<Verdict>)
    ensures |held| == |parts|
    ensures forall i :: 0 <= i < |parts| ==> held[i] == Heard(parts[i], shippable)
    decreases parts, 0
  {
    if parts == [] then [] else [Heard(parts[0], shippable)] + KleeneAll(parts[1..], shippable)
  }

  predicate OnlyBlanks(s: string) {
    forall i :: 0 <= i < |s| ==> s[i] == ' ' || s[i] == '\t'
  }
}

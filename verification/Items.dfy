// Item trees, the token streams they are written as, and the recursive walk the
// scanner has to agree with.
module Items {
  import opened Text
  import opened Attributes
  import opened AttributeLaws
  import opened Scan

  // Text stands for any other item; Braced for one with a body, `fn` or `impl`.
  datatype Item =
    | DeclItem(attrs: seq<Attr>, name: string)
    | InlineItem(attrs: seq<Attr>, name: string, inner: seq<Attr>, items: seq<Item>)
    | BracedItem(attrs: seq<Attr>, inner: seq<Attr>, items: seq<Item>)
    | TextItem(attrs: seq<Attr>)

  datatype SourceFile = SourceFile(inner: seq<Attr>, items: seq<Item>)

  function Outers(attrs: seq<Attr>): (ts: seq<Token>)
    ensures |ts| == |attrs|
    ensures forall i :: 0 <= i < |ts| ==> ts[i] == OuterAttr(Body(attrs[i]))
  {
    seq(|attrs|, i requires 0 <= i < |attrs| => OuterAttr(Body(attrs[i])))
  }

  function Inners(attrs: seq<Attr>): (ts: seq<Token>)
    ensures |ts| == |attrs|
    ensures forall i :: 0 <= i < |ts| ==> ts[i] == InnerAttr(Body(attrs[i]))
  {
    seq(|attrs|, i requires 0 <= i < |attrs| => InnerAttr(Body(attrs[i])))
  }

  function Flatten(item: Item): seq<Token>
    decreases item, 1
  {
    match item
    case DeclItem(attrs, name) => Outers(attrs) + [ModFile(name)]
    case InlineItem(attrs, name, inner, items) =>
      Outers(attrs) + [ModOpen(name)] + Inners(inner) + FlattenAll(items) + [Close]
    case BracedItem(attrs, inner, items) =>
      Outers(attrs) + [Code] + [Open] + Inners(inner) + FlattenAll(items) + [Close]
    case TextItem(attrs) => Outers(attrs) + [Code]
  }

  function FlattenAll(items: seq<Item>): seq<Token>
    decreases items, 0
  {
    if items == [] then [] else Flatten(items[0]) + FlattenAll(items[1..])
  }

  function FileTokens(f: SourceFile): seq<Token> {
    Inners(f.inner) + FlattenAll(f.items)
  }

  // ------------------------------------------------------------------- the walk

  // Where a `mod NAME;` stands: every attribute of the inline modules around it,
  // outermost first, then its own; and, apart, those of the other bodies around it.
  datatype Site = Site(name: string, guards: seq<Attr>, cover: seq<Attr>, rel: Option<string>, dirs: seq<string>)

  function LastPath(attrs: seq<Attr>): Option<string> {
    if attrs == [] then None else
    var named := PathOf(Body(attrs[|attrs| - 1]));
    if named.Some? then named else LastPath(attrs[..|attrs| - 1])
  }

  function DirOf(attrs: seq<Attr>, name: string): string {
    var rel := LastPath(attrs);
    if rel.Some? then rel.value else name
  }

  function Sites(item: Item, guards: seq<Attr>, cover: seq<Attr>, dirs: seq<string>): seq<Site>
    decreases item, 1
  {
    match item
    case DeclItem(attrs, name) => [Site(name, guards + attrs, cover, LastPath(attrs), dirs)]
    case InlineItem(attrs, name, inner, items) =>
      SitesAll(items, guards + attrs + inner, cover, dirs + [DirOf(attrs, name)])
    case BracedItem(attrs, inner, items) => SitesAll(items, guards, cover + attrs + inner, dirs)
    case TextItem(_) => []
  }

  function SitesAll(items: seq<Item>, guards: seq<Attr>, cover: seq<Attr>, dirs: seq<string>): seq<Site>
    decreases items, 0
  {
    if items == [] then [] else Sites(items[0], guards, cover, dirs) + SitesAll(items[1..], guards, cover, dirs)
  }

  function FileSites(f: SourceFile): seq<Site> {
    SitesAll(f.items, [], [], [])
  }

  function RecordOf(s: Site): Record {
    Record(s.name, CfgsOf(s.guards), s.rel, s.dirs)
  }

  function Records(sites: seq<Site>): (r: seq<Record>)
    ensures |r| == |sites|
    ensures forall i :: 0 <= i < |sites| ==> r[i] == RecordOf(sites[i])
  {
    seq(|sites|, i requires 0 <= i < |sites| => RecordOf(sites[i]))
  }

  // ------------------------------------------------- runs of attributes in a stream

  lemma {:induction false} CfgsOfConcat(a: seq<Attr>, b: seq<Attr>)
    ensures CfgsOf(a + b) == CfgsOf(a) + CfgsOf(b)
  {
    if a == [] {
      assert a + b == b;
    } else {
      assert (a + b)[1..] == a[1..] + b;
      CfgsOfConcat(a[1..], b);
    }
  }

  lemma CfgsOfOne(a: Attr)
    ensures CfgsOf([a]) == AttrCfgs(Body(a))
  {
    assert [a][1..] == [] && CfgsOf([]) == [];
    assert AttrCfgs(Body(a)) + [] == AttrCfgs(Body(a));
  }

  lemma CfgsOfSnoc(attrs: seq<Attr>)
    requires attrs != []
    ensures CfgsOf(attrs) == CfgsOf(attrs[..|attrs| - 1]) + AttrCfgs(Body(attrs[|attrs| - 1]))
  {
    var front, last := attrs[..|attrs| - 1], attrs[|attrs| - 1];
    CfgsOfConcat(front, [last]);
    CfgsOfOne(last);
    assert attrs == front + [last];
  }

  lemma OutersSnoc(attrs: seq<Attr>)
    requires attrs != []
    ensures Outers(attrs)[..|attrs| - 1] == Outers(attrs[..|attrs| - 1])
  {}

  lemma {:induction false} RunOfAttrs(attrs: seq<Attr>)
    ensures RunCfgs(Outers(attrs)) == CfgsOf(attrs) && RunPath(Outers(attrs)) == LastPath(attrs)
  {
    if attrs != [] {
      OutersSnoc(attrs);
      RunOfAttrs(attrs[..|attrs| - 1]);
      CfgsOfSnoc(attrs);
    }
  }

  lemma {:induction false} RunSkipsText(attrs: seq<Attr>, rest: seq<Token>, st: State)
    ensures Run(Outers(attrs) + [Code] + rest, st) == Run(rest, st)
  {
    var tokens := Outers(attrs) + [Code] + rest;
    if attrs == [] {
      assert tokens[0] == Code && tokens[1..] == rest;
    } else {
      OutersThen(attrs, Code, rest);
      RunSkipsOne(tokens, |attrs|, st);
      RunSkipsText(attrs[1..], rest, st);
    }
  }

  lemma OutersThen(attrs: seq<Attr>, t: Token, rest: seq<Token>)
    requires attrs != []
    ensures (Outers(attrs) + [t] + rest)[1..] == Outers(attrs[1..]) + [t] + rest
  {}

  // An attribute of a run that stands before no module is passed over.
  lemma RunSkipsOne(tokens: seq<Token>, k: nat, st: State)
    requires 0 < k < |tokens| && tokens[k] == Code && forall i :: 0 <= i < k ==> tokens[i].OuterAttr?
    ensures Run(tokens, st) == Run(tokens[1..], st)
  {
    RunLengthIs(tokens, k);
  }

  lemma RunReadsModule(attrs: seq<Attr>, t: Token, rest: seq<Token>, st: State)
    requires t.ModFile? || t.ModOpen?
    ensures Run(Outers(attrs) + [t] + rest, st) ==
            Run(rest, if t.ModOpen? then Enter(st, t.name, CfgsOf(attrs), LastPath(attrs))
                      else Declare(st, t.name, CfgsOf(attrs), LastPath(attrs)))
  {
    var tokens := Outers(attrs) + [t] + rest;
    RunLengthIs(tokens, |attrs|);
    assert tokens[..|attrs|] == Outers(attrs) && tokens[|attrs| + 1..] == rest;
    RunOfAttrs(attrs);
  }

  // Inner attributes right after a brace: they belong to the block they open.
  ghost function AddInner(st: State, cfgs: seq<string>): State
    requires st.blocks != []
  {
    var n := |st.blocks|;
    st.(blocks := st.blocks[..n - 1] + [st.blocks[n - 1].(cfgs := st.blocks[n - 1].cfgs + cfgs)])
  }

  lemma {:induction false} RunReadsInner(inner: seq<Attr>, rest: seq<Token>, st: State)
    requires st.blocks != [] && st.blocks[|st.blocks| - 1].depth == st.depth
    ensures Run(Inners(inner) + rest, st) == Run(rest, AddInner(st, CfgsOf(inner)))
  {
    var tokens := Inners(inner) + rest;
    if inner == [] {
      assert tokens == rest;
      AddInnerNothing(st);
    } else {
      var here := AttrCfgs(Body(inner[0]));
      assert tokens[1..] == Inners(inner[1..]) + rest;
      assert Inner(st, Body(inner[0])) == AddInner(st, here);
      RunReadsInner(inner[1..], rest, AddInner(st, here));
      AddInnerTwice(st, here, CfgsOf(inner[1..]));
    }
  }

  lemma AddInnerNothing(st: State)
    requires st.blocks != []
    ensures AddInner(st, []) == st
  {
    var n := |st.blocks|;
    assert st.blocks[n - 1].cfgs + [] == st.blocks[n - 1].cfgs;
    assert st.blocks[..n - 1] + [st.blocks[n - 1]] == st.blocks;
  }

  lemma AddInnerTwice(st: State, a: seq<string>, b: seq<string>)
    requires st.blocks != []
    ensures AddInner(AddInner(st, a), b) == AddInner(st, a + b)
  {
    var n := |st.blocks|;
    assert AddInner(st, a).blocks[..n - 1] == st.blocks[..n - 1];
    assert st.blocks[n - 1].cfgs + a + b == st.blocks[n - 1].cfgs + (a + b);
  }

  lemma {:induction false} RunIgnoresInner(inner: seq<Attr>, rest: seq<Token>, st: State)
    requires st.depth > 0
    requires st.blocks != [] ==> st.blocks[|st.blocks| - 1].depth != st.depth
    ensures Run(Inners(inner) + rest, st) == Run(rest, st)
  {
    var tokens := Inners(inner) + rest;
    if inner == [] {
      assert tokens == rest;
    } else {
      assert tokens[1..] == Inners(inner[1..]) + rest;
      RunIgnoresInner(inner[1..], rest, st);
    }
  }

  // At depth zero they belong to the file.
  ghost function AddOwn(st: State, cfgs: seq<string>): State {
    st.(own := st.own + cfgs)
  }

  lemma AddOwnLaws(st: State, a: seq<string>, b: seq<string>)
    ensures AddOwn(st, []) == st && AddOwn(AddOwn(st, a), b) == AddOwn(st, a + b)
  {
    assert st.own + [] == st.own && st.own + a + b == st.own + (a + b);
  }

  lemma {:induction false} RunReadsPrologue(inner: seq<Attr>, rest: seq<Token>, st: State)
    requires st.depth == 0 && st.blocks == []
    ensures Run(Inners(inner) + rest, st) == Run(rest, AddOwn(st, CfgsOf(inner)))
  {
    var tokens := Inners(inner) + rest;
    if inner == [] {
      assert tokens == rest;
      AddOwnLaws(st, [], []);
    } else {
      var here := AttrCfgs(Body(inner[0]));
      assert tokens[1..] == Inners(inner[1..]) + rest;
      assert Next(tokens, st) == (AddOwn(st, here), 1);
      RunReadsPrologue(inner[1..], rest, AddOwn(st, here));
      AddOwnLaws(st, here, CfgsOf(inner[1..]));
    }
  }
}

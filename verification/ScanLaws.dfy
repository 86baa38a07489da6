// The stack scanner refines the recursive walk.
module ScanLaws {
  import opened Attributes
  import opened AttributeLaws
  import opened Scan
  import opened Items

  // The stack spells out the context of the walk.
  ghost predicate Context(st: State, guards: seq<Attr>, dirs: seq<string>) {
    && st.depth >= 0 && Stacked(st.blocks, st.depth)
    && BlockCfgs(st.blocks) == CfgsOf(guards) && BlockDirs(st.blocks) == dirs
  }

  ghost function AddRecords(st: State, rs: seq<Record>): State {
    st.(records := st.records + rs)
  }

  lemma AddRecordsLaws(st: State, a: seq<Record>, b: seq<Record>)
    ensures AddRecords(st, []) == st && AddRecords(AddRecords(st, a), b) == AddRecords(st, a + b)
  {
    assert st.records + [] == st.records && st.records + a + b == st.records + (a + b);
  }

  lemma {:induction false} BlocksConcat(blocks: seq<Block>, b: Block)
    ensures BlockCfgs(blocks + [b]) == BlockCfgs(blocks) + b.cfgs
    ensures BlockDirs(blocks + [b]) == BlockDirs(blocks) + [b.dir]
  {
    if blocks == [] {
      assert blocks + [b] == [b] && [b][1..] == [];
      assert BlockCfgs([b]) == b.cfgs + BlockCfgs([]);
    } else {
      assert (blocks + [b])[1..] == blocks[1..] + [b];
      BlocksConcat(blocks[1..], b);
    }
  }

  lemma StackedStays(blocks: seq<Block>, depth: int)
    requires Stacked(blocks, depth)
    ensures PopDeeper(blocks, depth) == blocks && PopDeeper(blocks, depth + 1) == blocks
    ensures Stacked(blocks, depth + 1)
  {}

  // Entering an inline module and reading its inner attributes extends the context.
  ghost function Entered(st: State, item: Item): State
    requires item.InlineItem?
  {
    AddInner(Enter(st, item.name, CfgsOf(item.attrs), LastPath(item.attrs)), CfgsOf(item.inner))
  }

  ghost function Pushed(st: State, item: Item): Block
    requires item.InlineItem?
  {
    Block(st.depth + 1, CfgsOf(item.attrs) + CfgsOf(item.inner), DirOf(item.attrs, item.name))
  }

  lemma EnteredBlocks(st: State, item: Item)
    requires item.InlineItem?
    ensures Entered(st, item).blocks == st.blocks + [Pushed(st, item)]
    ensures Entered(st, item).depth == st.depth + 1
  {
    var entered := Enter(st, item.name, CfgsOf(item.attrs), LastPath(item.attrs));
    assert entered.blocks[..|st.blocks|] == st.blocks;
  }

  lemma StackedPush(blocks: seq<Block>, depth: int, b: Block)
    requires Stacked(blocks, depth) && b.depth == depth + 1
    ensures Stacked(blocks + [b], depth + 1)
  {}

  lemma GuardCfgs(guards: seq<Attr>, attrs: seq<Attr>, inner: seq<Attr>)
    ensures CfgsOf(guards + attrs + inner) == CfgsOf(guards) + (CfgsOf(attrs) + CfgsOf(inner))
  {
    CfgsOfConcat(guards, attrs);
    CfgsOfConcat(guards + attrs, inner);
    Assoc(CfgsOf(guards), CfgsOf(attrs), CfgsOf(inner));
  }

  lemma Assoc(a: seq<string>, b: seq<string>, c: seq<string>)
    ensures a + b + c == a + (b + c)
  {}

  lemma PushedContext(st: State, guards: seq<Attr>, dirs: seq<string>, st': State, b: Block, guards': seq<Attr>)
    requires Context(st, guards, dirs)
    requires st'.blocks == st.blocks + [b] && st'.depth == b.depth == st.depth + 1
    requires CfgsOf(guards') == CfgsOf(guards) + b.cfgs
    ensures Context(st', guards', dirs + [b.dir])
  {
    BlocksConcat(st.blocks, b);
    StackedPush(st.blocks, st.depth, b);
  }

  lemma EnteredContext(st: State, item: Item, guards: seq<Attr>, dirs: seq<string>)
    requires item.InlineItem? && Context(st, guards, dirs)
    ensures Context(Entered(st, item), guards + item.attrs + item.inner, dirs + [DirOf(item.attrs, item.name)])
  {
    EnteredBlocks(st, item);
    GuardCfgs(guards, item.attrs, item.inner);
    PushedContext(st, guards, dirs, Entered(st, item), Pushed(st, item), guards + item.attrs + item.inner);
  }

  lemma LeavesInline(st: State, item: Item, rs: seq<Record>, rest: seq<Token>)
    requires item.InlineItem? && Stacked(st.blocks, st.depth)
    ensures Run([Close] + rest, AddRecords(Entered(st, item), rs)) == Run(rest, AddRecords(st, rs))
  {
    var tokens := [Close] + rest;
    assert tokens[1..] == rest;
    var inside := AddRecords(Entered(st, item), rs);
    var n := |st.blocks|;
    EnteredBlocks(st, item);
    assert inside.blocks[..n] == st.blocks;
    assert PopDeeper(inside.blocks, st.depth) == PopDeeper(st.blocks, st.depth);
    StackedStays(st.blocks, st.depth);
    assert Brace(inside, -1) == AddRecords(st, rs);
  }

  lemma EntersBody(st: State, inner: seq<Attr>, rest: seq<Token>)
    requires st.depth >= 0 && Stacked(st.blocks, st.depth)
    ensures Run([Open] + (Inners(inner) + rest), st) == Run(rest, st.(depth := st.depth + 1))
  {
    OpensBody(st, Inners(inner) + rest);
    RunIgnoresInner(inner, rest, st.(depth := st.depth + 1));
  }

  lemma OpensBody(st: State, rest: seq<Token>)
    requires Stacked(st.blocks, st.depth)
    ensures Run([Open] + rest, st) == Run(rest, st.(depth := st.depth + 1))
  {
    assert ([Open] + rest)[1..] == rest;
    StackedStays(st.blocks, st.depth);
    assert Brace(st, 1) == st.(depth := st.depth + 1);
  }

  lemma LeavesBody(st: State, rs: seq<Record>, rest: seq<Token>)
    requires Stacked(st.blocks, st.depth)
    ensures Run([Close] + rest, AddRecords(st.(depth := st.depth + 1), rs)) == Run(rest, AddRecords(st, rs))
  {
    var tokens := [Close] + rest;
    assert tokens[1..] == rest;
    StackedStays(st.blocks, st.depth);
    assert Brace(AddRecords(st.(depth := st.depth + 1), rs), -1) == AddRecords(st, rs);
  }

  lemma {:induction false} WalkInline(item: Item, guards: seq<Attr>, cover: seq<Attr>, dirs: seq<string>,
                                      rest: seq<Token>, st: State)
    requires item.InlineItem? && Context(st, guards, dirs)
    ensures Run(Flatten(item) + rest, st) == Run(rest, AddRecords(st, Records(Sites(item, guards, cover, dirs))))
    decreases item, 0
  {
    var close := [Close] + rest;
    var body := FlattenAll(item.items) + close;
    var all := Inners(item.inner) + body;
    InlineTokens(item, rest);
    RunReadsModule(item.attrs, ModOpen(item.name), all, st);
    RunReadsInner(item.inner, body, Enter(st, item.name, CfgsOf(item.attrs), LastPath(item.attrs)));
    EnteredContext(st, item, guards, dirs);
    var g, d := guards + item.attrs + item.inner, dirs + [DirOf(item.attrs, item.name)];
    WalkAll(item.items, g, cover, d, close, Entered(st, item));
    LeavesInline(st, item, Records(SitesAll(item.items, g, cover, d)), rest);
  }

  lemma BracedTokens(item: Item, rest: seq<Token>)
    requires item.BracedItem?
    ensures Flatten(item) + rest == Outers(item.attrs) + [Code] +
                                    ([Open] + (Inners(item.inner) + (FlattenAll(item.items) + ([Close] + rest))))
  {}

  lemma InlineTokens(item: Item, rest: seq<Token>)
    requires item.InlineItem?
    ensures Flatten(item) + rest == Outers(item.attrs) + [ModOpen(item.name)] +
                                    (Inners(item.inner) + (FlattenAll(item.items) + ([Close] + rest)))
  {}

  lemma {:induction false} WalkBraced(item: Item, guards: seq<Attr>, cover: seq<Attr>, dirs: seq<string>,
                                      rest: seq<Token>, st: State)
    requires item.BracedItem? && Context(st, guards, dirs)
    ensures Run(Flatten(item) + rest, st) == Run(rest, AddRecords(st, Records(Sites(item, guards, cover, dirs))))
    decreases item, 0
  {
    var close := [Close] + rest;
    var body := FlattenAll(item.items) + close;
    var all := [Open] + (Inners(item.inner) + body);
    BracedTokens(item, rest);
    RunSkipsText(item.attrs, all, st);
    EntersBody(st, item.inner, body);
    StackedStays(st.blocks, st.depth);
    var c := cover + item.attrs + item.inner;
    WalkAll(item.items, guards, c, dirs, close, st.(depth := st.depth + 1));
    LeavesBody(st, Records(SitesAll(item.items, guards, c, dirs)), rest);
  }

  lemma {:induction false} WalkItem(item: Item, guards: seq<Attr>, cover: seq<Attr>, dirs: seq<string>,
                                    rest: seq<Token>, st: State)
    requires Context(st, guards, dirs)
    ensures Run(Flatten(item) + rest, st) == Run(rest, AddRecords(st, Records(Sites(item, guards, cover, dirs))))
    decreases item, 1
  {
    match item
    case DeclItem(attrs, name) =>
      assert Flatten(item) + rest == Outers(attrs) + [ModFile(name)] + rest;
      RunReadsModule(attrs, ModFile(name), rest, st);
      CfgsOfConcat(guards, attrs);
      var site := Site(name, guards + attrs, cover, LastPath(attrs), dirs);
      assert Records([site]) == [RecordOf(site)];
    case InlineItem(_, _, _, _) => WalkInline(item, guards, cover, dirs, rest, st);
    case BracedItem(_, _, _) => WalkBraced(item, guards, cover, dirs, rest, st);
    case TextItem(attrs) =>
      RunSkipsText(attrs, rest, st);
      AddRecordsLaws(st, [], []);
      assert Records([]) == [];
  }

  lemma HeadTokens(items: seq<Item>, rest: seq<Token>)
    requires items != []
    ensures FlattenAll(items) + rest == Flatten(items[0]) + (FlattenAll(items[1..]) + rest)
  {}

  lemma RecordsConcat(a: seq<Site>, b: seq<Site>)
    ensures Records(a + b) == Records(a) + Records(b)
  {}

  lemma {:induction false} WalkAll(items: seq<Item>, guards: seq<Attr>, cover: seq<Attr>, dirs: seq<string>,
                                   rest: seq<Token>, st: State)
    requires Context(st, guards, dirs)
    ensures Run(FlattenAll(items) + rest, st) ==
            Run(rest, AddRecords(st, Records(SitesAll(items, guards, cover, dirs))))
    decreases items, 0
  {
    if items == [] {
      assert FlattenAll(items) + rest == rest && Records([]) == [];
      AddRecordsLaws(st, [], []);
    } else {
      var here, more := Sites(items[0], guards, cover, dirs), SitesAll(items[1..], guards, cover, dirs);
      var tail := FlattenAll(items[1..]) + rest;
      HeadTokens(items, rest);
      WalkItem(items[0], guards, cover, dirs, tail, st);
      WalkAll(items[1..], guards, cover, dirs, rest, AddRecords(st, Records(here)));
      AddRecordsLaws(st, Records(here), Records(more));
      RecordsConcat(here, more);
    }
  }

  // For every well-nested file: one record per `mod NAME;`, carrying exactly the
  // cfgs and directories of the inline modules around it and then its own cfgs;
  // the file itself is given its depth-zero inner attributes and no other.
  lemma ScanIsTheWalk(f: SourceFile)
    ensures Run(FileTokens(f), START).own == CfgsOf(f.inner)
    ensures Run(FileTokens(f), START).records == Records(FileSites(f))
  {
    RunReadsPrologue(f.inner, FlattenAll(f.items), START);
    var st := AddOwn(START, CfgsOf(f.inner));
    assert FlattenAll(f.items) + [] == FlattenAll(f.items);
    WalkAll(f.items, [], [], [], [], st);
    FromNothing(CfgsOf(f.inner), Records(FileSites(f)));
  }

  lemma FromNothing(own: seq<string>, rs: seq<Record>)
    ensures [] + own == own && [] + rs == rs
  {}
}

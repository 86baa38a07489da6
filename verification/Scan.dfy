// The module scanner. It reads a file as a stream of the tokens it stops on and
// keeps a stack of the inline modules it is inside; the theorem is that on the
// stream of any well-nested item tree it returns what a recursive walk of the
// tree returns.
module Scan {
  import opened Text
  import opened Attributes

  // `Code` is any run of text with no structure in it; a bracketed attribute
  // carries its trimmed body.
  datatype Token =
    | Open
    | Close
    | InnerAttr(body: string)
    | OuterAttr(body: string)
    | ModFile(name: string)
    | ModOpen(name: string)
    | Code

  datatype Block = Block(depth: int, cfgs: seq<string>, dir: string)

  datatype Record = Record(name: string, cfgs: seq<string>, rel: Option<string>, dirs: seq<string>)

  datatype State = State(own: seq<string>, blocks: seq<Block>, records: seq<Record>, depth: int)

  // ---------------------------------------------------------- the pieces of a step

  predicate PathBlank(c: char) { c in " \t\r\n" }

  // `path[ \t\r\n]*=[ \t\r\n]*"([^"]+)"`, matched against the whole body.
  function PathOf(body: string): Option<string> {
    Assigned("path", PathBlank, body)
  }

  predicate PathPad(s: string) {
    forall i :: 0 <= i < |s| ==> s[i] == ' ' || s[i] == '\t' || s[i] == '\r' || s[i] == '\n'
  }

  // The operand is read exactly off an attribute with blanks or line breaks around its
  // equals sign.
  lemma PathIsReadExactly(body: string, rel: string)
    ensures PathOf(body) == Some(rel) <==>
              exists g1, g2 :: PathPad(g1) && PathPad(g2) && Assigns(body, "path", g1, g2, rel)
  {
    if PathOf(body) == Some(rel) { var g1, g2 := ReadAssigns(body, "path", PathBlank, rel); }
    forall g1, g2 | PathPad(g1) && PathPad(g2) && Assigns(body, "path", g1, g2, rel)
      ensures PathOf(body) == Some(rel)
    {
      AssignsIsRead(body, "path", PathBlank, g1, g2, rel);
    }
  }

  function BlockCfgs(blocks: seq<Block>): seq<string> {
    if blocks == [] then [] else blocks[0].cfgs + BlockCfgs(blocks[1..])
  }

  function BlockDirs(blocks: seq<Block>): seq<string> {
    if blocks == [] then [] else [blocks[0].dir] + BlockDirs(blocks[1..])
  }

  function PopDeeper(blocks: seq<Block>, depth: int): seq<Block> {
    if blocks != [] && blocks[|blocks| - 1].depth > depth then PopDeeper(blocks[..|blocks| - 1], depth) else blocks
  }

  // Length of the run of outer attributes a stream opens with.
  function RunLength(tokens: seq<Token>): (k: nat)
    ensures k <= |tokens|
    ensures forall i :: 0 <= i < k ==> tokens[i].OuterAttr?
    ensures k < |tokens| ==> !tokens[k].OuterAttr?
  {
    if tokens == [] || !tokens[0].OuterAttr? then 0 else 1 + RunLength(tokens[1..])
  }

  function RunCfgs(run: seq<Token>): seq<string>
    requires forall i :: 0 <= i < |run| ==> run[i].OuterAttr?
  {
    if run == [] then [] else RunCfgs(run[..|run| - 1]) + AttrCfgs(run[|run| - 1].body)
  }

  // The last `path` of a run wins.
  function RunPath(run: seq<Token>): Option<string>
    requires forall i :: 0 <= i < |run| ==> run[i].OuterAttr?
  {
    if run == [] then None else
    var named := PathOf(run[|run| - 1].body);
    if named.Some? then named else RunPath(run[..|run| - 1])
  }

  function Brace(st: State, step: int): State {
    st.(depth := st.depth + step, blocks := PopDeeper(st.blocks, st.depth + step))
  }

  function Inner(st: State, body: string): State {
    var n := |st.blocks|;
    if n > 0 && st.blocks[n - 1].depth == st.depth then
      var top := st.blocks[n - 1];
      st.(blocks := st.blocks[..n - 1] + [top.(cfgs := top.cfgs + AttrCfgs(body))])
    else if n == 0 && st.depth == 0 then st.(own := st.own + AttrCfgs(body))
    else st
  }

  function Enter(st: State, name: string, cfgs: seq<string>, rel: Option<string>): State {
    var dir := if rel.Some? then rel.value else name;
    st.(blocks := st.blocks + [Block(st.depth + 1, cfgs, dir)], depth := st.depth + 1)
  }

  function Declare(st: State, name: string, cfgs: seq<string>, rel: Option<string>): State {
    st.(records := st.records + [Record(name, BlockCfgs(st.blocks) + cfgs, rel, BlockDirs(st.blocks))])
  }

  // One token, or one run of attributes with the module it names: the new state
  // and how many tokens were read. A run that names no module gives up its first
  // attribute only, so that the braces of what it does gate still count.
  function Next(tokens: seq<Token>, st: State): (r: (State, nat))
    requires tokens != []
    ensures 1 <= r.1 <= |tokens|
  {
    var t := tokens[0];
    if t.Code? then (st, 1)
    else if t.Open? then (Brace(st, 1), 1)
    else if t.Close? then (Brace(st, -1), 1)
    else if t.InnerAttr? then (Inner(st, t.body), 1)
    else
      var k := RunLength(tokens);
      if k == |tokens| then (st, 1)
      else if tokens[k].ModOpen? then
        (Enter(st, tokens[k].name, RunCfgs(tokens[..k]), RunPath(tokens[..k])), k + 1)
      else if tokens[k].ModFile? then
        (Declare(st, tokens[k].name, RunCfgs(tokens[..k]), RunPath(tokens[..k])), k + 1)
      else (st, 1)
  }

  // The state after reading all of `tokens` from `st`.
  function Run(tokens: seq<Token>, st: State): State
    decreases |tokens|
  {
    if tokens == [] then st else
    var (after, k) := Next(tokens, st);
    Run(tokens[k..], after)
  }

  const START := State([], [], [], 0)

  // -------------------------------------------------------------- the scan itself

  // What every iteration keeps, on any stream at all: depths of the open blocks
  // strictly increase and never exceed the brace depth.
  ghost predicate Stacked(blocks: seq<Block>, depth: int) {
    && (forall i, j :: 0 <= i < j < |blocks| ==> blocks[i].depth < blocks[j].depth)
    && (blocks != [] ==> blocks[|blocks| - 1].depth <= depth)
  }

  method Pop(blocks: seq<Block>, depth: int, ghost was: int) returns (kept: seq<Block>)
    requires Stacked(blocks, was)
    ensures kept == PopDeeper(blocks, depth) && Stacked(kept, depth)
  {
    kept := blocks;
    while kept != [] && kept[|kept| - 1].depth > depth
      invariant Stacked(kept, was)
      invariant PopDeeper(kept, depth) == PopDeeper(blocks, depth)
    {
      kept := kept[..|kept| - 1];
    }
  }

  method ReadRun(tokens: seq<Token>) returns (cfgs: seq<string>, rel: Option<string>, k: nat)
    ensures k == RunLength(tokens) && cfgs == RunCfgs(tokens[..k]) && rel == RunPath(tokens[..k])
  {
    cfgs, rel, k := [], None, 0;
    while k < |tokens| && tokens[k].OuterAttr?
      invariant k <= |tokens|
      invariant forall i :: 0 <= i < k ==> tokens[i].OuterAttr?
      invariant cfgs == RunCfgs(tokens[..k]) && rel == RunPath(tokens[..k])
    {
      RunGrows(tokens, k);
      cfgs := cfgs + AttrCfgs(tokens[k].body);
      var named := PathOf(tokens[k].body);
      rel := if named.Some? then named else rel;
      k := k + 1;
    }
    RunLengthIs(tokens, k);
  }

  lemma RunGrows(tokens: seq<Token>, k: nat)
    requires k < |tokens| && forall i :: 0 <= i <= k ==> tokens[i].OuterAttr?
    ensures RunCfgs(tokens[..k + 1]) == RunCfgs(tokens[..k]) + AttrCfgs(tokens[k].body)
    ensures var named := PathOf(tokens[k].body);
            RunPath(tokens[..k + 1]) == if named.Some? then named else RunPath(tokens[..k])
  {
    var run := tokens[..k + 1];
    assert run[..|run| - 1] == tokens[..k] && run[|run| - 1] == tokens[k];
  }

  lemma {:induction false} RunLengthIs(tokens: seq<Token>, k: nat)
    requires k <= |tokens| && forall i :: 0 <= i < k ==> tokens[i].OuterAttr?
    requires k == |tokens| || !tokens[k].OuterAttr?
    ensures RunLength(tokens) == k
  {
    if k > 0 { RunLengthIs(tokens[1..], k - 1); }
  }

  method ScanFile(tokens: seq<Token>) returns (own: seq<string>, records: seq<Record>)
    ensures var end := Run(tokens, START); own == end.own && records == end.records
  {
    var st, pos := START, 0;
    ghost var end := Run(tokens, START);
    RunFrames(tokens, st);
    while pos < |tokens|
      invariant 0 <= pos <= |tokens|
      invariant Stacked(st.blocks, st.depth)
      invariant Run(tokens[pos..], st) == end
      decreases |tokens| - pos
    {
      st, pos := Advance(tokens, pos, st);
    }
    RunFrames(tokens, st);
    own, records := st.own, st.records;
  }

  lemma RunFrames(tokens: seq<Token>, st: State)
    ensures tokens[0..] == tokens && Run(tokens[|tokens|..], st) == st
  {}

  lemma RunTakes(tokens: seq<Token>, pos: nat, st: State, after: State, k: nat)
    requires pos < |tokens| && (after, k) == Next(tokens[pos..], st)
    ensures 1 <= k <= |tokens| - pos && Run(tokens[pos..], st) == Run(tokens[pos + k..], after)
  {
    assert tokens[pos..][k..] == tokens[pos + k..];
  }

  // The position strictly advances and the outcome stays what it was.
  method Advance(tokens: seq<Token>, pos: nat, st: State) returns (after: State, next: nat)
    requires pos < |tokens| && Stacked(st.blocks, st.depth)
    ensures pos < next <= |tokens| && Stacked(after.blocks, after.depth)
    ensures Run(tokens[next..], after) == Run(tokens[pos..], st)
  {
    var k;
    after, k := ScanStep(tokens[pos..], st);
    RunTakes(tokens, pos, st, after, k);
    next := pos + k;
  }

  // One iteration: the stack is popped, grown or written in place.
  method ScanStep(tokens: seq<Token>, st: State) returns (after: State, k: nat)
    requires tokens != [] && Stacked(st.blocks, st.depth)
    ensures (after, k) == Next(tokens, st) && Stacked(after.blocks, after.depth)
  {
    after, k := st, 1;
    var t := tokens[0];
    if t.Open? || t.Close? {
      var depth := st.depth + if t.Open? then 1 else -1;
      var blocks := Pop(st.blocks, depth, st.depth);
      after := st.(depth := depth, blocks := blocks);
    } else if t.InnerAttr? {
      after := ReadInner(st, t.body);
    } else if !t.Code? {
      var cfgs, rel, cursor := ReadRun(tokens);
      if cursor < |tokens| && tokens[cursor].ModOpen? {
        after, k := Enter(st, tokens[cursor].name, cfgs, rel), cursor + 1;
      } else if cursor < |tokens| && tokens[cursor].ModFile? {
        after, k := Declare(st, tokens[cursor].name, cfgs, rel), cursor + 1;
      }
    }
  }

  method ReadInner(st: State, body: string) returns (after: State)
    requires Stacked(st.blocks, st.depth)
    ensures after == Inner(st, body) && Stacked(after.blocks, after.depth)
  {
    after := st;
    var n := |st.blocks|;
    if n > 0 && st.blocks[n - 1].depth == st.depth {
      var top := st.blocks[n - 1];
      after := st.(blocks := st.blocks[..n - 1] + [top.(cfgs := top.cfgs + AttrCfgs(body))]);
    } else if n == 0 && st.depth == 0 {
      after := st.(own := st.own + AttrCfgs(body));
    }
  }
}

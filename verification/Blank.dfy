// Blanking comments and literal interiors in place, so that a structural scan
// cannot read inside either and every offset still means what it meant.
module Blank {
  import opened Text

  // -------------------------------------------------------------- where one starts

  predicate WordChar(c: char) {
    'a' <= c <= 'z' || 'A' <= c <= 'Z' || '0' <= c <= '9' || c == '_'
  }

  function Hashes(text: string, i: nat): (j: nat)
    requires i <= |text|
    ensures i <= j <= |text|
    decreases |text| - i
  {
    if i < |text| && text[i] == '#' then Hashes(text, i + 1) else i
  }

  // One past the opening quote of a string that starts at `i`, prefix included.
  function StringOpen(text: string, i: nat): (r: Option<nat>)
    requires i < |text|
    ensures r.Some? ==> i < r.value <= |text|
  {
    var free := i == 0 || !WordChar(text[i - 1]);
    var j := if !free then i
             else if At(text, i, "br") then Hashes(text, i + 2)
             else if text[i] == 'r' then Hashes(text, i + 1)
             else if text[i] == 'b' then i + 1
             else i;
    if j < |text| && text[j] == '"' then Some(j + 1) else None
  }

  // End of the comment or literal token that starts at `i`, if one does.
  function TokenAt(text: string, i: nat): (r: Option<nat>)
    requires i < |text|
    ensures r.Some? ==> i < r.value <= |text|
  {
    if At(text, i, "//") || At(text, i, "/*") then Some(i + 2) else
    var s := StringOpen(text, i);
    if s.Some? then s else if text[i] == '\'' then Some(i + 1) else None
  }

  function NextStart(text: string, pos: nat): (r: Option<nat>)
    requires pos <= |text|
    ensures r.Some? ==> pos <= r.value < |text| && TokenAt(text, r.value).Some?
    decreases |text| - pos
  {
    if pos == |text| then None
    else if TokenAt(text, pos).Some? then Some(pos)
    else NextStart(text, pos + 1)
  }

  // ---------------------------------------------------------------- where it ends

  function LineEnd(text: string, i: nat): (j: nat)
    requires i <= |text|
    ensures i <= j <= |text|
    decreases |text| - i
  {
    if i == |text| || text[i] == '\n' then i else LineEnd(text, i + 1)
  }

  // Block comments nest.
  function BlockEnd(text: string, i: nat, depth: nat): (j: nat)
    requires i <= |text|
    ensures i <= j <= |text|
    decreases |text| - i
  {
    if i == |text| || depth == 0 then i
    else if At(text, i, "/*") then BlockEnd(text, i + 2, depth + 1)
    else if At(text, i, "*/") then BlockEnd(text, i + 2, depth - 1)
    else BlockEnd(text, i + 1, depth)
  }

  function EscapedEnd(text: string, i: nat): (j: nat)
    requires i <= |text|
    ensures i <= j <= |text|
    decreases |text| - i
  {
    if i == |text| then i
    else if text[i] == '\\' then if i + 2 <= |text| then EscapedEnd(text, i + 2) else |text|
    else if text[i] == '"' then i + 1
    else EscapedEnd(text, i + 1)
  }

  function StringEnd(text: string, body: nat, closer: string, raw: bool): (j: nat)
    requires body <= |text|
    ensures body <= j <= |text|
  {
    if raw then
      var found := Find(text, closer, body);
      if found.Some? then found.value + |closer| else |text|
    else EscapedEnd(text, body)
  }

  predicate Hex(c: char) { '0' <= c <= '9' || 'a' <= c <= 'f' || 'A' <= c <= 'F' }

  function HexRun(text: string, i: nat): (j: nat)
    requires i <= |text|
    ensures i <= j <= |text|
    ensures forall k :: i <= k < j ==> text[k] != '\n'
    decreases |text| - i
  {
    if i < |text| && (Hex(text[i]) || text[i] == '_') then HexRun(text, i + 1) else i
  }

  // One past a character literal at `i`; None for a lifetime.
  function CharEnd(text: string, i: nat): (r: Option<nat>)
    requires i < |text| && text[i] == '\''
    ensures r.Some? ==> i + 3 <= r.value <= |text| && forall k :: i < k < r.value ==> text[k] != '\n'
  {
    if i + 2 >= |text| then None
    else if text[i + 1] != '\\' then
      if text[i + 1] !in "'\n" && text[i + 2] == '\'' then Some(i + 3) else None
    else if i + 5 < |text| && text[i + 2] == 'x' && Hex(text[i + 3]) && Hex(text[i + 4]) && text[i + 5] == '\''
    then Some(i + 6)
    else if Unicode(text, i).Some? then Unicode(text, i)
    else if i + 3 < |text| && text[i + 2] != '\n' && text[i + 3] == '\'' then Some(i + 4)
    else None
  }

  function Unicode(text: string, i: nat): (r: Option<nat>)
    requires i + 2 < |text| && text[i] == '\'' && text[i + 1] == '\\'
    ensures r.Some? ==> i + 3 <= r.value <= |text| && forall k :: i < k < r.value ==> text[k] != '\n'
  {
    if !At(text, i + 2, "u{") then None else
    assert text[i + 2] == "u{"[0] && text[i + 3] == "u{"[1];
    var j := HexRun(text, i + 4);
    if 1 <= j - (i + 4) <= 6 && At(text, j, "}'") then
      assert text[j] == "}'"[0] && text[j + 1] == "}'"[1];
      Some(j + 2)
    else None
  }

  // --------------------------------------------------------------- one span, lexed

  // `[start, stop)` is read at once; `[lo, hi)` of it is comment or literal interior.
  datatype Span = Span(comment: bool, stop: nat, lo: nat, hi: int)

  function SpanAt(text: string, start: nat): (s: Span)
    requires start < |text| && TokenAt(text, start).Some?
    ensures start < s.stop <= |text| && start <= s.lo && s.hi <= s.stop
  {
    var end := TokenAt(text, start).value;
    if At(text, start, "//") then var stop := LineEnd(text, end); Span(true, stop, start, stop)
    else if At(text, start, "/*") then var stop := BlockEnd(text, end, 1); Span(true, stop, start, stop)
    else if StringOpen(text, start).None? then
      var c := CharEnd(text, start);
      if c.None? then Span(false, start + 1, start + 1, start + 1) else Span(false, c.value, start + 1, c.value - 1)
    else
      var token := text[start..end];
      var raw := 'r' in token;
      var closer := if raw then "\"" + HashesOf(token) else "\"";
      var stop := StringEnd(text, end, closer, raw);
      Span(false, stop, end, stop - |closer|)
  }

  function HashesOf(token: string): string {
    if token == "" then "" else (if token[0] == '#' then "#" else "") + HashesOf(token[1..])
  }

  datatype Kind = Code | Comment | Interior

  // What offset `i` is, when lexing resumes at `pos`.
  function Classify(text: string, pos: nat, i: nat): Kind
    requires pos <= |text|
    decreases |text| - pos
  {
    var start := NextStart(text, pos);
    if start.None? || i < start.value then Code else
    var s := SpanAt(text, start.value);
    if i >= s.stop then Classify(text, s.stop, i)
    else if !(s.lo <= i < s.hi) then Code
    else if s.comment then Comment else Interior
  }

  function PlainChar(text: string, i: nat): char
    requires i < |text|
  {
    if Classify(text, 0, i) == Comment && text[i] != '\n' then ' ' else text[i]
  }

  function DeepChar(text: string, i: nat): char
    requires i < |text|
  {
    if Classify(text, 0, i) != Code && text[i] != '\n' then ' ' else text[i]
  }

  // ----------------------------------------------------------------- in place

  method Paint(a: array<char>, text: string, lo: nat, hi: int)
    requires a.Length == |text| && hi <= |text|
    modifies a
    ensures forall i :: 0 <= i < |text| ==>
              a[i] == if lo <= i < hi && text[i] != '\n' then ' ' else old(a[i])
  {
    var index := lo;
    while index < hi
      invariant lo <= index && (index <= hi || index == lo)
      invariant forall i :: 0 <= i < |text| ==>
                  a[i] == if lo <= i < index && text[i] != '\n' then ' ' else old(a[i])
    {
      if text[index] != '\n' { a[index] := ' '; }
      index := index + 1;
    }
  }

  // A span lexed from `pos` settles every offset up to its stop.
  lemma SpanSettles(text: string, pos: nat)
    requires pos <= |text| && NextStart(text, pos).Some?
    ensures var start := NextStart(text, pos).value;
            var s := SpanAt(text, start);
            forall i :: 0 <= i < |text| ==>
              Classify(text, pos, i) ==
              if i < start then Code
              else if i >= s.stop then Classify(text, s.stop, i)
              else if !(s.lo <= i < s.hi) then Code else if s.comment then Comment else Interior
  {}

  ghost predicate Settled(text: string, pos: nat, plain: array<char>, deep: array<char>)
    requires pos <= |text| && plain.Length == |text| == deep.Length
    reads plain, deep
  {
    && (forall i :: 0 <= i < pos ==> plain[i] == PlainChar(text, i) && deep[i] == DeepChar(text, i))
    && (forall i :: pos <= i < |text| ==>
          plain[i] == text[i] && deep[i] == text[i] && Classify(text, 0, i) == Classify(text, pos, i))
  }

  // Offsets and line breaks survive, and the two copies differ only inside literals.
  ghost predicate KeepsOffsets(text: string, plain: string, deep: string) {
    && |plain| == |text| == |deep|
    && (forall i :: 0 <= i < |text| ==> plain[i] in {text[i], ' '} && deep[i] in {text[i], ' '})
    && (forall i :: 0 <= i < |text| && text[i] == '\n' ==> plain[i] == deep[i] == '\n')
    && (forall i :: 0 <= i < |text| && plain[i] != deep[i] ==> Classify(text, 0, i) == Interior)
  }

  lemma SettledKeepsOffsets(text: string, plain: string, deep: string)
    requires |plain| == |text| == |deep|
    requires forall i :: 0 <= i < |text| ==> plain[i] == PlainChar(text, i) && deep[i] == DeepChar(text, i)
    ensures KeepsOffsets(text, plain, deep)
  {}

  method Blanked(text: string) returns (plain: string, deep: string)
    ensures |plain| == |text| == |deep|
    ensures forall i :: 0 <= i < |text| ==> plain[i] == PlainChar(text, i) && deep[i] == DeepChar(text, i)
    ensures KeepsOffsets(text, plain, deep)
  {
    var p := new char[|text|](i requires 0 <= i < |text| => text[i]);
    var d := new char[|text|](i requires 0 <= i < |text| => text[i]);
    var pos := 0;
    while NextStart(text, pos).Some?
      invariant pos <= |text| && Settled(text, pos, p, d)
      decreases |text| - pos
    {
      pos := PaintNext(text, pos, p, d);
    }
    RestIsCode(text, pos);
    plain, deep := p[..], d[..];
    SettledKeepsOffsets(text, plain, deep);
  }

  // One comment or literal: painted, and everything up to its end is settled.
  method PaintNext(text: string, pos: nat, p: array<char>, d: array<char>) returns (stop: nat)
    requires pos <= |text| && p.Length == |text| == d.Length && p != d
    requires Settled(text, pos, p, d) && NextStart(text, pos).Some?
    modifies p, d
    ensures pos < stop <= |text| && Settled(text, stop, p, d)
  {
    var s := SpanAt(text, NextStart(text, pos).value);
    SpanSettles(text, pos);
    if s.comment { Paint(p, text, s.lo, s.hi); }
    Paint(d, text, s.lo, s.hi);
    stop := s.stop;
  }

  lemma RestIsCode(text: string, pos: nat)
    requires pos <= |text| && NextStart(text, pos).None?
    ensures forall i :: 0 <= i < |text| ==> Classify(text, pos, i) == Code
  {}
}

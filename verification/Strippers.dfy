// Two independent TLA+ comment strippers: one reads character by character and
// counts nesting, one jumps from delimiter to delimiter. They agree on every
// prefix of a module exactly when no block comment opens inside another.
module Strippers {
  import opened Text

  // What is left of a line, and the comment depth at its end.
  datatype Left = Left(text: string, depth: nat)

  function Prepend(s: string, l: Left): Left { Left(s + l.text, l.depth) }

  lemma PrependLaws(a: string, b: string, l: Left)
    ensures Prepend("", l) == l && Prepend(a, Prepend(b, l)) == Prepend(a + b, l)
    ensures Prepend(a, Left("", l.depth)) == Left(a, l.depth)
  {
    assert "" + l.text == l.text && a + "" == a && a + (b + l.text) == a + b + l.text;
  }

  // ------------------------------------------------------- character by character

  function Slow(line: string, i: nat, depth: nat): Left
    decreases |line| - i
  {
    if i >= |line| then Left("", depth)
    else if At(line, i, "(*") then Slow(line, i + 2, depth + 1)
    else if At(line, i, "*)") && depth > 0 then Slow(line, i + 2, depth - 1)
    else if depth > 0 then Slow(line, i + 1, depth)
    else if At(line, i, "\\*") then Left("", depth)
    else Prepend([line[i]], Slow(line, i + 1, depth))
  }

  method SlowLine(line: string, depth0: nat) returns (buf: string, depth: nat)
    ensures Left(buf, depth) == Slow(line, 0, depth0)
  {
    buf, depth := "", depth0;
    var i := 0;
    PrependLaws("", "", Slow(line, 0, depth0));
    while i < |line|
      invariant Prepend(buf, Slow(line, i, depth)) == Slow(line, 0, depth0)
      decreases |line| - i
    {
      if At(line, i, "(*") {
        depth, i := depth + 1, i + 2;
      } else if At(line, i, "*)") && depth > 0 {
        depth, i := depth - 1, i + 2;
      } else if depth > 0 {
        i := i + 1;
      } else if At(line, i, "\\*") {
        PrependLaws(buf, "", Slow(line, i, depth));
        return;
      } else {
        PrependLaws(buf, [line[i]], Slow(line, i + 1, depth));
        buf, i := buf + [line[i]], i + 1;
      }
    }
    PrependLaws(buf, "", Slow(line, i, depth));
  }

  // ------------------------------------------------------- delimiter to delimiter

  // Where the text outside a comment stops, and where the comment it stops at starts.
  datatype Hop = Hop(end: nat, opens: bool)

  function NextHop(line: string, i: nat): (h: Hop)
    requires i <= |line|
    ensures i <= h.end <= |line| && (h.opens ==> At(line, h.end, "(*"))
  {
    var block, tail := Find(line, "(*", i), Find(line, "\\*", i);
    if tail.Some? && (block.None? || tail.value < block.value) then Hop(tail.value, false)
    else if block.None? then Hop(|line|, false)
    else Hop(block.value, true)
  }

  function Fast(line: string, i: nat, depth: nat): Left
    decreases |line| - i
  {
    if i >= |line| then Left("", depth)
    else if depth > 0 then
      var close := Find(line, "*)", i);
      if close.None? then Left("", depth) else Fast(line, close.value + 2, depth - 1)
    else
      var h := NextHop(line, i);
      Prepend(line[i..h.end], if h.opens then Fast(line, h.end + 2, depth + 1) else Left("", depth))
  }

  method FastLine(line: string, depth0: nat) returns (out: string, depth: nat)
    ensures Left(out, depth) == Fast(line, 0, depth0)
  {
    out, depth := "", depth0;
    var i := 0;
    ghost var goal := Fast(line, 0, depth0);
    PrependLaws("", "", goal);
    while i < |line|
      invariant Prepend(out, Fast(line, i, depth)) == goal
      decreases |line| - i
    {
      var ends;
      out, i, depth, ends := Jump(line, i, depth, out);
      if ends { return; }
    }
    PrependLaws(out, "", Fast(line, i, depth));
  }

  // One iteration: to the end of the comment, to the next delimiter, or to the end
  // of the line.
  method Jump(line: string, i: nat, depth: nat, out: string) returns (more: string, next: nat, now: nat, ends: bool)
    requires i < |line|
    ensures var whole := Prepend(out, Fast(line, i, depth));
            if ends then whole == Left(more, now) else i < next && whole == Prepend(more, Fast(line, next, now))
  {
    if depth > 0 {
      var close := Find(line, "*)", i);
      HopsOut(line, i, depth, out, close);
      if close.None? { return out, i, depth, true; }
      return out, close.value + 2, depth - 1, false;
    }
    var h := NextHop(line, i);
    HopsOn(line, i, out, h);
    return out + line[i..h.end], h.end + 2, if h.opens then 1 else 0, !h.opens;
  }

  lemma HopsOut(line: string, i: nat, depth: nat, out: string, close: Option<nat>)
    requires i < |line| && depth > 0 && close == Find(line, "*)", i)
    ensures Prepend(out, Fast(line, i, depth)) ==
            if close.None? then Left(out, depth) else Prepend(out, Fast(line, close.value + 2, depth - 1))
  {
    PrependLaws(out, "", Left("", depth));
  }

  lemma HopsOn(line: string, i: nat, out: string, h: Hop)
    requires i < |line| && h == NextHop(line, i)
    ensures var more := out + line[i..h.end];
            Prepend(out, Fast(line, i, 0)) ==
            if h.opens then Prepend(more, Fast(line, h.end + 2, 1)) else Left(more, 0)
  {
    var rest := if h.opens then Fast(line, h.end + 2, 1) else Left("", 0);
    FastAtZero(line, i, h, rest);
    PrependLaws(out, line[i..h.end], rest);
    PrependLaws(out + line[i..h.end], "", Left("", 0));
  }

  lemma FastAtZero(line: string, i: nat, h: Hop, rest: Left)
    requires i < |line| && h == NextHop(line, i)
    requires rest == if h.opens then Fast(line, h.end + 2, 1) else Left("", 0)
    ensures Fast(line, i, 0) == Prepend(line[i..h.end], rest)
  {}

  // The jumper never counts past one.
  lemma {:induction false} FastDepthIsABit(line: string, i: nat, depth: nat)
    requires depth <= 1
    ensures Fast(line, i, depth).depth <= 1
    decreases |line| - i
  {
    if i < |line| {
      if depth > 0 {
        var close := Find(line, "*)", i);
        if close.Some? { FastDepthIsABit(line, close.value + 2, depth - 1); }
      } else {
        var h := NextHop(line, i);
        if h.opens { FastDepthIsABit(line, h.end + 2, depth + 1); }
      }
    }
  }

  // ------------------------------------------------------------ agreement on a line

  // No block comment opens inside an open one.
  ghost predicate Flat(line: string, i: nat, depth: nat)
    decreases |line| - i
  {
    if i >= |line| then true
    else if At(line, i, "(*") then depth == 0 && Flat(line, i + 2, 1)
    else if At(line, i, "*)") && depth > 0 then Flat(line, i + 2, depth - 1)
    else if depth > 0 then Flat(line, i + 1, depth)
    else At(line, i, "\\*") || Flat(line, i + 1, depth)
  }

  lemma AtDiffers(line: string, i: nat)
    ensures !(At(line, i, "(*") && At(line, i, "\\*"))
    ensures !(At(line, i, "(*") && At(line, i, "*)"))
  {
    if i + 2 <= |line| {
      assert line[i..i + 2][0] == line[i];
      assert "(*"[0] == '(' && "\\*"[0] == '\\' && "*)"[0] == '*';
    }
  }

  // Inside a comment a character that closes nothing is skipped.
  lemma FastSkips(line: string, i: nat, depth: nat)
    requires i < |line| && depth > 0 && !At(line, i, "*)")
    ensures Fast(line, i, depth) == Fast(line, i + 1, depth)
  {
    FindStep(line, "*)", i);
    if i + 1 == |line| { FindNothing(line, "*)", i + 1); }
  }

  lemma HopSteps(line: string, i: nat)
    requires i < |line| && !At(line, i, "(*") && !At(line, i, "\\*")
    ensures NextHop(line, i) == NextHop(line, i + 1)
  {
    FindStep(line, "(*", i);
    FindStep(line, "\\*", i);
  }

  // Outside, a character that opens nothing is copied.
  lemma FastCopies(line: string, i: nat)
    requires i < |line| && !At(line, i, "(*") && !At(line, i, "\\*")
    ensures Fast(line, i, 0) == Prepend([line[i]], Fast(line, i + 1, 0))
  {
    HopSteps(line, i);
    var h := NextHop(line, i);
    var rest := if h.opens then Fast(line, h.end + 2, 1) else Left("", 0);
    assert line[i..h.end] == [line[i]] + line[i + 1..h.end];
    PrependLaws([line[i]], line[i + 1..h.end], rest);
    if i + 1 == |line| {
      assert h.end == |line| && line[i + 1..h.end] == "";
      PrependLaws("", "", rest);
    }
  }

  lemma FindStep(s: string, p: string, i: nat)
    requires i < |s|
    ensures !At(s, i, p) ==> Find(s, p, i) == Find(s, p, i + 1)
  {}

  lemma FindNothing(s: string, p: string, i: nat)
    requires i >= |s| && p != ""
    ensures Find(s, p, i) == None
  {}

  lemma {:induction false} FlatLinesAgree(line: string, i: nat, depth: nat)
    requires depth <= 1 && Flat(line, i, depth)
    ensures Slow(line, i, depth) == Fast(line, i, depth)
    decreases |line| - i
  {
    if i < |line| {
      AtDiffers(line, i);
      if At(line, i, "(*") {
        FlatLinesAgree(line, i + 2, 1);
        FastOpens(line, i);
      } else if At(line, i, "*)") && depth > 0 {
        FlatLinesAgree(line, i + 2, depth - 1);
      } else if depth > 0 {
        FlatLinesAgree(line, i + 1, depth);
        FastSkips(line, i, depth);
      } else if !At(line, i, "\\*") {
        FlatLinesAgree(line, i + 1, depth);
        FastCopies(line, i);
      } else {
        assert line[i..i] == "";
      }
    }
  }

  lemma FastOpens(line: string, i: nat)
    requires i < |line| && At(line, i, "(*")
    ensures Fast(line, i, 0) == Fast(line, i + 2, 1)
  {
    AtDiffers(line, i);
    assert line[i..i] == "";
    PrependLaws("", "", Fast(line, i + 2, 1));
  }
}

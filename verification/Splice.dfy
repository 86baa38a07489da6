// Replacing a generated block between two markers of a page, as two gates do on
// the same page: what the splice changes, when checking it afterwards is clean,
// and when two splices commute.
module Splice {
  import opened Text
  import opened Markers

  datatype Result = Spliced(text: string) | ValueError

  datatype Pair = Pair(start: string, end: string)

  const ASSURANCE := Pair("<!-- assurance-table:start -->", "<!-- assurance-table:end -->")
  const PHASE2 := Pair("<!-- phase2-comutants:start -->", "<!-- phase2-comutants:end -->")

  predicate Proper(m: Pair) {
    Marker(m.start) && Marker(m.end) && m.start != m.end
  }

  // No marker of one gate is a marker of the other.
  predicate Different(m: Pair, n: Pair) {
    m.start != n.start && m.start != n.end && m.end != n.start && m.end != n.end
  }

  function Block(m: Pair, body: string): string { m.start + body + m.end }

  // The splice of the source: exactly one marker of each kind, the end looked for
  // from the start on, everything between and including them replaced.
  function Replace(m: Pair, text: string, block: string): Result
    requires Proper(m)
  {
    if Count(text, m.start, 0) != 1 || Count(text, m.end, 0) != 1 then ValueError else
    var start := Find(text, m.start, 0);
    if start.None? then ValueError else
    var end := Find(text, m.end, start.value);
    if end.None? then ValueError
    else Spliced(text[..start.value] + block + text[end.value + |m.end|..])
  }

  // What `check_readme` finds nothing wrong with.
  predicate Clean(m: Pair, text: string, block: string)
    requires Proper(m)
  {
    Replace(m, text, block) == Spliced(text)
  }

  // A page with one marked region.
  function Page(m: Pair, pre: string, body: string, post: string): string {
    pre + (Block(m, body) + post)
  }

  ghost predicate Without(s: string, m: Pair) {
    Absent(s, m.start) && Absent(s, m.end)
  }

  // -------------------------------------------------------------- block and page

  lemma BlockSeams(m: Pair, body: string)
    requires Proper(m)
    ensures Seam(m.start, body) && Seam(m.start + body, m.end)
    ensures Block(m, body)[0] == '<' && Block(m, body)[|Block(m, body)| - 1] == '>'
  {
    assert Block(m, body)[0] == m.start[0];
    assert Block(m, body)[|Block(m, body)| - 1] == m.end[|m.end| - 1];
  }

  lemma StartInBlock(m: Pair, body: string)
    requires Proper(m) && Absent(body, m.start)
    ensures Once(Block(m, body), m.start, 0)
  {
    BlockSeams(m, body);
    OnceInItself(m.start);
    AbsentInOther(m.start, m.end);
    OnceLeft(m.start, body, m.start, 0);
    OnceLeft(m.start + body, m.end, m.start, 0);
  }

  lemma EndInBlock(m: Pair, body: string)
    requires Proper(m) && Absent(body, m.end)
    ensures Once(Block(m, body), m.end, |m.start| + |body|)
  {
    BlockSeams(m, body);
    OnceInItself(m.end);
    AbsentInOther(m.end, m.start);
    AbsentConcat(m.start, body, m.end);
    OnceRight(m.start + body, m.end, m.end, 0);
  }

  // One occurrence in a block is one on the page around it.
  lemma OnceOnPage(m: Pair, pre: string, body: string, post: string, mark: string, i: nat)
    requires Proper(m) && Marker(mark) && Once(Block(m, body), mark, i)
    requires Absent(pre, mark) && Absent(post, mark)
    ensures Once(Page(m, pre, body, post), mark, |pre| + i)
  {
    BlockSeams(m, body);
    var block := Block(m, body);
    OnceLeft(block, post, mark, i);
    assert (block + post)[0] == block[0];
    OnceRight(pre, block + post, mark, i);
  }

  lemma PageHasBoth(m: Pair, pre: string, body: string, post: string)
    requires Proper(m) && Without(pre, m) && Without(body, m) && Without(post, m)
    ensures Once(Page(m, pre, body, post), m.start, |pre|)
    ensures Once(Page(m, pre, body, post), m.end, |pre| + |m.start| + |body|)
  {
    StartInBlock(m, body);
    EndInBlock(m, body);
    OnceOnPage(m, pre, body, post, m.start, 0);
    OnceOnPage(m, pre, body, post, m.end, |m.start| + |body|);
  }

  lemma OnceIsCounted(text: string, mark: string, i: nat)
    requires Marker(mark) && Once(text, mark, i)
    ensures Count(text, mark, 0) == 1 && Find(text, mark, 0) == Some(i)
  {
    OnceIsFound(text, mark, i, 0);
    CountOne(text, mark);
  }

  lemma ReplaceBetween(m: Pair, text: string, block: string, s: nat, e: nat)
    requires Proper(m) && Once(text, m.start, s) && Once(text, m.end, e) && s <= e
    ensures Replace(m, text, block) == Spliced(text[..s] + block + text[e + |m.end|..])
  {
    OnceIsCounted(text, m.start, s);
    OnceIsCounted(text, m.end, e);
    OnceIsFound(text, m.end, e, s);
  }

  lemma PageSlices(m: Pair, pre: string, body: string, post: string)
    ensures var text := Page(m, pre, body, post);
            var e := |pre| + |m.start| + |body|;
            text[..|pre|] == pre && e + |m.end| <= |text| && text[e + |m.end|..] == post
  {}

  // On a page the splice replaces the body and nothing else.
  lemma SpliceReplacesTheBody(m: Pair, pre: string, body: string, post: string, block: string)
    requires Proper(m) && Without(pre, m) && Without(body, m) && Without(post, m)
    ensures Replace(m, Page(m, pre, body, post), block) == Spliced(pre + block + post)
  {
    PageHasBoth(m, pre, body, post);
    PageSlices(m, pre, body, post);
    ReplaceBetween(m, Page(m, pre, body, post), block, |pre|, |pre| + |m.start| + |body|);
  }

  // ----------------------------------------------------------- every accepted text

  lemma Accepted(m: Pair, text: string, block: string) returns (s: nat, e: nat)
    requires Proper(m) && Replace(m, text, block).Spliced?
    ensures Once(text, m.start, s) && Once(text, m.end, e) && s + |m.start| <= e
  {
    CountOne(text, m.start);
    CountOne(text, m.end);
    s := Find(text, m.start, 0).value;
    e := Find(text, m.end, s).value;
    NoOverlap(text, s, m.start, e, m.end);
  }

  // A page is accepted exactly when each marker stands on it once, in order.
  lemma AcceptedExactly(m: Pair, text: string, block: string)
    requires Proper(m)
    ensures Replace(m, text, block).Spliced? <==>
              exists s: nat, e: nat :: Once(text, m.start, s) && Once(text, m.end, e) && s + |m.start| <= e
  {
    if Replace(m, text, block).Spliced? { var s, e := Accepted(m, text, block); }
    forall s: nat, e: nat | Once(text, m.start, s) && Once(text, m.end, e) && s + |m.start| <= e
      ensures Replace(m, text, block).Spliced?
    {
      ReplaceBetween(m, text, block, s, e);
    }
  }

  lemma AtSlices(text: string, m: Pair, s: nat, e: nat)
    requires At(text, s, m.start) && At(text, e, m.end) && s + |m.start| <= e
    ensures text == Page(m, text[..s], text[s + |m.start|..e], text[e + |m.end|..])
  {
    var a, b := s + |m.start|, e + |m.end|;
    assert text == text[..s] + text[s..a] + text[a..e] + text[e..b] + text[b..];
  }

  // The pieces of a text the splice accepts.
  lemma Pieces(m: Pair, text: string, block: string) returns (pre: string, body: string, post: string)
    requires Proper(m) && Replace(m, text, block).Spliced?
    ensures text == Page(m, pre, body, post)
    ensures Without(pre, m) && Without(body, m) && Without(post, m)
  {
    var s, e := Accepted(m, text, block);
    pre, body, post := text[..s], text[s + |m.start|..e], text[e + |m.end|..];
    AtSlices(text, m, s, e);
    PiecesAreWithout(text, m, s, e);
  }

  lemma PiecesAreWithout(text: string, m: Pair, s: nat, e: nat)
    requires Proper(m) && Once(text, m.start, s) && Once(text, m.end, e) && s + |m.start| <= e
    ensures Without(text[..s], m) && Without(text[s + |m.start|..e], m) && Without(text[e + |m.end|..], m)
  {
    PieceIsWithout(text, m, 0, s, s, e);
    PieceIsWithout(text, m, s + |m.start|, e, s, e);
    PieceIsWithout(text, m, e + |m.end|, |text|, s, e);
    assert text[0..s] == text[..s] && text[e + |m.end|..|text|] == text[e + |m.end|..];
  }

  // A stretch of the text that holds neither marker's place holds neither marker.
  lemma PieceIsWithout(text: string, m: Pair, lo: nat, hi: nat, s: nat, e: nat)
    requires Proper(m) && Once(text, m.start, s) && Once(text, m.end, e) && lo <= hi <= |text|
    requires s + |m.start| <= lo || hi <= s
    requires e + |m.end| <= lo || hi <= e
    ensures Without(text[lo..hi], m)
  {
    forall i: nat ensures !At(text[lo..hi], i, m.start) && !At(text[lo..hi], i, m.end) {
      if At(text[lo..hi], i, m.start) { AtShifted(text, lo, hi, i, m.start); }
      if At(text[lo..hi], i, m.end) { AtShifted(text, lo, hi, i, m.end); }
    }
  }

  lemma AtShifted(text: string, lo: nat, hi: nat, i: nat, mark: string)
    requires lo <= hi <= |text| && At(text[lo..hi], i, mark)
    ensures At(text, lo + i, mark) && lo + i + |mark| <= hi
  {
    var piece := text[lo..hi];
    forall k | 0 <= k < |mark| ensures text[lo + i + k] == mark[k] {
      assert piece[i..i + |mark|][k] == piece[i + k] == text[lo + i + k];
    }
    assert text[lo + i..lo + i + |mark|] == mark;
  }

  lemma SpliceOnPage(m: Pair, pre: string, was: string, post: string, body: string)
    requires Proper(m) && Without(pre, m) && Without(was, m) && Without(post, m)
    ensures Replace(m, Page(m, pre, was, post), Block(m, body)) == Spliced(Page(m, pre, body, post))
  {
    SpliceReplacesTheBody(m, pre, was, post, Block(m, body));
    assert pre + Block(m, body) + post == Page(m, pre, body, post);
  }

  // Outside the region a splice changes nothing: the result is the page with the
  // new body between the same surroundings.
  lemma SpliceKeepsTheRest(m: Pair, text: string, body: string) returns (pre: string, was: string, post: string)
    requires Proper(m) && Replace(m, text, Block(m, body)).Spliced?
    ensures text == Page(m, pre, was, post) && Without(pre, m) && Without(was, m) && Without(post, m)
    ensures Replace(m, text, Block(m, body)) == Spliced(Page(m, pre, body, post))
  {
    pre, was, post := Pieces(m, text, Block(m, body));
    SpliceOnPage(m, pre, was, post, body);
  }

  lemma PageIsCleanWhen(m: Pair, pre: string, body: string, post: string)
    requires Proper(m) && Without(pre, m) && Without(post, m)
    ensures Clean(m, Page(m, pre, body, post), Block(m, body)) <==> Without(body, m)
  {
    if Without(body, m) {
      SpliceOnPage(m, pre, body, post, body);
    } else {
      ExtraMarkerIsCounted(m, pre, body, post, Block(m, body));
    }
  }

  // Splice, then check: clean exactly when the body does not itself carry a marker.
  lemma CleanAfterSplice(m: Pair, text: string, body: string)
    requires Proper(m) && Replace(m, text, Block(m, body)).Spliced?
    ensures Clean(m, Replace(m, text, Block(m, body)).text, Block(m, body)) <==> Without(body, m)
  {
    var pre, was, post := SpliceKeepsTheRest(m, text, body);
    PageIsCleanWhen(m, pre, body, post);
  }

  lemma TwoIsTooMany(m: Pair, text: string, block: string, mark: string, i: nat, j: nat)
    requires Proper(m) && (mark == m.start || mark == m.end)
    requires At(text, i, mark) && At(text, j, mark) && i != j
    ensures Replace(m, text, block) == ValueError
  {
    CountOne(text, mark);
  }

  lemma PageShapes(m: Pair, pre: string, body: string, post: string)
    ensures Page(m, pre, body, post) == pre + m.start + (body + m.end + post)
    ensures Page(m, pre, body, post) == pre + m.start + body + m.end + post
    ensures Page(m, pre, body, post) == pre + m.start + body + (m.end + post)
  {}

  lemma StartOnPage(m: Pair, pre: string, body: string, post: string)
    ensures At(Page(m, pre, body, post), |pre|, m.start)
  {
    PageShapes(m, pre, body, post);
    assert At(m.start, 0, m.start);
    AtInside(pre, m.start, body + m.end + post, m.start, 0);
  }

  lemma EndOnPage(m: Pair, pre: string, body: string, post: string)
    ensures At(Page(m, pre, body, post), |pre| + |m.start| + |body|, m.end)
  {
    PageShapes(m, pre, body, post);
    assert At(m.end, 0, m.end);
    AtInside(pre + m.start + body, m.end, post, m.end, 0);
  }

  lemma BodyOnPage(m: Pair, pre: string, body: string, post: string, mark: string, i: nat)
    requires At(body, i, mark)
    ensures At(Page(m, pre, body, post), |pre| + |m.start| + i, mark)
  {
    PageShapes(m, pre, body, post);
    AtInside(pre + m.start, body, m.end + post, mark, i);
  }

  // A marker inside the body is a second one on the page.
  lemma ExtraMarkerIsCounted(m: Pair, pre: string, body: string, post: string, block: string)
    requires Proper(m) && !Without(body, m)
    ensures Replace(m, Page(m, pre, body, post), block) == ValueError
  {
    if !Absent(body, m.start) {
      var i: nat :| At(body, i, m.start);
      ExtraStartIsCounted(m, pre, body, post, block, i);
    } else {
      var i: nat :| At(body, i, m.end);
      ExtraEndIsCounted(m, pre, body, post, block, i);
    }
  }

  lemma ExtraStartIsCounted(m: Pair, pre: string, body: string, post: string, block: string, i: nat)
    requires Proper(m) && At(body, i, m.start)
    ensures Replace(m, Page(m, pre, body, post), block) == ValueError
  {
    StartOnPage(m, pre, body, post);
    BodyOnPage(m, pre, body, post, m.start, i);
    TwoIsTooMany(m, Page(m, pre, body, post), block, m.start, |pre|, |pre| + |m.start| + i);
  }

  lemma ExtraEndIsCounted(m: Pair, pre: string, body: string, post: string, block: string, i: nat)
    requires Proper(m) && At(body, i, m.end)
    ensures Replace(m, Page(m, pre, body, post), block) == ValueError
  {
    var e := |pre| + |m.start| + |body|;
    EndOnPage(m, pre, body, post);
    BodyOnPage(m, pre, body, post, m.end, i);
    TwoIsTooMany(m, Page(m, pre, body, post), block, m.end, e, |pre| + |m.start| + i);
  }

  lemma AtInside(a: string, b: string, c: string, mark: string, i: nat)
    ensures At(b, i, mark) ==> At(a + b + c, |a| + i, mark)
  {
    if At(b, i, mark) {
      assert (a + b + c)[|a| + i..|a| + i + |mark|] == b[i..i + |mark|];
    }
  }

  // A second splice overwrites the first.
  lemma LastSpliceWins(m: Pair, text: string, first: string, second: string)
    requires Proper(m) && Without(first, m) && Replace(m, text, Block(m, first)).Spliced?
    ensures Replace(m, Replace(m, text, Block(m, first)).text, Block(m, second)) == Replace(m, text, Block(m, second))
  {
    var pre, was, post := SpliceKeepsTheRest(m, text, first);
    SpliceOnPage(m, pre, was, post, second);
    SpliceOnPage(m, pre, first, post, second);
  }

  lemma AssuranceOpens()
    ensures Marker(ASSURANCE.start) && |ASSURANCE.start| == 30
  {}

  lemma AssuranceCloses()
    ensures Marker(ASSURANCE.end) && |ASSURANCE.end| == 28
  {}

  lemma Phase2Opens()
    ensures Marker(PHASE2.start) && |PHASE2.start| == 31
  {}

  lemma Phase2Closes()
    ensures Marker(PHASE2.end) && |PHASE2.end| == 29
  {}

  // The markers the two gates use are proper and different.
  lemma TheMarkersAreProper()
    ensures Proper(ASSURANCE) && Proper(PHASE2) && Different(ASSURANCE, PHASE2)
  {
    AssuranceOpens();
    AssuranceCloses();
    Phase2Opens();
    Phase2Closes();
  }

  // A block that repeats its own marker is written and then rejected.
  lemma RepeatedMarkerIsNotClean()
    ensures var m := ASSURANCE;
            var r := Replace(m, Page(m, "", "", ""), Block(m, m.start));
            && Proper(m) && r == Spliced(Page(m, "", m.start, ""))
            && !Clean(m, r.text, Block(m, m.start))
  {
    TheMarkersAreProper();
    RepeatedMarker(ASSURANCE);
  }

  lemma RepeatedMarker(m: Pair)
    requires Proper(m)
    ensures var r := Replace(m, Page(m, "", "", ""), Block(m, m.start));
            r == Spliced(Page(m, "", m.start, "")) && !Clean(m, r.text, Block(m, m.start))
  {
    assert forall i: nat :: !At("", i, m.start) && !At("", i, m.end);
    SpliceOnPage(m, "", "", "", m.start);
    assert m.start[0..|m.start|] == m.start && At(m.start, 0, m.start);
    PageIsCleanWhen(m, "", m.start, "");
  }
}

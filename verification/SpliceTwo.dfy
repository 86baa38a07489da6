// Two gates write their blocks into one page. The order of the two writes does
// not matter exactly when neither region reaches into the other.
module SpliceTwo {
  import opened Text
  import opened Markers
  import opened Splice

  // Carries no marker of either gate.
  ghost predicate Bare(s: string, m: Pair, n: Pair) {
    Without(s, m) && Without(s, n)
  }

  lemma ConcatWithout(a: string, b: string, m: Pair)
    requires Proper(m) && Seam(a, b) && Without(a, m) && Without(b, m)
    ensures Without(a + b, m)
  {
    AbsentConcat(a, b, m.start);
    AbsentConcat(a, b, m.end);
  }

  // A block of one gate carries no marker of the other.
  lemma BlockIsWithout(m: Pair, n: Pair, body: string)
    requires Proper(m) && Proper(n) && Different(m, n) && Without(body, n)
    ensures Without(Block(m, body), n)
  {
    BlockSeams(m, body);
    AbsentInOther(n.start, m.start);
    AbsentInOther(n.end, m.start);
    AbsentInOther(n.start, m.end);
    AbsentInOther(n.end, m.end);
    ConcatWithout(m.start, body, n);
    ConcatWithout(m.start + body, m.end, n);
  }

  lemma AroundIsWithout(m: Pair, n: Pair, pre: string, body: string, post: string)
    requires Proper(m) && Proper(n) && Different(m, n)
    requires Without(pre, n) && Without(body, n) && Without(post, n)
    ensures Without(Page(m, pre, body, post), n)
  {
    BlockSeams(m, body);
    BlockIsWithout(m, n, body);
    var block := Block(m, body);
    ConcatWithout(block, post, n);
    assert (block + post)[0] == block[0];
    ConcatWithout(pre, block + post, n);
  }

  // A page with a region of each gate, the first gate's first.
  function TwoRegions(m: Pair, n: Pair, a: string, x: string, b: string, y: string, c: string): string {
    a + Block(m, x) + b + Block(n, y) + c
  }

  lemma TwoRegionsAsPages(m: Pair, n: Pair, a: string, x: string, b: string, y: string, c: string)
    ensures TwoRegions(m, n, a, x, b, y, c) == Page(n, Page(m, a, x, b), y, c)
    ensures TwoRegions(m, n, a, x, b, y, c) == Page(m, a, x, Page(n, b, y, c))
  {
    var p, q := Block(m, x), Block(n, y);
    assert a + p + b + q + c == a + (p + b) + (q + c);
    assert a + p + b + q + c == a + (p + (b + (q + c)));
  }

  lemma FirstSplice(m: Pair, n: Pair, a: string, x: string, b: string, y: string, c: string, x': string)
    requires Proper(m) && Proper(n) && Different(m, n)
    requires Without(a, m) && Without(x, m) && Without(b, m) && Without(y, m) && Without(c, m)
    ensures Replace(m, TwoRegions(m, n, a, x, b, y, c), Block(m, x')) == Spliced(TwoRegions(m, n, a, x', b, y, c))
  {
    TwoRegionsAsPages(m, n, a, x, b, y, c);
    TwoRegionsAsPages(m, n, a, x', b, y, c);
    AroundIsWithout(n, m, b, y, c);
    SpliceOnPage(m, a, x, Page(n, b, y, c), x');
  }

  lemma SecondSplice(m: Pair, n: Pair, a: string, x: string, b: string, y: string, c: string, y': string)
    requires Proper(m) && Proper(n) && Different(m, n)
    requires Without(a, n) && Without(x, n) && Without(b, n) && Without(y, n) && Without(c, n)
    ensures Replace(n, TwoRegions(m, n, a, x, b, y, c), Block(n, y')) == Spliced(TwoRegions(m, n, a, x, b, y', c))
  {
    TwoRegionsAsPages(m, n, a, x, b, y, c);
    TwoRegionsAsPages(m, n, a, x, b, y', c);
    AroundIsWithout(m, n, a, x, b);
    SpliceOnPage(n, Page(m, a, x, b), y, c, y');
  }

  // One splice after another, the second on what the first returned.
  function Then(r: Result, n: Pair, block: string): Result
    requires Proper(n)
  {
    if r.Spliced? then Replace(n, r.text, block) else r
  }

  lemma ApartSplicesCommute(m: Pair, n: Pair, a: string, x: string, b: string, y: string, c: string,
                            x': string, y': string)
    requires Proper(m) && Proper(n) && Different(m, n)
    requires Bare(a, m, n) && Bare(x, m, n) && Bare(b, m, n) && Bare(y, m, n) && Bare(c, m, n)
    requires Bare(x', m, n) && Bare(y', m, n)
    ensures var text := TwoRegions(m, n, a, x, b, y, c);
            var both := Spliced(TwoRegions(m, n, a, x', b, y', c));
            && Then(Replace(m, text, Block(m, x')), n, Block(n, y')) == both
            && Then(Replace(n, text, Block(n, y')), m, Block(m, x')) == both
  {
    FirstSplice(m, n, a, x, b, y, c, x');
    SecondSplice(m, n, a, x', b, y, c, y');
    SecondSplice(m, n, a, x, b, y, c, y');
    FirstSplice(m, n, a, x, b, y', c, x');
  }

  // ------------------------------------------------------------ on any accepted page

  // The two markers stand once each, at `s` and `e`, in order.
  ghost predicate Marks(text: string, m: Pair, s: nat, e: nat) {
    Once(text, m.start, s) && Once(text, m.end, e) && s + |m.start| <= e
  }

  lemma PieceIsBare(m: Pair, n: Pair, text: string, s: nat, e: nat, t: nat, f: nat, lo: nat, hi: nat)
    requires Proper(m) && Proper(n) && Marks(text, m, s, e) && Marks(text, n, t, f) && lo <= hi <= |text|
    requires s + |m.start| <= lo || hi <= s
    requires e + |m.end| <= lo || hi <= e
    requires t + |n.start| <= lo || hi <= t
    requires f + |n.end| <= lo || hi <= f
    ensures Bare(text[lo..hi], m, n)
  {
    PieceIsWithout(text, m, lo, hi, s, e);
    PieceIsWithout(text, n, lo, hi, t, f);
  }

  lemma SuffixIsPage(n: Pair, text: string, k: nat, t: nat, f: nat)
    requires k <= t && At(text, t, n.start) && At(text, f, n.end) && t + |n.start| <= f
    ensures text[k..] == Page(n, text[k..t], text[t + |n.start|..f], text[f + |n.end|..])
  {
    var a, b := t + |n.start|, f + |n.end|;
    assert text[k..] == text[k..t] + text[t..a] + text[a..f] + text[f..b] + text[b..];
  }

  // With `m` wholly first, the page is two regions.
  lemma InOrderSlices(m: Pair, n: Pair, text: string, s: nat, e: nat, t: nat, f: nat)
    requires Marks(text, m, s, e) && Marks(text, n, t, f) && e + |m.end| <= t
    ensures text == TwoRegions(m, n, text[..s], text[s + |m.start|..e], text[e + |m.end|..t],
                               text[t + |n.start|..f], text[f + |n.end|..])
  {
    AtSlices(text, m, s, e);
    SuffixIsPage(n, text, e + |m.end|, t, f);
    TwoRegionsAsPages(m, n, text[..s], text[s + |m.start|..e], text[e + |m.end|..t],
                      text[t + |n.start|..f], text[f + |n.end|..]);
  }

  lemma PiecesAreBare(m: Pair, n: Pair, text: string, s: nat, e: nat, t: nat, f: nat)
    requires Proper(m) && Proper(n)
    requires Marks(text, m, s, e) && Marks(text, n, t, f) && e + |m.end| <= t
    ensures Bare(text[..s], m, n) && Bare(text[s + |m.start|..e], m, n) && Bare(text[e + |m.end|..t], m, n)
    ensures Bare(text[t + |n.start|..f], m, n) && Bare(text[f + |n.end|..], m, n)
  {
    PieceIsBare(m, n, text, s, e, t, f, 0, s);
    PieceIsBare(m, n, text, s, e, t, f, s + |m.start|, e);
    PieceIsBare(m, n, text, s, e, t, f, e + |m.end|, t);
    PieceIsBare(m, n, text, s, e, t, f, t + |n.start|, f);
    PieceIsBare(m, n, text, s, e, t, f, f + |n.end|, |text|);
    assert text[0..s] == text[..s] && text[f + |n.end|..|text|] == text[f + |n.end|..];
  }

  lemma InOrderSplicesCommute(m: Pair, n: Pair, text: string, s: nat, e: nat, t: nat, f: nat, x': string, y': string)
    requires Proper(m) && Proper(n) && Different(m, n)
    requires Marks(text, m, s, e) && Marks(text, n, t, f) && e + |m.end| <= t
    requires Bare(x', m, n) && Bare(y', m, n)
    ensures var mn := Then(Replace(m, text, Block(m, x')), n, Block(n, y'));
            mn.Spliced? && mn == Then(Replace(n, text, Block(n, y')), m, Block(m, x'))
  {
    InOrderSlices(m, n, text, s, e, t, f);
    PiecesAreBare(m, n, text, s, e, t, f);
    ApartSplicesCommute(m, n, text[..s], text[s + |m.start|..e], text[e + |m.end|..t],
                        text[t + |n.start|..f], text[f + |n.end|..], x', y');
  }

  // A region that holds a start of the other's marker swallows it: the second
  // gate no longer finds its own.
  lemma SwallowedMarkerIsLost(m: Pair, n: Pair, text: string, s: nat, e: nat, t: nat, x': string, block: string)
    requires Proper(m) && Proper(n) && Different(m, n)
    requires Marks(text, m, s, e) && Once(text, n.start, t) && s < t < e && Bare(x', m, n)
    ensures Then(Replace(m, text, Block(m, x')), n, block) == ValueError
  {
    var pre, post := text[..s], text[e + |m.end|..];
    ReplaceBetween(m, text, Block(m, x'), s, e);
    assert pre + Block(m, x') + post == Page(m, pre, x', post);
    AbsentAside(text, n.start, t, 0, s);
    AbsentAside(text, n.start, t, e + |m.end|, |text|);
    assert text[0..s] == pre && text[e + |m.end|..|text|] == post;
    StartIsAbsent(m, n, pre, x', post);
    CountZero(Page(m, pre, x', post), n.start, 0);
  }

  lemma AbsentAside(text: string, mark: string, t: nat, lo: nat, hi: nat)
    requires Once(text, mark, t) && lo <= hi <= |text| && (t < lo || hi <= t) && mark != ""
    ensures Absent(text[lo..hi], mark)
  {
    forall i: nat ensures !At(text[lo..hi], i, mark) {
      if At(text[lo..hi], i, mark) { AtShifted(text, lo, hi, i, mark); }
    }
  }

  lemma StartIsAbsent(m: Pair, n: Pair, pre: string, body: string, post: string)
    requires Proper(m) && Proper(n) && Different(m, n)
    requires Absent(pre, n.start) && Absent(body, n.start) && Absent(post, n.start)
    ensures Absent(Page(m, pre, body, post), n.start)
  {
    BlockSeams(m, body);
    AbsentInOther(n.start, m.start);
    AbsentInOther(n.start, m.end);
    AbsentConcat(m.start, body, n.start);
    AbsentConcat(m.start + body, m.end, n.start);
    var block := Block(m, body);
    AbsentConcat(block, post, n.start);
    assert (block + post)[0] == block[0];
    AbsentConcat(pre, block + post, n.start);
  }

  // On every page both gates accept: the two orders both succeed exactly when the
  // regions are apart, and then they give the same page.
  lemma CommuteExactlyWhenApart(m: Pair, n: Pair, text: string, s: nat, e: nat, t: nat, f: nat, x': string, y': string)
    requires Proper(m) && Proper(n) && Different(m, n)
    requires Marks(text, m, s, e) && Marks(text, n, t, f) && Bare(x', m, n) && Bare(y', m, n)
    ensures var mn := Then(Replace(m, text, Block(m, x')), n, Block(n, y'));
            var nm := Then(Replace(n, text, Block(n, y')), m, Block(m, x'));
            var apart := e + |m.end| <= t || f + |n.end| <= s;
            && (mn.Spliced? && nm.Spliced? <==> apart)
            && (apart ==> mn == nm)
  {
    if e + |m.end| <= t {
      InOrderSplicesCommute(m, n, text, s, e, t, f, x', y');
    } else if f + |n.end| <= s {
      InOrderSplicesCommute(n, m, text, t, f, s, e, y', x');
    } else if s < t {
      NotAfter(text, n.start, t, m.end, e);
      SwallowedMarkerIsLost(m, n, text, s, e, t, x', Block(n, y'));
    } else {
      NotAfter(text, m.start, s, n.end, f);
      NotAfter(text, m.start, s, n.start, t);
      SwallowedMarkerIsLost(n, m, text, t, f, s, y', Block(m, x'));
    }
  }

  // Two different markers do not stand at one place, nor overlap.
  lemma NotAfter(text: string, a: string, i: nat, b: string, j: nat)
    requires Marker(a) && Marker(b) && a != b && At(text, i, a) && At(text, j, b)
    ensures i != j && (i < j || j + |b| <= i)
  {
    if i <= j { NoOverlap(text, i, a, j, b); } else { NoOverlap(text, j, b, i, a); }
  }
}

// Taking the comments out of a text changes nothing about how the rest of it is
// lexed: the same literals are found at the same offsets, and no comment is left.
module Relex {
  import opened Text
  import opened Blank

  function PlainOf(text: string): string {
    seq(|text|, i requires 0 <= i < |text| => PlainChar(text, i))
  }

  // `p` is `text` from `pos` on, with the comments lexed from there blanked.
  ghost predicate Agrees(text: string, p: string, pos: nat) {
    && pos <= |text| == |p|
    && forall i :: pos <= i < |text| ==>
         p[i] == if Classify(text, pos, i) == Comment && text[i] != '\n' then ' ' else text[i]
  }

  // What stands before `pos` cannot tell the two texts apart.
  ghost predicate SameBehind(text: string, p: string, pos: nat)
    requires pos <= |text| == |p|
  {
    pos == 0 || pos == |text| || text[pos] == '\n' || WordChar(p[pos - 1]) == WordChar(text[pos - 1])
  }

  // A stretch where a visible character of `p` is a character of `text`.
  ghost predicate Visible(text: string, p: string, pos: nat) {
    |p| == |text| && forall i :: pos <= i < |text| && p[i] != ' ' ==> p[i] == text[i]
  }

  lemma NotAt(s: string, i: nat, w: string, k: nat)
    requires k < |w| && i + k < |s| && s[i + k] != w[k]
    ensures !At(s, i, w)
  {
    if i + |w| <= |s| { assert s[i..i + |w|][k] == s[i + k]; }
  }

  lemma AtVisible(text: string, p: string, pos: nat, i: nat, w: string)
    requires Visible(text, p, pos) && pos <= i && ' ' !in w && At(p, i, w)
    ensures At(text, i, w)
  {
    forall k | 0 <= k < |w| ensures text[i + k] == w[k] {
      assert p[i..i + |w|][k] == w[k];
      assert w[k] in w;
    }
    assert text[i..i + |w|] == w;
  }

  lemma {:induction false} HashesVisible(text: string, p: string, pos: nat, i: nat)
    requires Visible(text, p, pos) && pos <= i <= |text|
    requires Hashes(p, i) < |p| && p[Hashes(p, i)] == '"'
    ensures Hashes(text, i) == Hashes(p, i) && text[Hashes(p, i)] == '"'
    decreases |text| - i
  {
    if p[i] == '#' { HashesVisible(text, p, pos, i + 1); }
  }

  // A token seen in `p` is a token of `text`.
  lemma TokenVisible(text: string, p: string, pos: nat, i: nat)
    requires Visible(text, p, pos) && pos <= i < |text| && p[i] == text[i]
    requires i == 0 || text[i] == '\n' || WordChar(p[i - 1]) == WordChar(text[i - 1])
    requires TokenAt(p, i).Some?
    ensures TokenAt(text, i).Some?
  {
    if At(p, i, "//") { AtVisible(text, p, pos, i, "//"); }
    else if At(p, i, "/*") { AtVisible(text, p, pos, i, "/*"); }
    else if StringOpen(p, i).Some? { StringVisible(text, p, pos, i); }
  }

  lemma StringVisible(text: string, p: string, pos: nat, i: nat)
    requires Visible(text, p, pos) && pos <= i < |text| && p[i] == text[i]
    requires i == 0 || text[i] == '\n' || WordChar(p[i - 1]) == WordChar(text[i - 1])
    requires StringOpen(p, i).Some?
    ensures StringOpen(text, i).Some?
  {
    var free := i == 0 || !WordChar(p[i - 1]);
    if free {
      if At(p, i, "br") {
        AtVisible(text, p, pos, i, "br");
        HashesVisible(text, p, pos, i + 2);
      } else if p[i] == 'r' {
        HashesVisible(text, p, pos, i + 1);
        NotAt(text, i, "br", 0);
      } else if p[i] == 'b' {
        assert text[i + 1] == '"';
        NotAt(text, i, "br", 1);
      } else {
        NotAt(text, i, "br", 0);
      }
    }
  }

  // A blank or a line break starts nothing.
  lemma BlankStartsNothing(p: string, i: nat)
    requires i < |p| && (p[i] == ' ' || p[i] == '\n')
    ensures TokenAt(p, i).None?
  {
    NotAt(p, i, "//", 0);
    NotAt(p, i, "/*", 0);
    NotAt(p, i, "br", 0);
  }

  lemma {:induction false} SkipTo(p: string, pos: nat, to: nat)
    requires pos <= to <= |p| && forall i :: pos <= i < to ==> TokenAt(p, i).None?
    ensures NextStart(p, pos) == NextStart(p, to)
    decreases |p| - pos
  {
    if pos < to { SkipTo(p, pos + 1, to); }
  }

  lemma {:induction false} NothingBefore(text: string, pos: nat, i: nat)
    requires pos <= i < |text|
    requires NextStart(text, pos).Some? ==> i < NextStart(text, pos).value
    ensures TokenAt(text, i).None?
    decreases |text| - pos
  {
    if pos < i { NothingBefore(text, pos + 1, i); }
  }

  // Two texts that agree on a literal lex it alike.
  lemma {:induction false} EscapedSame(text: string, p: string, i: nat)
    requires i <= |text| == |p|
    requires forall k :: i <= k < EscapedEnd(text, i) ==> p[k] == text[k]
    ensures EscapedEnd(p, i) == EscapedEnd(text, i)
    decreases |text| - i
  {
    if i < |text| {
      if text[i] == '\\' {
        if i + 2 <= |text| { EscapedSame(text, p, i + 2); }
      } else if text[i] != '"' {
        EscapedSame(text, p, i + 1);
      }
    }
  }

  lemma {:induction false} FindSame(text: string, p: string, w: string, i: nat)
    requires i <= |text| == |p| && w != ""
    requires var f := Find(text, w, i);
             forall k :: i <= k < (if f.Some? then f.value + |w| else |text|) ==> p[k] == text[k]
    ensures Find(p, w, i) == Find(text, w, i)
    decreases |text| - i
  {
    var f := Find(text, w, i);
    var stop := if f.Some? then f.value + |w| else |text|;
    if i + |w| <= stop { assert p[i..i + |w|] == text[i..i + |w|]; }
    if !At(text, i, w) && i < |text| { FindSame(text, p, w, i + 1); }
  }

  lemma {:induction false} HashesSame(text: string, p: string, i: nat)
    requires i <= |text| == |p|
    requires forall k :: i <= k <= Hashes(text, i) && k < |text| ==> p[k] == text[k]
    ensures Hashes(p, i) == Hashes(text, i)
    decreases |text| - i
  {
    if i < |text| && text[i] == '#' { HashesSame(text, p, i + 1); }
  }

  // ---------------------------------------------------------------- literals again

  // A comment is at least two characters, so it never hides exactly one.
  lemma {:induction false} CommentsComeInPairs(text: string, pos: nat, k: nat)
    requires pos <= k < |text| && Classify(text, pos, k) == Comment
    requires k == pos || Classify(text, pos, k - 1) != Comment
    ensures k + 1 < |text| && Classify(text, pos, k + 1) == Comment
    decreases |text| - pos
  {
    var start := NextStart(text, pos).value;
    var s := SpanAt(text, start);
    if k >= s.stop { CommentsComeInPairs(text, s.stop, k); }
  }

  lemma BlankedIsComment(text: string, p: string, pos: nat, k: nat)
    requires Agrees(text, p, pos) && pos <= k < |text|
    ensures p[k] != text[k] ==> Classify(text, pos, k) == Comment
    ensures Classify(text, pos, k) == Comment ==> p[k] == ' ' || p[k] == '\n'
  {}

  lemma AgreesIsVisible(text: string, p: string, pos: nat)
    requires Agrees(text, p, pos)
    ensures Visible(text, p, pos)
  {}

  // The character after a hidden one, when the one before is seen, is hidden too.
  lemma HiddenPair(text: string, p: string, pos: nat, k: nat)
    requires Agrees(text, p, pos) && pos <= k && k + 1 < |text|
    requires k == pos || (p[k - 1] != ' ' && p[k - 1] != '\n')
    requires p[k + 1] != ' ' && p[k + 1] != '\n'
    ensures p[k] == text[k]
  {
    BlankedIsComment(text, p, pos, k);
    BlankedIsComment(text, p, pos, k + 1);
    if k > pos { BlankedIsComment(text, p, pos, k - 1); }
    if Classify(text, pos, k) == Comment { CommentsComeInPairs(text, pos, k); }
  }

  lemma {:induction false} HexRunVisible(text: string, p: string, pos: nat, i: nat)
    requires Visible(text, p, pos) && pos <= i <= |text|
    requires HexRun(p, i) < |p| && p[HexRun(p, i)] == '}'
    ensures HexRun(text, i) == HexRun(p, i)
    decreases |text| - i
  {
    if Hex(p[i]) || p[i] == '_' { HexRunVisible(text, p, pos, i + 1); }
  }

  lemma UnicodeVisible(text: string, p: string, pos: nat, i: nat)
    requires Visible(text, p, pos) && pos <= i + 1 && i + 2 < |text|
    requires p[i] == text[i] == '\'' && p[i + 1] == text[i + 1] == '\\'
    requires Unicode(p, i).Some?
    ensures Unicode(text, i) == Unicode(p, i)
  {
    AtVisible(text, p, pos, i + 2, "u{");
    var j := HexRun(p, i + 4);
    AtChars(p, j, "}'");
    HexRunVisible(text, p, pos, i + 4);
    AtVisible(text, p, pos, j, "}'");
  }

  // A lifetime stays a lifetime.
  lemma LifetimeStays(text: string, p: string, i: nat)
    requires i < |text| && Agrees(text, p, i + 1) && p[i] == text[i] == '\''
    requires CharEnd(text, i).None?
    ensures CharEnd(p, i).None?
  {
    AgreesIsVisible(text, p, i + 1);
    if i + 2 < |p| {
      if p[i + 1] != '\\' {
        if p[i + 2] == '\'' { HiddenPair(text, p, i + 1, i + 1); }
      } else {
        if Unicode(p, i).Some? { UnicodeVisible(text, p, i + 1, i); }
        if i + 3 < |p| && p[i + 3] == '\'' { HiddenPair(text, p, i + 1, i + 2); }
      }
    }
  }

  lemma {:induction false} HexRunSame(text: string, p: string, i: nat)
    requires i <= |text| == |p|
    requires forall k :: i <= k <= HexRun(text, i) && k < |text| ==> p[k] == text[k]
    ensures HexRun(p, i) == HexRun(text, i)
    decreases |text| - i
  {
    if i < |text| && (Hex(text[i]) || text[i] == '_') { HexRunSame(text, p, i + 1); }
  }

  lemma AtSame(text: string, p: string, i: nat, w: string)
    requires i + |w| <= |text| == |p| && forall k :: i <= k < i + |w| ==> p[k] == text[k]
    ensures At(p, i, w) == At(text, i, w)
  {
    assert p[i..i + |w|] == text[i..i + |w|];
  }

  lemma UnicodeSame(text: string, p: string, i: nat)
    requires i + 2 < |text| == |p| && text[i] == '\'' && text[i + 1] == '\\' && Unicode(text, i).Some?
    requires forall k :: i <= k < Unicode(text, i).value ==> p[k] == text[k]
    ensures Unicode(p, i) == Unicode(text, i)
  {
    var j := HexRun(text, i + 4);
    AtSame(text, p, i + 2, "u{");
    HexRunSame(text, p, i + 4);
    AtSame(text, p, j, "}'");
  }

  // A character literal that both texts spell alike is one in both.
  lemma CharSame(text: string, p: string, i: nat)
    requires i < |text| == |p| && text[i] == '\'' && CharEnd(text, i).Some?
    requires forall k :: i <= k < CharEnd(text, i).value ==> p[k] == text[k]
    ensures CharEnd(p, i) == CharEnd(text, i)
  {
    if text[i + 1] == '\\' && Unicode(text, i).Some? && CharEnd(text, i) == Unicode(text, i) {
      UnicodeSame(text, p, i);
      AtChars(text, i + 2, "u{");
    } else if text[i + 1] == '\\' && CharEnd(text, i) == Some(i + 4) {
      NotAt(p, i + 2, "u{", 1);
    }
  }

  ghost predicate SameFree(text: string, p: string, i: nat)
    requires i < |text| == |p|
  {
    i == 0 || WordChar(p[i - 1]) == WordChar(text[i - 1])
  }

  lemma OpenSame(text: string, p: string, i: nat)
    requires i < |text| == |p| && SameFree(text, p, i) && StringOpen(text, i).Some?
    requires forall k :: i <= k < StringOpen(text, i).value ==> p[k] == text[k]
    ensures StringOpen(p, i) == StringOpen(text, i)
  {
    var free := i == 0 || !WordChar(text[i - 1]);
    var end := StringOpen(text, i).value;
    if free {
      if At(text, i, "br") {
        AtSame(text, p, i, "br");
        HashesSame(text, p, i + 2);
      } else if text[i] == 'r' {
        HashesSame(text, p, i + 1);
        NotAt(p, i, "br", 0);
      } else if text[i] == 'b' {
        NotAt(p, i, "br", 1);
      } else {
        NotAt(p, i, "br", 0);
      }
    }
  }

  // The first character of a literal is not a slash.
  lemma LiteralHead(text: string, i: nat)
    requires i < |text| && TokenAt(text, i).Some? && !SpanAt(text, i).comment
    ensures text[i] != '/'
    ensures StringOpen(text, i).None? ==> text[i] == '\''
  {
    if text[i] == '/' { NotAt(text, i, "br", 0); }
  }

  lemma QuoteOpensNoString(p: string, i: nat)
    requires i < |p| && p[i] == '\''
    ensures StringOpen(p, i).None?
  {
    NotAt(p, i, "br", 0);
  }

  lemma StringSpanSame(text: string, p: string, i: nat)
    requires i < |text| == |p| && SameFree(text, p, i)
    requires StringOpen(text, i).Some? && !At(text, i, "//") && !At(text, i, "/*") && !At(p, i, "//") && !At(p, i, "/*")
    requires forall k :: i <= k < SpanAt(text, i).stop ==> p[k] == text[k]
    ensures TokenAt(p, i) == TokenAt(text, i) && SpanAt(p, i) == SpanAt(text, i)
  {
    var end := StringOpen(text, i).value;
    OpenSame(text, p, i);
    var token := text[i..end];
    assert p[i..end] == token;
    var raw := 'r' in token;
    if raw {
      FindSame(text, p, "\"" + HashesOf(token), end);
    } else {
      EscapedSame(text, p, end);
    }
  }

  // A literal that both texts spell alike is lexed alike.
  lemma LiteralSame(text: string, p: string, i: nat)
    requires i < |text| == |p| && SameFree(text, p, i)
    requires TokenAt(text, i).Some? && !SpanAt(text, i).comment
    requires forall k :: i <= k < SpanAt(text, i).stop ==> p[k] == text[k]
    requires Agrees(text, p, SpanAt(text, i).stop)
    ensures TokenAt(p, i) == TokenAt(text, i) && SpanAt(p, i) == SpanAt(text, i)
  {
    LiteralHead(text, i);
    NotAt(p, i, "//", 0);
    NotAt(p, i, "/*", 0);
    if StringOpen(text, i).Some? {
      NotAt(text, i, "//", 0);
      NotAt(text, i, "/*", 0);
      StringSpanSame(text, p, i);
    } else {
      QuoteOpensNoString(p, i);
      if CharEnd(text, i).Some? { CharSame(text, p, i); } else { LifetimeStays(text, p, i); }
    }
  }

  // ------------------------------------------------------------------- the theorem

  // Before the next token of `text` there is none in `p`.
  lemma NoNewToken(text: string, p: string, pos: nat, i: nat)
    requires Agrees(text, p, pos) && SameBehind(text, p, pos) && pos <= i < |text|
    requires NextStart(text, pos).Some? ==> i < NextStart(text, pos).value
    ensures TokenAt(p, i).None?
  {
    NothingBefore(text, pos, i);
    AgreesIsVisible(text, p, pos);
    if TokenAt(p, i).Some? {
      if text[i] == '\n' { BlankStartsNothing(p, i); } else { TokenVisible(text, p, pos, i); }
    }
  }

  lemma AgreesAfter(text: string, p: string, pos: nat)
    requires Agrees(text, p, pos) && NextStart(text, pos).Some?
    ensures var s := SpanAt(text, NextStart(text, pos).value); Agrees(text, p, s.stop)
  {
    SpanSettles(text, pos);
  }

  // After a block comment stands its slash, after a line comment a line break.
  lemma {:induction false} BlockEndsInSlash(text: string, i: nat, depth: nat)
    requires i <= |text| && depth > 0
    ensures var end := BlockEnd(text, i, depth); end == |text| || (end > 0 && text[end - 1] == '/')
    decreases |text| - i
  {
    if i < |text| {
      if At(text, i, "/*") {
        BlockEndsInSlash(text, i + 2, depth + 1);
      } else if At(text, i, "*/") {
        AtChars(text, i, "*/");
        assert text[i + 1] == "*/"[1] == '/';
        if depth > 1 {
          BlockEndsInSlash(text, i + 2, depth - 1);
        } else {
          assert BlockEnd(text, i, depth) == BlockEnd(text, i + 2, 0) == i + 2;
        }
      } else {
        BlockEndsInSlash(text, i + 1, depth);
      }
    }
  }

  lemma {:induction false} LineEndsAtBreak(text: string, i: nat)
    requires i <= |text|
    ensures LineEnd(text, i) == |text| || text[LineEnd(text, i)] == '\n'
    decreases |text| - i
  {
    if i < |text| && text[i] != '\n' { LineEndsAtBreak(text, i + 1); }
  }

  // The last character of a span, in both texts.
  lemma LastOfSpan(text: string, p: string, pos: nat)
    requires Agrees(text, p, pos) && NextStart(text, pos).Some?
    ensures var s := SpanAt(text, NextStart(text, pos).value);
            p[s.stop - 1] == if s.comment && text[s.stop - 1] != '\n' then ' ' else text[s.stop - 1]
  {
    SpanSettles(text, pos);
  }

  lemma CommentEnds(text: string, start: nat)
    requires start < |text| && TokenAt(text, start).Some? && SpanAt(text, start).comment
    ensures var stop := SpanAt(text, start).stop;
            stop == |text| || text[stop] == '\n' || text[stop - 1] == '/'
  {
    if At(text, start, "//") { LineEndsAtBreak(text, start + 2); } else { BlockEndsInSlash(text, start + 2, 1); }
  }

  lemma BehindAfter(text: string, p: string, pos: nat)
    requires Agrees(text, p, pos) && NextStart(text, pos).Some?
    ensures var s := SpanAt(text, NextStart(text, pos).value); SameBehind(text, p, s.stop)
  {
    var start := NextStart(text, pos).value;
    LastOfSpan(text, p, pos);
    if SpanAt(text, start).comment { CommentEnds(text, start); }
  }

  lemma CommentIsSkipped(text: string, p: string, pos: nat)
    requires Agrees(text, p, pos) && SameBehind(text, p, pos) && NextStart(text, pos).Some?
    requires SpanAt(text, NextStart(text, pos).value).comment
    ensures NextStart(p, pos) == NextStart(p, SpanAt(text, NextStart(text, pos).value).stop)
  {
    var start := NextStart(text, pos).value;
    var s := SpanAt(text, start);
    SpanSettles(text, pos);
    forall i | pos <= i < s.stop ensures TokenAt(p, i).None? {
      if i < start { NoNewToken(text, p, pos, i); } else { BlankStartsNothing(p, i); }
    }
    SkipTo(p, pos, s.stop);
  }

  lemma LiteralIsFound(text: string, p: string, pos: nat)
    requires Agrees(text, p, pos) && SameBehind(text, p, pos) && NextStart(text, pos).Some?
    requires !SpanAt(text, NextStart(text, pos).value).comment
    ensures var start := NextStart(text, pos).value;
            NextStart(p, pos) == Some(start) && SpanAt(p, start) == SpanAt(text, start)
  {
    var start := NextStart(text, pos).value;
    forall i | pos <= i < start ensures TokenAt(p, i).None? { NoNewToken(text, p, pos, i); }
    LiteralStays(text, p, pos, start);
    SkipTo(p, pos, start);
  }

  lemma LiteralStays(text: string, p: string, pos: nat, start: nat)
    requires Agrees(text, p, pos) && SameBehind(text, p, pos) && NextStart(text, pos) == Some(start)
    requires !SpanAt(text, start).comment
    ensures TokenAt(p, start).Some? && SpanAt(p, start) == SpanAt(text, start)
  {
    SpanSettles(text, pos);
    AgreesAfter(text, p, pos);
    LiteralHead(text, start);
    assert start > pos ==> p[start - 1] == text[start - 1];
    StartIsNotABreak(text, start);
    LiteralSame(text, p, start);
  }

  lemma StartIsNotABreak(text: string, i: nat)
    requires i < |text| && TokenAt(text, i).Some?
    ensures text[i] != '\n'
  {
    if text[i] == '\n' { BlankStartsNothing(text, i); }
  }

  function WithoutComment(k: Kind): Kind {
    if k == Comment then Code else k
  }

  lemma {:induction false} RelexFrom(text: string, p: string, pos: nat)
    requires Agrees(text, p, pos) && SameBehind(text, p, pos)
    ensures forall i :: 0 <= i < |text| ==> Classify(p, pos, i) == WithoutComment(Classify(text, pos, i))
    decreases |text| - pos
  {
    if NextStart(text, pos).None? {
      forall i | pos <= i < |text| ensures TokenAt(p, i).None? { NoNewToken(text, p, pos, i); }
      SkipTo(p, pos, |text|);
    } else {
      var start := NextStart(text, pos).value;
      var s := SpanAt(text, start);
      SpanSettles(text, pos);
      AgreesAfter(text, p, pos);
      BehindAfter(text, p, pos);
      RelexFrom(text, p, s.stop);
      if s.comment {
        CommentIsSkipped(text, p, pos);
        SameNextSameKinds(p, pos, s.stop);
      } else {
        LiteralIsFound(text, p, pos);
        SpanSettles(p, pos);
      }
    }
  }

  lemma SameNextSameKinds(p: string, a: nat, b: nat)
    requires a <= |p| && b <= |p| && NextStart(p, a) == NextStart(p, b)
    ensures forall i :: 0 <= i < |p| ==> Classify(p, a, i) == Classify(p, b, i)
  {}

  // Lexing the comment-free copy again finds the same literals and no comment, so
  // blanking it a second time returns both copies unchanged.
  lemma BlankingTwiceChangesNothing(text: string)
    ensures var p := PlainOf(text);
            forall i :: 0 <= i < |text| ==>
              && Classify(p, 0, i) == WithoutComment(Classify(text, 0, i))
              && PlainChar(p, i) == PlainChar(text, i) && DeepChar(p, i) == DeepChar(text, i)
  {
    RelexFrom(text, PlainOf(text), 0);
  }
}

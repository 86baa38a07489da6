// Where the two board readers agree, and what follows for the erase range.
module BoardLaws {
  import opened Text
  import opened Sizes
  import opened Boards

  // ------------------------------------------------------------------- trimming

  lemma {:induction false} LeftKeeps(sp: char -> bool, s: string, i: nat)
    requires i < |s| && !sp(s[i])
    ensures |StripLeft(sp, s)| >= |s| - i && s[i] in StripLeft(sp, s)
  {
    if sp(s[0]) { LeftKeeps(sp, s[1..], i - 1); }
  }

  lemma {:induction false} RightKeeps(sp: char -> bool, s: string, i: nat)
    requires i < |s| && !sp(s[i])
    ensures |StripRight(sp, s)| > i && StripRight(sp, s)[i] == s[i]
  {
    if sp(s[|s| - 1]) { RightKeeps(sp, s[..|s| - 1], i); }
  }

  // A visible character survives trimming.
  lemma StripKeeps(sp: char -> bool, s: string, c: char)
    requires c in s && !sp(c)
    ensures c in Strip(sp, s)
  {
    var i :| 0 <= i < |s| && s[i] == c;
    LeftKeeps(sp, s, i);
    var l := StripLeft(sp, s);
    var j :| 0 <= j < |l| && l[j] == c;
    RightKeeps(sp, l, j);
  }

  // Trimming on the right takes a suffix of spaces off.
  lemma {:induction false} RightDropsSpace(sp: char -> bool, s: string)
    ensures |StripRight(sp, s)| <= |s| && forall i :: |StripRight(sp, s)| <= i < |s| ==> sp(s[i])
  {
    if s != "" && sp(s[|s| - 1]) {
      var front := s[..|s| - 1];
      RightDropsSpace(sp, front);
      forall i | |StripRight(sp, s)| <= i < |s| ensures sp(s[i]) {
        if i < |s| - 1 { assert front[i] == s[i]; }
      }
    }
  }

  lemma RightSplits(sp: char -> bool, s: string)
    ensures var c := |StripRight(sp, s)|; c <= |s| && s == StripRight(sp, s) + s[c..] && AllIn(sp, s[c..])
  {
    RightDropsSpace(sp, s);
    StripRightShape(sp, s);
  }

  lemma {:induction false} LeftOfPadded(sp: char -> bool, a: string, pad: string)
    requires AllIn(sp, pad)
    ensures StripLeft(sp, a + pad) == StripLeft(sp, a) + pad || (StripLeft(sp, a) == "" && StripLeft(sp, a + pad) == "")
  {
    if a == "" {
      assert a + pad == pad == pad + "";
      StripLeftPad(sp, pad, "");
    } else if sp(a[0]) {
      assert (a + pad)[1..] == a[1..] + pad;
      LeftOfPadded(sp, a[1..], pad);
    }
  }

  // Trailing space does not change a trimmed value.
  lemma StripTrailing(sp: char -> bool, a: string, pad: string)
    requires AllIn(sp, pad)
    ensures Strip(sp, a + pad) == Strip(sp, a)
  {
    LeftOfPadded(sp, a, pad);
    if StripLeft(sp, a + pad) == StripLeft(sp, a) + pad { StripRightPad(sp, StripLeft(sp, a), pad); }
  }

  lemma StripTwice(sp: char -> bool, s: string)
    ensures Strip(sp, Strip(sp, s)) == Strip(sp, s)
  {
    StripPadded(sp, "", Strip(sp, s), "");
    assert "" + Strip(sp, s) + "" == Strip(sp, s);
  }

  // --------------------------------------------------------------- a single line

  // A section header without a comment on its line.
  ghost predicate HeaderClean(line: string) {
    var t := Strip(RustSpace, line);
    t != "" && t[0] == '[' ==> '#' !in t
  }

  lemma {:induction false} NoHashNoComment(s: string, quoted: bool)
    requires '#' !in s
    ensures BareHash(s, quoted) == None
  {
    if s != "" {
      assert s[0] in s && forall x :: x in s[1..] ==> x in s;
      NoHashNoComment(s[1..], if s[0] == '"' then !quoted else quoted);
    }
  }

  // Two readings of one line say the same about sections and about `size_mb`.
  ghost predicate SameReading(f: Entry, w: Entry) {
    && (f.Section? <==> w.Section?) && (f.Section? ==> f.name == w.name)
    && (IsSize(f) <==> IsSize(w))
    && (IsSize(f) && FirmwareNumber(f.value).Some? ==> w.value == Unquoted(f.value))
  }

  lemma PlainLineReadsAlike(line: string)
    requires var t := Strip(RustSpace, line); t != "" && '#' !in t
    ensures SameReading(FirmwareLine(line), WiperLine(line))
  {
    var t := Strip(RustSpace, line);
    assert t[0] in t;
    StripTwice(RustSpace, line);
    assert BeforeHash(t) == t;
    if Classify(t).Key? { PlainValueStays(t, Classify(t).value); }
  }

  lemma PlainValueStays(t: string, v: string)
    requires '#' !in t && Classify(t).Key? && v == Classify(t).value
    ensures StripComment(v) == v && Strip(RustSpace, Strip(RustSpace, v)) == Strip(RustSpace, v)
  {
    assert forall x :: x in v ==> x in t;
    NoHashNoComment(v, false);
    StripTwice(RustSpace, v);
  }

  // A character no number can hold.
  predicate Bad(c: char) { DigitValue(c) >= 16 && c !in "+_x" }

  // Left in a value, it makes the value no number.
  lemma BadIsNoNumber(v: string, c: char)
    requires c in Unquoted(v) && Bad(c)
    ensures FirmwareNumber(v) == None
  {
    BadSurvives(Unquoted(v), c);
    var clean := WithoutUnderscores(Unquoted(v));
    TrimHexKeeps(clean, c);
    BadIsNoDigit(TrimHex(clean), if StartsWith(clean, "0x") then 16 else 10, c);
  }

  lemma HashIsNoNumber(v: string)
    requires '#' in v
    ensures FirmwareNumber(v) == None
  {
    StripKeeps(RustSpace, v, '#');
    StripKeeps(Quote, Strip(RustSpace, v), '#');
    BadIsNoNumber(v, '#');
  }

  lemma {:induction false} NoUnderscores(s: string)
    requires '_' !in s
    ensures WithoutUnderscores(s) == s
  {
    if s != "" {
      assert s[0] in s && forall x :: x in s[1..] ==> x in s;
      NoUnderscores(s[1..]);
    }
  }

  lemma {:induction false} BadSurvives(s: string, c: char)
    requires c in s && c != '_'
    ensures c in WithoutUnderscores(s)
  {
    if s[0] != c {
      assert c in s[1..];
      BadSurvives(s[1..], c);
    }
  }

  lemma {:induction false} TrimHexKeeps(s: string, c: char)
    requires c in s && c !in "0x"
    ensures c in TrimHex(s)
  {
    if StartsWith(s, "0x") {
      var i :| 0 <= i < |s| && s[i] == c;
      assert s[..2][0] == s[0] && s[..2][1] == s[1];
      assert s[2..][i - 2] == c;
      TrimHexKeeps(s[2..], c);
    }
  }

  lemma BadIsNoDigit(s: string, radix: nat, c: char)
    requires c in s && radix <= 16 && DigitValue(c) >= radix && c != '+'
    ensures ParseU32(s, radix) == None
  {
    var digits := if s != "" && s[0] == '+' then s[1..] else s;
    var i :| 0 <= i < |s| && s[i] == c;
    var j := if |digits| == |s| then i else i - 1;
    assert digits[j] == c;
  }

  lemma {:induction false} FirstHash(s: string, quoted: bool, h: nat)
    requires IndexOf(s, '#') == Some(h)
    ensures BareHash(s, quoted) == Some(h) || (BareHash(s, quoted).Some? ==> BareHash(s, quoted).value > h)
  {
    if h > 0 { FirstHash(s[1..], if s[0] == '"' then !quoted else quoted, h - 1); }
  }

  // The value of a key with a comment after it.
  lemma CommentedValue(v: string, h: nat)
    requires IndexOf(v, '#') == Some(h)
    ensures FirmwareNumber(Strip(RustSpace, StripComment(v))).Some? ==>
              Strip(RustSpace, StripComment(v)) == Strip(RustSpace, v[..h])
  {
    FirstHash(v, false, h);
    var b := BareHash(v, false);
    if b == Some(h) {
      RightSplits(RustSpace, v[..h]);
      StripTrailing(RustSpace, StripRight(RustSpace, v[..h]), v[..h][|StripRight(RustSpace, v[..h])|..]);
    } else {
      var s := StripComment(v);
      assert '#' in s by {
        if b.Some? {
          assert v[..b.value][h] == '#';
          RightKeeps(RustSpace, v[..b.value], h);
        }
      }
      StripKeeps(RustSpace, s, '#');
      HashIsNoNumber(Strip(RustSpace, s));
    }
  }

  // What the wiper keeps of a commented line: a prefix of it, spaces dropped.
  lemma CutShape(t: string, h: nat) returns (cut: string)
    requires Trimmed(RustSpace, t) && 0 < h <= |t|
    ensures cut == Strip(RustSpace, t[..h]) && 0 < |cut| <= h && cut == t[..|cut|]
    ensures AllIn(RustSpace, t[..h][|cut|..])
    ensures forall i :: 0 <= i < h && !RustSpace(t[i]) ==> i < |cut|
  {
    var x := t[..h];
    assert x[0] == t[0];
    assert StripLeft(RustSpace, x) == x;
    cut := StripRight(RustSpace, x);
    RightSplits(RustSpace, x);
    StripRightShape(RustSpace, x);
    RightKeeps(RustSpace, x, 0);
    forall i | 0 <= i < h && !RustSpace(t[i]) ensures i < |cut| { RightKeeps(RustSpace, x, i); }
  }

  lemma KeyBeforeComment(t: string, h: nat, i: nat, cut: string)
    requires i < h < |t| && IndexOf(t, '=') == Some(i)
    requires i < |cut| <= h && cut == t[..|cut|]
    ensures IndexOf(cut, '=') == Some(i) && cut[..i] == t[..i]
  {
    assert cut[..i] == t[..i];
    IndexOfIs(cut, '=', i);
  }

  lemma ValueBeforeComment(t: string, h: nat, i: nat, cut: string)
    requires i < h < |t| && IndexOf(t, '#') == Some(h)
    requires i < |cut| <= h && cut == t[..|cut|] && AllIn(RustSpace, t[..h][|cut|..])
    ensures FirmwareNumber(Strip(RustSpace, StripComment(t[i + 1..]))).Some? ==>
              Strip(RustSpace, cut[i + 1..]) == Strip(RustSpace, StripComment(t[i + 1..]))
  {
    var v, k := t[i + 1..], h - i - 1;
    HashInValue(t, h, i);
    CommentedValue(v, k);
    ValuePieces(t, h, i, cut);
    StripTrailing(RustSpace, cut[i + 1..], t[..h][|cut|..]);
  }

  lemma HashInValue(t: string, h: nat, i: nat)
    requires i < h < |t| && IndexOf(t, '#') == Some(h)
    ensures IndexOf(t[i + 1..], '#') == Some(h - i - 1)
  {
    var v, k := t[i + 1..], h - i - 1;
    forall x | x in v[..k] ensures x != '#' {
      var j :| 0 <= j < k && v[..k][j] == x;
      assert t[..h][i + 1 + j] == x;
    }
    IndexOfIs(v, '#', k);
  }

  lemma ValuePieces(t: string, h: nat, i: nat, cut: string)
    requires i < |cut| <= h < |t| && cut == t[..|cut|]
    ensures t[i + 1..][..h - i - 1] == cut[i + 1..] + t[..h][|cut|..]
  {}

  lemma FirmwareKey(line: string, i: nat)
    requires var t := Strip(RustSpace, line); t != "" && t[0] != '[' && t[0] != '#' && IndexOf(t, '=') == Some(i)
    ensures var t := Strip(RustSpace, line);
            FirmwareLine(line) == Key(Strip(RustSpace, t[..i]), Strip(RustSpace, StripComment(t[i + 1..])))
  {}

  lemma WiperKey(line: string, cut: string, i: nat)
    requires cut == Strip(RustSpace, BeforeHash(Strip(RustSpace, line))) && cut != "" && cut[0] != '['
    requires IndexOf(cut, '=') == Some(i)
    ensures WiperLine(line) == Key(Strip(RustSpace, cut[..i]), Strip(Quote, Strip(RustSpace, cut[i + 1..])))
  {}

  lemma WiperNothing(line: string, cut: string)
    requires cut == Strip(RustSpace, BeforeHash(Strip(RustSpace, line))) && cut != "" && cut[0] != '['
    requires '=' !in cut
    ensures WiperLine(line) == Nothing
  {}

  lemma CommentAfterKey(line: string, h: nat, i: nat)
    requires var t := Strip(RustSpace, line); t != "" && t[0] != '[' && t[0] != '#' && IndexOf(t, '#') == Some(h)
    requires IndexOf(Strip(RustSpace, line), '=') == Some(i) && i < h
    ensures SameReading(FirmwareLine(line), WiperLine(line))
  {
    var t := Strip(RustSpace, line);
    var cut := CutShape(t, h);
    KeyBeforeComment(t, h, i, cut);
    ValueBeforeComment(t, h, i, cut);
    FirmwareKey(line, i);
    WiperKey(line, cut, i);
    StripTwice(RustSpace, StripComment(t[i + 1..]));
  }

  lemma CommentBeforeKey(line: string, h: nat)
    requires var t := Strip(RustSpace, line); t != "" && t[0] != '[' && t[0] != '#' && IndexOf(t, '#') == Some(h)
    requires var e := IndexOf(Strip(RustSpace, line), '='); e.Some? ==> h < e.value
    ensures SameReading(FirmwareLine(line), WiperLine(line))
  {
    var t := Strip(RustSpace, line);
    var cut := CutShape(t, h);
    var e := IndexOf(t, '=');
    if e.Some? {
      assert forall x :: x in cut ==> x in t[..e.value];
      FirmwareKey(line, e.value);
      assert t[..e.value][h] == '#';
      StripKeeps(RustSpace, t[..e.value], '#');
      assert '#' !in "size_mb";
    } else {
      assert forall x :: x in cut ==> x in t;
    }
    WiperNothing(line, cut);
  }

  lemma CommentedLineReadsAlike(line: string, h: nat)
    requires var t := Strip(RustSpace, line); t != "" && t[0] != '[' && t[0] != '#' && IndexOf(t, '#') == Some(h)
    ensures SameReading(FirmwareLine(line), WiperLine(line))
  {
    var t := Strip(RustSpace, line);
    var e := IndexOf(t, '=');
    if e.Some? && e.value < h {
      CommentAfterKey(line, h, e.value);
    } else {
      assert e.Some? ==> t[e.value] == '=' && t[h] == '#';
      CommentBeforeKey(line, h);
    }
  }

  lemma LineReadsAlike(line: string)
    requires HeaderClean(line)
    ensures SameReading(FirmwareLine(line), WiperLine(line))
  {
    var t := Strip(RustSpace, line);
    if t == "" {
      assert BeforeHash(t) == "" && Strip(RustSpace, "") == "";
    } else if '#' !in t {
      PlainLineReadsAlike(line);
    } else if t[0] == '#' {
      assert IndexOf(t, '#') == Some(0) && BeforeHash(t) == "" && Strip(RustSpace, "") == "";
    } else {
      CommentedLineReadsAlike(line, IndexOf(t, '#').value);
    }
  }

  // ----------------------------------------------------------------- a whole file

  ghost predicate HeadersClean(lines: seq<string>) {
    forall i :: 0 <= i < |lines| ==> HeaderClean(lines[i])
  }

  // Same values in the same order, up to quoting.
  ghost predicate Aligned(fs: seq<string>, ws: seq<string>) {
    |fs| == |ws| && forall i :: 0 <= i < |fs| && FirmwareNumber(fs[i]).Some? ==> ws[i] == Unquoted(fs[i])
  }

  lemma {:induction false} FilesReadAlike(lines: seq<string>, sec: string)
    requires HeadersClean(lines)
    ensures Aligned(FirmwareValues(lines, sec), WiperValues(lines, "flash", "size_mb", sec == "flash"))
  {
    if lines != [] {
      LineReadsAlike(lines[0]);
      var f, w := FirmwareLine(lines[0]), WiperLine(lines[0]);
      FilesReadAlike(lines[1..], if f.Section? then f.name else sec);
      ValuesStep(lines, sec);
      WiperStep(lines, sec == "flash");
      if sec == "flash" && IsSize(f) {
        AlignedCons(f.value, w.value,
                    FirmwareValues(lines[1..], sec), WiperValues(lines[1..], "flash", "size_mb", true));
      }
    }
  }

  lemma ValuesStep(lines: seq<string>, sec: string)
    requires lines != []
    ensures var f := FirmwareLine(lines[0]);
            FirmwareValues(lines, sec) ==
            if f.Section? then FirmwareValues(lines[1..], f.name)
            else if sec == "flash" && IsSize(f) then [f.value] + FirmwareValues(lines[1..], sec)
            else FirmwareValues(lines[1..], sec)
  {}

  lemma WiperStep(lines: seq<string>, here: bool)
    requires lines != []
    ensures var w := WiperLine(lines[0]);
            WiperValues(lines, "flash", "size_mb", here) ==
            if w.Section? then WiperValues(lines[1..], "flash", "size_mb", w.name == "flash")
            else if here && IsSize(w) then [w.value] + WiperValues(lines[1..], "flash", "size_mb", here)
            else WiperValues(lines[1..], "flash", "size_mb", here)
  {}

  lemma AlignedCons(f: string, w: string, fs: seq<string>, ws: seq<string>)
    requires Aligned(fs, ws) && (FirmwareNumber(f).Some? ==> w == Unquoted(f))
    ensures Aligned([f] + fs, [w] + ws)
  {}
}

// What the blanker takes for a comment or a literal, said without it: a source text
// is a list of pieces, each written out by its own grammar, and every offset is
// classified by the piece it lies in.
module Lexing {
  import opened Text
  import opened Blank
  import opened Relex

  // One character of an escaped string, or a backslash and what it escapes.
  datatype Unit = Ch(c: char) | Esc(c: char)

  // The inside of a block comment: its delimiters and everything else.
  datatype Mark = Other(c: char) | Open | Close

  datatype Literal = One(c: char) | Escaped(c: char) | Byte(high: char, low: char) | Point(hex: string)

  // The last three run into the end of the text.
  datatype Piece =
    | Plain(text: string)
    | LineComment(text: string)
    | BlockComment(marks: seq<Mark>)
    | Quoted(byte: bool, units: seq<Unit>)
    | Raw(byte: bool, hashes: nat, body: string)
    | CharLiteral(literal: Literal)
    | Tick
    | OpenBlock(marks: seq<Mark>)
    | OpenQuoted(byte: bool, units: seq<Unit>, lone: bool)
    | OpenRaw(byte: bool, hashes: nat, body: string)

  // ---------------------------------------------------------------- written out

  function Many<T>(x: T, n: nat): (s: seq<T>)
    ensures |s| == n && forall i :: 0 <= i < n ==> s[i] == x
  {
    seq(n, _ => x)
  }

  function Body(units: seq<Unit>): string {
    if units == [] then ""
    else (match units[0] case Ch(c) => [c] case Esc(c) => ['\\', c]) + Body(units[1..])
  }

  function Inside(marks: seq<Mark>): string {
    if marks == [] then ""
    else (match marks[0] case Other(c) => [c] case Open => "/*" case Close => "*/") + Inside(marks[1..])
  }

  function Within(l: Literal): string {
    match l
    case One(c) => [c]
    case Escaped(c) => ['\\', c]
    case Byte(h, l) => "\\x" + [h, l]
    case Point(hex) => "\\u{" + hex + "}"
  }

  // What stands in front of a string's body.
  function Opening(byte: bool, raw: bool, hashes: nat): string {
    (if byte then "b" else "") + (if raw then "r" + Many('#', hashes) else "") + "\""
  }

  function Closer(hashes: nat): string { "\"" + Many('#', hashes) }

  function Written(p: Piece): string {
    match p
    case Plain(text) => text
    case LineComment(text) => "//" + text
    case BlockComment(marks) => "/*" + Inside(marks)
    case Quoted(byte, units) => Opening(byte, false, 0) + Body(units) + "\""
    case Raw(byte, n, body) => Opening(byte, true, n) + body + Closer(n)
    case CharLiteral(l) => "'" + Within(l) + "'"
    case Tick => "'"
    case OpenBlock(marks) => "/*" + Inside(marks)
    case OpenQuoted(byte, units, lone) => Opening(byte, false, 0) + (Body(units) + if lone then "\\" else "")
    case OpenRaw(byte, n, body) => Opening(byte, true, n) + body
  }

  function WrittenAll(ps: seq<Piece>): string {
    if ps == [] then "" else Written(ps[0]) + WrittenAll(ps[1..])
  }

  // ------------------------------------------------------------------ what it is

  // A literal's delimiters are code. One that never ends keeps as many of its last
  // characters as its closing delimiter would have.
  function Literally(opening: nat, body: nat, closing: nat): seq<Kind> {
    Many(Code, opening) + Many(Interior, body) + Many(Code, closing)
  }

  function Unclosed(opening: nat, body: nat, closing: nat): seq<Kind> {
    if body <= closing then Many(Code, opening + body) else Literally(opening, body - closing, closing)
  }

  function Kinds(p: Piece): seq<Kind> {
    var n := |Written(p)|;
    match p
    case Plain(_) => Many(Code, n)
    case Tick => Many(Code, n)
    case LineComment(_) => Many(Comment, n)
    case BlockComment(_) => Many(Comment, n)
    case OpenBlock(_) => Many(Comment, n)
    case Quoted(byte, units) => Literally(|Opening(byte, false, 0)|, |Body(units)|, 1)
    case Raw(byte, h, body) => Literally(|Opening(byte, true, h)|, |body|, 1 + h)
    case CharLiteral(l) => Literally(1, |Within(l)|, 1)
    case OpenQuoted(byte, units, lone) =>
      Unclosed(|Opening(byte, false, 0)|, |Body(units)| + if lone then 1 else 0, 1)
    case OpenRaw(byte, h, body) => Unclosed(|Opening(byte, true, h)|, |body|, 1 + h)
  }

  // ------------------------------------------------------------- when it is that

  predicate Letter(c: char) { '0' <= c <= '9' || 'A' <= c <= 'Z' || c == '_' || 'a' <= c <= 'z' }

  predicate HexDigit(c: char) { '0' <= c <= '9' || 'A' <= c <= 'F' || 'a' <= c <= 'f' }

  // Nothing that could be part of a name stands right before.
  predicate Free(before: string) { before == "" || !Letter(before[|before| - 1]) }

  // A prefixed string could start here.
  ghost predicate Prefixed(s: string) {
    || StartsWith(s, Opening(true, false, 0))
    || exists n: nat, byte :: StartsWith(s, Opening(byte, true, n))
  }

  // No comment or literal starts with the first character of `s`.
  ghost predicate Quiet(before: string, s: string) {
    && s != "" && s[0] != '"' && s[0] != '\''
    && !StartsWith(s, "//") && !StartsWith(s, "/*") && !(Free(before) && Prefixed(s))
  }

  ghost predicate AllQuiet(before: string, t: string, after: string)
    decreases |t|
  {
    t != "" ==> Quiet(before, t + after) && AllQuiet(before + [t[0]], t[1..], after)
  }

  ghost predicate NeverCloses(body: string, n: nat) {
    forall i :: 0 <= i <= |body| ==> !At(body, i, Closer(n))
  }

  // The delimiters are read as early as they can be, so none is left among the others.
  predicate Munched(marks: seq<Mark>) {
    marks != [] ==>
      && Munched(marks[1..])
      && var next := Inside(marks[1..]);
         (marks[0].Other? && next != "" ==>
            !(marks[0].c == '/' && next[0] == '*') && !(marks[0].c == '*' && next[0] == '/'))
  }

  // From depth `d` the last mark, and no earlier one, closes the comment.
  predicate Closes(marks: seq<Mark>, d: nat) {
    marks != [] &&
    match marks[0]
    case Other(_) => Closes(marks[1..], d)
    case Open => Closes(marks[1..], d + 1)
    case Close => if d <= 1 then |marks| == 1 else Closes(marks[1..], d - 1)
  }

  predicate StaysOpen(marks: seq<Mark>, d: nat) {
    marks == [] ||
    match marks[0]
    case Other(_) => StaysOpen(marks[1..], d)
    case Open => StaysOpen(marks[1..], d + 1)
    case Close => d > 1 && StaysOpen(marks[1..], d - 1)
  }

  predicate Unescaped(units: seq<Unit>) {
    forall i :: 0 <= i < |units| && units[i].Ch? ==> units[i].c != '"' && units[i].c != '\\'
  }

  predicate GoodLiteral(l: Literal) {
    match l
    case One(c) => c != '\\' && c != '\'' && c != '\n'
    case Escaped(c) => c != '\n'
    case Byte(h, l) => HexDigit(h) && HexDigit(l)
    case Point(hex) => 1 <= |hex| <= 6 && forall i :: 0 <= i < |hex| ==> HexDigit(hex[i]) || hex[i] == '_'
  }

  // The piece is one where it stands, between `before` and `after`.
  ghost predicate Stands(before: string, p: Piece, after: string) {
    match p
    case Plain(t) => AllQuiet(before, t, after)
    case LineComment(t) => '\n' !in t && (after == "" || after[0] == '\n')
    case BlockComment(marks) => Munched(marks) && Closes(marks, 1)
    case Quoted(byte, units) => Unescaped(units) && (byte ==> Free(before))
    case Raw(_, n, body) => Free(before) && NeverCloses(body, n)
    case CharLiteral(l) => GoodLiteral(l)
    case Tick =>
      after == "" ||
      (after[0] != '\\' && !(|after| > 1 && after[1] == '\'' && after[0] != '\'' && after[0] != '\n'))
    case OpenBlock(marks) => after == "" && Munched(marks) && StaysOpen(marks, 1)
    case OpenQuoted(byte, units, _) => after == "" && Unescaped(units) && (byte ==> Free(before))
    case OpenRaw(_, n, body) => after == "" && Free(before) && NeverCloses(body, n)
  }

  ghost predicate StandAll(before: string, ps: seq<Piece>)
    decreases |ps|
  {
    ps != [] ==> Stands(before, ps[0], WrittenAll(ps[1..])) && StandAll(before + Written(ps[0]), ps[1..])
  }

  // ------------------------------------------------------------------- one piece

  // `text` is `before`, then `mid`, then `after`.
  ghost predicate Placed(text: string, before: string, mid: string, after: string) {
    text == before + mid + after
  }

  lemma CharsOf(text: string, before: string, mid: string, after: string)
    requires Placed(text, before, mid, after)
    ensures |text| == |before| + |mid| + |after|
    ensures forall i :: 0 <= i < |before| ==> text[i] == before[i]
    ensures forall i :: 0 <= i < |mid| ==> text[|before| + i] == mid[i]
    ensures forall i :: 0 <= i < |after| ==> text[|before| + |mid| + i] == after[i]
  {}

  lemma Regroup(text: string, before: string, a: string, b: string, after: string)
    requires Placed(text, before, a + b, after)
    ensures Placed(text, before + a, b, after) && Placed(text, before, a, b + after)
  {
    assert before + (a + b) + after == before + a + b + after;
  }

  lemma AtPlace(text: string, before: string, mid: string, after: string)
    requires Placed(text, before, mid, after)
    ensures At(text, |before|, mid)
  {
    assert text[|before|..|before| + |mid|] == mid;
  }

  // -------------------------------------------------------------------- comments

  lemma {:induction false} LineEndIs(text: string, before: string, mid: string, after: string)
    requires Placed(text, before, mid, after) && '\n' !in mid && (after == "" || after[0] == '\n')
    ensures LineEnd(text, |before|) == |before| + |mid|
    decreases |mid|
  {
    CharsOf(text, before, mid, after);
    if mid != "" {
      assert mid[0] in mid && mid == [mid[0]] + mid[1..];
      Regroup(text, before, [mid[0]], mid[1..], after);
      LineEndIs(text, before + [mid[0]], mid[1..], after);
    }
  }

  lemma InsideStep(marks: seq<Mark>)
    requires marks != []
    ensures Inside(marks) == Inside(marks[..1]) + Inside(marks[1..])
    ensures Inside(marks[..1]) == match marks[0] case Other(c) => [c] case Open => "/*" case Close => "*/"
  {
    assert marks[..1][0] == marks[0] && marks[..1][1..] == [];
  }

  lemma MarkIsRead(text: string, before: string, marks: seq<Mark>, after: string, d: nat)
    requires marks != [] && Munched(marks) && Placed(text, before, Inside(marks), after) && d > 0
    requires marks[0].Other? ==> Inside(marks[1..]) != "" || after == ""
    ensures var b := |before| + |Inside(marks[..1])|;
            b <= |text| &&
            BlockEnd(text, |before|, d) ==
            BlockEnd(text, b, match marks[0] case Other(_) => d case Open => d + 1 case Close => d - 1)
  {
    InsideStep(marks);
    var head := Inside(marks[..1]);
    CharsOf(text, before, Inside(marks), after);
    Regroup(text, before, head, Inside(marks[1..]), after);
    AtPlace(text, before, head, Inside(marks[1..]) + after);
    var a := |before|;
    match marks[0]
    case Other(c) =>
      assert text[a] == c;
      assert a + 1 < |text| ==> text[a + 1] == Inside(marks[1..])[0];
      NotBoth(text, a, "/*");
      NotBoth(text, a, "*/");
    case Open =>
    case Close =>
      assert text[a] == head[0] == '*';
      NotBoth(text, a, "/*");
  }

  lemma NotBoth(text: string, a: nat, w: string)
    requires |w| == 2 && (a + 1 < |text| ==> text[a] != w[0] || text[a + 1] != w[1])
    ensures !At(text, a, w)
  {
    if a + 2 <= |text| { assert text[a..a + 2][0] == text[a] && text[a..a + 2][1] == text[a + 1]; }
  }

  lemma {:induction false} BlockEndIs(text: string, before: string, marks: seq<Mark>, after: string, d: nat)
    requires Munched(marks) && Closes(marks, d) && d > 0 && Placed(text, before, Inside(marks), after)
    ensures BlockEnd(text, |before|, d) == |before| + |Inside(marks)|
    decreases |marks|
  {
    InsideStep(marks);
    var head, rest := Inside(marks[..1]), Inside(marks[1..]);
    if marks[0].Other? { InsideIsSomething(marks[1..], d); }
    MarkIsRead(text, before, marks, after, d);
    Regroup(text, before, head, rest, after);
    CharsOf(text, before, Inside(marks), after);
    if marks[0] == Close && d == 1 {
      assert marks[1..] == [];
    } else {
      BlockEndIs(text, before + head, marks[1..], after,
                 match marks[0] case Other(_) => d case Open => d + 1 case Close => d - 1);
    }
  }

  lemma InsideIsSomething(marks: seq<Mark>, d: nat)
    requires Closes(marks, d)
    ensures Inside(marks) != ""
  {}

  lemma {:induction false} OpenBlockEndIs(text: string, before: string, marks: seq<Mark>, d: nat)
    requires Munched(marks) && StaysOpen(marks, d) && d > 0 && Placed(text, before, Inside(marks), "")
    ensures BlockEnd(text, |before|, d) == |text|
    decreases |marks|
  {
    CharsOf(text, before, Inside(marks), "");
    if marks != [] {
      InsideStep(marks);
      var head, rest := Inside(marks[..1]), Inside(marks[1..]);
      MarkIsRead(text, before, marks, "", d);
      Regroup(text, before, head, rest, "");
      OpenBlockEndIs(text, before + head, marks[1..],
                     match marks[0] case Other(_) => d case Open => d + 1 case Close => d - 1);
    }
  }

  // ---------------------------------------------------------------------- strings

  lemma {:induction false} EscapedEndIs(text: string, before: string, units: seq<Unit>, after: string)
    requires Unescaped(units) && Placed(text, before, Body(units), "\"" + after)
    ensures EscapedEnd(text, |before|) == |before| + |Body(units)| + 1
    decreases |units|
  {
    CharsOf(text, before, Body(units), "\"" + after);
    if units != [] {
      var head := Body(units[..1]);
      UnitStep(units);
      Regroup(text, before, head, Body(units[1..]), "\"" + after);
      EscapedEndIs(text, before + head, units[1..], after);
    }
  }

  lemma UnitStep(units: seq<Unit>)
    requires units != []
    ensures Body(units) == Body(units[..1]) + Body(units[1..])
    ensures Body(units[..1]) == match units[0] case Ch(c) => [c] case Esc(c) => ['\\', c]
  {
    assert units[..1][0] == units[0] && units[..1][1..] == [];
  }

  lemma {:induction false} OpenEscapedEndIs(text: string, before: string, units: seq<Unit>, lone: bool)
    requires Unescaped(units) && Placed(text, before, Body(units), if lone then "\\" else "")
    ensures EscapedEnd(text, |before|) == |text|
    decreases |units|
  {
    var after := if lone then "\\" else "";
    CharsOf(text, before, Body(units), after);
    if units != [] {
      var head := Body(units[..1]);
      UnitStep(units);
      Regroup(text, before, head, Body(units[1..]), after);
      OpenEscapedEndIs(text, before + head, units[1..], lone);
    }
  }

  lemma {:induction false} HashesRun(text: string, pos: nat, n: nat)
    requires pos + n <= |text| && (pos + n == |text| || text[pos + n] != '#')
    requires forall k :: pos <= k < pos + n ==> text[k] == '#'
    ensures Hashes(text, pos) == pos + n
    decreases n
  {
    if n > 0 { HashesRun(text, pos + 1, n - 1); }
  }

  // An opening is recognised for what it is, prefix and all.
  lemma OpensString(text: string, before: string, byte: bool, raw: bool, n: nat, after: string)
    requires Placed(text, before, Opening(byte, raw, n), after) && (byte || raw ==> Free(before))
    ensures |before| < |text| && StringOpen(text, |before|) == Some(|before| + |Opening(byte, raw, n)|)
    ensures TokenAt(text, |before|) == StringOpen(text, |before|)
    ensures !At(text, |before|, "//") && !At(text, |before|, "/*")
  {
    var o, a := Opening(byte, raw, n), |before|;
    CharsOf(text, before, o, after);
    assert o[|o| - 1] == '"';
    assert a > 0 ==> text[a - 1] == before[a - 1];
    assert o[0] == if byte then 'b' else if raw then 'r' else '"';
    NotBoth(text, a, "//");
    NotBoth(text, a, "/*");
    if raw {
      RawPrefix(text, before, byte, n, after);
    } else {
      if byte { assert o[1] == '"'; }
      NotBoth(text, a, "br");
    }
  }

  lemma RawPrefix(text: string, before: string, byte: bool, n: nat, after: string)
    requires Placed(text, before, Opening(byte, true, n), after)
    ensures var a, k := |before|, if byte then 2 else 1;
            && a + k <= |text| && Hashes(text, a + k) == a + k + n && (At(text, a, "br") <==> byte)
            && (!byte ==> text[a] == 'r')
  {
    var pre, h := if byte then "br" else "r", Many('#', n);
    OpeningText(byte, n, pre, h);
    Regroup(text, before, pre, h + "\"", after);
    PrefixIs(text, before, pre, h + "\"" + after, byte);
    HashesAfter(text, before + pre, n, after);
  }

  lemma HashesAfter(text: string, before: string, n: nat, after: string)
    requires Placed(text, before, Many('#', n) + "\"", after)
    ensures Hashes(text, |before|) == |before| + n
  {
    var s := Many('#', n) + "\"";
    CharsOf(text, before, s, after);
    forall k | |before| <= k < |before| + n ensures text[k] == '#' { assert text[k] == s[k - |before|]; }
    assert text[|before| + n] == s[n] == '"';
    HashesRun(text, |before|, n);
  }

  lemma PrefixIs(text: string, before: string, pre: string, rest: string, byte: bool)
    requires Placed(text, before, pre, rest) && pre == if byte then "br" else "r"
    ensures |before| + |pre| <= |text| && (At(text, |before|, "br") <==> byte) && (!byte ==> text[|before|] == 'r')
  {
    CharsOf(text, before, pre, rest);
    if byte { AtPlace(text, before, pre, rest); } else { NotBoth(text, |before|, "br"); }
  }

  lemma Places(text: string, before: string, a: string, b: string, c: string, after: string)
    requires Placed(text, before, a + (b + c), after)
    ensures Placed(text, before, a, b + c + after)
    ensures Placed(text, before + a, b, c + after) && Placed(text, before + a + b, c, after)
  {
    Regroup(text, before, a, b + c, after);
    Regroup(text, before + a, b, c, after);
  }

  lemma OpeningText(byte: bool, n: nat, pre: string, h: string)
    requires pre == (if byte then "br" else "r") && h == Many('#', n)
    ensures Opening(byte, true, n) == pre + (h + "\"")
  {}

  lemma {:induction false} HashesOfMany(n: nat)
    ensures HashesOf(Many('#', n) + "\"") == Many('#', n)
  {
    var s := Many('#', n) + "\"";
    if n == 0 {
      assert s == "\"" && s[1..] == "";
      assert HashesOf(s) == "" + HashesOf("");
    } else {
      assert s[1..] == Many('#', n - 1) + "\"";
      HashesOfMany(n - 1);
      assert "#" + Many('#', n - 1) == Many('#', n);
    }
  }

  lemma ClosingOf(byte: bool, raw: bool, n: nat)
    ensures var token := Opening(byte, raw, n);
            ('r' in token <==> raw) && (raw ==> "\"" + HashesOf(token) == Closer(n))
  {
    var token := Opening(byte, raw, n);
    if raw {
      var rest := Many('#', n) + "\"";
      HashesOfMany(n);
      if byte {
        assert token == "br" + rest && token[1] == 'r';
        assert token[1..] == "r" + rest && token[1..][1..] == rest;
      } else {
        assert token == "r" + rest && token[0] == 'r' && token[1..] == rest;
      }
    } else {
      assert token == if byte then "b\"" else "\"";
    }
  }

  // A closing delimiter cannot lie across the end of a raw body.
  lemma NoCloserBefore(text: string, before: string, n: nat, body: string, after: string, i: nat)
    requires Placed(text, before, body, after) && (after == "" || after[0] == '"')
    requires NeverCloses(body, n)
    requires |before| <= i < |before| + |body|
    ensures !At(text, i, Closer(n))
  {
    CharsOf(text, before, body, after);
    if At(text, i, Closer(n)) {
      var k := i - |before|;
      if k + |Closer(n)| <= |body| {
        AtInBody(text, before, body, after, i, Closer(n));
      } else {
        Straddles(text, i, n, |body| - k);
      }
    }
  }

  // Past its first character a delimiter is all hashes.
  lemma Straddles(text: string, i: nat, n: nat, j: nat)
    requires At(text, i, Closer(n)) && 0 < j < |Closer(n)|
    ensures text[i + j] == '#'
  {
    AtChars(text, i, Closer(n));
    assert Closer(n)[j] == Many('#', n)[j - 1];
  }

  lemma AtInBody(text: string, before: string, body: string, after: string, i: nat, w: string)
    requires Placed(text, before, body, after) && |before| <= i && i + |w| <= |before| + |body| && At(text, i, w)
    ensures At(body, i - |before|, w)
  {
    var k := i - |before|;
    assert text[i..i + |w|] == body[k..k + |w|];
  }

  lemma RawEndIs(text: string, before: string, n: nat, body: string, after: string)
    requires Placed(text, before, body, Closer(n) + after)
    requires NeverCloses(body, n)
    ensures Find(text, Closer(n), |before|) == Some(|before| + |body|)
  {
    var b := |before| + |body|;
    forall i | |before| <= i < b ensures !At(text, i, Closer(n)) {
      NoCloserBefore(text, before, n, body, Closer(n) + after, i);
    }
    assert Placed(text, before + body, Closer(n), after);
    AtPlace(text, before + body, Closer(n), after);
    FindIsFirst(text, Closer(n), |before|);
  }

  lemma OpenRawEndIs(text: string, before: string, n: nat, body: string)
    requires Placed(text, before, body, "")
    requires NeverCloses(body, n)
    ensures Find(text, Closer(n), |before|) == None
  {
    CharsOf(text, before, body, "");
    forall i | |before| <= i < |text| ensures !At(text, i, Closer(n)) {
      NoCloserBefore(text, before, n, body, "", i);
    }
  }

  // ------------------------------------------------------------ character literals

  lemma {:induction false} HexRunIs(text: string, before: string, hex: string, after: string)
    requires Placed(text, before, hex, after) && (after == "" || (!HexDigit(after[0]) && after[0] != '_'))
    requires forall i :: 0 <= i < |hex| ==> HexDigit(hex[i]) || hex[i] == '_'
    ensures HexRun(text, |before|) == |before| + |hex|
    decreases |hex|
  {
    CharsOf(text, before, hex, after);
    if hex != "" {
      assert hex == [hex[0]] + hex[1..];
      Regroup(text, before, [hex[0]], hex[1..], after);
      HexRunIs(text, before + [hex[0]], hex[1..], after);
    }
  }

  lemma PointEndIs(text: string, before: string, hex: string, after: string)
    requires GoodLiteral(Point(hex)) && Placed(text, before, "'" + Within(Point(hex)) + "'", after)
    ensures |before| + 2 < |text| && text[|before|] == '\'' && text[|before| + 1] == '\\'
    ensures Unicode(text, |before|) == Some(|before| + |hex| + 6)
  {
    var head, tail := "'\\u{", "}'";
    PointText(hex, head, tail);
    Places(text, before, head, hex, tail, after);
    PointOpens(text, before, head, hex + tail + after);
    HexRunIs(text, before + head, hex, tail + after);
    AtPlace(text, before + head + hex, tail, after);
    UnicodeIs(text, |before|, |before + head + hex|);
  }

  lemma UnicodeIs(text: string, a: nat, j: nat)
    requires a + 4 <= |text| && text[a] == '\'' && text[a + 1] == '\\' && At(text, a + 2, "u{")
    requires HexRun(text, a + 4) == j && 1 <= j - (a + 4) <= 6 && At(text, j, "}'")
    ensures Unicode(text, a) == Some(j + 2)
  {}

  lemma PointOpens(text: string, before: string, head: string, rest: string)
    requires Placed(text, before, head, rest) && head == "'\\u{"
    ensures |before| + 4 <= |text| && text[|before|] == '\'' && text[|before| + 1] == '\\'
    ensures At(text, |before| + 2, "u{")
  {
    CharsOf(text, before, head, rest);
    assert text[|before| + 2..|before| + 4] == "u{";
  }

  lemma PointText(hex: string, head: string, tail: string)
    requires head == "'\\u{" && tail == "}'"
    ensures "'" + Within(Point(hex)) + "'" == head + (hex + tail)
  {}

  lemma CharEndIs(text: string, before: string, l: Literal, after: string)
    requires GoodLiteral(l) && Placed(text, before, "'" + Within(l) + "'", after)
    ensures |before| < |text| && text[|before|] == '\''
    ensures CharEnd(text, |before|) == Some(|before| + |Within(l)| + 2)
  {
    var w, a := "'" + Within(l) + "'", |before|;
    CharsOf(text, before, w, after);
    match l
    case One(c) => assert w == ['\'', c, '\''];
    case Escaped(c) =>
      assert w == ['\'', '\\', c, '\''];
      assert text[a + 3] == '\'';
      NotBoth(text, a + 2, "u{");
    case Byte(h, l) => assert w == ['\'', '\\', 'x', h, l, '\''];
    case Point(hex) =>
      PointEndIs(text, before, hex, after);
      assert w[2] == 'u' && text[a + 2] == 'u';
  }

  lemma QuoteIsToken(text: string, a: nat)
    requires a < |text| && text[a] == '\''
    ensures StringOpen(text, a) == None && TokenAt(text, a) == Some(a + 1)
    ensures !At(text, a, "//") && !At(text, a, "/*")
  {
    NotBoth(text, a, "//");
    NotBoth(text, a, "/*");
    NotBoth(text, a, "br");
  }

  // ------------------------------------------------------------------- plain code

  lemma {:induction false} HashesAre(text: string, i: nat)
    requires i <= |text|
    ensures text[i..Hashes(text, i)] == Many('#', Hashes(text, i) - i)
    decreases |text| - i
  {
    if i < |text| && text[i] == '#' {
      HashesAre(text, i + 1);
      assert text[i..Hashes(text, i)] == "#" + text[i + 1..Hashes(text, i)];
    } else {
      assert text[i..i] == "";
    }
  }

  lemma QuietHasNoToken(text: string, before: string, s: string)
    requires text == before + s && Quiet(before, s)
    ensures TokenAt(text, |before|) == None
  {
    var a := |before|;
    assert text[a..] == s && text[a] == s[0];
    StartsAt(text, a, "//");
    StartsAt(text, a, "/*");
    QuietOpensNothing(text, before, s);
  }

  lemma StartsAt(text: string, a: nat, w: string)
    requires a <= |text|
    ensures At(text, a, w) <==> StartsWith(text[a..], w)
  {
    if a + |w| <= |text| { assert text[a..][..|w|] == text[a..a + |w|]; }
  }

  lemma QuietOpensNothing(text: string, before: string, s: string)
    requires text == before + s && Quiet(before, s)
    ensures StringOpen(text, |before|) == None
  {
    var a := |before|;
    assert text[a..] == s && text[a] == s[0];
    assert a > 0 ==> text[a - 1] == before[a - 1];
    if StringOpen(text, a).Some? {
      var j := StringOpen(text, a).value - 1;
      assert text[j] == '"' && j > a;
      OpeningStarts(text, a, j);
    }
  }

  // What is recognised as a prefixed opening is written as one.
  lemma OpeningStarts(text: string, a: nat, j: nat)
    requires a < j < |text| && StringOpen(text, a) == Some(j + 1)
    ensures a == 0 || !Letter(text[a - 1])
    ensures Prefixed(text[a..])
  {
    if At(text, a, "br") {
      RawStarts(text, a, j, true);
    } else if text[a] == 'r' {
      RawStarts(text, a, j, false);
    } else {
      assert text[a..][..2] == [text[a], text[j]] == Opening(true, false, 0);
    }
  }

  lemma ThreeSlices(text: string, a: nat, k: nat, j: nat)
    requires a <= k <= j < |text|
    ensures text[a..][..j + 1 - a] == text[a..k] + (text[k..j] + [text[j]])
  {
    assert text[a..][..j + 1 - a] == text[a..j + 1];
  }

  lemma RawStarts(text: string, a: nat, j: nat, byte: bool)
    requires a < j < |text| && text[j] == '"' && (if byte then At(text, a, "br") else text[a] == 'r')
    requires var k := a + if byte then 2 else 1; k <= |text| && Hashes(text, k) == j
    ensures Prefixed(text[a..])
  {
    var k := a + if byte then 2 else 1;
    HashesAre(text, k);
    ThreeSlices(text, a, k, j);
    assert text[a..k] == if byte then "br" else "r";
    OpeningText(byte, j - k, text[a..k], text[k..j]);
    assert StartsWith(text[a..], Opening(byte, true, j - k));
  }

  // ---------------------------------------------------------------- every piece

  // What the blanker has to make of a piece that starts at `a`.
  function SpanOf(p: Piece, a: nat): Span {
    var b := a + |Written(p)|;
    match p
    case Quoted(byte, _) => Span(false, b, a + |Opening(byte, false, 0)|, b - 1)
    case Raw(byte, n, _) => Span(false, b, a + |Opening(byte, true, n)|, b - 1 - n)
    case CharLiteral(_) => Span(false, b, a + 1, b - 1)
    case Tick => Span(false, b, b, b)
    case OpenQuoted(byte, _, _) => Span(false, b, a + |Opening(byte, false, 0)|, b - 1)
    case OpenRaw(byte, n, _) => Span(false, b, a + |Opening(byte, true, n)|, b - 1 - n)
    case _ => Span(true, b, a, b)
  }

  ghost predicate Spans(text: string, a: nat, s: Span) {
    a < |text| && TokenAt(text, a).Some? && SpanAt(text, a) == s
  }

  lemma LineSpan(text: string, before: string, t: string, after: string)
    requires Placed(text, before, "//" + t, after) && '\n' !in t && (after == "" || after[0] == '\n')
    ensures Spans(text, |before|, SpanOf(LineComment(t), |before|))
  {
    CharsOf(text, before, "//" + t, after);
    Regroup(text, before, "//", t, after);
    AtPlace(text, before, "//", t + after);
    LineEndIs(text, before + "//", t, after);
  }

  lemma BlockOpens(text: string, before: string, inside: string, after: string)
    requires Placed(text, before, "/*" + inside, after)
    ensures Placed(text, before + "/*", inside, after)
    ensures At(text, |before|, "/*") && !At(text, |before|, "//")
  {
    CharsOf(text, before, "/*" + inside, after);
    Regroup(text, before, "/*", inside, after);
    AtPlace(text, before, "/*", inside + after);
    NotBoth(text, |before|, "//");
  }

  lemma BlockSpan(text: string, before: string, marks: seq<Mark>, after: string)
    requires Placed(text, before, "/*" + Inside(marks), after) && Munched(marks) && Closes(marks, 1)
    ensures Spans(text, |before|, SpanOf(BlockComment(marks), |before|))
  {
    BlockOpens(text, before, Inside(marks), after);
    BlockEndIs(text, before + "/*", marks, after, 1);
  }

  lemma OpenBlockSpan(text: string, before: string, marks: seq<Mark>)
    requires Placed(text, before, "/*" + Inside(marks), "") && Munched(marks) && StaysOpen(marks, 1)
    ensures Spans(text, |before|, SpanOf(OpenBlock(marks), |before|))
  {
    BlockOpens(text, before, Inside(marks), "");
    OpenBlockEndIs(text, before + "/*", marks, 1);
  }

  // The span of a string, by where its body ends.
  lemma StringSpan(text: string, before: string, byte: bool, raw: bool, n: nat, rest: string,
                   token: string, closer: string, end: nat, s: Span)
    requires token == Opening(byte, raw, n) && closer == if raw then Closer(n) else "\""
    requires Placed(text, before, token, rest) && (byte || raw ==> Free(before))
    requires |before| + |token| <= |text| && StringEnd(text, |before| + |token|, closer, raw) == end
    requires s == Span(false, end, |before| + |token|, end - |closer|)
    ensures Spans(text, |before|, s)
  {
    OpensAsString(text, before, token, byte, raw, n, rest);
    ClosedByCloser(token, closer, byte, raw, n);
    StringSpanFrom(text, |before|, token, closer, raw, end, s);
  }

  ghost predicate OpensAs(text: string, a: nat, token: string) {
    && a < |text| && !At(text, a, "//") && !At(text, a, "/*")
    && StringOpen(text, a) == TokenAt(text, a) == Some(a + |token|) && text[a..a + |token|] == token
  }

  ghost predicate ClosedBy(token: string, closer: string, raw: bool) {
    ('r' in token <==> raw) && closer == if raw then "\"" + HashesOf(token) else "\""
  }

  lemma OpensAsString(text: string, before: string, token: string, byte: bool, raw: bool, n: nat, rest: string)
    requires token == Opening(byte, raw, n)
    requires Placed(text, before, token, rest) && (byte || raw ==> Free(before))
    ensures OpensAs(text, |before|, token)
  {
    OpensString(text, before, byte, raw, n, rest);
    AtPlace(text, before, token, rest);
  }

  lemma ClosedByCloser(token: string, closer: string, byte: bool, raw: bool, n: nat)
    requires token == Opening(byte, raw, n) && closer == if raw then Closer(n) else "\""
    ensures ClosedBy(token, closer, raw)
  {
    ClosingOf(byte, raw, n);
  }

  lemma StringSpanFrom(text: string, a: nat, token: string, closer: string, raw: bool, end: nat, s: Span)
    requires OpensAs(text, a, token) && ClosedBy(token, closer, raw)
    requires a + |token| <= |text| && StringEnd(text, a + |token|, closer, raw) == end
    requires s == Span(false, end, a + |token|, end - |closer|)
    ensures Spans(text, a, s)
  {}

  lemma Split3(text: string, before: string, a: string, b: string, c: string, after: string)
    requires Placed(text, before, a + b + c, after)
    ensures Placed(text, before, a, b + (c + after)) && Placed(text, before + a, b, c + after)
    ensures |text| == |before| + |a| + |b| + |c| + |after|
  {
    assert a + b + c == a + (b + c);
    assert before + a + (b + c) + after == before + a + b + (c + after);
  }

  lemma QuotedSpan(text: string, before: string, byte: bool, units: seq<Unit>, after: string)
    requires Placed(text, before, Opening(byte, false, 0) + Body(units) + "\"", after)
    requires Unescaped(units) && (byte ==> Free(before))
    ensures Spans(text, |before|, SpanOf(Quoted(byte, units), |before|))
  {
    var o, body := Opening(byte, false, 0), Body(units);
    Split3(text, before, o, body, "\"", after);
    EscapedEndIs(text, before + o, units, after);
    StringSpan(text, before, byte, false, 0, body + ("\"" + after), o, "\"", |before| + |o| + |body| + 1,
               SpanOf(Quoted(byte, units), |before|));
  }

  lemma FoundEnds(text: string, o: nat, n: nat, at: nat)
    requires o <= |text| && Find(text, Closer(n), o) == Some(at)
    ensures StringEnd(text, o, Closer(n), true) == at + 1 + n
  {}

  lemma MissedEnds(text: string, o: nat, n: nat)
    requires o <= |text| && Find(text, Closer(n), o) == None
    ensures StringEnd(text, o, Closer(n), true) == |text|
  {}

  lemma RawSpan(text: string, before: string, byte: bool, n: nat, body: string, after: string)
    requires Placed(text, before, Opening(byte, true, n) + body + Closer(n), after) && Free(before)
    requires NeverCloses(body, n)
    ensures Spans(text, |before|, SpanOf(Raw(byte, n, body), |before|))
  {
    RawLength(byte, n, body, |before|);
    RawSpanIs(text, before, byte, n, body, after, Opening(byte, true, n), Closer(n),
              SpanOf(Raw(byte, n, body), |before|));
  }

  lemma RawSpanIs(text: string, before: string, byte: bool, n: nat, body: string, after: string,
                  o: string, closer: string, s: Span)
    requires o == Opening(byte, true, n) && closer == Closer(n)
    requires Placed(text, before, o + body + closer, after) && Free(before) && NeverCloses(body, n)
    requires var from := |before| + |o|; s == Span(false, from + |body| + |closer|, from, from + |body|)
    ensures Spans(text, |before|, s)
  {
    RawEnds(text, before, o, n, body, after, closer);
    StringSpan(text, before, byte, true, n, body + (closer + after), o, closer, s.stop, s);
  }

  lemma RawEnds(text: string, before: string, o: string, n: nat, body: string, after: string, closer: string)
    requires Placed(text, before, o + body + closer, after) && NeverCloses(body, n) && closer == Closer(n)
    ensures Placed(text, before, o, body + (closer + after))
    ensures var from := |before| + |o|;
            from + |body| + |closer| <= |text| && StringEnd(text, from, closer, true) == from + |body| + |closer|
  {
    Split3(text, before, o, body, closer, after);
    RawEndsFrom(text, before + o, n, body, after);
  }

  lemma RawEndsFrom(text: string, before: string, n: nat, body: string, after: string)
    requires Placed(text, before, body, Closer(n) + after) && NeverCloses(body, n)
    ensures var from := |before|;
            from + |body| + 1 + n <= |text| && StringEnd(text, from, Closer(n), true) == from + |body| + 1 + n
  {
    RawEndIs(text, before, n, body, after);
    FoundEnds(text, |before|, n, |before| + |body|);
  }

  lemma RawLength(byte: bool, n: nat, body: string, a: nat)
    ensures var from := a + |Opening(byte, true, n)|;
            SpanOf(Raw(byte, n, body), a) == Span(false, from + |body| + |Closer(n)|, from, from + |body|)
  {}

  lemma OpenQuotedSpan(text: string, before: string, byte: bool, units: seq<Unit>, lone: bool)
    requires Placed(text, before, Opening(byte, false, 0) + (Body(units) + if lone then "\\" else ""), "")
    requires Unescaped(units) && (byte ==> Free(before))
    ensures Spans(text, |before|, SpanOf(OpenQuoted(byte, units, lone), |before|))
  {
    var o, body, last := Opening(byte, false, 0), Body(units), if lone then "\\" else "";
    OpenPlaces(text, before, o, body, last);
    OpenEscapedEndIs(text, before + o, units, lone);
    OpenQuotedLength(text, before, byte, units, lone);
    StringSpan(text, before, byte, false, 0, body + last, o, "\"", |text|,
               SpanOf(OpenQuoted(byte, units, lone), |before|));
  }

  lemma OpenQuotedLength(text: string, before: string, byte: bool, units: seq<Unit>, lone: bool)
    requires Placed(text, before, Opening(byte, false, 0) + (Body(units) + if lone then "\\" else ""), "")
    ensures SpanOf(OpenQuoted(byte, units, lone), |before|) ==
            Span(false, |text|, |before| + |Opening(byte, false, 0)|, |text| - 1)
  {}

  lemma OpenPlaces(text: string, before: string, o: string, body: string, last: string)
    requires Placed(text, before, o + (body + last), "")
    ensures Placed(text, before, o, body + last) && Placed(text, before + o, body, last)
    ensures |text| == |before| + |o| + |body| + |last|
  {
    assert text == before + o + (body + last) == before + o + body + last;
  }

  lemma OpenRawSpan(text: string, before: string, byte: bool, n: nat, body: string)
    requires Placed(text, before, Opening(byte, true, n) + body, "") && Free(before)
    requires NeverCloses(body, n)
    ensures Spans(text, |before|, SpanOf(OpenRaw(byte, n, body), |before|))
  {
    OpenRawLength(text, before, byte, n, body);
    OpenRawSpanIs(text, before, byte, n, body, Opening(byte, true, n), Closer(n),
                  SpanOf(OpenRaw(byte, n, body), |before|));
  }

  lemma OpenRawSpanIs(text: string, before: string, byte: bool, n: nat, body: string,
                      o: string, closer: string, s: Span)
    requires o == Opening(byte, true, n) && closer == Closer(n)
    requires Placed(text, before, o + body, "") && Free(before) && NeverCloses(body, n)
    requires s == Span(false, |text|, |before| + |o|, |text| - |closer|)
    ensures Spans(text, |before|, s)
  {
    OpenRawEnds(text, before, o, n, body, closer);
    StringSpan(text, before, byte, true, n, body, o, closer, |text|, s);
  }

  lemma OpenRawEnds(text: string, before: string, o: string, n: nat, body: string, closer: string)
    requires Placed(text, before, o + body, "") && NeverCloses(body, n) && closer == Closer(n)
    ensures Placed(text, before, o, body)
    ensures |before| + |o| <= |text| && StringEnd(text, |before| + |o|, closer, true) == |text|
  {
    Regroup(text, before, o, body, "");
    assert body + "" == body;
    OpenRawEndIs(text, before + o, n, body);
    MissedEnds(text, |before + o|, n);
  }

  lemma OpenRawLength(text: string, before: string, byte: bool, n: nat, body: string)
    requires Placed(text, before, Opening(byte, true, n) + body, "")
    ensures SpanOf(OpenRaw(byte, n, body), |before|) ==
            Span(false, |text|, |before| + |Opening(byte, true, n)|, |text| - |Closer(n)|)
  {}

  lemma CharSpan(text: string, before: string, l: Literal, after: string)
    requires Placed(text, before, "'" + Within(l) + "'", after) && GoodLiteral(l)
    ensures Spans(text, |before|, SpanOf(CharLiteral(l), |before|))
  {
    CharEndIs(text, before, l, after);
    QuoteIsToken(text, |before|);
  }

  lemma TickSpan(text: string, before: string, after: string)
    requires Placed(text, before, "'", after) && Stands(before, Tick, after)
    ensures Spans(text, |before|, SpanOf(Tick, |before|))
  {
    CharsOf(text, before, "'", after);
    QuoteIsToken(text, |before|);
    assert CharEnd(text, |before|) == None;
  }

  lemma PieceSpans(text: string, before: string, p: Piece, after: string)
    requires Placed(text, before, Written(p), after) && Stands(before, p, after) && !p.Plain?
    ensures Spans(text, |before|, SpanOf(p, |before|))
  {
    match p
    case LineComment(t) => LineSpan(text, before, t, after);
    case BlockComment(marks) => BlockSpan(text, before, marks, after);
    case Quoted(byte, units) => QuotedSpan(text, before, byte, units, after);
    case Raw(byte, n, body) => RawSpan(text, before, byte, n, body, after);
    case CharLiteral(l) => CharSpan(text, before, l, after);
    case Tick => TickSpan(text, before, after);
    case OpenBlock(marks) => OpenBlockSpan(text, before, marks);
    case OpenQuoted(byte, units, lone) => OpenQuotedSpan(text, before, byte, units, lone);
    case OpenRaw(byte, n, body) => OpenRawSpan(text, before, byte, n, body);
  }

  // -------------------------------------------------------------- every offset

  function KindIn(s: Span, i: nat): Kind {
    if !(s.lo <= i < s.hi) then Code else if s.comment then Comment else Interior
  }

  lemma SpanDecides(text: string, a: nat, s: Span, i: nat)
    requires Spans(text, a, s) && a <= i < |text|
    ensures s.stop <= |text| && Classify(text, a, i) == if i < s.stop then KindIn(s, i) else Classify(text, s.stop, i)
  {
    assert NextStart(text, a) == Some(a);
  }

  lemma KindsLength(p: Piece)
    ensures |Kinds(p)| == |Written(p)|
  {}

  lemma KindOfSpan(p: Piece, a: nat, i: nat)
    requires !p.Plain? && a <= i < a + |Written(p)|
    ensures Matches(p, a, i)
  {
    match p
    case Quoted(byte, units) => QuotedKinds(byte, units, a, i);
    case Raw(byte, n, body) => RawKinds(byte, n, body, a, i);
    case CharLiteral(l) => CharKinds(l, a, i);
    case OpenQuoted(byte, units, lone) => OpenQuotedKinds(byte, units, lone, a, i);
    case OpenRaw(byte, n, body) => OpenRawKinds(byte, n, body, a, i);
    case Tick => assert KindIn(SpanOf(p, a), i) == Code;
    case _ => CommentKinds(p, a, i);
  }

  ghost predicate Matches(p: Piece, a: nat, i: nat)
    requires a <= i
  {
    |Kinds(p)| == |Written(p)| && i - a < |Kinds(p)| && Kinds(p)[i - a] == KindIn(SpanOf(p, a), i)
  }

  lemma CommentKinds(p: Piece, a: nat, i: nat)
    requires (p.LineComment? || p.BlockComment? || p.OpenBlock?) && a <= i < a + |Written(p)|
    ensures Matches(p, a, i)
  {}

  lemma QuotedKinds(byte: bool, units: seq<Unit>, a: nat, i: nat)
    requires a <= i < a + |Written(Quoted(byte, units))|
    ensures Matches(Quoted(byte, units), a, i)
  {
    LiterallyAt(|Opening(byte, false, 0)|, |Body(units)|, 1, i - a);
  }

  lemma RawKinds(byte: bool, n: nat, body: string, a: nat, i: nat)
    requires a <= i < a + |Written(Raw(byte, n, body))|
    ensures Matches(Raw(byte, n, body), a, i)
  {
    LiterallyAt(|Opening(byte, true, n)|, |body|, 1 + n, i - a);
  }

  lemma CharKinds(l: Literal, a: nat, i: nat)
    requires a <= i < a + |Written(CharLiteral(l))|
    ensures Matches(CharLiteral(l), a, i)
  {
    LiterallyAt(1, |Within(l)|, 1, i - a);
  }

  lemma OpenQuotedKinds(byte: bool, units: seq<Unit>, lone: bool, a: nat, i: nat)
    requires a <= i < a + |Written(OpenQuoted(byte, units, lone))|
    ensures Matches(OpenQuoted(byte, units, lone), a, i)
  {
    UnclosedAt(|Opening(byte, false, 0)|, |Body(units)| + if lone then 1 else 0, 1, i - a);
  }

  lemma OpenRawKinds(byte: bool, n: nat, body: string, a: nat, i: nat)
    requires a <= i < a + |Written(OpenRaw(byte, n, body))|
    ensures Matches(OpenRaw(byte, n, body), a, i)
  {
    UnclosedAt(|Opening(byte, true, n)|, |body|, 1 + n, i - a);
  }

  lemma LiterallyAt(o: nat, m: nat, c: nat, k: nat)
    requires k < o + m + c
    ensures |Literally(o, m, c)| == o + m + c && Literally(o, m, c)[k] == if o <= k < o + m then Interior else Code
  {}

  lemma UnclosedAt(o: nat, m: nat, c: nat, k: nat)
    requires k < o + m
    ensures |Unclosed(o, m, c)| == o + m && Unclosed(o, m, c)[k] == if o <= k < o + m - c then Interior else Code
  {
    if m > c { LiterallyAt(o, m - c, c, k); }
  }

  lemma PlainSkips(text: string, before: string, t: string, after: string)
    requires Placed(text, before, t, after) && AllQuiet(before, t, after)
    ensures Skips(text, |before|, |before| + |t|)
  {
    NoTokens(text, before, t, after);
    SkipOver(text, |before|, |before| + |t|);
  }

  // Lexing that resumes at `a` goes on as if it resumed at `b`.
  ghost predicate Skips(text: string, a: nat, b: nat) {
    a <= b <= |text| && NextStart(text, a) == NextStart(text, b)
  }

  ghost predicate TokenFree(text: string, a: nat, b: nat) {
    b <= |text| && forall i :: a <= i < b ==> TokenAt(text, i).None?
  }

  lemma SkipOver(text: string, a: nat, b: nat)
    requires a <= b && TokenFree(text, a, b)
    ensures NextStart(text, a) == NextStart(text, b)
  {
    SkipTo(text, a, b);
  }

  lemma {:induction false} NoTokens(text: string, before: string, t: string, after: string)
    requires Placed(text, before, t, after) && AllQuiet(before, t, after)
    ensures TokenFree(text, |before|, |before| + |t|)
    decreases |t|
  {
    CharsOf(text, before, t, after);
    if t != "" {
      assert text == before + (t + after) && t == [t[0]] + t[1..];
      QuietHasNoToken(text, before, t + after);
      Regroup(text, before, [t[0]], t[1..], after);
      NoTokens(text, before + [t[0]], t[1..], after);
      OneMoreFree(text, |before|, |before| + |t|);
    }
  }

  lemma OneMoreFree(text: string, a: nat, b: nat)
    requires a < b && TokenFree(text, a + 1, b) && TokenAt(text, a) == None
    ensures TokenFree(text, a, b)
  {}

  lemma SkippedIsCode(text: string, a: nat, b: nat, i: nat)
    requires Skips(text, a, b) && a <= i < |text|
    ensures Classify(text, a, i) == if i < b then Code else Classify(text, b, i)
  {}

  // A classifier: what offset the second is, when lexing resumes at the first.
  type Classifier = (nat, nat) -> Kind

  function ClassifierOf(text: string): Classifier {
    (pos: nat, i: nat) => if pos <= |text| then Classify(text, pos, i) else Code
  }

  // From `a` on the offset `i` is what `kinds` says or, past them, what lexing finds
  // that resumes after them.
  ghost predicate Reads(cls: Classifier, a: nat, kinds: seq<Kind>, i: nat) {
    cls(a, i) == if a <= i < a + |kinds| then kinds[i - a] else cls(a + |kinds|, i)
  }

  lemma ClassifierIs(text: string, a: nat, i: nat)
    requires a <= |text|
    ensures ClassifierOf(text)(a, i) == Classify(text, a, i)
  {}

  lemma ReadsSpan(cls: Classifier, a: nat, s: Span, kinds: seq<Kind>, i: nat)
    requires a <= i && s.stop == a + |kinds| && (i < s.stop ==> kinds[i - a] == KindIn(s, i))
    requires cls(a, i) == if i < s.stop then KindIn(s, i) else cls(s.stop, i)
    ensures Reads(cls, a, kinds, i)
  {}

  lemma SkippedReads(text: string, a: nat, b: nat, kinds: seq<Kind>, i: nat)
    requires Skips(text, a, b) && a <= i < |text|
    requires kinds == Many(Code, b - a)
    ensures Reads(ClassifierOf(text), a, kinds, i)
  {
    SkipClassifies(text, a, b, i);
    ReadsCode(ClassifierOf(text), a, b, kinds, i);
  }

  lemma ReadsCode(cls: Classifier, a: nat, b: nat, kinds: seq<Kind>, i: nat)
    requires a <= b && a <= i && kinds == Many(Code, b - a)
    requires cls(a, i) == if i < b then Code else cls(b, i)
    ensures Reads(cls, a, kinds, i)
  {}

  lemma SkipClassifies(text: string, a: nat, b: nat, i: nat)
    requires Skips(text, a, b) && a <= i < |text|
    ensures var cls := ClassifierOf(text); cls(a, i) == if i < b then Code else cls(b, i)
  {
    SkippedIsCode(text, a, b, i);
    ClassifierIs(text, a, i);
    ClassifierIs(text, b, i);
  }

  lemma SpanReads(text: string, a: nat, p: Piece, i: nat)
    requires !p.Plain? && Spans(text, a, SpanOf(p, a)) && a <= i < |text|
    ensures Reads(ClassifierOf(text), a, Kinds(p), i)
  {
    KindsLength(p);
    SpanStops(p, a);
    if i < a + |Written(p)| { KindOfSpan(p, a, i); }
    KindsRead(text, a, SpanOf(p, a), Kinds(p), i);
  }

  lemma KindsRead(text: string, a: nat, s: Span, kinds: seq<Kind>, i: nat)
    requires Spans(text, a, s) && a <= i < |text| && s.stop == a + |kinds|
    requires i < s.stop ==> kinds[i - a] == KindIn(s, i)
    ensures Reads(ClassifierOf(text), a, kinds, i)
  {
    SpanClassifies(text, a, s, i);
    ReadsSpan(ClassifierOf(text), a, s, kinds, i);
  }

  lemma SpanClassifies(text: string, a: nat, s: Span, i: nat)
    requires Spans(text, a, s) && a <= i < |text|
    ensures var cls := ClassifierOf(text); cls(a, i) == if i < s.stop then KindIn(s, i) else cls(s.stop, i)
  {
    SpanDecides(text, a, s, i);
    ClassifierIs(text, a, i);
    ClassifierIs(text, s.stop, i);
  }

  lemma SpanStops(p: Piece, a: nat)
    ensures SpanOf(p, a).stop == a + |Written(p)|
  {}

  ghost predicate ReadsAll(cls: Classifier, a: nat, kinds: seq<Kind>, limit: nat) {
    forall i :: a <= i < limit ==> Reads(cls, a, kinds, i)
  }

  lemma PlainReads(text: string, before: string, t: string, after: string)
    requires Placed(text, before, t, after) && AllQuiet(before, t, after)
    ensures ReadsAll(ClassifierOf(text), |before|, Many(Code, |t|), |text|)
  {
    PlainSkips(text, before, t, after);
    SkippedReadsAll(text, |before|, |before| + |t|, Many(Code, |t|));
  }

  lemma SkippedReadsAll(text: string, a: nat, b: nat, kinds: seq<Kind>)
    requires Skips(text, a, b) && kinds == Many(Code, b - a)
    ensures ReadsAll(ClassifierOf(text), a, kinds, |text|)
  {
    forall i | a <= i < |text| ensures Reads(ClassifierOf(text), a, kinds, i) {
      SkippedReads(text, a, b, kinds, i);
    }
  }

  lemma SpannedReads(text: string, a: nat, p: Piece)
    requires !p.Plain? && Spans(text, a, SpanOf(p, a))
    ensures ReadsAll(ClassifierOf(text), a, Kinds(p), |text|)
  {
    forall i | a <= i < |text| ensures Reads(ClassifierOf(text), a, Kinds(p), i) {
      SpanReads(text, a, p, i);
    }
  }

  lemma PieceReads(text: string, before: string, p: Piece, after: string)
    requires Placed(text, before, Written(p), after) && Stands(before, p, after)
    ensures ReadsAll(ClassifierOf(text), |before|, Kinds(p), |text|)
  {
    if p.Plain? {
      PlainReads(text, before, p.text, after);
    } else {
      PieceSpans(text, before, p, after);
      SpannedReads(text, |before|, p);
    }
  }

  function KindsList(ps: seq<Piece>): seq<seq<Kind>> {
    if ps == [] then [] else [Kinds(ps[0])] + KindsList(ps[1..])
  }

  // Each list of kinds is read where the one before it ends.
  ghost predicate ReadInTurn(cls: Classifier, a: nat, kinds: seq<seq<Kind>>, limit: nat)
    decreases |kinds|
  {
    kinds != [] ==> ReadsAll(cls, a, kinds[0], limit) && ReadInTurn(cls, a + |kinds[0]|, kinds[1..], limit)
  }

  lemma {:induction false} PiecesRead(text: string, before: string, ps: seq<Piece>)
    requires text == before + WrittenAll(ps) && StandAll(before, ps)
    ensures ReadInTurn(ClassifierOf(text), |before|, KindsList(ps), |text|)
    decreases |ps|
  {
    if ps != [] {
      var here, after := Written(ps[0]), WrittenAll(ps[1..]);
      assert Placed(text, before, here, after);
      PieceReads(text, before, ps[0], after);
      PiecesRead(text, before + here, ps[1..]);
      KindsLength(ps[0]);
      TurnStep(ClassifierOf(text), |before|, Kinds(ps[0]), KindsList(ps[1..]), |text|, |before + here|);
    }
  }

  lemma TurnStep(cls: Classifier, a: nat, first: seq<Kind>, rest: seq<seq<Kind>>, limit: nat, b: nat)
    requires ReadsAll(cls, a, first, limit) && b == a + |first| && ReadInTurn(cls, b, rest, limit)
    ensures ReadInTurn(cls, a, [first] + rest, limit)
  {
    assert ([first] + rest)[1..] == rest;
  }

  lemma {:induction false} TurnsAdd(cls: Classifier, a: nat, kinds: seq<seq<Kind>>, limit: nat, i: nat)
    requires ReadInTurn(cls, a, kinds, limit) && i < |Concat(kinds)| && a + i < limit
    ensures cls(a, a + i) == Concat(kinds)[i]
    decreases |kinds|
  {
    var n := |kinds[0]|;
    assert Reads(cls, a, kinds[0], a + i);
    ConcatAt(kinds[0], Concat(kinds[1..]), i);
    if i >= n { TurnsAdd(cls, a + n, kinds[1..], limit, i - n); }
  }

  lemma ConcatAt<T>(a: seq<T>, b: seq<T>, i: nat)
    requires i < |a| + |b|
    ensures (a + b)[i] == if i < |a| then a[i] else b[i - |a|]
  {}

  lemma {:induction false} AllLengths(ps: seq<Piece>)
    ensures |Concat(KindsList(ps))| == |WrittenAll(ps)|
  {
    if ps != [] {
      KindsLength(ps[0]);
      AllLengths(ps[1..]);
      FirstOf(Kinds(ps[0]), KindsList(ps[1..]));
    }
  }

  lemma FirstOf<T>(first: seq<T>, rest: seq<seq<T>>)
    ensures Concat([first] + rest) == first + Concat(rest)
  {
    assert ([first] + rest)[1..] == rest;
  }

  // The lexing law: whatever a text is put together from, the blanker classifies
  // every offset by the piece it lies in.
  lemma EveryPieceIsSeen(ps: seq<Piece>, i: nat)
    requires StandAll("", ps) && i < |WrittenAll(ps)|
    ensures |Concat(KindsList(ps))| == |WrittenAll(ps)|
    ensures Classify(WrittenAll(ps), 0, i) == Concat(KindsList(ps))[i]
  {
    var text := WrittenAll(ps);
    assert "" + text == text;
    AllLengths(ps);
    PiecesRead(text, "", ps);
    SeenInTurn(text, KindsList(ps), i);
  }

  lemma SeenInTurn(text: string, kinds: seq<seq<Kind>>, i: nat)
    requires ReadInTurn(ClassifierOf(text), 0, kinds, |text|) && i < |Concat(kinds)| && i < |text|
    ensures Classify(text, 0, i) == Concat(kinds)[i]
  {
    TurnsAdd(ClassifierOf(text), 0, kinds, |text|, i);
    ClassifierIs(text, 0, i);
  }
}

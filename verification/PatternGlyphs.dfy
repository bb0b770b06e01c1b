/** Glob patterns as their documentation describes them: what is written, and what it matches. */
module PatternGlyphs {
  import opened CStrings
  import opened Patterns
  import opened PatternTexts
  import opened PatternModes

  /** One construct of the pattern syntax. The numbers of a range are as they are written, or left out. */
  datatype Glyph =
    | Plain(c: char)
    | Escaped(c: char)
    | Question
    | Star
    | DoubleStar
    | Set(negated: bool, items: seq<SetItem>)
    | Braces(lo: string, up: string)
    | Brackets(lo: string, up: string)

  function Writing(g: Glyph): string {
    match g
    case Plain(c) => [c]
    case Escaped(c) => ['\\', c]
    case Question => "?"
    case Star => "*"
    case DoubleStar => "**"
    case Set(negated, items) => "{" + (if negated then "^" else "") + AllWritten(items) + "}"
    case Braces(lo, up) => "{" + lo + ".." + up + "}"
    case Brackets(lo, up) => "[" + lo + ".." + up + "]"
  }

  function Text(gs: seq<Glyph>): string {
    if gs == [] then "" else Writing(gs[0]) + Text(gs[1..])
  }

  /** The limits of a range are numbers or nothing. */
  predicate Numeric(g: Glyph) {
    g.Braces? || g.Brackets? ==> AllDigits(g.lo) && AllDigits(g.up)
  }

  predicate AllNumeric(gs: seq<Glyph>) {
    forall i :: 0 <= i < |gs| ==> Numeric(gs[i])
  }

  // ----- What is matched -----

  /** A whole number within the limits that are given: a run of digits with no further digit behind it. */
  ghost predicate IsNumber(lo: string, up: string, line: string, j: nat, m: nat)
    requires AllDigits(lo) && AllDigits(up)
  {
    j < m <= |line| && AllDigits(line[j..m]) && (m < |line| ==> !IsDigit(line[m]))
    && (lo != "" ==> Value(lo) <= Value(line[j..m])) && (up != "" ==> Value(line[j..m]) <= Value(up))
  }

  /** An item covers the character, or its other case if that does not matter. */
  ghost predicate CoveredBy(items: seq<SetItem>, c: char, sensitive: bool) {
    exists k, d :: 0 <= k < |items| && Covers(items[k], d) && Same(c, d, sensitive)
  }

  /** The line from `j` to `m` is what the construct stands for. Dots are special in dotted-path mode only. */
  ghost predicate Matches(g: Glyph, dotted: bool, sensitive: bool, line: string, j: nat, m: nat)
    requires Numeric(g)
  {
    j <= m <= |line|
    && match g
      case Plain(c) => m == j + 1 && Same(line[j], c, sensitive)
      case Escaped(c) => m == j + 1 && Same(line[j], c, sensitive)
      case Question => m == j + 1 && (dotted ==> line[j] != '.')
      case Star => dotted ==> '.' !in line[j..m]
      case DoubleStar => true
      case Set(negated, items) => m == j + 1 && (CoveredBy(items, line[j], sensitive) <==> !negated)
      case Braces(lo, up) => IsNumber(lo, up, line, j, m)
      case Brackets(lo, up) =>
        j + 2 <= m && line[j] == '[' && line[m - 1] == ']' && IsNumber(lo, up, line, j + 1, m - 1)
  }

  ghost predicate MatchAll(gs: seq<Glyph>, dotted: bool, sensitive: bool, line: string, j: nat, m: nat)
    requires AllNumeric(gs)
  {
    if gs == [] then j == m <= |line|
    else exists k: nat ::
      Matches(gs[0], dotted, sensitive, line, j, k) && MatchAll(gs[1..], dotted, sensitive, line, k, m)
  }

  // ----- Texts that are read as they are meant -----

  /** `w` is two dots between numbers, either of which may be missing, and `closing` behind them. */
  ghost predicate OpensRange(w: string, closing: char) {
    exists lo, up, rest :: AllDigits(lo) && AllDigits(up) && w == RangeText(lo, up, closing) + rest
  }

  function RangeText(lo: string, up: string, closing: char): string {
    lo + ".." + up + [closing]
  }

  /** Before `after`, the construct is not taken for another one. */
  ghost predicate ReadsBefore(g: Glyph, after: string) {
    match g
    case Plain(c) => c !in {'?', '*', '{', '\\'} && (c == '[' ==> !OpensRange(after, ']'))
    case Escaped(c) => c == '[' ==> !OpensRange(after, ']')
    case Question => true
    case Star => after == "" || after[0] != '*'
    case DoubleStar => true
    case Set(negated, items) =>
      items != [] && Readable(items)
      && (!negated ==> AllWritten(items)[0] != '^' && !OpensRange(AllWritten(items) + "}", '}'))
    case Braces(lo, up) => AllDigits(lo) && AllDigits(up)
    case Brackets(lo, up) => AllDigits(lo) && AllDigits(up)
  }

  ghost predicate AllRead(gs: seq<Glyph>) {
    '\0' !in Text(gs) && forall i :: 0 <= i < |gs| ==> ReadsBefore(gs[i], Text(gs[i + 1..]))
  }

  /** No set has a range that mixes letters with others or with the other case. */
  ghost predicate NoMixedRanges(gs: seq<Glyph>) {
    forall i :: 0 <= i < |gs| ==> NotMixed(gs[i])
  }

  ghost predicate NotMixed(g: Glyph) {
    g.Set? ==> forall k :: 0 <= k < |g.items| ==> OneKind(g.items[k])
  }

  /** The elements a construct is read as. */
  function Elems(g: Glyph, dotted: bool): seq<Elem>
    requires Numeric(g)
  {
    match g
    case Plain(c) => [Literal([c])]
    case Escaped(c) => [Literal([c])]
    case Question => [if dotted then CommonChar else AnyChar]
    case Star => [if dotted then CommonSeq else AnySeq]
    case DoubleStar => [AnySeq]
    case Set(negated, items) => [if negated then NegSet(AllEnds(items)) else CharSet(AllEnds(items))]
    case Braces(lo, up) => [NumRange(Limit(lo), Limit(up))]
    case Brackets(lo, up) => [Literal("["), NumRange(Limit(lo), Limit(up)), Literal("]")]
  }

  /** A range that is read is written there. */
  lemma RangeIsWritten(s: CString, i: nat, closing: char)
    requires i < |s| && closing != '\0' && RangeAt(s, i, closing).Range?
    ensures OpensRange(s[i + 1..], closing)
  {
    hide RangeText;
    var a := DigitsEnd(s, i + 1);
    var b := DigitsEnd(s, a + 2);
    assert forall k :: i + 1 <= k < a || a + 2 <= k < b ==> IsDigit(s[k]);
    RangeSplits(s[i + 1..], a - i - 1, b - i - 1, closing);
  }

  lemma RangeSplits(t: string, x: nat, y: nat, closing: char)
    requires x + 2 <= y < |t| && t[x] == t[x + 1] == '.' && t[y] == closing
    requires forall k :: 0 <= k < x || x + 2 <= k < y ==> IsDigit(t[k])
    ensures OpensRange(t, closing)
  {
    var lo, up, rest := t[..x], t[x + 2..y], t[y + 1..];
    assert AllDigits(lo) && AllDigits(up);
    assert t == RangeText(lo, up, closing) + rest;
  }

  lemma PlainReads(s: CString, i: nat)
    requires i < |s| && (s[i] == '[' ==> !OpensRange(s[i + 1..], ']'))
    ensures PlainAt(s, i) == Unit([Literal([s[i]])], i + 1)
  {
    if s[i] == '[' && RangeAt(s, i, ']').Range? { RangeIsWritten(s, i, ']'); }
  }

  /** A set that is no range in braces is not read as one, whatever stands behind it. */
  lemma SetIsNoRange(s: CString, i: nat, w: string, after: string)
    requires i < |s| && s[i + 1..] == w + "}" + after && '}' !in w && !OpensRange(w + "}", '}')
    ensures !RangeAt(s, i, '}').Range?
  {
    if RangeAt(s, i, '}').Range? {
      RangeIsWritten(s, i, '}');
      RangeInside(w, after);
    }
  }

  lemma RangeInside(w: string, after: string)
    requires '}' !in w && OpensRange(w + "}" + after, '}')
    ensures OpensRange(w + "}", '}')
  {
    var lo, up, rest :| AllDigits(lo) && AllDigits(up) && w + "}" + after == RangeText(lo, up, '}') + rest;
    SameClose(w, after, lo, up, rest);
    assert w + "}" == RangeText(lo, up, '}') + "";
  }

  lemma SameClose(w: string, after: string, lo: string, up: string, rest: string)
    requires AllDigits(lo) && AllDigits(up) && '}' !in w && w + "}" + after == RangeText(lo, up, '}') + rest
    ensures w == lo + ".." + up
  {
    var inner := lo + ".." + up;
    var s := w + "}" + after;
    assert s == inner + "}" + rest;
    assert forall k :: 0 <= k < |inner| ==> s[k] == inner[k] != '}';
    assert forall k :: 0 <= k < |w| ==> s[k] == w[k];
    assert s[|w|] == '}' && s[|inner|] == '}';
    assert |w| == |inner|;
    assert w == s[..|w|] && inner == s[..|inner|];
  }

  // ----- Each construct is read as it is meant -----

  /** The construct at `i`, followed by `after`, is read as its elements, and reading goes on behind it. */
  ghost predicate ReadAt(s: CString, i: nat, g: Glyph, dotted: bool)
    requires Numeric(g)
    requires i + |Writing(g)| <= |s|
  {
    Units(s, i, dotted) == Prepend(Elems(g, dotted), Units(s, i + |Writing(g)|, dotted))
  }

  lemma GlyphReads(before: string, g: Glyph, after: string, dotted: bool)
    requires ReadsBefore(g, after) && '\0' !in before + Writing(g) + after
    ensures ReadAt(before + Writing(g) + after, |before|, g, dotted)
  {
    hide ReadAt, AllDigits;
    match g
    case Plain(c) => CharReads(before, g, after, dotted);
    case Escaped(c) => CharReads(before, g, after, dotted);
    case Question => WildcardReads(before, g, after, dotted);
    case Star => WildcardReads(before, g, after, dotted);
    case DoubleStar => WildcardReads(before, g, after, dotted);
    case Set(negated, items) => SetGlyphReads(before, negated, items, after, dotted);
    case Braces(lo, up) => BracesRead(before, lo, up, after, dotted);
    case Brackets(lo, up) => BracketsRead(before, lo, up, after, dotted);
  }

  lemma CharReads(before: string, g: Glyph, after: string, dotted: bool)
    requires (g.Plain? || g.Escaped?) && ReadsBefore(g, after) && '\0' !in before + Writing(g) + after
    ensures ReadAt(before + Writing(g) + after, |before|, g, dotted)
  {
    hide OpensRange, RangeAt;
    var s: CString, i := before + Writing(g) + after, |before|;
    var at := i + |Writing(g)| - 1;
    assert s[at] == g.c && s[at + 1..] == after;
    PlainReads(s, at);
    assert g.Plain? ==> UnitAt(s, i, dotted) == PlainAt(s, at);
    assert g.Escaped? ==> s[i] == '\\';
  }

  lemma WildcardReads(before: string, g: Glyph, after: string, dotted: bool)
    requires (g.Question? || g.Star? || g.DoubleStar?) && ReadsBefore(g, after)
    requires '\0' !in before + Writing(g) + after
    ensures ReadAt(before + Writing(g) + after, |before|, g, dotted)
  {
    var s: CString, i := before + Writing(g) + after, |before|;
    assert s[i] == Writing(g)[0];
    assert g.Star? && after != "" ==> s[i + 1] == after[0];
    assert g.DoubleStar? ==> s[i + 1] == '*';
  }

  lemma SetGlyphReads(before: string, negated: bool, items: seq<SetItem>, after: string, dotted: bool)
    requires ReadsBefore(Set(negated, items), after) && '\0' !in before + Writing(Set(negated, items)) + after
    ensures ReadAt(before + Writing(Set(negated, items)) + after, |before|, Set(negated, items), dotted)
  {
    hide SetAt, RangeAt, Readable, OpensRange, AllWritten, AllEnds, Units;
    var g := Set(negated, items);
    var w, sign := AllWritten(items), if negated then "^" else "";
    var s: CString, i := before + Writing(g) + after, |before|;
    WrittenIsPlain(items);
    SetTextAt(before, sign, w, after);
    assert s == (before + "{" + sign) + w + "}" + after;
    SetReads(before + "{" + sign, items, after, true);
    if negated { NoRangeAtCaret(s, i); } else { SetIsNoRange(s, i, w, after); }
    SetUnit(s, i, negated, items, i + 1 + |sign| + |w|, dotted);
  }

  lemma SetTextAt(before: string, sign: string, w: string, after: string)
    requires w != "" && |sign| <= 1
    ensures var s, i := before + ("{" + sign + w + "}") + after, |before|;
      s[i] == '{' && s[i + 1..] == sign + w + "}" + after && s[i + 1] == (if sign != "" then sign[0] else w[0])
      && s == (before + "{" + sign) + w + "}" + after
  {
  }

  lemma SetUnit(s: CString, i: nat, negated: bool, items: seq<SetItem>, close: nat, dotted: bool)
    requires i + 1 < |s| && s[i] == '{' && !RangeAt(s, i, '}').Range? && (s[i + 1] == '^' <==> negated)
    requires SetAt(s, if negated then i + 2 else i + 1, true) == Closed(AllEnds(items), close)
    ensures close < |s|
    ensures Units(s, i, dotted) == Prepend(Elems(Set(negated, items), dotted), Units(s, close + 1, dotted))
  {
    hide SetAt, RangeAt, AllEnds;
  }

  lemma NoRangeAtCaret(s: CString, i: nat)
    requires i + 1 < |s| && s[i + 1] == '^'
    ensures !RangeAt(s, i, '}').Range?
  {
  }

  lemma {:induction false} WrittenIsPlain(items: seq<SetItem>)
    requires Readable(items)
    ensures '}' !in AllWritten(items) && (items != [] ==> AllWritten(items) != "")
  {
    if items != [] {
      assert forall i :: 0 <= i < |items[1..]| ==> items[1..][i] == items[i + 1];
      WrittenIsPlain(items[1..]);
    }
  }

  lemma BracesRead(before: string, lo: string, up: string, after: string, dotted: bool)
    requires AllDigits(lo) && AllDigits(up) && '\0' !in before + Writing(Braces(lo, up)) + after
    ensures ReadAt(before + Writing(Braces(lo, up)) + after, |before|, Braces(lo, up), dotted)
  {
    hide RangeAt, AllDigits, Limit;
    var s: CString, i := before + Writing(Braces(lo, up)) + after, |before|;
    assert s == before + ['{'] + lo + ".." + up + ['}'] + after;
    RangeReads(before, '{', lo, up, '}', after);
    assert s[i] == '{';
  }

  lemma BracketsRead(before: string, lo: string, up: string, after: string, dotted: bool)
    requires AllDigits(lo) && AllDigits(up) && '\0' !in before + Writing(Brackets(lo, up)) + after
    ensures ReadAt(before + Writing(Brackets(lo, up)) + after, |before|, Brackets(lo, up), dotted)
  {
    hide RangeAt, AllDigits, Limit, Units;
    var s: CString, i := before + Writing(Brackets(lo, up)) + after, |before|;
    BracketTextAt(before, lo, up, after);
    RangeReads(before, '[', lo, up, ']', after);
    BracketUnits(s, i, Limit(lo), Limit(up), i + |lo| + |up| + 3, dotted);
  }

  lemma BracketTextAt(before: string, lo: string, up: string, after: string)
    ensures var s, i := before + ("[" + lo + ".." + up + "]") + after, |before|;
      s == before + ['['] + lo + ".." + up + [']'] + after && s[i] == '[' && s[i + |lo| + |up| + 3] == ']'
  {
  }

  lemma BracketUnits(s: CString, i: nat, lo: int, up: int, close: nat, dotted: bool)
    requires i < close < |s| && s[i] == '[' && s[close] == ']' && RangeAt(s, i, ']') == Range(lo, up, close)
    ensures Units(s, i, dotted) == Prepend([Literal("["), NumRange(lo, up), Literal("]")], Units(s, close + 1, dotted))
  {
    hide RangeAt;
    var open := [Literal("["), NumRange(lo, up)];
    assert UnitAt(s, i, dotted) == Unit(open, close) && UnitAt(s, close, dotted) == Unit([Literal("]")], close + 1);
    UnitsFrom(s, i, dotted);
    UnitsFrom(s, close, dotted);
    PrependTwice(open, [Literal("]")], Units(s, close + 1, dotted));
  }

  lemma UnitsFrom(s: CString, i: nat, dotted: bool)
    requires i < |s| && UnitAt(s, i, dotted).Unit?
    ensures var u := UnitAt(s, i, dotted); Units(s, i, dotted) == Prepend(u.elems, Units(s, u.next, dotted))
  {
  }

  lemma NoUnitsLeft(s: CString, dotted: bool)
    ensures Units(s, |s|, dotted) == Ok([])
  {
  }

  lemma PrependTwice(a: seq<Elem>, b: seq<Elem>, o: Outcome)
    ensures Prepend(a, Prepend(b, o)) == Prepend(a + b, o)
  {
    if o.Ok? { assert a + (b + o.elems) == (a + b) + o.elems; }
  }

  /** A text written from constructs is read as their elements. */
  function AllElems(gs: seq<Glyph>, dotted: bool): seq<Elem>
    requires AllNumeric(gs)
  {
    if gs == [] then [] else Elems(gs[0], dotted) + AllElems(gs[1..], dotted)
  }

  lemma {:induction false} TextReads(before: string, gs: seq<Glyph>, dotted: bool)
    requires AllRead(gs) && '\0' !in before
    ensures '\0' !in before + Text(gs)
    ensures AllNumeric(gs)
    ensures Units(before + Text(gs), |before|, dotted) == Ok(AllElems(gs, dotted))
    decreases |gs|
  {
    hide AllDigits, Units, Elems, ReadsBefore, Writing;
    if gs == [] {
      assert before + "" == before;
      NoUnitsLeft(before, dotted);
    } else {
      var g, rest := gs[0], gs[1..];
      RestIsRead(gs);
      TextReads(before + Writing(g), rest, dotted);
      assert before + Text(gs) == before + Writing(g) + Text(rest);
      GlyphReads(before, g, Text(rest), dotted);
      assert gs == [g] + rest;
    }
  }

  lemma RestIsRead(gs: seq<Glyph>)
    requires gs != [] && AllRead(gs)
    ensures AllRead(gs[1..]) && ReadsBefore(gs[0], Text(gs[1..])) && '\0' !in Writing(gs[0]) && Numeric(gs[0])
  {
    hide ReadsBefore;
    forall i | 0 <= i < |gs[1..]| ensures ReadsBefore(gs[1..][i], Text(gs[1..][i + 1..])) {
      assert gs[1..][i] == gs[i + 1] && gs[1..][i + 1..] == gs[i + 2..];
    }
    assert gs[0 + 1..] == gs[1..];
    ReadIsNumeric(gs[0], Text(gs[1..]));
  }

  lemma ReadIsNumeric(g: Glyph, after: string)
    requires ReadsBefore(g, after)
    ensures Numeric(g)
  {
  }

  // ----- What is read is what is meant -----

  function UpperItems(items: seq<SetItem>): seq<SetItem> {
    if items == [] then [] else [UpperItem(items[0])] + UpperItems(items[1..])
  }

  lemma {:induction false} UpperEnds(items: seq<SetItem>)
    ensures |UpperItems(items)| == |items|
    ensures forall k :: 0 <= k < |items| ==> UpperItems(items)[k] == UpperItem(items[k])
    ensures AllEnds(UpperItems(items)) == Seen(AllEnds(items), false)
  {
    hide Upper;
    if items != [] {
      UpperEnds(items[1..]);
      SeenJoin(Ends(items[0]), AllEnds(items[1..]), false);
      assert Seen(Ends(items[0]), false) == Ends(UpperItem(items[0]));
    }
  }

  /** A character as it is seen is in the set as it is seen exactly when an item covers it, in its mode. */
  lemma SetSeen(items: seq<SetItem>, c: char, sensitive: bool)
    requires sensitive || forall k :: 0 <= k < |items| ==> OneKind(items[k])
    ensures InSet(SeenChar(c, sensitive), Seen(AllEnds(items), sensitive)) <==> CoveredBy(items, c, sensitive)
  {
    hide InSet, Covers, OneKind, AllEnds, Upper, UpperItem;
    if sensitive {
      SeenExactly(AllEnds(items));
      SetCovers(items, c);
      CoveredExactly(items, c);
    } else {
      var up := UpperItems(items);
      UpperEnds(items);
      SetCovers(up, Upper(c));
      if k :| 0 <= k < |up| && Covers(up[k], Upper(c)) {
        SetIgnoresCase(items[k], c);
        var d :| Upper(d) == Upper(c) && Covers(items[k], d);
        SameIs(c, d, false);
      }
      if k, d :| 0 <= k < |items| && Covers(items[k], d) && Same(c, d, false) {
        SameIs(c, d, false);
        SetIgnoresCase(items[k], c);
        assert Covers(up[k], Upper(c));
      }
    }
  }

  /** For all constructs but a range in brackets, the one element stands for what the construct does. */
  lemma PieceIsMatch(g: Glyph, dotted: bool, sensitive: bool, line: string, j: nat, m: nat)
    requires Numeric(g) && !g.Brackets? && (sensitive || NotMixed(g))
    ensures |Elems(g, dotted)| == 1
    ensures Piece(SeenElem(Elems(g, dotted)[0], sensitive), Seen(line, sensitive), j, m)
       <==> Matches(g, dotted, sensitive, line, j, m)
  {
    hide Upper, InSet, CoveredBy, Value;
    match g
    case Plain(c) => OneChar(c, line, j, m, sensitive);
    case Escaped(c) => OneChar(c, line, j, m, sensitive);
    case Star => if j <= m <= |line| { NoDots(line, j, m, sensitive); }
    case Set(negated, items) => if j < |line| { SetSeen(items, line[j], sensitive); }
    case Braces(lo, up) => NumberPiece(lo, up, line, j, m, sensitive);
    case _ =>
  }

  lemma NoDots(line: string, j: nat, m: nat, sensitive: bool)
    requires j <= m <= |line|
    ensures '.' in line[j..m] <==> exists k :: j <= k < m && Seen(line, sensitive)[k] == '.'
  {
    if i :| 0 <= i < m - j && line[j..m][i] == '.' { assert Seen(line, sensitive)[j + i] == '.'; }
    if k :| j <= k < m && Seen(line, sensitive)[k] == '.' { assert line[j..m][k - j] == '.'; }
  }

  lemma OneChar(c: char, line: string, j: nat, m: nat, sensitive: bool)
    ensures Piece(Literal(Seen([c], sensitive)), Seen(line, sensitive), j, m) <==>
      m == j + 1 <= |line| && Same(line[j], c, sensitive)
  {
    hide Upper;
    var seen, l := Seen(line, sensitive), Seen([c], sensitive);
    if j <= m <= |line| && seen[j..m] == l { assert |seen[j..m]| == 1 && seen[j..m][0] == seen[j] == l[0]; }
    if m == j + 1 <= |line| {
      SameIs(line[j], c, sensitive);
      assert seen[j..m] == [seen[j]] && l == [l[0]];
    }
  }

  lemma NumberPiece(lo: string, up: string, line: string, j: nat, m: nat, sensitive: bool)
    requires AllDigits(lo) && AllDigits(up)
    ensures Piece(NumRange(Limit(lo), Limit(up)), Seen(line, sensitive), j, m) <==> IsNumber(lo, up, line, j, m)
  {
    hide Value, Upper;
    if j < m <= |line| {
      SeenSlice(line, j, m, sensitive);
      DigitsSeen(line[j..m], sensitive);
      DigitSeen(line, sensitive);
      assert AllDigits(line[j..m]) <==> forall k :: j <= k < m ==> IsDigit(Seen(line, sensitive)[k]) by {
        assert forall k :: j <= k < m ==> line[j..m][k - j] == line[k];
      }
    }
  }

  lemma DigitSeen(line: string, sensitive: bool)
    ensures forall k :: 0 <= k < |line| ==> (IsDigit(Seen(line, sensitive)[k]) <==> IsDigit(line[k]))
  {
  }

  lemma DigitsSeen(d: string, sensitive: bool)
    ensures AllDigits(d) ==> Seen(d, sensitive) == d
  {
    hide Upper;
    if AllDigits(d) {
      forall k | 0 <= k < |d| ensures Seen(d, sensitive)[k] == d[k] { assert IsDigit(d[k]); }
    }
  }

  lemma BracketsAreMatch(g: Glyph, dotted: bool, sensitive: bool, line: string, j: nat, m: nat)
    requires Numeric(g) && g.Brackets?
    ensures Spans(SeenAll(Elems(g, dotted), sensitive), Seen(line, sensitive), j, m)
       <==> Matches(g, dotted, sensitive, line, j, m)
  {
    hide Spans, Piece, IsNumber, Limit, Upper, Seen;
    var seen := Seen(line, sensitive);
    var open, close := Literal(Seen("[", sensitive)), Literal(Seen("]", sensitive));
    var number := NumRange(Limit(g.lo), Limit(g.up));
    assert SeenAll(Elems(g, dotted), sensitive) == [open] + ([number] + [close]);
    if Spans(SeenAll(Elems(g, dotted), sensitive), seen, j, m) {
      var a := SpansSplit([open], [number] + [close], seen, j, m);
      var b := SpansSplit([number], [close], seen, a, m);
      SpansOne(open, seen, j, a);
      SpansOne(number, seen, a, b);
      SpansOne(close, seen, b, m);
      OneChar('[', line, j, a, sensitive);
      OneChar(']', line, b, m, sensitive);
      NumberPiece(g.lo, g.up, line, a, b, sensitive);
      NumberIsThere(g.lo, g.up, line, a, b);
    }
    if Matches(g, dotted, sensitive, line, j, m) {
      OneChar('[', line, j, j + 1, sensitive);
      OneChar(']', line, m - 1, m, sensitive);
      NumberPiece(g.lo, g.up, line, j + 1, m - 1, sensitive);
      SpansOne(open, seen, j, j + 1);
      SpansOne(number, seen, j + 1, m - 1);
      SpansOne(close, seen, m - 1, m);
      SpansJoin([number], [close], seen, j + 1, m - 1, m);
      SpansJoin([open], [number] + [close], seen, j, j + 1, m);
    }
  }

  lemma NumberIsThere(lo: string, up: string, line: string, j: nat, m: nat)
    requires AllDigits(lo) && AllDigits(up) && IsNumber(lo, up, line, j, m)
    ensures j < m <= |line|
  {
  }

  lemma GlyphSpans(g: Glyph, dotted: bool, sensitive: bool, line: string, j: nat, m: nat)
    requires Numeric(g) && (sensitive || NotMixed(g))
    ensures Spans(SeenAll(Elems(g, dotted), sensitive), Seen(line, sensitive), j, m)
       <==> Matches(g, dotted, sensitive, line, j, m)
  {
    hide Spans, Piece, Elems, Matches, SeenElem, Seen;
    if g.Brackets? {
      BracketsAreMatch(g, dotted, sensitive, line, j, m);
    } else {
      PieceIsMatch(g, dotted, sensitive, line, j, m);
      var e := SeenElem(Elems(g, dotted)[0], sensitive);
      assert SeenAll(Elems(g, dotted), sensitive) == [e];
      SpansOne(e, Seen(line, sensitive), j, m);
    }
  }

  lemma {:induction false} AllSpan(gs: seq<Glyph>, dotted: bool, sensitive: bool, line: string, j: nat, m: nat)
    requires AllNumeric(gs) && (sensitive || NoMixedRanges(gs))
    ensures Spans(SeenAll(AllElems(gs, dotted), sensitive), Seen(line, sensitive), j, m)
       <==> MatchAll(gs, dotted, sensitive, line, j, m)
    decreases |gs|
  {
    hide Piece, Elems, Matches, Numeric, NotMixed, Seen, SeenElem;
    if gs != [] {
      var g, rest, seen := gs[0], gs[1..], Seen(line, sensitive);
      var here, others := SeenAll(Elems(g, dotted), sensitive), SeenAll(AllElems(rest, dotted), sensitive);
      SeenAllJoin(Elems(g, dotted), AllElems(rest, dotted), sensitive);
      if Spans(here + others, seen, j, m) {
        var k := SpansSplit(here, others, seen, j, m);
        GlyphSpans(g, dotted, sensitive, line, j, k);
        AllSpan(rest, dotted, sensitive, line, k, m);
      }
      if MatchAll(gs, dotted, sensitive, line, j, m) {
        var k: nat :| Matches(g, dotted, sensitive, line, j, k) && MatchAll(rest, dotted, sensitive, line, k, m);
        GlyphSpans(g, dotted, sensitive, line, j, k);
        AllSpan(rest, dotted, sensitive, line, k, m);
        SpansJoin(here, others, seen, j, k, m);
      }
    }
  }

  /**
   * A text written from constructs of the syntax, none of which is taken for another, is for the lines that fall into
   * what these constructs stand for, or that have a stretch which does, with or without regard to case.
   */
  lemma TextMeans(gs: seq<Glyph>, dotted: bool, sensitive: bool, line: string)
    requires AllRead(gs) && (sensitive || NoMixedRanges(gs))
    ensures AllNumeric(gs) && Units(Text(gs), 0, dotted) == Ok(AllElems(gs, dotted))
    ensures var es := SeenAll(AllElems(gs, dotted), sensitive);
      (InLanguage(es, true, Seen(line, sensitive)) <==> MatchAll(gs, dotted, sensitive, line, 0, |line|))
      && (InLanguage(es, false, Seen(line, sensitive)) <==>
          exists a: nat, b: nat :: MatchAll(gs, dotted, sensitive, line, a, b))
  {
    hide Spans, MatchAll, Units, AllElems, ReadsBefore, NoMixedRanges;
    TextReads("", gs, dotted);
    assert "" + Text(gs) == Text(gs);
    AllSpan(gs, dotted, sensitive, line, 0, |line|);
    if a: nat, b: nat :| Spans(SeenAll(AllElems(gs, dotted), sensitive), Seen(line, sensitive), a, b) {
      AllSpan(gs, dotted, sensitive, line, a, b);
    }
    if a: nat, b: nat :| MatchAll(gs, dotted, sensitive, line, a, b) {
      AllSpan(gs, dotted, sensitive, line, a, b);
    }
  }

  /** A set in braces is for the single characters that one of its items covers; with a caret, for the others. */
  lemma SetMeans(negated: bool, items: seq<SetItem>, dotted: bool, line: string)
    requires ReadsBefore(Set(negated, items), "") && '\0' !in AllWritten(items)
    ensures var text := "{" + (if negated then "^" else "") + AllWritten(items) + "}";
      '\0' !in text && Units(text, 0, dotted).Ok?
      && (InLanguage(Units(text, 0, dotted).elems, true, line) <==>
          |line| == 1 && (negated <==> !exists k :: 0 <= k < |items| && Covers(items[k], line[0])))
  {
    hide Units, InLanguage, AllElems, ReadsBefore, AllWritten, Covers;
    var g := Set(negated, items);
    assert [g][1..] == [] && Text([g]) == Writing(g) + "" == Writing(g);
    assert Text([g][0 + 1..]) == "";
    TextMeans([g], dotted, true, line);
    SeenAllExactly(AllElems([g], dotted));
    SeenExactly(line);
    if MatchAll([g], dotted, true, line, 0, |line|) {
      var k: nat :| Matches(g, dotted, true, line, 0, k) && MatchAll([g][1..], dotted, true, line, k, |line|);
    }
    if |line| == 1 {
      if Matches(g, dotted, true, line, 0, 1) { assert MatchAll([g][1..], dotted, true, line, 1, 1); }
      CoveredExactly(items, line[0]);
    }
  }

  lemma CoveredExactly(items: seq<SetItem>, c: char)
    ensures CoveredBy(items, c, true) <==> exists k :: 0 <= k < |items| && Covers(items[k], c)
  {
    if k :| 0 <= k < |items| && Covers(items[k], c) { assert Same(c, c, true); }
  }
}

/** What the answers of a matcher mean for the text of its pattern. */
module PatternMeaning {
  import opened CStrings
  import opened Options
  import opened Patterns
  import opened PatternTexts
  import opened PatternModes
  import G = PatternGlyphs
  import opened PatternMatching

  /**
   * A line matches the tokenized pattern exactly when it is in the language of the text read unit by unit:
   * joining literals, opening the ends and the end mark make no difference.
   */
  lemma TokensMean(us: seq<Elem>, fullstring: bool, line: string)
    ensures var es := Closing(Merged(us), fullstring);
      Spans(es[..|es| - 1], line, 0, |line|) <==> InLanguage(us, fullstring, line)
  {
    hide Spans, Merged, OpenStart;
    var es := Closing(Merged(us), fullstring);
    if fullstring {
      assert es[..|es| - 1] == Merged(us);
      MergedSpans(us, line, 0, |line|);
    } else {
      assert es[..|es| - 1] == OpenStart(OpenEnd(Merged(us)));
      OpenedLanguage(Merged(us), line);
      forall a: nat, b: nat ensures Spans(Merged(us), line, a, b) <==> Spans(us, line, a, b) {
        MergedSpans(us, line, a, b);
      }
    }
  }

  /** What the options promise: the line is in the language of the text, in both of which case matters or does not. */
  ghost predicate Promised(us: seq<Elem>, fullstring: bool, casesensitive: bool, line: string) {
    InLanguage(SeenAll(us, casesensitive), fullstring, Seen(line, casesensitive))
  }

  /** The line ends in the last literal of the text itself if "**" stands before it at the end of a full string. */
  ghost predicate LiteralEnd(us: seq<Elem>, fullstring: bool, line: string) {
    fullstring ==> EndsExactly(Merged(us) + [End], line)
  }

  /**
   * A matcher made for a text and given a line. It answers what the options promise if the line has the literal end
   * that a final "**" and literal ask for, and no otherwise, which is wrong without regard to case.
   */
  method MatchText(text: CString, dotted: bool, fullstring: bool, casesensitive: bool, line: CString)
    returns (status: Status, r: bool)
    ensures match Units(text, 0, dotted)
      case Ok(us) =>
        status == Done
        && (r <==> Promised(us, fullstring, casesensitive, line) && LiteralEnd(us, fullstring, line))
        && (casesensitive ==> (r <==> InLanguage(us, fullstring, line)))
      case Unmatched => status == UnmatchedBrace
      case Overrun => status == ReadPastEnd
  {
    hide Units, Spans, Merged, Closing, InLanguage, Promised, LiteralEnd, SeenElem;
    var matcher := new PatternMatcher();
    status := matcher.SetPattern(text, dotted, fullstring, casesensitive);
    r := false;
    if status == Done {
      ClosedMeans(Units(text, 0, dotted).elems, fullstring, casesensitive, line);
      if casesensitive { SensitivePromise(Units(text, 0, dotted).elems, fullstring, line); }
      r := matcher.Matches(line);
    }
  }

  /**
   * The answer for a text written from constructs of the syntax: it does what they are for, in either mode. Without
   * regard to case the text must also have no literal end, or the line must have it.
   */
  method MatchGlyphs(gs: seq<G.Glyph>, dotted: bool, fullstring: bool, casesensitive: bool, line: CString)
    returns (r: bool)
    requires G.AllRead(gs) && (casesensitive || G.NoMixedRanges(gs))
    ensures G.AllNumeric(gs)
    ensures var means := if fullstring then G.MatchAll(gs, dotted, casesensitive, line, 0, |line|)
                         else exists a: nat, b: nat :: G.MatchAll(gs, dotted, casesensitive, line, a, b);
      (casesensitive ==> (r <==> means))
      && (r <==> means && LiteralEnd(G.AllElems(gs, dotted), fullstring, line))
  {
    hide Units, InLanguage, G.MatchAll, G.AllElems, LiteralEnd;
    G.TextMeans(gs, dotted, casesensitive, line);
    if casesensitive { SensitivePromise(G.AllElems(gs, dotted), fullstring, line); }
    var status;
    status, r := MatchText(G.Text(gs), dotted, fullstring, casesensitive, line);
  }

  lemma ClosedMeans(us: seq<Elem>, fullstring: bool, sensitive: bool, line: string)
    ensures var kept := Closing(KeptAll(Merged(us), sensitive), fullstring);
      var es := Compared(kept, sensitive, 0);
      kept != []
      && (Spans(es[..|es| - 1], Seen(line, sensitive), 0, |line|) <==> Promised(us, fullstring, sensitive, line))
      && (EndsExactly(kept, line) <==> LiteralEnd(us, fullstring, line))
  {
    hide Spans, Merged, InLanguage, SeenElem;
    ClosingKept(Merged(us), fullstring, sensitive);
    ComparedKept(Closing(Merged(us), fullstring), sensitive);
    ClosingSeen(Merged(us), fullstring, sensitive);
    SeenMerged(us, sensitive);
    TokensMean(SeenAll(us, sensitive), fullstring, Seen(line, sensitive));
    StarKept(Merged(us), fullstring, sensitive, line);
  }

  lemma ClosingKept(es: seq<Elem>, fullstring: bool, sensitive: bool)
    ensures KeptAll(Closing(es, fullstring), sensitive) == Closing(KeptAll(es, sensitive), fullstring)
  {
    hide KeptAll, KeptElem;
    MarksKept(sensitive);
    if es != [] { KeptEnds(es, sensitive); }
    KeptJoin(es, [AnySeq], sensitive);
    var open := OpenEnd(es);
    KeptEnds(open, sensitive);
    KeptJoin([AnySeq], open, sensitive);
    KeptJoin(OpenStart(open), [End], sensitive);
    KeptJoin(es, [End], sensitive);
  }

  lemma KeptJoin(a: seq<Elem>, b: seq<Elem>, sensitive: bool)
    ensures KeptAll(a + b, sensitive) == KeptAll(a, sensitive) + KeptAll(b, sensitive)
  {
  }

  lemma MarksKept(sensitive: bool)
    ensures KeptAll([AnySeq], sensitive) == [AnySeq] && KeptAll([End], sensitive) == [End]
  {
  }

  lemma KeptEnds(es: seq<Elem>, sensitive: bool)
    requires es != []
    ensures KeptAll(es, sensitive)[0] == AnySeq <==> es[0] == AnySeq
    ensures KeptAll(es, sensitive)[|es| - 1] == AnySeq <==> es[|es| - 1] == AnySeq
  {
    KeptKind(es[0], sensitive);
    KeptKind(es[|es| - 1], sensitive);
  }

  lemma ClosingSeen(es: seq<Elem>, fullstring: bool, sensitive: bool)
    ensures SeenAll(Closing(es, fullstring), sensitive) == Closing(SeenAll(es, sensitive), fullstring)
  {
    hide SeenAll, SeenElem;
    MarksSeen(sensitive);
    if es != [] { SeenEnds(es, sensitive); }
    SeenAllJoin(es, [AnySeq], sensitive);
    var open := OpenEnd(es);
    SeenEnds(open, sensitive);
    SeenAllJoin([AnySeq], open, sensitive);
    SeenAllJoin(OpenStart(open), [End], sensitive);
    SeenAllJoin(es, [End], sensitive);
  }

  lemma MarksSeen(sensitive: bool)
    ensures SeenAll([AnySeq], sensitive) == [AnySeq] && SeenAll([End], sensitive) == [End]
  {
  }

  lemma SeenEnds(es: seq<Elem>, sensitive: bool)
    requires es != []
    ensures SeenAll(es, sensitive)[0] == AnySeq <==> es[0] == AnySeq
    ensures SeenAll(es, sensitive)[|es| - 1] == AnySeq <==> es[|es| - 1] == AnySeq
  {
  }

  lemma StarKept(es: seq<Elem>, fullstring: bool, sensitive: bool, line: string)
    ensures var kept := Closing(KeptAll(es, sensitive), fullstring);
      EndsExactly(kept, line) <==> (fullstring ==> EndsExactly(es + [End], line))
  {
    hide EndsWith, KeptAll, OpenStart;
    if fullstring {
      if |es| >= 2 {
        KeptAt(es, |es| - 1, sensitive);
        KeptAt(es, |es| - 2, sensitive);
      }
    } else {
      OpenIsNoLiteral(KeptAll(es, sensitive));
    }
  }

  lemma KeptAt(es: seq<Elem>, k: nat, sensitive: bool)
    requires k < |es|
    ensures var kept := KeptAll(es, sensitive)[k];
      (kept == AnySeq <==> es[k] == AnySeq) && (kept.Literal? <==> es[k].Literal?) && (kept.Literal? ==> kept == es[k])
  {
    KeptKind(es[k], sensitive);
  }

  lemma OpenIsNoLiteral(es: seq<Elem>)
    ensures !StarLiteral(Closing(es, false))
  {
  }

  lemma KeptKind(e: Elem, sensitive: bool)
    ensures var kept := KeptElem(e, sensitive);
      (kept == AnySeq <==> e == AnySeq) && (kept.Literal? <==> e.Literal?)
  {
  }

  /** With regard to case the literal end is no further demand. */
  lemma SensitivePromise(us: seq<Elem>, fullstring: bool, line: string)
    ensures Promised(us, fullstring, true, line) <==> InLanguage(us, fullstring, line)
    ensures InLanguage(us, fullstring, line) ==> LiteralEnd(us, fullstring, line)
  {
    hide Spans, Merged;
    SeenAllExactly(us);
    SeenExactly(line);
    if fullstring {
      MergedSpans(us, line, 0, |line|);
      var es := Merged(us);
      if Spans(us, line, 0, |line|) && StarLiteral(es + [End]) { LastLiteral(es, line); }
    }
  }

  /** The program's test for a text that needs no matcher. */
  ghost predicate ContainsWildcards(p: string) {
    '?' in p || '*' in p || '\\' in p || '{' in p
    || exists i :: 0 <= i < |p| - 1 && p[i] == '.' == p[i + 1]
  }

  /** Each character as a literal of its own. */
  function Singles(p: string): seq<Elem> {
    if p == "" then [] else [Literal([p[0]])] + Singles(p[1..])
  }

  lemma {:induction false} SinglesSpan(p: string, line: string, j: nat, m: nat)
    ensures Spans(Singles(p), line, j, m) <==> j <= m <= |line| && line[j..m] == p
  {
    if p != "" {
      var us := Singles(p);
      assert us[0] == Literal([p[0]]) && us[1..] == Singles(p[1..]);
      if Spans(us, line, j, m) {
        var k: nat :| Piece(us[0], line, j, k) && Spans(us[1..], line, k, m);
        SinglesSpan(p[1..], line, k, m);
        assert line[j..m] == line[j..k] + line[k..m];
      }
      if j <= m <= |line| && line[j..m] == p {
        assert line[j + 1..m] == p[1..] && line[j..j + 1] == [p[0]];
        SinglesSpan(p[1..], line, j + 1, m);
        assert Piece(us[0], line, j, j + 1);
      }
    }
  }

  /** Without wildcards every character of the text is read as itself. */
  lemma {:induction false} NoWildcardUnits(p: CString, i: nat, dotted: bool)
    requires i <= |p| && !ContainsWildcards(p)
    ensures Units(p, i, dotted) == Ok(Singles(p[i..]))
    decreases |p| - i
  {
    if i < |p| {
      if p[i] == '[' { assert !RangeAt(p, i, ']').Range?; }
      assert UnitAt(p, i, dotted) == Unit([Literal([p[i]])], i + 1);
      NoWildcardUnits(p, i + 1, dotted);
      assert p[i..][1..] == p[i + 1..];
    }
  }

  /** A text without wildcards matches itself only, and as a substring the lines it occurs in. */
  lemma WildcardFree(p: CString, dotted: bool, line: string)
    requires !ContainsWildcards(p)
    ensures Units(p, 0, dotted) == Ok(Singles(p))
    ensures InLanguage(Singles(p), true, line) <==> line == p
    ensures InLanguage(Singles(p), false, line) <==>
            exists a: nat, b: nat :: a <= b <= |line| && line[a..b] == p
  {
    hide Spans, Singles;
    NoWildcardUnits(p, 0, dotted);
    assert p[0..] == p && line[0..|line|] == line;
    forall a: nat, b: nat ensures Spans(Singles(p), line, a, b) <==> a <= b <= |line| && line[a..b] == p {
      SinglesSpan(p, line, a, b);
    }
  }

  /** A backslash before every character. */
  function Escaped(p: string): string {
    if p == "" then "" else ['\\', p[0]] + Escaped(p[1..])
  }

  lemma {:induction false} EscapedAt(p: string, i: nat)
    requires i <= |p|
    ensures |Escaped(p)| == 2 * |p| && Escaped(p)[2 * i..] == Escaped(p[i..])
    ensures i < |p| ==> Escaped(p)[2 * i] == '\\' && Escaped(p)[2 * i + 1] == p[i]
    ensures '\0' !in p ==> '\0' !in Escaped(p)
  {
    if p != "" {
      EscapedAt(p[1..], if i == 0 then 0 else i - 1);
      var t := Escaped(p[1..]);
      assert Escaped(p) == ['\\', p[0]] + t;
      if i > 0 {
        assert p[1..][i - 1..] == p[i..];
        assert Escaped(p)[2 * i..] == t[2 * (i - 1)..];
      }
    }
  }

  lemma {:induction false} EscapedUnits(p: CString, i: nat, dotted: bool)
    requires i <= |p| && '\0' !in Escaped(p) && |Escaped(p)| == 2 * |p|
    ensures Units(Escaped(p), 2 * i, dotted) == Ok(Singles(p[i..]))
    decreases |p| - i
  {
    if i < |p| {
      var q: CString := Escaped(p);
      EscapedAt(p, i);
      EscapedAt(p, i + 1);
      assert At(q, 2 * i + 2) != '.' && !IsDigit(At(q, 2 * i + 2));
      assert UnitAt(q, 2 * i, dotted) == Unit([Literal([p[i]])], 2 * (i + 1));
      EscapedUnits(p, i + 1, dotted);
      assert p[i..][1..] == p[i + 1..];
    }
  }

  /** With every character escaped the text is read as those characters, whatever they are. */
  lemma EscapingWorks(p: CString, dotted: bool, line: string)
    ensures '\0' !in Escaped(p) && Units(Escaped(p), 0, dotted) == Ok(Singles(p))
    ensures InLanguage(Singles(p), true, line) <==> line == p
  {
    hide Spans, Singles;
    EscapedAt(p, 0);
    EscapedUnits(p, 0, dotted);
    assert p[0..] == p && line[0..|line|] == line;
    SinglesSpan(p, line, 0, |line|);
  }

  /** A backslash takes away a character's meaning, unless that character is a bracket that opens a range. */
  lemma EscapeHolds(s: CString, i: nat, dotted: bool)
    requires i + 1 < |s| && s[i] == '\\'
    ensures UnitAt(s, i, dotted) == Unit([Literal([s[i + 1]])], i + 2)
       <==> !(s[i + 1] == '[' && RangeAt(s, i + 1, ']').Range?)
  {
    hide RangeAt;
  }

  /** So an escaped bracket with a range behind it still matches a number. */
  lemma EscapedBracketMatches()
    ensures Units("\\[1..2]", 0, true) == Ok([Literal("["), NumRange(1, 2), Literal("]")])
    ensures InLanguage([Literal("["), NumRange(1, 2), Literal("]")], true, "[1]")
  {
    hide Spans, Units;
    EscapedBracketUnits();
    var line, es := "[1]", [Literal("["), NumRange(1, 2), Literal("]")];
    assert line[0..1] == "[" && line[1..2] == "1" && line[2..3] == "]";
    assert Cut(es, line, [0, 1, 2, 3]);
    CutsSpan(es, line, [0, 1, 2, 3]);
  }

  lemma EscapedBracketUnits()
    ensures Units("\\[1..2]", 0, true) == Ok([Literal("["), NumRange(1, 2), Literal("]")])
  {
    var s: CString := "\\[1..2]";
    DigitsEndIs(s, 2, 3);
    DigitsEndIs(s, 5, 6);
    assert s[2..3] == "1" && s[5..6] == "2";
    assert RangeAt(s, 1, ']') == Range(1, 2, 6);
    assert UnitAt(s, 0, true) == Unit([Literal("["), NumRange(1, 2)], 6);
    assert UnitAt(s, 6, true) == Unit([Literal("]")], 7);
  }

  // ----- Without regard to case -----

  ghost predicate HasLetter(s: string) {
    exists i :: 0 <= i < |s| && SwapCase(s[i]) != s[i]
  }

  /** The text ends in "**" and a literal with a letter, and what is before them matches something. */
  ghost predicate CaseTrap(us: seq<Elem>) {
    var es := Merged(us) + [End];
    StarLiteral(es) && HasLetter(es[|es| - 2].str)
    && exists x :: Spans(SeenAll(es[..|es| - 3], false), Seen(x, false), 0, |x|)
  }

  /** No text has the end mark among its units. */
  lemma {:induction false} UnitsHaveNoEnd(text: CString, i: nat, dotted: bool)
    requires i <= |text|
    ensures Units(text, i, dotted).Ok? ==> End !in Units(text, i, dotted).elems
    decreases |text| - i
  {
    if i < |text| && UnitAt(text, i, dotted).Unit? {
      UnitsHaveNoEnd(text, UnitAt(text, i, dotted).next, dotted);
    }
  }

  /**
   * Without regard to case a full-string matcher answers right for every line exactly when the text is none that
   * ends in "**" and a literal with a letter, behind something that matches.
   */
  lemma RightUnlessCaseTrap(us: seq<Elem>)
    requires End !in us
    ensures (forall line :: Promised(us, true, false, line) ==> LiteralEnd(us, true, line)) <==> !CaseTrap(us)
  {
    hide Promised, LiteralEnd, CaseTrap;
    if CaseTrap(us) {
      var line := TrappedLine(us);
    } else {
      forall line | Promised(us, true, false, line) ensures LiteralEnd(us, true, line) {
        if !LiteralEnd(us, true, line) { Trapped(us, line); }
      }
    }
  }

  /** A line that the options promise to match, and that is refused. */
  lemma TrappedLine(us: seq<Elem>) returns (line: string)
    requires End !in us && CaseTrap(us)
    ensures Promised(us, true, false, line) && !LiteralEnd(us, true, line)
  {
    hide Spans, Merged, SeenAll, SwapCase;
    var es := Merged(us);
    var n := |es| - 2;
    var lit := es[n + 1].str;
    assert (es + [End])[..|es + [End]| - 3] == es[..n];
    var x :| Spans(SeenAll(es[..n], false), Seen(x, false), 0, |x|);
    var i :| 0 <= i < |lit| && SwapCase(lit[i]) != lit[i];
    var swapped := lit[..i] + [SwapCase(lit[i])] + lit[i + 1..];
    line := x + ("." + swapped);
    SwappedSeen(lit, i, swapped);
    StarSplit(us);
    NoEndSeen(us, n);
    SeenWithDot(x, swapped, lit);
    StarAfterDot(SeenAll(es[..n], false), Seen(lit, false), Seen(x, false));
    MergedSpans(SeenAll(us, false), Seen(line, false), 0, |line|);
    NotEnding(x + ".", swapped, lit, i);
  }

  lemma SeenWithDot(x: string, swapped: string, lit: string)
    requires Seen(swapped, false) == Seen(lit, false)
    ensures Seen(x + ("." + swapped), false) == Seen(x, false) + ("." + Seen(lit, false))
  {
    SeenJoin(x, "." + swapped, false);
    SeenJoin(".", swapped, false);
    assert Seen(".", false) == ".";
  }

  lemma NotEnding(before: string, swapped: string, lit: string, i: nat)
    requires |swapped| == |lit| && i < |lit| && swapped[i] != lit[i]
    ensures !EndsWith(before + swapped, 0, lit)
  {
    var line := before + swapped;
    assert line[|line| - |lit|..] == swapped;
  }

  /** What spans a line, with "**" and a literal behind it, spans the line with a dot and the literal behind it. */
  lemma StarAfterDot(front: seq<Elem>, lit: string, x: string)
    requires End !in front && Spans(front, x, 0, |x|)
    ensures var line := x + ("." + lit); Spans(front + [AnySeq, Literal(lit)], line, 0, |line|)
  {
    hide Spans;
    var line := x + ("." + lit);
    assert line[..|x|] == x[..|x|];
    SpansLocal(front, x, line, 0, |x|);
    assert line[|line| - |lit|..|line|] == lit;
    StarSpans(front, lit, line, |x|);
  }

  /** The tokens of such a text as they are seen: those before "**", and the two last. */
  lemma StarSplit(us: seq<Elem>)
    requires StarLiteral(Merged(us) + [End])
    ensures var es := Merged(us);
      var n := |es| - 2;
      Merged(SeenAll(us, false)) == SeenAll(es[..n], false) + [AnySeq, Literal(Seen(es[n + 1].str, false))]
  {
    hide Merged;
    SeenMerged(us, false);
    var es := Merged(us);
    assert es == es[..|es| - 2] + [AnySeq, es[|es| - 1]];
  }

  lemma SwappedSeen(lit: string, i: nat, swapped: string)
    requires i < |lit| && swapped == lit[..i] + [SwapCase(lit[i])] + lit[i + 1..]
    ensures |swapped| == |lit| && swapped[i] == SwapCase(lit[i]) && Seen(swapped, false) == Seen(lit, false)
  {
    hide Upper, SwapCase;
  }

  lemma {:induction false} NoEndMerged(us: seq<Elem>)
    requires End !in us
    ensures End !in Merged(us)
  {
    if us != [] { NoEndMerged(us[1..]); }
  }

  lemma NoEndSeen(us: seq<Elem>, n: nat)
    requires End !in us && n <= |Merged(us)|
    ensures End !in SeenAll(Merged(us)[..n], false)
  {
    hide Merged;
    NoEndMerged(us);
  }

  lemma StarSpans(front: seq<Elem>, lit: string, line: string, k: nat)
    requires Spans(front, line, 0, k) && k + |lit| <= |line| && line[|line| - |lit|..|line|] == lit
    ensures Spans(front + [AnySeq, Literal(lit)], line, 0, |line|)
  {
    hide Spans;
    var m := |line| - |lit|;
    SpansOne(AnySeq, line, k, m);
    SpansOne(Literal(lit), line, m, |line|);
    SpansJoin([AnySeq], [Literal(lit)], line, k, m, |line|);
    assert [AnySeq] + [Literal(lit)] == [AnySeq, Literal(lit)];
    SpansJoin(front, [AnySeq, Literal(lit)], line, 0, k, |line|);
  }

  /** Where the answer is wrong, the text is of that kind. */
  lemma Trapped(us: seq<Elem>, line: string)
    requires End !in us && Promised(us, true, false, line) && !LiteralEnd(us, true, line)
    ensures CaseTrap(us)
  {
    hide Spans, Merged, SeenAll;
    var es, seen := Merged(us), Seen(line, false);
    var n := |es| - 2;
    var lit := es[n + 1].str;
    StarSplit(us);
    MergedSpans(SeenAll(us, false), seen, 0, |seen|);
    var last := [AnySeq, Literal(Seen(lit, false))];
    var k := SpansSplit(SeenAll(es[..n], false), last, seen, 0, |seen|);
    StarEnds(Seen(lit, false), seen, k);
    CaseDiffers(line, lit);
    SpansBounds(SeenAll(es[..n], false), seen, 0, k);
    var x := line[..k];
    SeenSlice(line, 0, k, false);
    assert seen[0..k] == Seen(x, false)[..k];
    NoEndSeen(us, n);
    SpansLocal(SeenAll(es[..n], false), seen, Seen(x, false), 0, k);
    assert (es + [End])[..|es| + 1 - 3] == es[..n];
  }

  lemma StarEnds(lit: string, line: string, k: nat)
    requires Spans([AnySeq, Literal(lit)], line, k, |line|)
    ensures EndsWith(line, 0, lit)
  {
    hide Spans, Piece, EndsWith;
    assert [AnySeq] + [Literal(lit)] == [AnySeq, Literal(lit)];
    var m := SpansSplit([AnySeq], [Literal(lit)], line, k, |line|);
    SpansOne(Literal(lit), line, m, |line|);
    LiteralPiece(Literal(lit), line, m);
  }

  lemma CaseDiffers(line: string, lit: string)
    requires EndsWith(Seen(line, false), 0, Seen(lit, false)) && !EndsWith(line, 0, lit)
    ensures HasLetter(lit)
  {
    var ending := line[|line| - |lit|..];
    SeenSlice(line, |line| - |lit|, |line|, false);
    assert line[|line| - |lit|..|line|] == ending;
    assert Seen(line, false)[|line| - |lit|..|line|] == Seen(line, false)[|line| - |lit|..];
    assert Seen(ending, false) == Seen(lit, false);
    var i :| 0 <= i < |lit| && ending[i] != lit[i];
    assert Seen(ending, false)[i] == Seen(lit, false)[i];
    assert SwapCase(lit[i]) != lit[i];
  }

  /** Such a text: without regard to case "**a" is for "A", and the answer is no. */
  lemma CaseTrapExample()
    ensures Units("**a", 0, true) == Ok([AnySeq, Literal("a")])
    ensures Promised([AnySeq, Literal("a")], true, false, "A") && !LiteralEnd([AnySeq, Literal("a")], true, "A")
  {
    hide Units, Promised, LiteralEnd;
    TrapUnits();
    TrapPromise();
    TrapEnd();
  }

  lemma TrapUnits()
    ensures Units("**a", 0, true) == Ok([AnySeq, Literal("a")])
  {
    var text: CString := "**a";
    assert UnitAt(text, 0, true) == Unit([AnySeq], 2);
    assert UnitAt(text, 2, true) == Unit([Literal("a")], 3);
    assert Units(text, 2, true) == Ok([Literal("a")]);
  }

  lemma TrapPromise()
    ensures Promised([AnySeq, Literal("a")], true, false, "A")
  {
    hide Spans;
    assert Seen("a", false) == "A" && Seen("A", false) == "A" && "A"[0..1] == "A";
    assert SeenAll([AnySeq, Literal("a")], false) == [] + [AnySeq, Literal("A")];
    SpansNothing("A");
    StarSpans([], "A", "A", 0);
  }

  lemma TrapEnd()
    ensures !LiteralEnd([AnySeq, Literal("a")], true, "A")
  {
    var us := [AnySeq, Literal("a")];
    assert us[1..] == [Literal("a")] && Merged(us[1..]) == us[1..];
    assert Merged(us) == us && (us + [End])[1] == Literal("a");
    assert "A"[0..] == "A" != "a";
  }

  lemma SpansNothing(line: string)
    ensures Spans([], line, 0, 0)
  {
  }

  // ----- Prefix matches -----

  /** Making the last literal and the line longer by the same characters changes nothing. */
  lemma LastGrows(front: seq<Elem>, a: string, rest: string, line: string)
    requires End !in front && a != ""
    ensures Spans(front + [Literal(a)], line, 0, |line|) <==>
            Spans(front + [Literal(a + rest)], line + rest, 0, |line + rest|)
  {
    hide Spans;
    if Spans(front + [Literal(a)], line, 0, |line|) {
      var k := LastPiece(front, a, line);
      SpansLocal(front, line, line + rest, 0, k);
      assert (line + rest)[k..|line + rest|] == a + rest;
      SpansOne(Literal(a + rest), line + rest, k, |line + rest|);
      SpansJoin(front, [Literal(a + rest)], line + rest, 0, k, |line + rest|);
    }
    if Spans(front + [Literal(a + rest)], line + rest, 0, |line + rest|) {
      var k := LastPiece(front, a + rest, line + rest);
      assert line[k..|line|] == (line + rest)[k..|line + rest|][..|a|] == a;
      SpansLocal(front, line + rest, line, 0, k);
      SpansOne(Literal(a), line, k, |line|);
      SpansJoin(front, [Literal(a)], line, 0, k, |line|);
    }
  }

  lemma LastPiece(front: seq<Elem>, a: string, line: string) returns (k: nat)
    requires Spans(front + [Literal(a)], line, 0, |line|)
    ensures k + |a| == |line| && line[k..|line|] == a && Spans(front, line, 0, k)
  {
    k := SpansSplit(front, [Literal(a)], line, 0, |line|);
    SpansOne(Literal(a), line, k, |line|);
    assert |line[k..|line|]| == |a|;
  }

  /**
   * A prefix match is answered right: the pattern matches the line with the rest behind it. The exception is a rest
   * that is left of a literal behind "**".
   */
  lemma PrefixExpands(es: seq<Elem>, line: string, suffix: string, p: nat)
    requires Terminated(es) && |es| >= 2 && es[|es| - 2].Literal? && suffix != ""
    requires Find(es[|es| - 2].str, suffix, 0) == Some(p) && p + |suffix| <= |es[|es| - 2].str|
    ensures var rest := es[|es| - 2].str[p + |suffix|..];
      (StarLiteral(es) ==> rest == "") ==>
        (PrefixFor(es, line, suffix, rest) <==> Spans(es[..|es| - 1], line + rest, 0, |line + rest|))
  {
    hide Spans, Find;
    var front, str := es[..|es| - 2], es[|es| - 2].str;
    var a, rest := str[..p + |suffix|], str[p + |suffix|..];
    assert str == a + rest && es[..|es| - 1] == front + [Literal(str)];
    assert str[..|str| - |rest|] == a;
    assert End !in front;
    LastGrows(front, a, rest, line);
  }

  /** For such a literal only lines are accepted that have the whole of it already. */
  lemma StarPrefixIsWhole(es: seq<Elem>, line: string, suffix: string, rest: string)
    requires StarLiteral(es) && PrefixFor(es, line, suffix, rest)
    ensures EndsWith(line, 0, es[|es| - 2].str)
  {
    hide Spans, Find;
    var str := es[|es| - 2].str;
    assert str[..|str|] == str;
    LastLiteral(CutLast(es, 0), line);
  }

  /** So the answer is wrong for "**" and "b0", which match "b0": "b" is refused though 0 would complete it. */
  lemma StarPrefixExample()
    ensures var es := [AnySeq, Literal("b0"), End];
      Find("b0", "b", 0) == Some(0) && Spans(es[..2], "b" + "0", 0, 2) && !PrefixFor(es, "b", "b", "0")
  {
    hide Spans, PrefixFor, EndsWith, Find;
    var es := [AnySeq, Literal("b0"), End];
    StarSpansItself();
    assert es[..2] == [] + [AnySeq, Literal("b0")] && "b" + "0" == "b0";
    TooShort("b", "b0");
    if PrefixFor(es, "b", "b", "0") { StarPrefixIsWhole(es, "b", "b", "0"); }
  }

  lemma StarSpansItself()
    ensures Find("b0", "b", 0) == Some(0) && Spans([] + [AnySeq, Literal("b0")], "b0", 0, 2)
  {
    hide Spans;
    assert "b0"[0..1] == "b" && "b0"[0..2] == "b0";
    SpansNothing("b0");
    StarSpans([], "b0", "b0", 0);
  }

  lemma TooShort(line: string, ending: string)
    requires |line| < |ending|
    ensures !EndsWith(line, 0, ending)
  {
  }

  /** Only the first place of the suffix is tried: "aa" matches "aa", but with the suffix "a" it is refused. */
  lemma LaterPlaceExample()
    ensures var es := [Literal("aa"), End];
      Spans(es[..1], "aa", 0, 2) && OccursAt("aa", "a", 1) && forall rest :: !PrefixFor(es, "aa", "a", rest)
  {
    hide Spans;
    var es := [Literal("aa"), End];
    assert "aa"[0..2] == "aa" && "aa"[1..2] == "a" && "aa"[0..1] == "a";
    assert es[..1] == [Literal("aa")];
    SpansOne(Literal("aa"), "aa", 0, 2);
    assert Find("aa", "a", 0) == Some(0);
    forall rest ensures !PrefixFor(es, "aa", "a", rest) {
      assert CutLast(es, 1) == [Literal("a")] by { assert "aa"[..1] == "a"; }
      SpansOne(Literal("a"), "aa", 0, 2);
      assert "aa"[1..] == "a";
    }
  }
}

/** How a matcher compares: with or without regard to case, and with the pattern's last literal cut short. */
module PatternModes {
  import opened CStrings
  import opened Patterns
  import opened PatternTexts

  // ----- Case -----

  /** One is the lower and the other the upper case of the same letter. */
  predicate SameLetter(c: char, d: char) {
    ('a' <= c <= 'z' && d as int - 'A' as int == c as int - 'a' as int)
    || ('a' <= d <= 'z' && c as int - 'A' as int == d as int - 'a' as int)
  }

  /** Two characters are the same, with or without regard to case. */
  predicate Same(c: char, d: char, sensitive: bool) {
    c == d || (!sensitive && SameLetter(c, d))
  }

  function Upper(c: char): (u: char)
    ensures !('a' <= u <= 'z') && (IsDigit(u) <==> IsDigit(c)) && (IsDigit(c) ==> u == c)
    ensures (u == '.' <==> c == '.') && (u == '\0' <==> c == '\0')
    ensures u != c ==> SameLetter(c, u)
  {
    if 'a' <= c <= 'z' then (c as int - 'a' as int + 'A' as int) as char else c
  }

  function SeenChar(c: char, sensitive: bool): char {
    if sensitive then c else Upper(c)
  }

  function SwapCase(c: char): (d: char)
    ensures Upper(d) == Upper(c)
  {
    if 'a' <= c <= 'z' then Upper(c)
    else if 'A' <= c <= 'Z' then (c as int - 'A' as int + 'a' as int) as char
    else c
  }

  lemma SameIs(c: char, d: char, sensitive: bool)
    ensures Same(c, d, sensitive) <==> SeenChar(c, sensitive) == SeenChar(d, sensitive)
  {
  }

  /** A string as a comparison sees it: as it is, or all in upper case. */
  function Seen(s: string, sensitive: bool): (t: string)
    ensures |t| == |s|
  {
    seq(|s|, i requires 0 <= i < |s| => SeenChar(s[i], sensitive))
  }

  lemma SeenExactly(s: string)
    ensures Seen(s, true) == s
  {
  }

  lemma SeenTwice(s: string, sensitive: bool)
    ensures Seen(Seen(s, sensitive), sensitive) == Seen(s, sensitive)
  {
  }

  lemma SeenJoin(s: string, t: string, sensitive: bool)
    ensures Seen(s + t, sensitive) == Seen(s, sensitive) + Seen(t, sensitive)
  {
  }

  lemma SeenSlice(s: string, i: nat, j: nat, sensitive: bool)
    requires i <= j <= |s|
    ensures Seen(s, sensitive)[i..j] == Seen(s[i..j], sensitive)
  {
  }

  lemma SeenDigits(s: string, i: nat, sensitive: bool)
    requires i <= |s|
    ensures IsDigit(At(Seen(s, sensitive), i)) <==> IsDigit(At(s, i))
    ensures DigitsEnd(Seen(s, sensitive), i) == DigitsEnd(s, i)
    ensures NumberAt(Seen(s, sensitive), i) == NumberAt(s, i)
  {
    var e := DigitsEnd(s, i);
    DigitsEndIs(Seen(s, sensitive), i, e);
    assert Seen(s, sensitive)[i..e] == s[i..e];
  }

  /** An element as its unit in the text is seen. */
  function SeenElem(e: Elem, sensitive: bool): Elem {
    match e
    case Literal(str) => Literal(Seen(str, sensitive))
    case CharSet(cs) => CharSet(Seen(cs, sensitive))
    case NegSet(cs) => NegSet(Seen(cs, sensitive))
    case _ => e
  }

  /** An element as the tokenizer keeps it: only the characters of sets are brought into upper case. */
  function KeptElem(e: Elem, sensitive: bool): Elem {
    if e.CharSet? || e.NegSet? then SeenElem(e, sensitive) else e
  }

  function SeenAll(es: seq<Elem>, sensitive: bool): (r: seq<Elem>)
    ensures |r| == |es|
  {
    seq(|es|, i requires 0 <= i < |es| => SeenElem(es[i], sensitive))
  }

  function KeptAll(es: seq<Elem>, sensitive: bool): (r: seq<Elem>)
    ensures |r| == |es|
  {
    seq(|es|, i requires 0 <= i < |es| => KeptElem(es[i], sensitive))
  }

  lemma SeenElemExactly(e: Elem)
    ensures SeenElem(e, true) == e
  {
    if e.Literal? { SeenExactly(e.str); }
    if e.CharSet? || e.NegSet? { SeenExactly(e.setchars); }
  }

  lemma SeenAllExactly(es: seq<Elem>)
    ensures SeenAll(es, true) == es
  {
    forall i | 0 <= i < |es| ensures SeenElem(es[i], true) == es[i] { SeenElemExactly(es[i]); }
  }

  lemma SeenAllJoin(a: seq<Elem>, b: seq<Elem>, sensitive: bool)
    ensures SeenAll(a + b, sensitive) == SeenAll(a, sensitive) + SeenAll(b, sensitive)
  {
  }

  /** Bringing literals into upper case and joining them can be done in either order. */
  lemma {:induction false} SeenMerged(us: seq<Elem>, sensitive: bool)
    ensures Merged(SeenAll(us, sensitive)) == SeenAll(Merged(us), sensitive)
  {
    hide SeenAll, SeenElem;
    if us == [] {
      NothingSeen(sensitive);
    } else {
      var u, rest := us[0], Merged(us[1..]);
      SeenMerged(us[1..], sensitive);
      assert us == [u] + us[1..];
      SeenCons(u, us[1..], sensitive);
      if rest != [] {
        assert rest == [rest[0]] + rest[1..];
        SeenCons(rest[0], rest[1..], sensitive);
        if u.Literal? && rest[0].Literal? {
          SeenLiterals(u.str, rest[0].str, sensitive);
          SeenCons(Literal(u.str + rest[0].str), rest[1..], sensitive);
        }
      }
      SeenCons(u, rest, sensitive);
    }
  }

  lemma NothingSeen(sensitive: bool)
    ensures SeenAll([], sensitive) == []
  {
  }

  lemma SeenCons(e: Elem, es: seq<Elem>, sensitive: bool)
    ensures SeenAll([e] + es, sensitive) == [SeenElem(e, sensitive)] + SeenAll(es, sensitive)
    ensures SeenElem(e, sensitive).Literal? <==> e.Literal?
  {
    var all := [e] + es;
    forall i | 0 <= i < |es| ensures SeenAll(all, sensitive)[i + 1] == SeenAll(es, sensitive)[i] {
      assert all[i + 1] == es[i];
    }
  }

  lemma SeenLiterals(x: string, y: string, sensitive: bool)
    ensures SeenElem(Literal(x), sensitive) == Literal(Seen(x, sensitive))
    ensures SeenElem(Literal(y), sensitive) == Literal(Seen(y, sensitive))
    ensures SeenElem(Literal(x + y), sensitive) == Literal(Seen(x, sensitive) + Seen(y, sensitive))
  {
    SeenJoin(x, y, sensitive);
  }

  // ----- Sets without regard to case -----

  predicate IsLetter(c: char) {
    'a' <= c <= 'z' || 'A' <= c <= 'Z'
  }

  /** A single character, a range of letters of one case, or a range in which there are no letters. */
  ghost predicate OneKind(item: SetItem) {
    match item
    case Single(c) => true
    case Between(lo, hi) =>
      ('a' <= lo <= 'z' && 'a' <= hi <= 'z') || ('A' <= lo <= 'Z' && 'A' <= hi <= 'Z')
      || (!IsLetter(lo) && !IsLetter(hi) && forall c :: lo <= c <= hi ==> !IsLetter(c))
  }

  function UpperItem(item: SetItem): SetItem {
    match item
    case Single(c) => Single(Upper(c))
    case Between(lo, hi) => Between(Upper(lo), Upper(hi))
  }

  /** An item of a set that has been brought into upper case covers what the item covers in any case. */
  lemma SetIgnoresCase(item: SetItem, c: char)
    requires OneKind(item)
    ensures Covers(UpperItem(item), Upper(c)) <==> exists d :: Upper(d) == Upper(c) && Covers(item, d)
  {
    if Covers(UpperItem(item), Upper(c)) {
      if item.Single? {
        assert Covers(item, item.c);
      } else {
        var d := if Covers(item, c) then c else SwapCase(c);
        assert !IsLetter(item.lo) ==> !IsLetter(Upper(c));
        assert Covers(item, d);
      }
    }
    if d :| Upper(d) == Upper(c) && Covers(item, d) {
      assert item.Between? && !IsLetter(item.lo) ==> !IsLetter(d);
    }
  }

  // ----- Patterns that end in any sequence and a literal -----

  /** The tokens end in "**" and a literal; the end mark is the last. */
  predicate StarLiteral(es: seq<Elem>) {
    |es| >= 3 && es[|es| - 3] == AnySeq && es[|es| - 2].Literal?
  }

  /** For such a pattern the line has to end in the literal itself, whatever the mode. */
  predicate EndsExactly(es: seq<Elem>, line: string) {
    StarLiteral(es) ==> EndsWith(line, 0, es[|es| - 2].str)
  }

  predicate EndsWith(line: string, s: nat, ending: string)
    requires s <= |line|
  {
    |line| - s >= |ending| && line[|line| - |ending|..] == ending
  }

  // ----- Tokens as they are compared -----

  /** The last literal can be cut by so many characters. */
  predicate Cuttable(es: seq<Elem>, cut: nat) {
    cut > 0 ==> |es| >= 2 && es[|es| - 2].Literal? && cut <= |es[|es| - 2].str|
  }

  /** A literal of the tokens, without the last `cut` characters if it is the last and does not stand behind "**". */
  function Shortened(es: seq<Elem>, k: nat, cut: nat): string
    requires k < |es| && es[k].Literal? && Cuttable(es, cut)
  {
    var str := es[k].str;
    if cut > 0 && k == |es| - 2 && !StarLiteral(es) then str[..|str| - cut] else str
  }

  function Compared(es: seq<Elem>, sensitive: bool, cut: nat): (r: seq<Elem>)
    requires Cuttable(es, cut)
    ensures |r| == |es|
  {
    seq(|es|, k requires 0 <= k < |es| =>
      if es[k].Literal? then Literal(Seen(Shortened(es, k, cut), sensitive)) else es[k])
  }

  /** With nothing cut, the tokens kept are compared as the units are seen. */
  lemma ComparedKept(es: seq<Elem>, sensitive: bool)
    ensures Compared(KeptAll(es, sensitive), sensitive, 0) == SeenAll(es, sensitive)
  {
    var kept := KeptAll(es, sensitive);
    forall k | 0 <= k < |es| ensures Compared(kept, sensitive, 0)[k] == SeenElem(es[k], sensitive) {
    }
  }

  lemma ComparedExactly(es: seq<Elem>)
    ensures Compared(es, true, 0) == es
  {
    forall k | 0 <= k < |es| ensures Compared(es, true, 0)[k] == es[k] {
      if es[k].Literal? { SeenExactly(es[k].str); }
    }
  }

  lemma SeenEnding(line: string, s: nat, ending: string, sensitive: bool)
    requires s <= |line|
    ensures EndsWith(line, s, ending) ==> EndsWith(Seen(line, sensitive), s, Seen(ending, sensitive))
    ensures sensitive && EndsWith(Seen(line, sensitive), s, Seen(ending, sensitive)) ==> EndsWith(line, s, ending)
  {
    if |line| - s >= |ending| {
      SeenSlice(line, |line| - |ending|, |line|, sensitive);
      assert line[|line| - |ending|..|line|] == line[|line| - |ending|..];
    }
    if sensitive {
      SeenExactly(line);
      SeenExactly(ending);
    }
  }

  // ----- Where the language looks -----

  /** What spans a stretch of a line spans it in another line, unless only there a digit comes behind it. */
  lemma {:induction false} SpansLocal(es: seq<Elem>, line: string, line': string, j: nat, m: nat)
    requires End !in es && m <= |line| && m <= |line'| && line[..m] == line'[..m]
    requires IsDigit(At(line', m)) ==> IsDigit(At(line, m))
    requires Spans(es, line, j, m)
    ensures Spans(es, line', j, m)
  {
    if es != [] {
      var k: nat :| Piece(es[0], line, j, k) && Spans(es[1..], line, k, m);
      SpansBounds(es[1..], line, k, m);
      PieceLocal(es[0], line, line', j, k, m);
      SpansLocal(es[1..], line, line', k, m);
    }
  }

  lemma PieceLocal(e: Elem, line: string, line': string, j: nat, k: nat, m: nat)
    requires e != End && k <= m <= |line| && m <= |line'| && line[..m] == line'[..m]
    requires IsDigit(At(line', m)) ==> IsDigit(At(line, m))
    requires Piece(e, line, j, k)
    ensures Piece(e, line', j, k)
  {
    assert forall i :: 0 <= i < m ==> line[i] == line[..m][i] == line'[i];
    assert line[j..k] == line'[j..k];
  }
}

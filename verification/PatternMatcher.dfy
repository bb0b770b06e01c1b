/** The matcher: a tokenizer for glob patterns and a backtracking match with shortcuts. */
module PatternMatching {
  import opened Options
  import opened CStrings
  import opened Patterns
  import opened PatternTexts
  import opened PatternModes

  datatype Status = Done | UnmatchedBrace | ReadPastEnd

  predicate LiteralLast(es: seq<Elem>) {
    es != [] && es[|es| - 1].Literal?
  }

  class PatternMatcher {
    var pattern: seq<Elem>
    var iscasesensitive: bool

    ghost predicate Valid()
      reads this
    {
      Terminated(pattern)
    }

    ghost predicate Agrees(k: nat, suffixlen: nat, line: string, s: nat)
      requires k < |pattern| && Cuttable(pattern, suffixlen)
      reads this
    {
      Agree(pattern, iscasesensitive, suffixlen, k, line, s)
    }

    constructor ()
      ensures pattern == []
    {
      pattern, iscasesensitive := [], true;
    }

    /** Reads a numeric range; `next` moves to the closing character only on success. */
    static method ParseNumRange(text: CString, str: nat, closing: char)
      returns (ok: bool, lo: int, up: int, next: nat)
      requires str < |text| && closing != '\0'
      ensures ok == RangeAt(text, str, closing).Range?
      ensures ok ==> RangeAt(text, str, closing) == Range(lo, up, next)
      ensures !ok ==> next == str
    {
      ok, lo, up, next := false, -1, -1, str;
      var s := str + 1;
      if IsDigit(At(text, s)) {
        lo := NumberAt(text, s);
        s := SkipDigits(text, s);
      }
      if At(text, s) != '.' || At(text, s + 1) != '.' {
        return;
      }
      s := s + 2;
      if IsDigit(At(text, s)) {
        up := NumberAt(text, s);
        s := SkipDigits(text, s);
      }
      if At(text, s) != closing {
        return;
      }
      ok, next := true, s;
    }

    static method SkipDigits(text: string, s: nat) returns (e: nat)
      requires s <= |text|
      ensures e == DigitsEnd(text, s)
    {
      e := s;
      while IsDigit(At(text, e))
        invariant s <= e <= |text| && DigitsEnd(text, s) == DigitsEnd(text, e)
        decreases |text| - e
      {
        e := e + 1;
      }
    }

    /** Reads the set that is written in the text, in upper case if case is not to matter. */
    method ParseSet(text: CString, str: nat) returns (ok: bool, e: Elem, next: nat)
      requires str < |text| && text[str] == '{' && !RangeAt(text, str, '}').Range?
      ensures !ok ==> forall dotted :: UnitAt(text, str, dotted) == BadSet
      ensures ok ==> forall dotted :: IsKept(UnitAt(text, str, dotted), e, next, iscasesensitive)
      ensures ok ==> next <= |text| && Kept(e)
    {
      hide SetAt, RangeAt, Upper;
      var s, negated, setchars := str + 1, false, "";
      ghost var chars := "";
      if At(text, s) == '^' {
        negated := true;
        s := s + 1;
      }
      var sbeg := s;
      while s < |text| && (text[s] != '}' || s == sbeg)
        invariant sbeg <= s <= |text|
        invariant SetAt(text, sbeg, true) == Onto(chars, SetAt(text, s, s == sbeg))
        invariant setchars == Seen(chars, iscasesensitive)
      {
        SetStep(text, s, s == sbeg, chars);
        var lo, hi := text[s], text[s];
        if At(text, s + 1) == '-' && At(text, s + 2) != '\0' && At(text, s + 2) != '}' {
          hi := text[s + 2];
          s := s + 3;
        } else {
          s := s + 1;
        }
        chars := chars + [lo, hi];
        if !iscasesensitive {
          lo := Upper(lo);
          hi := Upper(hi);
        }
        setchars := setchars + [lo, hi];
      }
      SetEnds(text, s, s == sbeg);
      assert chars + "" == chars;
      e := if negated then NegSet(setchars) else CharSet(setchars);
      ghost var written := if negated then NegSet(chars) else CharSet(chars);
      assert s < |text| ==> forall dotted :: UnitAt(text, str, dotted) == Unit([written], s + 1);
      ok := s < |text|;
      next := s + 1;
    }

    /** Gathers a literal string; a lone backslash at the end makes it read past the text. */
    static method ParseLiteralString(text: CString, str: nat) returns (ok: bool, e: Elem, next: nat)
      requires str <= |text|
      ensures e.Literal? && (ok ==> next <= |text|)
      ensures RunAt(text, str) == (if ok then Run(e.str, next) else RunOff)
    {
      hide RunAt, RangeAt;
      var s, chars := str, "";
      ok := true;
      while s < |text| && text[s] != '?' && text[s] != '{' && text[s] != '*'
        invariant str <= s <= |text|
        invariant RunAt(text, str) == Before(chars, RunAt(text, s))
      {
        RunEnds(text, s);
        if text[s] != '\\' || s + 1 < |text| {
          RunStepOn(text, s, if text[s] == '\\' then s + 1 else s, chars);
        }
        if text[s] == '\\' {
          s := s + 1;
          if s == |text| {
            ok, e, next := false, Literal(chars), s;
            return;
          }
        }
        chars := chars + [text[s]];
        if text[s] == '[' {
          var range, lo, up, close := ParseNumRange(text, s, ']');
          if range {
            e, next := Literal(chars), s;
            return;
          }
        }
        s := s + 1;
      }
      RunEnds(text, s);
      e := Literal(chars);
      next := s;
    }

    /** Tokenizes the text. */
    method SetPattern(text: CString, dotted: bool, fullstring: bool, casesensitive: bool) returns (status: Status)
      modifies this
      ensures iscasesensitive == casesensitive
      ensures match Units(text, 0, dotted)
        case Ok(us) =>
          status == Done && pattern == Closing(KeptAll(Merged(us), casesensitive), fullstring) && Valid()
        case Unmatched => status == UnmatchedBrace
        case Overrun => status == ReadPastEnd
    {
      hide Merged, RangeAt, SetAt, RunAt, Units, Closing, AllKept, KeptAll, KeptElem, Kept, DigitsEnd, NumberAt, UnitAt;
      pattern := [];
      iscasesensitive := casesensitive;
      ghost var tokens: seq<Elem> := [];
      var s := 0;
      NoneKept(casesensitive);
      NoMoreUnits(text, dotted, false, []);
      while s < |text|
        invariant s <= |text|
        invariant Joined(Units(text, 0, dotted)) ==
          Prepend(tokens, Joined(Tail(text, s, dotted, LiteralLast(tokens))))
        invariant LiteralLast(tokens) ==> Settled(text, s, true)
        invariant iscasesensitive == casesensitive
        invariant pattern == KeptAll(tokens, casesensitive) && AllKept(pattern)
        invariant LiteralLast(pattern) <==> LiteralLast(tokens)
        decreases |text| - s, if Pending(text, s, LiteralLast(tokens)) then 0 else 1
      {
        var e, ok := AnyChar, true;
        ghost var i, before, written := s, LiteralLast(tokens), AnyChar;
        WildcardAt(text, s, dotted);
        match text[s] {
          case '?' =>
            e := if dotted then CommonChar else AnyChar;
            s := s + 1;
            written := e;
          case '[' =>
            var range, lo, up, close := ParseNumRange(text, s, ']');
            if !LiteralLast(pattern) || !range {
              PushLiteral(text, s, dotted, tokens);
              ok, e, s := ParseLiteralString(text, s);
            } else {
              e, s := NumRange(lo, up), close;
            }
            written := e;
          case '{' =>
            var range, lo, up, close := ParseNumRange(text, s, '}');
            if range {
              e, s := NumRange(lo, up), close + 1;
              written := e;
            } else {
              ok, e, s := ParseSet(text, s);
              if !ok {
                SetUnread(text, i, dotted);
                return UnmatchedBrace;
              }
              written := UnitAt(text, i, dotted).elems[0];
            }
          case '*' =>
            if At(text, s + 1) == '*' {
              e, s := AnySeq, s + 2;
            } else {
              e, s := if dotted then CommonSeq else AnySeq, s + 1;
            }
            written := e;
          case _ =>
            PushLiteral(text, s, dotted, tokens);
            ok, e, s := ParseLiteralString(text, s);
            written := e;
        }
        if !ok { return ReadPastEnd; }
        if !written.Literal? { OtherToken(text, i, dotted, before, tokens, written, s); }
        KeptPush(pattern, e);
        KeptMore(tokens, written, casesensitive);
        tokens := tokens + [written];
        pattern := pattern + [e];
      }
      NoMoreUnits(text, dotted, LiteralLast(tokens), tokens);
      Close(fullstring);
      status := Done;
    }

    method Close(fullstring: bool)
      requires AllKept(pattern)
      modifies this`pattern
      ensures pattern == Closing(old(pattern), fullstring) && Valid()
    {
      if !fullstring {
        if pattern == [] || pattern[|pattern| - 1] != AnySeq {
          pattern := pattern + [AnySeq];
        }
        if pattern[0] != AnySeq {
          pattern := [AnySeq] + pattern;
        }
      }
      pattern := pattern + [End];
    }

    method IsInSet(ch: char, setchars: string) returns (r: bool)
      requires |setchars| % 2 == 0
      ensures r <==> InSet(SeenChar(ch, iscasesensitive), setchars)
    {
      var c, i := ch, 0;
      if !iscasesensitive {
        c := Upper(c);
      }
      while i < |setchars|
        invariant i % 2 == 0 && i <= |setchars|
        invariant forall k: nat :: 2 * k < i ==> !InRange(c, setchars, k)
      {
        if setchars[i] <= c <= setchars[i + 1] {
          assert InRange(c, setchars, i / 2);
          return true;
        }
        assert !InRange(c, setchars, i / 2);
        i := i + 2;
      }
      r := false;
    }

    /**
     * Backtracking match of the line from `s0` against the pattern from `k0` on, whose last literal may lack its last
     * `suffixlen` characters. A last literal behind "**" is never shortened, and compared with regard to case.
     */
    method DoMatch(line: CString, s0: nat, k0: nat, suffixlen: nat) returns (r: bool)
      requires Valid() && s0 <= |line| && k0 < |pattern| && Cuttable(pattern, suffixlen)
      requires StarLiteral(pattern) ==> k0 <= |pattern| - 3
      ensures r <==> Agrees(k0, suffixlen, line, s0) && EndsExactly(pattern, line)
      decreases |pattern| - k0
    {
      hide Agree, EndsWith, Compared, Seen, InSet, Cuttable, NumberAt;
      var s: nat, k: nat := s0, k0;
      while true
        invariant k0 <= k < |pattern| && s <= |line|
        invariant StarLiteral(pattern) ==> k <= |pattern| - 3
        invariant Agrees(k0, suffixlen, line, s0) <==> Agrees(k, suffixlen, line, s)
        decreases |pattern| - k
      {
        match pattern[k] {
          case Literal(str) =>
            LiteralAgrees(pattern, iscasesensitive, suffixlen, k, line, s);
            var len := |str|;
            if suffixlen > 0 && k == |pattern| - 2 {
              len := len - suffixlen;
            }
            if !StartsAt(Seen(line, iscasesensitive), s, Seen(str[..len], iscasesensitive)) {
              return false;
            }
            s := s + len;
          case AnyChar =>
            CharAgrees(pattern, iscasesensitive, suffixlen, k, line, s);
            if s == |line| {
              return false;
            }
            s := s + 1;
          case CommonChar =>
            CharAgrees(pattern, iscasesensitive, suffixlen, k, line, s);
            if s == |line| || line[s] == '.' {
              return false;
            }
            s := s + 1;
          case CharSet(cs) =>
            CharAgrees(pattern, iscasesensitive, suffixlen, k, line, s);
            if s == |line| {
              return false;
            }
            var member := IsInSet(line[s], cs);
            if !member {
              return false;
            }
            s := s + 1;
          case NegSet(cs) =>
            CharAgrees(pattern, iscasesensitive, suffixlen, k, line, s);
            if s == |line| {
              return false;
            }
            var member := IsInSet(line[s], cs);
            if member {
              return false;
            }
            s := s + 1;
          case NumRange(lo, up) =>
            NumberAgrees(pattern, iscasesensitive, suffixlen, k, line, s);
            if !IsDigit(At(line, s)) {
              return false;
            }
            var num := NumberAt(line, s);
            s := SkipDigits(line, s);
            if (lo >= 0 && num < lo) || (up >= 0 && num > up) {
              return false;
            }
          case AnySeq =>
            if k == |pattern| - 2 {
              AnythingAgrees(pattern, iscasesensitive, suffixlen, k, line, s);
              return true;
            }
            if k == |pattern| - 3 && pattern[k + 1].Literal? {
              ShortcutRest(pattern, line, s, iscasesensitive, suffixlen);
              return EndsWith(line, s, pattern[k + 1].str);
            }
            r := MatchAfterSeq(line, s, k, suffixlen);
            return;
          case CommonSeq =>
            r := MatchAfterSeq(line, s, k, suffixlen);
            return;
          case End =>
            EndAgrees(pattern, iscasesensitive, suffixlen, k, line, s);
            return s == |line|;
        }
        k := k + 1;
      }
    }

    /** The loop over where a sequence may end: the rest of the pattern is tried at each place in turn. */
    method MatchAfterSeq(line: CString, s0: nat, k: nat, suffixlen: nat) returns (r: bool)
      requires Valid() && s0 <= |line| && k < |pattern| - 1 && Cuttable(pattern, suffixlen)
      requires pattern[k] == CommonSeq || pattern[k] == AnySeq
      requires StarLiteral(pattern) ==> k < |pattern| - 3
      ensures r <==> Agrees(k, suffixlen, line, s0) && EndsExactly(pattern, line)
      decreases |pattern| - k, 0
    {
      hide Piece, Spans, Rest, Seen, EndsExactly;
      ghost var es, seen := Compared(pattern, iscasesensitive, suffixlen), Seen(line, iscasesensitive);
      SeqRest(es, k, seen, s0);
      DotsSeen(line, iscasesensitive);
      var s: nat := s0;
      while true
        invariant s0 <= s <= |line|
        invariant pattern[k] == CommonSeq ==> forall i :: s0 <= i < s ==> line[i] != '.'
        invariant EndsExactly(pattern, line) ==> forall m: nat :: m < s ==> !AfterSeq(es, k, seen, s0, m)
        decreases |line| - s
      {
        var found := DoMatch(line, s, k + 1, suffixlen);
        assert found <==> AfterSeq(es, k, seen, s0, s) && EndsExactly(pattern, line);
        if found {
          return true;
        }
        if s == |line| || (pattern[k] == CommonSeq && line[s] == '.') {
          return false;
        }
        s := s + 1;
      }
    }

    /** Whether the line matches; a line that does not end in the pattern's last two characters is out at once. */
    method Matches(line: CString) returns (r: bool)
      requires Valid()
      ensures var es, seen := Compared(pattern, iscasesensitive, 0), Seen(line, iscasesensitive);
        r <==> Spans(es[..|es| - 1], seen, 0, |line|) && EndsExactly(pattern, line)
    {
      hide Piece, Spans, Upper, EndsExactly;
      ghost var es, seen := Compared(pattern, iscasesensitive, 0), Seen(line, iscasesensitive);
      RestIsSpans(es, seen);
      if |pattern| >= 2 && iscasesensitive {
        var e := pattern[|pattern| - 2];
        if e.Literal? {
          var pattlen, linelen := |e.str|, |line|;
          ComparedExactly(pattern);
          SeenExactly(line);
          if Spans(pattern[..|pattern| - 1], line, 0, |line|) { LastLiteral(pattern[..|pattern| - 1], line); }
          if pattlen >= 2 && linelen >= 2
            && (line[linelen - 1] != e.str[pattlen - 1] || line[linelen - 2] != e.str[pattlen - 2]) {
            return false;
          }
        }
      }
      r := DoMatch(line, 0, 0, 0);
    }

    /**
     * Whether the line, whose suffix begins at `suffixoffset`, is a match but for the rest of the pattern's last
     * literal, and that rest: what the literal has behind the first place where it contains the suffix.
     */
    method PatternPrefixMatches(line: CString, suffixoffset: nat) returns (r: Prefix)
      requires Valid() && suffixoffset <= |line|
      ensures r == Unsupported <==> !iscasesensitive
      ensures iscasesensitive ==>
        forall rest :: r == Remaining(rest) <==> PrefixFor(pattern, line, line[suffixoffset..], rest)
    {
      hide Piece, Spans, Upper, Agree, Find, EndsExactly;
      if !iscasesensitive {
        return Unsupported;
      }
      if |pattern| < 2 || !pattern[|pattern| - 2].Literal? {
        return NoPrefix;
      }
      var pattstring, suffix := pattern[|pattern| - 2].str, line[suffixoffset..];
      var p := Find(pattstring, suffix, 0);
      if p == None {
        return NoPrefix;
      }
      FoundInside(pattstring, suffix, 0);
      var rest := pattstring[p.value + |suffix|..];
      PrefixAgrees(pattern, line, |rest|);
      var found := DoMatch(line, 0, 0, |rest|);
      r := if found then Remaining(rest) else NoPrefix;
    }
  }

  /** A unit of one element other than a literal, which is kept like this. */
  predicate IsKept(u: Unit, e: Elem, next: nat, sensitive: bool) {
    u.Unit? && |u.elems| == 1 && u.next == next && !u.elems[0].Literal? && e == KeptElem(u.elems[0], sensitive)
  }

  /** What a prefix match comes to: it is an error without regard to case. */
  datatype Prefix = Unsupported | NoPrefix | Remaining(rest: string)

  predicate OccursAt(s: string, part: string, p: nat) {
    p + |part| <= |s| && s[p..p + |part|] == part
  }

  /** `strstr` from place `i` on. */
  function Find(s: string, part: string, i: nat): Option<nat>
    decreases |s| + 1 - i
  {
    if i + |part| > |s| then None
    else if OccursAt(s, part, i) then Some(i)
    else Find(s, part, i + 1)
  }

  /** The first place is found, and none is missed. */
  lemma {:induction false} FoundInside(s: string, part: string, i: nat)
    ensures match Find(s, part, i)
      case None => forall p :: i <= p ==> !OccursAt(s, part, p)
      case Some(p) => i <= p && OccursAt(s, part, p) && forall q :: i <= q < p ==> !OccursAt(s, part, q)
    decreases |s| + 1 - i
  {
    if i + |part| <= |s| && !OccursAt(s, part, i) { FoundInside(s, part, i + 1); }
  }

  /** The tokens with the last literal cut short, without their end mark. */
  function CutLast(es: seq<Elem>, cut: nat): seq<Elem>
    requires |es| >= 2 && es[|es| - 2].Literal? && cut <= |es[|es| - 2].str|
  {
    var str := es[|es| - 2].str;
    es[..|es| - 2] + [Literal(str[..|str| - cut])]
  }

  /**
   * The last literal is the suffix's first place in it and `rest`, and without `rest` the tokens match the line,
   * where a literal behind "**" stays whole.
   */
  ghost predicate PrefixFor(es: seq<Elem>, line: string, suffix: string, rest: string) {
    |es| >= 2 && es[|es| - 2].Literal?
    && var str := es[|es| - 2].str;
    var p := Find(str, suffix, 0);
    p.Some? && p.value + |suffix| <= |str| && rest == str[p.value + |suffix|..]
    && Spans(CutLast(es, if StarLiteral(es) then 0 else |rest|), line, 0, |line|)
  }

  lemma PrefixAgrees(es: seq<Elem>, line: string, cut: nat)
    requires |es| >= 2 && es[|es| - 2].Literal? && cut <= |es[|es| - 2].str|
    ensures Agree(es, true, cut, 0, line, 0) && EndsExactly(es, line) <==>
      Spans(CutLast(es, if StarLiteral(es) then 0 else cut), line, 0, |line|)
  {
    hide Spans, Piece, EndsWith;
    var last := CutLast(es, if StarLiteral(es) then 0 else cut);
    SeenExactly(line);
    CutCompared(es, cut);
    RestIsSpans(Compared(es, true, cut), line);
    if StarLiteral(es) && Spans(last, line, 0, |line|) {
      assert es[|es| - 2].str[..|es[|es| - 2].str|] == es[|es| - 2].str;
      LastLiteral(last, line);
    }
  }

  lemma CutCompared(es: seq<Elem>, cut: nat)
    requires |es| >= 2 && es[|es| - 2].Literal? && cut <= |es[|es| - 2].str|
    ensures Compared(es, true, cut)[..|es| - 1] == CutLast(es, if StarLiteral(es) then 0 else cut)
  {
    forall k | 0 <= k < |es| - 1
      ensures Compared(es, true, cut)[k] == CutLast(es, if StarLiteral(es) then 0 else cut)[k]
    {
      if es[k].Literal? {
        SeenExactly(Shortened(es, k, cut));
        assert es[k].str[..|es[k].str|] == es[k].str;
      }
    }
  }

  /** The comparison of as many characters as the literal has. */
  predicate StartsAt(line: string, s: nat, str: string) {
    s + |str| <= |line| && line[s..s + |str|] == str
  }

  /** The pattern from element `k` up to its end mark spans the line from `s` on. */
  ghost predicate Rest(es: seq<Elem>, k: nat, line: string, s: nat)
    requires k < |es|
  {
    Spans(es[k..|es| - 1], line, s, |line|)
  }

  /** The next element takes a piece, and the rest of the pattern the rest of the line. */
  lemma RestStep(es: seq<Elem>, k: nat, line: string, s: nat)
    requires k < |es| - 1
    ensures Rest(es, k, line, s) <==> exists m: nat :: Piece(es[k], line, s, m) && Rest(es, k + 1, line, m)
  {
    hide Piece;
    var here := es[k..|es| - 1];
    assert here[0] == es[k] && here[1..] == es[k + 1..|es| - 1];
  }

  /** An element for which only one piece can start at `s`. */
  lemma OnlyPiece(es: seq<Elem>, k: nat, line: string, s: nat, m: nat)
    requires k < |es| - 1 && (forall i: nat :: Piece(es[k], line, s, i) ==> i == m)
    ensures Rest(es, k, line, s) <==> Piece(es[k], line, s, m) && Rest(es, k + 1, line, m)
  {
    hide Piece, Rest;
    RestStep(es, k, line, s);
  }

  lemma LiteralRest(es: seq<Elem>, k: nat, line: string, s: nat)
    requires k < |es| - 1 && es[k].Literal?
    ensures Rest(es, k, line, s) <==> StartsAt(line, s, es[k].str) && Rest(es, k + 1, line, s + |es[k].str|)
  {
    hide Rest;
    forall i: nat | Piece(es[k], line, s, i) ensures i == s + |es[k].str| {
      assert |line[s..i]| == |es[k].str|;
    }
    OnlyPiece(es, k, line, s, s + |es[k].str|);
  }

  /** Elements that take one character. */
  predicate Takes(e: Elem) {
    e.AnyChar? || e.CommonChar? || e.CharSet? || e.NegSet?
  }

  ghost predicate Fits(e: Elem, c: char)
    requires Takes(e)
  {
    match e
    case AnyChar => true
    case CommonChar => c != '.'
    case CharSet(cs) => InSet(c, cs)
    case NegSet(cs) => !InSet(c, cs)
  }

  lemma CharRest(es: seq<Elem>, k: nat, line: string, s: nat)
    requires k < |es| - 1 && Takes(es[k])
    ensures Rest(es, k, line, s) <==> s < |line| && Fits(es[k], line[s]) && Rest(es, k + 1, line, s + 1)
  {
    hide Rest, InSet;
    OnlyPiece(es, k, line, s, s + 1);
  }

  lemma NumberRest(es: seq<Elem>, k: nat, line: string, s: nat)
    requires k < |es| - 1 && es[k].NumRange? && s <= |line|
    ensures Rest(es, k, line, s) <==>
            IsDigit(At(line, s)) && WithinLimits(NumberAt(line, s), es[k].lo, es[k].up)
            && Rest(es, k + 1, line, DigitsEnd(line, s))
    ensures IsDigit(At(line, s)) ==> NumberAt(line, s) >= 0
  {
    hide Rest, Value;
    var e := DigitsEnd(line, s);
    forall i: nat | Piece(es[k], line, s, i) ensures i == e {
      DigitsEndIs(line, s, i);
    }
    OnlyPiece(es, k, line, s, e);
  }

  /** The sequence at element `k` may end at `m`, and the rest of the pattern spans the line from there. */
  ghost predicate AfterSeq(es: seq<Elem>, k: nat, line: string, s: nat, m: nat)
    requires k < |es| - 1
  {
    s <= m <= |line| && Rest(es, k + 1, line, m)
    && (es[k] == CommonSeq ==> forall i :: s <= i < m ==> line[i] != '.')
  }

  lemma SeqRest(es: seq<Elem>, k: nat, line: string, s: nat)
    requires k < |es| - 1 && (es[k] == AnySeq || es[k] == CommonSeq)
    ensures Rest(es, k, line, s) <==> exists m: nat :: AfterSeq(es, k, line, s, m)
  {
    hide Rest;
    RestStep(es, k, line, s);
    if Rest(es, k, line, s) {
      var m: nat :| Piece(es[k], line, s, m) && Rest(es, k + 1, line, m);
      assert AfterSeq(es, k, line, s, m);
    }
    if m: nat :| AfterSeq(es, k, line, s, m) {
      assert Piece(es[k], line, s, m);
    }
  }

  lemma EndRest(es: seq<Elem>, k: nat, line: string, s: nat)
    requires k == |es| - 1
    ensures Rest(es, k, line, s) <==> s == |line|
  {
    assert es[k..|es| - 1] == [];
  }

  lemma DotsSeen(line: string, sensitive: bool)
    ensures forall i :: 0 <= i < |line| ==> (Seen(line, sensitive)[i] == '.' <==> line[i] == '.')
  {
  }

  /** A sequence at the pattern's end takes whatever is left. */
  lemma AnythingRest(es: seq<Elem>, k: nat, line: string, s: nat)
    requires k == |es| - 2 && es[k] == AnySeq && s <= |line|
    ensures Rest(es, k, line, s)
  {
    assert es[k..|es| - 1] == [AnySeq];
    SpansOne(AnySeq, line, s, |line|);
  }

  /** A sequence and a literal at the pattern's end take whatever ends in the literal. */
  lemma SuffixRest(es: seq<Elem>, k: nat, line: string, s: nat)
    requires k == |es| - 3 && es[k] == AnySeq && es[k + 1].Literal? && s <= |line|
    ensures Rest(es, k, line, s) <==> EndsWith(line, s, es[k + 1].str)
  {
    var str := es[k + 1].str;
    SeqRest(es, k, line, s);
    assert es[k + 1..|es| - 1] == [es[k + 1]];
    forall m: nat | s <= m <= |line|
      ensures Rest(es, k + 1, line, m) <==> line[m..] == str
    {
      SpansOne(es[k + 1], line, m, |line|);
      assert line[m..|line|] == line[m..];
    }
    if EndsWith(line, s, str) {
      assert AfterSeq(es, k, line, s, |line| - |str|);
    }
    if m: nat :| AfterSeq(es, k, line, s, m) {
      assert |line[m..]| == |str|;
    }
  }

  // ----- The same for tokens and line as they are compared -----

  /** The rest of the pattern spans the rest of the line, as they are compared. */
  ghost predicate Agree(es: seq<Elem>, sensitive: bool, cut: nat, k: nat, line: string, s: nat)
    requires k < |es| && Cuttable(es, cut)
  {
    Rest(Compared(es, sensitive, cut), k, Seen(line, sensitive), s)
  }

  lemma LiteralAgrees(es: seq<Elem>, sensitive: bool, cut: nat, k: nat, line: string, s: nat)
    requires k < |es| - 1 && Cuttable(es, cut) && es[k].Literal? && (StarLiteral(es) ==> k <= |es| - 3)
    ensures var len := |es[k].str| - if k == |es| - 2 then cut else 0;
      0 <= len
      && (Agree(es, sensitive, cut, k, line, s) <==>
          StartsAt(Seen(line, sensitive), s, Seen(es[k].str[..len], sensitive))
          && Agree(es, sensitive, cut, k + 1, line, s + len))
  {
    hide Rest, Seen;
    LiteralRest(Compared(es, sensitive, cut), k, Seen(line, sensitive), s);
    assert es[k].str[..|es[k].str|] == es[k].str;
  }

  lemma CharAgrees(es: seq<Elem>, sensitive: bool, cut: nat, k: nat, line: string, s: nat)
    requires k < |es| - 1 && Cuttable(es, cut) && Takes(es[k])
    ensures Agree(es, sensitive, cut, k, line, s) <==>
      s < |line| && Fits(es[k], SeenChar(line[s], sensitive)) && Agree(es, sensitive, cut, k + 1, line, s + 1)
    ensures s < |line| ==> (SeenChar(line[s], sensitive) == '.' <==> line[s] == '.')
  {
    hide Rest, Fits, Upper;
    CharRest(Compared(es, sensitive, cut), k, Seen(line, sensitive), s);
  }

  lemma NumberAgrees(es: seq<Elem>, sensitive: bool, cut: nat, k: nat, line: string, s: nat)
    requires k < |es| - 1 && Cuttable(es, cut) && es[k].NumRange? && s <= |line|
    ensures Agree(es, sensitive, cut, k, line, s) <==>
      IsDigit(At(line, s)) && WithinLimits(NumberAt(line, s), es[k].lo, es[k].up)
      && Agree(es, sensitive, cut, k + 1, line, DigitsEnd(line, s))
    ensures IsDigit(At(line, s)) ==> NumberAt(line, s) >= 0
  {
    hide Rest, Seen, NumberAt, DigitsEnd;
    NumberRest(Compared(es, sensitive, cut), k, Seen(line, sensitive), s);
    SeenDigits(line, s, sensitive);
  }

  lemma AnythingAgrees(es: seq<Elem>, sensitive: bool, cut: nat, k: nat, line: string, s: nat)
    requires k == |es| - 2 && Cuttable(es, cut) && es[k] == AnySeq && s <= |line|
    ensures Agree(es, sensitive, cut, k, line, s)
  {
    hide Rest;
    AnythingRest(Compared(es, sensitive, cut), k, Seen(line, sensitive), s);
  }

  lemma EndAgrees(es: seq<Elem>, sensitive: bool, cut: nat, k: nat, line: string, s: nat)
    requires k < |es| && Cuttable(es, cut) && es[k] == End && Terminated(es)
    ensures Agree(es, sensitive, cut, k, line, s) <==> s == |line|
  {
    hide Rest;
    assert k == |es| - 1;
    EndRest(Compared(es, sensitive, cut), k, Seen(line, sensitive), s);
  }

  /** So with tokens that end like this, the shortcut asks for the literal itself at the end of the line. */
  lemma ShortcutRest(es: seq<Elem>, line: string, s: nat, sensitive: bool, cut: nat)
    requires StarLiteral(es) && Cuttable(es, cut) && s <= |line|
    ensures Agree(es, sensitive, cut, |es| - 3, line, s) && EndsExactly(es, line)
       <==> EndsWith(line, s, es[|es| - 2].str)
  {
    hide Rest, Upper;
    SuffixRest(Compared(es, sensitive, cut), |es| - 3, Seen(line, sensitive), s);
    SeenEnding(line, s, es[|es| - 2].str, sensitive);
  }

  lemma RestIsSpans(es: seq<Elem>, line: string)
    requires es != []
    ensures Rest(es, 0, line, 0) <==> Spans(es[..|es| - 1], line, 0, |line|)
  {
    assert es[0..|es| - 1] == es[..|es| - 1];
  }

  /** A line that a pattern spans ends in the pattern's last literal. */
  lemma LastLiteral(es: seq<Elem>, line: string)
    requires es != [] && es[|es| - 1].Literal? && Spans(es, line, 0, |line|)
    ensures EndsWith(line, 0, es[|es| - 1].str)
  {
    hide Piece, Spans, EndsWith;
    var front, last := es[..|es| - 1], es[|es| - 1];
    assert es == front + [last];
    var k := SpansSplit(front, [last], line, 0, |line|);
    SpansOne(last, line, k, |line|);
    LiteralPiece(last, line, k);
  }

  lemma LiteralPiece(e: Elem, line: string, k: nat)
    requires e.Literal? && Piece(e, line, k, |line|)
    ensures EndsWith(line, 0, e.str)
  {
    assert |line[k..|line|]| == |e.str|;
    assert line[k..|line|] == line[k..];
  }

  lemma NoMoreUnits(s: CString, dotted: bool, literalBefore: bool, es: seq<Elem>)
    ensures Prepend(es, Joined(Tail(s, |s|, dotted, literalBefore))) == Ok(es)
    ensures forall o: Outcome :: Prepend([], o) == o
  {
  }

  /** The unit at a wildcard or a range in braces. */
  lemma WildcardAt(s: CString, i: nat, dotted: bool)
    requires i < |s|
    ensures s[i] == '?' ==> UnitAt(s, i, dotted) == Unit([if dotted then CommonChar else AnyChar], i + 1)
    ensures s[i] == '*' && At(s, i + 1) == '*' ==> UnitAt(s, i, dotted) == Unit([AnySeq], i + 2)
    ensures s[i] == '*' && At(s, i + 1) != '*' ==>
      UnitAt(s, i, dotted) == Unit([if dotted then CommonSeq else AnySeq], i + 1)
    ensures var r := RangeAt(s, i, '}');
      s[i] == '{' && r.Range? ==> UnitAt(s, i, dotted) == Unit([NumRange(r.lo, r.up)], r.close + 1)
  {
  }

  lemma SetUnread(s: CString, i: nat, dotted: bool)
    requires i < |s| && UnitAt(s, i, dotted) == BadSet
    ensures Units(s, i, dotted) == Unmatched
  {
  }

  /** A token other than a literal, taken from the text or left by the literal before it. */
  lemma OtherToken(s: CString, i: nat, dotted: bool, literalBefore: bool, es: seq<Elem>, e: Elem, next: nat)
    requires i < |s| && !e.Literal? && next <= |s|
    requires if Pending(s, i, literalBefore)
      then RangeAt(s, i, ']').close == next && e == NumRange(RangeAt(s, i, ']').lo, RangeAt(s, i, ']').up)
      else UnitAt(s, i, dotted) == Unit([e], next)
    ensures Prepend(es, Joined(Tail(s, i, dotted, literalBefore))) == Prepend(es + [e], Joined(Units(s, next, dotted)))
  {
    hide Units, UnitAt, RangeAt, Joined;
    if !Pending(s, i, literalBefore) { UnitFirst(s, i, dotted, e, next); }
    PushOther(es, e, Units(s, next, dotted));
  }

  ghost predicate Terminated(es: seq<Elem>) {
    es != [] && es[|es| - 1] == End && forall i :: 0 <= i < |es| - 1 ==> Kept(es[i])
  }

  ghost predicate AllKept(es: seq<Elem>) {
    forall i :: 0 <= i < |es| ==> Kept(es[i])
  }

  lemma NoneKept(sensitive: bool)
    ensures AllKept([]) && KeptAll([], sensitive) == []
  {
  }

  lemma KeptPush(es: seq<Elem>, e: Elem)
    requires AllKept(es) && Kept(e)
    ensures AllKept(es + [e])
  {
  }

  /** Not the end mark; a set has its ranges whole. */
  predicate Kept(e: Elem) {
    e != End && (e.CharSet? || e.NegSet? ==> |e.setchars| % 2 == 0)
  }

  lemma KeptMore(es: seq<Elem>, e: Elem, sensitive: bool)
    ensures KeptAll(es + [e], sensitive) == KeptAll(es, sensitive) + [KeptElem(e, sensitive)]
    ensures !e.CharSet? && !e.NegSet? ==> KeptElem(e, sensitive) == e
    ensures LiteralLast(KeptAll(es + [e], sensitive)) <==> e.Literal?
  {
  }
}

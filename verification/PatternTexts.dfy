/** The text of a glob pattern, read one unit at a time. */
module PatternTexts {
  import opened CStrings
  import opened Patterns

  /** A C string: no character in it is the terminating one. */
  type CString = s: string | '\0' !in s

  /** Where the run of digits at `i` ends. */
  function DigitsEnd(s: string, i: nat): (e: nat)
    requires i <= |s|
    ensures i <= e <= |s| && (forall k :: i <= k < e ==> IsDigit(s[k])) && (e < |s| ==> !IsDigit(s[e]))
    decreases |s| - i
  {
    if i < |s| && IsDigit(s[i]) then DigitsEnd(s, i + 1) else i
  }

  lemma {:induction false} DigitsEndIs(s: string, i: nat, e: nat)
    requires i <= e <= |s| && (forall k :: i <= k < e ==> IsDigit(s[k])) && (e < |s| ==> !IsDigit(s[e]))
    ensures DigitsEnd(s, i) == e
    decreases e - i
  {
    if i < e { DigitsEndIs(s, i + 1, e); }
  }

  /** The number at `i`, or -1 where there is none. */
  function NumberAt(s: string, i: nat): int
    requires i <= |s|
  {
    if DigitsEnd(s, i) > i then Value(s[i..DigitsEnd(s, i)]) else -1
  }

  datatype Range = NoRange | Range(lo: int, up: int, close: nat)

  /** A numeric range n..m between the bracket at `i` and the closing character; either number may be left out. */
  function RangeAt(s: CString, i: nat, closing: char): (r: Range)
    requires i < |s| && closing != '\0'
    ensures r.Range? ==> i + 2 < r.close < |s| && s[r.close] == closing
  {
    var a := DigitsEnd(s, i + 1);
    if At(s, a) != '.' || At(s, a + 1) != '.' then NoRange
    else
      var b := DigitsEnd(s, a + 2);
      if At(s, b) != closing then NoRange else Range(NumberAt(s, i + 1), NumberAt(s, a + 2), b)
  }

  predicate AllDigits(d: string) {
    forall k :: 0 <= k < |d| ==> IsDigit(d[k])
  }

  function Limit(d: string): int
    requires AllDigits(d)
  {
    if d == "" then -1 else Value(d)
  }

  /** A range as it is written, with either number or both left out, is read with its own limits. */
  lemma RangeReads(before: string, opening: char, lo: string, up: string, closing: char, after: string)
    requires closing != '\0' && !IsDigit(closing) && AllDigits(lo) && AllDigits(up)
    requires '\0' !in before + [opening] + lo + ".." + up + [closing] + after
    ensures var s := before + [opening] + lo + ".." + up + [closing] + after;
      RangeAt(s, |before|, closing) == Range(Limit(lo), Limit(up), |before| + |lo| + |up| + 3)
  {
    var s := before + [opening] + lo + ".." + up + [closing] + after;
    var i := |before| + 1;
    var a, b := i + |lo|, i + |lo| + 2 + |up|;
    assert s[i..a] == lo && s[a] == '.' && s[a + 1] == '.' && s[a + 2..b] == up && s[b] == closing;
    forall k | i <= k < a ensures IsDigit(s[k]) { assert s[k] == s[i..a][k - i]; }
    forall k | a + 2 <= k < b ensures IsDigit(s[k]) { assert s[k] == s[a + 2..b][k - a - 2]; }
    DigitsEndIs(s, i, a);
    DigitsEndIs(s, a + 2, b);
  }

  datatype SetText = Unclosed | Closed(chars: string, close: nat)

  /** The characters of a set from `i` on: ranges as they are, single characters as ranges of one. */
  function SetAt(s: CString, i: nat, first: bool): (r: SetText)
    requires i <= |s|
    ensures r.Closed? ==> i <= r.close < |s| && s[r.close] == '}' && |r.chars| % 2 == 0
    decreases |s| - i
  {
    if i == |s| then Unclosed
    else if s[i] == '}' && !first then Closed("", i)
    else
      var wide := At(s, i + 1) == '-' && At(s, i + 2) != '\0' && At(s, i + 2) != '}';
      var rest := SetAt(s, if wide then i + 3 else i + 1, false);
      if rest.Unclosed? then Unclosed
      else Closed((if wide then [s[i], s[i + 2]] else [s[i], s[i]]) + rest.chars, rest.close)
  }

  function Onto(chars: string, t: SetText): SetText {
    if t.Unclosed? then t else Closed(chars + t.chars, t.close)
  }

  lemma SetStep(s: CString, i: nat, first: bool, before: string)
    requires i < |s| && (s[i] != '}' || first)
    ensures var wide := At(s, i + 1) == '-' && At(s, i + 2) != '\0' && At(s, i + 2) != '}';
      Onto(before, SetAt(s, i, first)) ==
        Onto(before + (if wide then [s[i], At(s, i + 2)] else [s[i], s[i]]),
             SetAt(s, if wide then i + 3 else i + 1, false))
  {
    hide SetAt;
    var wide := At(s, i + 1) == '-' && At(s, i + 2) != '\0' && At(s, i + 2) != '}';
    var rest := SetAt(s, if wide then i + 3 else i + 1, false);
    var here := if wide then [s[i], At(s, i + 2)] else [s[i], s[i]];
    SetUnfolds(s, i, first);
    if rest.Closed? {
      assert before + (here + rest.chars) == (before + here) + rest.chars;
    }
  }

  lemma SetEnds(s: CString, i: nat, first: bool)
    requires i <= |s| && (i < |s| ==> s[i] == '}' && !first)
    ensures SetAt(s, i, first) == if i == |s| then Unclosed else Closed("", i)
  {
  }

  lemma SetUnfolds(s: CString, i: nat, first: bool)
    requires i < |s| && (s[i] != '}' || first)
    ensures var wide := At(s, i + 1) == '-' && At(s, i + 2) != '\0' && At(s, i + 2) != '}';
      SetAt(s, i, first) ==
        Onto(if wide then [s[i], At(s, i + 2)] else [s[i], s[i]], SetAt(s, if wide then i + 3 else i + 1, false))
  {
  }

  // ----- Sets as they are written -----

  datatype SetItem = Single(c: char) | Between(lo: char, hi: char)

  function Written(item: SetItem): string {
    match item
    case Single(c) => [c]
    case Between(lo, hi) => [lo, '-', hi]
  }

  function AllWritten(items: seq<SetItem>): string {
    if items == [] then "" else Written(items[0]) + AllWritten(items[1..])
  }

  function Ends(item: SetItem): string {
    match item
    case Single(c) => [c, c]
    case Between(lo, hi) => [lo, hi]
  }

  function AllEnds(items: seq<SetItem>): string {
    if items == [] then "" else Ends(items[0]) + AllEnds(items[1..])
  }

  /** No closing brace among the characters, and no single character that a dash behind it would make a range. */
  ghost predicate Readable(items: seq<SetItem>) {
    (forall i :: 0 <= i < |items| ==> '}' !in Written(items[i]) && '\0' !in Written(items[i]))
    && forall i :: 0 <= i < |items| - 1 && items[i].Single? ==> Written(items[i + 1])[0] != '-'
  }

  /** A set as it is written is read item by item. */
  lemma {:induction false} SetReads(before: string, items: seq<SetItem>, after: string, first: bool)
    requires Readable(items) && (first ==> items != [])
    requires '\0' !in before + AllWritten(items) + "}" + after
    ensures var s := before + AllWritten(items) + "}" + after;
      SetAt(s, |before|, first) == Closed(AllEnds(items), |before| + |AllWritten(items)|)
    decreases |items|
  {
    hide SetAt;
    var s: CString := before + AllWritten(items) + "}" + after;
    if items == [] {
      assert s[|before|] == '}';
      SetEnds(s, |before|, first);
    } else {
      var w, rest := Written(items[0]), items[1..];
      assert before + w + AllWritten(rest) + "}" + after == s;
      forall i | 0 <= i < |rest| ensures rest[i] == items[i + 1] {
      }
      SetReads(before + w, rest, after, false);
      ItemAt(s, before, items, after);
      SetUnfolds(s, |before|, first);
    }
  }

  lemma ItemAt(s: CString, before: string, items: seq<SetItem>, after: string)
    requires items != [] && Readable(items) && s == before + AllWritten(items) + "}" + after
    ensures |before| < |s| && s[|before|] == Written(items[0])[0] != '}'
    ensures items[0].Single? ==> At(s, |before| + 1) != '-'
    ensures items[0].Between? ==>
      At(s, |before| + 1) == '-' && At(s, |before| + 2) == items[0].hi && items[0].hi !in {'\0', '}'}
  {
    var w, tail := Written(items[0]), AllWritten(items[1..]) + "}" + after;
    assert s == before + w + tail;
    CharactersAt(s, before, w, tail);
    assert w[0] in w && w[|w| - 1] in w;
    if |items| > 1 { assert Written(items[1])[0] == AllWritten(items[1..])[0] == tail[0]; }
  }

  lemma CharactersAt(s: string, before: string, w: string, tail: string)
    requires s == before + w + tail && tail != ""
    ensures forall k {:trigger w[k]} :: 0 <= k < |w| ==> s[|before| + k] == w[k]
    ensures |before| + |w| < |s| && s[|before| + |w|] == tail[0]
  {
  }

  ghost predicate Covers(item: SetItem, c: char) {
    match item
    case Single(d) => c == d
    case Between(lo, hi) => lo <= c <= hi
  }

  lemma {:induction false} EndsAt(items: seq<SetItem>, k: nat)
    requires k < |items|
    ensures |AllEnds(items)| == 2 * |items|
    ensures [AllEnds(items)[2 * k], AllEnds(items)[2 * k + 1]] == Ends(items[k])
  {
    if |items| > 1 { EndsAt(items[1..], if k == 0 then 0 else k - 1); }
  }

  lemma RangeCovers(items: seq<SetItem>, c: char, k: nat)
    requires k < |items|
    ensures |AllEnds(items)| == 2 * |items| && (InRange(c, AllEnds(items), k) <==> Covers(items[k], c))
  {
    EndsAt(items, k);
    var es := AllEnds(items);
    assert es[2 * k] == Ends(items[k])[0] && es[2 * k + 1] == Ends(items[k])[1];
  }

  /** A character is in the set that is kept exactly when one of the items written covers it. */
  lemma SetCovers(items: seq<SetItem>, c: char)
    ensures InSet(c, AllEnds(items)) <==> exists k :: 0 <= k < |items| && Covers(items[k], c)
  {
    hide AllEnds, Covers;
    AllEndsLength(items);
    if k: nat :| InRange(c, AllEnds(items), k) {
      RangeCovers(items, c, k);
    }
    if k :| 0 <= k < |items| && Covers(items[k], c) {
      RangeCovers(items, c, k);
    }
  }

  lemma AllEndsLength(items: seq<SetItem>)
    ensures |AllEnds(items)| == 2 * |items|
  {
    if items != [] { EndsAt(items, 0); }
  }

  /** What a pattern text comes to; `Overrun` is a lone backslash at its end, where the program reads on. */
  datatype Outcome = Ok(elems: seq<Elem>) | Unmatched | Overrun

  datatype Unit = Unit(elems: seq<Elem>, next: nat) | BadSet | LoneBackslash

  /** The unit at `i`: a character, a wildcard, a set, a range, or a bracket with the range that follows it. */
  function UnitAt(s: CString, i: nat, dotted: bool): (u: Unit)
    requires i < |s|
    ensures u.Unit? ==> i < u.next <= |s|
  {
    match s[i]
    case '?' => Unit([if dotted then CommonChar else AnyChar], i + 1)
    case '*' =>
      if At(s, i + 1) == '*' then Unit([AnySeq], i + 2)
      else Unit([if dotted then CommonSeq else AnySeq], i + 1)
    case '{' =>
      var r := RangeAt(s, i, '}');
      if r.Range? then Unit([NumRange(r.lo, r.up)], r.close + 1) else
        var negated := At(s, i + 1) == '^';
        var t := SetAt(s, if negated then i + 2 else i + 1, true);
        if t.Unclosed? then BadSet
        else Unit([if negated then NegSet(t.chars) else CharSet(t.chars)], t.close + 1)
    case '\\' =>
      if i + 1 == |s| then LoneBackslash else PlainAt(s, i + 1)
    case _ => PlainAt(s, i)
  }

  /** A plain character; a bracket that opens a range brings the range along. */
  function PlainAt(s: CString, i: nat): (u: Unit)
    requires i < |s|
    ensures u.Unit? && i < u.next <= |s|
  {
    var r := if s[i] == '[' then RangeAt(s, i, ']') else NoRange;
    if r.Range? then Unit([Literal([s[i]]), NumRange(r.lo, r.up)], r.close) else Unit([Literal([s[i]])], i + 1)
  }

  function Prepend(es: seq<Elem>, o: Outcome): Outcome {
    if o.Ok? then Ok(es + o.elems) else o
  }

  /** All units from `i` on. */
  function Units(s: CString, i: nat, dotted: bool): Outcome
    requires i <= |s|
    decreases |s| - i
  {
    if i == |s| then Ok([]) else
      var u := UnitAt(s, i, dotted);
      match u
      case BadSet => Unmatched
      case LoneBackslash => Overrun
      case Unit(es, next) => Prepend(es, Units(s, next, dotted))
  }

  // ----- Literal strings, as the tokenizer gathers them -----

  datatype Run = Run(chars: string, next: nat) | RunOff

  predicate Plain(c: char) {
    c != '?' && c != '{' && c != '*'
  }

  /** The characters up to the next wildcard, or up to and with a bracket that opens a range. */
  function RunAt(s: CString, i: nat): (r: Run)
    requires i <= |s|
    ensures r.Run? ==> i <= r.next <= |s|
    decreases |s| - i
  {
    if i == |s| || !Plain(s[i]) then Run("", i)
    else if s[i] == '\\' && i + 1 == |s| then RunOff
    else
      var p := if s[i] == '\\' then i + 1 else i;
      if s[p] == '[' && RangeAt(s, p, ']').Range? then Run([s[p]], p)
      else
        var rest := RunAt(s, p + 1);
        if rest.RunOff? then RunOff else Run([s[p]] + rest.chars, rest.next)
  }

  function Before(chars: string, r: Run): Run {
    if r.RunOff? then r else Run(chars + r.chars, r.next)
  }

  lemma RunEnds(s: CString, i: nat)
    requires i <= |s|
    ensures i == |s| || !Plain(s[i]) ==> RunAt(s, i) == Run("", i)
    ensures i < |s| && s[i] == '\\' && i + 1 == |s| ==> RunAt(s, i) == RunOff
  {
  }

  lemma RunStepOn(s: CString, i: nat, p: nat, before: string)
    requires i <= p < |s| && Plain(s[i]) && p == (if s[i] == '\\' then i + 1 else i)
    ensures Before(before, RunAt(s, i)) ==
      if s[p] == '[' && RangeAt(s, p, ']').Range? then Run(before + [s[p]], p)
      else Before(before + [s[p]], RunAt(s, p + 1))
  {
    hide RangeAt;
    var rest := RunAt(s, p + 1);
    if rest.Run? { assert before + ([s[p]] + rest.chars) == (before + [s[p]]) + rest.chars; }
  }

  /** A range that the literal before it, ending in the bracket, has left to be read. */
  predicate Pending(s: CString, i: nat, literalBefore: bool) {
    literalBefore && i < |s| && s[i] == '[' && RangeAt(s, i, ']').Range?
  }

  /** The units still to come. */
  function Tail(s: CString, i: nat, dotted: bool, literalBefore: bool): Outcome
    requires i <= |s|
  {
    if Pending(s, i, literalBefore) then
      var r := RangeAt(s, i, ']');
      Prepend([NumRange(r.lo, r.up)], Units(s, r.close, dotted))
    else
      Units(s, i, dotted)
  }

  /** Nothing literal comes next. */
  predicate Settled(s: CString, i: nat, literalBefore: bool)
    requires i <= |s|
  {
    i == |s| || !Plain(s[i]) || Pending(s, i, literalBefore)
  }

  function Joined(o: Outcome): Outcome {
    if o.Ok? then Ok(Merged(o.elems)) else o
  }

  /** After a literal run the next token is none. */
  lemma SettledHead(s: CString, i: nat, dotted: bool, literalBefore: bool)
    requires i <= |s| && Settled(s, i, literalBefore)
    ensures var o := Tail(s, i, dotted, literalBefore);
      o.Ok? && o.elems != [] ==> !o.elems[0].Literal?
  {
    if i < |s| && !Pending(s, i, literalBefore) {
      var u := UnitAt(s, i, dotted);
      assert u.Unit? ==> |u.elems| == 1 && !u.elems[0].Literal?;
    }
  }

  /** Merging starts with the first element alone unless it and the next are literals. */
  lemma MergedHead(u: Elem, us: seq<Elem>)
    ensures !u.Literal? || us == [] || !us[0].Literal? ==> Merged([u] + us) == [u] + Merged(us)
    ensures u.Literal? && us != [] && us[0].Literal? ==>
      Merged(us)[0].Literal? && Merged([u] + us) == [Literal(u.str + Merged(us)[0].str)] + Merged(us)[1..]
  {
    assert ([u] + us)[1..] == us;
    if us != [] { MergedFirst(us); }
  }

  lemma MergedFirst(us: seq<Elem>)
    requires us != []
    ensures Merged(us) != [] && (Merged(us)[0].Literal? <==> us[0].Literal?)
  {
  }

  /** A literal run is the units it covers, joined. */
  ghost predicate RunReads(s: CString, i: nat, dotted: bool, r: Run)
    requires i <= |s| && (r.Run? ==> r.next <= |s|)
  {
    match r
    case RunOff => Units(s, i, dotted) == Overrun
    case Run(chars, next) =>
      chars != "" && Settled(s, next, true)
      && Joined(Units(s, i, dotted)) == Prepend([Literal(chars)], Joined(Tail(s, next, dotted, true)))
  }

  lemma {:induction false} RunIsMerged(s: CString, i: nat, dotted: bool)
    requires i < |s| && Plain(s[i])
    ensures RunReads(s, i, dotted, RunAt(s, i))
    decreases |s| - i
  {
    hide Merged, RangeAt;
    if s[i] == '\\' && i + 1 == |s| { return; }
    var p := if s[i] == '\\' then i + 1 else i;
    assert UnitAt(s, i, dotted) == PlainAt(s, p);
    var c := Literal([s[p]]);
    if s[p] == '[' && RangeAt(s, p, ']').Range? {
      var after := Tail(s, p, dotted, true);
      if after.Ok? {
        MergedHead(c, after.elems);
        assert Units(s, i, dotted).elems == [c] + after.elems;
      }
    } else {
      assert Units(s, i, dotted) == Prepend([c], Units(s, p + 1, dotted));
      var rest := RunAt(s, p + 1);
      assert RunAt(s, i) == if rest.RunOff? then RunOff else Run([s[p]] + rest.chars, rest.next);
      if p + 1 < |s| && Plain(s[p + 1]) { RunIsMerged(s, p + 1, dotted); }
      RunStep(s, i, p, dotted);
    }
  }

  lemma RunStep(s: CString, i: nat, p: nat, dotted: bool)
    requires i <= p < |s|
    requires Units(s, i, dotted) == Prepend([Literal([s[p]])], Units(s, p + 1, dotted))
    requires var rest := RunAt(s, p + 1);
      RunAt(s, i) == if rest.RunOff? then RunOff else Run([s[p]] + rest.chars, rest.next)
    requires p + 1 < |s| && Plain(s[p + 1]) ==> RunReads(s, p + 1, dotted, RunAt(s, p + 1))
    ensures RunReads(s, i, dotted, RunAt(s, i))
  {
    hide Merged, RangeAt, UnitAt, Units;
    var c, after := Literal([s[p]]), Units(s, p + 1, dotted);
    if p + 1 == |s| || !Plain(s[p + 1]) {
      SettledHead(s, p + 1, dotted, true);
      assert [s[p]] + "" == [s[p]];
      assert !Pending(s, p + 1, true);
      if after.Ok? { MergedHead(c, after.elems); }
    } else if after.Ok? {
      JoinHead(c, after.elems);
    }
  }

  lemma JoinHead(u: Elem, us: seq<Elem>)
    requires u.Literal? && Merged(us) != [] && Merged(us)[0].Literal?
    ensures Merged([u] + us) == [Literal(u.str + Merged(us)[0].str)] + Merged(us)[1..]
  {
    if us != [] {
      MergedFirst(us);
      MergedHead(u, us);
    }
  }

  // ----- Tokens pushed -----

  lemma UnitFirst(s: CString, i: nat, dotted: bool, e: Elem, next: nat)
    requires i < |s| && UnitAt(s, i, dotted) == Unit([e], next)
    ensures Units(s, i, dotted) == Prepend([e], Units(s, next, dotted))
  {
  }

  lemma PushOther(es: seq<Elem>, e: Elem, rest: Outcome)
    requires !e.Literal?
    ensures Prepend(es, Joined(Prepend([e], rest))) == Prepend(es + [e], Joined(rest))
  {
    hide Merged;
    if rest.Ok? {
      MergedHead(e, rest.elems);
      assert es + ([e] + Merged(rest.elems)) == (es + [e]) + Merged(rest.elems);
    }
  }

  lemma PushLiteral(s: CString, i: nat, dotted: bool, es: seq<Elem>)
    requires i < |s| && Plain(s[i])
    ensures var r := RunAt(s, i);
      match r
      case RunOff => Units(s, i, dotted) == Overrun
      case Run(chars, next) =>
        Settled(s, next, true) && (next == i ==> Pending(s, i, true))
        && Prepend(es, Joined(Units(s, i, dotted))) ==
           Prepend(es + [Literal(chars)], Joined(Tail(s, next, dotted, true)))
  {
    hide Merged, RangeAt, UnitAt, Units;
    RunIsMerged(s, i, dotted);
    var r := RunAt(s, i);
    if r.Run? && Tail(s, r.next, dotted, true).Ok? {
      var t := Merged(Tail(s, r.next, dotted, true).elems);
      assert es + ([Literal(r.chars)] + t) == (es + [Literal(r.chars)]) + t;
    }
  }
}

/** The elements of a glob pattern and the lines they stand for. */
module Patterns {
  /** One element of a tokenized pattern; `setchars` holds the two ends of each range one after the other. */
  datatype Elem =
    | Literal(str: string)
    | AnyChar
    | CommonChar
    | CharSet(setchars: string)
    | NegSet(setchars: string)
    | NumRange(lo: int, up: int)
    | AnySeq
    | CommonSeq
    | End

  predicate IsDigit(c: char) {
    '0' <= c <= '9'
  }

  /** The number that a run of digits writes. */
  function Value(s: string): nat
    requires forall k :: 0 <= k < |s| ==> IsDigit(s[k])
  {
    if s == "" then 0 else
      assert IsDigit(s[|s| - 1]);
      10 * Value(s[..|s| - 1]) + (s[|s| - 1] as int - '0' as int)
  }

  ghost predicate InSet(c: char, setchars: string) {
    exists k: nat :: InRange(c, setchars, k)
  }

  predicate InRange(c: char, setchars: string, k: nat) {
    2 * k + 1 < |setchars| && setchars[2 * k] <= c <= setchars[2 * k + 1]
  }

  predicate WithinLimits(n: nat, lo: int, up: int) {
    (lo >= 0 ==> n >= lo) && (up >= 0 ==> n <= up)
  }

  /** The piece of the line from `j` to `m` is one that the element stands for. A number is a whole run of digits. */
  ghost predicate Piece(e: Elem, line: string, j: nat, m: nat) {
    j <= m <= |line|
    && match e
      case Literal(str) => line[j..m] == str
      case AnyChar => m == j + 1
      case CommonChar => m == j + 1 && line[j] != '.'
      case CharSet(cs) => m == j + 1 && InSet(line[j], cs)
      case NegSet(cs) => m == j + 1 && !InSet(line[j], cs)
      case NumRange(lo, up) =>
        j < m && (forall k :: j <= k < m ==> IsDigit(line[k])) && (m < |line| ==> !IsDigit(line[m]))
        && WithinLimits(Value(line[j..m]), lo, up)
      case AnySeq => true
      case CommonSeq => forall k :: j <= k < m ==> line[k] != '.'
      case End => j == m == |line|
  }

  /** The line from `j` to `m` falls into consecutive pieces, one for each element. */
  ghost predicate Spans(es: seq<Elem>, line: string, j: nat, m: nat) {
    if es == [] then j == m <= |line|
    else exists k: nat :: Piece(es[0], line, j, k) && Spans(es[1..], line, k, m)
  }

  /** The same, said with all the cuts at once. */
  ghost predicate Cut(es: seq<Elem>, line: string, cuts: seq<nat>) {
    |cuts| == |es| + 1 && cuts[|es|] <= |line|
    && forall i :: 0 <= i < |es| ==> Piece(es[i], line, cuts[i], cuts[i + 1])
  }

  lemma {:induction false} SpansCuts(es: seq<Elem>, line: string, j: nat, m: nat) returns (cuts: seq<nat>)
    requires Spans(es, line, j, m)
    ensures Cut(es, line, cuts) && cuts[0] == j && cuts[|es|] == m
  {
    if es == [] {
      cuts := [j];
    } else {
      var k: nat :| Piece(es[0], line, j, k) && Spans(es[1..], line, k, m);
      var rest := SpansCuts(es[1..], line, k, m);
      cuts := [j] + rest;
      forall i | 0 <= i < |es| ensures Piece(es[i], line, cuts[i], cuts[i + 1]) {
        if i > 0 { assert es[1..][i - 1] == es[i]; }
      }
    }
  }

  lemma {:induction false} CutsSpan(es: seq<Elem>, line: string, cuts: seq<nat>)
    requires Cut(es, line, cuts)
    ensures Spans(es, line, cuts[0], cuts[|es|])
  {
    if es != [] {
      forall i | 0 <= i < |es[1..]| ensures Piece(es[1..][i], line, cuts[1..][i], cuts[1..][i + 1]) {
        assert es[1..][i] == es[i + 1];
      }
      CutsSpan(es[1..], line, cuts[1..]);
      assert Piece(es[0], line, cuts[0], cuts[1]);
    }
  }

  /** A line is in the language of an element list exactly when it can be cut into pieces for the elements. */
  lemma SpansIffCut(es: seq<Elem>, line: string)
    ensures Spans(es, line, 0, |line|) <==>
            exists cuts :: Cut(es, line, cuts) && cuts[0] == 0 && cuts[|es|] == |line|
  {
    if Spans(es, line, 0, |line|) {
      var cuts := SpansCuts(es, line, 0, |line|);
    }
    if cuts :| Cut(es, line, cuts) && cuts[0] == 0 && cuts[|es|] == |line| {
      CutsSpan(es, line, cuts);
    }
  }

  // ----- Element lists put together -----

  lemma {:induction false} SpansSplit(a: seq<Elem>, b: seq<Elem>, line: string, j: nat, m: nat) returns (k: nat)
    requires Spans(a + b, line, j, m)
    ensures Spans(a, line, j, k) && Spans(b, line, k, m)
  {
    if a == [] {
      assert a + b == b;
      SpansBounds(b, line, j, m);
      k := j;
    } else {
      assert (a + b)[1..] == a[1..] + b;
      var i: nat :| Piece(a[0], line, j, i) && Spans(a[1..] + b, line, i, m);
      k := SpansSplit(a[1..], b, line, i, m);
    }
  }

  lemma {:induction false} SpansJoin(a: seq<Elem>, b: seq<Elem>, line: string, j: nat, k: nat, m: nat)
    requires Spans(a, line, j, k) && Spans(b, line, k, m)
    ensures Spans(a + b, line, j, m)
  {
    if a == [] {
      assert a + b == b;
    } else {
      assert (a + b)[1..] == a[1..] + b;
      var i: nat :| Piece(a[0], line, j, i) && Spans(a[1..], line, i, k);
      SpansJoin(a[1..], b, line, i, k, m);
    }
  }

  lemma {:induction false} SpansBounds(es: seq<Elem>, line: string, j: nat, m: nat)
    requires Spans(es, line, j, m)
    ensures j <= m <= |line|
  {
    if es != [] {
      var k: nat :| Piece(es[0], line, j, k) && Spans(es[1..], line, k, m);
      SpansBounds(es[1..], line, k, m);
    }
  }

  lemma SpansOne(e: Elem, line: string, j: nat, m: nat)
    ensures Spans([e], line, j, m) <==> Piece(e, line, j, m)
  {
    assert [e][1..] == [];
    if Piece(e, line, j, m) {
      assert Spans([e][1..], line, m, m);
    }
  }

  // ----- Runs of literals made one -----

  /** Neighbouring literals joined. */
  function Merged(us: seq<Elem>): seq<Elem> {
    if us == [] then []
    else
      var rest := Merged(us[1..]);
      if us[0].Literal? && rest != [] && rest[0].Literal? then
        [Literal(us[0].str + rest[0].str)] + rest[1..]
      else
        [us[0]] + rest
  }

  lemma TwoLiterals(x: string, y: string, line: string, j: nat, m: nat)
    ensures Piece(Literal(x + y), line, j, m) <==>
            Piece(Literal(x), line, j, j + |x|) && Piece(Literal(y), line, j + |x|, m)
  {
    if Piece(Literal(x + y), line, j, m) {
      assert line[j..m][..|x|] == x && line[j..m][|x|..] == y;
      assert line[j..m][..|x|] == line[j..j + |x|] && line[j..m][|x|..] == line[j + |x|..m];
    }
    if Piece(Literal(x), line, j, j + |x|) && Piece(Literal(y), line, j + |x|, m) {
      assert line[j..m] == line[j..j + |x|] + line[j + |x|..m];
    }
  }

  /** Joining literals changes no language. */
  lemma {:induction false} MergedSpans(us: seq<Elem>, line: string, j: nat, m: nat)
    ensures Spans(Merged(us), line, j, m) <==> Spans(us, line, j, m)
  {
    if us != [] {
      var rest := Merged(us[1..]);
      forall k: nat ensures Spans(rest, line, k, m) <==> Spans(us[1..], line, k, m) {
        MergedSpans(us[1..], line, k, m);
      }
      HeadSpans(us[0], rest, us[1..], line, j, m);
      if us[0].Literal? && rest != [] && rest[0].Literal? {
        JoinedSpans(us[0].str, rest[0].str, rest[1..], line, j, m);
        assert [rest[0]] + rest[1..] == rest;
      }
      assert us == [us[0]] + us[1..];
    }
  }

  lemma HeadSpans(u: Elem, a: seq<Elem>, b: seq<Elem>, line: string, j: nat, m: nat)
    requires forall k: nat :: Spans(a, line, k, m) <==> Spans(b, line, k, m)
    ensures Spans([u] + a, line, j, m) <==> Spans([u] + b, line, j, m)
  {
    assert ([u] + a)[1..] == a && ([u] + b)[1..] == b;
  }

  lemma JoinedSpans(x: string, y: string, rest: seq<Elem>, line: string, j: nat, m: nat)
    ensures Spans([Literal(x + y)] + rest, line, j, m) <==>
            Spans([Literal(x)] + ([Literal(y)] + rest), line, j, m)
  {
    var one, two := [Literal(x + y)] + rest, [Literal(x)] + ([Literal(y)] + rest);
    assert one[1..] == rest && two[1..] == [Literal(y)] + rest && two[1..][1..] == rest;
    if Spans(one, line, j, m) {
      var k: nat :| Piece(one[0], line, j, k) && Spans(rest, line, k, m);
      TwoLiterals(x, y, line, j, k);
      assert Spans(two[1..], line, j + |x|, m);
    }
    if Spans(two, line, j, m) {
      var i: nat :| Piece(two[0], line, j, i) && Spans(two[1..], line, i, m);
      var k: nat :| Piece(two[1..][0], line, i, k) && Spans(rest, line, k, m);
      assert i == j + |x| by { assert |line[j..i]| == |x|; }
      TwoLiterals(x, y, line, j, k);
      assert Piece(one[0], line, j, k) && Spans(one[1..], line, k, m);
    }
  }

  // ----- Full-string and substring patterns -----

  function OpenEnd(es: seq<Elem>): seq<Elem> {
    if es == [] || es[|es| - 1] != AnySeq then es + [AnySeq] else es
  }

  function OpenStart(es: seq<Elem>): seq<Elem>
    requires es != []
  {
    if es[0] != AnySeq then [AnySeq] + es else es
  }

  /** The tokens as they are kept: opened at both ends for a match anywhere, and closed by an end mark. */
  ghost function Closing(es: seq<Elem>, fullstring: bool): seq<Elem> {
    (if fullstring then es else OpenStart(OpenEnd(es))) + [End]
  }

  /** The lines a pattern is for: those it spans, or those with a stretch that it spans. */
  ghost predicate InLanguage(es: seq<Elem>, fullstring: bool, line: string) {
    if fullstring then Spans(es, line, 0, |line|)
    else exists a: nat, b: nat :: Spans(es, line, a, b)
  }

  /** For a match anywhere in the line, any sequence is let in at both ends, unless it is there. */
  lemma OpenedLanguage(es: seq<Elem>, line: string)
    ensures Spans(OpenStart(OpenEnd(es)), line, 0, |line|) <==> InLanguage(es, false, line)
  {
    hide Spans, OpenStart;
    if Spans(OpenStart(OpenEnd(es)), line, 0, |line|) {
      var a := Started(OpenEnd(es), line);
      var b := Ended(es, line, a);
    }
    if exists a: nat, b: nat :: Spans(es, line, a, b) {
      var a: nat, b: nat :| Spans(es, line, a, b);
      ToEnd(es, line, a, b);
      ToStart(OpenEnd(es), line, a);
    }
  }

  lemma Ended(es: seq<Elem>, line: string, i: nat) returns (b: nat)
    requires Spans(OpenEnd(es), line, i, |line|)
    ensures Spans(es, line, i, b)
  {
    if es == [] || es[|es| - 1] != AnySeq {
      b := SpansSplit(es, [AnySeq], line, i, |line|);
    } else {
      b := |line|;
    }
  }

  lemma ToEnd(es: seq<Elem>, line: string, i: nat, b: nat)
    requires Spans(es, line, i, b)
    ensures Spans(OpenEnd(es), line, i, |line|)
  {
    var front, k := es, b;
    if es != [] && es[|es| - 1] == AnySeq {
      front := es[..|es| - 1];
      assert es == front + [AnySeq];
      k := SpansSplit(front, [AnySeq], line, i, b);
    }
    SpansBounds(front, line, i, k);
    SpansOne(AnySeq, line, k, |line|);
    SpansJoin(front, [AnySeq], line, i, k, |line|);
  }

  lemma Started(es: seq<Elem>, line: string) returns (i: nat)
    requires es != [] && Spans(OpenStart(es), line, 0, |line|)
    ensures Spans(es, line, i, |line|)
  {
    if es[0] != AnySeq {
      i := SpansSplit([AnySeq], es, line, 0, |line|);
    } else {
      i := 0;
    }
  }

  lemma ToStart(es: seq<Elem>, line: string, i: nat)
    requires es != [] && Spans(es, line, i, |line|)
    ensures Spans(OpenStart(es), line, 0, |line|)
  {
    var rest, k := es, i;
    if es[0] == AnySeq {
      rest := es[1..];
      assert es == [AnySeq] + rest;
      k := SpansSplit([AnySeq], rest, line, i, |line|);
    }
    SpansBounds(rest, line, k, |line|);
    SpansOne(AnySeq, line, 0, k);
    SpansJoin([AnySeq], rest, line, 0, k, |line|);
  }
}

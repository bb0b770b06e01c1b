/** Reassembly of a fragmented datagram. */
module Reassembly {
  type U16 = n: int | 0 <= n < 0x1_0000

  /** The offsets from `beg` up to but not including `end`. */
  datatype Region = Region(beg: U16, end: U16, islast: bool)

  /** What the buffer holds: the stretch put together so far and the fragments set aside. */
  datatype Held = Held(main: Region, aside: seq<Region>)

  ghost predicate Has(received: set<Region>, x: int) {
    exists r :: r in received && r.beg <= x < r.end
  }

  /** A fragment that the stretch has no use for yet: neither next to it nor within it. */
  predicate Waits(main: Region, r: Region) {
    main.end != r.beg && main.beg != r.end && !(main.beg <= r.beg && main.end >= r.end)
  }

  /** A fragment that is set aside, or of which the stretch already has the start. */
  ghost predicate Kept(h: Held, r: Region) {
    r in h.aside || r.beg < h.main.end || r.end <= h.main.end
  }

  /** A fragment where the stretch ends, which has made it the last stretch if it is the last fragment. */
  ghost predicate EndsMain(main: Region, r: Region) {
    r.end == main.end && (r.islast ==> main.islast)
  }

  /** The stretch is of received offsets, and nothing received has been lost. */
  ghost predicate Holds(h: Held, received: set<Region>) {
    h.main.beg == 0
    && (forall r :: r in received ==> r.beg <= r.end)
    && (forall f :: f in h.aside ==> f in received)
    && (forall x :: 0 <= x < h.main.end ==> Has(received, x))
    && (h.main.islast ==> exists r :: r in received && r.islast && r.end <= h.main.end)
    && (forall r :: r in received ==> Kept(h, r))
    && (h.main.end > 0 ==> exists r :: r in received && EndsMain(h.main, r))
  }

  ghost predicate AllWait(h: Held) {
    forall f :: f in h.aside ==> Waits(h.main, f)
  }

  /** The stretch extended by a received fragment that begins where it ends. */
  function Extended(main: Region, r: Region): Region {
    Region(main.beg, r.end, main.islast || r.islast)
  }

  lemma ExtendHolds(h: Held, received: set<Region>, r: Region, aside: seq<Region>)
    requires Holds(h, received) && r in received && r.beg == h.main.end
    requires forall f :: f in aside ==> f in h.aside
    requires forall f :: f in h.aside ==> f in aside || f == r
    ensures Holds(Held(Extended(h.main, r), aside), received)
  {
    var h' := Held(Extended(h.main, r), aside);
    forall x | 0 <= x < h'.main.end ensures Has(received, x) {
      if x < h.main.end { assert Has(received, x); }
    }
    forall f | f in received ensures Kept(h', f) {
      assert Kept(h, f);
    }
    assert EndsMain(h'.main, r);
    if h.main.islast {
      var f :| f in received && f.islast && f.end <= h.main.end;
      assert f.end <= h'.main.end;
    }
  }

  /** A fragment within the stretch, or an empty one before it, may be forgotten. */
  lemma ForgetHolds(h: Held, received: set<Region>, r: Region, aside: seq<Region>)
    requires Holds(h, received) && r.end <= h.main.end
    requires forall f :: f in aside ==> f in h.aside
    requires forall f :: f in h.aside ==> f in aside || f == r
    ensures Holds(Held(h.main, aside), received)
  {
    forall f | f in received ensures Kept(Held(h.main, aside), f) {
      assert Kept(h, f);
    }
  }

  class ReassemblyBuffer {
    var main: Region
    var fragments: seq<Region>
    ghost var received: set<Region>

    ghost predicate Valid()
      reads this
    {
      Holds(Held(main, fragments), received) && AllWait(Held(main, fragments))
    }

    constructor ()
      ensures Valid() && received == {} && main == Region(0, 0, false) && fragments == []
    {
      main, fragments, received := Region(0, 0, false), [], {};
    }

    /** Takes a fragment, and tells whether everything from offset 0 to the last fragment is there. */
    method AddFragment(beg: U16, end: U16, islast: bool) returns (complete: bool)
      requires Valid() && beg <= end
      modifies this
      ensures Valid() && received == old(received) + {Region(beg, end, islast)}
      ensures complete <==> main.islast
      ensures complete ==> forall x :: 0 <= x < main.end ==> Has(received, x)
      ensures complete ==> exists r :: r in received && r.islast && r.end <= main.end
    {
      Merge(beg, end, islast);
      complete := main.beg == 0 && main.islast;
    }

    method Merge(beg: U16, end: U16, islast: bool)
      requires Valid() && beg <= end
      modifies this
      ensures Valid() && received == old(received) + {Region(beg, end, islast)}
    {
      var r := Region(beg, end, islast);
      ghost var h, before := Held(main, fragments), received;
      received := received + {r};
      if main.end == beg {
        ArriveHolds(h, before, r, h.aside + [r]);
        ExtendHolds(Held(h.main, h.aside + [r]), received, r, fragments);
        main := main.(end := end);
        if islast { main := main.(islast := true); }
        MergeFragments();
      } else if main.beg == end {
        ArriveHolds(h, before, r, fragments);
        main := main.(beg := beg);
        MergeFragments();
      } else if main.end < beg || main.beg > end {
        fragments := fragments + [r];
        ArriveHolds(h, before, r, fragments);
      } else {
        ArriveHolds(h, before, r, fragments);
      }
    }

    /** Takes in what has become adjacent, and deletes what is there already, until nothing changes. */
    method MergeFragments()
      requires Holds(Held(main, fragments), received)
      modifies this`main, this`fragments
      ensures Valid()
    {
      var oncemore := true;
      while oncemore
        invariant Holds(Held(main, fragments), received)
        invariant !oncemore ==> AllWait(Held(main, fragments))
        decreases |fragments|, oncemore
      {
        oncemore := false;
        ghost var size := |fragments|;
        var i := 0;
        while i < |fragments|
          invariant i <= |fragments| <= size
          invariant Holds(Held(main, fragments), received)
          invariant if oncemore then |fragments| < size else forall f :: f in fragments[..i] ==> Waits(main, f)
          decreases |fragments| - i
        {
          var deleteit, frag := false, fragments[i];
          ghost var h, without := Held(main, fragments), fragments[..i] + fragments[i + 1..];
          Without(fragments, i);
          if main.end == frag.beg {
            ExtendHolds(h, received, frag, without);
            main := main.(end := frag.end);
            if frag.islast { main := main.(islast := true); }
            deleteit := true;
          } else if main.beg == frag.end {
            ForgetHolds(h, received, frag, without);
            main := main.(beg := frag.beg);
            deleteit := true;
          } else if main.beg <= frag.beg && main.end >= frag.end {
            ForgetHolds(h, received, frag, without);
            deleteit := true;
          }
          if deleteit {
            fragments := fragments[..i] + fragments[i + 1..];
            oncemore := true;
          } else {
            i := i + 1;
          }
        }
      }
    }
  }

  lemma Without(s: seq<Region>, i: nat)
    requires i < |s|
    ensures var w := s[..i] + s[i + 1..];
      (forall f :: f in w ==> f in s) && (forall f :: f in s ==> f in w || f == s[i])
  {
    var w := s[..i] + s[i + 1..];
    forall f | f in s ensures f in w || f == s[i] {
      var k :| 0 <= k < |s| && s[k] == f;
      if k < i { assert w[k] == f; }
      if k > i { assert w[k - 1] == f; }
    }
  }

  /** A new fragment, set aside or of which the stretch already has the start. */
  lemma ArriveHolds(h: Held, received: set<Region>, r: Region, aside: seq<Region>)
    requires Holds(h, received) && r.beg <= r.end
    requires aside == h.aside || aside == h.aside + [r]
    requires r in aside || r.beg < h.main.end || r.end <= h.main.end
    ensures Holds(Held(h.main, aside), received + {r})
  {
    forall x | 0 <= x < h.main.end ensures Has(received + {r}, x) {
      assert Has(received, x);
      var f :| f in received && f.beg <= x < f.end;
      assert f in received + {r};
    }
    forall f | f in received + {r} ensures Kept(Held(h.main, aside), f) {
      if f in received { assert Kept(h, f); }
    }
  }

  // ----- A datagram cut into pieces -----

  /** The places where a datagram is cut, from 0 to its length. */
  ghost predicate Split(cuts: seq<U16>) {
    |cuts| >= 2 && cuts[0] == 0 && forall i, j :: 0 <= i < j < |cuts| ==> cuts[i] < cuts[j]
  }

  function Piece(cuts: seq<U16>, i: nat): Region
    requires i < |cuts| - 1
  {
    Region(cuts[i], cuts[i + 1], i == |cuts| - 2)
  }

  ghost predicate IsPiece(cuts: seq<U16>, r: Region) {
    exists i: nat :: i < |cuts| - 1 && r == Piece(cuts, i)
  }

  ghost predicate Arrived(cuts: seq<U16>, received: set<Region>, i: nat) {
    i < |cuts| - 1 && Piece(cuts, i) in received
  }

  /** The stretch is the longest prefix of pieces that have all arrived; aside are the pieces beyond it. */
  ghost predicate Exact(h: Held, received: set<Region>, cuts: seq<U16>, m: nat) {
    m < |cuts| && h.main.beg == 0 && h.main.end == cuts[m]
    && (forall i: nat :: i < m ==> Arrived(cuts, received, i)) && !Arrived(cuts, received, m)
    && (forall r :: r in h.aside <==> exists i: nat :: i > m && Arrived(cuts, received, i) && r == Piece(cuts, i))
    && (h.main.islast <==> m == |cuts| - 1)
  }

  /** Whatever the order in which pieces have arrived, and however often, the buffer's state is exact. */
  lemma PiecesInAnyOrder(h: Held, received: set<Region>, cuts: seq<U16>) returns (m: nat)
    requires Split(cuts) && Holds(h, received) && AllWait(h)
    requires forall r :: r in received ==> IsPiece(cuts, r)
    ensures Exact(h, received, cuts, m)
    ensures h.main.islast <==> forall i: nat :: i < |cuts| - 1 ==> Arrived(cuts, received, i)
    ensures h.main.islast ==> h.main.end == cuts[|cuts| - 1]
  {
    m := EndIsCut(h, received, cuts);
    forall i: nat | i < m ensures Arrived(cuts, received, i) {
      CoveredPiece(h, received, cuts, m, i);
    }
    NextNotArrived(h, received, cuts, m);
    forall r ensures r in h.aside <==> exists i: nat :: i > m && Arrived(cuts, received, i) && r == Piece(cuts, i) {
      AsideIsBeyond(h, received, cuts, m, r);
    }
    LastAtEnd(h, received, cuts, m);
  }

  lemma EndIsCut(h: Held, received: set<Region>, cuts: seq<U16>) returns (m: nat)
    requires Split(cuts) && Holds(h, received) && forall r :: r in received ==> IsPiece(cuts, r)
    ensures m < |cuts| && h.main.end == cuts[m]
  {
    if h.main.end == 0 {
      m := 0;
    } else {
      var r :| r in received && EndsMain(h.main, r);
      assert IsPiece(cuts, r);
      var i: nat :| i < |cuts| - 1 && r == Piece(cuts, i);
      m := i + 1;
    }
  }

  lemma CoveredPiece(h: Held, received: set<Region>, cuts: seq<U16>, m: nat, i: nat)
    requires Split(cuts) && Holds(h, received) && (forall r :: r in received ==> IsPiece(cuts, r))
    requires i < m < |cuts| && h.main.end == cuts[m]
    ensures Arrived(cuts, received, i)
  {
    assert cuts[i] < cuts[m];
    assert Has(received, cuts[i]);
    var r :| r in received && r.beg <= cuts[i] < r.end;
    assert IsPiece(cuts, r);
    var k: nat :| k < |cuts| - 1 && r == Piece(cuts, k);
    assert k == i;
  }

  lemma NextNotArrived(h: Held, received: set<Region>, cuts: seq<U16>, m: nat)
    requires Split(cuts) && Holds(h, received) && AllWait(h) && m < |cuts| && h.main.end == cuts[m]
    ensures !Arrived(cuts, received, m)
  {
    if m < |cuts| - 1 {
      var r := Piece(cuts, m);
      assert r in received ==> Kept(h, r);
      assert r in h.aside ==> Waits(h.main, r);
    }
  }

  lemma CutsRise(cuts: seq<U16>)
    requires Split(cuts)
    ensures forall i, j :: 0 <= i <= j < |cuts| ==> cuts[i] <= cuts[j]
  {
  }

  lemma AsideIsBeyond(h: Held, received: set<Region>, cuts: seq<U16>, m: nat, r: Region)
    requires Split(cuts) && Holds(h, received) && AllWait(h) && m < |cuts| && h.main.end == cuts[m]
    requires forall f :: f in received ==> IsPiece(cuts, f)
    ensures r in h.aside <==> exists i: nat :: i > m && Arrived(cuts, received, i) && r == Piece(cuts, i)
  {
    CutsRise(cuts);
    if r in h.aside {
      assert IsPiece(cuts, r) && Waits(h.main, r);
      var i: nat :| i < |cuts| - 1 && r == Piece(cuts, i);
      assert Arrived(cuts, received, i);
    }
    if i: nat :| i > m && Arrived(cuts, received, i) && r == Piece(cuts, i) {
      assert Kept(h, r) && cuts[m] < cuts[i] < cuts[i + 1];
    }
  }

  lemma LastAtEnd(h: Held, received: set<Region>, cuts: seq<U16>, m: nat)
    requires Split(cuts) && Holds(h, received) && m < |cuts| && h.main.end == cuts[m]
    requires forall f :: f in received ==> IsPiece(cuts, f)
    ensures h.main.islast <==> m == |cuts| - 1
  {
    if h.main.islast {
      var r :| r in received && r.islast && r.end <= h.main.end;
      assert IsPiece(cuts, r);
    }
    if m == |cuts| - 1 {
      assert cuts[0] < cuts[m];
      var r :| r in received && EndsMain(h.main, r);
      LastPiece(cuts, r);
    }
  }

  lemma LastPiece(cuts: seq<U16>, r: Region)
    requires Split(cuts) && IsPiece(cuts, r) && r.end == cuts[|cuts| - 1]
    ensures r.islast
  {
    var i: nat :| i < |cuts| - 1 && r == Piece(cuts, i);
    assert i + 1 == |cuts| - 1;
  }

  /** So two buffers that have been given the same pieces agree, whatever the orders. */
  lemma OrderDoesNotMatter(h: Held, h': Held, received: set<Region>, cuts: seq<U16>)
    requires Split(cuts) && Holds(h, received) && AllWait(h) && Holds(h', received) && AllWait(h')
    requires forall r :: r in received ==> IsPiece(cuts, r)
    ensures h.main == h'.main && forall r :: r in h.aside <==> r in h'.aside
  {
    hide Holds, AllWait;
    var m := PiecesInAnyOrder(h, received, cuts);
    var m' := PiecesInAnyOrder(h', received, cuts);
  }
}

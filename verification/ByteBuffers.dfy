/** A buffer of byte chunks that behaves as one flat sequence of bytes. */
module ByteBuffers {
  type Byte = n: int | 0 <= n < 256

  /** A 32-bit length or offset. */
  type Size = n: int | 0 <= n < 0x1_0000_0000

  const WRAP: int := 0x1_0000_0000

  /** The bytes of all chunks, in order. */
  function Flat(chunks: seq<seq<Byte>>): seq<Byte> {
    if chunks == [] then [] else chunks[0] + Flat(chunks[1..])
  }

  function Min(a: int, b: int): (r: int)
    ensures r <= a && r <= b && (r == a || r == b)
  {
    if a < b then a else b
  }

  /** How many bytes there are to copy from an offset on. */
  function Available(bytes: seq<Byte>, n: nat, offset: nat): (r: nat)
    ensures r <= n && (r == 0 || offset + r <= |bytes|) && (r == n || offset + r >= |bytes|)
  {
    if offset >= |bytes| then 0 else Min(n, |bytes| - offset)
  }

  lemma {:induction false} FlatPush(chunks: seq<seq<Byte>>, c: seq<Byte>)
    ensures Flat(chunks + [c]) == Flat(chunks) + c
  {
    if chunks == [] {
      assert chunks + [c] == [c] && [c][1..] == [];
    } else {
      FlatPush(chunks[1..], c);
      assert (chunks + [c])[1..] == chunks[1..] + [c];
    }
  }

  /** How many bytes the program takes from a chunk: the sum of offset and length is taken in 32 bits. */
  function Taken(size: Size, length: Size, offset: Size): Size {
    if offset >= size then 0 else if (offset + length) % WRAP > size then size - offset else length
  }

  /** Whether that sum does not wrap round where it matters. */
  predicate StaysInside(size: Size, length: Size, offset: Size) {
    offset >= size || offset + length < WRAP
  }

  /** The bytes taken lie within the chunk exactly when the sum does not wrap round, and then they are all there are. */
  lemma CopyStaysInside(size: Size, length: Size, offset: Size)
    ensures StaysInside(size, length, offset) <==> (offset < size ==> offset + Taken(size, length, offset) <= size)
    ensures StaysInside(size, length, offset) ==>
      Taken(size, length, offset) == if offset >= size then 0 else Min(length, size - offset)
  {
  }

  /** The offset within the chunk that it falls into; 0 behind the last chunk. */
  function Local(chunks: seq<seq<Byte>>, offset: nat): nat {
    if chunks == [] then 0
    else if offset < |chunks[0]| then offset else Local(chunks[1..], offset - |chunks[0]|)
  }

  lemma {:induction false} LocalZero(chunks: seq<seq<Byte>>)
    ensures Local(chunks, 0) == 0
  {
    if chunks != [] && |chunks[0]| == 0 { LocalZero(chunks[1..]); }
  }

  class ByteArray {
    var data: seq<Byte>

    constructor ()
      ensures data == []
    {
      data := [];
    }

    method SetDataFromBuffer(buffer: array<Byte>, length: Size)
      requires length <= buffer.Length
      modifies this
      ensures data == buffer[..length]
    {
      data := buffer[..length];
    }

    /** Copies up to `length` bytes from an offset into the buffer at `at`. */
    method CopyDataToBuffer(buffer: array<Byte>, at: nat, length: Size, offset: Size) returns (copied: Size)
      requires |data| < WRAP && at + length <= buffer.Length
      requires StaysInside(|data|, length, offset)
      modifies buffer
      ensures copied == Available(data, length, offset)
      ensures var piece := if offset < |data| then data[offset..offset + copied] else [];
        buffer[..] == old(buffer[..at]) + piece + old(buffer[at + copied..])
    {
      if offset >= |data| {
        assert buffer[..] == buffer[..at] + [] + buffer[at..];
        return 0;
      }
      CopyStaysInside(|data|, length, offset);
      copied := length;
      if (offset + length) % WRAP > |data| {
        copied := |data| - offset;
      }
      forall k | 0 <= k < copied {
        buffer[at + k] := data[offset + k];
      }
    }

    /** Cuts bytes off at the left. */
    method TruncateData(left: Size)
      requires left <= |data|
      modifies this
      ensures data == old(data)[left..]
    {
      if left != 0 {
        data := data[left..];
      }
    }
  }

  class ByteArrayBuffer {
    var dataLength: nat
    var dataList: seq<ByteArray>
    ghost var chunks: seq<seq<Byte>>

    /** The chunks are the objects of the list, each an object of its own. */
    ghost predicate Valid()
      reads this, dataList
    {
      |chunks| == |dataList|
      && (forall i :: 0 <= i < |dataList| ==> dataList[i].data == chunks[i] && |chunks[i]| < WRAP)
      && (forall i, j :: 0 <= i < j < |dataList| ==> dataList[i] != dataList[j])
      && dataLength == |Flat(chunks)|
    }

    ghost function Contents(): seq<Byte>
      reads this
    {
      Flat(chunks)
    }

    constructor ()
      ensures Valid() && Contents() == []
    {
      dataLength, dataList, chunks := 0, [], [];
    }

    /** Appends a copy of the byte array. */
    method Push(bytes: ByteArray)
      requires Valid() && |bytes.data| < WRAP
      modifies this
      ensures Valid() && Contents() == old(Contents()) + bytes.data
    {
      var copy := new ByteArray();
      copy.data := bytes.data;
      FlatPush(chunks, copy.data);
      dataList := dataList + [copy];
      chunks := chunks + [copy.data];
      dataLength := dataLength + |bytes.data|;
    }

    method PushBuffer(buffer: array<Byte>, length: Size)
      requires Valid() && length <= buffer.Length
      modifies this
      ensures Valid() && Contents() == old(Contents()) + buffer[..length]
    {
      var bytes := new ByteArray();
      dataList := dataList + [bytes];
      bytes.SetDataFromBuffer(buffer, length);
      FlatPush(chunks, bytes.data);
      chunks := chunks + [bytes.data];
      dataLength := dataLength + length;
    }

    /** Copies bytes from an offset on, chunk by chunk, and leaves the rest of the buffer as it was. */
    method GetBytesToBuffer(buffer: array<Byte>, length: Size, offset: Size) returns (copied: Size)
      requires Valid() && length <= buffer.Length
      requires Local(chunks, offset) + length < WRAP
      modifies buffer
      ensures copied == Available(Contents(), length, offset)
      ensures copied > 0 ==> buffer[..copied] == Contents()[offset..offset + copied]
      ensures buffer[copied..] == old(buffer[copied..])
    {
      hide Copying, Flat, Local;
      var src: Size, i := offset, 0;
      copied := 0;
      CopyStarts(chunks, offset, length, buffer[..copied]);
      while copied < length && i < |dataList|
        invariant i <= |dataList| && copied <= length
        invariant Valid() && buffer[copied..] == old(buffer[copied..])
        invariant Copying(chunks, offset, length, i, src, copied, buffer[..copied])
      {
        ghost var before := buffer[..];
        CopyWithin(chunks, offset, length, i, src, copied, buffer[..copied]);
        var bytes := dataList[i].CopyDataToBuffer(buffer, copied, length - copied, src);
        RoundCopies(chunks, offset, length, i, src, copied, before, bytes, buffer[..]);
        if bytes != 0 {
          copied := copied + bytes;
          src := 0;
        } else {
          src := src - |dataList[i].data|;
        }
        i := i + 1;
      }
      CopyEnds(chunks, offset, length, i, src, copied, buffer[..copied]);
    }

    /** Moves bytes out into the buffer. */
    method PopBytesToBuffer(buffer: array<Byte>, length: Size) returns (popped: Size)
      requires Valid() && length <= buffer.Length
      modifies this, buffer, dataList
      ensures Valid() && popped == Min(length, |old(Contents())|)
      ensures buffer[..popped] == old(Contents())[..popped] && Contents() == old(Contents())[popped..]
      ensures buffer[popped..] == old(buffer[popped..])
    {
      LocalZero(chunks);
      popped := GetBytesToBuffer(buffer, length, 0);
      var dropped := Drop(popped);
    }

    /** Drops bytes from the front: whole chunks, empty ones too, and then part of one. */
    method Drop(length: Size) returns (dropped: Size)
      requires Valid() && length <= dataLength
      modifies this, dataList
      ensures Valid() && dropped == length && Contents() == old(Contents())[length..]
    {
      var left := length;
      ghost var all := Contents();
      while left > 0
        invariant Valid() && 0 <= left <= length && left <= dataLength
        invariant Contents()[left..] == all[length..]
        invariant forall b :: b in dataList ==> b in old(dataList)
        decreases left, |dataList|
      {
        FirstChunk(chunks, left);
        assert dataList[0] in dataList;
        var slice := |dataList[0].data|;
        if slice <= left {
          dataList := dataList[1..];
          chunks := chunks[1..];
          dataLength := dataLength - slice;
          left := left - slice;
        } else {
          dataList[0].TruncateData(left);
          chunks := [chunks[0][left..]] + chunks[1..];
          dataLength := dataLength - left;
          left := 0;
        }
      }
      dropped := length;
    }

    method Clear()
      requires Valid()
      modifies this
      ensures Valid() && Contents() == []
    {
      dataLength := 0;
      while dataList != []
        invariant dataLength == 0
        decreases |dataList|
      {
        dataList := dataList[1..];
      }
      chunks := [];
    }
  }

  /**
   * With the chunks before `i` looked at: the bytes copied are those from the offset on, and unless that is
   * enough, the next one is at `src` in the chunks from `i` on.
   */
  ghost predicate Copying(chunks: seq<seq<Byte>>, offset: nat, length: nat, i: nat, src: nat, copied: nat,
                          done: seq<Byte>)
  {
    i <= |chunks| && |done| == copied
    && (copied > 0 ==> offset + copied <= |Flat(chunks)| && done == Flat(chunks)[offset..offset + copied])
    && (copied < length ==> offset + copied == |Flat(chunks)| - |Flat(chunks[i..])| + src && (copied > 0 ==> src == 0))
    && (copied == 0 ==> Local(chunks[i..], src) == Local(chunks, offset))
  }

  lemma {:induction false} FlatSuffix(chunks: seq<seq<Byte>>, i: nat)
    requires i <= |chunks|
    ensures |Flat(chunks[i..])| <= |Flat(chunks)|
    ensures Flat(chunks)[|Flat(chunks)| - |Flat(chunks[i..])|..] == Flat(chunks[i..])
  {
    if i == 0 {
      assert chunks[0..] == chunks;
    } else {
      FlatSuffix(chunks[1..], i - 1);
      assert chunks[1..][i - 1..] == chunks[i..];
      var f, g, t := Flat(chunks), Flat(chunks[1..]), Flat(chunks[i..]);
      assert f == chunks[0] + g;
      assert f[|f| - |t|..] == g[|g| - |t|..];
    }
  }

  lemma CopyStarts(chunks: seq<seq<Byte>>, offset: nat, length: nat, done: seq<Byte>)
    requires done == []
    ensures Copying(chunks, offset, length, 0, offset, 0, done)
  {
    assert chunks[0..] == chunks;
  }

  /** A chunk that the offset lies behind is passed. */
  lemma ChunkPassed(chunks: seq<seq<Byte>>, offset: nat, length: nat, i: nat, src: nat, copied: nat, done: seq<Byte>)
    requires Copying(chunks, offset, length, i, src, copied, done) && copied < length && i < |chunks|
      && src >= |chunks[i]|
    ensures Copying(chunks, offset, length, i + 1, src - |chunks[i]|, copied, done)
  {
    assert chunks[i..][0] == chunks[i] && chunks[i..][1..] == chunks[i + 1..];
  }

  /** From the chunk that the offset falls into, the bytes go on where those copied end. */
  lemma ChunkTaken(chunks: seq<seq<Byte>>, offset: nat, length: nat, i: nat, src: nat, copied: nat, done: seq<Byte>,
                   n: nat)
    requires Copying(chunks, offset, length, i, src, copied, done) && copied < length && i < |chunks|
      && src < |chunks[i]|
    requires n == Min(length - copied, |chunks[i]| - src)
    ensures Copying(chunks, offset, length, i + 1, 0, copied + n, done + chunks[i][src..src + n])
  {
    var f, t := Flat(chunks), Flat(chunks[i..]);
    FlatSuffix(chunks, i);
    assert chunks[i..][0] == chunks[i] && chunks[i..][1..] == chunks[i + 1..];
    SliceOfSuffix(f, t, chunks[i], src, n);
    SlicesJoin(f, offset, copied, n, done, chunks[i][src..src + n]);
  }

  lemma SlicesJoin(f: seq<Byte>, offset: nat, copied: nat, n: nat, done: seq<Byte>, more: seq<Byte>)
    requires offset + copied + n <= |f| && |done| == copied
    requires copied > 0 ==> done == f[offset..offset + copied]
    requires more == f[offset + copied..offset + copied + n]
    ensures done + more == f[offset..offset + copied + n]
  {
  }

  lemma SliceOfSuffix(f: seq<Byte>, t: seq<Byte>, c: seq<Byte>, src: nat, n: nat)
    requires |t| <= |f| && f[|f| - |t|..] == t && c <= t && src + n <= |c|
    ensures c[src..src + n] == f[|f| - |t| + src..|f| - |t| + src + n]
  {
    assert c[src..src + n] == t[src..src + n];
  }

  /** One round: what the chunk has goes behind what has been copied, and the rest of the buffer stays. */
  lemma RoundCopies(chunks: seq<seq<Byte>>, offset: nat, length: nat, i: nat, src: nat, copied: nat,
                    before: seq<Byte>, n: nat, after: seq<Byte>)
    requires copied < length <= |before| && i < |chunks|
      && Copying(chunks, offset, length, i, src, copied, before[..copied])
    requires n == Available(chunks[i], length - copied, src)
    requires after ==
      before[..copied] + (if src < |chunks[i]| then chunks[i][src..src + n] else []) + before[copied + n..]
    ensures n == 0 ==> src >= |chunks[i]|
    ensures n == 0 ==> Copying(chunks, offset, length, i + 1, src - |chunks[i]|, copied, after[..copied])
    ensures n != 0 ==> Copying(chunks, offset, length, i + 1, 0, copied + n, after[..copied + n])
    ensures after[copied + n..] == before[copied + n..] && copied + n <= length
  {
    hide Copying, Flat, Local;
    if src < |chunks[i]| {
      ChunkTaken(chunks, offset, length, i, src, copied, before[..copied], n);
      assert after[..copied + n] == before[..copied] + chunks[i][src..src + n];
    } else {
      ChunkPassed(chunks, offset, length, i, src, copied, before[..copied]);
      assert after[..copied] == before[..copied];
    }
  }

  lemma CopyWithin(chunks: seq<seq<Byte>>, offset: nat, length: nat, i: nat, src: nat, copied: nat, done: seq<Byte>)
    requires Copying(chunks, offset, length, i, src, copied, done) && copied < length < WRAP && i < |chunks|
    requires Local(chunks, offset) + length < WRAP
    ensures src >= |chunks[i]| || src + (length - copied) < WRAP
  {
    assert chunks[i..][0] == chunks[i];
  }

  lemma CopyEnds(chunks: seq<seq<Byte>>, offset: nat, length: nat, i: nat, src: nat, copied: nat, done: seq<Byte>)
    requires Copying(chunks, offset, length, i, src, copied, done) && copied <= length
      && (copied == length || i == |chunks|)
    ensures copied == Available(Flat(chunks), length, offset)
    ensures copied > 0 ==> done == Flat(chunks)[offset..offset + copied]
  {
    assert i == |chunks| ==> chunks[i..] == [];
  }

  /** While bytes are left there is a first chunk, and what is left of the contents goes on in it or behind it. */
  lemma FirstChunk(chunks: seq<seq<Byte>>, left: nat)
    requires 0 < left <= |Flat(chunks)|
    ensures chunks != []
    ensures var c := chunks[0];
      (|c| <= left ==> |Flat(chunks[1..])| == |Flat(chunks)| - |c|
                       && Flat(chunks[1..])[left - |c|..] == Flat(chunks)[left..])
      && (|c| > left ==> Flat([c[left..]] + chunks[1..]) == Flat(chunks)[left..])
  {
    var c := chunks[0];
    if |c| > left {
      assert ([c[left..]] + chunks[1..])[1..] == chunks[1..];
    }
  }

  // ----- First in, first out -----

  datatype Operation = Pushed(bytes: seq<Byte>) | Popped(length: nat)

  /** The contents after the operations. */
  function Left(ops: seq<Operation>): seq<Byte> {
    if ops == [] then []
    else
      var before := Left(ops[..|ops| - 1]);
      match ops[|ops| - 1]
      case Pushed(bytes) => before + bytes
      case Popped(n) => before[Min(n, |before|)..]
  }

  /** What the pops have delivered. */
  function Delivered(ops: seq<Operation>): seq<Byte> {
    if ops == [] then []
    else
      var before, left := Delivered(ops[..|ops| - 1]), Left(ops[..|ops| - 1]);
      match ops[|ops| - 1]
      case Pushed(bytes) => before
      case Popped(n) => before + left[..Min(n, |left|)]
  }

  function Given(ops: seq<Operation>): seq<Byte> {
    if ops == [] then []
    else
      match ops[|ops| - 1]
      case Pushed(bytes) => Given(ops[..|ops| - 1]) + bytes
      case Popped(n) => Given(ops[..|ops| - 1])
  }

  /** The bytes pushed are those delivered and those still there, in that order: none is lost or repeated. */
  lemma {:induction false} FirstInFirstOut(ops: seq<Operation>)
    ensures Given(ops) == Delivered(ops) + Left(ops)
  {
    if ops != [] {
      var before := ops[..|ops| - 1];
      FirstInFirstOut(before);
      match ops[|ops| - 1]
      case Pushed(bytes) =>
        assert Delivered(before) + (Left(before) + bytes) == Delivered(before) + Left(before) + bytes;
      case Popped(n) =>
        var l, k := Left(before), Min(n, |Left(before)|);
        assert l == l[..k] + l[k..];
        assert Delivered(before) + (l[..k] + l[k..]) == (Delivered(before) + l[..k]) + l[k..];
    }
  }
}

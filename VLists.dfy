/** The varint block store (VListManager.hpp): unsigned 32-bit numbers are
    written as 7-bit groups, low group first, the last byte marked with bit
    7, into a front-linked list of blocks whose sizes double. */
module VLists {
  import opened Wrappers

  newtype byte = x: int | 0 <= x < 256

  // -----------------------------------------------------------------------
  // Varint encoding

  function Pow128(k: nat): nat {
    if k == 0 then 1 else 128 * Pow128(k - 1)
  }

  /** The bytes `addData` emits for `data`: every byte but the last holds a
      7-bit group with bit 7 clear; the last holds the remaining group with
      bit 7 set. */
  function Encoding(data: nat): (bs: seq<byte>)
    ensures 1 <= |bs|
    decreases data
  {
    if data < 0x80 then [(data + 0x80) as byte]
    else [(data % 0x80) as byte] + Encoding(data / 0x80)
  }

  /** The number a byte sequence stands for: the sum of its 7-bit groups,
      the `i`-th shifted left by `7 * i`. */
  function VarintValue(bs: seq<byte>): nat {
    if bs == [] then 0 else (bs[0] as nat % 0x80) + 0x80 * VarintValue(bs[1..])
  }

  /** Every byte but the last has bit 7 clear and the last has it set. */
  predicate Marked(bs: seq<byte>) {
    |bs| >= 1 && bs[|bs| - 1] >= 0x80 && forall i :: 0 <= i < |bs| - 1 ==> bs[i] < 0x80
  }

  /** The bytes mark their end and carry the number back. */
  lemma EncodingRoundTrip(data: nat)
    ensures Marked(Encoding(data))
    ensures VarintValue(Encoding(data)) == data
  {
    EncodingMarked(data);
    EncodingValue(data);
  }

  lemma {:induction false} EncodingMarked(data: nat)
    ensures Marked(Encoding(data))
    decreases data
  {
    if data >= 0x80 {
      EncodingMarked(data / 0x80);
      var bs, tail := Encoding(data), Encoding(data / 0x80);
      assert bs == [bs[0]] + tail;
      forall i | 0 <= i < |bs| - 1
        ensures bs[i] < 0x80
      {
        if i > 0 {
          assert bs[i] == tail[i - 1];
        }
      }
    }
  }

  lemma {:induction false} EncodingValue(data: nat)
    ensures VarintValue(Encoding(data)) == data
    decreases data
  {
    if data >= 0x80 {
      EncodingValue(data / 0x80);
      var bs := Encoding(data);
      assert bs[1..] == Encoding(data / 0x80);
    }
  }

  /** One byte exactly for numbers below 0x80; at most `k` bytes for
      numbers below 128^k. */
  lemma {:induction false} EncodingLength(data: nat, k: nat)
    requires 1 <= k && data < Pow128(k)
    ensures |Encoding(data)| == 1 <==> data < 0x80
    ensures |Encoding(data)| <= k
    decreases k
  {
    if data >= 0x80 {
      assert k > 1;
      EncodingLength(data / 0x80, k - 1);
    }
  }

  /** A 32-bit number takes one to five bytes. */
  lemma WordEncodingLength(data: nat)
    requires data < 0x1_0000_0000
    ensures 1 <= |Encoding(data)| <= 5
  {
    assert Pow128(5) == 0x8_0000_0000;
    EncodingLength(data, 5);
  }

  /** Reads one varint at the start of `bs`: its value and its length, or
      nothing when no marked byte ends it. */
  function Decode(bs: seq<byte>): (r: Option<(nat, nat)>)
    ensures r.Some? ==> 1 <= r.value.1 <= |bs|
  {
    if bs == [] then None
    else if bs[0] >= 0x80 then Some(((bs[0] - 0x80) as nat, 1))
    else match Decode(bs[1..])
      case None => None
      case Some((v, n)) => Some((bs[0] as nat + 0x80 * v, n + 1))
  }

  /** Decoding an encoding, whatever follows it, gives the number back and
      stops exactly at its end. */
  lemma {:induction false} DecodeEncoding(data: nat, rest: seq<byte>)
    ensures Decode(Encoding(data) + rest) == Some((data, |Encoding(data)|))
    decreases data
  {
    var bs := Encoding(data) + rest;
    if data >= 0x80 {
      DecodeEncoding(data / 0x80, rest);
      assert bs[1..] == Encoding(data / 0x80) + rest;
    }
  }

  /** `addData`'s encoding loop: fills a five-byte buffer from the low
      groups up and marks the last byte. */
  method Encode(data: nat) returns (bytes: seq<byte>)
    requires data < 0x1_0000_0000
    ensures bytes == Encoding(data)
  {
    WordEncodingLength(data);
    var buffer := new byte[5];
    var p := 0;
    var d := data;
    while d >= 0x80
      invariant p + |Encoding(d)| == |Encoding(data)|
      invariant buffer[..p] + Encoding(d) == Encoding(data)
      decreases d
    {
      assert Encoding(d) == [(d % 0x80) as byte] + Encoding(d / 0x80);
      buffer[p] := (d % 0x80) as byte;
      assert buffer[..p + 1] == buffer[..p] + [(d % 0x80) as byte];
      p := p + 1;
      d := d / 0x80;
    }
    buffer[p] := (d + 0x80) as byte;
    assert buffer[..p + 1] == buffer[..p] + [(d + 0x80) as byte];
    p := p + 1;
    bytes := buffer[..p];
  }

  // -----------------------------------------------------------------------
  // The layout of the written bytes over the blocks

  /** The capacity of the `i`-th block of a layout whose first block holds
      `cap` bytes: each block holds twice as many as the one before. */
  function Cap(cap: nat, i: nat): nat
    decreases i
  {
    if i == 0 then cap else Cap(2 * cap, i - 1)
  }

  lemma {:induction false} CapDouble(c: nat, k: nat)
    ensures Cap(c, k + 1) == 2 * Cap(c, k)
    decreases k
  {
    if k > 0 {
      CapDouble(2 * c, k - 1);
    }
  }

  lemma {:induction false} CapPositive(c: nat, k: nat)
    requires c >= 1
    ensures Cap(c, k) >= c
    decreases k
  {
    if k > 0 {
      CapPositive(2 * c, k - 1);
    }
  }

  /** The written bytes cut into blocks, oldest first: the first block
      holds `cap` bytes and each next one twice as many as the one before;
      only the last may be partly filled. */
  function Layout(w: seq<byte>, cap: nat): seq<seq<byte>>
    requires cap >= 1
    decreases |w|
  {
    if w == [] then []
    else if |w| <= cap then [w]
    else [w[..cap]] + Layout(w[cap..], 2 * cap)
  }

  /** The blocks concatenated in order. */
  function Flatten(cs: seq<seq<byte>>): seq<byte> {
    if cs == [] then [] else cs[0] + Flatten(cs[1..])
  }

  /** The blocks newest first, as the list links them. */
  function Rev(cs: seq<seq<byte>>): (r: seq<seq<byte>>)
    ensures |r| == |cs|
  {
    if cs == [] then [] else [cs[|cs| - 1]] + Rev(cs[..|cs| - 1])
  }

  /** What `getData` addresses: the blocks' bytes, newest block first. */
  function Stored(w: seq<byte>): seq<byte> {
    Flatten(Rev(Layout(w, 1)))
  }

  /** Every block holds at least one byte and at most its capacity, and
      every block but the last is full. */
  predicate Filled(l: seq<seq<byte>>, cap: nat) {
    forall i :: 0 <= i < |l| ==> 1 <= |l[i]| <= Cap(cap, i) && (i < |l| - 1 ==> |l[i]| == Cap(cap, i))
  }

  /** The layout keeps the bytes in order. */
  lemma {:induction false} LayoutFlatten(w: seq<byte>, cap: nat)
    requires cap >= 1
    ensures Flatten(Layout(w, cap)) == w
    decreases |w|
  {
    if w != [] && |w| > cap {
      LayoutFlatten(w[cap..], 2 * cap);
      var l := Layout(w, cap);
      assert l == [w[..cap]] + Layout(w[cap..], 2 * cap);
      assert l[1..] == Layout(w[cap..], 2 * cap);
      assert w == w[..cap] + w[cap..];
    } else if w != [] {
      assert Layout(w, cap) == [w];
      assert Layout(w, cap)[1..] == [];
    }
  }

  /** The layout of some bytes is a non-empty list of filled blocks. */
  lemma {:induction false} LayoutFilled(w: seq<byte>, cap: nat)
    requires cap >= 1
    ensures |Layout(w, cap)| == 0 <==> w == []
    ensures Filled(Layout(w, cap), cap)
    decreases |w|
  {
    if w != [] && |w| > cap {
      var t := Layout(w[cap..], 2 * cap);
      LayoutFilled(w[cap..], 2 * cap);
      var l := Layout(w, cap);
      assert l == [w[..cap]] + t;
      forall i | 1 <= i < |l|
        ensures l[i] == t[i - 1] && Cap(cap, i) == Cap(2 * cap, i - 1)
      {
      }
    } else if w != [] {
      assert Layout(w, cap) == [w];
    }
  }

  /** Appending one byte either fills the last block further or, when it
      is full, starts a new block holding that byte alone. */
  lemma {:induction false} LayoutAppend(w: seq<byte>, cap: nat, b: byte)
    requires cap >= 1
    ensures var l := Layout(w, cap);
      var n := |l|;
      (n == 0 ==> Layout(w + [b], cap) == [[b]]) &&
      (n > 0 && |l[n - 1]| >= Cap(cap, n - 1) ==> Layout(w + [b], cap) == l + [[b]]) &&
      (n > 0 && |l[n - 1]| < Cap(cap, n - 1) ==> Layout(w + [b], cap) == l[..n - 1] + [l[n - 1] + [b]])
    decreases |w|
  {
    var l := Layout(w, cap);
    if w == [] {
      assert w + [b] == [b];
    } else if |w| < cap {
      assert l == [w];
    } else if |w| == cap {
      assert l == [w];
      assert (w + [b])[..cap] == w && (w + [b])[cap..] == [b];
    } else {
      var t := w[cap..];
      LayoutAppend(t, 2 * cap, b);
      LayoutFilled(t, 2 * cap);
      assert (w + [b])[..cap] == w[..cap] && (w + [b])[cap..] == t + [b];
      var lt := Layout(t, 2 * cap);
      assert l == [w[..cap]] + lt;
      var n := |l|;
      assert n == |lt| + 1 && l[n - 1] == lt[n - 2];
      assert Cap(cap, n - 1) == Cap(2 * cap, n - 2);
      assert l[..n - 1] == [w[..cap]] + lt[..n - 2];
    }
  }

  lemma {:induction false} FlattenAppend(cs: seq<seq<byte>>, x: seq<byte>)
    ensures Flatten(cs + [x]) == Flatten(cs) + x
  {
    if cs != [] {
      assert (cs + [x])[1..] == cs[1..] + [x];
      FlattenAppend(cs[1..], x);
    }
  }

  /** Position `k` of the `i`-th reversed block is the last-but-`k` block. */
  lemma {:induction false} RevIndex(cs: seq<seq<byte>>, i: nat)
    requires i < |cs|
    ensures Rev(cs)[i] == cs[|cs| - 1 - i]
  {
    if i > 0 {
      RevIndex(cs[..|cs| - 1], i - 1);
    }
  }

  /** Reversing the blocks moves bytes but neither adds nor drops any. */
  lemma {:induction false} FlattenRev(cs: seq<seq<byte>>)
    ensures multiset(Flatten(Rev(cs))) == multiset(Flatten(cs))
  {
    if cs != [] {
      var n := |cs|;
      FlattenRev(cs[..n - 1]);
      assert cs == cs[..n - 1] + [cs[n - 1]];
      FlattenAppend(cs[..n - 1], cs[n - 1]);
    }
  }

  /** `getData` sees every written byte exactly once: the stored bytes are
      a permutation of the written ones. */
  lemma StoredIsPermutation(w: seq<byte>)
    ensures multiset(Stored(w)) == multiset(w)
    ensures |Stored(w)| == |w|
  {
    LayoutFlatten(w, 1);
    FlattenRev(Layout(w, 1));
    assert |Stored(w)| == |multiset(Stored(w))| == |multiset(w)| == |w|;
  }

  /** Three bytes land in a block of one, then a block of two; the walk
      from the head reads the newer block first. */
  lemma ThreeBytes(a: byte, b: byte, c: byte)
    ensures Stored([a, b, c]) == [b, c, a]
  {
    var w := [a, b, c];
    assert w[..1] == [a] && w[1..] == [b, c];
    assert Layout([b, c], 2) == [[b, c]];
    assert Layout(w, 1) == [[a], [b, c]];
    assert [[a], [b, c]][..1] == [[a]];
    assert Rev([[a]]) == [[a]];
    assert Rev([[a], [b, c]]) == [[b, c], [a]];
    assert Flatten([[a]]) == [a];
    assert Flatten([[b, c], [a]]) == [b, c] + Flatten([[a]]);
  }

  /** The bytes of the blocks from the `i`-th one on follow those before. */
  lemma {:induction false} FlattenSplit(cs: seq<seq<byte>>, i: nat)
    requires i < |cs|
    ensures Flatten(cs) == Flatten(cs[..i]) + cs[i] + Flatten(cs[i + 1..])
  {
    if i > 0 {
      FlattenSplit(cs[1..], i - 1);
      assert cs[1..][..i - 1] == cs[1..i] && cs[1..][i - 1] == cs[i] && cs[1..][i..] == cs[i + 1..];
      assert cs[..i] == [cs[0]] + cs[1..i];
    } else {
      assert cs[..0] == [] && cs[1..] == cs[i + 1..];
    }
  }

  // -----------------------------------------------------------------------
  // Blocks and the manager

  /** A block: its capacity, how much of it is used, its element size and
      its bytes. */
  class Block {
    var next: Block?
    const size: nat
    var offset: nat
    const elemSize: nat
    const data: array<byte>

    constructor (size: nat)
      ensures this.size == size && offset == 0 && next == null && elemSize == 1
      ensures data.Length == size && fresh(data)
    {
      this.size := size;
      offset := 0;
      next := null;
      elemSize := 1;
      data := new byte[size];
    }
  }

  /** `allocate`: a new, empty, unlinked block of the given size. */
  method Allocate(size: nat) returns (b: Block)
    ensures fresh(b) && fresh(b.data)
    ensures b.size == size && b.offset == 0 && b.next == null && b.elemSize == 1 && b.data.Length == size
  {
    b := new Block(size);
  }

  /** What `getData` raises for an index past the stored bytes. */
  datatype VListError = OutOfRange

  /** Reversing after appending a block puts that block first. */
  lemma {:induction false} RevAppend(l: seq<seq<byte>>, x: seq<byte>)
    ensures Rev(l + [x]) == [x] + Rev(l)
  {
    assert (l + [x])[..|l|] == l;
  }

  /** Reversing after extending the last block extends the first. */
  lemma {:induction false} RevExtendLast(l: seq<seq<byte>>, b: byte)
    requires l != []
    ensures Rev(l[..|l| - 1] + [l[|l| - 1] + [b]]) == Rev(l)[0 := Rev(l)[0] + [b]]
  {
    var n := |l|;
    var front := l[..n - 1];
    var r := Rev(front);
    RevAppend(front, l[n - 1] + [b]);
    assert l == front + [l[n - 1]];
    RevAppend(front, l[n - 1]);
    var lhs := [l[n - 1] + [b]] + r;
    var rhs := ([l[n - 1]] + r)[0 := l[n - 1] + [b]];
    assert |lhs| == |rhs|;
    assert forall k :: 0 <= k < |lhs| ==> lhs[k] == rhs[k];
  }

  /** Storing a byte into a new empty front block gives the reversed
      layout with the byte as a new last block. */
  lemma GrowThenStore(l: seq<seq<byte>>, b: byte, before: seq<seq<byte>>, after: seq<seq<byte>>)
    requires before == [[]] + Rev(l) && after == before[0 := before[0] + [b]]
    ensures after == Rev(l + [[b]])
    ensures l == [] ==> after == [[b]]
  {
    RevAppend(l, [b]);
    assert after == [[b]] + Rev(l) by {
      assert forall k :: 0 <= k < |after| ==> after[k] == ([[b]] + Rev(l))[k];
    }
  }

  class VListManager {
    var head: Block?
    /** The blocks from the head on, following `next`. */
    ghost var blocks: seq<Block>
    /** The used bytes of each block, in the same order. */
    ghost var chunks: seq<seq<byte>>
    /** Every byte written so far, in writing order. */
    ghost var written: seq<byte>
    ghost var Repr: set<object>

    /** The blocks are linked from the head, distinct, within their
        capacity, and `chunks` holds their used bytes. */
    ghost predicate Linked()
      reads this, Repr
    {
      this in Repr &&
      (head == null <==> blocks == []) &&
      (blocks != [] ==> head == blocks[0]) &&
      |chunks| == |blocks| &&
      (forall i :: 0 <= i < |blocks| ==> blocks[i] in Repr && blocks[i].data in Repr) &&
      (forall i :: 0 <= i < |blocks| ==> blocks[i].next == if i + 1 < |blocks| then blocks[i + 1] else null) &&
      (forall i, j :: 0 <= i < j < |blocks| ==> blocks[i] != blocks[j] && blocks[i].data != blocks[j].data) &&
      (forall i :: 0 <= i < |blocks| ==>
        blocks[i].data.Length == blocks[i].size && blocks[i].offset <= blocks[i].size &&
        blocks[i].elemSize == 1 && blocks[i].data[..blocks[i].offset] == chunks[i])
    }

    /** Besides the links: the blocks are sized 1, 2, 4, ... from the
        oldest, every block but the head is full, and the blocks hold the
        layout of the written bytes, newest block first. */
    ghost predicate Valid()
      reads this, Repr
    {
      Linked() && Shaped() && chunks == Rev(Layout(written, 1))
    }

    /** The blocks are sized 1, 2, 4, ... from the oldest and every block
        but the head is full. */
    ghost predicate Shaped()
      reads this, Repr
      requires Linked()
    {
      (forall i :: 0 <= i < |blocks| ==> blocks[i].size == Cap(1, |blocks| - 1 - i)) &&
      (forall i :: 0 < i < |blocks| ==> blocks[i].offset == blocks[i].size)
    }

    constructor ()
      ensures Valid() && head == null && written == []
    {
      head := null;
      blocks := [];
      chunks := [];
      written := [];
      Repr := {this};
    }

    /** The first half of `addData`'s byte loop when there is no head or
        the head is full: a block of size 1 (the first) or twice the
        head's size is allocated and linked in front as the new head. */
    method Grow()
      requires Linked() && Shaped()
      requires head == null || head.offset >= head.size
      modifies this
      ensures Linked() && Shaped()
      ensures fresh(head) && fresh(head.data) && Repr == old(Repr) + {head, head.data}
      ensures written == old(written) && chunks == [[]] + old(chunks)
      ensures blocks[1..] == old(blocks) && head.offset == 0
      ensures head.size == if old(head) == null then 1 else 2 * old(head.size)
    {
      var newSize := if head == null then 1 else head.size * 2;
      var nb := Allocate(newSize);
      nb.next := head;
      Link(nb);
    }

    /** Makes a new empty block, already pointing at the head, the head:
        twice the old head's size, or 1 for the first. */
    method Link(nb: Block)
      requires Linked() && Shaped()
      requires head == null || head.offset >= head.size
      requires nb !in Repr && nb.data !in Repr && nb.next == head
      requires nb.offset == 0 && nb.elemSize == 1 && nb.data.Length == nb.size
      requires nb.size == if head == null then 1 else 2 * head.size
      modifies this
      ensures Linked() && Shaped() && head == nb && Repr == old(Repr) + {nb, nb.data}
      ensures written == old(written) && chunks == [[]] + old(chunks) && blocks == [nb] + old(blocks)
    {
      if head != null {
        CapDouble(1, |blocks| - 1);
      }
      ghost var oldBlocks := blocks;
      head, blocks, chunks, Repr := nb, [nb] + blocks, [[]] + chunks, Repr + {nb, nb.data};
      forall i | 0 <= i < |blocks|
        ensures blocks[i].next == if i + 1 < |blocks| then blocks[i + 1] else null
      {
        if i > 0 {
          assert blocks[i] == oldBlocks[i - 1];
        }
      }
      forall i | 0 < i < |blocks|
        ensures blocks[i].size == Cap(1, |blocks| - 1 - i) && blocks[i].offset == blocks[i].size
      {
        assert blocks[i] == oldBlocks[i - 1];
      }
      forall i, j | 0 <= i < j < |blocks|
        ensures blocks[i] != blocks[j] && blocks[i].data != blocks[j].data
      {
        assert blocks[j] == oldBlocks[j - 1];
        if i > 0 {
          assert blocks[i] == oldBlocks[i - 1];
        }
      }
      forall i | 0 < i < |blocks|
        ensures blocks[i] in Repr && blocks[i].data in Repr
      {
        assert blocks[i] == oldBlocks[i - 1];
      }
    }

    /** The second half: the byte goes at the head's offset, which then
        moves on by one. */
    method Store(b: byte)
      requires Linked() && Shaped()
      requires head != null && head.offset < head.size
      modifies head, head.data, this`chunks, this`written
      ensures Linked() && Shaped() && Repr == old(Repr)
      ensures blocks == old(blocks) && written == old(written) + [b]
      ensures chunks == old(chunks)[0 := old(chunks)[0] + [b]]
    {
      head.data[head.offset] := b;
      head.offset := head.offset + 1;
      chunks := chunks[0 := chunks[0] + [b]];
      written := written + [b];
      forall i | 0 < i < |blocks|
        ensures blocks[i].data[..blocks[i].offset] == chunks[i]
      {
        assert blocks[i].data != blocks[0].data;
      }
    }

    /** The head block is the last block of the layout: it holds its used
        bytes, and its size is the capacity of that position. */
    lemma HeadLayout()
      requires Valid()
      ensures |blocks| == |Layout(written, 1)|
      ensures blocks != [] ==> head.size == Cap(1, |blocks| - 1) >= 1
      ensures blocks != [] ==> head.offset == |Layout(written, 1)[|blocks| - 1]|
    {
      var l := Layout(written, 1);
      if blocks != [] {
        RevIndex(l, 0);
        CapPositive(1, |blocks| - 1);
        assert |head.data[..head.offset]| == head.offset;
      }
    }

    /** One iteration of `addData`'s byte loop: a new block is linked in
        front when there is no head or the head is full (size 1 for the
        first, twice the head's size otherwise), then the byte is stored at
        the head's offset. */
    method PutByte(b: byte)
      requires Valid()
      modifies Repr
      ensures Valid() && fresh(Repr - old(Repr))
      ensures written == old(written) + [b]
      ensures old(head) == null ==> |blocks| == 1 && blocks[0].size == 1
      ensures old(head) != null && old(head.offset) == old(head.size) ==>
        |blocks| == |old(blocks)| + 1 && blocks[1..] == old(blocks) && blocks[0].size == 2 * old(head.size)
      ensures old(head) != null && old(head.offset) < old(head.size) ==> blocks == old(blocks)
    {
      ghost var l := Layout(written, 1);
      LayoutAppend(written, 1, b);
      HeadLayout();
      var grew := head == null || head.offset >= head.size;
      if grew {
        Grow();
      } else {
        RevExtendLast(l, b);
      }
      ghost var before := chunks;
      Store(b);
      if grew {
        GrowThenStore(l, b, before, chunks);
      }
    }

    /** `addData`: encodes the number and stores its bytes one by one; the
        written bytes grow by exactly the encoding. */
    method AddData(data: nat)
      requires Valid() && data < 0x1_0000_0000
      modifies Repr
      ensures Valid() && fresh(Repr - old(Repr))
      ensures written == old(written) + Encoding(data)
    {
      var bytes := Encode(data);
      for i := 0 to |bytes|
        invariant Valid() && fresh(Repr - old(Repr))
        invariant written == old(written) + bytes[..i]
      {
        PutByte(bytes[i]);
        assert bytes[..i + 1] == bytes[..i] + [bytes[i]];
      }
      assert bytes[..|bytes|] == bytes;
    }

    /** `getData`: walks from the head to older blocks, skipping each
        block's used bytes, and answers the byte at `index` of that walk, or
        `out_of_range` past the last stored byte. */
    method GetData(index: nat) returns (r: Result<byte, VListError>)
      requires Valid()
      ensures index < |Stored(written)| ==> r == Ok(Stored(written)[index])
      ensures index >= |Stored(written)| ==> r == Err(OutOfRange)
    {
      var current := head;
      var base := 0;
      ghost var i := 0;
      while current != null
        invariant i <= |blocks|
        invariant current == if i < |blocks| then blocks[i] else null
        invariant base == |Flatten(chunks[..i])| && base <= index
        decreases |blocks| - i
      {
        var last := if current.offset < current.size then current.offset else current.size;
        if index < base + last {
          FlattenSplit(chunks, i);
          return Ok(current.data[index - base]);
        }
        assert chunks[..i + 1] == chunks[..i] + [chunks[i]];
        FlattenAppend(chunks[..i], chunks[i]);
        base := base + last;
        current := current.next;
        i := i + 1;
      }
      assert chunks[..i] == chunks;
      return Err(OutOfRange);
    }
  }
}

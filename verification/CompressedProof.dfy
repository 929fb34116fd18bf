/**
 The wire form of a sparse Merkle proof: a 256-bit bitmap and the siblings it marks.

 A clear bit at depth d stands for the empty subtree of height 255 - d. `Represents` says when
 a compressed proof is the encoding of a sibling list; `Decompress` is what a reader makes of
 any compressed proof, including ones no writer produces.
 */
module CompressedProof {
  import opened Wrappers
  import opened MerkleHash

  datatype Compressed = Compressed(bitmap: seq<bv8>, siblings: seq<Hash>)

  /** The sibling a clear bit stands for. */
  function Default(d: nat): Hash
    requires d < SMT_DEPTH
  {
    Empty(SMT_DEPTH - 1 - d)
  }

  /** Bit d of a bitmap; a bitmap that is too short reads as zero past its end. */
  predicate BitmapBit(bitmap: seq<bv8>, d: nat) {
    d / 8 < |bitmap| && ByteBit(bitmap[d / 8], d % 8)
  }

  /** The 256 bits a reader takes from a bitmap. */
  function Bits(bitmap: seq<bv8>): (bits: seq<bool>)
    ensures |bits| == SMT_DEPTH
  {
    seq(SMT_DEPTH, d requires 0 <= d < SMT_DEPTH => BitmapBit(bitmap, d))
  }

  /** The siblings among the first n that are not the empty constant of their depth. */
  function RealSiblings(siblings: seq<Hash>, n: nat): seq<Hash>
    requires n <= SMT_DEPTH && n <= |siblings|
  {
    if n == 0 then []
    else RealSiblings(siblings, n - 1) + (if siblings[n - 1] != Default(n - 1) then [siblings[n - 1]] else [])
  }

  ghost predicate Represents(c: Compressed, siblings: seq<Hash>)
    requires |siblings| >= SMT_DEPTH
  {
    && |c.bitmap| == 32
    && (forall d | 0 <= d < SMT_DEPTH :: Bits(c.bitmap)[d] <==> siblings[d] != Default(d))
    && c.siblings == RealSiblings(siblings, SMT_DEPTH)
  }

  /** How many of the first n bits are set. */
  function SetBits(bits: seq<bool>, n: nat): (k: nat)
    requires n <= |bits|
    ensures k <= n
  {
    if n == 0 then 0 else SetBits(bits, n - 1) + if bits[n - 1] then 1 else 0
  }

  /** A read past the end of the list gives undefined; the reader throws later, so any value will do. */
  function Listed(siblings: seq<Hash>, i: nat): Hash {
    if i < |siblings| then siblings[i] else EmptyLeaf
  }

  /** The sibling a reader recovers at depth d. */
  function Slot(bits: seq<bool>, listed: seq<Hash>, d: nat): Hash
    requires d < |bits| <= SMT_DEPTH
  {
    if bits[d] then Listed(listed, SetBits(bits, d)) else Default(d)
  }

  /** The first n siblings a reader recovers. */
  function Expand(bits: seq<bool>, listed: seq<Hash>, n: nat): (s: seq<Hash>)
    requires n <= |bits| <= SMT_DEPTH
    ensures |s| == n
    ensures forall d | 0 <= d < n :: s[d] == Slot(bits, listed, d)
  {
    if n == 0 then [] else Expand(bits, listed, n - 1) + [Slot(bits, listed, n - 1)]
  }

  /** None where the reader throws: exactly when the marked and the listed siblings differ in number. */
  function Decompress(c: Compressed): Option<seq<Hash>> {
    var bits := Bits(c.bitmap);
    if SetBits(bits, SMT_DEPTH) == |c.siblings| then Some(Expand(bits, c.siblings, SMT_DEPTH)) else None
  }

  // ---- Bitmap writes ----

  lemma OrOfBits(a: bv8, b: bv8, k: nat)
    requires k < 8
    ensures ByteBit(a | b, k) == (ByteBit(a, k) || ByteBit(b, k))
  {
    if k == 0 {} else if k == 1 {} else if k == 2 {} else if k == 3 {} else if k == 4 {} else if k == 5 {} else if k == 6 {} else {}
  }

  lemma BitOfMask(j: nat, k: nat)
    requires j < 8 && k < 8
    ensures ByteBit(1 << (7 - j), k) == (k == j)
  {
    if j == 0 {} else if j == 1 {} else if j == 2 {} else if j == 3 {} else if j == 4 {} else if j == 5 {} else if j == 6 {} else {}
    if k == 0 {} else if k == 1 {} else if k == 2 {} else if k == 3 {} else if k == 4 {} else if k == 5 {} else if k == 6 {} else {}
  }

  lemma MarkedBit(b: bv8, j: nat, k: nat)
    requires j < 8 && k < 8
    ensures ByteBit(b | (1 << (7 - j)), k) == (k == j || ByteBit(b, k))
  {
    OrOfBits(b, 1 << (7 - j), k);
    BitOfMask(j, k);
  }

  lemma ZeroByte(j: nat)
    requires j < 8
    ensures !ByteBit(0, j)
  {
    if j == 0 {} else if j == 1 {} else if j == 2 {} else if j == 3 {} else if j == 4 {} else if j == 5 {} else if j == 6 {} else {}
  }

  /** A bitmap cut or filled up with zero bytes to the 32 of a key. */
  ghost function AsKey(bitmap: seq<bv8>): Key {
    seq(32, n requires 0 <= n < 32 => if n < |bitmap| then bitmap[n] else 0)
  }

  /** A bitmap's bits are read as a key's are, and so in the order of big-endian numbers. */
  lemma BitsReadAsPath(bitmap: seq<bv8>)
    ensures Bits(bitmap) == Path(AsKey(bitmap))
  {
    forall d | 0 <= d < SMT_DEPTH
      ensures Bits(bitmap)[d] == Path(AsKey(bitmap))[d]
    {
      ZeroByte(d % 8);
    }
  }

  /** The bitmap marks exactly the real siblings among the first n. */
  ghost predicate Marks(bitmap: seq<bv8>, siblings: seq<Hash>, n: nat)
    requires |siblings| >= SMT_DEPTH
  {
    && |bitmap| == 32
    && forall d | 0 <= d < SMT_DEPTH :: BitmapBit(bitmap, d) <==> d < n && siblings[d] != Default(d)
  }

  lemma NothingMarked(bitmap: seq<bv8>, siblings: seq<Hash>)
    requires |siblings| >= SMT_DEPTH && |bitmap| == 32 && forall n | 0 <= n < 32 :: bitmap[n] == 0
    ensures Marks(bitmap, siblings, 0)
  {
    forall e | 0 <= e < SMT_DEPTH
      ensures !BitmapBit(bitmap, e)
    {
      ZeroByte(e % 8);
    }
  }

  function OrBit(bitmap: seq<bv8>, d: nat): seq<bv8>
    requires |bitmap| == 32 && d < SMT_DEPTH
  {
    bitmap[d / 8 := bitmap[d / 8] | (1 << (7 - d % 8))]
  }

  /** Or-ing bit d into a bitmap sets that bit and no other. */
  lemma OrBitMarks(bitmap: seq<bv8>, siblings: seq<Hash>, d: nat)
    requires |siblings| >= SMT_DEPTH && d < SMT_DEPTH
    requires Marks(bitmap, siblings, d)
    ensures siblings[d] != Default(d) ==> Marks(OrBit(bitmap, d), siblings, d + 1)
    ensures siblings[d] == Default(d) ==> Marks(bitmap, siblings, d + 1)
  {
    forall e | 0 <= e < SMT_DEPTH
      ensures BitmapBit(OrBit(bitmap, d), e) == (e == d || BitmapBit(bitmap, e))
    {
      if e / 8 == d / 8 {
        MarkedBit(bitmap[d / 8], d % 8, e % 8);
        assert e % 8 == d % 8 <==> e == d;
      }
    }
  }

  /** Fills a zeroed 32-byte buffer bit by bit; None where the list is too short to read. */
  method Compress(siblings: seq<Hash>) returns (r: Option<Compressed>)
    ensures r.Some? <==> |siblings| >= SMT_DEPTH
    ensures r.Some? ==> Represents(r.value, siblings)
  {
    if |siblings| < SMT_DEPTH {
      return None;
    }
    var bitmap := new bv8[32](_ => 0);
    var listed: seq<Hash> := [];
    NothingMarked(bitmap[..], siblings);
    for d := 0 to SMT_DEPTH
      invariant listed == RealSiblings(siblings, d)
      invariant Marks(bitmap[..], siblings, d)
    {
      OrBitMarks(bitmap[..], siblings, d);
      if siblings[d] != Default(d) {
        ghost var marked := OrBit(bitmap[..], d);
        bitmap[d / 8] := bitmap[d / 8] | (1 << (7 - d % 8));
        assert bitmap[..] == marked;
        listed := listed + [siblings[d]];
      }
    }
    r := Some(Compressed(bitmap[..], listed));
  }

  lemma SlotStep(bits: seq<bool>, listed: seq<Hash>, d: nat)
    requires d < |bits| == SMT_DEPTH
    ensures bits[d] ==> Slot(bits, listed, d) == Listed(listed, SetBits(bits, d)) && SetBits(bits, d + 1) == SetBits(bits, d) + 1
    ensures !bits[d] ==> Slot(bits, listed, d) == Default(d) && SetBits(bits, d + 1) == SetBits(bits, d)
  {
  }

  /** One depth: the sibling there, and how many listed ones are used up. */
  method NextSlot(c: Compressed, d: nat, ri: nat) returns (sibling: Hash, next: nat)
    requires d < SMT_DEPTH && ri == SetBits(Bits(c.bitmap), d)
    ensures sibling == Slot(Bits(c.bitmap), c.siblings, d) && next == SetBits(Bits(c.bitmap), d + 1)
  {
    SlotStep(Bits(c.bitmap), c.siblings, d);
    if BitmapBit(c.bitmap, d) {
      return Listed(c.siblings, ri), ri + 1;
    } else {
      return Default(d), ri;
    }
  }

  lemma SlotsAreExpansion(bits: seq<bool>, listed: seq<Hash>, out: seq<Hash>)
    requires |bits| == |out| == SMT_DEPTH && forall d | 0 <= d < SMT_DEPTH :: out[d] == Slot(bits, listed, d)
    ensures out == Expand(bits, listed, SMT_DEPTH)
  {
  }

  /** Reads the bitmap in order, taking a listed sibling per set bit; None where it throws. */
  method DecompressProof(c: Compressed) returns (r: Option<seq<Hash>>)
    ensures r == Decompress(c)
  {
    var out := new Hash[SMT_DEPTH](_ => EmptyLeaf);
    ghost var bits := Bits(c.bitmap);
    var ri := 0;
    for d := 0 to SMT_DEPTH
      invariant ri == SetBits(bits, d)
      invariant forall e | 0 <= e < d :: out[e] == Slot(bits, c.siblings, e)
    {
      var sibling, next := NextSlot(c, d, ri);
      out[d] := sibling;
      ri := next;
    }
    if ri != |c.siblings| {
      return None;
    }
    SlotsAreExpansion(bits, c.siblings, out[..]);
    return Some(out[..]);
  }

  // ---- Round trips ----

  lemma {:induction false} ExpandRepresented(bits: seq<bool>, listed: seq<Hash>, siblings: seq<Hash>, n: nat)
    requires n <= |bits| == SMT_DEPTH <= |siblings|
    requires forall d | 0 <= d < n :: bits[d] <==> siblings[d] != Default(d)
    requires RealSiblings(siblings, n) <= listed
    ensures SetBits(bits, n) == |RealSiblings(siblings, n)|
    ensures Expand(bits, listed, n) == siblings[..n]
  {
    if n == 0 {
    } else {
      ExpandRepresented(bits, listed, siblings, n - 1);
      assert siblings[..n] == siblings[..n - 1] + [siblings[n - 1]];
    }
  }

  /** Reading what was written gives the list back (its first 256 entries). */
  lemma DecompressInvertsCompress(c: Compressed, siblings: seq<Hash>)
    requires |siblings| >= SMT_DEPTH && Represents(c, siblings)
    ensures Decompress(c) == Some(siblings[..SMT_DEPTH])
  {
    ExpandRepresented(Bits(c.bitmap), c.siblings, siblings, SMT_DEPTH);
  }

  lemma BitsAgree(a: seq<bv8>, b: seq<bv8>)
    requires |a| == |b| == 32 && Bits(a) == Bits(b)
    ensures a == b
  {
    forall n | 0 <= n < 32
      ensures a[n] == b[n]
    {
      forall j | 0 <= j < 8
        ensures ByteBit(a[n], j) == ByteBit(b[n], j)
      {
        var d := 8 * n + j;
        assert d / 8 == n && d % 8 == j;
        assert Bits(a)[d] == Bits(b)[d];
      }
      BytesAgree(a[n], b[n]);
    }
  }

  /** A sibling list has one encoding. */
  lemma EncodingUnique(a: Compressed, b: Compressed, siblings: seq<Hash>)
    requires |siblings| >= SMT_DEPTH
    requires Represents(a, siblings) && Represents(b, siblings)
    ensures a == b
  {
    assert Bits(a.bitmap) == Bits(b.bitmap);
    BitsAgree(a.bitmap, b.bitmap);
  }

  /** No listed sibling is the constant its clear bit would have meant. */
  ghost predicate ListsNoDefault(bits: seq<bool>, listed: seq<Hash>)
    requires |bits| == SMT_DEPTH
  {
    forall d | 0 <= d < SMT_DEPTH && bits[d] :: Slot(bits, listed, d) != Default(d)
  }

  lemma {:induction false} RealOfSlots(bits: seq<bool>, listed: seq<Hash>, s: seq<Hash>, n: nat)
    requires n <= |bits| == |s| == SMT_DEPTH
    requires forall d | 0 <= d < n :: s[d] == Slot(bits, listed, d) && (bits[d] <==> s[d] != Default(d))
    requires SetBits(bits, n) <= |listed|
    ensures RealSiblings(s, n) == listed[..SetBits(bits, n)]
  {
    if n == 0 {
    } else {
      RealOfSlots(bits, listed, s, n - 1);
      var k := SetBits(bits, n - 1);
      if bits[n - 1] {
        assert s[n - 1] == listed[k] && listed[..k + 1] == listed[..k] + [listed[k]];
      } else {
        assert RealSiblings(s, n) == RealSiblings(s, n - 1) + [];
      }
    }
  }

  /**
   Writing what was read gives the compressed proof back exactly when its bitmap is 32 bytes
   long and it lists no sibling a clear bit would have given.
   */
  lemma CompressInvertsDecompress(c: Compressed)
    requires Decompress(c).Some?
    ensures Represents(c, Decompress(c).value) <==> |c.bitmap| == 32 && ListsNoDefault(Bits(c.bitmap), c.siblings)
  {
    var bits := Bits(c.bitmap);
    var s := Expand(bits, c.siblings, SMT_DEPTH);
    if ListsNoDefault(bits, c.siblings) {
      RealOfSlots(bits, c.siblings, s, SMT_DEPTH);
    }
  }
}

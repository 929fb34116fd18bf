/**
 Hash values as the free algebra the domain tags make of them.

 SHA-256 is taken to be collision free, so a 32-byte value is identified by how it was
 produced: the empty-leaf constant (tag 0x02), a leaf hash of some bytes (tag 0x00), a node
 hash of two values (tag 0x01), or `Foreign` for every 32-byte string that is none of these.
 A caller can put any of the four wherever the source accepts a 32-byte value.
 */
module MerkleHash {

  datatype Hash =
    | EmptyLeaf
    | Leaf(preimage: string)
    | Node(left: Hash, right: Hash)
    | Foreign(bytes: Key)

  const SMT_DEPTH: nat := 256

  /** A key is a 32-byte digest. */
  type Key = k: seq<bv8> | |k| == 32 witness seq(32, _ => 0)

  /** EMPTY[h]: the root of an all-empty subtree of height h. */
  function Empty(h: nat): Hash {
    if h == 0 then EmptyLeaf else Node(Empty(h - 1), Empty(h - 1))
  }

  /** Bit j of a byte, most significant first. */
  predicate ByteBit(b: bv8, j: nat)
    requires j < 8
  {
    (b >> (7 - j)) & 1 == 1
  }

  /** Bit i of a key, most significant first: false goes left, true goes right. */
  predicate BitAt(key: Key, i: nat)
    requires i < SMT_DEPTH
  {
    ByteBit(key[i / 8], i % 8)
  }

  /** The root-to-leaf path a key spells. */
  function Path(key: Key): (p: seq<bool>)
    ensures |p| == SMT_DEPTH
  {
    seq(SMT_DEPTH, i requires 0 <= i < SMT_DEPTH => BitAt(key, i))
  }

  lemma BytesAgree(a: bv8, b: bv8)
    requires forall j | 0 <= j < 8 :: ByteBit(a, j) == ByteBit(b, j)
    ensures a == b
  {
    assert ByteBit(a, 0) == ByteBit(b, 0);
    assert ByteBit(a, 1) == ByteBit(b, 1);
    assert ByteBit(a, 2) == ByteBit(b, 2);
    assert ByteBit(a, 3) == ByteBit(b, 3);
    assert ByteBit(a, 4) == ByteBit(b, 4);
    assert ByteBit(a, 5) == ByteBit(b, 5);
    assert ByteBit(a, 6) == ByteBit(b, 6);
    assert ByteBit(a, 7) == ByteBit(b, 7);
  }

  /** Two keys with the same path are the same key: reading bits loses nothing. */
  lemma PathInjective(a: Key, b: Key)
    ensures Path(a) == Path(b) <==> a == b
  {
    if Path(a) == Path(b) {
      forall n | 0 <= n < 32
        ensures a[n] == b[n]
      {
        forall j | 0 <= j < 8
          ensures ByteBit(a[n], j) == ByteBit(b[n], j)
        {
          var i := 8 * n + j;
          assert i / 8 == n && i % 8 == j;
          assert Path(a)[i] == Path(b)[i];
        }
        BytesAgree(a[n], b[n]);
      }
    }
  }

  lemma LowNibble(a: bv8, b: bv8) returns (j: nat)
    requires a < b && (a & 0xF0) == (b & 0xF0)
    ensures 4 <= j < 8 && !ByteBit(a, j) && ByteBit(b, j)
    ensures forall i | 4 <= i < j :: ByteBit(a, i) == ByteBit(b, i)
  {
    if ByteBit(a, 4) != ByteBit(b, 4) {
      j := 4;
    } else if ByteBit(a, 5) != ByteBit(b, 5) {
      j := 5;
    } else if ByteBit(a, 6) != ByteBit(b, 6) {
      j := 6;
    } else {
      j := 7;
    }
  }

  lemma HighNibble(a: bv8, b: bv8) returns (j: nat)
    requires a < b && (a & 0xF0) != (b & 0xF0)
    ensures j < 4 && !ByteBit(a, j) && ByteBit(b, j)
    ensures forall i | 0 <= i < j :: ByteBit(a, i) == ByteBit(b, i)
  {
    if ByteBit(a, 0) != ByteBit(b, 0) {
      j := 0;
    } else if ByteBit(a, 1) != ByteBit(b, 1) {
      j := 1;
    } else if ByteBit(a, 2) != ByteBit(b, 2) {
      j := 2;
    } else {
      j := 3;
    }
  }

  lemma SameHighBits(a: bv8, b: bv8, j: nat)
    requires (a & 0xF0) == (b & 0xF0) && j < 4
    ensures ByteBit(a, j) == ByteBit(b, j)
  {
    if j == 0 {} else if j == 1 {} else if j == 2 {} else {}
  }

  /** The lower of two bytes has a 0 where they first differ, reading the most significant bit first. */
  lemma ByteOrder(a: bv8, b: bv8) returns (j: nat)
    requires a < b
    ensures j < 8 && !ByteBit(a, j) && ByteBit(b, j)
    ensures forall i | 0 <= i < j :: ByteBit(a, i) == ByteBit(b, i)
  {
    if (a & 0xF0) == (b & 0xF0) {
      j := LowNibble(a, b);
      forall i | 0 <= i < j
        ensures ByteBit(a, i) == ByteBit(b, i)
      {
        if i < 4 {
          SameHighBits(a, b, i);
        }
      }
    } else {
      j := HighNibble(a, b);
    }
  }

  /** The first place where two sequences differ, with the lower entry in the first. */
  ghost predicate BytesBefore(a: seq<bv8>, b: seq<bv8>) {
    exists n | 0 <= n < |a| && n < |b| :: a[..n] == b[..n] && a[n] < b[n]
  }

  ghost predicate BitsBefore(a: seq<bool>, b: seq<bool>) {
    exists n | 0 <= n < |a| && n < |b| :: a[..n] == b[..n] && !a[n] && b[n]
  }

  lemma PathsAgree(a: Key, b: Key, n: nat, j: nat)
    requires n < 32 && a[..n] == b[..n] && j < 8 && forall i | 0 <= i < j :: ByteBit(a[n], i) == ByteBit(b[n], i)
    ensures Path(a)[..8 * n + j] == Path(b)[..8 * n + j]
  {
    forall m | 0 <= m < 8 * n + j
      ensures Path(a)[m] == Path(b)[m]
    {
      if m / 8 < n {
        assert a[..n][m / 8] == b[..n][m / 8];
      } else {
        assert m / 8 == n && m % 8 < j;
      }
    }
  }

  lemma LowerKeyIsLeft(a: Key, b: Key)
    requires BytesBefore(a, b)
    ensures BitsBefore(Path(a), Path(b))
  {
    var n :| 0 <= n < 32 && a[..n] == b[..n] && a[n] < b[n];
    var j := ByteOrder(a[n], b[n]);
    var i := 8 * n + j;
    assert i / 8 == n && i % 8 == j;
    PathsAgree(a, b, n, j);
  }

  lemma OneIsFirst(p: seq<bool>, q: seq<bool>)
    ensures !(BitsBefore(p, q) && BitsBefore(q, p))
  {
    forall m, n | 0 <= m < |p| && m < |q| && 0 <= n < |p| && n < |q|
      ensures p[..m] == q[..m] && q[..n] == p[..n] && !p[m] && q[m] ==> q[n] || !p[n]
    {
      if n < m && p[..m] == q[..m] {
        assert p[..m][n] == q[..m][n];
      } else if m < n && q[..n] == p[..n] {
        assert q[..n][m] == p[..n][m];
      }
    }
  }

  lemma {:induction false} KeysCompare(a: Key, b: Key, n: nat)
    requires n <= 32 && a[..n] == b[..n] && a != b
    ensures BytesBefore(a, b) || BytesBefore(b, a)
    decreases 32 - n
  {
    assert a[..32] == a && b[..32] == b;
    if a[n] == b[n] {
      assert a[..n + 1] == a[..n] + [a[n]] && b[..n + 1] == b[..n] + [b[n]];
      KeysCompare(a, b, n + 1);
    }
  }

  /**
   Paths run through the tree, left to right, in the order of the keys read as big-endian numbers.
   Only one reading of the 256 bits keeps that order.
   */
  lemma PathOrder(a: Key, b: Key)
    ensures BytesBefore(a, b) <==> BitsBefore(Path(a), Path(b))
  {
    OneIsFirst(Path(a), Path(b));
    OneIsFirst(Path(a), Path(a));
    if BytesBefore(a, b) {
      LowerKeyIsLeft(a, b);
    } else if BytesBefore(b, a) {
      LowerKeyIsLeft(b, a);
    } else if a != b {
      KeysCompare(a, b, 0);
    }
  }
}

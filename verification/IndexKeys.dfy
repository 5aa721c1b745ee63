/**
  Keys of the eth-tx index (indexer/kv_indexer.go): a prefix byte, then either a
  hash or a big-endian height and index. Byte order of keys is numeric order.
*/
module IndexKeys {
  import opened Wrappers
  import opened Words
  import opened Lex

  type Key = seq<int>

  /** A 32-byte transaction hash. */
  type Hash = h: seq<int> | |h| == 32 witness seq(32, _ => 0)

  const PREFIX_TX_HASH := 1
  const PREFIX_TX_INDEX := 2
  const TX_INDEX_KEY_LENGTH := 1 + 8 + 8

  function Pow256(n: nat): (p: nat)
    ensures p > 0
  {
    if n == 0 then 1 else 256 * Pow256(n - 1)
  }

  /** The low n bytes of v, most significant first. */
  function BigEndian(v: nat, n: nat): (s: seq<int>)
    ensures |s| == n
  {
    if n == 0 then [] else BigEndian(v / 256, n - 1) + [v % 256]
  }

  function FromBigEndian(s: seq<int>): int {
    if s == [] then 0 else 256 * FromBigEndian(s[..|s| - 1]) + s[|s| - 1]
  }

  lemma {:induction false} BigEndianRoundTrip(v: nat, n: nat)
    requires v < Pow256(n)
    ensures FromBigEndian(BigEndian(v, n)) == v
  {
    if n > 0 {
      BigEndianRoundTrip(v / 256, n - 1);
      var s := BigEndian(v, n);
      assert s[..n - 1] == BigEndian(v / 256, n - 1);
    }
  }

  lemma {:induction false} BigEndianInjective(a: nat, b: nat, n: nat)
    requires a < Pow256(n) && b < Pow256(n) && BigEndian(a, n) == BigEndian(b, n)
    ensures a == b
  {
    BigEndianRoundTrip(a, n);
    BigEndianRoundTrip(b, n);
  }

  /** Fixed-width big-endian order is numeric order. */
  lemma {:induction false} BigEndianOrder(a: nat, b: nat, n: nat)
    requires a < Pow256(n) && b < Pow256(n)
    ensures LexLess(BigEndian(a, n), BigEndian(b, n)) <==> a < b
  {
    if n > 0 {
      var x, y := a / 256, b / 256;
      BigEndianOrder(x, y, n - 1);
      if x == y {
        LexPrefix(BigEndian(x, n - 1), [a % 256], [b % 256]);
      } else {
        if BigEndian(x, n - 1) == BigEndian(y, n - 1) { BigEndianInjective(x, y, n - 1); }
        LexHeadsDecide(BigEndian(x, n - 1), BigEndian(y, n - 1), [a % 256], [b % 256]);
      }
    }
  }

  /** Conversion of a signed 64-bit integer to its unsigned pattern. */
  function ToUint64(x: int): nat
    requires -TWO63 <= x < TWO63
  {
    if x < 0 then x + TWO64 else x
  }

  function TxHashKey(hash: Hash): Key {
    [PREFIX_TX_HASH] + hash
  }

  function TxIndexKey(height: int, index: int): Key
    requires KeyArguments(height, index)
  {
    [PREFIX_TX_INDEX] + BigEndian(ToUint64(height), 8) + BigEndian(ToUint64(index), 8)
  }

  /** The layout of keys: prefix 1 and the hash, or prefix 2 and eight bytes each of height and index. */
  lemma {:induction false} KeyLayout(hash: Hash, height: int, index: int)
    requires ValidPosition(height, index)
    ensures |TxHashKey(hash)| == 33 && TxHashKey(hash)[0] == 1 && TxHashKey(hash)[1..] == hash
    ensures var key := TxIndexKey(height, index);
            && |key| == 17 && key[0] == 2
            && FromBigEndian(key[1..9]) == height && FromBigEndian(key[9..]) == index
  {
    var key := TxIndexKey(height, index);
    assert key[1..9] == BigEndian(height, 8) && key[9..] == BigEndian(index, 8);
    BigEndianRoundTrip(height, 8);
    BigEndianRoundTrip(index, 8);
  }

  predicate ValidPosition(height: int, index: int) {
    0 <= height < TWO63 && 0 <= index < TWO31
  }

  /** Byte order of tx-index keys is the order of height, then index. */
  lemma {:induction false} KeyOrder(h1: int, i1: int, h2: int, i2: int)
    requires ValidPosition(h1, i1) && ValidPosition(h2, i2)
    ensures LexLess(TxIndexKey(h1, i1), TxIndexKey(h2, i2)) <==> h1 < h2 || (h1 == h2 && i1 < i2)
  {
    var a, b, c, d := BigEndian(h1, 8), BigEndian(h2, 8), BigEndian(i1, 8), BigEndian(i2, 8);
    assert TxIndexKey(h1, i1) == [PREFIX_TX_INDEX] + (a + c);
    assert TxIndexKey(h2, i2) == [PREFIX_TX_INDEX] + (b + d);
    LexPrefix([PREFIX_TX_INDEX], a + c, b + d);
    BigEndianOrder(h1, h2, 8);
    BigEndianOrder(i1, i2, 8);
    if h1 == h2 {
      LexPrefix(a, c, d);
    } else {
      if a == b { BigEndianInjective(h1, h2, 8); }
      LexHeadsDecide(a, b, c, d);
    }
  }

  predicate KeyArguments(height: int, index: int) {
    -TWO63 <= height < TWO63 && -TWO31 <= index < TWO31
  }

  /** Different positions, negative ones included, have different keys. */
  lemma {:induction false} TxIndexKeyInjective(h1: int, i1: int, h2: int, i2: int)
    requires KeyArguments(h1, i1) && KeyArguments(h2, i2) && TxIndexKey(h1, i1) == TxIndexKey(h2, i2)
    ensures h1 == h2 && i1 == i2
  {
    var k1, k2 := TxIndexKey(h1, i1), TxIndexKey(h2, i2);
    assert BigEndian(ToUint64(h1), 8) == k1[1..9] == k2[1..9] == BigEndian(ToUint64(h2), 8);
    assert BigEndian(ToUint64(i1), 8) == k1[9..] == k2[9..] == BigEndian(ToUint64(i2), 8);
    BigEndianInjective(ToUint64(h1), ToUint64(h2), 8);
    BigEndianInjective(ToUint64(i1), ToUint64(i2), 8);
  }

  /** The half-open range the loaders scan. */
  predicate InScanRange(k: Key) {
    LexLeq([PREFIX_TX_INDEX], k) && LexLess(k, [PREFIX_TX_INDEX + 1])
  }

  lemma {:induction false} ScanRangeIsIndexPrefix(k: Key)
    requires k != []
    ensures InScanRange(k) <==> k[0] == PREFIX_TX_INDEX
  {
    assert k == [k[0]] + k[1..];
    assert [PREFIX_TX_INDEX][1..] == [] && [PREFIX_TX_INDEX + 1][1..] == [];
    assert LexLess([], k[1..]) <==> k[1..] != [];
    assert !LexLess(k[1..], []);
  }

  /** parseBlockNumberFromKey; None is the wrong-length error. */
  function ParseBlockNumber(key: Key): Option<int> {
    if |key| != TX_INDEX_KEY_LENGTH then None
    else
      var v := FromBigEndian(key[1..9]);
      Some(if v < TWO63 then v else v - TWO64)
  }

  lemma {:induction false} ParseInvertsKey(height: int, index: int)
    requires ValidPosition(height, index)
    ensures ParseBlockNumber(TxIndexKey(height, index)) == Some(height)
  {
    var key := TxIndexKey(height, index);
    assert key[1..9] == BigEndian(height, 8);
    BigEndianRoundTrip(height, 8);
  }
}

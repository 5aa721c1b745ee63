/**
  Base 128 varints of the Protocol Buffers Encoding specification, as
  ethereum/eip712/web3.pb.go writes and reads them. A byte is or-ed into the
  accumulator above all bits already there, so the or is written as a sum.
*/
module Varint {
  import opened Words

  type byte = x: int | 0 <= x < 256

  function Encode(v: nat): (s: seq<byte>)
    ensures s != []
  {
    if v < 128 then [v] else [v % 128 + 128] + Encode(v / 128)
  }

  // ---------------------------------------------------------------------
  // Size
  // ---------------------------------------------------------------------

  /** math/bits.Len64. */
  function BitLen(n: nat): nat {
    if n == 0 then 0 else 1 + BitLen(n / 2)
  }

  /** x | 1. */
  function OrOne(x: nat): nat {
    if x % 2 == 0 then x + 1 else x
  }

  /** sovWeb3. */
  function Sov(x: nat): nat {
    (BitLen(OrOne(x)) + 6) / 7
  }

  lemma {:induction false} BitLenBy128(n: nat)
    requires n >= 128
    ensures BitLen(n) == 7 + BitLen(n / 128)
  {
    assert n / 2 / 2 / 2 / 2 / 2 / 2 / 2 == n / 128;
    assert BitLen(n) == 2 + BitLen(n / 2 / 2);
    assert BitLen(n / 2 / 2) == 2 + BitLen(n / 2 / 2 / 2 / 2);
    assert BitLen(n / 2 / 2 / 2 / 2) == 2 + BitLen(n / 2 / 2 / 2 / 2 / 2 / 2);
  }

  lemma {:induction false} BitLenSmall(n: nat)
    requires 1 <= n < 128
    ensures 1 <= BitLen(n) <= 7
  {
    assert BitLen(n) == 1 + BitLen(n / 2);
    assert n / 2 / 2 / 2 / 2 / 2 / 2 / 2 == 0;
    var a, b, c := n / 2 / 2, n / 2 / 2 / 2 / 2, n / 2 / 2 / 2 / 2 / 2 / 2;
    assert BitLen(c) <= 1;
    assert BitLen(b) <= 2 + BitLen(c);
    assert BitLen(a) <= 2 + BitLen(b);
  }

  lemma {:induction false} BitLenOrOne(n: nat)
    requires n >= 1
    ensures BitLen(OrOne(n)) == BitLen(n)
  {
    assert OrOne(n) / 2 == n / 2;
  }

  /** The bit-length formula gives exactly the encoded length. */
  lemma {:induction false} SovIsLength(v: nat)
    ensures Sov(v) == |Encode(v)|
  {
    if v < 128 {
      BitLenSmall(OrOne(v));
    } else {
      SovIsLength(v / 128);
      BitLenOrOne(v);
      BitLenOrOne(v / 128);
      BitLenBy128(v);
    }
  }

  // ---------------------------------------------------------------------
  // Reading
  // ---------------------------------------------------------------------

  /** Outcome of a read: a value and the bytes used, or the error and what was accumulated. */
  datatype Read = Value(v: nat, used: nat) | Overflow(partial: nat) | Eof(partial: nat)

  /** The read loop from byte k on, at shift 7k. */
  function ReadFrom(s: seq<byte>, k: nat, acc: nat): Read
    decreases |s|
  {
    if 7 * k >= 64 then Overflow(acc)
    else if s == [] then Eof(acc)
    else
      var sum := acc + (s[0] % 128 * Pow2(7 * k)) % TWO64;
      if s[0] < 128 then Value(sum, k + 1) else ReadFrom(s[1..], k + 1, sum)
  }

  function ReadVarint(s: seq<byte>): Read {
    ReadFrom(s, 0, 0)
  }

  /** A reader never uses more bytes than there are, nor more than ten. */
  lemma {:induction false} ReadFromUses(s: seq<byte>, k: nat, acc: nat)
    ensures var r := ReadFrom(s, k, acc); r.Value? ==> k < r.used <= k + |s| && r.used <= 10
    decreases |s|
  {
    if 7 * k < 64 && s != [] && s[0] >= 128 {
      ReadFromUses(s[1..], k + 1, acc + (s[0] % 128 * Pow2(7 * k)) % TWO64);
    }
  }

  /** All bytes but the last have the continuation bit. */
  predicate IsVarint(s: seq<byte>) {
    && 1 <= |s| <= 10
    && s[|s| - 1] < 128
    && forall i :: 0 <= i < |s| - 1 ==> s[i] >= 128
  }

  /** Any varint, minimal or not, is read to its end whatever follows. */
  lemma {:induction false} ReadIgnoresRest(s: seq<byte>, rest: seq<byte>, k: nat, acc: nat)
    requires s != [] && k + |s| <= 10 && s[|s| - 1] < 128
    requires forall i :: 0 <= i < |s| - 1 ==> s[i] >= 128
    ensures ReadFrom(s + rest, k, acc) == ReadFrom(s, k, acc)
    ensures ReadFrom(s, k, acc).Value? && ReadFrom(s, k, acc).used == k + |s|
    decreases |s|
  {
    if |s| > 1 {
      assert (s + rest)[1..] == s[1..] + rest;
      ReadIgnoresRest(s[1..], rest, k + 1, acc + (s[0] % 128 * Pow2(7 * k)) % TWO64);
    }
  }

  /** The number the low seven bits of the bytes stand for, the first being the least significant. */
  function Groups(s: seq<byte>): nat {
    if s == [] then 0 else s[0] % 128 + 128 * Groups(s[1..])
  }

  /** What is read of a varint, minimal or not, is that number cut to 64 bits. */
  lemma {:induction false} ReadMeans(s: seq<byte>)
    requires IsVarint(s)
    ensures ReadVarint(s) == Value(Groups(s) % TWO64, |s|)
  {
    ReadIgnoresRest(s, [], 0, 0);
    ReadIsGroups(s, 0, 0);
    ReadFits(s, 0, 0);
  }

  lemma {:induction false} ReadIsGroups(s: seq<byte>, k: nat, acc: nat)
    requires ReadFrom(s, k, acc).Value? && ReadFrom(s, k, acc).used == k + |s|
    ensures ReadFrom(s, k, acc).v % TWO64 == (acc + Groups(s) * Pow2(7 * k)) % TWO64
    decreases |s|
  {
    var p, low := Pow2(7 * k), s[0] % 128;
    if s[0] < 128 {
      assert s[1..] == [];
      AddModulo(acc, low * p);
    } else {
      ReadIsGroups(s[1..], k + 1, acc + (low * p) % TWO64);
      Pow2By7(7 * k);
      assert 7 * (k + 1) == 7 * k + 7;
      var rest := Groups(s[1..]);
      assert Groups(s) * p == low * p + rest * (128 * p) by { Distribute(low, rest, p); }
      AddModulo(acc + rest * (128 * p), low * p);
    }
  }

  lemma {:induction false} Distribute(low: nat, rest: nat, p: nat)
    ensures (low + 128 * rest) * p == low * p + rest * (128 * p)
  {
  }

  lemma {:induction false} AddModulo(a: int, b: int)
    ensures (a + b % TWO64) % TWO64 == (a + b) % TWO64
  {
  }

  lemma {:induction false} Pow2By7(n: nat)
    ensures Pow2(n + 7) == 128 * Pow2(n)
  {
    assert Pow2(n + 7) == 2 * Pow2(n + 6) == 4 * Pow2(n + 5);
    assert Pow2(n + 5) == 2 * Pow2(n + 4) == 4 * Pow2(n + 3);
    assert Pow2(n + 3) == 2 * Pow2(n + 2) == 4 * Pow2(n + 1);
  }

  lemma {:induction false} Pow2Monotone(m: nat, n: nat)
    requires m <= n
    ensures Pow2(m) <= Pow2(n)
    decreases n - m
  {
    if m < n { Pow2Monotone(m, n - 1); }
  }

  lemma {:induction false} Pow2Of64()
    ensures Pow2(64) == TWO64
  {
    assert Pow2(0) == 1;
    Pow2By7(0);
    assert Pow2(7) == 0x80;
    Pow2By7(7);
    assert Pow2(14) == 0x4000;
    Pow2By7(14);
    assert Pow2(21) == 0x20_0000;
    Pow2By7(21);
    assert Pow2(28) == 0x1000_0000;
    Pow2By7(28);
    assert Pow2(35) == 0x8_0000_0000;
    Pow2By7(35);
    assert Pow2(42) == 0x400_0000_0000;
    Pow2By7(42);
    assert Pow2(49) == 0x2_0000_0000_0000;
    Pow2By7(49);
    assert Pow2(56) == 0x100_0000_0000_0000;
    Pow2By7(56);
    assert Pow2(64) == 2 * Pow2(63);
  }

  /** Splitting off the low seven bits at a given weight. */
  lemma {:induction false} SplitLow(v: nat, w: nat)
    ensures v * w == v % 128 * w + v / 128 * (128 * w)
    ensures v % 128 * w >= 0 && v / 128 * (128 * w) >= 0
  {
  }

  /** Reading back an encoded value at any weight that keeps it below 2^64. */
  lemma {:induction false} ReadEncodedFrom(v: nat, k: nat, acc: nat)
    requires v * Pow2(7 * k) < TWO64 && 7 * k < 64 && (v == 0 ==> k == 0)
    ensures ReadFrom(Encode(v), k, acc) == Value(acc + v * Pow2(7 * k), k + |Encode(v)|)
    decreases v
  {
    if v >= 128 {
      var w, hi := Pow2(7 * k), v / 128;
      SplitLow(v, w);
      Pow2By7(7 * k);
      assert 7 * (k + 1) == 7 * k + 7;
      WeightBelow64(hi, 7 * (k + 1));
      ReadEncodedFrom(hi, k + 1, acc + v % 128 * w);
      ReadStep(v, k, acc);
    }
  }

  lemma {:induction false} ReadStep(v: nat, k: nat, acc: nat)
    requires v >= 128 && 7 * k < 64 && v % 128 * Pow2(7 * k) < TWO64
    ensures ReadFrom(Encode(v), k, acc) == ReadFrom(Encode(v / 128), k + 1, acc + v % 128 * Pow2(7 * k))
  {
    var s := Encode(v);
    assert s[0] == v % 128 + 128 && s[1..] == Encode(v / 128);
    assert s[0] % 128 == v % 128;
    var p := v % 128 * Pow2(7 * k);
    assert p >= 0;
    SmallModulo(p);
  }

  lemma {:induction false} SmallModulo(p: nat)
    requires p < TWO64
    ensures p % TWO64 == p
  {
  }

  lemma {:induction false} WeightBelow64(v: nat, n: nat)
    requires v >= 1 && v * Pow2(n) < TWO64
    ensures n < 64
  {
    if n >= 64 {
      Pow2Of64();
      Pow2Monotone(64, n);
    }
  }

  lemma {:induction false} EncodeIsContinued(v: nat)
    ensures var s := Encode(v); s[|s| - 1] < 128 && forall i :: 0 <= i < |s| - 1 ==> s[i] >= 128
  {
    if v >= 128 {
      EncodeIsContinued(v / 128);
      assert Encode(v)[1..] == Encode(v / 128);
    }
  }

  /** Varint round trip: any 64-bit value, whatever follows it. */
  lemma {:induction false} VarintRoundTrip(v: nat, rest: seq<byte>)
    requires v < TWO64
    ensures ReadVarint(Encode(v) + rest) == Value(v, |Encode(v)|)
    ensures ReadVarint(Encode(v)) == Value(v, |Encode(v)|)
    ensures IsVarint(Encode(v))
  {
    assert v * Pow2(0) == v;
    ReadEncodedFrom(v, 0, 0);
    ReadFromUses(Encode(v), 0, 0);
    EncodeIsContinued(v);
    ReadIgnoresRest(Encode(v), rest, 0, 0);
  }

  /** Whatever the bytes, a read value fits in 64 bits. */
  lemma {:induction false} ReadFits(s: seq<byte>, k: nat, acc: nat)
    requires 7 * k < 64 ==> acc < Pow2(7 * k)
    requires acc < TWO64
    ensures match ReadFrom(s, k, acc)
            case Value(v, _) => v < TWO64
            case Overflow(p) => p < TWO64
            case Eof(p) => p < TWO64
    decreases |s|
  {
    if 7 * k < 64 && s != [] {
      ShiftedBounds(s[0] % 128, k);
      if s[0] >= 128 {
        ReadFits(s[1..], k + 1, acc + (s[0] % 128 * Pow2(7 * k)) % TWO64);
      }
    }
  }

  /** The low seven bits shifted by 7k, cut to 64 bits, leave room for what is below. */
  lemma {:induction false} ShiftedBounds(b: nat, k: nat)
    requires b < 128 && k <= 9
    ensures Pow2(7 * k) + (b * Pow2(7 * k)) % TWO64 <= TWO64
    ensures k < 9 ==> Pow2(7 * k) + (b * Pow2(7 * k)) % TWO64 <= Pow2(7 * (k + 1))
  {
    Pow2Of64();
    if k < 9 {
      Pow2By7(7 * k);
      assert 7 * (k + 1) == 7 * k + 7;
      Pow2Monotone(7 * (k + 1), 64);
      BelowWord(b, Pow2(7 * k));
    } else {
      assert Pow2(64) == 2 * Pow2(63);
    }
  }

  lemma {:induction false} BelowWord(b: nat, w: nat)
    requires b < 128 && 128 * w <= TWO64
    ensures w + (b * w) % TWO64 <= 128 * w
  {
  }
}

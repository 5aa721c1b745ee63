/**
  Truncated input of the decoder of ethereum/eip712/web3.pb.go: cutting the
  encoding of well-formed fields anywhere but between two fields is noticed.
*/
module WireTruncation {
  import opened Wrappers
  import opened Words
  import opened Varint
  import opened WireFormat

  // ---------------------------------------------------------------------
  // Numbers and tags
  // ---------------------------------------------------------------------

  lemma {:induction false} ReadStarves(s: seq<byte>, k: nat, acc: nat)
    requires k + |s| <= 9 && forall i :: 0 <= i < |s| ==> s[i] >= 128
    ensures ReadFrom(s, k, acc).Eof?
    decreases |s|
  {
    if s != [] {
      ReadStarves(s[1..], k + 1, acc + (s[0] % 128 * Pow2(7 * k)) % TWO64);
    }
  }

  lemma {:induction false} CutVarint(raw: seq<byte>, n: nat)
    requires IsVarint(raw) && n < |raw|
    ensures ReadVarint(raw[..n]).Eof?
  {
    ReadStarves(raw[..n], 0, 0);
  }

  /** The first n elements of a + b, split at the end of a. */
  lemma {:induction false} Cut(a: seq<byte>, b: seq<byte>, n: nat)
    requires n <= |a| + |b|
    ensures n < |a| ==> (a + b)[..n] == a[..n]
    ensures n >= |a| ==> (a + b)[..n] == a + b[..n - |a|]
  {
  }

  // ---------------------------------------------------------------------
  // The skipper
  // ---------------------------------------------------------------------

  /** A round that fails for lack of bytes, or leaves the input at the field's full length. */
  ghost predicate Starved(s: seq<byte>, r: SkipStep, end: nat, depth: nat) {
    r == StepFailed(UnexpectedEOF) || (r == Stepped(end, depth) && end > |s|)
  }

  lemma {:induction false} CutTagStarves(s: seq<byte>, pos: nat, tag: seq<byte>, n: nat, depth: nat)
    requires pos < |s| < TWO63 && IsVarint(tag) && n < |tag| && s[pos..] == tag[..n]
    ensures ReadVarint(s[pos..]).Eof? && SkipOne(s, pos, depth) == StepFailed(UnexpectedEOF)
  {
    CutVarint(tag, n);
  }

  lemma {:induction false} CutVarintField(s: seq<byte>, pos: nat, tag: seq<byte>, raw: seq<byte>, n: nat, depth: nat)
    requires pos < |s| < TWO63 && IsTag(tag, 0) && IsVarint(raw) && n < |raw|
    requires s[pos..] == tag + raw[..n]
    ensures SkipOne(s, pos, depth) == StepFailed(UnexpectedEOF)
  {
    VarintAt(s, pos, tag, raw[..n]);
    CutVarint(raw, n);
  }

  /** A length-delimited payload that is cut: the length itself fails, or points past the input. */
  lemma {:induction false} CutPayload(s: seq<byte>, pos: nat, length: seq<byte>, bytes: seq<byte>, n: nat)
    requires pos <= |s| < TWO63 && IsVarint(length) && VarintValue(length) == |bytes| && n < |length + bytes|
    requires pos + |length + bytes| < TWO63 && s[pos..] == (length + bytes)[..n]
    ensures Starved(s, LengthAt(s, pos), pos + |length + bytes|, 0)
    ensures BytesAt(s, pos) == StepFailed(UnexpectedEOF)
  {
    Cut(length, bytes, n);
    if n < |length| {
      CutVarint(length, n);
    } else {
      VarintAt(s, pos, length, bytes[..n - |length|]);
    }
  }

  lemma {:induction false} CutBytesField(s: seq<byte>, pos: nat, f: Field, n: nat, depth: nat)
    requires pos < |s| < TWO63 && f.BytesField? && WellFormed(f) && n < |Body(f)|
    requires pos + |f.tag| + |Body(f)| < TWO63 && s[pos..] == f.tag + Body(f)[..n]
    ensures Starved(s, SkipOne(s, pos, depth), pos + |f.tag| + |Body(f)|, depth)
  {
    hide LengthAt, BytesAt;
    VarintAt(s, pos, f.tag, Body(f)[..n]);
    CutPayload(s, pos + |f.tag|, f.length, f.bytes, n);
  }

  /** A field without nesting, cut anywhere inside. */
  lemma {:induction false} CutScalar(s: seq<byte>, pos: nat, f: Field, n: nat, depth: nat)
    requires pos < |s| < TWO63 && WellFormed(f) && !f.GroupField? && pos + |EncodeField(f)| < TWO63
    requires n < |EncodeField(f)| && s[pos..] == EncodeField(f)[..n]
    ensures Starved(s, SkipOne(s, pos, depth), pos + |EncodeField(f)|, depth)
  {
    FieldParts(f);
    Cut(f.tag, Body(f), n);
    if n < |f.tag| {
      CutTagStarves(s, pos, f.tag, n, depth);
    } else {
      CutScalarBody(s, pos, f, n - |f.tag|, depth);
    }
  }

  lemma {:induction false} CutScalarBody(s: seq<byte>, pos: nat, f: Field, n: nat, depth: nat)
    requires pos < |s| < TWO63 && WellFormed(f) && !f.GroupField? && pos + |EncodeField(f)| < TWO63
    requires |EncodeField(f)| == |f.tag| + |Body(f)|
    requires n < |Body(f)| && s[pos..] == f.tag + Body(f)[..n]
    ensures Starved(s, SkipOne(s, pos, depth), pos + |EncodeField(f)|, depth)
  {
    assert |s| == pos + |f.tag| + n;
    match f
    case VarintField(tag, raw) => CutVarintField(s, pos, tag, raw, n, depth);
    case Fixed64Field(tag, bytes) => SkipFixed(s, pos, tag, bytes[..n], depth, 8);
    case BytesField(_, _, _) => CutBytesField(s, pos, f, n, depth);
    case Fixed32Field(tag, bytes) => SkipFixed(s, pos, tag, bytes[..n], depth, 4);
  }

  /** The whole skip runs out of bytes, or ends past the input where the field should end. */
  ghost predicate SkipStarved(s: seq<byte>, r: Skip, end: nat, depth: nat) {
    r == SkipFailed(UnexpectedEOF) || (depth == 0 && r == Skipped(end) && end > |s|)
  }

  lemma {:induction false} CutFieldStarvesSkip(s: seq<byte>, pos: nat, f: Field, n: nat, depth: nat)
    requires pos < |s| < TWO63 && WellFormed(f) && pos + |EncodeField(f)| < TWO63
    requires n < |EncodeField(f)| && s[pos..] == EncodeField(f)[..n]
    ensures SkipStarved(s, SkipFrom(s, pos, depth), pos + |EncodeField(f)|, depth)
    decreases f, 0
  {
    if f.GroupField? {
      CutGroupStarvesSkip(s, pos, f, n, depth);
    } else {
      CutScalar(s, pos, f, n, depth);
    }
  }

  lemma {:induction false} CutGroupStarvesSkip(s: seq<byte>, pos: nat, f: Field, n: nat, depth: nat)
    requires pos < |s| < TWO63 && WellFormed(f) && f.GroupField? && pos + |EncodeField(f)| < TWO63
    requires n < |EncodeField(f)| && s[pos..] == EncodeField(f)[..n]
    ensures SkipFrom(s, pos, depth) == SkipFailed(UnexpectedEOF)
    decreases f, 0, 0
  {
    hide SkipOne;
    FieldParts(f);
    var body := Body(f);
    Cut(f.tag, body, n);
    if n < |f.tag| {
      CutTagStarves(s, pos, f.tag, n, depth);
    } else {
      var rest := body[..n - |f.tag|];
      var inner := pos + |f.tag|;
      Drop(s, pos, f.tag, rest);
      CutFieldsStarveSkip(s, inner, f.fields, f.close, n - |f.tag|, depth + 1);
      SkipStepsOverTag(s, pos, f.tag, true, rest, depth, inner, SkipFailed(UnexpectedEOF));
    }
  }

  /** Inside a group: fields and the closing tag, cut anywhere before its end. */
  lemma {:induction false} CutFieldsStarveSkip(s: seq<byte>, pos: nat, fs: seq<Field>, close: seq<byte>, n: nat, depth: nat)
    requires pos <= |s| < TWO63 && depth > 0 && IsTag(close, 4)
    requires forall i :: 0 <= i < |fs| ==> WellFormed(fs[i])
    requires pos + |EncodeFields(fs) + close| < TWO63
    requires n < |EncodeFields(fs) + close| && s[pos..] == (EncodeFields(fs) + close)[..n]
    ensures SkipFrom(s, pos, depth) == SkipFailed(UnexpectedEOF)
    decreases fs, 1
  {
    hide SkipOne, EncodeField, WellFormed;
    if n > 0 {
      if fs == [] {
        assert EncodeFields(fs) + close == close;
        CutTagStarves(s, pos, close, n, depth);
      } else {
        var head, tail := EncodeField(fs[0]), EncodeFields(fs[1..]) + close;
        FieldsSplit(fs, close);
        Cut(head, tail, n);
        if n < |head| {
          CutFieldStarvesSkip(s, pos, fs[0], n, depth);
        } else {
          Drop(s, pos, head, tail[..n - |head|]);
          CutFieldsStarveSkip(s, pos + |head|, fs[1..], close, n - |head|, depth);
          SkipPassesField(s, pos, fs[0], tail[..n - |head|], depth, pos + |head|, SkipFailed(UnexpectedEOF));
        }
      }
    }
  }

  // ---------------------------------------------------------------------
  // The decoder
  // ---------------------------------------------------------------------

  ghost predicate OutOfBytes(r: FieldStep) {
    r.FieldFailed? && r.error == UnexpectedEOF
  }

  /** One decoder round on a field that is cut runs out of bytes, whatever the field. */
  lemma {:induction false} CutFieldNotDecoded(s: seq<byte>, pos: nat, f: Field, n: nat, m: Web3Tx)
    requires pos < |s| < TWO63 && Good(f) && pos + |EncodeField(f)| < TWO63
    requires n < |EncodeField(f)| && s[pos..] == EncodeField(f)[..n]
    ensures OutOfBytes(DecodeOne(s, pos, m))
  {
    FieldParts(f);
    Cut(f.tag, Body(f), n);
    if n < |f.tag| {
      CutTagStarves(s, pos, f.tag, n, 0);
    } else {
      DecodeReadsTag(s, pos, f.tag, Body(f)[..n - |f.tag|], m);
      CutBodyNotDecoded(s, pos, f, n, m);
    }
  }

  lemma {:induction false} CutBodyNotDecoded(s: seq<byte>, pos: nat, f: Field, n: nat, m: Web3Tx)
    requires pos < |s| < TWO63 && Good(f) && pos + |EncodeField(f)| < TWO63
    requires |EncodeField(f)| == |f.tag| + |Body(f)| && |f.tag| <= n < |EncodeField(f)|
    requires s[pos..] == EncodeField(f)[..n] && pos + |f.tag| <= |s|
    requires s[pos + |f.tag|..] == Body(f)[..n - |f.tag|]
    ensures OutOfBytes(DecodePayload(s, pos, pos + |f.tag|, Num(f), WireType(f), m))
  {
    hide DecodePayload, EncodeField, EncodeFields;
    var at := pos + |f.tag|;
    if Num(f) == 1 {
      CutChainIdNotDecoded(s, pos, at, f.raw, n - |f.tag|, m);
    } else if Num(f) == 2 || Num(f) == 3 {
      CutBytesNotDecoded(s, pos, at, Num(f), f.length, f.bytes, n - |f.tag|, m);
    } else {
      CutUnknownNotDecoded(s, pos, f, n, m);
    }
  }

  lemma {:induction false} CutChainIdNotDecoded(s: seq<byte>, pos: nat, at: nat, raw: seq<byte>, n: nat, m: Web3Tx)
    requires pos < at <= |s| < TWO63 && IsVarint(raw) && n < |raw| && s[at..] == raw[..n]
    ensures OutOfBytes(DecodePayload(s, pos, at, 1, 0, m))
  {
    CutVarint(raw, n);
  }

  lemma {:induction false} CutBytesNotDecoded(s: seq<byte>, pos: nat, at: nat, num: int, length: seq<byte>,
                                              bytes: seq<byte>, n: nat, m: Web3Tx)
    requires pos < at <= |s| < TWO63 && (num == 2 || num == 3) && IsVarint(length) && VarintValue(length) == |bytes|
    requires n < |length + bytes| && at + |length + bytes| < TWO63 && s[at..] == (length + bytes)[..n]
    ensures OutOfBytes(DecodePayload(s, pos, at, num, 2, m))
  {
    CutPayload(s, at, length, bytes, n);
  }

  lemma {:induction false} CutUnknownNotDecoded(s: seq<byte>, pos: nat, f: Field, n: nat, m: Web3Tx)
    requires pos < |s| < TWO63 && WellFormed(f) && Num(f) > 3 && pos + |EncodeField(f)| < TWO63
    requires |f.tag| <= n < |EncodeField(f)| && s[pos..] == EncodeField(f)[..n] && pos + |f.tag| <= |s|
    ensures OutOfBytes(DecodePayload(s, pos, pos + |f.tag|, Num(f), WireType(f), m))
  {
    var t := s[pos..];
    assert t[0..] == t;
    CutFieldStarvesSkip(t, 0, f, n, 0);
    assert |t| == |s| - pos;
  }

  /** The end of some whole number of fields. */
  ghost predicate IsBoundary(fs: seq<Field>, k: nat) {
    exists j :: 0 <= j <= |fs| && k == |EncodeFields(fs[..j])|
  }

  /** Splits a cut position into the whole fields before it and what is left of the next. */
  lemma {:induction false} FindCut(fs: seq<Field>, k: nat) returns (j: nat, n: nat)
    requires k <= |EncodeFields(fs)|
    ensures j <= |fs| && (j < |fs| ==> n < |EncodeField(fs[j])|) && (j == |fs| ==> n == 0)
    ensures EncodeFields(fs)[..k] == EncodeFields(fs[..j]) + (if j < |fs| then EncodeField(fs[j])[..n] else [])
    decreases |fs|
  {
    if fs == [] {
      j, n := 0, 0;
    } else {
      var head, tail := EncodeField(fs[0]), EncodeFields(fs[1..]);
      Cut(head, tail, k);
      if k < |head| {
        j, n := 0, k;
        assert fs[..0] == [];
      } else {
        j, n := FindCut(fs[1..], k - |head|);
        assert fs[..j + 1][1..] == fs[1..][..j] && fs[..j + 1][0] == fs[0];
        assert EncodeFields(fs[..j + 1]) == head + EncodeFields(fs[1..][..j]);
        j := j + 1;
      }
    }
  }

  lemma {:induction false} PrefixLength(fs: seq<Field>, i: nat, j: nat)
    requires i < j <= |fs|
    ensures |EncodeFields(fs[..i])| + |EncodeField(fs[i])| <= |EncodeFields(fs[..j])|
    decreases j
  {
    Snoc(fs, j - 1);
    if i < j - 1 {
      PrefixLength(fs, i, j - 1);
    }
  }

  lemma {:induction false} Snoc(fs: seq<Field>, j: nat)
    requires j < |fs|
    ensures |EncodeFields(fs[..j + 1])| == |EncodeFields(fs[..j])| + |EncodeField(fs[j])|
    decreases |fs|
  {
    if j > 0 {
      Snoc(fs[1..], j - 1);
      assert fs[..j + 1][1..] == fs[1..][..j] && fs[..j][1..] == fs[1..][..j - 1];
    } else {
      assert fs[..1][1..] == [] && fs[..0] == [];
    }
  }

  /**
    Truncation is noticed exactly: the first k bytes of any well-formed fields decode without
    error if and only if the cut lies between two fields; every other cut is an unexpected
    end of input.
  */
  lemma {:induction false} TruncationNoticed(fs: seq<Field>, k: nat, m: Web3Tx)
    requires AllGood(fs)
    requires k <= |EncodeFields(fs)| < TWO63
    ensures DecodeFrom(EncodeFields(fs)[..k], 0, m).error ==
            if IsBoundary(fs, k) then None else Some(UnexpectedEOF)
  {
    var s := EncodeFields(fs)[..k];
    var j, n := FindCut(fs, k);
    var whole := fs[..j];
    if n == 0 {
      assert s == EncodeFields(whole);
      DecodeAppliesAll(s, whole, m);
      assert IsBoundary(fs, k);
    } else {
      CutDecodes(fs, j, n, s, m);
      NotBoundary(fs, j, n, k);
    }
  }

  lemma {:induction false} CutDecodes(fs: seq<Field>, j: nat, n: nat, s: seq<byte>, m: Web3Tx)
    requires AllGood(fs)
    requires j < |fs| && 0 < n < |EncodeField(fs[j])| && |EncodeFields(fs)| < TWO63
    requires s == EncodeFields(fs[..j]) + EncodeField(fs[j])[..n]
    ensures |s| < TWO63 && DecodeFrom(s, 0, m).error == Some(UnexpectedEOF)
  {
    PrefixLength(fs, j, |fs|);
    assert fs[..|fs|] == fs;
    var whole, rest := fs[..j], EncodeField(fs[j])[..n];
    var pos := |EncodeFields(whole)|;
    assert s[0..] == EncodeFields(whole) + rest && s[pos..] == rest;
    var m' := ApplyAll(m, whole);
    CutFieldNotDecoded(s, pos, fs[j], n, m');
    DecodeAppliesPrefix(s, 0, whole, rest, m, pos, DecodeFrom(s, pos, m'));
  }

  lemma {:induction false} NotBoundary(fs: seq<Field>, j: nat, n: nat, k: nat)
    requires j < |fs| && 0 < n < |EncodeField(fs[j])| && k == |EncodeFields(fs[..j])| + n
    ensures !IsBoundary(fs, k)
  {
    forall i | 0 <= i <= |fs| ensures k != |EncodeFields(fs[..i])| {
      if i < j {
        PrefixLength(fs, i, j);
      } else if i > j {
        PrefixLength(fs, j, i);
      }
    }
  }

  // ---------------------------------------------------------------------
  // Numbers that do not end, or are too large
  // ---------------------------------------------------------------------

  ghost predicate Continued(s: seq<byte>) {
    forall i :: 0 <= i < |s| ==> s[i] >= 128
  }

  lemma {:induction false} ReadOverflows(s: seq<byte>, k: nat, acc: nat)
    requires k <= 10 <= k + |s| && Continued(s[..10 - k])
    ensures ReadFrom(s, k, acc).Overflow?
    decreases |s|
  {
    if k < 10 {
      assert s[..10 - k][0] == s[0] && s[1..][..9 - k] == s[..10 - k][1..];
      ReadOverflows(s[1..], k + 1, acc + (s[0] % 128 * Pow2(7 * k)) % TWO64);
    }
  }

  /** Ten bytes that all announce another one are an integer overflow, as a tag and as a chain id. */
  lemma {:induction false} EndlessNumberRefused(s: seq<byte>, pos: nat, m: Web3Tx)
    requires pos + 10 <= |s| < TWO63 && Continued(s[pos..pos + 10])
    ensures DecodeFrom(s, pos, m) == Decoded(m, Some(IntOverflow))
    ensures pos > 0 && s[pos - 1] == 0x08 ==> DecodeFrom(s, pos - 1, m).error == Some(IntOverflow)
  {
    assert s[pos..][..10] == s[pos..pos + 10];
    ReadOverflows(s[pos..], 0, 0);
    if pos > 0 && s[pos - 1] == 0x08 {
      assert s[pos - 1..] == [0x08] + s[pos..];
      DecodeReadsTag(s, pos - 1, [0x08], s[pos..], m);
    }
  }

  lemma {:induction false} StarvedPartial(s: seq<byte>, k: nat, acc: nat)
    requires k + |s| <= 9 && Continued(s) && acc < Pow2(7 * k)
    ensures ReadFrom(s, k, acc) == Eof(acc + Groups(s) * Pow2(7 * k))
    decreases |s|
  {
    if s != [] {
      var p, low := Pow2(7 * k), s[0] % 128;
      Pow2By7(7 * k);
      assert 7 * (k + 1) == 7 * k + 7;
      Pow2Monotone(7 * k + 7, 64);
      Pow2Of64();
      BelowNext(low, p);
      StarvedPartial(s[1..], k + 1, acc + low * p);
      Distribute(low, Groups(s[1..]), p);
    }
  }

  lemma {:induction false} BelowNext(low: nat, p: nat)
    requires low < 128 && 128 * p <= TWO64
    ensures p + low * p <= 128 * p && (p > 0 ==> (low * p) % TWO64 == low * p)
  {
  }

  /** A chain id that is cut leaves what was read of it in the message. */
  lemma {:induction false} CutChainIdIsKept(s: seq<byte>, pos: nat, m: Web3Tx)
    requires pos < |s| < TWO63 && s[pos] == 0x08 && |s| - pos <= 10 && Continued(s[pos + 1..])
    ensures DecodeFrom(s, pos, m) == Decoded(m.(chainId := Groups(s[pos + 1..])), Some(UnexpectedEOF))
  {
    assert s[pos..] == [0x08] + s[pos + 1..];
    DecodeReadsTag(s, pos, [0x08], s[pos + 1..], m);
    StarvedPartial(s[pos + 1..], 0, 0);
    assert Pow2(0) == 1;
  }

  /** A length of 2^63 or more is refused as such, for the two byte fields and for unknown ones. */
  lemma {:induction false} HugeLengthRefused(s: seq<byte>, pos: nat, tag: seq<byte>, length: seq<byte>, rest: seq<byte>, m: Web3Tx)
    requires pos < |s| < TWO63 && IsTag(tag, 2) && ToInt32(VarintValue(tag) / 8) > 1
    requires IsVarint(length) && VarintValue(length) >= TWO63 && s[pos..] == tag + (length + rest)
    ensures DecodeFrom(s, pos, m) == Decoded(m, Some(InvalidLength))
  {
    DecodeReadsTag(s, pos, tag, length + rest, m);
    VarintAt(s, pos + |tag|, length, rest);
    var t := s[pos..];
    assert t[0..] == t;
    VarintAt(t, 0, tag, length + rest);
    VarintAt(t, |tag|, length, rest);
  }
}

/**
  Marshal and Unmarshal of ExtensionOptionsWeb3Tx (ethereum/eip712/web3.pb.go):
  a buffer filled from the back, a decoder that moves an index forward.
*/
module Web3Codec {
  import opened Wrappers
  import opened Words
  import opened Varint
  import opened WireFormat

  /** Values a Go message can hold: a uint64 and slices of int length. */
  predicate InRange(m: Web3Tx) {
    m.chainId < TWO64 && |m.feePayer| < TWO63 && |m.feePayerSig| < TWO63
  }

  // The fields present on the wire: proto3 leaves out zero values.

  function ChainIdField(m: Web3Tx): seq<Field> {
    if m.chainId != 0 then [VarintField([0x08], Encode(m.chainId))] else []
  }

  function FeePayerField(m: Web3Tx): seq<Field> {
    if m.feePayer != [] then [BytesField([0x12], Encode(|m.feePayer|), m.feePayer)] else []
  }

  function FeePayerSigField(m: Web3Tx): seq<Field> {
    if m.feePayerSig != [] then [BytesField([0x1a], Encode(|m.feePayerSig|), m.feePayerSig)] else []
  }

  /** The wire form of a length-delimited field with a one-byte tag, if present. */
  function BytesSection(tag: byte, payload: seq<byte>): seq<byte> {
    if payload == [] then [] else [tag] + Encode(|payload|) + payload
  }

  function ChainIdSection(v: nat): seq<byte> {
    if v == 0 then [] else [0x08] + Encode(v)
  }

  function EncodeMessage(m: Web3Tx): seq<byte> {
    ChainIdSection(m.chainId) + BytesSection(0x12, m.feePayer) + BytesSection(0x1a, m.feePayerSig)
  }

  /** Size: computed from bit lengths, without encoding. */
  function Size(m: Web3Tx): (n: nat)
    ensures n == |EncodeMessage(m)|
  {
    SovIsLength(m.chainId);
    SovIsLength(|m.feePayer|);
    SovIsLength(|m.feePayerSig|);
    (if m.chainId != 0 then 1 + Sov(m.chainId) else 0)
    + (if |m.feePayer| > 0 then 1 + |m.feePayer| + Sov(|m.feePayer|) else 0)
    + (if |m.feePayerSig| > 0 then 1 + |m.feePayerSig| + Sov(|m.feePayerSig|) else 0)
  }

  // ---------------------------------------------------------------------
  // Writing
  // ---------------------------------------------------------------------

  /** c with the stretch from a to b overwritten by x. */
  ghost function Splice(c: seq<byte>, a: nat, b: nat, x: seq<byte>): seq<byte>
    requires a <= b <= |c|
  {
    c[..a] + x + c[b..]
  }

  /** Writing x directly before what was just written gives one longer stretch. */
  lemma {:induction false} SpliceBefore(c: seq<byte>, a: nat, b: nat, e: nat, x: seq<byte>, y: seq<byte>)
    requires a <= b <= e <= |c| && |x| == b - a && |y| == e - b
    ensures Splice(Splice(c, b, e, y), a, b, x) == Splice(c, a, e, x + y)
  {
  }

  /** The bytes written so far, one more of them, and what is left to encode. */
  lemma {:induction false} EncodeStep(done: seq<byte>, w: nat)
    requires w >= 128
    ensures done + [w % 128 + 128] + Encode(w / 128) == done + Encode(w)
    ensures |Encode(w)| == 1 + |Encode(w / 128)|
  {
  }

  /** c is c0 with done written from base up to at. */
  ghost predicate Written(c0: seq<byte>, c: seq<byte>, base: nat, at: nat, done: seq<byte>) {
    && |c| == |c0| && base <= at <= |c| && |done| == at - base
    && c[..at] == c0[..base] + done && c[at..] == c0[at..]
  }

  lemma {:induction false} WrittenIsSplice(c0: seq<byte>, c: seq<byte>, base: nat, at: nat, done: seq<byte>)
    requires Written(c0, c, base, at, done)
    ensures c == Splice(c0, base, at, done)
  {
  }

  /** encodeVarintWeb3: fills the bytes just before offset and returns where they start. */
  method EncodeVarintWeb3(buf: array<byte>, offset: nat, v: nat) returns (base: nat)
    requires Sov(v) <= offset <= buf.Length
    modifies buf
    ensures base == offset - Sov(v)
    ensures buf[..] == Splice(old(buf[..]), base, offset, Encode(v))
  {
    SovIsLength(v);
    base := offset - Sov(v);
    var at, w := base, v;
    ghost var done: seq<byte> := [];
    while w >= 128
      invariant at + |Encode(w)| == offset && done + Encode(w) == Encode(v)
      invariant Written(old(buf[..]), buf[..], base, at, done)
      decreases w
    {
      EncodeStep(done, w);
      done := done + [w % 128 + 128];
      buf[at] := w % 128 + 128;
      w := w / 128;
      at := at + 1;
    }
    buf[at] := w;
    WrittenIsSplice(old(buf[..]), buf[..], base, offset, Encode(v));
  }

  /** copy(dAtA[at:], payload). */
  method Copy(buf: array<byte>, at: nat, payload: seq<byte>)
    requires at + |payload| <= buf.Length
    modifies buf
    ensures buf[..] == Splice(old(buf[..]), at, at + |payload|, payload)
  {
    forall k | 0 <= k < |payload| {
      buf[at + k] := payload[k];
    }
    assert buf[..] == buf[..at] + buf[at..at + |payload|] + buf[at + |payload|..];
  }

  method PutByte(buf: array<byte>, at: nat, b: byte)
    requires at < buf.Length
    modifies buf
    ensures buf[..] == Splice(old(buf[..]), at, at + 1, [b])
  {
    buf[at] := b;
    assert buf[..] == buf[..at] + [b] + buf[at + 1..];
  }

  /** A number and the tag in front of it. */
  method WriteTaggedVarint(buf: array<byte>, end: nat, tag: byte, v: nat) returns (start: nat)
    requires 1 + |Encode(v)| <= end <= buf.Length
    modifies buf
    ensures start == end - 1 - |Encode(v)|
    ensures buf[..] == Splice(old(buf[..]), start, end, [tag] + Encode(v))
  {
    ghost var c := buf[..];
    SovIsLength(v);
    start := EncodeVarintWeb3(buf, end, v);
    start := start - 1;
    PutByte(buf, start, tag);
    SpliceBefore(c, start, start + 1, end, [tag], Encode(v));
  }

  /** The block of MarshalToSizedBuffer that writes one length-delimited field before end. */
  method WriteBytesSection(buf: array<byte>, end: nat, tag: byte, payload: seq<byte>) returns (start: nat)
    requires |BytesSection(tag, payload)| <= end <= buf.Length
    modifies buf
    ensures start == end - |BytesSection(tag, payload)|
    ensures buf[..] == Splice(old(buf[..]), start, end, BytesSection(tag, payload))
  {
    start := end;
    ghost var c := buf[..];
    if |payload| > 0 {
      var body := end - |payload|;
      Copy(buf, body, payload);
      start := WriteTaggedVarint(buf, body, tag, |payload|);
      SpliceBefore(c, start, body, end, [tag] + Encode(|payload|), payload);
    }
  }

  method WriteChainIdSection(buf: array<byte>, end: nat, v: nat) returns (start: nat)
    requires |ChainIdSection(v)| <= end <= buf.Length
    modifies buf
    ensures start == end - |ChainIdSection(v)|
    ensures buf[..] == Splice(old(buf[..]), start, end, ChainIdSection(v))
  {
    start := end;
    if v != 0 {
      start := WriteTaggedVarint(buf, end, 0x08, v);
    }
  }

  /** MarshalToSizedBuffer: the encoding ends up flush with the end of the buffer, nothing else is touched. */
  method MarshalToSizedBuffer(m: Web3Tx, buf: array<byte>) returns (n: nat)
    requires Size(m) <= buf.Length
    modifies buf
    ensures n == Size(m)
    ensures buf[..] == old(buf[..buf.Length - n]) + EncodeMessage(m)
  {
    ghost var c := buf[..];
    var sig := WriteBytesSection(buf, buf.Length, 0x1a, m.feePayerSig);
    var payer := WriteBytesSection(buf, sig, 0x12, m.feePayer);
    var i := WriteChainIdSection(buf, payer, m.chainId);
    ThreeSplices(c, i, payer, sig, ChainIdSection(m.chainId), BytesSection(0x12, m.feePayer),
                 BytesSection(0x1a, m.feePayerSig));
    n := buf.Length - i;
  }

  lemma {:induction false} ThreeSplices(c: seq<byte>, a: nat, b: nat, d: nat, x: seq<byte>, y: seq<byte>, z: seq<byte>)
    requires a <= b <= d <= |c| && |x| == b - a && |y| == d - b && |z| == |c| - d
    ensures Splice(Splice(Splice(c, d, |c|, z), b, d, y), a, b, x) == c[..a] + (x + y + z)
  {
  }

  /** Marshal: a fresh buffer of exactly Size bytes, filled completely. */
  method Marshal(m: Web3Tx) returns (data: array<byte>)
    ensures fresh(data) && data.Length == Size(m) && data[..] == EncodeMessage(m)
  {
    var size := Size(m);
    data := new byte[size];
    var n := MarshalToSizedBuffer(m, data);
  }

  // ---------------------------------------------------------------------
  // Reading
  // ---------------------------------------------------------------------

  /** The varint loop that Unmarshal and skipWeb3 repeat at every number. */
  method ReadVarintAt(data: seq<byte>, index: nat) returns (r: Read)
    requires index <= |data|
    ensures r == ReadVarint(data[index..])
  {
    var k: nat, at, acc: nat := 0, index, 0;
    while true
      invariant index <= at <= |data|
      invariant ReadVarint(data[index..]) == ReadFrom(data[at..], k, acc)
      decreases |data| - at
    {
      if 7 * k >= 64 {
        return Overflow(acc);
      }
      if at >= |data| {
        return Eof(acc);
      }
      var b := data[at];
      assert data[at..][0] == b && data[at..][1..] == data[at + 1..];
      at := at + 1;
      acc := acc + (b % 128 * Pow2(7 * k)) % TWO64;
      if b < 128 {
        return Value(acc, k + 1);
      }
      k := k + 1;
    }
  }

  /** skipWeb3. */
  method SkipWeb3(data: seq<byte>) returns (r: Skip)
    requires |data| < TWO63
    ensures r == SkipFrom(data, 0, 0)
  {
    var index: nat, depth: nat := 0, 0;
    while index < |data|
      invariant SkipFrom(data, 0, 0) == SkipFrom(data, index, depth)
      decreases |data| - index
    {
      var step := SkipOneAt(data, index, depth);
      if step.StepFailed? {
        return SkipFailed(step.error);
      }
      if step.next < 0 {
        return SkipFailed(InvalidLength);
      }
      if step.depth == 0 {
        return Skipped(step.next);
      }
      index, depth := step.next, step.depth;
    }
    return SkipFailed(UnexpectedEOF);
  }

  /** The body of skipWeb3's loop. */
  method SkipOneAt(data: seq<byte>, index: nat, depth: nat) returns (r: SkipStep)
    requires index < |data| < TWO63
    ensures r == SkipOne(data, index, depth)
  {
    var tag := ReadVarintAt(data, index);
    if !tag.Value? {
      return StepFailed(ReadError(tag));
    }
    ReadFromUses(data[index..], 0, 0);
    var at := index + tag.used;
    match tag.v % 8
    case 0 =>
      var v := ReadVarintAt(data, at);
      if !v.Value? {
        return StepFailed(ReadError(v));
      }
      return Stepped(at + v.used, depth);
    case 1 =>
      return Stepped(ToInt64(at + 8), depth);
    case 2 =>
      var n := ReadVarintAt(data, at);
      if !n.Value? {
        return StepFailed(ReadError(n));
      }
      ReadFits(data[at..], 0, 0);
      ReadFromUses(data[at..], 0, 0);
      var length := ToInt64(n.v);
      if length < 0 {
        return StepFailed(InvalidLength);
      }
      return Stepped(ToInt64(at + n.used + length), depth);
    case 3 =>
      return Stepped(at, depth + 1);
    case 4 =>
      if depth == 0 {
        return StepFailed(UnexpectedEndOfGroup);
      }
      return Stepped(at, depth - 1);
    case 5 =>
      return Stepped(ToInt64(at + 4), depth);
    case _ =>
      return StepFailed(IllegalWireType);
  }

  /** The message under construction; Unmarshal sets its fields one by one, without resetting first. */
  class Message {
    var chainId: nat
    var feePayer: seq<byte>
    var feePayerSig: seq<byte>

    ghost function Contents(): Web3Tx
      reads this
    {
      Web3Tx(chainId, feePayer, feePayerSig)
    }

    constructor ()
      ensures Contents() == EMPTY
    {
      chainId, feePayer, feePayerSig := 0, [], [];
    }

    /** The length-delimited cases of the switch: the payload's bounds, or an error. */
    method ReadBytesAt(data: seq<byte>, at: nat) returns (from: nat, end: nat, error: Option<Error>)
      requires at <= |data| < TWO63
      ensures error.Some? <==> BytesAt(data, at).StepFailed?
      ensures error.Some? ==> error.value == BytesAt(data, at).error
      ensures error.None? ==>
        && ReadVarint(data[at..]).Value?
        && from == at + ReadVarint(data[at..]).used && from <= end <= |data| && end == BytesAt(data, at).next
    {
      from, end := 0, 0;
      var n := ReadVarintAt(data, at);
      if !n.Value? {
        return from, end, Some(ReadError(n));
      }
      ReadFits(data[at..], 0, 0);
      ReadFromUses(data[at..], 0, 0);
      var length := ToInt64(n.v);
      if length < 0 {
        return from, end, Some(InvalidLength);
      }
      var postIndex := ToInt64(at + n.used + length);
      if postIndex < 0 {
        return from, end, Some(InvalidLength);
      }
      if postIndex > |data| {
        return from, end, Some(UnexpectedEOF);
      }
      return at + n.used, postIndex, None;
    }

    /** The body of Unmarshal's loop. */
    method UnmarshalField(data: seq<byte>, index: nat) returns (next: nat, error: Option<Error>)
      requires index < |data| < TWO63
      modifies this
      ensures match DecodeOne(data, index, old(Contents()))
              case FieldDone(msg, n) => error.None? && next == n && Contents() == msg
              case FieldFailed(msg, e) => error == Some(e) && Contents() == msg
    {
      next := index;
      var tag := ReadVarintAt(data, index);
      if !tag.Value? {
        return next, Some(ReadError(tag));
      }
      ReadFromUses(data[index..], 0, 0);
      var at := index + tag.used;
      var fieldNum, wireType := ToInt32(tag.v / 8), tag.v % 8;
      if wireType == 4 {
        return next, Some(EndGroupOutsideGroup);
      }
      if fieldNum <= 0 {
        return next, Some(IllegalTag);
      }
      match fieldNum
      case 1 =>
        if wireType != 0 {
          return next, Some(WrongWireType);
        }
        var v := ReadVarintAt(data, at);
        if !v.Value? {
          chainId := v.partial;
          return next, Some(ReadError(v));
        }
        chainId := v.v;
        return at + v.used, None;
      case 2 =>
        if wireType != 2 {
          return next, Some(WrongWireType);
        }
        var from, end, e := ReadBytesAt(data, at);
        if e.Some? {
          return next, e;
        }
        feePayer := data[from..end];
        return end, None;
      case 3 =>
        if wireType != 2 {
          return next, Some(WrongWireType);
        }
        var from, end, e := ReadBytesAt(data, at);
        if e.Some? {
          return next, e;
        }
        feePayerSig := data[from..end];
        return end, None;
      case _ =>
        var skipped := SkipWeb3(data[index..]);
        if skipped.SkipFailed? {
          return next, Some(skipped.error);
        }
        if index + skipped.next >= TWO63 {
          return next, Some(InvalidLength);
        }
        if index + skipped.next > |data| {
          return next, Some(UnexpectedEOF);
        }
        return index + skipped.next, None;
    }

    /** Unmarshal terminates on every input and does what DecodeFrom says, also to a message it fails on. */
    method Unmarshal(data: seq<byte>) returns (error: Option<Error>)
      requires |data| < TWO63
      modifies this
      ensures Decoded(Contents(), error) == DecodeFrom(data, 0, old(Contents()))
    {
      var index: nat := 0;
      while index < |data|
        invariant index <= |data|
        invariant DecodeFrom(data, 0, old(Contents())) == DecodeFrom(data, index, Contents())
        decreases |data| - index
      {
        var next, e := UnmarshalField(data, index);
        if e.Some? {
          return e;
        }
        index := next;
      }
      return None;
    }
  }

  // ---------------------------------------------------------------------
  // Round trips
  // ---------------------------------------------------------------------

  /** Unknown fields: any well-formed field whose number the message does not declare. */
  ghost predicate AllUnknown(fs: seq<Field>) {
    forall i :: 0 <= i < |fs| ==> WellFormed(fs[i]) && Num(fs[i]) > 3
  }

  lemma {:induction false} EncodeFieldsConcat(a: seq<Field>, b: seq<Field>)
    ensures EncodeFields(a + b) == EncodeFields(a) + EncodeFields(b)
    decreases |a|
  {
    if a == [] {
      assert a + b == b;
    } else {
      assert (a + b)[1..] == a[1..] + b;
      EncodeFieldsConcat(a[1..], b);
    }
  }

  lemma {:induction false} ApplyAllConcat(m: Web3Tx, a: seq<Field>, b: seq<Field>)
    requires AllGood(a) && AllGood(b)
    ensures ApplyAll(m, a + b) == ApplyAll(ApplyAll(m, a), b)
    decreases |a|
  {
    if a == [] {
      assert a + b == b;
    } else {
      assert (a + b)[1..] == a[1..] + b;
      ApplyAllConcat(Apply(m, a[0]), a[1..], b);
    }
  }

  lemma {:induction false} ApplyAllUnknown(m: Web3Tx, fs: seq<Field>)
    requires AllUnknown(fs)
    ensures ApplyAll(m, fs) == m
    decreases |fs|
  {
    if fs != [] {
      ApplyAllUnknown(m, fs[1..]);
    }
  }

  lemma {:induction false} ChainIdFieldApplies(m: Web3Tx, to: Web3Tx)
    requires InRange(m)
    ensures AllGood(ChainIdField(m))
    ensures ApplyAll(to, ChainIdField(m)) == if m.chainId == 0 then to else to.(chainId := m.chainId)
    ensures EncodeFields(ChainIdField(m)) == ChainIdSection(m.chainId)
  {
    if m.chainId != 0 {
      VarintRoundTrip(m.chainId, []);
      var f := VarintField([0x08], Encode(m.chainId));
      assert ApplyAll(to, [f]) == ApplyAll(Apply(to, f), []);
    }
  }

  lemma {:induction false} BytesFieldGood(num: nat, tag: seq<byte>, payload: seq<byte>, to: Web3Tx)
    requires |payload| < TWO63 && ((num == 2 && tag == [0x12]) || (num == 3 && tag == [0x1a]))
    ensures var f := BytesField(tag, Encode(|payload|), payload);
            && Good(f) && EncodeFields([f]) == tag + Encode(|payload|) + payload
            && ApplyAll(to, [f]) == if num == 2 then to.(feePayer := payload) else to.(feePayerSig := payload)
  {
    var f := BytesField(tag, Encode(|payload|), payload);
    VarintRoundTrip(|payload|, []);
    assert ApplyAll(to, [f]) == ApplyAll(Apply(to, f), []);
  }

  lemma {:induction false} BytesFieldsApply(m: Web3Tx, to: Web3Tx)
    requires InRange(m)
    ensures AllGood(FeePayerField(m)) && AllGood(FeePayerSigField(m))
    ensures ApplyAll(to, FeePayerField(m)) == if m.feePayer == [] then to else to.(feePayer := m.feePayer)
    ensures ApplyAll(to, FeePayerSigField(m)) == if m.feePayerSig == [] then to else to.(feePayerSig := m.feePayerSig)
    ensures EncodeFields(FeePayerField(m)) == BytesSection(0x12, m.feePayer)
    ensures EncodeFields(FeePayerSigField(m)) == BytesSection(0x1a, m.feePayerSig)
  {
    hide VarintValue, WellFormed, WellTyped, EncodeField;
    if m.feePayer != [] { BytesFieldGood(2, [0x12], m.feePayer, to); }
    if m.feePayerSig != [] { BytesFieldGood(3, [0x1a], m.feePayerSig, to); }
  }

  /** Any unknown fields u and v around one known section leave its effect unchanged. */
  lemma {:induction false} ApplyBetween(m: Web3Tx, known: seq<Field>, u: seq<Field>)
    requires AllGood(known) && AllUnknown(u)
    ensures AllGood(u) && AllGood(known + u) && ApplyAll(m, known + u) == ApplyAll(m, known)
  {
    ApplyAllConcat(m, known, u);
    ApplyAllUnknown(ApplyAll(m, known), u);
  }

  /**
    Round trip with unknown fields: whatever well-formed unknown fields, nested groups
    included, are inserted before, between and after the encoded fields of a message,
    Unmarshal into an empty message gives the message back.
  */
  lemma {:induction false} RoundTripWithUnknownFields(m: Web3Tx, u0: seq<Field>, u1: seq<Field>, u2: seq<Field>, u3: seq<Field>)
    requires InRange(m) && AllUnknown(u0) && AllUnknown(u1) && AllUnknown(u2) && AllUnknown(u3)
    requires |MixedEncoding(m, u0, u1, u2, u3)| < TWO63
    ensures DecodeFrom(MixedEncoding(m, u0, u1, u2, u3), 0, EMPTY) == Decoded(m, None)
  {
    hide DecodeFrom, EncodeFields, Good, WellFormed, Apply, ChainIdField, FeePayerField, FeePayerSigField;
    var f1, f2, f3 := ChainIdField(m), FeePayerField(m), FeePayerSigField(m);
    var m1 := EMPTY.(chainId := m.chainId);
    var m2 := m1.(feePayer := m.feePayer);
    ChainIdFieldApplies(m, EMPTY);
    BytesFieldsApply(m, m1);
    BytesFieldsApply(m, m2);
    ApplyBetween(EMPTY, [], u0);
    assert [] + u0 == u0;
    ApplyBetween(EMPTY, f1, u1);
    ApplyBetween(m1, f2, u2);
    ApplyBetween(m2, f3, u3);
    var a, b, c := f1 + u1, f2 + u2, f3 + u3;
    ApplyAllConcat(EMPTY, u0, a);
    ApplyAllConcat(EMPTY, u0 + a, b);
    ApplyAllConcat(EMPTY, u0 + a + b, c);
    var all := u0 + a + b + c;
    MixedIsFields(m, u0, u1, u2, u3);
    var s := MixedEncoding(m, u0, u1, u2, u3);
    DecodeAppliesAll(s, all, EMPTY);
  }

  function MixedEncoding(m: Web3Tx, u0: seq<Field>, u1: seq<Field>, u2: seq<Field>, u3: seq<Field>): seq<byte> {
    EncodeFields(u0)
    + (ChainIdSection(m.chainId) + EncodeFields(u1))
    + (BytesSection(0x12, m.feePayer) + EncodeFields(u2))
    + (BytesSection(0x1a, m.feePayerSig) + EncodeFields(u3))
  }

  lemma {:induction false} MixedIsFields(m: Web3Tx, u0: seq<Field>, u1: seq<Field>, u2: seq<Field>, u3: seq<Field>)
    requires InRange(m)
    ensures MixedEncoding(m, u0, u1, u2, u3) ==
            EncodeFields(u0 + (ChainIdField(m) + u1) + (FeePayerField(m) + u2) + (FeePayerSigField(m) + u3))
  {
    var f1, f2, f3 := ChainIdField(m), FeePayerField(m), FeePayerSigField(m);
    ChainIdFieldApplies(m, m);
    BytesFieldsApply(m, m);
    EncodeFieldsConcat(f1, u1);
    EncodeFieldsConcat(f2, u2);
    EncodeFieldsConcat(f3, u3);
    EncodeFieldsConcat(u0, f1 + u1);
    EncodeFieldsConcat(u0 + (f1 + u1), f2 + u2);
    EncodeFieldsConcat(u0 + (f1 + u1) + (f2 + u2), f3 + u3);
  }

  /** A message in bytes: fields 1, 2 and 3 in this order, 300 as two groups of seven bits. */
  lemma {:induction false} EncodingExample()
    ensures EncodeMessage(Web3Tx(300, [7], [8, 9])) == [0x08, 0xAC, 0x02, 0x12, 0x01, 7, 0x1a, 0x02, 8, 9]
  {
    assert Encode(300) == [0xAC] + Encode(2);
  }

  /** Unmarshal of what Marshal writes gives the message back. */
  lemma {:induction false} RoundTrip(m: Web3Tx)
    requires InRange(m) && |EncodeMessage(m)| < TWO63
    ensures DecodeFrom(EncodeMessage(m), 0, EMPTY) == Decoded(m, None)
  {
    hide DecodeFrom, ChainIdSection, BytesSection;
    assert EncodeMessage(m) == MixedEncoding(m, [], [], [], []);
    RoundTripWithUnknownFields(m, [], [], [], []);
  }
}

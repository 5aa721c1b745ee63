/**
  Message structure of the Protocol Buffers Encoding specification, and the
  decoder of ethereum/eip712/web3.pb.go as a function of the input bytes.
*/
module WireFormat {
  import opened Wrappers
  import opened Words
  import opened Varint

  /** ExtensionOptionsWeb3Tx; Go strings are byte sequences. */
  datatype Web3Tx = Web3Tx(chainId: nat, feePayer: seq<byte>, feePayerSig: seq<byte>)

  const EMPTY: Web3Tx := Web3Tx(0, [], [])

  datatype Error =
    | IntOverflow | UnexpectedEOF | InvalidLength
    | EndGroupOutsideGroup | IllegalTag | WrongWireType | UnexpectedEndOfGroup | IllegalWireType

  /** Conversion of a 64-bit pattern to a signed integer, as in int(x). */
  function ToInt64(x: nat): int
    requires x < TWO64
  {
    if x < TWO63 then x else x - TWO64
  }

  /** Conversion to int32 keeps the low 32 bits. */
  function ToInt32(x: nat): (n: int)
    ensures -0x8000_0000 <= n < 0x8000_0000 && (x - n) % 0x1_0000_0000 == 0
  {
    var low := x % (2 * TWO31);
    if low < TWO31 then low else low - 2 * TWO31
  }

  function ReadError(r: Read): Error
    requires !r.Value?
  {
    if r.Overflow? then IntOverflow else UnexpectedEOF
  }

  // ---------------------------------------------------------------------
  // Skipping an unknown field
  // ---------------------------------------------------------------------

  datatype Skip = Skipped(next: nat) | SkipFailed(error: Error)

  /** What one field's tag and payload do: the next index (which may have wrapped) and depth. */
  datatype SkipStep = Stepped(next: int, depth: nat) | StepFailed(error: Error)

  /** The length-delimited payload after a tag ending at pos. */
  function LengthAt(s: seq<byte>, pos: nat): (r: SkipStep)
    requires pos <= |s| < TWO63
    ensures r.Stepped? ==> r.next < 0 || r.next > pos
  {
    var r := ReadVarint(s[pos..]);
    if !r.Value? then StepFailed(ReadError(r))
    else
      ReadFits(s[pos..], 0, 0);
      ReadFromUses(s[pos..], 0, 0);
      if ToInt64(r.v) < 0 then StepFailed(InvalidLength)
      else Stepped(ToInt64(pos + r.used + r.v), 0)
  }

  /** One round of skipWeb3's loop. */
  function SkipOne(s: seq<byte>, pos: nat, depth: nat): (r: SkipStep)
    requires pos < |s| < TWO63
    ensures r.Stepped? ==> r.next < 0 || r.next > pos
  {
    var tag := ReadVarint(s[pos..]);
    if !tag.Value? then StepFailed(ReadError(tag))
    else
      ReadFromUses(s[pos..], 0, 0);
      var at := pos + tag.used;
      var wireType := tag.v % 8;
      if wireType == 0 then
        var r := ReadVarint(s[at..]);
        if !r.Value? then StepFailed(ReadError(r))
        else ReadFromUses(s[at..], 0, 0); Stepped(at + r.used, depth)
      else if wireType == 1 then Stepped(ToInt64(at + 8), depth)
      else if wireType == 2 then
        var r := LengthAt(s, at);
        if r.Stepped? then Stepped(r.next, depth) else r
      else if wireType == 3 then Stepped(at, depth + 1)
      else if wireType == 4 then
        if depth == 0 then StepFailed(UnexpectedEndOfGroup) else Stepped(at, depth - 1)
      else if wireType == 5 then Stepped(ToInt64(at + 4), depth)
      else StepFailed(IllegalWireType)
  }

  /** skipWeb3 from the given index and depth on. */
  function SkipFrom(s: seq<byte>, pos: nat, depth: nat): Skip
    requires |s| < TWO63
    decreases |s| - pos
  {
    if pos >= |s| then SkipFailed(UnexpectedEOF)
    else
      var r := SkipOne(s, pos, depth);
      if r.StepFailed? then SkipFailed(r.error)
      else if r.next < 0 then SkipFailed(InvalidLength)
      else if r.depth == 0 then Skipped(r.next)
      else SkipFrom(s, r.next, r.depth)
  }

  // ---------------------------------------------------------------------
  // Decoding
  // ---------------------------------------------------------------------

  datatype Decoded = Decoded(msg: Web3Tx, error: Option<Error>)

  datatype FieldStep = FieldDone(msg: Web3Tx, next: nat) | FieldFailed(msg: Web3Tx, error: Error)

  /** The payload of a length-delimited known field after a tag ending at pos. */
  function BytesAt(s: seq<byte>, pos: nat): (r: SkipStep)
    requires pos <= |s| < TWO63
    ensures r.Stepped? ==> ReadVarint(s[pos..]).Value? && pos + ReadVarint(s[pos..]).used <= r.next <= |s|
    ensures r.Stepped? ==> r.next > pos
  {
    var r := LengthAt(s, pos);
    if r.StepFailed? then r
    else if r.next < 0 then StepFailed(InvalidLength)
    else if r.next > |s| then StepFailed(UnexpectedEOF)
    else ReadFromUses(s[pos..], 0, 0); r
  }

  /** One round of Unmarshal's loop: the field whose tag starts at pos. */
  function DecodeOne(s: seq<byte>, pos: nat, m: Web3Tx): (r: FieldStep)
    requires pos < |s| < TWO63
    ensures r.FieldDone? ==> pos < r.next <= |s|
  {
    var tag := ReadVarint(s[pos..]);
    if !tag.Value? then FieldFailed(m, ReadError(tag))
    else
      ReadFromUses(s[pos..], 0, 0);
      DecodePayload(s, pos, pos + tag.used, ToInt32(tag.v / 8), tag.v % 8, m)
  }

  /** The rest of the round, after a tag that ends at the index at. */
  function DecodePayload(s: seq<byte>, pos: nat, at: nat, fieldNum: int, wireType: nat, m: Web3Tx): (r: FieldStep)
    requires pos < at <= |s| < TWO63
    ensures r.FieldDone? ==> pos < r.next <= |s|
  {
    if wireType == 4 then FieldFailed(m, EndGroupOutsideGroup)
    else if fieldNum <= 0 then FieldFailed(m, IllegalTag)
    else if fieldNum == 1 then
      if wireType != 0 then FieldFailed(m, WrongWireType)
      else
        var r := ReadVarint(s[at..]);
        if !r.Value? then FieldFailed(m.(chainId := r.partial), ReadError(r))
        else ReadFromUses(s[at..], 0, 0); FieldDone(m.(chainId := r.v), at + r.used)
    else if fieldNum == 2 || fieldNum == 3 then
      if wireType != 2 then FieldFailed(m, WrongWireType)
      else
        var r := BytesAt(s, at);
        if r.StepFailed? then FieldFailed(m, r.error)
        else
          var payload := s[at + ReadVarint(s[at..]).used..r.next];
          FieldDone(if fieldNum == 2 then m.(feePayer := payload) else m.(feePayerSig := payload), r.next)
    else
      var r := SkipFrom(s[pos..], 0, 0);
      if r.SkipFailed? then FieldFailed(m, r.error)
      else if pos + r.next >= TWO63 then FieldFailed(m, InvalidLength)
      else if pos + r.next > |s| then FieldFailed(m, UnexpectedEOF)
      else SkipAdvances(s[pos..], 0, 0); FieldDone(m, pos + r.next)
  }

  lemma {:induction false} SkipAdvances(s: seq<byte>, pos: nat, depth: nat)
    requires |s| < TWO63
    ensures var r := SkipFrom(s, pos, depth); r.Skipped? ==> r.next > pos
    decreases |s| - pos
  {
    if pos < |s| {
      var r := SkipOne(s, pos, depth);
      if r.Stepped? && r.next >= 0 && r.depth != 0 {
        SkipAdvances(s, r.next, r.depth);
      }
    }
  }

  /** Unmarshal from the given index on, into a message that may already hold values. */
  function DecodeFrom(s: seq<byte>, pos: nat, m: Web3Tx): Decoded
    requires pos <= |s| < TWO63
    decreases |s| - pos
  {
    if pos == |s| then Decoded(m, None)
    else
      var r := DecodeOne(s, pos, m);
      if r.FieldFailed? then Decoded(r.msg, Some(r.error)) else DecodeFrom(s, r.next, r.msg)
  }

  // ---------------------------------------------------------------------
  // Fields on the wire
  // ---------------------------------------------------------------------

  function VarintValue(raw: seq<byte>): (v: nat)
    requires IsVarint(raw)
    ensures v == Groups(raw) % TWO64
  {
    ReadMeans(raw);
    ReadVarint(raw).v
  }

  predicate IsTag(tag: seq<byte>, wireType: nat) {
    IsVarint(tag) && VarintValue(tag) % 8 == wireType
  }

  /** A field as it stands on the wire: tags, lengths and payloads may be any varints, minimal or not. */
  datatype Field =
    | VarintField(tag: seq<byte>, raw: seq<byte>)
    | Fixed64Field(tag: seq<byte>, bytes: seq<byte>)
    | BytesField(tag: seq<byte>, length: seq<byte>, bytes: seq<byte>)
    | GroupField(tag: seq<byte>, fields: seq<Field>, close: seq<byte>)
    | Fixed32Field(tag: seq<byte>, bytes: seq<byte>)

  function WireType(f: Field): nat {
    match f
    case VarintField(_, _) => 0
    case Fixed64Field(_, _) => 1
    case BytesField(_, _, _) => 2
    case GroupField(_, _, _) => 3
    case Fixed32Field(_, _) => 5
  }

  function EncodeField(f: Field): seq<byte>
    decreases f, 0
  {
    match f
    case VarintField(tag, raw) => tag + raw
    case Fixed64Field(tag, bytes) => tag + bytes
    case BytesField(tag, length, bytes) => tag + length + bytes
    case GroupField(tag, fields, close) => tag + EncodeFields(fields) + close
    case Fixed32Field(tag, bytes) => tag + bytes
  }

  function EncodeFields(fs: seq<Field>): seq<byte>
    decreases fs, 1
  {
    if fs == [] then [] else EncodeField(fs[0]) + EncodeFields(fs[1..])
  }

  /** What follows the field's first tag. */
  function Body(f: Field): seq<byte> {
    match f
    case VarintField(_, raw) => raw
    case Fixed64Field(_, bytes) => bytes
    case BytesField(_, length, bytes) => length + bytes
    case GroupField(_, fields, close) => EncodeFields(fields) + close
    case Fixed32Field(_, bytes) => bytes
  }

  lemma {:induction false} FieldParts(f: Field)
    ensures EncodeField(f) == f.tag + Body(f)
  {
  }

  /**
    Well formed: the tag carries the wire type and the payload has the form that goes with it.
    Numbers are unconstrained here, as inside groups, where the skipper does not look at them;
    nor does it ask a closing tag to carry its group's number.
  */
  predicate WellFormed(f: Field)
    decreases f
  {
    && IsTag(f.tag, WireType(f))
    && match f
       case VarintField(_, raw) => IsVarint(raw)
       case Fixed64Field(_, bytes) => |bytes| == 8
       case BytesField(_, length, bytes) => IsVarint(length) && VarintValue(length) == |bytes|
       case GroupField(_, fields, close) => IsTag(close, 4) && forall i :: 0 <= i < |fields| ==> WellFormed(fields[i])
       case Fixed32Field(_, bytes) => |bytes| == 4
  }

  /** The field number, which the decoder cuts to a signed 32-bit integer. */
  function Num(f: Field): int
    requires IsVarint(f.tag)
  {
    ToInt32(VarintValue(f.tag) / 8)
  }

  /** Field numbers are positive, and known fields carry the wire type their declaration asks for. */
  predicate WellTyped(f: Field)
    requires IsVarint(f.tag)
  {
    && Num(f) > 0
    && (Num(f) == 1 ==> f.VarintField?)
    && (Num(f) == 2 || Num(f) == 3 ==> f.BytesField?)
  }

  /** A field that may stand in a message. */
  predicate Good(f: Field) {
    WellFormed(f) && WellTyped(f)
  }

  predicate AllGood(fs: seq<Field>) {
    forall i :: 0 <= i < |fs| ==> Good(fs[i])
  }

  /** What a field means for the message: known fields are set, others ignored. */
  function Apply(m: Web3Tx, f: Field): Web3Tx
    requires Good(f)
  {
    if Num(f) == 1 then m.(chainId := VarintValue(f.raw))
    else if Num(f) == 2 then m.(feePayer := f.bytes)
    else if Num(f) == 3 then m.(feePayerSig := f.bytes)
    else m
  }

  function ApplyAll(m: Web3Tx, fs: seq<Field>): Web3Tx
    requires AllGood(fs)
    decreases |fs|
  {
    if fs == [] then m else ApplyAll(Apply(m, fs[0]), fs[1..])
  }

  /** A varint is read to its end and the rest follows. */
  lemma {:induction false} VarintAt(s: seq<byte>, pos: nat, raw: seq<byte>, rest: seq<byte>)
    requires pos <= |s| && IsVarint(raw) && s[pos..] == raw + rest
    ensures ReadVarint(s[pos..]) == Value(VarintValue(raw), |raw|)
    ensures pos + |raw| <= |s| && s[pos + |raw|..] == rest
  {
    ReadIgnoresRest(raw, rest, 0, 0);
    Drop(s, pos, raw, rest);
  }

  lemma {:induction false} LengthAtEncoded(s: seq<byte>, pos: nat, length: seq<byte>, bytes: seq<byte>, rest: seq<byte>)
    requires pos <= |s| < TWO63 && IsVarint(length) && VarintValue(length) == |bytes|
    requires s[pos..] == length + bytes + rest
    ensures ReadVarint(s[pos..]) == Value(|bytes|, |length|)
    ensures LengthAt(s, pos) == Stepped(pos + |length| + |bytes|, 0)
  {
    assert s[pos..] == length + (bytes + rest);
    VarintAt(s, pos, length, bytes + rest);
    assert |s[pos..]| == |length| + |bytes| + |rest|;
  }

  lemma {:induction false} Drop(s: seq<byte>, pos: nat, a: seq<byte>, b: seq<byte>)
    requires pos <= |s| && s[pos..] == a + b
    ensures pos + |a| <= |s| && s[pos + |a|..] == b
  {
  }

  // ---------------------------------------------------------------------
  // The skipper passes exactly one well-formed field
  // ---------------------------------------------------------------------

  /** What skipWeb3 does after a field that ends at pos. */
  function Continue(s: seq<byte>, pos: nat, depth: nat): Skip
    requires |s| < TWO63
  {
    if depth == 0 then Skipped(pos) else SkipFrom(s, pos, depth)
  }

  lemma {:induction false} SkipVarint(s: seq<byte>, pos: nat, tag: seq<byte>, raw: seq<byte>, rest: seq<byte>, depth: nat)
    requires pos < |s| < TWO63 && IsTag(tag, 0) && IsVarint(raw) && s[pos..] == tag + (raw + rest)
    ensures SkipOne(s, pos, depth) == Stepped(pos + |tag| + |raw|, depth)
  {
    VarintAt(s, pos, tag, raw + rest);
    VarintAt(s, pos + |tag|, raw, rest);
  }

  lemma {:induction false} SkipFixed(s: seq<byte>, pos: nat, tag: seq<byte>, rest: seq<byte>, depth: nat, size: nat)
    requires pos < |s| < TWO63 && ((IsTag(tag, 1) && size == 8) || (IsTag(tag, 5) && size == 4))
    requires s[pos..] == tag + rest && pos + |tag| + size < TWO63
    ensures SkipOne(s, pos, depth) == Stepped(pos + |tag| + size, depth)
  {
    VarintAt(s, pos, tag, rest);
  }

  lemma {:induction false} SkipBytes(s: seq<byte>, pos: nat, tag: seq<byte>, length: seq<byte>, bytes: seq<byte>,
                                     rest: seq<byte>, depth: nat)
    requires pos < |s| < TWO63 && IsTag(tag, 2) && IsVarint(length) && VarintValue(length) == |bytes|
    requires s[pos..] == tag + (length + bytes + rest)
    ensures SkipOne(s, pos, depth) == Stepped(pos + |tag| + |length| + |bytes|, depth)
  {
    VarintAt(s, pos, tag, length + bytes + rest);
    LengthAtEncoded(s, pos + |tag|, length, bytes, rest);
  }

  lemma {:induction false} SkipPassesScalar(s: seq<byte>, pos: nat, f: Field, rest: seq<byte>, depth: nat)
    requires pos < |s| < TWO63 && WellFormed(f) && !f.GroupField? && s[pos..] == EncodeField(f) + rest
    ensures SkipOne(s, pos, depth) == Stepped(pos + |EncodeField(f)|, depth)
  {
    assert |s[pos..]| == |EncodeField(f)| + |rest|;
    match f
    case VarintField(tag, raw) =>
      assert EncodeField(f) + rest == tag + (raw + rest);
      SkipVarint(s, pos, tag, raw, rest, depth);
    case Fixed64Field(tag, bytes) =>
      assert EncodeField(f) + rest == tag + (bytes + rest);
      SkipFixed(s, pos, tag, bytes + rest, depth, 8);
    case BytesField(tag, length, bytes) =>
      assert EncodeField(f) + rest == tag + (length + bytes + rest);
      SkipBytes(s, pos, tag, length, bytes, rest, depth);
    case Fixed32Field(tag, bytes) =>
      assert EncodeField(f) + rest == tag + (bytes + rest);
      SkipFixed(s, pos, tag, bytes + rest, depth, 4);
  }

  /** skipWeb3 passes exactly the field it stands on, groups with everything nested in them. */
  lemma {:induction false} SkipPassesField(s: seq<byte>, pos: nat, f: Field, rest: seq<byte>, depth: nat, end: nat, r: Skip)
    requires pos <= |s| < TWO63 && WellFormed(f) && s[pos..] == EncodeField(f) + rest
    requires end == pos + |EncodeField(f)| && Continue(s, end, depth) == r
    ensures SkipFrom(s, pos, depth) == r
    decreases f, 0
  {
    FieldParts(f);
    assert pos < |s|;
    if f.GroupField? {
      SkipPassesGroup(s, pos, f, rest, depth, end, r);
    } else {
      SkipPassesScalar(s, pos, f, rest, depth);
    }
  }

  lemma {:induction false} SkipPassesGroup(s: seq<byte>, pos: nat, f: Field, rest: seq<byte>, depth: nat, end: nat, r: Skip)
    requires pos < |s| < TWO63 && WellFormed(f) && f.GroupField? && s[pos..] == EncodeField(f) + rest
    requires end == pos + |EncodeField(f)| && Continue(s, end, depth) == r
    ensures SkipFrom(s, pos, depth) == r
    decreases f, 0, 0
  {
    var body := EncodeFields(f.fields) + (f.close + rest);
    GroupSplit(f, rest);
    Drop(s, pos, f.tag, body);
    var inner := pos + |f.tag|;
    SkipLeavesGroup(s, inner, f, rest, depth, end, r);
    SkipStepsOverTag(s, pos, f.tag, true, body, depth, inner, r);
  }

  /** From just inside a group the skipper passes its fields and the closing tag. */
  lemma {:induction false} SkipLeavesGroup(s: seq<byte>, pos: nat, f: Field, rest: seq<byte>, depth: nat, end: nat, r: Skip)
    requires pos <= |s| < TWO63 && WellFormed(f) && f.GroupField?
    requires s[pos..] == EncodeFields(f.fields) + (f.close + rest)
    requires end == pos + |EncodeFields(f.fields)| + |f.close| && Continue(s, end, depth) == r
    ensures SkipFrom(s, pos, depth + 1) == r
    decreases f, 0, 0, 0
  {
    hide SkipOne;
    var body := EncodeFields(f.fields);
    Drop(s, pos, body, f.close + rest);
    SkipStepsOverTag(s, pos + |body|, f.close, false, rest, depth + 1, end, r);
    SkipPassesFields(s, pos, f.fields, f.close + rest, depth + 1, pos + |body|, r);
  }

  lemma {:induction false} SkipPassesFields(s: seq<byte>, pos: nat, fs: seq<Field>, rest: seq<byte>, depth: nat,
                                            end: nat, r: Skip)
    requires pos <= |s| < TWO63 && depth > 0 && s[pos..] == EncodeFields(fs) + rest
    requires forall i :: 0 <= i < |fs| ==> WellFormed(fs[i])
    requires end == pos + |EncodeFields(fs)| && SkipFrom(s, end, depth) == r
    ensures SkipFrom(s, pos, depth) == r
    decreases fs, 1
  {
    hide SkipOne, EncodeField, WellFormed;
    if fs != [] {
      var head, tail := EncodeField(fs[0]), EncodeFields(fs[1..]);
      FieldsSplit(fs, rest);
      Drop(s, pos, head, tail + rest);
      SkipPassesFields(s, pos + |head|, fs[1..], rest, depth, end, r);
      SkipPassesField(s, pos, fs[0], tail + rest, depth, pos + |head|, r);
    }
  }

  lemma {:induction false} FieldsSplit(fs: seq<Field>, rest: seq<byte>)
    requires fs != []
    ensures EncodeFields(fs) + rest == EncodeField(fs[0]) + (EncodeFields(fs[1..]) + rest)
    ensures |EncodeFields(fs)| == |EncodeField(fs[0])| + |EncodeFields(fs[1..])|
  {
  }

  lemma {:induction false} GroupSplit(f: Field, rest: seq<byte>)
    requires f.GroupField?
    ensures EncodeField(f) + rest == f.tag + (EncodeFields(f.fields) + (f.close + rest))
    ensures |EncodeField(f)| == |f.tag| + |EncodeFields(f.fields)| + |f.close|
  {
  }

  /** At an opening or closing tag the skipper only changes depth. */
  lemma {:induction false} SkipStepsOverTag(s: seq<byte>, pos: nat, tag: seq<byte>, open: bool, rest: seq<byte>,
                                            depth: nat, end: nat, r: Skip)
    requires pos <= |s| < TWO63 && IsTag(tag, if open then 3 else 4) && (open || depth > 0)
    requires s[pos..] == tag + rest && end == pos + |tag|
    requires Continue(s, end, if open then depth + 1 else depth - 1) == r
    ensures SkipFrom(s, pos, depth) == r
  {
    assert |s[pos..]| == |tag| + |rest|;
    VarintAt(s, pos, tag, rest);
  }

  // ---------------------------------------------------------------------
  // The decoder applies exactly one well-formed field
  // ---------------------------------------------------------------------

  lemma {:induction false} DecodeReadsTag(s: seq<byte>, pos: nat, tag: seq<byte>, rest: seq<byte>, m: Web3Tx)
    requires pos < |s| < TWO63 && IsVarint(tag) && s[pos..] == tag + rest
    ensures var at, v := pos + |tag|, VarintValue(tag);
            && pos < at <= |s| && s[at..] == rest
            && DecodeOne(s, pos, m) == DecodePayload(s, pos, at, ToInt32(v / 8), v % 8, m)
  {
    VarintAt(s, pos, tag, rest);
  }

  /** Why a field is refused for its tag alone, whatever follows it. */
  lemma {:induction false} TagErrors(s: seq<byte>, pos: nat, tag: seq<byte>, rest: seq<byte>, m: Web3Tx)
    requires pos < |s| < TWO63 && IsVarint(tag) && s[pos..] == tag + rest
    ensures var num, wireType := ToInt32(VarintValue(tag) / 8), VarintValue(tag) % 8;
            && (wireType == 4 ==> DecodeFrom(s, pos, m) == Decoded(m, Some(EndGroupOutsideGroup)))
            && (wireType != 4 && num <= 0 ==> DecodeFrom(s, pos, m) == Decoded(m, Some(IllegalTag)))
            && (wireType != 4 && ((num == 1 && wireType != 0) || (2 <= num <= 3 && wireType != 2)) ==>
                  DecodeFrom(s, pos, m) == Decoded(m, Some(WrongWireType)))
            && (wireType > 5 && num > 3 ==> DecodeFrom(s, pos, m) == Decoded(m, Some(IllegalWireType)))
  {
    DecodeReadsTag(s, pos, tag, rest, m);
    var t := s[pos..];
    assert t[0..] == t;
    VarintAt(t, 0, tag, rest);
  }

  lemma {:induction false} DecodeAppliesVarint(s: seq<byte>, pos: nat, at: nat, raw: seq<byte>, rest: seq<byte>, m: Web3Tx)
    requires pos < at <= |s| < TWO63 && IsVarint(raw) && s[at..] == raw + rest
    ensures DecodePayload(s, pos, at, 1, 0, m) == FieldDone(m.(chainId := VarintValue(raw)), at + |raw|)
  {
    VarintAt(s, at, raw, rest);
  }

  lemma {:induction false} DecodeAppliesBytes(s: seq<byte>, pos: nat, at: nat, num: nat, length: seq<byte>, bytes: seq<byte>,
                                              rest: seq<byte>, m: Web3Tx)
    requires pos < at <= |s| < TWO63 && (num == 2 || num == 3)
    requires IsVarint(length) && VarintValue(length) == |bytes| && s[at..] == length + bytes + rest
    ensures DecodePayload(s, pos, at, num, 2, m) ==
            FieldDone(if num == 2 then m.(feePayer := bytes) else m.(feePayerSig := bytes), at + |length| + |bytes|)
  {
    BytesAtEncoded(s, at, length, bytes, rest);
  }

  lemma {:induction false} DecodeIgnoresUnknown(s: seq<byte>, pos: nat, at: nat, f: Field, rest: seq<byte>, m: Web3Tx)
    requires pos < at <= |s| < TWO63 && WellFormed(f) && Num(f) > 3 && s[pos..] == EncodeField(f) + rest
    ensures DecodePayload(s, pos, at, Num(f), WireType(f), m) == FieldDone(m, pos + |EncodeField(f)|)
  {
    SkipWhole(s[pos..], f, rest);
    assert |s[pos..]| == |EncodeField(f)| + |rest|;
  }

  lemma {:induction false} DecodeAppliesBody(s: seq<byte>, pos: nat, f: Field, rest: seq<byte>, m: Web3Tx)
    requires pos + |f.tag| <= |s| < TWO63 && Good(f) && s[pos..] == EncodeField(f) + rest
    requires s[pos + |f.tag|..] == Body(f) + rest && |EncodeField(f)| == |f.tag| + |Body(f)|
    ensures DecodePayload(s, pos, pos + |f.tag|, Num(f), WireType(f), m) ==
            FieldDone(Apply(m, f), pos + |EncodeField(f)|)
  {
    hide DecodePayload, EncodeField;
    var at := pos + |f.tag|;
    if Num(f) == 1 {
      DecodeAppliesVarint(s, pos, at, f.raw, rest, m);
    } else if Num(f) == 2 || Num(f) == 3 {
      DecodeAppliesBytes(s, pos, at, Num(f), f.length, f.bytes, rest, m);
    } else {
      DecodeIgnoresUnknown(s, pos, at, f, rest, m);
    }
  }

  /** One round of Unmarshal on a field that may stand in a message, known or not, applies it and moves past it. */
  lemma {:induction false} DecodeAppliesField(s: seq<byte>, pos: nat, f: Field, rest: seq<byte>, m: Web3Tx)
    requires pos < |s| < TWO63 && Good(f) && s[pos..] == EncodeField(f) + rest
    ensures DecodeOne(s, pos, m) == FieldDone(Apply(m, f), pos + |EncodeField(f)|)
  {
    hide DecodeOne, DecodePayload, EncodeField, Body, Apply;
    FieldParts(f);
    assert s[pos..] == f.tag + (Body(f) + rest);
    DecodeReadsTag(s, pos, f.tag, Body(f) + rest, m);
    DecodeAppliesBody(s, pos, f, rest, m);
  }

  lemma {:induction false} BytesAtEncoded(s: seq<byte>, pos: nat, length: seq<byte>, bytes: seq<byte>, rest: seq<byte>)
    requires pos <= |s| < TWO63 && IsVarint(length) && VarintValue(length) == |bytes|
    requires s[pos..] == length + bytes + rest
    ensures var n := |length|;
            && ReadVarint(s[pos..]) == Value(|bytes|, n)
            && BytesAt(s, pos) == Stepped(pos + n + |bytes|, 0)
            && pos + n + |bytes| <= |s| && s[pos + n..pos + n + |bytes|] == bytes
  {
    LengthAtEncoded(s, pos, length, bytes, rest);
    var n := |length|;
    assert |s[pos..]| == n + |bytes| + |rest|;
    assert s[pos + n..pos + n + |bytes|] == s[pos..][n..n + |bytes|] == bytes;
  }

  lemma {:induction false} SkipWhole(t: seq<byte>, f: Field, rest: seq<byte>)
    requires |t| < TWO63 && WellFormed(f) && t == EncodeField(f) + rest
    ensures SkipFrom(t, 0, 0) == Skipped(|EncodeField(f)|)
  {
    assert t[0..] == t;
    SkipPassesField(t, 0, f, rest, 0, |EncodeField(f)|, Skipped(|EncodeField(f)|));
  }

  lemma {:induction false} GoodNotEmpty(f: Field)
    requires Good(f)
    ensures EncodeField(f) != []
  {
    FieldParts(f);
  }

  /** Decoding fields, whatever follows them, applies them one after the other. */
  lemma {:induction false} DecodeAppliesPrefix(s: seq<byte>, pos: nat, fs: seq<Field>, rest: seq<byte>, m: Web3Tx,
                                               end: nat, r: Decoded)
    requires pos <= |s| < TWO63 && s[pos..] == EncodeFields(fs) + rest && AllGood(fs)
    requires end == pos + |EncodeFields(fs)| <= |s| && DecodeFrom(s, end, ApplyAll(m, fs)) == r
    ensures DecodeFrom(s, pos, m) == r
    decreases |fs|
  {
    hide DecodeOne, EncodeField, Good, Apply;
    if fs != [] {
      var head, tail := EncodeField(fs[0]), EncodeFields(fs[1..]);
      FieldsSplit(fs, rest);
      GoodNotEmpty(fs[0]);
      Drop(s, pos, head, tail + rest);
      DecodeAppliesField(s, pos, fs[0], tail + rest, m);
      DecodeAppliesPrefix(s, pos + |head|, fs[1..], rest, Apply(m, fs[0]), end, r);
    }
  }

  /** Decoding any fields, known and unknown in any order, applies them one after the other. */
  lemma {:induction false} DecodeAppliesAll(s: seq<byte>, fs: seq<Field>, m: Web3Tx)
    requires |s| < TWO63 && s == EncodeFields(fs) && AllGood(fs)
    ensures DecodeFrom(s, 0, m) == Decoded(ApplyAll(m, fs), None)
  {
    assert s[0..] == EncodeFields(fs) + [];
    DecodeAppliesPrefix(s, 0, fs, [], m, |s|, Decoded(ApplyAll(m, fs), None));
  }
}

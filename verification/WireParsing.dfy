/**
  Exactly what the decoder of ethereum/eip712/web3.pb.go accepts: every input it decodes
  without error is a concatenation of fields, and it is read off which.
*/
module WireParsing {
  import opened Wrappers
  import opened Words
  import opened Varint
  import opened WireFormat

  // ---------------------------------------------------------------------
  // Varints
  // ---------------------------------------------------------------------

  lemma {:induction false} ReadIsContinued(s: seq<byte>, k: nat, acc: nat)
    requires ReadFrom(s, k, acc).Value?
    ensures var n := ReadFrom(s, k, acc).used - k;
            1 <= n <= |s| && k + n <= 10 && s[n - 1] < 128 && forall i :: 0 <= i < n - 1 ==> s[i] >= 128
    decreases |s|
  {
    if s[0] >= 128 {
      ReadIsContinued(s[1..], k + 1, acc + (s[0] % 128 * Pow2(7 * k)) % TWO64);
    }
  }

  /** A varint with value v stands from pos to at. */
  ghost predicate VarintStands(s: seq<byte>, pos: nat, at: nat, v: nat) {
    && pos < at <= |s| && ReadVarint(s[pos..]) == Value(v, at - pos)
    && IsVarint(s[pos..at]) && VarintValue(s[pos..at]) == v
  }

  /** Where a value is read there stands a varint with that value. */
  lemma {:induction false} ReadTakesVarint(s: seq<byte>, pos: nat)
    requires pos <= |s| && ReadVarint(s[pos..]).Value?
    ensures VarintStands(s, pos, pos + ReadVarint(s[pos..]).used, ReadVarint(s[pos..]).v)
  {
    var t, n := s[pos..], ReadVarint(s[pos..]).used;
    ReadIsContinued(t, 0, 0);
    assert t[..n] == s[pos..pos + n] && t == t[..n] + t[n..];
    ReadIgnoresRest(t[..n], t[n..], 0, 0);
  }

  /** A well-formed field stands from pos to end, with its tag up to at. */
  ghost predicate FieldStands(s: seq<byte>, pos: nat, at: nat, end: nat) {
    pos < at <= end <= |s| && exists f :: WellFormed(f) && f.tag == s[pos..at] && EncodeField(f) == s[pos..end]
  }

  lemma {:induction false} Join(s: seq<byte>, a: nat, b: nat, c: nat)
    requires a <= b <= c <= |s|
    ensures s[a..b] + s[b..c] == s[a..c]
  {
  }

  lemma {:induction false} Associate(a: seq<byte>, b: seq<byte>, c: seq<byte>)
    ensures a + b + c == a + (b + c)
  {
  }

  // ---------------------------------------------------------------------
  // What the skipper passed
  // ---------------------------------------------------------------------

  /** What a round of the skipper that succeeds has read after the tag, by wire type. */
  lemma {:induction false} StepCases(s: seq<byte>, pos: nat, depth: nat, at: nat, v: nat)
    requires pos < |s| < TWO63 && SkipOne(s, pos, depth).Stepped? && VarintStands(s, pos, at, v)
    ensures var r := SkipOne(s, pos, depth);
            && (v % 8 == 0 ==> ReadVarint(s[at..]).Value? && r == Stepped(at + ReadVarint(s[at..]).used, depth))
            && (v % 8 == 1 ==> r == Stepped(ToInt64(at + 8), depth))
            && (v % 8 == 2 ==> LengthAt(s, at).Stepped? && r == Stepped(LengthAt(s, at).next, depth))
            && (v % 8 == 3 ==> r == Stepped(at, depth + 1))
            && (v % 8 == 4 ==> depth > 0 && r == Stepped(at, depth - 1))
            && (v % 8 == 5 ==> r == Stepped(ToInt64(at + 4), depth))
            && v % 8 <= 5
  {
  }

  lemma {:induction false} ParseLength(s: seq<byte>, at: nat, end: nat) returns (from: nat)
    requires at <= |s| < TWO63 && LengthAt(s, at).Stepped? && LengthAt(s, at).next == end <= |s|
    ensures at < from <= end && from == at + ReadVarint(s[at..]).used
    ensures IsVarint(s[at..from]) && VarintValue(s[at..from]) == end - from
  {
    ReadTakesVarint(s, at);
    ReadFits(s[at..], 0, 0);
    from := at + ReadVarint(s[at..]).used;
  }

  /** A field that is not a group, from its tag and where the skipper went after it. */
  lemma {:induction false} ParseScalar(s: seq<byte>, pos: nat, depth: nat, at: nat, v: nat, end: nat)
    requires pos < |s| < TWO63 && VarintStands(s, pos, at, v) && v % 8 != 3 && v % 8 != 4
    requires SkipOne(s, pos, depth).Stepped? && SkipOne(s, pos, depth).next == end <= |s|
    ensures SkipOne(s, pos, depth).depth == depth && FieldStands(s, pos, at, end)
  {
    hide SkipOne, LengthAt, ReadVarint, VarintStands;
    StepCases(s, pos, depth, at, v);
    TagIs(s, pos, at, v);
    if v % 8 == 0 {
      ReadTakesVarint(s, at);
      Join(s, pos, at, end);
      assert EncodeField(VarintField(s[pos..at], s[at..end])) == s[pos..end];
    } else if v % 8 == 2 {
      var from := ParseLength(s, at, end);
      Join(s, pos, at, from);
      Join(s, pos, from, end);
      assert EncodeField(BytesField(s[pos..at], s[at..from], s[from..end])) == s[pos..end];
    } else {
      Join(s, pos, at, end);
      assert EncodeField(Fixed64Field(s[pos..at], s[at..end])) == s[pos..end];
      assert EncodeField(Fixed32Field(s[pos..at], s[at..end])) == s[pos..end];
    }
  }

  lemma {:induction false} TagIs(s: seq<byte>, pos: nat, at: nat, v: nat)
    requires VarintStands(s, pos, at, v)
    ensures pos < at <= |s| && IsTag(s[pos..at], v % 8)
  {
  }

  ghost predicate AllWellFormed(fs: seq<Field>) {
    forall i :: 0 <= i < |fs| ==> WellFormed(fs[i])
  }

  lemma {:induction false} EncodeCons(f: Field, fs: seq<Field>)
    ensures EncodeFields([f] + fs) == EncodeField(f) + EncodeFields(fs)
  {
    assert ([f] + fs)[1..] == fs;
  }

  /** A skip goes on from where its first round ends, which lies inside the input when its end does. */
  lemma {:induction false} SkipGoesOn(s: seq<byte>, pos: nat, depth: nat, end: nat) returns (next: nat, inner: nat)
    requires |s| < TWO63 && SkipFrom(s, pos, depth) == Skipped(end) && end <= |s|
    ensures pos < |s| && SkipOne(s, pos, depth) == Stepped(next, inner) && ReadVarint(s[pos..]).Value?
    ensures pos < next <= |s| && Continue(s, next, inner) == Skipped(end)
  {
    next, inner := SkipOne(s, pos, depth).next, SkipOne(s, pos, depth).depth;
  }

  /** A skip that ends inside the input, seen from inside a group: fields and the group's closing tag. */
  lemma {:induction false} ParseInside(s: seq<byte>, pos: nat, depth: nat, end: nat)
    returns (fs: seq<Field>, close: seq<byte>, next: nat)
    requires |s| < TWO63 && depth > 0 && SkipFrom(s, pos, depth) == Skipped(end) && end <= |s|
    ensures pos < next <= |s| && Continue(s, next, depth - 1) == Skipped(end)
    ensures AllWellFormed(fs) && IsTag(close, 4) && s[pos..next] == EncodeFields(fs) + close
    decreases |s| - pos, 1
  {
    hide SkipOne, SkipFrom, VarintStands, IsTag, WellFormed, EncodeField;
    var step, inner := SkipGoesOn(s, pos, depth, end);
    var at, v := pos + ReadVarint(s[pos..]).used, ReadVarint(s[pos..]).v;
    ReadTakesVarint(s, pos);
    TagIs(s, pos, at, v);
    if v % 8 == 4 {
      StepCases(s, pos, depth, at, v);
      fs, close, next := [], s[pos..at], at;
    } else {
      var from := ParseNested(s, pos, depth, at, v, end);
      var f :| WellFormed(f) && f.tag == s[pos..at] && EncodeField(f) == s[pos..from];
      fs, close, next := ParseInside(s, from, depth, end);
      EncodeCons(f, fs);
      fs := [f] + fs;
      Join(s, pos, from, next);
    }
  }

  /** One field inside a group, which is not the group's closing tag. */
  lemma {:induction false} ParseNested(s: seq<byte>, pos: nat, depth: nat, at: nat, v: nat, end: nat)
    returns (next: nat)
    requires pos < |s| < TWO63 && depth > 0 && SkipFrom(s, pos, depth) == Skipped(end) && end <= |s|
    requires VarintStands(s, pos, at, v) && v % 8 != 4
    ensures pos < next <= |s| && SkipFrom(s, next, depth) == Skipped(end)
    ensures FieldStands(s, pos, at, next)
    decreases |s| - pos, 0
  {
    hide SkipOne, SkipFrom, VarintStands, IsTag;
    var step, inner := SkipGoesOn(s, pos, depth, end);
    StepCases(s, pos, depth, at, v);
    TagIs(s, pos, at, v);
    if v % 8 == 3 {
      var fs, close;
      fs, close, next := ParseInside(s, at, depth + 1, end);
      GroupStands(s, pos, at, next, fs, close);
    } else {
      next := step;
      ParseScalar(s, pos, depth, at, v, next);
    }
  }

  lemma {:induction false} GroupStands(s: seq<byte>, pos: nat, at: nat, next: nat, fs: seq<Field>, close: seq<byte>)
    requires pos < at <= next <= |s| && IsTag(s[pos..at], 3) && IsTag(close, 4) && AllWellFormed(fs)
    requires s[at..next] == EncodeFields(fs) + close
    ensures FieldStands(s, pos, at, next)
  {
    hide IsTag, EncodeFields;
    var f := GroupField(s[pos..at], fs, close);
    Join(s, pos, at, next);
    Associate(s[pos..at], EncodeFields(fs), close);
    assert WellFormed(f) && EncodeField(f) == s[pos..next];
  }

  /** What the skipper passed is one well-formed field. */
  lemma {:induction false} ParseField(s: seq<byte>, end: nat, at: nat, v: nat)
    requires |s| < TWO63 && SkipFrom(s, 0, 0) == Skipped(end) && end <= |s| && VarintStands(s, 0, at, v)
    ensures FieldStands(s, 0, at, end)
  {
    hide SkipOne, SkipFrom, VarintStands, IsTag;
    var step, inner := SkipGoesOn(s, 0, 0, end);
    StepCases(s, 0, 0, at, v);
    TagIs(s, 0, at, v);
    if v % 8 == 3 {
      var fs, close, next := ParseInside(s, at, 1, end);
      GroupStands(s, 0, at, next, fs, close);
    } else {
      ParseScalar(s, 0, 0, at, v, end);
    }
  }

  // ---------------------------------------------------------------------
  // What the decoder accepted
  // ---------------------------------------------------------------------

  /** A field that may stand in a message stands from pos to end. */
  ghost predicate GoodStands(s: seq<byte>, pos: nat, end: nat) {
    pos <= end <= |s| && exists f :: Good(f) && EncodeField(f) == s[pos..end]
  }

  lemma {:induction false} ParseKnown(s: seq<byte>, pos: nat, at: nat, v: nat, m: Web3Tx)
    requires pos < at <= |s| < TWO63 && VarintStands(s, pos, at, v) && 1 <= ToInt32(v / 8) <= 3
    requires DecodePayload(s, pos, at, ToInt32(v / 8), v % 8, m).FieldDone?
    ensures GoodStands(s, pos, DecodePayload(s, pos, at, ToInt32(v / 8), v % 8, m).next)
  {
    hide LengthAt;
    var end := DecodePayload(s, pos, at, ToInt32(v / 8), v % 8, m).next;
    if ToInt32(v / 8) == 1 {
      ReadTakesVarint(s, at);
      Join(s, pos, at, end);
      var f := VarintField(s[pos..at], s[at..end]);
      assert Good(f) && EncodeField(f) == s[pos..end];
    } else {
      var from := ParseLength(s, at, end);
      Join(s, pos, at, from);
      Join(s, pos, from, end);
      var f := BytesField(s[pos..at], s[at..from], s[from..end]);
      assert Good(f) && EncodeField(f) == s[pos..end];
    }
  }

  lemma {:induction false} ParseUnknown(s: seq<byte>, pos: nat, at: nat, v: nat, m: Web3Tx)
    requires pos < at <= |s| < TWO63 && VarintStands(s, pos, at, v) && ToInt32(v / 8) > 3
    requires DecodePayload(s, pos, at, ToInt32(v / 8), v % 8, m).FieldDone?
    ensures GoodStands(s, pos, DecodePayload(s, pos, at, ToInt32(v / 8), v % 8, m).next)
  {
    hide SkipFrom;
    var t, end := s[pos..], DecodePayload(s, pos, at, ToInt32(v / 8), v % 8, m).next;
    assert t[0..] == t && t[0..at - pos] == s[pos..at] && t[0..end - pos] == s[pos..end];
    ParseField(t, end - pos, at - pos, v);
    var f :| WellFormed(f) && f.tag == t[0..at - pos] && EncodeField(f) == t[0..end - pos];
    assert Good(f) && EncodeField(f) == s[pos..end];
  }

  /** A round that succeeds passed one field. */
  lemma {:induction false} ParseOne(s: seq<byte>, pos: nat, m: Web3Tx)
    requires pos < |s| < TWO63 && DecodeOne(s, pos, m).FieldDone?
    ensures GoodStands(s, pos, DecodeOne(s, pos, m).next)
  {
    hide GoodStands;
    ReadTakesVarint(s, pos);
    var at, v := pos + ReadVarint(s[pos..]).used, ReadVarint(s[pos..]).v;
    if ToInt32(v / 8) <= 3 {
      ParseKnown(s, pos, at, v, m);
    } else {
      ParseUnknown(s, pos, at, v, m);
    }
  }

  lemma {:induction false} ParseAll(s: seq<byte>, pos: nat, m: Web3Tx) returns (fs: seq<Field>)
    requires pos <= |s| < TWO63 && DecodeFrom(s, pos, m).error.None?
    ensures AllGood(fs) && EncodeFields(fs) == s[pos..]
    decreases |s| - pos
  {
    hide DecodeOne, EncodeField, Good;
    if pos == |s| {
      fs := [];
    } else {
      var r := DecodeOne(s, pos, m);
      ParseOne(s, pos, m);
      var f :| Good(f) && EncodeField(f) == s[pos..r.next];
      var rest := ParseAll(s, r.next, r.msg);
      EncodeCons(f, rest);
      fs := [f] + rest;
      Join(s, pos, r.next, |s|);
    }
  }

  /**
    Exact acceptance: an input decodes without error if and only if it is a concatenation of
    fields that may stand in a message, and then the result is what these fields mean.
  */
  lemma {:induction false} AcceptedIff(s: seq<byte>, m: Web3Tx)
    requires |s| < TWO63
    ensures DecodeFrom(s, 0, m).error.None? <==> exists fs :: AllGood(fs) && EncodeFields(fs) == s
    ensures forall fs :: AllGood(fs) && EncodeFields(fs) == s ==> DecodeFrom(s, 0, m).msg == ApplyAll(m, fs)
  {
    hide DecodeFrom, EncodeFields, ApplyAll, AllGood;
    if DecodeFrom(s, 0, m).error.None? {
      var fs := ParseAll(s, 0, m);
      assert s[0..] == s;
    }
    forall fs | AllGood(fs) && EncodeFields(fs) == s ensures DecodeFrom(s, 0, m) == Decoded(ApplyAll(m, fs), None) {
      DecodeAppliesAll(s, fs, m);
    }
  }
}

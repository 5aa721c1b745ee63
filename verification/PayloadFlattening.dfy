/**
  Flattening of the msgs array (ethereum/eip712/message.go): msgs[i] becomes
  the member msg{i}. JSON text editing is modelled as map update.
*/
module PayloadFlattening {
  import opened Wrappers
  import opened JsonValues
  import opened Decimal
  import opened TypeSchema
  import opened MessageTypes

  const MSGS := "msgs"

  datatype FlattenError = NoMessages | MessagesNotArray | FieldTaken(field: string) | MessageNotObject(index: nat)

  datatype Flattened = Flattened(payload: map<string, Json>, count: nat) | Failed(error: FlattenError)

  /** getPayloadMessages: a null msgs counts as no messages. */
  function PayloadMessages(payload: map<string, Json>): Option<seq<Json>> {
    match Get(payload, MSGS)
    case Some(JNull) => Some([])
    case Some(JArray(msgs)) => Some(msgs)
    case _ => None
  }

  /** The members msg0, ..., msg{n-1}. */
  function MsgFields(n: nat): set<string> {
    set i | 0 <= i < n :: MsgField(i)
  }

  ghost function WithMessages(payload: map<string, Json>, msgs: seq<Json>, n: nat): map<string, Json>
    requires n <= |msgs|
  {
    if n == 0 then payload else WithMessages(payload, msgs, n - 1)[MsgField(n - 1) := msgs[n - 1]]
  }

  /** Message i may be moved to its own member. */
  ghost predicate Movable(payload: map<string, Json>, msgs: seq<Json>, i: nat)
    requires i < |msgs|
  {
    MsgField(i) !in payload && msgs[i].JObject?
  }

  /** Message i is the first that cannot be moved, and e says why. */
  ghost predicate FailsFirstAt(payload: map<string, Json>, msgs: seq<Json>, i: nat, e: FlattenError) {
    && i < |msgs| && !Movable(payload, msgs, i)
    && (forall j :: 0 <= j < i ==> Movable(payload, msgs, j))
    && e == if MsgField(i) in payload then FieldTaken(MsgField(i)) else MessageNotObject(i)
  }

  lemma {:induction false} MsgFieldInjective(i: nat, j: nat)
    requires MsgField(i) == MsgField(j)
    ensures i == j
  {
    NumberedInjective("msg", i, j);
  }

  /** No message field is the msgs member itself. */
  lemma {:induction false} MsgFieldIsNotMsgs(i: nat)
    ensures MsgField(i) != MSGS
  {
    assert MsgField(i)[3] == Numeral(i)[0];
    assert MSGS[3] == 's';
  }

  lemma {:induction false} WithMessagesMembers(payload: map<string, Json>, msgs: seq<Json>, n: nat, k: string)
    requires n <= |msgs|
    ensures k in WithMessages(payload, msgs, n) <==> k in payload || k in MsgFields(n)
    ensures k in payload && k !in MsgFields(n) ==> WithMessages(payload, msgs, n)[k] == payload[k]
    ensures forall i :: 0 <= i < n && k == MsgField(i) ==> WithMessages(payload, msgs, n)[k] == msgs[i]
  {
    if n > 0 {
      WithMessagesMembers(payload, msgs, n - 1, k);
      assert forall x :: x in MsgFields(n) <==> x in MsgFields(n - 1) || x == MsgField(n - 1);
      forall i | 0 <= i < n && k == MsgField(i) ensures WithMessages(payload, msgs, n)[k] == msgs[i] {
        if k == MsgField(n - 1) { MsgFieldInjective(i, n - 1); }
      }
    }
  }

  /**
    FlattenPayloadMessages. It succeeds exactly when msgs is an array (or null), every
    message is an object and no field it needs is taken; the result is then the payload
    with each message moved and msgs dropped.
  */
  method FlattenPayloadMessages(payload: map<string, Json>) returns (r: Flattened)
    ensures r.Flattened? <==>
      PayloadMessages(payload).Some? &&
      forall i :: 0 <= i < |PayloadMessages(payload).value| ==> Movable(payload, PayloadMessages(payload).value, i)
    ensures r.Flattened? ==>
      var msgs := PayloadMessages(payload).value;
      r.count == |msgs| && r.payload == WithMessages(payload, msgs, |msgs|) - {MSGS}
    ensures r == Failed(NoMessages) <==> MSGS !in payload
    ensures r == Failed(MessagesNotArray) <==> MSGS in payload && PayloadMessages(payload).None?
    ensures r.Failed? && PayloadMessages(payload).Some? ==>
      exists i :: FailsFirstAt(payload, PayloadMessages(payload).value, i, r.error)
    ensures r == Failed(MessagesNotArray) <==> "msgs" in payload && !payload["msgs"].JArray? && payload["msgs"] != JNull
    ensures r.Flattened? ==> if payload["msgs"].JArray? then r.count == |payload["msgs"].elems| else r.count == 0
    ensures r.Flattened? && payload["msgs"].JArray? ==>
      forall i :: 0 <= i < r.count ==>
        "msg" + Numeral(i) in r.payload && r.payload["msg" + Numeral(i)] == payload["msgs"].elems[i]
    ensures r.Flattened? && payload["msgs"].JArray? ==>
      (forall i :: 0 <= i < r.count ==> MsgField(i) in r.payload) && Unflatten(r.payload, r.count) == payload
  {
    var raw := Get(payload, MSGS);
    if raw.None? {
      return Failed(NoMessages);
    }
    var msgs: seq<Json> := [];
    if !raw.value.JNull? {
      if !raw.value.JArray? {
        return Failed(MessagesNotArray);
      }
      msgs := raw.value.elems;
    }
    var flattened := payload;
    for i := 0 to |msgs|
      invariant flattened == WithMessages(payload, msgs, i)
      invariant forall j :: 0 <= j < i ==> Movable(payload, msgs, j)
    {
      var field := MsgField(i);
      WithMessagesMembers(payload, msgs, i, field);
      assert field !in MsgFields(i) by {
        forall j | 0 <= j < i ensures MsgField(j) != field {
          if MsgField(j) == field { MsgFieldInjective(i, j); }
        }
      }
      if field in flattened {
        assert FailsFirstAt(payload, msgs, i, FieldTaken(field));
        return Failed(FieldTaken(field));
      }
      if !msgs[i].JObject? {
        assert FailsFirstAt(payload, msgs, i, MessageNotObject(i));
        return Failed(MessageNotObject(i));
      }
      flattened := flattened[field := msgs[i]];
    }
    if payload[MSGS].JArray? {
      FlattenInverse(payload);
      forall i | 0 <= i < |msgs|
        ensures "msg" + Numeral(i) in flattened - {MSGS} && flattened["msg" + Numeral(i)] == msgs[i]
      {
        assert MsgField(i) in flattened - {MSGS};
      }
    }
    return Flattened(flattened - {MSGS}, |msgs|);
  }

  /** Puts the messages back into an array. */
  ghost function Unflatten(flat: map<string, Json>, n: nat): map<string, Json>
    requires forall i :: 0 <= i < n ==> MsgField(i) in flat
  {
    (flat - MsgFields(n))[MSGS := JArray(seq(n, i requires 0 <= i < n => flat[MsgField(i)]))]
  }

  /**
    Flattening loses nothing: when msgs is an array and flattening is possible, the original
    payload is recovered from the result and the count.
  */
  lemma {:induction false} FlattenInverse(payload: map<string, Json>)
    requires MSGS in payload && payload[MSGS].JArray?
    requires forall i :: 0 <= i < |payload[MSGS].elems| ==> Movable(payload, payload[MSGS].elems, i)
    ensures var msgs := payload[MSGS].elems;
            var flat := WithMessages(payload, msgs, |msgs|) - {MSGS};
            && (forall i :: 0 <= i < |msgs| ==> MsgField(i) in flat && flat[MsgField(i)] == msgs[i])
            && MSGS !in flat
            && Unflatten(flat, |msgs|) == payload
  {
    var msgs := payload[MSGS].elems;
    var n := |msgs|;
    var flat := WithMessages(payload, msgs, n) - {MSGS};
    forall i | 0 <= i < n ensures MsgField(i) in flat && flat[MsgField(i)] == msgs[i] {
      MsgFieldIsNotMsgs(i);
      assert MsgField(i) in MsgFields(n);
      WithMessagesMembers(payload, msgs, n, MsgField(i));
    }
    var back := Unflatten(flat, n);
    assert back[MSGS].elems == msgs;
    forall k | k in MsgFields(n) ensures k !in payload {
      var i :| 0 <= i < n && k == MsgField(i);
      assert Movable(payload, msgs, i);
    }
    forall k ensures k in back <==> k in payload {
      WithMessagesMembers(payload, msgs, n, k);
    }
    forall k | k in payload ensures back[k] == payload[k] {
      WithMessagesMembers(payload, msgs, n, k);
    }
  }

  /** A null msgs flattens like an empty array, so it is not recovered. */
  lemma {:induction false} NullMessagesAreNotRecovered(payload: map<string, Json>)
    requires MSGS in payload && payload[MSGS] == JNull
    ensures PayloadMessages(payload) == Some([])
    ensures Unflatten(WithMessages(payload, [], 0) - {MSGS}, 0) != payload
  {
  }

  /**
    End to end: when a payload flattens and its types are created, the i-th original
    message conforms to the type that Tx lists under msg{i}.
  */
  lemma {:induction false} OriginalMessagesTyped(payload: map<string, Json>, types: Types, i: nat)
    requires MSGS in payload && payload[MSGS].JArray? && i < |payload[MSGS].elems|
    requires forall j :: 0 <= j < |payload[MSGS].elems| ==> Movable(payload, payload[MSGS].elems, j)
    requires var msgs := payload[MSGS].elems;
             CreateTypes(WithMessages(payload, msgs, |msgs|) - {MSGS}, |msgs|) == Ok(types)
    ensures TX in types && |types[TX]| == |TX_FIELDS| + |payload[MSGS].elems|
    ensures types[TX][|TX_FIELDS| + i].name == MsgField(i)
    ensures MessageConforms(types, payload[MSGS].elems[i], types[TX][|TX_FIELDS| + i].typ)
  {
    var msgs := payload[MSGS].elems;
    var flat := WithMessages(payload, msgs, |msgs|) - {MSGS};
    FlattenInverse(payload);
    CreateTypesSound(flat, |msgs|);
    assert MessageTyped(types, flat, i);
  }
}

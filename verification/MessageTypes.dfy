/**
  EIP-712 types for whole payloads (ethereum/eip712/types.go): the type map is
  closed under references, and every message conforms to the type Tx gives it.
*/
module MessageTypes {
  import opened Wrappers
  import opened JsonValues
  import opened Decimal
  import opened TypeNames
  import opened TypeSchema

  // ---------------------------------------------------------------------
  // Closed type maps
  // ---------------------------------------------------------------------

  predicate Primitive(t: string) {
    t == "bool" || t == "int64" || t == "string" || t == "uint256"
  }

  predicate Resolves(types: Types, t: string) {
    Primitive(t) || t in types
  }

  /** A reference is a primitive or defined type, or an array of one. */
  predicate Refers(types: Types, t: string) {
    Resolves(types, t) || (|t| >= 2 && t[|t| - 2..] == "[]" && Resolves(types, t[..|t| - 2]))
  }

  ghost predicate FieldsClosed(types: Types, fields: seq<TypeField>) {
    forall i :: 0 <= i < |fields| ==> Refers(types, fields[i].typ)
  }

  ghost predicate Closed(types: Types) {
    forall k :: k in types ==> FieldsClosed(types, types[k])
  }

  lemma {:induction false} BaseTypesClosed()
    ensures Closed(BASE_TYPES)
  {
    assert "Coin[]"[..4] == "Coin" && "Coin[]"[4..] == "[]";
    assert FieldsClosed(BASE_TYPES, DOMAIN_FIELDS);
    assert FieldsClosed(BASE_TYPES, TX_FIELDS);
    assert FieldsClosed(BASE_TYPES, FEE_FIELDS);
    assert FieldsClosed(BASE_TYPES, COIN_FIELDS);
  }

  lemma {:induction false} FieldsClosedMonotone(small: Types, large: Types, fields: seq<TypeField>)
    requires FieldsClosed(small, fields) && small.Keys <= large.Keys
    ensures FieldsClosed(large, fields)
  {
  }

  lemma {:induction false} ConformingFieldRefers(types: Types, at: Place, v: Json, typ: string)
    requires FieldConforms(types, at, v, typ)
    ensures Refers(types, typ)
  {
  }

  lemma {:induction false} SoundFieldsClosed(types: Types, at: Place, j: Json, keys: seq<string>, fields: seq<TypeField>)
    requires j.JObject? && FieldsSound(types, at, j, keys, fields)
    ensures FieldsClosed(types, fields)
  {
    forall i | 0 <= i < |fields| ensures Refers(types, fields[i].typ) {
      ConformingFieldRefers(types, Below(at, fields[i].name), j.members[fields[i].name], fields[i].typ);
    }
  }

  /** Adding a definition whose references resolve keeps the map closed. */
  lemma {:induction false} AddTypesClosed(types: Types, typeDef: string, fields: seq<TypeField>)
    requires Closed(types) && FieldsClosed(types, fields)
    ensures Closed(AddTypes(types, typeDef, fields, 0).types)
  {
    AddTypesStable(types, typeDef, fields, 0);
    var large := AddTypes(types, typeDef, fields, 0).types;
    forall k | k in large ensures FieldsClosed(large, large[k]) {
      if k in types {
        FieldsClosedMonotone(types, large, types[k]);
      } else {
        FieldsClosedMonotone(types, large, fields);
      }
    }
  }

  lemma {:induction false} InferFieldsClosed(types: Types, rootType: string, prefix: string, j: Json,
                                             keys: seq<string>, done: seq<TypeField>)
    requires j.JObject? && IsPrefix(prefix) && Closed(types)
    requires forall i :: 0 <= i < |keys| ==> keys[i] in j.members
    ensures Closed(InferFields(types, rootType, prefix, j, keys, done).types)
    decreases j, 1, |keys|
  {
    if keys != [] {
      InferFieldClosed(types, rootType, prefix, j, keys[0]);
      var f := InferField(types, rootType, prefix, j, keys[0]);
      if f.result.Ok? {
        InferFieldsClosed(f.types, rootType, prefix, j, keys[1..], Appended(done, keys[0], f.result.value));
      }
    }
  }

  lemma {:induction false} InferFieldClosed(types: Types, rootType: string, prefix: string, j: Json, k: string)
    requires j.JObject? && IsPrefix(prefix) && k in j.members && Closed(types)
    ensures Closed(InferField(types, rootType, prefix, j, k).types)
    decreases j, 0, 0
  {
    var v := j.members[k];
    if v != JArray([]) && EthType(Unwrapped(v)) == "" && Unwrapped(v).JObject? {
      InferObjectClosed(types, rootType, PrefixForSubField(prefix, k), Unwrapped(v));
    }
  }

  /** The walk keeps the map closed at every depth, whatever names coincide. */
  lemma {:induction false} InferObjectClosed(types: Types, rootType: string, prefix: string, j: Json)
    requires j.JObject? && IsPrefix(prefix) && Closed(types)
    ensures Closed(InferObject(types, rootType, prefix, j).types)
    decreases j, 2, 0
  {
    var keys := SortedKeys(j.members.Keys);
    InferFieldsClosed(types, rootType, prefix, j, keys, []);
    InferFieldsSound(types, rootType, prefix, j, keys, [], []);
    var f := InferFields(types, rootType, prefix, j, keys, []);
    if f.result.Ok? {
      SoundFieldsClosed(f.types, Place(rootType, prefix), j, [] + keys, f.result.value);
      AddTypesClosed(f.types, TypeDefForPrefix(prefix, rootType), f.result.value);
    }
  }

  // ---------------------------------------------------------------------
  // Messages
  // ---------------------------------------------------------------------

  /** msgFieldForIndex. */
  function MsgField(i: nat): string {
    "msg" + Numeral(i)
  }

  /** msg.Get("type").Str: empty unless the member is a string. */
  function TypeString(msg: Json): string
    requires msg.JObject?
  {
    match Get(msg.members, "type")
    case Some(JString(s)) => s
    case _ => ""
  }

  /** msgRootType: cosmos-sdk/MsgSend becomes TypeMsgSend. */
  function MsgRootType(msg: Json): Result<string>
    requires msg.JObject?
  {
    var s := TypeString(msg);
    if s == "" then Err(MalformedType)
    else
      var tokens := Split(s, '/');
      Ok(TYPE_PREFIX + tokens[|tokens| - 1])
  }

  /** The part of a message type after its last slash, or all of it. */
  ghost predicate IsLastToken(s: string, token: string) {
    '/' !in token && (s == token || exists head: string :: s == head + "/" + token)
  }

  lemma {:induction false} LastTokenOfSplit(s: string)
    ensures var tokens := Split(s, '/'); IsLastToken(s, tokens[|tokens| - 1])
  {
    var tokens := Split(s, '/');
    if s != "" {
      LastTokenOfSplit(s[1..]);
      var rest := Split(s[1..], '/');
      var last := rest[|rest| - 1];
      assert s == [s[0]] + s[1..];
      if s[0] != '/' && |rest| == 1 {
        SplitSingle(s[1..], '/');
        assert tokens[|tokens| - 1] == s;
        SplitCharactersAll(s, '/');
      } else {
        assert tokens[|tokens| - 1] == last;
        if s[1..] == last {
          if s[0] == '/' {
            assert s == "" + "/" + last;
          } else {
            SplitWithoutSeparator(s[1..], '/');
          }
        } else {
          var head: string :| s[1..] == head + "/" + last;
          assert s == ([s[0]] + head) + "/" + last;
        }
      }
    }
  }

  /** The root type of a message is named after the last token of its type string. */
  lemma {:induction false} MsgRootTypeIsLastToken(msg: Json)
    requires msg.JObject? && TypeString(msg) != ""
    ensures MsgRootType(msg).Ok?
    ensures exists token :: IsLastToken(TypeString(msg), token) && MsgRootType(msg).value == TYPE_PREFIX + token
  {
    LastTokenOfSplit(TypeString(msg));
  }

  /** addMsgTypesToRoot. */
  ghost function AddMsg(types: Types, field: string, msg: Option<Json>): Inferred<string>
    requires TX in types
  {
    if msg.None? || !msg.value.JObject? then Inferred(types, Err(NotAnObject))
    else
      var root := MsgRootType(msg.value);
      if root.Err? then Inferred(types, root)
      else
        var r := InferObject(types, root.value, ROOT_PREFIX, msg.value);
        InferObjectSound(types, root.value, ROOT_PREFIX, msg.value);
        if r.result.Err? then r
        else Inferred(r.types[TX := r.types[TX] + [TypeField(field, r.result.value)]], r.result)
  }

  /** createEIP712Types from message i on. */
  ghost function AddMsgs(types: Types, payload: map<string, Json>, i: nat, n: nat): Result<Types>
    requires TX in types && i <= n
    decreases n - i
  {
    if i == n then Ok(types)
    else
      var r := AddMsg(types, MsgField(i), Get(payload, MsgField(i)));
      if r.result.Err? then Err(r.result.error)
      else
        AddMsgKeepsTx(types, MsgField(i), Get(payload, MsgField(i)));
        AddMsgs(r.types, payload, i + 1, n)
  }

  lemma {:induction false} AddMsgKeepsTx(types: Types, field: string, msg: Option<Json>)
    requires TX in types
    ensures TX in AddMsg(types, field, msg).types
  {
    if msg.Some? && msg.value.JObject? && MsgRootType(msg.value).Ok? {
      InferObjectSound(types, MsgRootType(msg.value).value, ROOT_PREFIX, msg.value);
    }
  }

  /** The first i messages of the payload are typed: Tx lists each, in order, with a type it conforms to. */
  ghost predicate MessagesTyped(types: Types, payload: map<string, Json>, i: nat) {
    && TX in types && |types[TX]| == |TX_FIELDS| + i
    && types[TX][..|TX_FIELDS|] == TX_FIELDS
    && (forall k :: k in BASE_TYPES && k != TX ==> k in types && types[k] == BASE_TYPES[k])
    && (forall k :: 0 <= k < i ==> MessageTyped(types, payload, k))
  }

  ghost predicate MessageTyped(types: Types, payload: map<string, Json>, k: nat) {
    && TX in types && |TX_FIELDS| + k < |types[TX]|
    && var f := types[TX][|TX_FIELDS| + k];
    && f.name == "msg" + Numeral(k) && f.name in payload && MessageConforms(types, payload[f.name], f.typ)
  }

  /** The message conforms to typ, whose name is Type, the last token of the message's type string, and an index. */
  ghost predicate MessageConforms(types: Types, msg: Json, typ: string) {
    && msg.JObject?
    && exists token :: IsLastToken(TypeString(msg), token) && Conforms(types, Place("Type" + token, "_"), msg, typ)
  }

  lemma {:induction false} MessageConformsMonotone(small: Types, large: Types, msg: Json, typ: string)
    requires ExtendsGenerated(small, large) && MessageConforms(small, msg, typ)
    ensures MessageConforms(large, msg, typ)
  {
    var token :| IsLastToken(TypeString(msg), token) && Conforms(small, Place("Type" + token, "_"), msg, typ);
    ConformsMonotone(small, large, Place("Type" + token, "_"), msg, typ);
  }

  ghost predicate WellFormedMessage(payload: map<string, Json>, k: nat) {
    var msg := Get(payload, MsgField(k));
    msg.Some? && msg.value.JObject? && TypeString(msg.value) != ""
  }

  /** Adding one message types it and keeps everything typed before. */
  lemma {:induction false} AddMsgSound(types: Types, payload: map<string, Json>, i: nat)
    requires MessagesTyped(types, payload, i) && Closed(types)
    ensures var r := AddMsg(types, MsgField(i), Get(payload, MsgField(i)));
            && (r.result.Ok? ==> WellFormedMessage(payload, i) && MessagesTyped(r.types, payload, i + 1) && Closed(r.types))
            && (r.result.Err? ==> r.result.error == TooManyDuplicates || !WellFormedMessage(payload, i))
  {
    var msg := Get(payload, MsgField(i));
    if msg.Some? && msg.value.JObject? && TypeString(msg.value) != "" {
      var root := MsgRootType(msg.value).value;
      var s := InferObject(types, root, ROOT_PREFIX, msg.value);
      InferObjectSound(types, root, ROOT_PREFIX, msg.value);
      InferObjectClosed(types, root, ROOT_PREFIX, msg.value);
      InferObjectErrors(types, root, ROOT_PREFIX, msg.value);
      if s.result.Ok? {
        MsgRootTypeIsLastToken(msg.value);
        AppendToTx(types, s.types, payload, i, s.result.value);
      }
    }
  }

  lemma {:induction false} AppendToTx(types: Types, grown: Types, payload: map<string, Json>, i: nat, name: string)
    requires MessagesTyped(types, payload, i) && Extends(types, grown) && Closed(grown)
    requires MsgField(i) in payload && name in grown && MessageConforms(grown, payload[MsgField(i)], name)
    ensures var final := grown[TX := grown[TX] + [TypeField(MsgField(i), name)]];
            MessagesTyped(final, payload, i + 1) && Closed(final)
  {
    hide MessageConforms;
    var fields := grown[TX] + [TypeField(MsgField(i), name)];
    var final := grown[TX := fields];
    assert !IsGenerated(TX);
    forall k: nat | k < i + 1 ensures MessageTyped(final, payload, k) {
      if k < i {
        assert MessageTyped(types, payload, k);
        assert final[TX][|TX_FIELDS| + k] == types[TX][|TX_FIELDS| + k];
        MessageConformsMonotone(types, final, payload[MsgField(k)], types[TX][|TX_FIELDS| + k].typ);
      } else {
        MessageConformsMonotone(grown, final, payload[MsgField(i)], name);
      }
    }
    assert final[TX][..|TX_FIELDS|] == types[TX][..|TX_FIELDS|];
    forall k | k in final ensures FieldsClosed(final, final[k]) {
      FieldsClosedMonotone(grown, final, grown[k]);
    }
  }

  lemma {:induction false} InferFieldsErrors(types: Types, rootType: string, prefix: string, j: Json,
                                             keys: seq<string>, done: seq<TypeField>)
    requires j.JObject? && IsPrefix(prefix)
    requires forall i :: 0 <= i < |keys| ==> keys[i] in j.members
    ensures var r := InferFields(types, rootType, prefix, j, keys, done).result;
            r.Err? ==> r.error == TooManyDuplicates
    decreases j, 1, |keys|
  {
    if keys != [] {
      var k, v := keys[0], j.members[keys[0]];
      if v != JArray([]) && EthType(Unwrapped(v)) == "" && Unwrapped(v).JObject? {
        InferObjectErrors(types, rootType, PrefixForSubField(prefix, k), Unwrapped(v));
      }
      var f := InferField(types, rootType, prefix, j, k);
      if f.result.Ok? {
        InferFieldsErrors(f.types, rootType, prefix, j, keys[1..], Appended(done, k, f.result.value));
      }
    }
  }

  /** On an object the walk can only fail by running out of duplicate indices. */
  lemma {:induction false} InferObjectErrors(types: Types, rootType: string, prefix: string, j: Json)
    requires j.JObject? && IsPrefix(prefix)
    ensures var r := InferObject(types, rootType, prefix, j).result; r.Err? ==> r.error == TooManyDuplicates
    decreases j, 2, 0
  {
    var keys := SortedKeys(j.members.Keys);
    InferFieldsErrors(types, rootType, prefix, j, keys, []);
    var f := InferFields(types, rootType, prefix, j, keys, []);
    if f.result.Ok? {
      AddTypesStable(f.types, TypeDefForPrefix(prefix, rootType), f.result.value, 0);
    }
  }

  ghost predicate AllWellFormed(payload: map<string, Json>, i: nat, n: nat) {
    forall k :: i <= k < n ==> WellFormedMessage(payload, k)
  }

  /** What typing messages i to n may come to. */
  ghost predicate Outcome(r: Result<Types>, payload: map<string, Json>, i: nat, n: nat) {
    match r
    case Ok(types) => MessagesTyped(types, payload, n) && Closed(types) && AllWellFormed(payload, i, n)
    case Err(e) => e == TooManyDuplicates || !AllWellFormed(payload, i, n)
  }

  lemma {:induction false} AddMsgsSound(types: Types, payload: map<string, Json>, i: nat, n: nat)
    requires i <= n && MessagesTyped(types, payload, i) && Closed(types)
    ensures Outcome(AddMsgs(types, payload, i, n), payload, i, n)
    decreases n - i
  {
    if i < n {
      AddMsgSound(types, payload, i);
      var r := AddMsg(types, MsgField(i), Get(payload, MsgField(i)));
      if r.result.Ok? {
        AddMsgsSound(r.types, payload, i + 1, n);
        assert Outcome(AddMsgs(r.types, payload, i + 1, n), payload, i, n);
      }
    }
  }

  /** createEIP712Types as a function of the payload. */
  ghost function CreateTypes(payload: map<string, Json>, n: nat): Result<Types> {
    AddMsgs(BASE_TYPES, payload, 0, n)
  }

  /**
    Schema soundness for whole payloads: a success gives a closed map in which the
    built-in types are intact, Tx lists msg0, msg1, ... in order, and every message
    conforms to its listed type. Apart from exhausting duplicate indices, success
    means exactly that all messages are objects with a type string.
  */
  lemma {:induction false} CreateTypesSound(payload: map<string, Json>, n: nat)
    ensures match CreateTypes(payload, n)
            case Ok(types) => MessagesTyped(types, payload, n) && Closed(types) && AllWellFormed(payload, 0, n)
            case Err(e) => e == TooManyDuplicates || !AllWellFormed(payload, 0, n)
  {
    BaseTypesClosed();
    AddMsgsSound(BASE_TYPES, payload, 0, n);
  }
}

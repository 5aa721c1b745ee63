/**
  The thousand duplicate indices of ethereum/eip712/types.go: when a well-formed
  payload can and when it must run out of them.
*/
module TypeLimits {
  import opened Wrappers
  import opened JsonValues
  import opened Decimal
  import opened TypeNames
  import opened TypeSchema
  import opened MessageTypes

  // ---------------------------------------------------------------------
  // Names
  // ---------------------------------------------------------------------

  /** The first n indexed names of a type. */
  ghost function Names(typeDef: string, n: nat): set<string> {
    if n == 0 then {} else Names(typeDef, n - 1) + {TypeDefWithIndex(typeDef, n - 1)}
  }

  lemma {:induction false} NamesCount(typeDef: string, n: nat)
    ensures |Names(typeDef, n)| == n
    ensures forall i :: 0 <= i < n ==> TypeDefWithIndex(typeDef, i) in Names(typeDef, n)
    ensures forall k :: k in Names(typeDef, n) ==> exists i :: 0 <= i < n && k == TypeDefWithIndex(typeDef, i)
  {
    hide TypeDefWithIndex;
    if n > 0 {
      NamesCount(typeDef, n - 1);
      if i :| 0 <= i < n - 1 && TypeDefWithIndex(typeDef, i) == TypeDefWithIndex(typeDef, n - 1) {
        NameDetermines(typeDef, i, n - 1);
      }
    }
  }

  lemma {:induction false} NameDetermines(typeDef: string, i: nat, j: nat)
    requires TypeDefWithIndex(typeDef, i) == TypeDefWithIndex(typeDef, j)
    ensures i == j
  {
    NumberedInjective(typeDef, i, j);
  }

  lemma {:induction false} SubsetSize<T>(a: set<T>, b: set<T>)
    requires a <= b
    ensures |a| <= |b|
  {
    assert b == a + (b - a);
  }

  /** As many different names as there are keys need as many names. */
  lemma {:induction false} Pigeonhole(m: map<nat, string>, names: set<string>)
    requires forall k :: k in m ==> m[k] in names
    requires forall k, l :: k in m && l in m && k != l ==> m[k] != m[l]
    ensures |m| <= |names|
    decreases |m|
  {
    if m != map[] {
      var k :| k in m;
      var rest := m - {k};
      assert |rest| == |m| - 1;
      Pigeonhole(rest, names - {m[k]});
    }
  }

  // ---------------------------------------------------------------------
  // Room for every object
  // ---------------------------------------------------------------------

  ghost function Generated(types: Types): set<string> {
    set k | k in types && IsGenerated(k)
  }

  /** The objects the walk meets in an object, itself included; of an array it looks at the first element. */
  ghost function Objects(j: Json): nat
    requires j.JObject?
    decreases j, 2, 0
  {
    1 + ObjectsOf(j, SortedKeys(j.members.Keys))
  }

  ghost function ObjectsOf(j: Json, keys: seq<string>): nat
    requires j.JObject? && forall i :: 0 <= i < |keys| ==> keys[i] in j.members
    decreases j, 1, |keys|
  {
    if keys == [] then 0 else ObjectsAt(j, keys[0]) + ObjectsOf(j, keys[1..])
  }

  ghost function ObjectsAt(j: Json, k: string): nat
    requires j.JObject? && k in j.members
    decreases j, 0, 0
  {
    var v := j.members[k];
    if v != JArray([]) && Unwrapped(v).JObject? then Objects(Unwrapped(v)) else 0
  }

  /** A step that starts with room for its objects succeeds and uses at most that room. */
  ghost predicate Fits<T>(types: Types, r: Inferred<T>, objects: nat) {
    && |Generated(r.types)| <= |Generated(types)| + objects
    && (|Generated(types)| + objects <= MAX_DUPLICATES ==> r.result.Ok?)
  }

  lemma {:induction false} FailureMeansFull(types: Types, typeDef: string, fields: seq<TypeField>)
    requires AddTypes(types, typeDef, fields, 0).result.Err?
    ensures |Generated(types)| >= MAX_DUPLICATES
  {
    hide AddTypes;
    AddTypesFailsIff(types, typeDef, fields, 0);
    NamesCount(typeDef, MAX_DUPLICATES);
    forall k | k in Names(typeDef, MAX_DUPLICATES) ensures k in Generated(types) {
      var i :| 0 <= i < MAX_DUPLICATES && k == TypeDefWithIndex(typeDef, i);
      assert TakenByOther(types, typeDef, fields, i);
    }
    SubsetSize(Names(typeDef, MAX_DUPLICATES), Generated(types));
  }

  lemma {:induction false} AddTypesFits(types: Types, typeDef: string, fields: seq<TypeField>)
    ensures Fits(types, AddTypes(types, typeDef, fields, 0), 1)
  {
    hide AddTypes;
    var r := AddTypes(types, typeDef, fields, 0);
    AddTypesStable(types, typeDef, fields, 0);
    if r.result.Ok? {
      SubsetSize(Generated(r.types), Generated(types) + {r.result.value});
    } else {
      FailureMeansFull(types, typeDef, fields);
    }
  }

  lemma {:induction false} InferFieldFits(types: Types, rootType: string, prefix: string, j: Json, k: string)
    requires j.JObject? && IsPrefix(prefix) && k in j.members
    ensures Fits(types, InferField(types, rootType, prefix, j, k), ObjectsAt(j, k))
    decreases j, 0, 0
  {
    var v := j.members[k];
    if v != JArray([]) && Unwrapped(v).JObject? {
      InferObjectFits(types, rootType, PrefixForSubField(prefix, k), Unwrapped(v));
    }
  }

  lemma {:induction false} InferFieldsFit(types: Types, rootType: string, prefix: string, j: Json,
                                          keys: seq<string>, done: seq<TypeField>)
    requires j.JObject? && IsPrefix(prefix)
    requires forall i :: 0 <= i < |keys| ==> keys[i] in j.members
    ensures Fits(types, InferFields(types, rootType, prefix, j, keys, done), ObjectsOf(j, keys))
    decreases j, 1, |keys|
  {
    if keys != [] {
      var f := InferField(types, rootType, prefix, j, keys[0]);
      InferFieldFits(types, rootType, prefix, j, keys[0]);
      if f.result.Ok? {
        InferFieldsFit(f.types, rootType, prefix, j, keys[1..], Appended(done, keys[0], f.result.value));
      }
    }
  }

  /** The walk adds at most one definition per object it meets, and fails only without room for them. */
  lemma {:induction false} InferObjectFits(types: Types, rootType: string, prefix: string, j: Json)
    requires j.JObject? && IsPrefix(prefix)
    ensures Fits(types, InferObject(types, rootType, prefix, j), Objects(j))
    decreases j, 2, 0
  {
    var keys := SortedKeys(j.members.Keys);
    InferFieldsFit(types, rootType, prefix, j, keys, []);
    var f := InferFields(types, rootType, prefix, j, keys, []);
    if f.result.Ok? {
      AddTypesFits(f.types, TypeDefForPrefix(prefix, rootType), f.result.value);
    }
  }

  /** The objects in messages i to n. */
  ghost function MessageObjects(payload: map<string, Json>, i: nat, n: nat): nat
    requires i <= n && AllWellFormed(payload, i, n)
    decreases n - i
  {
    if i == n then 0
    else
      assert WellFormedMessage(payload, i);
      Objects(payload[MsgField(i)]) + MessageObjects(payload, i + 1, n)
  }

  lemma {:induction false} AddMsgsSucceed(types: Types, payload: map<string, Json>, i: nat, n: nat)
    requires TX in types && i <= n && AllWellFormed(payload, i, n)
    requires |Generated(types)| + MessageObjects(payload, i, n) <= MAX_DUPLICATES
    ensures AddMsgs(types, payload, i, n).Ok?
    decreases n - i
  {
    if i < n {
      assert WellFormedMessage(payload, i);
      var msg := payload[MsgField(i)];
      var root := MsgRootType(msg).value;
      InferObjectFits(types, root, ROOT_PREFIX, msg);
      AddMsgKeepsTx(types, MsgField(i), Some(msg));
      var r := AddMsg(types, MsgField(i), Some(msg));
      assert !IsGenerated(TX);
      assert Generated(r.types) == Generated(InferObject(types, root, ROOT_PREFIX, msg).types);
      AddMsgsSucceed(r.types, payload, i + 1, n);
    }
  }

  /** Well-formed messages with at most a thousand objects in all are always typed. */
  lemma {:induction false} ThousandObjectsSucceed(payload: map<string, Json>, n: nat)
    requires AllWellFormed(payload, 0, n) && MessageObjects(payload, 0, n) <= MAX_DUPLICATES
    ensures CreateTypes(payload, n).Ok?
  {
    assert Generated(BASE_TYPES) == {};
    AddMsgsSucceed(BASE_TYPES, payload, 0, n);
  }

  // ---------------------------------------------------------------------
  // No room for more than a thousand shapes
  // ---------------------------------------------------------------------

  /** The members a schema of the message must list. */
  ghost function Shape(msg: Json): set<string>
    requires msg.JObject?
  {
    set k | k in msg.members && Representable(msg.members[k])
  }

  lemma {:induction false} SameTypeSameShape(types: Types, at: Place, a: Json, b: Json, name: string)
    requires Conforms(types, at, a, name) && Conforms(types, at, b, name)
    ensures Shape(a) <= Shape(b)
  {
    forall k | k in Shape(a) ensures k in Shape(b) {
      assert Lists(types[name], k);
      var i :| 0 <= i < |types[name]| && types[name][i].name == k;
      assert k in b.members;
    }
  }

  lemma {:induction false} LastTokenUnique(s: string, a: string, b: string)
    requires IsLastToken(s, a) && IsLastToken(s, b)
    ensures a == b
  {
    if |a| < |b| {
      LongerTokenHasSlash(s, a, b);
    } else if |b| < |a| {
      LongerTokenHasSlash(s, b, a);
    } else {
      assert s[|s| - |a|..] == a && s[|s| - |b|..] == b;
    }
  }

  lemma {:induction false} LongerTokenHasSlash(s: string, a: string, b: string)
    requires IsLastToken(s, a) && |a| < |b| <= |s| && s[|s| - |b|..] == b
    ensures '/' in b
  {
    var head: string :| s == head + "/" + a;
    assert s[|head|] == '/' && b[|b| - |a| - 1] == s[|s| - |a| - 1];
  }

  /** The messages all have the token last in their type string, and no two the same members. */
  ghost predicate DifferentShapes(payload: map<string, Json>, ks: set<nat>, token: string) {
    && (forall k :: k in ks ==>
          && MsgField(k) in payload && payload[MsgField(k)].JObject?
          && IsLastToken(TypeString(payload[MsgField(k)]), token))
    && (forall k, l :: k in ks && l in ks && k != l ==>
          Shape(payload[MsgField(k)]) != Shape(payload[MsgField(l)]))
  }

  /** What Tx lists for the messages. */
  ghost function Listed(types: Types, ks: set<nat>): map<nat, string>
    requires TX in types && forall k :: k in ks ==> |TX_FIELDS| + k < |types[TX]|
  {
    map k | k in ks :: types[TX][|TX_FIELDS| + k].typ
  }

  lemma {:induction false} ListedConforms(types: Types, payload: map<string, Json>, n: nat, ks: set<nat>, token: string, k: nat)
    requires MessagesTyped(types, payload, n) && DifferentShapes(payload, ks, token)
    requires k in ks && k < n
    ensures Conforms(types, Place("Type" + token, "_"), payload[MsgField(k)], types[TX][|TX_FIELDS| + k].typ)
  {
    assert MessageTyped(types, payload, k);
    var msg, typ := payload[MsgField(k)], types[TX][|TX_FIELDS| + k].typ;
    var t :| IsLastToken(TypeString(msg), t) && Conforms(types, Place("Type" + t, "_"), msg, typ);
    LastTokenUnique(TypeString(msg), token, t);
  }

  lemma {:induction false} ListedName(types: Types, payload: map<string, Json>, n: nat, ks: set<nat>, token: string, k: nat)
    requires MessagesTyped(types, payload, n) && DifferentShapes(payload, ks, token)
    requires k in ks && k < n
    ensures types[TX][|TX_FIELDS| + k].typ in Names("Type" + token, MAX_DUPLICATES)
  {
    ListedConforms(types, payload, n, ks, token, k);
    var name := types[TX][|TX_FIELDS| + k].typ;
    var i :| 0 <= i < 1000 && name == "Type" + token + Numeral(i);
    NamesCount("Type" + token, MAX_DUPLICATES);
    assert TypeDefWithIndex("Type" + token, i) in Names("Type" + token, MAX_DUPLICATES);
  }

  lemma {:induction false} ListedDiffer(types: Types, payload: map<string, Json>, n: nat, ks: set<nat>, token: string,
                                        k: nat, l: nat)
    requires MessagesTyped(types, payload, n) && DifferentShapes(payload, ks, token)
    requires k in ks && l in ks && k != l && k < n && l < n
    ensures types[TX][|TX_FIELDS| + k].typ != types[TX][|TX_FIELDS| + l].typ
  {
    hide Conforms, Shape;
    var at, name := Place("Type" + token, "_"), types[TX][|TX_FIELDS| + k].typ;
    ListedConforms(types, payload, n, ks, token, k);
    ListedConforms(types, payload, n, ks, token, l);
    if types[TX][|TX_FIELDS| + l].typ == name {
      SameTypeSameShape(types, at, payload[MsgField(k)], payload[MsgField(l)], name);
      SameTypeSameShape(types, at, payload[MsgField(l)], payload[MsgField(k)], name);
    }
  }

  lemma {:induction false} TypedShapesBounded(types: Types, payload: map<string, Json>, n: nat, ks: set<nat>, token: string)
    requires MessagesTyped(types, payload, n) && DifferentShapes(payload, ks, token)
    requires forall k :: k in ks ==> k < n
    ensures |ks| <= MAX_DUPLICATES
  {
    hide Names, DifferentShapes, MessageTyped;
    var m, names := Listed(types, ks), Names("Type" + token, MAX_DUPLICATES);
    NamesCount("Type" + token, MAX_DUPLICATES);
    forall k | k in m ensures m[k] in names {
      ListedName(types, payload, n, ks, token, k);
    }
    forall k, l | k in m && l in m && k != l ensures m[k] != m[l] {
      ListedDiffer(types, payload, n, ks, token, k, l);
    }
    Pigeonhole(m, names);
    assert m.Keys == ks;
  }

  /** More than a thousand messages of one type and pairwise different members are always refused. */
  lemma {:induction false} TooManyShapesRefused(payload: map<string, Json>, n: nat, ks: set<nat>, token: string)
    requires DifferentShapes(payload, ks, token) && |ks| > MAX_DUPLICATES && forall k :: k in ks ==> k < n
    ensures CreateTypes(payload, n).Err?
  {
    CreateTypesSound(payload, n);
    if CreateTypes(payload, n).Ok? {
      TypedShapesBounded(CreateTypes(payload, n).value, payload, n, ks, token);
    }
  }

  /** A message of type X with one member of its own. */
  function Single(k: nat): Json {
    JObject(map["type" := JString("X"), MsgField(k) := JBool(true)])
  }

  /** n messages of type X, the k-th with member msg{k}. */
  function Singles(n: nat): map<string, Json> {
    if n == 0 then map[] else Singles(n - 1)[MsgField(n - 1) := Single(n - 1)]
  }

  lemma {:induction false} SinglesAt(n: nat, k: nat)
    requires k < n
    ensures MsgField(k) in Singles(n) && Singles(n)[MsgField(k)] == Single(k)
    decreases n
  {
    if k < n - 1 {
      SinglesAt(n - 1, k);
      if MsgField(k) == MsgField(n - 1) { NumberedInjective("msg", k, n - 1); }
    }
  }

  lemma {:induction false} SingleShape(k: nat)
    ensures TypeString(Single(k)) == "X" && Shape(Single(k)) == {"type", MsgField(k)} && MsgField(k) != "type"
  {
    assert MsgField(k)[0] == 'm';
  }

  /** Every object of the payload counts: a message without nested objects is one. */
  lemma {:induction false} FlatObjects(j: Json, keys: seq<string>)
    requires j.JObject? && forall i :: 0 <= i < |keys| ==> keys[i] in j.members
    requires forall k :: k in j.members ==> j.members[k].JString? || j.members[k].JBool?
    ensures ObjectsOf(j, keys) == 0
    decreases |keys|
  {
    if keys != [] { FlatObjects(j, keys[1..]); }
  }

  lemma {:induction false} SinglesObjects(n: nat, i: nat)
    requires i <= n
    ensures AllWellFormed(Singles(n), i, n) && MessageObjects(Singles(n), i, n) == n - i
    decreases n - i
  {
    forall k | i <= k < n ensures WellFormedMessage(Singles(n), k) {
      SinglesAt(n, k);
      SingleShape(k);
    }
    if i < n {
      SinglesAt(n, i);
      SinglesObjects(n, i + 1);
      FlatObjects(Single(i), SortedKeys(Single(i).members.Keys));
    }
  }

  ghost function FirstNumbers(n: nat): (s: set<nat>)
    ensures |s| == n && forall k: nat :: k in s <==> k < n
  {
    if n == 0 then {} else FirstNumbers(n - 1) + {n - 1}
  }

  /** The bound is tight: such messages, one object each, are typed up to a thousand and refused from then on. */
  lemma {:induction false} SinglesTypedIff(n: nat)
    ensures AllWellFormed(Singles(n), 0, n) && MessageObjects(Singles(n), 0, n) == n
    ensures CreateTypes(Singles(n), n).Ok? <==> n <= MAX_DUPLICATES
  {
    SinglesObjects(n, 0);
    if n <= MAX_DUPLICATES {
      ThousandObjectsSucceed(Singles(n), n);
    } else {
      SinglesDiffer(n);
      TooManyShapesRefused(Singles(n), n, FirstNumbers(n), "X");
    }
  }

  lemma {:induction false} SinglesDiffer(n: nat)
    ensures DifferentShapes(Singles(n), FirstNumbers(n), "X")
  {
    forall k: nat | k < n
      ensures MsgField(k) in Singles(n) && Singles(n)[MsgField(k)] == Single(k)
      ensures IsLastToken(TypeString(Single(k)), "X")
    {
      SinglesAt(n, k);
      SingleShape(k);
    }
    forall k: nat, l: nat | k < n && l < n && k != l ensures Shape(Single(k)) != Shape(Single(l)) {
      SingleShape(k);
      SingleShape(l);
      if MsgField(k) == MsgField(l) { NumberedInjective("msg", k, l); }
      assert MsgField(k) in Shape(Single(k)) && MsgField(k) !in Shape(Single(l));
    }
  }

  // ---------------------------------------------------------------------
  // The order in which indices are given
  // ---------------------------------------------------------------------

  /** An object without nested values. */
  predicate IsFlat(j: Json) {
    j.JObject? && forall k :: k in j.members ==> EthType(j.members[k]) != ""
  }

  function FlatFields(j: Json, keys: seq<string>): seq<TypeField>
    requires j.JObject? && forall i :: 0 <= i < |keys| ==> keys[i] in j.members
  {
    seq(|keys|, i requires 0 <= i < |keys| => TypeField(keys[i], EthType(j.members[keys[i]])))
  }

  ghost function FlatDefinition(j: Json): seq<TypeField>
    requires IsFlat(j)
  {
    FlatFields(j, SortedKeys(j.members.Keys))
  }

  lemma {:induction false} InferFlatFields(types: Types, rootType: string, prefix: string, j: Json,
                                           keys: seq<string>, done: seq<TypeField>)
    requires IsFlat(j) && IsPrefix(prefix) && forall i :: 0 <= i < |keys| ==> keys[i] in j.members
    ensures InferFields(types, rootType, prefix, j, keys, done) == Inferred(types, Ok(done + FlatFields(j, keys)))
    decreases |keys|
  {
    if keys == [] {
      assert done + FlatFields(j, keys) == done;
    } else {
      var k, v := keys[0], j.members[keys[0]];
      assert EthType(v) + Suffix(v) == EthType(v);
      InferFlatFields(types, rootType, prefix, j, keys[1..], done + [TypeField(k, EthType(v))]);
      assert done + [TypeField(k, EthType(v))] + FlatFields(j, keys[1..]) == done + FlatFields(j, keys);
    }
  }

  /** A member that is a flat object, and what its type is called. */
  ghost predicate FlatMember(j: Json, k: string, name: string) {
    j.JObject? && k in j.members && IsFlat(j.members[k]) && Sanitize("_." + k) == name
  }

  /** A flat member takes the first index of its name that is free or holds its definition. */
  lemma {:induction false} InferFlatMember(types: Types, rootType: string, j: Json, k: string, name: string)
    requires FlatMember(j, k, name)
    ensures var r := AddTypes(types, name, FlatDefinition(j.members[k]), 0);
            InferField(types, rootType, "_", j, k) ==
            Inferred(r.types, if r.result.Ok? then Ok(Some(r.result.value)) else Err(r.result.error))
  {
    var u, prefix := j.members[k], PrefixForSubField("_", k);
    assert prefix == "_." + k;
    var keys := SortedKeys(u.members.Keys);
    InferFlatFields(types, rootType, prefix, u, keys, []);
    assert [] + FlatFields(u, keys) == FlatDefinition(u);
    var r := AddTypes(types, name, FlatDefinition(u), 0);
    assert InferObject(types, rootType, prefix, u) == r;
    if r.result.Ok? {
      var i := AddTypesTakesFirst(types, name, FlatDefinition(u), 0);
      SanitizeIdempotentOnKeys(prefix, i);
      assert r.result.value + "" == r.result.value;
    }
  }

  /**
    Members are visited in descending order and indices are given in the order of visiting: of
    two flat members whose types share a name and differ, the greater one gets index zero.
  */
  lemma {:induction false} FirstVisitedFirstNumbered(types: Types, rootType: string, j: Json, k: string, l: string, name: string)
    requires FlatMember(j, k, name) && FlatMember(j, l, name) && j.members.Keys == {k, l} && StringLess(l, k)
    requires FlatDefinition(j.members[k]) != FlatDefinition(j.members[l])
    requires name + Numeral(0) !in types && name + Numeral(1) !in types
    ensures var first, second := name + Numeral(0), name + Numeral(1);
            InferFields(types, rootType, "_", j, SortedKeys(j.members.Keys), []) ==
            Inferred(types[first := FlatDefinition(j.members[k])][second := FlatDefinition(j.members[l])],
                     Ok([TypeField(k, first), TypeField(l, second)]))
  {
    hide InferField, Sanitize, FlatDefinition;
    var first, second := name + Numeral(0), name + Numeral(1);
    var d, e := FlatDefinition(j.members[k]), FlatDefinition(j.members[l]);
    DescendingUnique(SortedKeys(j.members.Keys), [k, l]);
    NumbersApart(name);
    InferFlatMember(types, rootType, j, k, name);
    assert AddTypes(types, name, d, 0) == Inferred(types[first := d], Ok(first));
    var grown := types[first := d];
    InferFlatMember(grown, rootType, j, l, name);
    assert AddTypes(grown, name, e, 0) == AddTypes(grown, name, e, 1) == Inferred(grown[second := e], Ok(second));
    TwoFields(types, grown, grown[second := e], rootType, j, k, l, first, second);
  }

  lemma {:induction false} NumbersApart(name: string)
    ensures name + Numeral(0) != name + Numeral(1)
  {
    if name + Numeral(0) == name + Numeral(1) { NumberedInjective(name, 0, 1); }
  }

  lemma {:induction false} TwoFields(a: Types, b: Types, c: Types, rootType: string, j: Json, k: string, l: string,
                                     x: string, y: string)
    requires j.JObject? && k in j.members && l in j.members
    requires InferField(a, rootType, "_", j, k) == Inferred(b, Ok(Some(x)))
    requires InferField(b, rootType, "_", j, l) == Inferred(c, Ok(Some(y)))
    ensures InferFields(a, rootType, "_", j, [k, l], []) == Inferred(c, Ok([TypeField(k, x), TypeField(l, y)]))
  {
    hide InferField;
    var d1, d2 := [TypeField(k, x)], [TypeField(k, x)] + [TypeField(l, y)];
    assert [k, l][1..] == [l] && [l][1..] == [];
    assert Appended([], k, Some(x)) == d1 && Appended(d1, l, Some(y)) == d2;
    assert InferFields(c, rootType, "_", j, [], d2) == Inferred(c, Ok(d2));
    assert InferFields(b, rootType, "_", j, [l], d1) == InferFields(c, rootType, "_", j, [], d2);
    assert InferFields(a, rootType, "_", j, [k, l], []) == InferFields(b, rootType, "_", j, [l], d1);
    assert d2 == [TypeField(k, x), TypeField(l, y)];
  }
}

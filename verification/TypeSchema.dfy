/**
  EIP-712 schema inference (ethereum/eip712/types.go): a recursive walk over a
  JSON value that grows a shared map of type definitions.
*/
module TypeSchema {
  import opened Wrappers
  import opened JsonValues
  import opened Decimal
  import opened TypeNames

  /** apitypes.Type: one member of a struct type. */
  datatype TypeField = TypeField(name: string, typ: string)

  type Types = map<string, seq<TypeField>>

  datatype Error = NotAnObject | MalformedType | TooManyDuplicates

  datatype Result<+T> = Ok(value: T) | Err(error: Error)

  /** What a step of the walk leaves behind: the type map, and a result or an error. */
  datatype Inferred<+T> = Inferred(types: Types, result: Result<T>)

  const MAX_DUPLICATES: nat := 1000

  const TX := "Tx"
  const TX_FIELDS: seq<TypeField> := [
    TypeField("account_number", "string"), TypeField("chain_id", "string"), TypeField("fee", "Fee"),
    TypeField("memo", "string"), TypeField("sequence", "string")]
  const DOMAIN_FIELDS: seq<TypeField> := [
    TypeField("name", "string"), TypeField("version", "string"), TypeField("chainId", "uint256"),
    TypeField("verifyingContract", "string"), TypeField("salt", "string")]
  const FEE_FIELDS: seq<TypeField> := [TypeField("amount", "Coin[]"), TypeField("gas", "string")]
  const COIN_FIELDS: seq<TypeField> := [TypeField("denom", "string"), TypeField("amount", "string")]

  const BASE_TYPES: Types :=
    map["EIP712Domain" := DOMAIN_FIELDS, TX := TX_FIELDS, "Fee" := FEE_FIELDS, "Coin" := COIN_FIELDS]

  /** The types every payload has, member by member. */
  lemma {:induction false} BuiltInTypes()
    ensures BASE_TYPES.Keys == {"EIP712Domain", "Tx", "Fee", "Coin"}
    ensures BASE_TYPES["Tx"] == [TypeField("account_number", "string"), TypeField("chain_id", "string"),
                                 TypeField("fee", "Fee"), TypeField("memo", "string"), TypeField("sequence", "string")]
    ensures BASE_TYPES["Fee"] == [TypeField("amount", "Coin[]"), TypeField("gas", "string")]
    ensures BASE_TYPES["Coin"] == [TypeField("denom", "string"), TypeField("amount", "string")]
    ensures BASE_TYPES["EIP712Domain"] == [TypeField("name", "string"), TypeField("version", "string"),
                                           TypeField("chainId", "uint256"), TypeField("verifyingContract", "string"),
                                           TypeField("salt", "string")]
  {
    assert BASE_TYPES["Tx"] == TX_FIELDS;
    assert BASE_TYPES["Fee"] == FEE_FIELDS;
    assert BASE_TYPES["Coin"] == COIN_FIELDS;
    assert BASE_TYPES["EIP712Domain"] == DOMAIN_FIELDS;
  }

  // ---------------------------------------------------------------------
  // Adding one definition
  // ---------------------------------------------------------------------

  /** addTypesToRoot from a given duplicate index on. */
  function AddTypes(types: Types, typeDef: string, fields: seq<TypeField>, index: nat): Inferred<string>
    requires index < MAX_DUPLICATES
    decreases MAX_DUPLICATES - index
  {
    var key := TypeDefWithIndex(typeDef, index);
    if key !in types then Inferred(types[key := fields], Ok(key))
    else if types[key] == fields then Inferred(types, Ok(key))
    else if index + 1 == MAX_DUPLICATES then Inferred(types, Err(TooManyDuplicates))
    else AddTypes(types, typeDef, fields, index + 1)
  }

  /** The key is the name with one of the thousand duplicate indices. */
  ghost predicate IsIndexed(typeDef: string, key: string) {
    exists i :: 0 <= i < 1000 && key == typeDef + Numeral(i)
  }

  /** All definitions of small are in large, unchanged. */
  ghost predicate Extends(small: Types, large: Types) {
    forall k :: k in small ==> k in large && large[k] == small[k]
  }

  /**
    Insertion never touches an existing definition; a success returns a generated key
    holding exactly the requested fields, and at most that key is new.
  */
  lemma {:induction false} AddTypesStable(types: Types, typeDef: string, fields: seq<TypeField>, index: nat)
    requires index < MAX_DUPLICATES
    ensures var r := AddTypes(types, typeDef, fields, index);
            && Extends(types, r.types)
            && (r.result.Err? ==> r.types == types && r.result.error == TooManyDuplicates)
            && (r.result.Ok? ==>
                  && r.result.value in r.types && r.types[r.result.value] == fields
                  && r.types.Keys == types.Keys + {r.result.value}
                  && IsGenerated(r.result.value)
                  && IsIndexed(typeDef, r.result.value))
    decreases MAX_DUPLICATES - index
  {
    var key := TypeDefWithIndex(typeDef, index);
    if key in types && types[key] != fields && index + 1 < MAX_DUPLICATES {
      AddTypesStable(types, typeDef, fields, index + 1);
    }
  }

  ghost predicate TakenByOther(types: Types, typeDef: string, fields: seq<TypeField>, i: nat) {
    TypeDefWithIndex(typeDef, i) in types && types[TypeDefWithIndex(typeDef, i)] != fields
  }

  /** Insertion fails exactly when all thousand indexed names hold different definitions. */
  lemma {:induction false} AddTypesFailsIff(types: Types, typeDef: string, fields: seq<TypeField>, index: nat)
    requires index < MAX_DUPLICATES
    ensures AddTypes(types, typeDef, fields, index).result.Err? <==>
            forall i :: index <= i < MAX_DUPLICATES ==> TakenByOther(types, typeDef, fields, i)
    decreases MAX_DUPLICATES - index
  {
    if TakenByOther(types, typeDef, fields, index) && index + 1 < MAX_DUPLICATES {
      AddTypesFailsIff(types, typeDef, fields, index + 1);
    }
  }

  /** A success takes the first index whose name is free or holds the same definition already. */
  lemma {:induction false} AddTypesTakesFirst(types: Types, typeDef: string, fields: seq<TypeField>, index: nat) returns (i: nat)
    requires index < MAX_DUPLICATES && AddTypes(types, typeDef, fields, index).result.Ok?
    ensures index <= i < MAX_DUPLICATES
    ensures var key := typeDef + Numeral(i);
            && AddTypes(types, typeDef, fields, index) == Inferred(types[key := fields], Ok(key))
            && (key in types ==> types[key] == fields)
    ensures forall j :: index <= j < i ==> typeDef + Numeral(j) in types && types[typeDef + Numeral(j)] != fields
    decreases MAX_DUPLICATES - index
  {
    if TakenByOther(types, typeDef, fields, index) {
      i := AddTypesTakesFirst(types, typeDef, fields, index + 1);
    } else {
      i := index;
      assert typeDef + Numeral(i) in types ==> types == types[typeDef + Numeral(i) := fields];
    }
  }

  /** Adding the same definition again finds the copy and changes nothing. */
  lemma {:induction false} AddTypesAgain(types: Types, typeDef: string, fields: seq<TypeField>, index: nat)
    requires index < MAX_DUPLICATES && AddTypes(types, typeDef, fields, index).result.Ok?
    ensures var r := AddTypes(types, typeDef, fields, index);
            AddTypes(r.types, typeDef, fields, index) == r
    decreases MAX_DUPLICATES - index
  {
    var key := TypeDefWithIndex(typeDef, index);
    if key in types && types[key] != fields {
      AddTypesAgain(types, typeDef, fields, index + 1);
      AddTypesStable(types, typeDef, fields, index + 1);
    }
  }

  // ---------------------------------------------------------------------
  // The walk
  // ---------------------------------------------------------------------

  /** getEthTypeForJSON: empty for objects, arrays and null. */
  function EthType(j: Json): string {
    match j
    case JBool(_) => "bool"
    case JNumber(_) => "int64"
    case JString(_) => "string"
    case _ => ""
  }

  /** The value whose type is looked at: an array is judged by its first element. */
  function Unwrapped(j: Json): Json
    requires j != JArray([])
  {
    if j.JArray? then j.elems[0] else j
  }

  function Suffix(j: Json): string {
    if j.JArray? then "[]" else ""
  }

  /** The type listed for member k, if it can be expressed; objects are walked recursively. */
  ghost function InferField(types: Types, rootType: string, prefix: string, j: Json, k: string): Inferred<Option<string>>
    requires j.JObject? && IsPrefix(prefix) && k in j.members
    decreases j, 0, 0
  {
    var v := j.members[k];
    if v == JArray([]) then Inferred(types, Ok(Some("string[]")))
    else if EthType(Unwrapped(v)) != "" then Inferred(types, Ok(Some(EthType(Unwrapped(v)) + Suffix(v))))
    else if Unwrapped(v).JObject? then
      var sub := InferObject(types, rootType, PrefixForSubField(prefix, k), Unwrapped(v));
      Inferred(sub.types, if sub.result.Err? then Err(sub.result.error)
                          else Ok(Some(Sanitize(sub.result.value) + Suffix(v))))
    else Inferred(types, Ok(None))
  }

  function Appended(done: seq<TypeField>, k: string, typ: Option<string>): seq<TypeField> {
    if typ.Some? then done + [TypeField(k, typ.value)] else done
  }

  /** Infers the listed members of an object after the fields in done. */
  ghost function InferFields(types: Types, rootType: string, prefix: string, j: Json, keys: seq<string>, done: seq<TypeField>)
    : Inferred<seq<TypeField>>
    requires j.JObject? && IsPrefix(prefix)
    requires forall i :: 0 <= i < |keys| ==> keys[i] in j.members
    decreases j, 1, |keys|
  {
    if keys == [] then Inferred(types, Ok(done))
    else
      var f := InferField(types, rootType, prefix, j, keys[0]);
      if f.result.Err? then Inferred(f.types, Err(f.result.error))
      else InferFields(f.types, rootType, prefix, j, keys[1..], Appended(done, keys[0], f.result.value))
  }

  /** recursivelyAddTypesToRoot on an object. */
  ghost function InferObject(types: Types, rootType: string, prefix: string, j: Json): Inferred<string>
    requires j.JObject? && IsPrefix(prefix)
    decreases j, 2, 0
  {
    var r := InferFields(types, rootType, prefix, j, SortedKeys(j.members.Keys), []);
    if r.result.Err? then Inferred(r.types, Err(r.result.error))
    else AddTypes(r.types, TypeDefForPrefix(prefix, rootType), r.result.value, 0)
  }

  // ---------------------------------------------------------------------
  // What a schema means
  // ---------------------------------------------------------------------

  /** Members the schema can express: not null, and arrays whose first element is neither null nor an array. */
  predicate Representable(v: Json) {
    match v
    case JNull => false
    case JArray(elems) => elems == [] || (elems[0] != JNull && !elems[0].JArray?)
    case _ => true
  }

  /** The EIP-712 types of JSON scalars. */
  predicate IsScalarType(j: Json, typ: string) {
    match j
    case JBool(_) => typ == "bool"
    case JNumber(_) => typ == "int64"
    case JString(_) => typ == "string"
    case _ => false
  }

  /** A place in a message: the message's root type, and a dotted path of member names from "_" on. */
  datatype Place = Place(root: string, path: string)

  function Below(at: Place, k: string): Place {
    Place(at.root, at.path + "." + k)
  }

  /** What the type of an object found there is called, before the duplicate index. */
  function NameOf(at: Place): string {
    if at.path == "_" then at.root else Sanitize(at.path)
  }

  /** typ is the EIP-712 type of the member value v. */
  ghost predicate FieldConforms(types: Types, at: Place, v: Json, typ: string)
    decreases v, 1
  {
    if v == JArray([]) then typ == "string[]"
    else
      var base := if v.JArray? && |typ| >= 2 then typ[..|typ| - 2] else typ;
      && typ == base + Suffix(v)
      && (if Unwrapped(v).JObject? then Conforms(types, at, Unwrapped(v), base) else IsScalarType(Unwrapped(v), base))
  }

  /**
    The object j is described by the type name, which is named after its place: the
    definition lists each representable member exactly once, nothing else, with the type of
    its value, and in descending order of the names.
  */
  ghost predicate Conforms(types: Types, at: Place, j: Json, name: string)
    decreases j, 0
  {
    && j.JObject? && IsGenerated(name) && name in types && IsIndexed(NameOf(at), name)
    && DistinctNames(types[name]) && DescendingNames(types[name])
    && (forall k :: k in j.members ==> (Representable(j.members[k]) <==> Lists(types[name], k)))
    && (forall i :: 0 <= i < |types[name]| ==>
          && types[name][i].name in j.members
          && FieldConforms(types, Below(at, types[name][i].name), j.members[types[name][i].name], types[name][i].typ))
  }

  ghost predicate DistinctNames(fields: seq<TypeField>) {
    forall i, j :: 0 <= i < j < |fields| ==> fields[i].name != fields[j].name
  }

  ghost predicate DescendingNames(fields: seq<TypeField>) {
    forall i, j :: 0 <= i < j < |fields| ==> StringLess(fields[j].name, fields[i].name)
  }

  ghost predicate Lists(fields: seq<TypeField>, k: string) {
    exists i :: 0 <= i < |fields| && fields[i].name == k
  }

  /** Growing the map, even if Tx itself changes, keeps every generated definition's meaning. */
  ghost predicate ExtendsGenerated(small: Types, large: Types) {
    forall k :: k in small && IsGenerated(k) ==> k in large && large[k] == small[k]
  }

  lemma {:induction false} ConformsMonotone(small: Types, large: Types, at: Place, j: Json, name: string)
    requires ExtendsGenerated(small, large) && Conforms(small, at, j, name)
    ensures Conforms(large, at, j, name)
    decreases j, 0
  {
    forall i | 0 <= i < |large[name]|
      ensures large[name][i].name in j.members
      ensures FieldConforms(large, Below(at, large[name][i].name), j.members[large[name][i].name], large[name][i].typ)
    {
      FieldMonotone(small, large, Below(at, large[name][i].name), j.members[large[name][i].name], large[name][i].typ);
    }
  }

  lemma {:induction false} FieldMonotone(small: Types, large: Types, at: Place, v: Json, typ: string)
    requires ExtendsGenerated(small, large) && FieldConforms(small, at, v, typ)
    ensures FieldConforms(large, at, v, typ)
    decreases v, 1
  {
    if v != JArray([]) && Unwrapped(v).JObject? {
      var base := if v.JArray? && |typ| >= 2 then typ[..|typ| - 2] else typ;
      ConformsMonotone(small, large, at, Unwrapped(v), base);
    }
  }

  // ---------------------------------------------------------------------
  // Soundness of the walk
  // ---------------------------------------------------------------------

  /** The fields inferred so far describe exactly the representable ones among the visited keys. */
  ghost predicate FieldsSound(types: Types, at: Place, j: Json, visited: seq<string>, fields: seq<TypeField>)
    requires j.JObject?
  {
    && DistinctNames(fields) && DescendingNames(fields)
    && (forall i :: 0 <= i < |visited| ==> visited[i] in j.members)
    && (forall i :: 0 <= i < |visited| ==> (Representable(j.members[visited[i]]) <==> Lists(fields, visited[i])))
    && (forall i :: 0 <= i < |fields| ==>
          && fields[i].name in visited && fields[i].name in j.members
          && FieldConforms(types, Below(at, fields[i].name), j.members[fields[i].name], fields[i].typ))
  }

  lemma {:induction false} FieldsSoundMonotone(small: Types, large: Types, at: Place, j: Json,
                                               visited: seq<string>, fields: seq<TypeField>)
    requires j.JObject? && ExtendsGenerated(small, large) && FieldsSound(small, at, j, visited, fields)
    ensures FieldsSound(large, at, j, visited, fields)
  {
    forall i | 0 <= i < |fields|
      ensures FieldConforms(large, Below(at, fields[i].name), j.members[fields[i].name], fields[i].typ)
    {
      FieldMonotone(small, large, Below(at, fields[i].name), j.members[fields[i].name], fields[i].typ);
    }
  }

  lemma {:induction false} ListsSnoc(fields: seq<TypeField>, f: TypeField, k: string)
    ensures Lists(fields + [f], k) <==> Lists(fields, k) || f.name == k
  {
    var longer := fields + [f];
    if Lists(fields, k) {
      var i :| 0 <= i < |fields| && fields[i].name == k;
      assert longer[i].name == k;
    }
    if f.name == k { assert longer[|fields|].name == k; }
  }

  /** Visiting one more key that is listed with the type of its value. */
  lemma {:induction false} AddListedKey(types: Types, at: Place, j: Json, visited: seq<string>,
                                        fields: seq<TypeField>, k: string, typ: string)
    requires j.JObject? && FieldsSound(types, at, j, visited, fields)
    requires k in j.members && k !in visited && Representable(j.members[k])
    requires forall v :: v in visited ==> StringLess(k, v)
    requires FieldConforms(types, Below(at, k), j.members[k], typ)
    ensures FieldsSound(types, at, j, visited + [k], fields + [TypeField(k, typ)])
  {
    var longer, f := visited + [k], TypeField(k, typ);
    forall i | 0 <= i < |longer|
      ensures longer[i] in j.members
      ensures Representable(j.members[longer[i]]) <==> Lists(fields + [f], longer[i])
    {
      ListsSnoc(fields, f, longer[i]);
    }
  }

  lemma {:induction false} VisitKey(types: Types, at: Place, j: Json, visited: seq<string>,
                                    fields: seq<TypeField>, k: string, typ: Option<string>)
    requires j.JObject? && FieldsSound(types, at, j, visited, fields)
    requires k in j.members && k !in visited && (typ.Some? <==> Representable(j.members[k]))
    requires forall v :: v in visited ==> StringLess(k, v)
    requires typ.Some? ==> FieldConforms(types, Below(at, k), j.members[k], typ.value)
    ensures FieldsSound(types, at, j, visited + [k], Appended(fields, k, typ))
  {
    if typ.Some? {
      AddListedKey(types, at, j, visited, fields, k, typ.value);
    }
  }

  /** A key the schema maps to an object's own generated type. */
  lemma {:induction false} ObjectFieldConforms(types: Types, at: Place, v: Json, name: string)
    requires v != JArray([]) && EthType(Unwrapped(v)) == "" && Unwrapped(v).JObject?
    requires Conforms(types, at, Unwrapped(v), name)
    ensures FieldConforms(types, at, v, name + Suffix(v))
  {
    var typ := name + Suffix(v);
    if v.JArray? {
      assert typ[..|typ| - 2] == name;
    } else {
      assert typ == name;
    }
  }

  /** A listed type is the type of the member's value; exactly the inexpressible members are not listed. */
  lemma {:induction false} InferFieldSound(types: Types, rootType: string, prefix: string, j: Json, k: string)
    requires j.JObject? && IsPrefix(prefix) && k in j.members
    ensures var r := InferField(types, rootType, prefix, j, k);
            && Extends(types, r.types)
            && (r.result.Ok? ==> (r.result.value.Some? <==> Representable(j.members[k])))
            && (r.result.Ok? && r.result.value.Some? ==>
                  FieldConforms(r.types, Below(Place(rootType, prefix), k), j.members[k], r.result.value.value))
    decreases j, 0, 0
  {
    var v := j.members[k];
    if v != JArray([]) && EthType(Unwrapped(v)) == "" && Unwrapped(v).JObject? {
      var p, u := PrefixForSubField(prefix, k), Unwrapped(v);
      InferObjectSound(types, rootType, p, u);
      var sub := InferObject(types, rootType, p, u);
      if sub.result.Ok? {
        ObjectFieldConforms(sub.types, Place(rootType, p), v, sub.result.value);
        assert InferField(types, rootType, prefix, j, k).result == Ok(Some(sub.result.value + Suffix(v)));
      }
    }
  }

  lemma {:induction false} InferFieldsSound(types: Types, rootType: string, prefix: string, j: Json,
                                            keys: seq<string>, visited: seq<string>, done: seq<TypeField>)
    requires j.JObject? && IsPrefix(prefix)
    requires forall i :: 0 <= i < |keys| ==> keys[i] in j.members && keys[i] !in visited
    requires forall i, v :: 0 <= i < |keys| && v in visited ==> StringLess(keys[i], v)
    requires Descending(keys) && FieldsSound(types, Place(rootType, prefix), j, visited, done)
    ensures var r := InferFields(types, rootType, prefix, j, keys, done);
            && Extends(types, r.types)
            && (r.result.Ok? ==> FieldsSound(r.types, Place(rootType, prefix), j, visited + keys, r.result.value))
    decreases j, 1, |keys|
  {
    if keys == [] {
      assert visited + keys == visited;
    } else {
      var k := keys[0];
      assert visited + keys == visited + [k] + keys[1..];
      forall i | 0 <= i < |keys[1..]| ensures keys[1..][i] !in visited + [k] {
        TailElements(keys, keys[1..][i]);
      }
      InferFieldSound(types, rootType, prefix, j, k);
      var f := InferField(types, rootType, prefix, j, k);
      if f.result.Ok? {
        FieldsSoundMonotone(types, f.types, Place(rootType, prefix), j, visited, done);
        VisitKey(f.types, Place(rootType, prefix), j, visited, done, k, f.result.value);
        InferFieldsSound(f.types, rootType, prefix, j, keys[1..], visited + [k], Appended(done, k, f.result.value));
      }
    }
  }

  /**
    The walk is sound: it only adds definitions, and a success names a definition the
    object conforms to. Below the root the name survives a second sanitising.
  */
  lemma {:induction false} InferObjectSound(types: Types, rootType: string, prefix: string, j: Json)
    requires j.JObject? && IsPrefix(prefix)
    ensures var r := InferObject(types, rootType, prefix, j);
            && Extends(types, r.types)
            && (r.result.Ok? ==>
                  && Conforms(r.types, Place(rootType, prefix), j, r.result.value)
                  && (prefix != ROOT_PREFIX ==> Sanitize(r.result.value) == r.result.value))
    decreases j, 2, 0
  {
    var keys := SortedKeys(j.members.Keys);
    InferAllFieldsSound(types, rootType, prefix, j, keys);
    var f := InferFields(types, rootType, prefix, j, keys, []);
    if f.result.Ok? {
      DefineSound(f.types, rootType, prefix, j, keys, f.result.value);
    }
  }

  lemma {:induction false} InferAllFieldsSound(types: Types, rootType: string, prefix: string, j: Json, keys: seq<string>)
    requires j.JObject? && IsPrefix(prefix) && keys == SortedKeys(j.members.Keys)
    ensures var r := InferFields(types, rootType, prefix, j, keys, []);
            && Extends(types, r.types)
            && (r.result.Ok? ==> FieldsSound(r.types, Place(rootType, prefix), j, keys, r.result.value))
    decreases j, 1, |keys| + 1
  {
    hide InferFields, FieldConforms;
    InferFieldsSound(types, rootType, prefix, j, keys, [], []);
    assert [] + keys == keys;
  }

  /** The last step of the walk: sound fields become a definition the object conforms to. */
  lemma {:induction false} DefineSound(types: Types, rootType: string, prefix: string, j: Json,
                                       keys: seq<string>, fields: seq<TypeField>)
    requires j.JObject? && IsPrefix(prefix) && FieldsSound(types, Place(rootType, prefix), j, keys, fields)
    requires forall k :: k in keys <==> k in j.members
    ensures var r := AddTypes(types, TypeDefForPrefix(prefix, rootType), fields, 0);
            && Extends(types, r.types)
            && (r.result.Ok? ==>
                  && Conforms(r.types, Place(rootType, prefix), j, r.result.value)
                  && (prefix != ROOT_PREFIX ==> Sanitize(r.result.value) == r.result.value))
  {
    var typeDef := TypeDefForPrefix(prefix, rootType);
    AddTypesStable(types, typeDef, fields, 0);
    var r := AddTypes(types, typeDef, fields, 0);
    if r.result.Ok? {
      FieldsSoundMonotone(types, r.types, Place(rootType, prefix), j, keys, fields);
      if prefix != ROOT_PREFIX {
        var i :| 0 <= i < 1000 && r.result.value == typeDef + Numeral(i);
        SanitizeIdempotentOnKeys(prefix, i);
      }
    }
  }
}

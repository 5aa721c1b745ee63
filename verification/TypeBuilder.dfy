/**
  The type generator as it runs (ethereum/eip712/types.go): one shared map,
  updated in place by the recursive walk. Every method is tied to the function
  of TypeSchema or MessageTypes that the soundness results are about, so the
  outcome does not depend on the order in which Go iterates over maps.
*/
module TypeBuilder {
  import opened Wrappers
  import opened JsonValues
  import opened TypeNames
  import opened TypeSchema
  import opened MessageTypes

  /** typesAreEqual. */
  method TypesAreEqual(a: seq<TypeField>, b: seq<TypeField>) returns (equal: bool)
    ensures equal <==> a == b
  {
    if |a| != |b| {
      return false;
    }
    for i := 0 to |a|
      invariant a[..i] == b[..i]
    {
      if a[i].name != b[i].name || a[i].typ != b[i].typ {
        return false;
      }
    }
    return true;
  }

  class TypeMap {
    var types: Types

    constructor ()
      ensures types == BASE_TYPES
    {
      types := BASE_TYPES;
    }

    /** addTypesToRoot. */
    method AddTypesToRoot(typeDef: string, fields: seq<TypeField>) returns (r: Result<string>)
      modifies this
      ensures Inferred(types, r) == AddTypes(old(types), typeDef, fields, 0)
    {
      var index: nat := 0;
      var key := TypeDefWithIndex(typeDef, index);
      while true
        invariant index < MAX_DUPLICATES && types == old(types)
        invariant AddTypes(types, typeDef, fields, 0) == AddTypes(types, typeDef, fields, index)
        decreases MAX_DUPLICATES - index
      {
        key := TypeDefWithIndex(typeDef, index);
        if key in types {
          var same := TypesAreEqual(fields, types[key]);
          if same {
            return Ok(key);
          }
        } else {
          break;
        }
        if index + 1 == MAX_DUPLICATES {
          return Err(TooManyDuplicates);
        }
        index := index + 1;
      }
      types := types[key := fields];
      return Ok(key);
    }

    /** The body of the loop in recursivelyAddTypesToRoot: the type of one member, if it has one. */
    method AddFieldTypes(rootType: string, prefix: string, payload: Json, fieldName: string)
      returns (r: Result<Option<string>>)
      requires IsPrefix(prefix) && payload.JObject? && fieldName in payload.members
      modifies this
      ensures Inferred(types, r) == InferField(old(types), rootType, prefix, payload, fieldName)
      decreases payload, 0
    {
      var field := payload.members[fieldName];
      var suffix := "";
      if field.JArray? {
        if |field.elems| == 0 {
          return Ok(Some("string[]"));
        }
        field, suffix := field.elems[0], "[]";
      }
      var ethType := EthType(field);
      if ethType != "" {
        return Ok(Some(ethType + suffix));
      }
      if field.JObject? {
        var sub := RecursivelyAddTypesToRoot(rootType, PrefixForSubField(prefix, fieldName), field);
        if sub.Err? {
          return Err(sub.error);
        }
        var name := SanitizeTypedef(sub.value);
        return Ok(Some(name + suffix));
      }
      return Ok(None);
    }

    /** The loop of recursivelyAddTypesToRoot over the sorted keys. */
    method AddAllFieldTypes(rootType: string, prefix: string, payload: Json, keys: seq<string>)
      returns (r: Result<seq<TypeField>>)
      requires IsPrefix(prefix) && payload.JObject?
      requires forall i :: 0 <= i < |keys| ==> keys[i] in payload.members
      modifies this
      ensures Inferred(types, r) == InferFields(old(types), rootType, prefix, payload, keys, [])
      decreases payload, 1
    {
      var typesToAdd: seq<TypeField> := [];
      for i := 0 to |keys|
        invariant InferFields(old(types), rootType, prefix, payload, keys, [])
               == InferFields(types, rootType, prefix, payload, keys[i..], typesToAdd)
      {
        assert keys[i..][0] == keys[i] && keys[i..][1..] == keys[i + 1..];
        var typ := AddFieldTypes(rootType, prefix, payload, keys[i]);
        if typ.Err? {
          return Err(typ.error);
        }
        typesToAdd := Appended(typesToAdd, keys[i], typ.value);
      }
      return Ok(typesToAdd);
    }

    /** recursivelyAddTypesToRoot. */
    method RecursivelyAddTypesToRoot(rootType: string, prefix: string, payload: Json) returns (r: Result<string>)
      requires IsPrefix(prefix)
      modifies this
      ensures payload.JObject? ==> Inferred(types, r) == InferObject(old(types), rootType, prefix, payload)
      ensures !payload.JObject? ==> types == old(types) && r == Err(NotAnObject)
      decreases payload, 2
    {
      if !payload.JObject? {
        return Err(NotAnObject);
      }
      var keys := SortedJSONKeys(payload.members);
      var fields := AddAllFieldTypes(rootType, prefix, payload, keys);
      if fields.Err? {
        return Err(fields.error);
      }
      r := AddTypesToRoot(TypeDefForPrefix(prefix, rootType), fields.value);
    }

    /** addMsgTypesToRoot followed by addMsgTypeDefToTxSchema. */
    method AddMsgTypesToRoot(field: string, msg: Option<Json>) returns (r: Result<string>)
      requires TX in types
      modifies this
      ensures Inferred(types, r) == AddMsg(old(types), field, msg)
      ensures TX in types
    {
      AddMsgKeepsTx(types, field, msg);
      if msg.None? || !msg.value.JObject? {
        return Err(NotAnObject);
      }
      var root := MsgRootType(msg.value);
      if root.Err? {
        return root;
      }
      InferObjectSound(types, root.value, ROOT_PREFIX, msg.value);
      r := RecursivelyAddTypesToRoot(root.value, ROOT_PREFIX, msg.value);
      if r.Ok? {
        types := types[TX := types[TX] + [TypeField(field, r.value)]];
      }
    }
  }

  /** createEIP712Types. */
  method CreateEIP712Types(payload: map<string, Json>, numMsgs: nat) returns (r: Result<Types>)
    ensures r == CreateTypes(payload, numMsgs)
  {
    var m := new TypeMap();
    for i := 0 to numMsgs
      invariant TX in m.types && AddMsgs(m.types, payload, i, numMsgs) == CreateTypes(payload, numMsgs)
    {
      var added := m.AddMsgTypesToRoot(MsgField(i), Get(payload, MsgField(i)));
      if added.Err? {
        return Err(added.error);
      }
    }
    return Ok(m.types);
  }
}

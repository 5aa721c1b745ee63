/** JSON values as gjson presents them; objects are unordered (section 4 of RFC 8259). */
module JsonValues {
  import opened Wrappers
  import opened Lex

  datatype Json =
    | JNull
    | JBool(b: bool)
    | JNumber(raw: string)
    | JString(str: string)
    | JArray(elems: seq<Json>)
    | JObject(members: map<string, Json>)

  function Get(members: map<string, Json>, key: string): Option<Json> {
    if key in members then Some(members[key]) else None
  }

  // ---------------------------------------------------------------------
  // Sorted keys
  // ---------------------------------------------------------------------

  function Codes(s: string): seq<int> {
    seq(|s|, i requires 0 <= i < |s| => s[i] as int)
  }

  lemma {:induction false} CodesInjective(a: string, b: string)
    requires Codes(a) == Codes(b)
    ensures a == b
  {
    assert |a| == |Codes(a)| == |b|;
    forall i | 0 <= i < |a| ensures a[i] == b[i] {
      assert Codes(a)[i] == Codes(b)[i];
    }
  }

  predicate StringLess(a: string, b: string) {
    LexLess(Codes(a), Codes(b))
  }

  /** Strictly descending, the order the type generator visits keys in. */
  ghost predicate Descending(keys: seq<string>) {
    forall i, j :: 0 <= i < j < |keys| ==> StringLess(keys[j], keys[i])
  }

  /** Inserting into a descending sequence, in place of Go's sort. */
  function Insert(keys: seq<string>, k: string): seq<string> {
    if keys == [] || StringLess(keys[0], k) then [k] + keys
    else [keys[0]] + Insert(keys[1..], k)
  }

  lemma {:induction false} InsertElements(keys: seq<string>, k: string)
    ensures forall x :: x in Insert(keys, k) <==> x == k || x in keys
  {
    if keys != [] && !StringLess(keys[0], k) {
      InsertElements(keys[1..], k);
      assert keys == [keys[0]] + keys[1..];
    }
  }

  lemma {:induction false} InsertDescending(keys: seq<string>, k: string)
    requires Descending(keys) && k !in keys
    ensures Descending(Insert(keys, k))
  {
    var r := Insert(keys, k);
    if keys == [] {
    } else if StringLess(keys[0], k) {
      forall i, j | 0 <= i < j < |r| ensures StringLess(r[j], r[i]) {
        if i == 0 && j > 1 { LexTransitive(Codes(r[j]), Codes(keys[0]), Codes(k)); }
      }
    } else {
      InsertDescending(keys[1..], k);
      InsertElements(keys[1..], k);
      LexTrichotomy(Codes(keys[0]), Codes(k));
      if Codes(keys[0]) == Codes(k) { CodesInjective(keys[0], k); }
      forall i, j | 0 <= i < j < |r| ensures StringLess(r[j], r[i]) {
        if i == 0 {
          assert r[j] == r[1..][j - 1] && r[j] in r[1..];
        }
      }
    }
  }

  /** Two descending sequences over the same keys are the same sequence. */
  lemma {:induction false} DescendingUnique(a: seq<string>, b: seq<string>)
    requires Descending(a) && Descending(b)
    requires forall k :: k in a <==> k in b
    ensures a == b
  {
    assert b != [] ==> b[0] in b;
    if a != [] {
      assert a[0] in b && b[0] in a;
      LexTrichotomy(Codes(a[0]), Codes(b[0]));
      CodesInjective(a[0], b[0]);
      forall k ensures k in a[1..] <==> k in b[1..] {
        TailElements(a, k);
        TailElements(b, k);
      }
      DescendingUnique(a[1..], b[1..]);
      assert a == [a[0]] + a[1..] && b == [b[0]] + b[1..];
    }
  }

  lemma {:induction false} TailElements(a: seq<string>, k: string)
    requires a != [] && Descending(a)
    ensures k in a[1..] <==> k in a && k != a[0]
  {
    if k in a[1..] {
      var i :| 0 <= i < |a[1..]| && a[1..][i] == k;
      assert StringLess(a[i + 1], a[0]);
      LexTrichotomy(Codes(k), Codes(a[0]));
    }
    assert a == [a[0]] + a[1..];
  }

  /** The keys of an object in descending order. */
  ghost function SortedKeys(s: set<string>): (keys: seq<string>)
    ensures Descending(keys)
    ensures forall k :: k in keys <==> k in s
  {
    if s == {} then []
    else
      var k :| k in s;
      var rest := SortedKeys(s - {k});
      InsertElements(rest, k);
      InsertDescending(rest, k);
      Insert(rest, k)
  }

  /** sortedJSONKeys: whatever order Go's map iteration takes, the result is the same. */
  method SortedJSONKeys(members: map<string, Json>) returns (keys: seq<string>)
    ensures keys == SortedKeys(members.Keys)
  {
    keys := [];
    var todo := members.Keys;
    while todo != {}
      invariant todo <= members.Keys && Descending(keys)
      invariant forall k :: k in keys <==> k in members.Keys - todo
      decreases todo
    {
      var k :| k in todo;
      InsertElements(keys, k);
      InsertDescending(keys, k);
      keys, todo := Insert(keys, k), todo - {k};
    }
    DescendingUnique(keys, SortedKeys(members.Keys));
  }
}

/**
 * JSON documents as values. An object keeps its members in document order;
 * member names are compared ordinally, as System.Text.Json's JsonObject does
 * by default.
 */
module Json {
  import opened Text

  datatype Json =
    | JNull
    | JBool(b: bool)
    | JNum(n: real)
    | JStr(s: string)
    | JArr(items: seq<Json>)
    | JObj(fields: seq<Field>)

  datatype Field = Field(key: string, value: Json)

  /** JsonObject.ContainsKey. */
  predicate HasKey(fields: seq<Field>, key: string)
  {
    exists j | 0 <= j < |fields| :: fields[j].key == key
  }

  /** The index of the member named key (the first, should a name repeat). */
  function KeyIndex(fields: seq<Field>, key: string): (r: Option<nat>)
    ensures r.Some? <==> HasKey(fields, key)
    ensures r.Some? ==> r.value < |fields| && fields[r.value].key == key
    ensures r.Some? ==> forall j | 0 <= j < r.value :: fields[j].key != key
  {
    if |fields| == 0 then None
    else if fields[0].key == key then Some(0)
    else
      var rest := KeyIndex(fields[1..], key);
      assert forall j | 1 <= j < |fields| :: fields[j] == fields[1..][j - 1];
      if rest.Some? then Some(rest.value + 1) else None
  }

  /** The indexer obj[key]: the member's value, or None when there is none. */
  function Get(fields: seq<Field>, key: string): (r: Option<Json>)
    ensures r.Some? <==> HasKey(fields, key)
  {
    match KeyIndex(fields, key)
    case Some(j) => Some(fields[j].value)
    case None => None
  }

  /** The assignment obj[key] = v on a member that exists: only its value changes. */
  function Set(fields: seq<Field>, key: string, v: Json): (r: seq<Field>)
    ensures |r| == |fields|
    ensures forall j | 0 <= j < |fields| :: r[j].key == fields[j].key
    ensures HasKey(fields, key) ==> Get(r, key) == Some(v)
    ensures forall j | 0 <= j < |fields| && Some(j) != KeyIndex(fields, key) :: r[j] == fields[j]
  {
    match KeyIndex(fields, key)
    case None => fields
    case Some(j) =>
      var r := fields[j := Field(key, v)];
      assert KeyIndex(r, key) == Some(j) by {
        KeyIndexAt(r, key, j);
      }
      r
  }

  lemma {:induction false} KeyIndexAt(fields: seq<Field>, key: string, k: nat)
    requires k < |fields| && fields[k].key == key
    requires forall j | 0 <= j < k :: fields[j].key != key
    ensures KeyIndex(fields, key) == Some(k)
  {
    if k > 0 {
      KeyIndexAt(fields[1..], key, k - 1);
    }
  }

  /** Where a name is found depends only on the member names. */
  lemma {:induction false} KeyIndexSameKeys(a: seq<Field>, b: seq<Field>, key: string)
    requires |a| == |b| && forall j | 0 <= j < |a| :: a[j].key == b[j].key
    ensures KeyIndex(a, key) == KeyIndex(b, key)
  {
    if |a| > 0 && a[0].key != key {
      KeyIndexSameKeys(a[1..], b[1..], key);
    }
  }

  /** Setting one member leaves what every other name reads unchanged. */
  lemma SetOther(fields: seq<Field>, key: string, other: string, v: Json)
    requires key != other
    ensures Get(Set(fields, key, v), other) == Get(fields, other)
  {
    KeyIndexSameKeys(fields, Set(fields, key, v), other);
  }
}

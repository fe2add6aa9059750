/** Decoded JSON values as Python sees them after `response.json()`, with
    Python's truthiness, `dict.get`, the `or` operator and `for` iteration. */
module Json {
  import opened Outcomes

  /** A decoded JSON value. A number without a fraction or exponent decodes
      to a Python `int`, any other number to a `float`. An object keeps its
      members in document order; a key may repeat, as in the raw text. */
  datatype Json =
    | JNull
    | JBool(b: bool)
    | JInt(i: int)
    | JFloat(f: real)
    | JStr(s: string)
    | JArr(items: seq<Json>)
    | JObj(fields: seq<(string, Json)>)

  /** Python's `bool(v)` on a decoded value: `None`, `False`, zero and empty
      strings, lists and dicts are falsy. */
  predicate Truthy(v: Json) {
    match v
    case JNull => false
    case JBool(b) => b
    case JInt(i) => i != 0
    case JFloat(f) => f != 0.0
    case JStr(s) => |s| > 0
    case JArr(items) => |items| > 0
    case JObj(fields) => |fields| > 0
  }

  /** `d.get(key)` on the dict `json.loads` builds from `fields`: the value of
      the last member named `key` (later duplicates overwrite earlier ones),
      or `None` when there is no such member. */
  function Get(fields: seq<(string, Json)>, key: string): (v: Json)
    ensures (forall i :: 0 <= i < |fields| ==> fields[i].0 != key) ==> v == JNull
    ensures (exists i :: 0 <= i < |fields| && fields[i].0 == key) ==> (key, v) in fields
  {
    if |fields| == 0 then JNull
    else if fields[|fields| - 1].0 == key then fields[|fields| - 1].1
    else Get(fields[..|fields| - 1], key)
  }

  /** Among several members named `key`, the last one is the one `get` sees. */
  lemma {:induction false} GetLast(fields: seq<(string, Json)>, key: string, i: nat)
    requires i < |fields| && fields[i].0 == key
    requires forall j :: i < j < |fields| ==> fields[j].0 != key
    ensures Get(fields, key) == fields[i].1
  {
    if i < |fields| - 1 {
      GetLast(fields[..|fields| - 1], key, i);
    }
  }

  /** A member appended at the end of an object overrides `key` when it is
      named `key` and is invisible to it otherwise. */
  lemma GetAppend(fields: seq<(string, Json)>, name: string, value: Json, key: string)
    ensures Get(fields + [(name, value)], key) == if name == key then value else Get(fields, key)
  {
    assert (fields + [(name, value)])[..|fields|] == fields;
  }

  /** Python's `a or b`. */
  function Or(a: Json, b: Json): Json {
    if Truthy(a) then a else b
  }

  /** The keys of a dict in iteration order: each distinct key once, at the
      position of its first member. */
  function Keys(fields: seq<(string, Json)>): (r: seq<string>)
    ensures |r| <= |fields|
    ensures forall i :: 0 <= i < |fields| ==> fields[i].0 in r
    ensures forall x :: x in r ==> exists i :: 0 <= i < |fields| && fields[i].0 == x
    ensures forall i, j :: 0 <= i < j < |r| ==> r[i] != r[j]
  {
    if |fields| == 0 then []
    else
      var front := Keys(fields[..|fields| - 1]);
      var last := fields[|fields| - 1].0;
      assert forall i :: 0 <= i < |fields| - 1 ==> fields[i] == fields[..|fields| - 1][i];
      if last in front then front else front + [last]
  }

  /** Every key comes from a member of the object. */
  lemma KeyMember(fields: seq<(string, Json)>, x: string) returns (p: nat)
    requires x in Keys(fields)
    ensures p < |fields| && fields[p].0 == x
  {
    p :| 0 <= p < |fields| && fields[p].0 == x;
  }

  /** Keys come in the order of their first members: every member named by a
      later key is preceded by a member named by each earlier key. */
  lemma {:induction false} KeysInOrder(fields: seq<(string, Json)>, i: nat, j: nat, q: nat) returns (p: nat)
    requires i < j < |Keys(fields)|
    requires q < |fields| && fields[q].0 == Keys(fields)[j]
    ensures p < q && fields[p].0 == Keys(fields)[i]
    decreases |fields|
  {
    var n := |fields| - 1;
    var init := fields[..n];
    var front, last := Keys(init), fields[n].0;
    assert forall k :: 0 <= k < n ==> fields[k] == init[k];
    if last in front {
      assert Keys(fields) == front;
      var q' := q;
      if q == n {
        q' := KeyMember(init, last);
      }
      p := KeysInOrder(init, i, j, q');
    } else {
      assert Keys(fields) == front + [last];
      if j < |front| {
        if q == n {
          assert false;
        }
        p := KeysInOrder(init, i, j, q);
      } else {
        assert front[i] in front;
        p := KeyMember(init, front[i]);
        if q < n {
          assert false;
        }
      }
    }
  }

  /** What `for x in v` walks over: a list's items, a string's characters
      (each a one-character string), a dict's keys; numbers, booleans and
      `None` are not iterable and raise `TypeError`. */
  function Iterate(v: Json): (r: Py<seq<Json>>)
    ensures r.Raise? <==> (v.JNull? || v.JBool? || v.JInt? || v.JFloat?)
    ensures r.Raise? ==> r.error == TypeError
    ensures v.JArr? ==> r == Ok(v.items)
    ensures v.JStr? ==> r.Ok? && |r.value| == |v.s|
                        && forall i :: 0 <= i < |v.s| ==> r.value[i] == JStr([v.s[i]])
    ensures v.JObj? ==> r.Ok? && |r.value| == |Keys(v.fields)|
                        && forall i :: 0 <= i < |r.value| ==> r.value[i] == JStr(Keys(v.fields)[i])
  {
    match v
    case JArr(items) => Ok(items)
    case JStr(s) => Ok(seq(|s|, i requires 0 <= i < |s| => JStr([s[i]])))
    case JObj(fields) =>
      var keys := Keys(fields);
      Ok(seq(|keys|, i requires 0 <= i < |keys| => JStr(keys[i])))
    case _ => Raise(TypeError)
  }
}

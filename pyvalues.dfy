/** The Python values a ledger holds: blocks and transactions are plain dicts
    whose values are JSON-serialisable, and reading them can raise the
    built-in exceptions IndexError, KeyError and TypeError. */
module PyValues {

  /** A JSON-serialisable Python value. A float is kept as its IEEE-754 bit
      pattern, which is all the serialiser needs to print it; a dict is the
      sequence of its items in insertion order. */
  datatype Json =
    | JNull
    | JBool(b: bool)
    | JInt(i: int)
    | JFloat(bits: bv64)
    | JStr(s: string)
    | JList(items: seq<Json>)
    | JDict(members: seq<Member>)

  /** One `key: value` item of a dict. */
  datatype Member = Member(key: string, value: Json)

  /** The Python exceptions the modelled code can raise. `FloatIndex` marks
      the one case the model does not evaluate: adding 1 to a float. */
  datatype PyError = IndexError | KeyError(key: string) | TypeError | FloatIndex

  datatype Result<+T> = Ok(value: T) | Err(error: PyError)

  /** A Python dict never holds the same key twice. */
  predicate DistinctKeys(ms: seq<Member>) {
    forall i, j :: 0 <= i < j < |ms| ==> ms[i].key != ms[j].key
  }

  /** Every dict inside `j`, at any depth, has distinct keys. */
  predicate WellFormed(j: Json) {
    match j
    case JList(items) => forall i :: 0 <= i < |items| ==> WellFormed(items[i])
    case JDict(ms) => DistinctKeys(ms) && forall i :: 0 <= i < |ms| ==> WellFormed(ms[i].value)
    case _ => true
  }

  /** Python's `s[i]` on a list: a negative index counts from the end, and an
      index outside the list raises IndexError. */
  function PyIndex<T>(s: seq<T>, i: int): (r: Result<T>)
    ensures r.Ok? <==> -|s| <= i < |s|
    ensures r.Ok? && i < 0 ==> r.value == s[|s| + i]
    ensures r.Ok? && 0 <= i ==> r.value == s[i]
    ensures r.Err? ==> r.error == IndexError
  {
    if 0 <= i < |s| then Ok(s[i])
    else if -|s| <= i < 0 then Ok(s[|s| + i])
    else Err(IndexError)
  }

  /** The value stored under `key` among the items `ms`, if any. */
  function FindMember(ms: seq<Member>, key: string): (r: Result<Json>)
    ensures r.Ok? <==> exists i :: 0 <= i < |ms| && ms[i].key == key
    ensures r.Ok? ==> Member(key, r.value) in ms
    ensures r.Err? ==> r.error == KeyError(key)
  {
    if |ms| == 0 then Err(KeyError(key))
    else if ms[0].key == key then Ok(ms[0].value)
    else
      var r := FindMember(ms[1..], key);
      assert forall i :: 0 < i < |ms| ==> ms[i] == ms[1..][i - 1];
      r
  }

  /** Python's `d[key]`: a dict raises KeyError for a missing key, and every
      other kind of value refuses a string subscript with TypeError. */
  function Subscript(j: Json, key: string): (r: Result<Json>)
    ensures !j.JDict? ==> r == Err(TypeError)
    ensures j.JDict? ==> (r.Ok? <==> exists i :: 0 <= i < |j.members| && j.members[i].key == key)
    ensures j.JDict? && r.Ok? ==> Member(key, r.value) in j.members
    ensures j.JDict? && r.Err? ==> r.error == KeyError(key)
  {
    match j
    case JDict(ms) => FindMember(ms, key)
    case _ => Err(TypeError)
  }

  /** In a dict, `d[key]` yields exactly the value paired with `key`. */
  lemma SubscriptFindsMember(ms: seq<Member>, key: string, v: Json)
    requires DistinctKeys(ms)
    ensures Subscript(JDict(ms), key) == Ok(v) <==> Member(key, v) in ms
  {
  }

  /** Python's `x + 1` for the value `x`: an int grows by one, a bool counts
      as 0 or 1, and a str, list, dict or None raises TypeError. */
  function AddOne(x: Json): (r: Result<int>)
    ensures x.JInt? ==> r == Ok(x.i + 1)
    ensures x.JBool? ==> r == Ok(if x.b then 2 else 1)
    ensures x.JFloat? ==> r == Err(FloatIndex)
    ensures r.Ok? <==> x.JInt? || x.JBool?
  {
    match x
    case JInt(i) => Ok(i + 1)
    case JBool(b) => Ok(if b then 2 else 1)
    case JFloat(_) => Err(FloatIndex)
    case _ => Err(TypeError)
  }
}

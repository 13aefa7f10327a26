/** The Python values that `json.loads` produces, and the few operations the
    scripts apply to them: truthiness, `dict.get`, `x or default`, numeric
    tests and `float()`. */
module Json {
  import opened Base
  import Text

  /** A JSON object is the list of its members in document order; it stands
      for the Python dict built from it. Python's None is JNull, and ints and
      floats are both JNum. */
  datatype Json =
    | JNull
    | JBool(b: bool)
    | JNum(n: real)
    | JStr(s: string)
    | JArr(items: seq<Json>)
    | JObj(members: seq<(string, Json)>)

  /** Python truthiness: None, False, 0, "", [] and {} are false. */
  predicate Truthy(j: Json)
  {
    match j
    case JNull => false
    case JBool(b) => b
    case JNum(n) => n != 0.0
    case JStr(s) => s != []
    case JArr(items) => items != []
    case JObj(members) => members != []
  }

  predicate HasKey(members: seq<(string, Json)>, key: string)
  {
    exists i :: 0 <= i < |members| && members[i].0 == key
  }

  /** `d.get(key, default)`: the value of the first member named key. */
  function Get(members: seq<(string, Json)>, key: string, default: Json): (r: Json)
    ensures !HasKey(members, key) ==> r == default
    ensures HasKey(members, key) ==>
      exists i :: 0 <= i < |members| && members[i] == (key, r) && forall k :: 0 <= k < i ==> members[k].0 != key
  {
    if members == [] then default
    else if members[0].0 == key then members[0].1
    else
      var r := Get(members[1..], key, default);
      assert HasKey(members, key) ==> HasKey(members[1..], key);
      r
  }

  /** `x or default`. */
  function Or(x: Json, default: Json): (r: Json)
    ensures Truthy(x) ==> r == x
    ensures !Truthy(x) ==> r == default
  {
    if Truthy(x) then x else default
  }

  /** The members of a value on which the script calls `.get`: only a dict
      has that method, anything else raises AttributeError. */
  function AsDict(j: Json): (r: Result<seq<(string, Json)>>)
    ensures r.Ok? <==> j.JObj?
  {
    if j.JObj? then Ok(j.members) else Raised
  }

  /** `isinstance(x, (int, float))`, where bool counts as an int. */
  function AsNumber(j: Json): (r: Option<real>)
    ensures r.Some? <==> (j.JNum? || j.JBool?)
  {
    match j
    case JNum(n) => Some(n)
    case JBool(b) => Some(if b then 1.0 else 0.0)
    case _ => None
  }

  /** `x / k`: TypeError unless x is a number. */
  function Divide(j: Json, k: real): (r: Result<real>)
    requires k != 0.0
    ensures r.Ok? <==> AsNumber(j).Some?
    ensures r.Ok? ==> r.value * k == AsNumber(j).value
  {
    match AsNumber(j)
    case Some(x) => Ok(x / k)
    case None => Raised
  }

  /** `float(x)` inside `try ... except Exception`: None where it raises. */
  function ToFloat(j: Json): (r: Option<real>)
    ensures j.JNum? ==> r == Some(j.n)
    ensures j.JStr? ==> r == Text.ParseFloat(j.s)
    ensures (j.JNull? || j.JArr? || j.JObj?) ==> r.None?
  {
    match j
    case JNum(n) => Some(n)
    case JBool(b) => Some(if b then 1.0 else 0.0)
    case JStr(s) => Text.ParseFloat(s)
    case _ => None
  }
}

/** The parsed JSON tree the service walks, with the behaviour of Jackson's
    `JsonNode` accessors that the service relies on: `get(String)` and
    `get(int)` answer Java null (`None`) when the member is absent, iterating
    a node yields an array's elements or an object's values, `fieldNames()`
    is empty on anything but an object, and `asBoolean`, `asDouble` and
    `asText` coerce any node without failing. A JSON `null` literal is a node
    (`JNull`), not a Java null. */
module JsonNode {
  import opened Results
  import opened JavaText

  datatype Json =
    | JNull
    | JBool(b: bool)
    | JInt(n: int)
      /** A floating-point number; `shown` is the text Java's
          `Double.toString` gives for it, which the model does not compute. */
    | JFloat(x: real, shown: string)
    | JText(s: string)
    | JArray(items: seq<Json>)
      /** Members in document order. Jackson keeps one member per name; this
          type does not enforce that, and `get` answers the first member of
          a name. */
    | JObject(fields: seq<(string, Json)>)

  /** One step of a lookup chain: `get("name")` or `get(0)`. */
  datatype Step = Key(name: string) | Index(i: int)

  function Lookup(fields: seq<(string, Json)>, key: string): Option<Json>
  {
    if fields == [] then None
    else if fields[0].0 == key then Some(fields[0].1)
    else Lookup(fields[1..], key)
  }

  /** `JsonNode.get(String)`: the member's value, or null; always null on
      anything but an object. */
  function Get(j: Json, key: string): (r: Option<Json>)
    ensures !j.JObject? ==> r.None?
    ensures r.Some? ==> (key, r.value) in j.fields
  {
    if j.JObject? then
      LookupFinds(j.fields, key);
      Lookup(j.fields, key)
    else None
  }

  /** `JsonNode.get(int)`: the array element, or null when out of range or
      not an array. */
  function At(j: Json, i: int): (r: Option<Json>)
    ensures r.Some? ==> j.JArray? && r.value in j.items
    ensures j.JArray? && 0 <= i < |j.items| ==> r == Some(j.items[i])
    ensures i < 0 ==> r.None?
  {
    if j.JArray? && 0 <= i < |j.items| then Some(j.items[i]) else None
  }

  function Child(j: Json, step: Step): Option<Json>
  {
    match step
    case Key(name) => Get(j, name)
    case Index(i) => At(j, i)
  }

  /** The node a chain of lookups reaches, or null when one of them is. */
  function Follow(j: Json, path: seq<Step>): Option<Json>
    decreases |path|
  {
    if path == [] then Some(j)
    else match Child(j, path[0])
      case None => None
      case Some(c) => Follow(c, path[1..])
  }

  /** `JsonNode.fieldNames()`: an object's member names in order. */
  function FieldNames(j: Json): (r: seq<string>)
    ensures !j.JObject? ==> r == []
    ensures j.JObject? ==> |r| == |j.fields| && forall k :: 0 <= k < |r| ==> r[k] == j.fields[k].0
  {
    if j.JObject? then seq(|j.fields|, i requires 0 <= i < |j.fields| => j.fields[i].0) else []
  }

  /** What `for (JsonNode x : j)` visits: an array's elements, an object's
      member values, nothing for a scalar. */
  function Elements(j: Json): (r: seq<Json>)
    ensures j.JArray? ==> r == j.items
    ensures j.JObject? ==> (|r| == |FieldNames(j)|
      && forall k :: 0 <= k < |r| ==> (FieldNames(j)[k], r[k]) == j.fields[k])
    ensures !j.JArray? && !j.JObject? ==> r == []
  {
    match j
    case JArray(items) => items
    case JObject(fields) => seq(|fields|, i requires 0 <= i < |fields| => fields[i].1)
    case _ => []
  }

  /** `JsonNode.asBoolean()`: a boolean's value; text that trims to "true"
      or "false"; an integer other than zero; false for everything else. */
  function AsBoolean(j: Json): (r: bool)
    ensures j.JBool? ==> r == j.b
    ensures j.JText? ==> (r <==> Trim(j.s) == "true")
    ensures r ==> j.JBool? || j.JInt? || j.JText?
  {
    match j
    case JBool(b) => b
    case JInt(n) => n != 0
    case JText(s) => Trim(s) == "true"
    case _ => false
  }

  /** `JsonNode.asDouble()`: a number's value, 1.0 or 0.0 for a boolean,
      the text parsed leniently, 0.0 for everything else. */
  function AsDouble(j: Json): (r: real)
    ensures j.JFloat? ==> r == j.x
    ensures j.JInt? ==> r == j.n as real
    ensures j.JText? ==> r == ParseAsDouble(j.s)
    ensures j.JNull? || j.JArray? || j.JObject? ==> r == 0.0
  {
    match j
    case JBool(b) => if b then 1.0 else 0.0
    case JInt(n) => n as real
    case JFloat(x, _) => x
    case JText(s) => ParseAsDouble(s)
    case _ => 0.0
  }

  /** `JsonNode.asText()`: text as is, a scalar's rendering, "null" for the
      JSON null literal, the empty string for arrays and objects. */
  function AsText(j: Json): (r: string)
    ensures j.JText? ==> r == j.s
    ensures j.JInt? ==> r == IntToText(j.n)
    ensures j.JArray? || j.JObject? ==> r == ""
  {
    match j
    case JNull => "null"
    case JBool(b) => if b then "true" else "false"
    case JInt(n) => IntToText(n)
    case JFloat(_, shown) => shown
    case JText(s) => s
    case _ => ""
  }

  lemma {:induction false} LookupPresent(fields: seq<(string, Json)>, k: nat)
    requires k < |fields|
    ensures Lookup(fields, fields[k].0).Some?
  {
    if k > 0 && fields[0].0 != fields[k].0 {
      LookupPresent(fields[1..], k - 1);
    }
  }

  /** Every name `fieldNames()` yields has a value under `get`. */
  lemma FieldNameHasValue(j: Json, k: nat)
    requires k < |FieldNames(j)|
    ensures Get(j, FieldNames(j)[k]).Some?
  {
    LookupPresent(j.fields, k);
  }

  /** `get` finds exactly the names `fieldNames()` lists, and what it
      returns is the value of one of those members. */
  lemma {:induction false} LookupFinds(fields: seq<(string, Json)>, key: string)
    ensures Lookup(fields, key).Some? <==> exists k :: 0 <= k < |fields| && fields[k].0 == key
    ensures Lookup(fields, key).Some? ==> (key, Lookup(fields, key).value) in fields
  {
    if fields != [] && fields[0].0 != key {
      LookupFinds(fields[1..], key);
      if exists k :: 0 <= k < |fields| && fields[k].0 == key {
        var k :| 0 <= k < |fields| && fields[k].0 == key;
        assert fields[1..][k - 1].0 == key;
      }
    }
  }

  /** `get` answers non-null for exactly the names `fieldNames()` lists. */
  lemma FieldNamesAreKeys(j: Json, key: string)
    ensures Get(j, key).Some? <==> key in FieldNames(j)
  {
    if j.JObject? {
      LookupFinds(j.fields, key);
      if key in FieldNames(j) {
        var k :| 0 <= k < |FieldNames(j)| && FieldNames(j)[k] == key;
        assert j.fields[k].0 == key;
      }
      if Get(j, key).Some? {
        var k :| 0 <= k < |j.fields| && j.fields[k].0 == key;
        assert FieldNames(j)[k] == key;
      }
    }
  }

  /** The coercions never fail, and the JSON null literal reads as "null",
      false and 0.0 rather than throwing. */
  lemma NullLiteralCoerces()
    ensures AsText(JNull) == "null" && !AsBoolean(JNull) && AsDouble(JNull) == 0.0
    ensures AsBoolean(JText(" true ")) && !AsBoolean(JText("yes"))
  {
    assert Trim(" true ") == "true" by {
      assert TrimStart(" true ") == "true ";
      assert "true "[..4] == "true";
    }
    assert Trim("yes") == "yes";
  }
}

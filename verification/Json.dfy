/** JSON values as the code handles them; text parsing and printing are not part of this model. */
module Json {
  import opened Common
  import opened Decimal

  /** An object keeps its fields in key order, one per key. A float is kept as its text. */
  datatype Json =
    | JNull
    | JBool(b: bool)
    | JInt(n: int)
    | JFloat(text: string)
    | JStr(s: string)
    | JArr(items: seq<Json>)
    | JObj(fields: seq<(string, Json)>)

  /** json.find on a field list. */
  function Lookup(fields: seq<(string, Json)>, key: string): Option<Json> {
    if fields == [] then None
    else if fields[0].0 == key then Some(fields[0].1)
    else Lookup(fields[1..], key)
  }

  /** json.find: nothing is found in a value that is not an object. */
  function Find(json: Json, key: string): Option<Json> {
    if json.JObj? then Lookup(json.fields, key) else None
  }

  /** json.erase on a field list. */
  function Erase(fields: seq<(string, Json)>, key: string): seq<(string, Json)> {
    if fields == [] then []
    else
      var f := fields[|fields| - 1];
      Erase(fields[..|fields| - 1], key) + if f.0 == key then [] else [f]
  }

  lemma {:induction false} EraseNothing(fields: seq<(string, Json)>, key: string)
    requires forall i :: 0 <= i < |fields| ==> fields[i].0 != key
    ensures Erase(fields, key) == fields
  {
    if fields != [] {
      EraseNothing(fields[..|fields| - 1], key);
    }
  }

  lemma {:induction false} EraseConcat(xs: seq<(string, Json)>, ys: seq<(string, Json)>, key: string)
    ensures Erase(xs + ys, key) == Erase(xs, key) + Erase(ys, key)
  {
    if ys == [] {
      assert xs + ys == xs;
    } else {
      var t := ys[..|ys| - 1];
      EraseConcat(xs, t, key);
      assert (xs + ys)[..|xs + ys| - 1] == xs + t;
    }
  }

  lemma {:induction false} EraseAll(fields: seq<(string, Json)>, key: string)
    requires forall i :: 0 <= i < |fields| ==> fields[i].0 == key
    ensures Erase(fields, key) == []
  {
    if fields != [] {
      EraseAll(fields[..|fields| - 1], key);
    }
  }

  /** Only the fields with the key go. */
  lemma EraseBetween(xs: seq<(string, Json)>, mid: seq<(string, Json)>, ys: seq<(string, Json)>, key: string)
    requires forall i :: 0 <= i < |xs| ==> xs[i].0 != key
    requires forall i :: 0 <= i < |mid| ==> mid[i].0 == key
    requires forall i :: 0 <= i < |ys| ==> ys[i].0 != key
    ensures Erase(xs + mid + ys, key) == xs + ys
  {
    hide Erase;
    EraseConcat(xs + mid, ys, key);
    EraseConcat(xs, mid, key);
    EraseNothing(xs, key);
    EraseAll(mid, key);
    EraseNothing(ys, key);
  }

  /** get<std::string>, which throws for every other type. */
  function GetString(json: Json): Result<string> {
    if json.JStr? then Ok(json.s) else Err(JsonType)
  }

  /** Iteration over a value: the elements, the field values, nothing for null, the value itself otherwise. */
  function Elements(json: Json): seq<Json> {
    match json
    case JArr(items) => items
    case JObj(fields) => seq(|fields|, i requires 0 <= i < |fields| => fields[i].1)
    case JNull => []
    case _ => [json]
  }

  /** A cast of an integer to 32 or 64 bits. */
  function Cast32(n: int): int32 {
    var m := n % 0x1_0000_0000;
    if m > INT_MAX then m - 0x1_0000_0000 else m
  }

  function Cast64(n: int): int64 {
    var m := n % 0x1_0000_0000_0000_0000;
    if m > LONG_MAX then m - 0x1_0000_0000_0000_0000 else m
  }

  lemma CastIsIdentity(n: int)
    ensures INT_MIN <= n <= INT_MAX ==> Cast32(n) == n
    ensures LONG_MIN <= n <= LONG_MAX ==> Cast64(n) == n
  {
  }
}

/** Dotted-path lookup in the nested dictionaries the detailed flight fetch
    returns, such as "airport.destination.position.latitude". */
module JsonPath {

  /** A decoded JSON value. */
  datatype Json =
    | JNull
    | JBool(b: bool)
    | JNum(n: real)
    | JStr(s: string)
    | JArr(items: seq<Json>)
    | JObj(fields: map<string, Json>)

  /** `str.split('.')`: the pieces between the dots, empty pieces included, so
      there is always at least one. */
  function Split(s: string): (parts: seq<string>)
    ensures |parts| >= 1
    ensures forall k :: 0 <= k < |parts| ==> '.' !in parts[k]
  {
    if s == [] then [""]
    else
      var rest := Split(s[1..]);
      if s[0] == '.' then [""] + rest
      else [[s[0]] + rest[0]] + rest[1..]
  }

  /** `'.'.join(parts)`. */
  function Join(parts: seq<string>): string
    requires |parts| >= 1
  {
    if |parts| == 1 then parts[0] else parts[0] + "." + Join(parts[1..])
  }

  /** Joining the pieces gives the path back. */
  lemma {:induction false} JoinSplit(s: string)
    ensures Join(Split(s)) == s
  {
    if s != [] {
      var rest := Split(s[1..]);
      JoinSplit(s[1..]);
      if s[0] != '.' {
        var parts := Split(s);
        assert parts[1..] == rest[1..];
        if |rest| > 1 {
          assert Join(parts) == [s[0]] + rest[0] + "." + Join(rest[1..]);
        }
      }
    }
  }

  lemma {:induction false} SplitPrefix(w: string, s: string)
    requires '.' !in w
    ensures Split(w + s) == [w + Split(s)[0]] + Split(s)[1..]
  {
    if w == [] {
      assert w + s == s;
      assert w + Split(s)[0] == Split(s)[0];
    } else {
      SplitPrefix(w[1..], s);
      assert (w + s)[0] == w[0];
      assert (w + s)[1..] == w[1..] + s;
      assert w[0] != '.' by { assert w[0] in w; }
      assert [w[0]] + (w[1..] + Split(s)[0]) == w + Split(s)[0];
    }
  }

  /** Splitting a join of dot-free pieces gives the pieces back. */
  lemma {:induction false} SplitJoin(parts: seq<string>)
    requires |parts| >= 1
    requires forall k :: 0 <= k < |parts| ==> '.' !in parts[k]
    ensures Split(Join(parts)) == parts
  {
    if |parts| == 1 {
      SplitPrefix(parts[0], "");
      assert parts[0] + "" == parts[0];
    } else {
      SplitJoin(parts[1..]);
      var rest := Join(parts[1..]);
      assert parts[0] + "." + rest == parts[0] + ("." + rest);
      SplitPrefix(parts[0], "." + rest);
      assert ("." + rest)[1..] == rest;
      assert parts[0] + "" == parts[0];
      assert [parts[0]] + parts[1..] == parts;
    }
  }

  /** A null or an empty string ends the descent with the default. */
  predicate Missing(v: Json) {
    v == JNull || v == JStr("")
  }

  /** Descend through the keys: each step requires a dictionary; an absent key
      reads as `default`, and a null or empty value gives `default`. */
  function Lookup(data: Json, keys: seq<string>, default: Json): Json
    decreases |keys|
  {
    if keys == [] then data
    else
      match data
      case JObj(m) =>
        var next := if keys[0] in m then m[keys[0]] else default;
        if Missing(next) then default else Lookup(next, keys[1..], default)
      case _ => default
  }

  /** `get_nested`: the loop reassigns the current value key by key. */
  method GetNested(data: Json, path: string, default: Json) returns (r: Json)
    ensures r == Lookup(data, Split(path), default)
    ensures r == default || !Missing(r)
  {
    var keys := Split(path);
    var cur := data;
    var i := 0;
    while i < |keys|
      invariant 0 <= i <= |keys|
      invariant Lookup(cur, keys[i..], default) == Lookup(data, keys, default)
      invariant i > 0 ==> !Missing(cur)
    {
      assert keys[i..] == [keys[i]] + keys[i + 1..];
      match cur {
        case JObj(m) =>
          cur := if keys[i] in m then m[keys[i]] else default;
          if Missing(cur) {
            return default;
          }
        case _ =>
          return default;
      }
      i := i + 1;
    }
    LookupFound(data, keys, default);
    return cur;
  }

  /** A lookup along at least one key either fails with the default or finds a
      value that is neither null nor the empty string. */
  lemma {:induction false} LookupFound(data: Json, keys: seq<string>, default: Json)
    requires keys != []
    ensures var r := Lookup(data, keys, default); r == default || !Missing(r)
    decreases |keys|
  {
    if data.JObj? {
      var m := data.fields;
      var next := if keys[0] in m then m[keys[0]] else default;
      if !Missing(next) && |keys| > 1 {
        LookupFound(next, keys[1..], default);
      }
    }
  }

  /** With the default None, looking up `a` and then `b` is looking up `a + b`. */
  lemma {:induction false} LookupConcat(data: Json, a: seq<string>, b: seq<string>)
    ensures Lookup(data, a + b, JNull) == Lookup(Lookup(data, a, JNull), b, JNull)
    decreases |a|
  {
    if a == [] {
      assert a + b == b;
    } else {
      assert (a + b)[0] == a[0] && (a + b)[1..] == a[1..] + b;
      if data.JObj? {
        var m := data.fields;
        var next := if a[0] in m then m[a[0]] else JNull;
        if !Missing(next) {
          LookupConcat(next, a[1..], b);
        } else {
          LookupOfNull(b);
        }
      } else {
        LookupOfNull(b);
      }
    }
  }

  lemma LookupOfNull(b: seq<string>)
    ensures Lookup(JNull, b, JNull) == JNull
  {
  }

  /** A value two levels down, such as the airline's short name under
      "airline.short", is found when it is neither null nor empty. */
  lemma TwoLevelLookup(k1: string, k2: string, v: Json)
    requires '.' !in k1 && '.' !in k2 && !Missing(v)
    ensures Lookup(JObj(map[k1 := JObj(map[k2 := v])]), Split(k1 + "." + k2), JNull) == v
  {
    var parts := [k1, k2];
    assert Join(parts) == k1 + "." + k2;
    SplitJoin(parts);
    var inner := JObj(map[k2 := v]);
    assert parts[1..] == [k2] && [k2][1..] == [];
    assert Lookup(inner, [k2], JNull) == v;
    assert Lookup(JObj(map[k1 := inner]), parts, JNull) == Lookup(inner, [k2], JNull);
  }
}

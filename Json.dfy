/**
 * JSON values as `JSONSerialization` hands them to Swift (`[String: Any]`,
 * `[Any]`, `String`, `NSNumber`, `NSNull`), and the `as?` casts the chat
 * code applies to them. The text form of JSON is produced and read by the
 * platform library, which is represented by a pair of functions.
 */
module Json {
  import opened Wrappers

  datatype Json =
    | JNull
    | JBool(b: bool)
    | JNumber(n: real)
    | JString(str: string)
    | JArray(elems: seq<Json>)
    | JObject(fields: map<string, Json>)

  /** The platform JSON library: `JSONSerialization.jsonObject(with:)` on the
      UTF-8 bytes of a frame (None when it throws) and
      `JSONSerialization.data(withJSONObject:)` of a dictionary, read back as a
      UTF-8 string. */
  datatype JsonLibrary = JsonLibrary(parse: string -> Option<Json>, printObject: map<string, Json> -> string)

  /** A value of the kind the chat code puts in the dictionaries it sends:
      a string, or an array of strings. */
  predicate IsStringValue(v: Json) {
    v.JString? || (v.JArray? && forall i :: 0 <= i < |v.elems| ==> v.elems[i].JString?)
  }

  /** A dictionary of string and string-array values. */
  predicate IsStringObject(fields: map<string, Json>) {
    forall k :: k in fields ==> IsStringValue(fields[k])
  }

  /** The one thing the chat code relies on from the library: a dictionary of
      strings and string arrays that it prints parses back to the same
      dictionary. */
  ghost predicate PrintedObjectsParse(lib: JsonLibrary) {
    forall fields: map<string, Json> {:trigger lib.printObject(fields)} | IsStringObject(fields) ::
      lib.parse(lib.printObject(fields)) == Some(JObject(fields))
  }

  /** `dict[key]`. */
  function Lookup(dict: map<string, Json>, key: string): (r: Option<Json>)
    ensures r.Some? <==> key in dict
    ensures r.Some? ==> r.value == dict[key]
  {
    if key in dict then Some(dict[key]) else None
  }

  /** `dict[key] as? String`. */
  function StringField(dict: map<string, Json>, key: string): (r: Option<string>)
    ensures r.Some? <==> key in dict && dict[key].JString?
    ensures r.Some? ==> dict[key] == JString(r.value)
  {
    if key in dict && dict[key].JString? then Some(dict[key].str) else None
  }

  /** `dict[key] as? [String]`: an array all of whose elements are strings. */
  function StringArrayField(dict: map<string, Json>, key: string): (r: Option<seq<string>>)
    ensures r.Some? <==> key in dict && dict[key].JArray?
                         && forall i :: 0 <= i < |dict[key].elems| ==> dict[key].elems[i].JString?
    ensures r.Some? ==> dict[key] == JArray(StringsAsJson(r.value))
  {
    if key in dict && dict[key].JArray? && forall i :: 0 <= i < |dict[key].elems| ==> dict[key].elems[i].JString?
    then
      var elems := dict[key].elems;
      var strs := seq(|elems|, i requires 0 <= i < |elems| => elems[i].str);
      assert StringsAsJson(strs) == elems;
      Some(strs)
    else None
  }

  /** A Swift `[String]` as a JSON array. */
  function StringsAsJson(strs: seq<string>): (r: seq<Json>)
    ensures |r| == |strs|
    ensures forall i :: 0 <= i < |strs| ==> r[i] == JString(strs[i])
  {
    seq(|strs|, i requires 0 <= i < |strs| => JString(strs[i]))
  }

  /** Reading back a string array that was stored as JSON gives the array. */
  lemma StringArrayFieldOf(dict: map<string, Json>, key: string, strs: seq<string>)
    requires key in dict && dict[key] == JArray(StringsAsJson(strs))
    ensures StringArrayField(dict, key) == Some(strs)
  {
    var r := StringArrayField(dict, key);
    assert r.Some?;
    assert |r.value| == |strs|;
    forall i | 0 <= i < |strs| ensures r.value[i] == strs[i] {
      assert StringsAsJson(r.value)[i] == StringsAsJson(strs)[i];
    }
    assert r.value == strs;
  }

  // ---------------------------------------------------------------------------
  // A library that meets the hypothesis
  // ---------------------------------------------------------------------------

  /** `n` in unary, closed by a `0`. */
  function Unary(n: nat): (r: string)
    ensures |r| == n + 1
  {
    if n == 0 then "0" else "1" + Unary(n - 1)
  }

  lemma {:induction false} UnaryPrefix(m: nat, n: nat, x: string, y: string)
    requires Unary(m) + x == Unary(n) + y
    ensures m == n && x == y
  {
    var l, r := Unary(m) + x, Unary(n) + y;
    assert l[0] == r[0];
    if m > 0 && n > 0 {
      assert l == "1" + (Unary(m - 1) + x);
      assert r == "1" + (Unary(n - 1) + y);
      assert Unary(m - 1) + x == l[1..] == r[1..] == Unary(n - 1) + y;
      UnaryPrefix(m - 1, n - 1, x, y);
    } else if m == 0 && n == 0 {
      assert x == l[1..] == r[1..] == y;
    }
  }

  /** A string, prefixed by its length so that no encoding extends another. */
  function EncodeString(s: string): string {
    Unary(|s|) + s
  }

  lemma EncodeStringPrefix(a: string, b: string, x: string, y: string)
    requires EncodeString(a) + x == EncodeString(b) + y
    ensures a == b && x == y
  {
    assert EncodeString(a) + x == Unary(|a|) + (a + x);
    assert EncodeString(b) + y == Unary(|b|) + (b + y);
    UnaryPrefix(|a|, |b|, a + x, b + y);
    assert a == (a + x)[..|a|] == (b + y)[..|b|] == b;
    assert x == (a + x)[|a|..] == (b + y)[|b|..] == y;
  }

  /** The strings of an array, each encoded, with a `.` at the end. */
  function EncodeElems(elems: seq<Json>): string
    decreases |elems|
  {
    if elems == [] then "."
    else "," + (EncodeString(if elems[0].JString? then elems[0].str else "") + EncodeElems(elems[1..]))
  }

  lemma {:induction false} EncodeElemsPrefix(e1: seq<Json>, e2: seq<Json>, x: string, y: string)
    requires forall i :: 0 <= i < |e1| ==> e1[i].JString?
    requires forall i :: 0 <= i < |e2| ==> e2[i].JString?
    requires EncodeElems(e1) + x == EncodeElems(e2) + y
    ensures e1 == e2 && x == y
    decreases |e1|
  {
    var l, r := EncodeElems(e1) + x, EncodeElems(e2) + y;
    assert l[0] == r[0];
    if e1 != [] && e2 != [] {
      var t1, t2 := EncodeElems(e1[1..]) + x, EncodeElems(e2[1..]) + y;
      assert l == "," + (EncodeString(e1[0].str) + t1);
      assert r == "," + (EncodeString(e2[0].str) + t2);
      assert EncodeString(e1[0].str) + t1 == l[1..] == r[1..] == EncodeString(e2[0].str) + t2;
      EncodeStringPrefix(e1[0].str, e2[0].str, t1, t2);
      EncodeElemsPrefix(e1[1..], e2[1..], x, y);
      assert e1 == [e1[0]] + e1[1..];
      assert e2 == [e2[0]] + e2[1..];
    } else if e1 == [] && e2 == [] {
      assert x == l[1..] == r[1..] == y;
    }
  }

  /** A string value or an array of strings, tagged. */
  function EncodeValue(v: Json): string {
    match v
    case JString(s) => "S" + EncodeString(s)
    case JArray(elems) => "A" + EncodeElems(elems)
    case _ => ""
  }

  lemma EncodeValuePrefix(v1: Json, v2: Json, x: string, y: string)
    requires IsStringValue(v1) && IsStringValue(v2)
    requires EncodeValue(v1) + x == EncodeValue(v2) + y
    ensures v1 == v2 && x == y
  {
    var b1 := EncodeValueBody(v1);
    var b2 := EncodeValueBody(v2);
    var l, r := EncodeValue(v1) + x, EncodeValue(v2) + y;
    assert l == [EncodeValue(v1)[0]] + (b1 + x);
    assert r == [EncodeValue(v2)[0]] + (b2 + y);
    assert b1 + x == l[1..] == r[1..] == b2 + y;
    if v1.JString? && v2.JString? {
      EncodeStringPrefix(v1.str, v2.str, x, y);
    } else if v1.JArray? && v2.JArray? {
      EncodeElemsPrefix(v1.elems, v2.elems, x, y);
    }
  }

  /** The encoding of a string value or an array of strings is its tag
      followed by its body. */
  lemma EncodeValueBody(v: Json) returns (body: string)
    requires IsStringValue(v)
    ensures EncodeValue(v) == [if v.JString? then 'S' else 'A'] + body
    ensures v.JString? ==> body == EncodeString(v.str)
    ensures v.JArray? ==> body == EncodeElems(v.elems)
  {
    body := if v.JString? then EncodeString(v.str) else EncodeElems(v.elems);
  }

  /** A dictionary, one entry after another in some order, closed by `}`. */
  ghost function EncodeObject(fields: map<string, Json>): string
    decreases |fields.Keys|
  {
    if fields.Keys == {} then "}"
    else
      var k :| k in fields.Keys;
      assert (fields - {k}).Keys == fields.Keys - {k};
      "," + (EncodeString(k) + (EncodeValue(fields[k]) + EncodeObject(fields - {k})))
  }

  /** A non-empty dictionary encodes as one of its entries, then the rest. */
  lemma EncodeObjectEntry(fields: map<string, Json>) returns (k: string)
    requires fields.Keys != {}
    ensures k in fields
    ensures EncodeObject(fields)
      == "," + (EncodeString(k) + (EncodeValue(fields[k]) + EncodeObject(fields - {k})))
  {
    k :| k in fields.Keys
      && EncodeObject(fields) == "," + (EncodeString(k) + (EncodeValue(fields[k]) + EncodeObject(fields - {k})));
  }

  /** Different dictionaries of strings and string arrays encode differently. */
  lemma {:induction false} EncodeObjectInjective(f1: map<string, Json>, f2: map<string, Json>)
    requires IsStringObject(f1) && IsStringObject(f2)
    requires EncodeObject(f1) == EncodeObject(f2)
    ensures f1 == f2
    decreases |f1.Keys|
  {
    if f1.Keys != {} && f2.Keys != {} {
      var k1 := EncodeObjectEntry(f1);
      var k2 := EncodeObjectEntry(f2);
      SameFirstEntry(f1, f2, k1, k2);
      assert (f1 - {k1}).Keys == f1.Keys - {k1};
      EncodeObjectInjective(f1 - {k1}, f2 - {k2});
      RestoreEntry(f1, k1);
      RestoreEntry(f2, k2);
    } else if f1.Keys != {} {
      var k1 := EncodeObjectEntry(f1);
    } else if f2.Keys != {} {
      var k2 := EncodeObjectEntry(f2);
    }
  }

  /** Two equal encodings start with the same entry. */
  lemma SameFirstEntry(f1: map<string, Json>, f2: map<string, Json>, k1: string, k2: string)
    requires IsStringObject(f1) && IsStringObject(f2) && k1 in f1 && k2 in f2
    requires EncodeObject(f1) == "," + (EncodeString(k1) + (EncodeValue(f1[k1]) + EncodeObject(f1 - {k1})))
    requires EncodeObject(f2) == "," + (EncodeString(k2) + (EncodeValue(f2[k2]) + EncodeObject(f2 - {k2})))
    requires EncodeObject(f1) == EncodeObject(f2)
    ensures k1 == k2 && f1[k1] == f2[k2]
    ensures EncodeObject(f1 - {k1}) == EncodeObject(f2 - {k2})
  {
    var t1 := EncodeValue(f1[k1]) + EncodeObject(f1 - {k1});
    var t2 := EncodeValue(f2[k2]) + EncodeObject(f2 - {k2});
    assert EncodeString(k1) + t1 == EncodeObject(f1)[1..] == EncodeObject(f2)[1..] == EncodeString(k2) + t2;
    EncodeStringPrefix(k1, k2, t1, t2);
    EncodeValuePrefix(f1[k1], f2[k2], EncodeObject(f1 - {k1}), EncodeObject(f2 - {k2}));
  }

  lemma RestoreEntry(f: map<string, Json>, k: string)
    requires k in f
    ensures f == (f - {k})[k := f[k]]
  {
  }

  /** Reads back what `EncodeObject` wrote for a dictionary of strings and
      string arrays. */
  ghost function DecodeObject(s: string): Option<Json> {
    if exists fields :: IsStringObject(fields) && EncodeObject(fields) == s then
      var fields :| IsStringObject(fields) && EncodeObject(fields) == s;
      Some(JObject(fields))
    else None
  }

  lemma DecodeEncodeObject(fields: map<string, Json>)
    requires IsStringObject(fields)
    ensures DecodeObject(EncodeObject(fields)) == Some(JObject(fields))
  {
    var s := EncodeObject(fields);
    assert IsStringObject(fields) && EncodeObject(fields) == s;
    var r := DecodeObject(s);
    assert r.Some? && r.value.JObject?;
    EncodeObjectInjective(r.value.fields, fields);
  }

  /** The hypothesis the round-trip lemmas make is met by some library. */
  lemma PrintedObjectsParseSatisfiable()
    ensures exists lib :: PrintedObjectsParse(lib)
  {
    var lib := JsonLibrary(s => DecodeObject(s), fields => EncodeObject(fields));
    forall fields: map<string, Json> | IsStringObject(fields)
      ensures lib.parse(lib.printObject(fields)) == Some(JObject(fields))
    {
      DecodeEncodeObject(fields);
    }
    assert PrintedObjectsParse(lib);
  }
}

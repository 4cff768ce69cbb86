/**
 * The TOON encoder of src/utils/toon.util.ts: a pure, structurally recursive
 * rendering of a JSON value as text, with two spaces of indentation per
 * level, a quoting rule for strings and keys, and a tabular layout for arrays
 * of objects that share one key set.
 *
 * The definitions follow the code as written. Properties, including the
 * places where the output is ambiguous, are proved in module ToonLaws.
 */
module Toon {
  import opened Wrappers
  import opened Text
  import opened JsonString
  import opened KeySort

  /**
   * A value as `JSON.parse` produces it. An object is the list of its entries
   * in the order `Object.entries` lists them; numbers are integers.
   */
  datatype Json =
    | Null
    | Bool(b: bool)
    | Num(n: int)
    | Str(s: string)
    | Arr(items: seq<Json>)
    | Obj(fields: seq<(string, Json)>)

  /** `Object.keys` of an object, in entry order. */
  function Keys(fields: seq<(string, Json)>): (ks: seq<string>)
    ensures |ks| == |fields|
    ensures forall i :: 0 <= i < |fields| ==> ks[i] == fields[i].0
  {
    seq(|fields|, i requires 0 <= i < |fields| => fields[i].0)
  }

  /** A JavaScript object never holds the same key twice, at any depth. */
  predicate WellFormed(v: Json)
    decreases v
  {
    match v
    case Arr(items) => forall i :: 0 <= i < |items| ==> WellFormed(items[i])
    case Obj(fields) => Distinct(Keys(fields)) && forall i :: 0 <= i < |fields| ==> WellFormed(fields[i].1)
    case _ => true
  }

  /** `typeof val === 'object' && val !== null`: arrays and objects. */
  predicate IsContainer(v: Json) {
    v.Arr? || v.Obj?
  }

  predicate IsScalar(v: Json) {
    !IsContainer(v)
  }

  /** The characters of the class `[{}\[\]:,=]`. */
  predicate IsStructural(c: char) {
    c == '{' || c == '}' || c == '[' || c == ']' || c == ':' || c == ',' || c == '='
  }

  /** `/[\s{}\[\]:,=]/.test(s)`. */
  predicate HasSpaceOrStructural(s: string) {
    exists i :: 0 <= i < |s| && (IsJsWhitespace(s[i]) || IsStructural(s[i]))
  }

  /** `/^\d/.test(s)`. */
  predicate StartsWithDigit(s: string) {
    |s| > 0 && IsAsciiDigit(s[0])
  }

  /** The test `convertToToon` applies to a string value: reserved words are not quoted here. */
  predicate ValueNeedsQuotes(s: string) {
    s == "" || HasSpaceOrStructural(s) || StartsWithDigit(s)
  }

  /** `needsQuoting`, applied to object keys and to string cells of a table. */
  predicate NeedsQuoting(s: string) {
    s == "" ||
    HasSpaceOrStructural(s) ||
    StartsWithDigit(s) ||
    s == "null" ||
    s == "true" ||
    s == "false" ||
    s == "undefined"
  }

  predicate IsReservedWord(s: string) {
    s == "null" || s == "true" || s == "false" || s == "undefined"
  }

  /** A string value as `convertToToon` writes it. */
  function StringValue(s: string): string {
    if ValueNeedsQuotes(s) then Quote(s) else s
  }

  /** An object key as `convertToToon` writes it. */
  function KeyText(k: string): string {
    if NeedsQuoting(k) then Quote(k) else k
  }

  function BoolText(b: bool): string {
    if b then "true" else "false"
  }

  /** `convertToToon(value, indent)`. */
  function ConvertToToon(v: Json, indent: nat): (r: string)
    ensures |r| > 0
    decreases v, 1
  {
    match v
    case Null => "null"
    case Str(s) => StringValue(s)
    case Num(n) => IntToString(n)
    case Bool(b) => BoolText(b)
    case Arr(items) =>
      if |items| == 0 then "[]"
      else if IsUniformObjectArray(items) then FormatTabularArray(items, indent)
      else "[\n" + Join(ArrayItemLines(v, indent), "\n") + "\n" + Indent(indent) + "]"
    case Obj(fields) =>
      if |fields| == 0 then "{}"
      else Join(ObjectEntryLines(v, indent), "\n")
  }

  /** The `items` of a non-tabular array: each element one level deeper, after the indent and two spaces. */
  function ArrayItemLines(v: Json, indent: nat): (lines: seq<string>)
    requires v.Arr?
    ensures |lines| == |v.items|
    decreases v, 0
  {
    seq(|v.items|, i requires 0 <= i < |v.items| => Indent(indent) + "  " + ConvertToToon(v.items[i], indent + 1))
  }

  /** The `lines` of a non-empty object, one per entry in entry order. */
  function ObjectEntryLines(v: Json, indent: nat): (lines: seq<string>)
    requires v.Obj?
    ensures |lines| == |v.fields|
    decreases v, 0
  {
    seq(|v.fields|, i requires 0 <= i < |v.fields| =>
      EntryLine(v.fields[i].0, v.fields[i].1, indent, ConvertToToon(v.fields[i].1, indent + 1)))
  }

  /** One entry: `key: scalar`, or `key:` then a newline and the nested rendering for an array or object. */
  function EntryLine(key: string, val: Json, indent: nat, valStr: string): string {
    if IsContainer(val) then Indent(indent) + KeyText(key) + ":\n" + valStr
    else Indent(indent) + KeyText(key) + ": " + valStr
  }

  /** `isUniformObjectArray`: every element a non-array object whose sorted keys equal the first element's. */
  predicate IsUniformObjectArray(arr: seq<Json>) {
    |arr| > 0 && arr[0].Obj? &&
    forall i :: 0 <= i < |arr| ==>
      arr[i].Obj? && SortStrings(Keys(arr[i].fields)) == SortStrings(Keys(arr[0].fields))
  }

  /** `item[field]`: the value of the entry with that key, `None` for `undefined`. */
  function Lookup(fields: seq<(string, Json)>, key: string): (r: Option<Json>)
    ensures r.None? <==> key !in Keys(fields)
    decreases |fields|
  {
    if |fields| == 0 then None
    else if fields[0].0 == key then Some(fields[0].1)
    else
      assert Keys(fields) == [fields[0].0] + Keys(fields[1..]);
      Lookup(fields[1..], key)
  }

  /** `item[field]` is the value of the first entry with that key. */
  lemma {:induction false} LookupFindsFirstEntry(fields: seq<(string, Json)>, key: string)
    ensures Lookup(fields, key).Some? ==>
      exists j :: 0 <= j < |fields| && fields[j] == (key, Lookup(fields, key).value) && forall m :: 0 <= m < j ==> fields[m].0 != key
    decreases |fields|
  {
    if |fields| > 0 && fields[0].0 != key {
      var tail := fields[1..];
      LookupFindsFirstEntry(tail, key);
      if Lookup(tail, key).Some? {
        var j :| 0 <= j < |tail| && tail[j] == (key, Lookup(tail, key).value) && forall m :: 0 <= m < j ==> tail[m].0 != key;
        assert fields[j + 1] == tail[j];
        assert forall m :: 0 < m <= j ==> fields[m] == tail[m - 1];
      }
    }
  }

  /** `String(val)` for a value that is neither `null` nor `undefined`; arrays flatten with `,`. */
  function JsString(v: Json): string
    decreases v
  {
    match v
    case Null => "null"
    case Bool(b) => BoolText(b)
    case Num(n) => IntToString(n)
    case Str(s) => s
    case Arr(items) =>
      Join(seq(|items|, i requires 0 <= i < |items| => if items[i].Null? then "" else JsString(items[i])), ",")
    case Obj(_) => "[object Object]"
  }

  /** One cell of a tabular row. */
  function CellText(val: Option<Json>): string {
    match val
    case None => "-"
    case Some(Null) => "-"
    case Some(Str(s)) => if NeedsQuoting(s) then Quote(s) else s
    case Some(other) => JsString(other)
  }

  /** The header `{f1 f2 ... fn} [N]`, field names unquoted. */
  function TabularHeader(fields: seq<string>, rowCount: nat, indent: nat): string {
    Indent(indent) + "{" + Join(fields, " ") + "} [" + NatToString(rowCount) + "]"
  }

  /** The cells of one row, in the order of `fields`. */
  function RowCells(item: Json, fields: seq<string>): (cells: seq<string>)
    requires item.Obj?
    ensures |cells| == |fields|
  {
    seq(|fields|, j requires 0 <= j < |fields| => CellText(Lookup(item.fields, fields[j])))
  }

  function TabularRows(arr: seq<Json>, fields: seq<string>, indent: nat): (rows: seq<string>)
    requires forall i :: 0 <= i < |arr| ==> arr[i].Obj?
    ensures |rows| == |arr|
  {
    seq(|arr|, i requires 0 <= i < |arr| => Indent(indent) + "  " + Join(RowCells(arr[i], fields), " "))
  }

  /** `formatTabularArray`: the field order is the first element's key order. */
  function FormatTabularArray(arr: seq<Json>, indent: nat): string
    requires |arr| == 0 || IsUniformObjectArray(arr)
  {
    if |arr| == 0 then "[]"
    else
      var fields := Keys(arr[0].fields);
      TabularHeader(fields, |arr|, indent) + "\n" + Join(TabularRows(arr, fields, indent), "\n")
  }

  /** `toToon`, for a value already normalised by `JSON.parse(JSON.stringify(data))`: the text starts at column 0. */
  function ToToon(v: Json): (r: string)
    ensures |r| > 0 && !IsJsWhitespace(r[0])
  {
    TopLevelStart(v);
    ConvertToToon(v, 0)
  }

  /** At depth 0 no value gets indentation: the first character is a literal, a digit, `-`, a quote, a bracket or a key's. */
  lemma TopLevelStart(v: Json)
    ensures !IsJsWhitespace(ConvertToToon(v, 0)[0])
  {
    match v
    case Num(n) =>
      var m: nat := if n < 0 then -n else n;
      NatToStringIsCanonical(m);
      assert IsAsciiDigit(NatToString(m)[0]);
    case Str(s) =>
      if !ValueNeedsQuotes(s) {
        assert !IsJsWhitespace(s[0]);
      }
    case Obj(fields) =>
      if |fields| > 0 {
        ObjectTextStart(v);
        KeyTextStart(fields[0].0);
      }
    case _ =>
  }

  /** A non-empty object at depth 0 starts with its first key. */
  lemma ObjectTextStart(v: Json)
    requires v.Obj? && |v.fields| > 0
    ensures ConvertToToon(v, 0)[0] == KeyText(v.fields[0].0)[0]
  {
    var lines := ObjectEntryLines(v, 0);
    JoinStartsWith(lines, "\n", 1);
    assert lines[0][0] == KeyText(v.fields[0].0)[0];
  }

  /** A key as written never starts with whitespace. */
  lemma KeyTextStart(k: string)
    ensures |KeyText(k)| > 0 && !IsJsWhitespace(KeyText(k)[0])
  {
    if !NeedsQuoting(k) {
      assert !IsJsWhitespace(k[0]);
    }
  }
}

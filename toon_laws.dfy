/**
 * What the TOON encoder of module Toon guarantees, and where its output is
 * ambiguous. There is no TOON decoder in the modelled code, so no round trip
 * of the whole encoding is claimed; the collision lemmas below show inputs
 * that no decoder could tell apart.
 */
module ToonLaws {
  import opened Wrappers
  import opened Text
  import opened JsonString
  import opened KeySort
  import opened Toon

  // ---------------------------------------------------------------- scalars

  /** `null` and the booleans render as their literals, numbers as their decimal text, at any depth. */
  lemma ScalarLiterals(n: int, d: nat)
    ensures ConvertToToon(Null, d) == "null"
    ensures ConvertToToon(Bool(true), d) == "true" && ConvertToToon(Bool(false), d) == "false"
    ensures ConvertToToon(Num(n), d) == IntToString(n)
    ensures n >= 0 ==> AllDigits(ConvertToToon(Num(n), d)) && DigitsValue(ConvertToToon(Num(n), d)) == n
  {
    if n >= 0 {
      NatToStringRoundTrip(n);
    }
  }

  /** A string value is written verbatim exactly when the value rule does not fire; otherwise it is a JSON literal of it. */
  lemma StringValueRendering(s: string, d: nat)
    ensures ConvertToToon(Str(s), d) == s <==> !ValueNeedsQuotes(s)
    ensures ValueNeedsQuotes(s) ==> Unquote(ConvertToToon(Str(s), d)) == Some(s)
  {
    QuoteDiffers(s);
    if ValueNeedsQuotes(s) {
      QuoteRoundTrip(s);
    }
  }

  /** A string written verbatim holds no whitespace or structural character, is non-empty and does not start with a digit. */
  lemma VerbatimStringIsBareWord(s: string)
    requires !ValueNeedsQuotes(s)
    ensures |s| > 0 && !IsAsciiDigit(s[0])
    ensures forall i :: 0 <= i < |s| ==> !IsJsWhitespace(s[i]) && !IsStructural(s[i])
  {
  }

  /** `needsQuoting` is the value rule widened by exactly the four reserved words. */
  lemma NeedsQuotingIsValueRuleOrReserved(s: string)
    ensures NeedsQuoting(s) <==> ValueNeedsQuotes(s) || IsReservedWord(s)
    ensures NeedsQuoting(s) && !ValueNeedsQuotes(s) <==> IsReservedWord(s)
  {
  }

  lemma ReservedWordsAreBare()
    ensures !ValueNeedsQuotes("null") && !ValueNeedsQuotes("true")
    ensures !ValueNeedsQuotes("false") && !ValueNeedsQuotes("undefined")
  {
    assert !HasSpaceOrStructural("null") by {
      forall i | 0 <= i < 4 ensures !IsJsWhitespace("null"[i]) && !IsStructural("null"[i]) {}
    }
    assert !HasSpaceOrStructural("true") by {
      forall i | 0 <= i < 4 ensures !IsJsWhitespace("true"[i]) && !IsStructural("true"[i]) {}
    }
    assert !HasSpaceOrStructural("false") by {
      forall i | 0 <= i < 5 ensures !IsJsWhitespace("false"[i]) && !IsStructural("false"[i]) {}
    }
    assert !HasSpaceOrStructural("undefined") by {
      forall i | 0 <= i < 9 ensures !IsJsWhitespace("undefined"[i]) && !IsStructural("undefined"[i]) {}
    }
  }

  /** Reserved words are not quoted as values: the string "null" prints like null, "true" like true. */
  lemma ReservedWordValuesCollide(d: nat)
    ensures ConvertToToon(Str("null"), d) == ConvertToToon(Null, d)
    ensures ConvertToToon(Str("true"), d) == ConvertToToon(Bool(true), d)
    ensures ConvertToToon(Str("false"), d) == ConvertToToon(Bool(false), d)
    ensures ConvertToToon(Str("undefined"), d) == "undefined"
  {
    ReservedWordsAreBare();
  }

  /** A string that looks like a negative number is not quoted, so it prints like the number. */
  lemma NegativeNumberStringCollides(d: nat)
    ensures ConvertToToon(Str("-5"), d) == ConvertToToon(Num(-5), d) == "-5"
  {
    assert !HasSpaceOrStructural("-5") by {
      forall i | 0 <= i < 2 ensures !IsJsWhitespace("-5"[i]) && !IsStructural("-5"[i]) {}
    }
    assert NatToString(5) == "5";
  }

  /** Quoting the empty string yields `""`, which is also how the two-character string `""` prints verbatim. */
  lemma EmptyStringCollides(d: nat)
    ensures ConvertToToon(Str(""), d) == ConvertToToon(Str("\"\""), d) == "\"\""
  {
    assert !HasSpaceOrStructural("\"\"") by {
      forall i | 0 <= i < 2 ensures !IsJsWhitespace("\"\""[i]) && !IsStructural("\"\""[i]) {}
    }
  }

  /** A key is written bare only when it is a non-empty, non-reserved word without whitespace, structure or a leading digit; otherwise as a JSON literal of it. */
  lemma KeyTextRendering(k: string)
    ensures KeyText(k) == k <==> !NeedsQuoting(k)
    ensures NeedsQuoting(k) ==> Unquote(KeyText(k)) == Some(k)
    ensures '\n' !in KeyText(k)
  {
    QuoteDiffers(k);
    if NeedsQuoting(k) {
      QuoteRoundTrip(k);
      QuoteHasNoControl(k);
    } else {
      assert forall i :: 0 <= i < |k| ==> !IsJsWhitespace(k[i]);
    }
  }

  /** A scalar renders as one non-empty line, the same at every depth. */
  lemma ScalarIsOneLine(v: Json, d: nat)
    requires IsScalar(v)
    ensures |ConvertToToon(v, d)| > 0
    ensures '\n' !in ConvertToToon(v, d)
    ensures ConvertToToon(v, d) == ConvertToToon(v, 0)
  {
    match v
    case Num(n) => IntToStringIsOneWord(n);
    case Str(s) =>
      if ValueNeedsQuotes(s) {
        QuoteHasNoControl(s);
      } else {
        assert forall i :: 0 <= i < |s| ==> !IsJsWhitespace(s[i]);
      }
    case _ =>
  }

  // ------------------------------------------------------------- containers

  lemma EmptyContainers(d: nat)
    ensures ConvertToToon(Arr([]), d) == "[]"
    ensures ConvertToToon(Obj([]), d) == "{}"
  {
  }

  /** A non-empty array is bracketed (its text starts with `[`) exactly when it is not uniform; a uniform one starts with its header. */
  lemma ArrayLayoutChoice(items: seq<Json>, d: nat)
    requires |items| > 0
    ensures ConvertToToon(Arr(items), d)[0] == '[' <==> !IsUniformObjectArray(items)
    ensures IsUniformObjectArray(items) ==>
      ConvertToToon(Arr(items), d)[..2 * d + 1] == Indent(d) + "{"
  {
    if IsUniformObjectArray(items) {
      TabularStart(items, d);
      var r := ConvertToToon(Arr(items), d);
      assert r[0] == r[..2 * d + 1][0] == (Indent(d) + "{")[0];
    } else {
      BracketedText(items, d);
    }
  }

  /** A table starts with its header's indentation and `{`. */
  lemma TabularStart(items: seq<Json>, d: nat)
    requires IsUniformObjectArray(items)
    ensures |ConvertToToon(Arr(items), d)| > 2 * d && ConvertToToon(Arr(items), d)[..2 * d + 1] == Indent(d) + "{"
  {
    var keys := Keys(items[0].fields);
    var p := Indent(d) + "{";
    var h1 := p + Join(keys, " ");
    assert h1[..|p|] == p;
    var h2 := h1 + "} [";
    StartsWithExtend(h1, "} [", p);
    var h3 := h2 + NatToString(|items|);
    StartsWithExtend(h2, NatToString(|items|), p);
    var h := h3 + "]";
    StartsWithExtend(h3, "]", p);
    assert h == TabularHeader(keys, |items|, d);
    var h4 := h + "\n";
    StartsWithExtend(h, "\n", p);
    StartsWithExtend(h4, Join(TabularRows(items, keys, d), "\n"), p);
    assert ConvertToToon(Arr(items), d) == FormatTabularArray(items, d) == h4 + Join(TabularRows(items, keys, d), "\n");
  }

  /** The text of a non-uniform array, as `convertToToon` assembles it. */
  lemma BracketedText(items: seq<Json>, d: nat)
    requires |items| > 0 && !IsUniformObjectArray(items)
    ensures ConvertToToon(Arr(items), d) == "[\n" + Join(ArrayItemLines(Arr(items), d), "\n") + "\n" + Indent(d) + "]"
  {
  }

  /** A bracketed array: `[`, one line per element in order, each one level deeper, then the indent and `]`. */
  lemma BracketedLayout(items: seq<Json>, d: nat)
    requires |items| > 0 && !IsUniformObjectArray(items)
    ensures ConvertToToon(Arr(items), d) ==
      Join(["["] + ArrayItemLines(Arr(items), d) + [Indent(d) + "]"], "\n")
    ensures forall i :: 0 <= i < |items| ==>
      ArrayItemLines(Arr(items), d)[i] == Indent(d + 1) + ConvertToToon(items[i], d + 1)
  {
    var lines := ArrayItemLines(Arr(items), d);
    var body := Join(lines, "\n");
    var close := Indent(d) + "]";
    BracketedText(items, d);
    JoinAppend(["["], lines, "\n");
    JoinAppend(["["] + lines, [close], "\n");
    assert Join(["["], "\n") == "[" && Join([close], "\n") == close;
    assert "[" + "\n" == "[\n";
    AppendAssoc("[\n" + body + "\n", Indent(d), "]");
    IndentStep(d);
  }

  /** An array of scalars prints as exactly one line per element between a `[` line and an indented `]` line. */
  lemma ScalarArrayLines(items: seq<Json>, d: nat)
    requires |items| > 0
    requires forall i :: 0 <= i < |items| ==> IsScalar(items[i])
    ensures Lines(ConvertToToon(Arr(items), d)) ==
      ["["] + seq(|items|, i requires 0 <= i < |items| => Indent(d + 1) + ConvertToToon(items[i], 0)) + [Indent(d) + "]"]
    ensures |Lines(ConvertToToon(Arr(items), d))| == |items| + 2
  {
    assert !IsUniformObjectArray(items);
    BracketedLayout(items, d);
    var lines := ArrayItemLines(Arr(items), d);
    var all := ["["] + lines + [Indent(d) + "]"];
    forall i | 0 <= i < |all| ensures '\n' !in all[i] {
      if 0 < i <= |items| {
        ScalarIsOneLine(items[i - 1], d + 1);
        assert all[i] == Indent(d + 1) + ConvertToToon(items[i - 1], d + 1);
      }
    }
    LinesOfJoin(all);
    forall i | 0 <= i < |items| ensures lines[i] == Indent(d + 1) + ConvertToToon(items[i], 0) {
      ScalarIsOneLine(items[i], d + 1);
    }
  }

  /** A non-empty object: one entry per key in entry order, `key: scalar` or `key:`, a newline and the nested rendering one level deeper. */
  lemma ObjectLayout(fields: seq<(string, Json)>, d: nat)
    requires |fields| > 0
    ensures ConvertToToon(Obj(fields), d) == Join(ObjectEntryLines(Obj(fields), d), "\n")
    ensures forall i :: 0 <= i < |fields| && IsScalar(fields[i].1) ==>
      ObjectEntryLines(Obj(fields), d)[i] == Indent(d) + KeyText(fields[i].0) + ": " + ConvertToToon(fields[i].1, d + 1)
    ensures forall i :: 0 <= i < |fields| && IsContainer(fields[i].1) ==>
      ObjectEntryLines(Obj(fields), d)[i] == Indent(d) + KeyText(fields[i].0) + ":\n" + ConvertToToon(fields[i].1, d + 1)
  {
  }

  /** An object of scalars prints as exactly one `key: value` line per entry, in entry order. */
  lemma ScalarObjectLines(fields: seq<(string, Json)>, d: nat)
    requires |fields| > 0
    requires forall i :: 0 <= i < |fields| ==> IsScalar(fields[i].1)
    ensures Lines(ConvertToToon(Obj(fields), d)) ==
      seq(|fields|, i requires 0 <= i < |fields| => Indent(d) + KeyText(fields[i].0) + ": " + ConvertToToon(fields[i].1, 0))
  {
    var lines := ObjectEntryLines(Obj(fields), d);
    forall i | 0 <= i < |lines|
      ensures '\n' !in lines[i]
      ensures lines[i] == Indent(d) + KeyText(fields[i].0) + ": " + ConvertToToon(fields[i].1, 0)
    {
      ScalarIsOneLine(fields[i].1, d + 1);
      KeyTextRendering(fields[i].0);
      assert '\n' !in Indent(d);
    }
    LinesOfJoin(lines);
  }

  /** A non-empty, non-reserved word without whitespace, structure or a leading digit is written as itself everywhere. */
  lemma BareWord(w: string)
    requires |w| > 0 && !IsAsciiDigit(w[0]) && !IsReservedWord(w)
    requires forall i :: 0 <= i < |w| ==> !IsJsWhitespace(w[i]) && !IsStructural(w[i])
    ensures KeyText(w) == w && StringValue(w) == w && CellText(Some(Str(w))) == w
  {
  }

  lemma SingleEntry(k: string, v: Json, d: nat, tv: string)
    requires ConvertToToon(v, d + 1) == tv
    ensures ConvertToToon(Obj([(k, v)]), d) ==
      if IsContainer(v) then Indent(d) + KeyText(k) + ":\n" + tv else Indent(d) + KeyText(k) + ": " + tv
  {
    var lines := ObjectEntryLines(Obj([(k, v)]), d);
    assert |lines| == 1;
  }

  /** The text of a key holding a bracketed array: the key line, then `[` and the rest of the array. */
  lemma NestedArrayText(k: string, items: seq<Json>, d: nat)
    requires |items| > 0 && !IsUniformObjectArray(items)
    ensures ConvertToToon(Obj([(k, Arr(items))]), d) ==
      (Indent(d) + KeyText(k) + ":") + "\n" + ("[" + "\n" + Join(ArrayItemLines(Arr(items), d + 1) + [Indent(d + 1) + "]"], "\n"))
    ensures ConvertToToon(Obj([(k, Arr(items))]), d) ==
      Join([Indent(d) + KeyText(k) + ":", "["] + ArrayItemLines(Arr(items), d + 1) + [Indent(d + 1) + "]"], "\n")
  {
    var key := Indent(d) + KeyText(k);
    var head := key + ":";
    var lines := ArrayItemLines(Arr(items), d + 1);
    var body := lines + [Indent(d + 1) + "]"];
    var t := ConvertToToon(Arr(items), d + 1);
    var rest := "[" + "\n" + Join(body, "\n");
    BracketedLayout(items, d + 1);
    assert ["["] + lines + [Indent(d + 1) + "]"] == ["["] + body;
    JoinCons("[", body, "\n");
    assert t == rest;
    SingleEntry(k, Arr(items), d, t);
    assert ConvertToToon(Obj([(k, Arr(items))]), d) == key + ":\n" + t;
    assert ":" + "\n" == ":\n";
    AppendAssoc(key, ":", "\n");
    assert key + ":\n" + t == head + "\n" + t;
    assert [head, "["] + lines + [Indent(d + 1) + "]"] == [head] + (["["] + body);
    JoinCons(head, ["["] + body, "\n");
  }

  /** Under a key, a bracketed array's `[` has a line of its own at column 0, while its `]` is indented one level deeper than the key. */
  lemma NestedArrayBracketUnindented(k: string, items: seq<Json>, d: nat)
    requires |items| > 0 && !IsUniformObjectArray(items)
    ensures ConvertToToon(Obj([(k, Arr(items))]), d) ==
      Join([Indent(d) + KeyText(k) + ":", "["] + ArrayItemLines(Arr(items), d + 1) + [Indent(d + 1) + "]"], "\n")
    ensures |Lines(ConvertToToon(Obj([(k, Arr(items))]), d))| >= 2
    ensures Lines(ConvertToToon(Obj([(k, Arr(items))]), d))[..2] == [Indent(d) + KeyText(k) + ":", "["]
  {
    NestedArrayText(k, items, d);
    var head := Indent(d) + KeyText(k) + ":";
    var rest := Join(ArrayItemLines(Arr(items), d + 1) + [Indent(d + 1) + "]"], "\n");
    KeyTextRendering(k);
    assert '\n' !in head;
    LinesCons(head, "[" + "\n" + rest);
    LinesCons("[", rest);
  }

  /** Every entry line of an object starts with the object's indentation. */
  lemma EntryLinesIndented(fields: seq<(string, Json)>, d: nat)
    ensures forall j :: 0 <= j < |fields| ==> StartsWith(ObjectEntryLines(Obj(fields), d)[j], Indent(d))
  {
    forall j | 0 <= j < |fields| ensures StartsWith(ObjectEntryLines(Obj(fields), d)[j], Indent(d)) {
      assert ObjectEntryLines(Obj(fields), d)[j] == EntryLine(fields[j].0, fields[j].1, d, ConvertToToon(fields[j].1, d + 1));
    }
  }

  /** Inside a bracketed array an object's first entry is indented twice over, while its later lines carry their own indentation only (see EntryLinesIndented). */
  lemma ObjectInArrayDoubleIndent(items: seq<Json>, i: nat, d: nat)
    requires |items| > 0 && !IsUniformObjectArray(items)
    requires i < |items| && items[i].Obj? && |items[i].fields| > 0
    ensures ArrayItemLines(Arr(items), d)[i] == Indent(d + 1) + Join(ObjectEntryLines(items[i], d + 1), "\n")
    ensures StartsWith(ArrayItemLines(Arr(items), d)[i], Indent(2 * d + 2))
  {
    var entries := ObjectEntryLines(items[i], d + 1);
    BracketedLayout(items, d);
    assert ConvertToToon(items[i], d + 1) == Join(entries, "\n");
    EntryLinesIndented(items[i].fields, d + 1);
    assert StartsWith(entries[0], Indent(d + 1));
    JoinStartsWith(entries, "\n", 2 * d + 2);
    IndentAdd(d + 1, d + 1);
    PrefixOfAppend(Indent(d + 1), Join(entries, "\n"), 2 * d + 2);
  }

  // ---------------------------------------------------------------- tabular

  function KeySet(fields: seq<(string, Json)>): set<string> {
    set k | k in Keys(fields)
  }

  /** The tabular test holds exactly when the array is non-empty and every element is an object holding the first element's keys, counted with multiplicity. */
  lemma UniformIffSameKeyMultisets(arr: seq<Json>)
    ensures IsUniformObjectArray(arr) <==>
      |arr| > 0 && arr[0].Obj? &&
      forall i :: 0 <= i < |arr| ==>
        arr[i].Obj? && multiset(Keys(arr[i].fields)) == multiset(Keys(arr[0].fields))
  {
    if |arr| > 0 && arr[0].Obj? {
      forall i | 0 <= i < |arr| && arr[i].Obj?
        ensures SortStrings(Keys(arr[i].fields)) == SortStrings(Keys(arr[0].fields))
            <==> multiset(Keys(arr[i].fields)) == multiset(Keys(arr[0].fields))
      {
        SameSortedIffSameMultiset(Keys(arr[i].fields), Keys(arr[0].fields));
      }
    }
  }

  /** For objects without repeated keys, the tabular test is equality of key sets; a scalar or array element rules it out. */
  lemma UniformIffSameKeySets(arr: seq<Json>)
    requires forall i :: 0 <= i < |arr| ==> WellFormed(arr[i])
    ensures IsUniformObjectArray(arr) <==>
      |arr| > 0 && arr[0].Obj? &&
      forall i :: 0 <= i < |arr| ==> arr[i].Obj? && KeySet(arr[i].fields) == KeySet(arr[0].fields)
  {
    UniformIffSameKeyMultisets(arr);
    if |arr| > 0 && arr[0].Obj? {
      forall i | 0 <= i < |arr| && arr[i].Obj?
        ensures multiset(Keys(arr[i].fields)) == multiset(Keys(arr[0].fields))
            <==> KeySet(arr[i].fields) == KeySet(arr[0].fields)
      {
        DistinctSameMultisetIffSameSet(Keys(arr[i].fields), Keys(arr[0].fields));
      }
    }
  }

  /** In a uniform array every row holds every header field, so no cell is `undefined`. */
  lemma UniformRowsHoldAllFields(arr: seq<Json>, i: nat, j: nat)
    requires IsUniformObjectArray(arr)
    requires i < |arr| && j < |arr[0].fields|
    ensures Lookup(arr[i].fields, Keys(arr[0].fields)[j]).Some?
  {
    UniformIffSameKeyMultisets(arr);
    var k := Keys(arr[0].fields)[j];
    assert k in multiset(Keys(arr[0].fields));
    assert k in multiset(Keys(arr[i].fields));
  }

  /** Tabular output: the header with the first element's keys in its own order and the row count, then one row per element, one level deeper, its cells in header order. */
  lemma TabularLayout(arr: seq<Json>, d: nat)
    requires IsUniformObjectArray(arr)
    ensures ConvertToToon(Arr(arr), d) ==
      Join([TabularHeader(Keys(arr[0].fields), |arr|, d)] + TabularRows(arr, Keys(arr[0].fields), d), "\n")
    ensures TabularHeader(Keys(arr[0].fields), |arr|, d) ==
      Indent(d) + "{" + Join(Keys(arr[0].fields), " ") + "} [" + NatToString(|arr|) + "]"
    ensures AllDigits(NatToString(|arr|)) && DigitsValue(NatToString(|arr|)) == |arr|
    ensures forall i :: 0 <= i < |arr| ==>
      TabularRows(arr, Keys(arr[0].fields), d)[i] == Indent(d + 1) + Join(RowCells(arr[i], Keys(arr[0].fields)), " ")
    ensures forall i, j :: 0 <= i < |arr| && 0 <= j < |arr[0].fields| ==>
      RowCells(arr[i], Keys(arr[0].fields))[j] == CellText(Lookup(arr[i].fields, arr[0].fields[j].0)) &&
      Lookup(arr[i].fields, arr[0].fields[j].0).Some?
  {
    var fields := Keys(arr[0].fields);
    JoinAppend([TabularHeader(fields, |arr|, d)], TabularRows(arr, fields, d), "\n");
    IndentStep(d);
    NatToStringRoundTrip(|arr|);
    forall i, j | 0 <= i < |arr| && 0 <= j < |arr[0].fields|
      ensures Lookup(arr[i].fields, arr[0].fields[j].0).Some?
    {
      UniformRowsHoldAllFields(arr, i, j);
    }
  }

  /** Whether `String(v)` stays on one line: no string inside the flattened array holds a newline. */
  predicate FlattensToOneLine(v: Json)
    decreases v
  {
    match v
    case Str(s) => '\n' !in s
    case Arr(items) => forall i :: 0 <= i < |items| ==> FlattensToOneLine(items[i])
    case _ => true
  }

  lemma {:induction false} JsStringOneLine(v: Json)
    requires FlattensToOneLine(v)
    ensures '\n' !in JsString(v)
    decreases v
  {
    match v
    case Num(n) => IntToStringIsOneWord(n);
    case Arr(items) =>
      var parts := seq(|items|, i requires 0 <= i < |items| => if items[i].Null? then "" else JsString(items[i]));
      forall i | 0 <= i < |items| ensures '\n' !in parts[i] {
        if !items[i].Null? {
          JsStringOneLine(items[i]);
        }
      }
      JoinAvoids(parts, ",", '\n');
    case _ =>
  }

  /** A cell is one line unless it is an array flattened with a newline inside. */
  predicate CellIsOneLine(val: Option<Json>) {
    val.Some? && val.value.Arr? ==> FlattensToOneLine(val.value)
  }

  lemma CellOneLine(val: Option<Json>)
    requires CellIsOneLine(val)
    ensures '\n' !in CellText(val)
  {
    match val
    case None =>
    case Some(v) =>
      match v
      case Str(s) =>
        if NeedsQuoting(s) {
          QuoteHasNoControl(s);
        } else {
          assert forall i :: 0 <= i < |s| ==> !IsJsWhitespace(s[i]);
        }
      case Null =>
      case _ => JsStringOneLine(v);
  }

  /** With one-line cells and header fields, tabular output is exactly the header line and one line per element. */
  lemma TabularLineCount(arr: seq<Json>, d: nat)
    requires IsUniformObjectArray(arr)
    requires forall j :: 0 <= j < |arr[0].fields| ==> '\n' !in arr[0].fields[j].0
    requires forall i, j :: 0 <= i < |arr| && 0 <= j < |arr[0].fields| ==>
      CellIsOneLine(Lookup(arr[i].fields, arr[0].fields[j].0))
    ensures Lines(ConvertToToon(Arr(arr), d)) ==
      [TabularHeader(Keys(arr[0].fields), |arr|, d)] + TabularRows(arr, Keys(arr[0].fields), d)
    ensures |Lines(ConvertToToon(Arr(arr), d))| == |arr| + 1
  {
    var fields := Keys(arr[0].fields);
    TabularLayout(arr, d);
    var header := TabularHeader(fields, |arr|, d);
    var rows := TabularRows(arr, fields, d);
    var all := [header] + rows;
    IndentStep(d);
    assert '\n' !in header by {
      JoinAvoids(fields, " ", '\n');
      NatToStringIsCanonical(|arr|);
      assert forall k :: 0 <= k < |NatToString(|arr|)| ==> IsAsciiDigit(NatToString(|arr|)[k]);
      assert '\n' !in Indent(d);
    }
    forall i | 0 <= i < |rows| ensures '\n' !in rows[i] {
      var cells := RowCells(arr[i], fields);
      forall j | 0 <= j < |cells| ensures '\n' !in cells[j] {
        CellOneLine(Lookup(arr[i].fields, arr[0].fields[j].0));
      }
      JoinAvoids(cells, " ", '\n');
      assert '\n' !in Indent(d + 1);
    }
    forall i | 0 <= i < |all| ensures '\n' !in all[i] {
      if i > 0 { assert all[i] == rows[i - 1]; }
    }
    LinesOfJoin(all);
  }

  /** A `null` cell and a `"-"` cell print the same `-`, so the two arrays render identically. */
  lemma NullAndDashCellsCollide(d: nat)
    ensures ConvertToToon(Arr([Obj([("a", Null)])]), d) == ConvertToToon(Arr([Obj([("a", Str("-"))])]), d)
  {
    var a1, a2 := [Obj([("a", Null)])], [Obj([("a", Str("-"))])];
    assert IsUniformObjectArray(a1) && IsUniformObjectArray(a2);
    assert Keys(a1[0].fields) == ["a"] == Keys(a2[0].fields);
    assert !NeedsQuoting("-") by {
      assert !HasSpaceOrStructural("-") by {
        forall i | 0 <= i < 1 ensures !IsJsWhitespace("-"[i]) && !IsStructural("-"[i]) {}
      }
    }
    assert RowCells(a1[0], ["a"]) == ["-"] == RowCells(a2[0], ["a"]);
  }

  /** Header field names are not quoted: one key `a b` and two keys `a`, `b` give the same header. */
  lemma HeaderFieldNamesUnquoted(n: nat, d: nat)
    ensures TabularHeader(["a b"], n, d) == TabularHeader(["a", "b"], n, d)
  {
    assert Join(["a", "b"], " ") == "a" + " " + Join(["b"], " ");
  }

  /** A one-element array of an object is always tabular: a header and a single row. */
  lemma OneRowTable(o: seq<(string, Json)>, d: nat)
    ensures ConvertToToon(Arr([Obj(o)]), d) ==
      TabularHeader(Keys(o), 1, d) + "\n" + Indent(d + 1) + Join(RowCells(Obj(o), Keys(o)), " ")
  {
    var arr := [Obj(o)];
    assert IsUniformObjectArray(arr);
    IndentStep(d);
    var rows := TabularRows(arr, Keys(o), d);
    assert rows == [Indent(d + 1) + Join(RowCells(Obj(o), Keys(o)), " ")];
  }

  /** Tabular eligibility does not look at the cells: a nested object in a cell is flattened to `[object Object]`. */
  lemma NestedObjectCellFlattened(k: string, inner: seq<(string, Json)>, d: nat)
    ensures ConvertToToon(Arr([Obj([(k, Obj(inner))])]), d) ==
      TabularHeader([k], 1, d) + "\n" + Indent(d + 1) + "[object Object]"
  {
    var o := [(k, Obj(inner))];
    OneRowTable(o, d);
    assert Keys(o) == [k];
    assert RowCells(Obj(o), [k]) == ["[object Object]"];
  }

  /** A one-row table whose only cell is an array of one string: the string is the cell, unquoted. */
  lemma StringListCell(k: string, t: string, d: nat)
    ensures ConvertToToon(Arr([Obj([(k, Arr([Str(t)]))])]), d) == TabularHeader([k], 1, d) + "\n" + (Indent(d + 1) + t)
  {
    var o := [(k, Arr([Str(t)]))];
    OneRowTable(o, d);
    assert Keys(o) == [k];
    assert JsString(Arr([Str(t)])) == t;
    assert RowCells(Obj(o), [k]) == [t];
  }

  /** A newline in a string inside an array cell is emitted raw and splits the row in two. */
  lemma NestedNewlineSplitsRow(k: string, a: string, b: string, d: nat)
    requires '\n' !in k && '\n' !in a && '\n' !in b
    ensures Lines(ConvertToToon(Arr([Obj([(k, Arr([Str(a + "\n" + b)]))])]), d)) ==
      [TabularHeader([k], 1, d), Indent(d + 1) + a, b]
  {
    StringListCell(k, a + "\n" + b, d);
    var header := TabularHeader([k], 1, d);
    assert '\n' !in header by {
      assert NatToString(1) == "1";
      assert '\n' !in Indent(d);
    }
    assert '\n' !in Indent(d + 1) + a by {
      assert '\n' !in Indent(d + 1);
    }
    assert Indent(d + 1) + (a + "\n" + b) == (Indent(d + 1) + a) + "\n" + b;
    LinesCons(header, (Indent(d + 1) + a) + "\n" + b);
    LinesCons(Indent(d + 1) + a, b);
    LinesOfLine(b);
  }

  // --------------------------------------------------------------- scenario

  function Person(id: int, name: string): Json {
    Obj([("id", Num(id)), ("name", Str(name))])
  }

  lemma PersonKeys(id: int, name: string)
    ensures Keys(Person(id, name).fields) == ["id", "name"]
  {
    var ks := Keys(Person(id, name).fields);
    assert ks[0] == "id" && ks[1] == "name";
  }

  /** A row of a table of people: the id and the name, which is bare when it needs no quotes. */
  lemma PersonRow(id: int, name: string)
    requires !NeedsQuoting(name)
    ensures Join(RowCells(Person(id, name), ["id", "name"]), " ") == IntToString(id) + " " + name
  {
    var fields := Person(id, name).fields;
    assert fields[1..] == [("name", Str(name))];
    assert "id" != "name" by { assert |"id"| != |"name"|; }
    assert Lookup(fields, "id") == Some(Num(id));
    assert Lookup(fields, "name") == Some(Str(name));
    var cells := RowCells(Person(id, name), ["id", "name"]);
    assert cells == [IntToString(id), name];
    JoinCons(cells[0], [cells[1]], " ");
    assert [cells[0]] + [cells[1]] == cells;
  }

  lemma BareNames()
    ensures !NeedsQuoting("Ali") && !NeedsQuoting("Omar")
  {
    BareWord("Ali");
    BareWord("Omar");
  }

  lemma PeopleHeader(d: nat)
    ensures TabularHeader(["id", "name"], 2, d) == Indent(d) + "{id name} [2]"
  {
    assert Join(["id", "name"], " ") == "id name" by { JoinCons("id", ["name"], " "); assert ["id"] + ["name"] == ["id", "name"]; }
    assert NatToString(2) == "2";
    assert "{" + "id name" + "} [" + "2" + "]" == "{id name} [2]";
  }

  lemma PeopleRows(id1: int, n1: string, id2: int, n2: string, d: nat)
    requires !NeedsQuoting(n1) && !NeedsQuoting(n2)
    ensures TabularRows([Person(id1, n1), Person(id2, n2)], ["id", "name"], d) ==
      [Indent(d + 1) + (IntToString(id1) + " " + n1), Indent(d + 1) + (IntToString(id2) + " " + n2)]
  {
    PersonRow(id1, n1);
    PersonRow(id2, n2);
    IndentStep(d);
  }

  lemma PeopleUniform(id1: int, n1: string, id2: int, n2: string, d: nat)
    ensures IsUniformObjectArray([Person(id1, n1), Person(id2, n2)])
    ensures ConvertToToon(Arr([Person(id1, n1), Person(id2, n2)]), d) ==
      TabularHeader(["id", "name"], 2, d) + "\n" + Join(TabularRows([Person(id1, n1), Person(id2, n2)], ["id", "name"], d), "\n")
  {
    PersonKeys(id1, n1);
    PersonKeys(id2, n2);
  }

  /** Two objects with keys `id` and `name` form the table `{id name} [2]`, one row per object. */
  lemma PeopleTable(id1: int, n1: string, id2: int, n2: string, d: nat)
    requires !NeedsQuoting(n1) && !NeedsQuoting(n2)
    ensures ConvertToToon(Arr([Person(id1, n1), Person(id2, n2)]), d) ==
      Join([Indent(d) + "{id name} [2]",
            Indent(d + 1) + (IntToString(id1) + " " + n1),
            Indent(d + 1) + (IntToString(id2) + " " + n2)], "\n")
  {
    PeopleUniform(id1, n1, id2, n2, d);
    PeopleHeader(d);
    PeopleRows(id1, n1, id2, n2, d);
    var header := Indent(d) + "{id name} [2]";
    var rows := TabularRows([Person(id1, n1), Person(id2, n2)], ["id", "name"], d);
    JoinCons(header, rows, "\n");
    assert [header] + rows == [header, rows[0], rows[1]];
  }

  /** An object of two entries renders as its two entry lines. */
  lemma TwoEntries(k1: string, v1: Json, k2: string, v2: Json, d: nat)
    ensures ConvertToToon(Obj([(k1, v1), (k2, v2)]), d) ==
      EntryLine(k1, v1, d, ConvertToToon(v1, d + 1)) + "\n" + EntryLine(k2, v2, d, ConvertToToon(v2, d + 1))
  {
    var lines := ObjectEntryLines(Obj([(k1, v1), (k2, v2)]), d);
    assert Join(lines, "\n") == lines[0] + "\n" + Join([lines[1]], "\n");
  }

  lemma CountLine()
    ensures EntryLine("count", Num(2), 0, ConvertToToon(Num(2), 1)) == "count: 2"
  {
    BareWord("count");
    assert Indent(0) == "";
    assert ConvertToToon(Num(2), 1) == "2";
  }

  lemma ItemsLine(t: Json, text: string)
    requires t.Arr?
    ensures EntryLine("items", t, 0, text) == "items:" + "\n" + text
  {
    BareWord("items");
    assert Indent(0) == "";
  }

  /** An object `{count: 2, items: t}` for an array `t`: the count line, then `items:` and the array one level deeper. */
  lemma CountAndItems(t: Json)
    requires t.Arr?
    ensures ConvertToToon(Obj([("count", Num(2)), ("items", t)]), 0) ==
      "count: 2" + "\n" + ("items:" + "\n" + ConvertToToon(t, 1))
  {
    TwoEntries("count", Num(2), "items", t, 0);
    CountLine();
    ItemsLine(t, ConvertToToon(t, 1));
  }

  lemma ScenarioLines()
    ensures Join([Indent(1) + "{id name} [2]",
                  Indent(2) + (IntToString(1) + " " + "Ali"),
                  Indent(2) + (IntToString(2) + " " + "Omar")], "\n") ==
      Join(["  {id name} [2]", "    1 Ali", "    2 Omar"], "\n")
  {
    assert Indent(1) == "  " && Indent(2) == "    ";
    assert IntToString(1) == "1" && IntToString(2) == "2";
    assert "  " + "{id name} [2]" == "  {id name} [2]";
    assert "    " + ("1" + " " + "Ali") == "    1 Ali";
    assert "    " + ("2" + " " + "Omar") == "    2 Omar";
  }

  /** The scenario's array, one level deep: the header and the two rows. */
  lemma ScenarioItems()
    ensures ConvertToToon(Arr([Person(1, "Ali"), Person(2, "Omar")]), 1) ==
      Join(["  {id name} [2]", "    1 Ali", "    2 Omar"], "\n")
  {
    BareNames();
    PeopleTable(1, "Ali", 2, "Omar", 1);
    ScenarioLines();
  }

  /** The encoding of `{count: 2, items: [{id: 1, name: "Ali"}, {id: 2, name: "Omar"}]}`, line by line. */
  lemma ScenarioEncoding()
    ensures ToToon(Obj([("count", Num(2)), ("items", Arr([Person(1, "Ali"), Person(2, "Omar")]))])) ==
      Join(["count: 2", "items:", "  {id name} [2]", "    1 Ali", "    2 Omar"], "\n")
  {
    CountAndItems(Arr([Person(1, "Ali"), Person(2, "Omar")]));
    ScenarioItems();
    var rows := ["  {id name} [2]", "    1 Ali", "    2 Omar"];
    JoinCons("items:", rows, "\n");
    assert ["items:"] + rows == ["items:", "  {id name} [2]", "    1 Ali", "    2 Omar"];
    JoinCons("count: 2", ["items:"] + rows, "\n");
    assert ["count: 2"] + (["items:"] + rows) == ["count: 2", "items:", "  {id name} [2]", "    1 Ali", "    2 Omar"];
  }
}

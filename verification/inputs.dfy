/** The input classes: which class a `type` option selects, and each class's value
    conversions. `value2html` gives what the field shows, `value2str`/`value2submit` what is
    sent, `str2value` reads a string back, and `value2input`/`input2value` move a value into
    and out of the form control. */
module Inputs {
  import opened Wrappers
  import opened Text
  import opened JsValue
  import Dates
  import opened ControlValues

  datatype Kind =
    | TextInput | TextareaInput | SelectInput | ChecklistInput | DateInput | DateTimeInput
    | PasswordInput | EmailInput | UrlInput | TelInput | NumberInput | RangeInput

  /** The key each class is registered under in the `type` table. */
  function TypeName(k: Kind): string {
    match k
    case TextInput => "text"
    case TextareaInput => "textarea"
    case SelectInput => "select"
    case ChecklistInput => "checklist"
    case DateInput => "date"
    case DateTimeInput => "datetime"
    case PasswordInput => "password"
    case EmailInput => "email"
    case UrlInput => "url"
    case TelInput => "tel"
    case NumberInput => "number"
    case RangeInput => "range"
  }

  function KindOfName(name: string): (r: Kind)
    ensures r != TextInput ==> TypeName(r) == name
    ensures r == TextInput ==> forall k :: k != TextInput ==> TypeName(k) != name
  {
    if name == "textarea" then TextareaInput
    else if name == "select" then SelectInput
    else if name == "checklist" then ChecklistInput
    else if name == "date" then DateInput
    else if name == "datetime" then DateTimeInput
    else if name == "password" then PasswordInput
    else if name == "email" then EmailInput
    else if name == "url" then UrlInput
    else if name == "tel" then TelInput
    else if name == "number" then NumberInput
    else if name == "range" then RangeInput
    else TextInput
  }

  /** `createInput(type)`: the class registered under the property key `String(type)`, or a
      text input when there is none. */
  function CreateInput(t: Value): (k: Kind)
    ensures (exists k' :: ToStr(t) == TypeName(k')) ==> ToStr(t) == TypeName(k)
    ensures (forall k' :: ToStr(t) != TypeName(k')) ==> k == TextInput
  {
    KindOfName(ToStr(t))
  }

  /** `datetime-local` is not a key of the table, so it gets a plain text input. */
  lemma DatetimeLocalIsText()
    ensures CreateInput(Str("datetime-local")) == TextInput
    ensures CreateInput(Str("datetime")) == DateTimeInput
  {
    assert forall k' :: "datetime-local" != TypeName(k');
  }

  // ---- option sources ----

  /** One entry of `sourceData`: the option's value and its label. */
  datatype SourceItem = SourceItem(value: Value, text: Value)

  /** `typeof v === 'object' && v !== null`. */
  predicate IsObject(v: Value) {
    v.Obj? || v.Arr? || v.Date? || v.InvalidDate?
  }

  /** `Object.keys(v)` for an object. */
  function ObjectKeys(v: Value): (r: seq<string>)
    ensures |r| == |OwnEntries(v)|
  {
    var e := OwnEntries(v);
    seq(|e|, i requires 0 <= i < |e| => e[i].0)
  }

  /** How `convertSource` normalises one array item. */
  function ConvertItem(x: Value): (r: SourceItem)
    ensures !IsObject(x) ==> r == SourceItem(x, x)
    ensures IsObject(x) && Get(x, "value") != Undefined && Get(x, "text") != Undefined ==>
      r == SourceItem(Get(x, "value"), Get(x, "text"))
    ensures IsObject(x) && Get(x, "value") == Undefined && Get(x, "id") != Undefined && Get(x, "text") != Undefined ==>
      r == SourceItem(Get(x, "id"), Get(x, "text"))
    ensures IsObject(x) && (Get(x, "text") == Undefined || (Get(x, "value") == Undefined && Get(x, "id") == Undefined)) ==>
      r == if |ObjectKeys(x)| >= 2 then SourceItem(Get(x, ObjectKeys(x)[0]), Get(x, ObjectKeys(x)[1])) else SourceItem(x, x)
  {
    if !IsObject(x) then SourceItem(x, x)
    else if Get(x, "value") != Undefined && Get(x, "text") != Undefined then SourceItem(Get(x, "value"), Get(x, "text"))
    else if Get(x, "id") != Undefined && Get(x, "text") != Undefined then SourceItem(Get(x, "id"), Get(x, "text"))
    else
      var keys := ObjectKeys(x);
      if |keys| >= 2 then SourceItem(Get(x, keys[0]), Get(x, keys[1])) else SourceItem(x, x)
  }

  /** `convertSource(source)` for a resolved source. */
  function ConvertSource(source: Value): (r: seq<SourceItem>)
    ensures !Truthy(source) ==> r == []
    ensures source.Arr? ==> |r| == |source.items| && forall i :: 0 <= i < |r| ==> r[i] == ConvertItem(source.items[i])
    ensures source.Obj? ==> (|r| == |source.props|
      && forall i :: 0 <= i < |r| ==> r[i] == SourceItem(Str(source.props[i].0), source.props[i].1))
    ensures !source.Arr? && !source.Obj? ==> r == []
  {
    match source
    case Arr(items) => ConvertItems(items)
    case Obj(props) => EntryItems(props)
    case _ => []
  }

  function ConvertItems(items: seq<Value>): (r: seq<SourceItem>)
    ensures |r| == |items| && forall i :: 0 <= i < |r| ==> r[i] == ConvertItem(items[i])
  {
    seq(|items|, i requires 0 <= i < |items| => ConvertItem(items[i]))
  }

  /** `Object.entries(source)` as (key, value) options. */
  function EntryItems(props: seq<(string, Value)>): (r: seq<SourceItem>)
    ensures |r| == |props| && forall i :: 0 <= i < |r| ==> r[i] == SourceItem(Str(props[i].0), props[i].1)
  {
    seq(|props|, i requires 0 <= i < |props| => SourceItem(Str(props[i].0), props[i].1))
  }

  /** The items written back out as `{value, text}` objects. */
  function SourceValue(items: seq<SourceItem>): Value {
    Arr(seq(|items|, i requires 0 <= i < |items| => Obj([("value", items[i].value), ("text", items[i].text)])))
  }

  /** A `{value, text}` object normalises to its own two fields, whatever they hold. */
  lemma ValueTextItem(a: Value, b: Value)
    ensures ConvertItem(Obj([("value", a), ("text", b)])) == SourceItem(a, b)
  {
    var props := [("value", a), ("text", b)];
    var o := Obj(props);
    assert Get(o, "value") == a;
    assert "value" != "text" by { assert "value"[0] != "text"[0]; }
    assert props[1..] == [("text", b)];
    assert Lookup(props, "text") == Lookup([("text", b)], "text") == Some(b);
    assert ObjectKeys(o) == ["value", "text"];
  }

  /** Normalising an already normalised source changes nothing. */
  lemma {:induction false} ConvertSourceIdempotent(source: Value)
    ensures ConvertSource(SourceValue(ConvertSource(source))) == ConvertSource(source)
  {
    var items := ConvertSource(source);
    var sv := SourceValue(items);
    var r := ConvertSource(sv);
    forall i | 0 <= i < |items|
      ensures r[i] == items[i]
    {
      assert sv.items[i] == Obj([("value", items[i].value), ("text", items[i].text)]);
      ValueTextItem(items[i].value, items[i].text);
    }
  }

  /** A pair given as a two-element array becomes (first, second). */
  lemma PairItem(a: Value, b: Value, rest: seq<Value>)
    ensures ConvertItem(Arr([a, b] + rest)) == SourceItem(a, b)
  {
    var x := Arr([a, b] + rest);
    ParseNatToString(0);
    ParseNatToString(1);
    assert NatToString(0) == "0" && NatToString(1) == "1";
    assert ObjectKeys(x)[0] == "0" && ObjectKeys(x)[1] == "1";
    assert Get(x, "value") == Undefined;
  }

  /** The index of the first item whose value has the same string as `v`. */
  function FindItem(src: seq<SourceItem>, v: Value): (r: Option<nat>)
    ensures r.Some? ==> r.value < |src| && ToStr(src[r.value].value) == ToStr(v)
    ensures r.Some? ==> forall j :: 0 <= j < r.value ==> ToStr(src[j].value) != ToStr(v)
    ensures r.None? <==> forall j :: 0 <= j < |src| ==> ToStr(src[j].value) != ToStr(v)
  {
    FindFrom(src, ToStr(v), 0)
  }

  /** The first index from `i` on whose item's value has the string `key`. */
  function FindFrom(src: seq<SourceItem>, key: string, i: nat): (r: Option<nat>)
    requires i <= |src|
    requires forall j :: 0 <= j < i ==> ToStr(src[j].value) != key
    ensures r.Some? ==> i <= r.value < |src| && ToStr(src[r.value].value) == key
    ensures r.Some? ==> forall j :: 0 <= j < r.value ==> ToStr(src[j].value) != key
    ensures r.None? <==> forall j :: 0 <= j < |src| ==> ToStr(src[j].value) != key
    decreases |src| - i
  {
    if i == |src| then None
    else if ToStr(src[i].value) == key then Some(i)
    else FindFrom(src, key, i + 1)
  }

  /** The label of the first matching item, or the value itself when nothing matches. */
  function Label(src: seq<SourceItem>, v: Value): Value {
    match FindItem(src, v)
    case Some(i) => src[i].text
    case None => v
  }

  /** `SelectInput.value2html`: the label of the first option whose value has the same
      string as `v`, or `v` itself when no option matches. */
  function SelectValue2Html(src: Option<seq<SourceItem>>, v: Value): (r: Value)
    ensures IsNullish(v) || src.None? ==> r == Str("")
    ensures !IsNullish(v) && src.Some? ==> forall i ::
      (0 <= i < |src.value| && ToStr(src.value[i].value) == ToStr(v)
       && forall j :: 0 <= j < i ==> ToStr(src.value[j].value) != ToStr(v)) ==> r == src.value[i].text
    ensures !IsNullish(v) && src.Some? && (forall i :: 0 <= i < |src.value| ==> ToStr(src.value[i].value) != ToStr(v)) ==>
      r == v
  {
    if IsNullish(v) || src.None? then Str("") else Label(src.value, v)
  }

  // ---- checklist ----

  /** The labels `ChecklistInput.value2html` collects: one per selected value, null and
      undefined ones dropped. */
  function Labels(src: seq<SourceItem>, vals: seq<Value>): (r: seq<Value>)
    ensures |r| == LabelCount(src, vals) <= |vals|
    ensures forall i :: 0 <= i < |r| ==> !IsNullish(r[i])
    ensures forall j :: 0 <= j < |vals| && !IsNullish(Label(src, vals[j])) ==>
      LabelCount(src, vals[..j]) < |r| && r[LabelCount(src, vals[..j])] == Label(src, vals[j])
    decreases |vals|
  {
    if |vals| == 0 then []
    else
      var l := Label(src, vals[0]);
      var rest := Labels(src, vals[1..]);
      var r := if IsNullish(l) then rest else [l] + rest;
      var c := if IsNullish(l) then 0 else 1;
      forall j | 0 <= j < |vals| && !IsNullish(Label(src, vals[j]))
        ensures LabelCount(src, vals[..j]) < |r| && r[LabelCount(src, vals[..j])] == Label(src, vals[j])
      {
        if j > 0 {
          assert vals[..j][1..] == vals[1..][..j - 1] && vals[..j][0] == vals[0];
          assert vals[1..][j - 1] == vals[j];
          assert LabelCount(src, vals[..j]) == c + LabelCount(src, vals[1..][..j - 1]);
        }
      }
      r
  }

  /** How many of `vals` have a label that is neither null nor undefined. */
  function LabelCount(src: seq<SourceItem>, vals: seq<Value>): nat
    decreases |vals|
  {
    if |vals| == 0 then 0
    else (if IsNullish(Label(src, vals[0])) then 0 else 1) + LabelCount(src, vals[1..])
  }

  /** When every selected value has a label, the labels are exactly those of the values,
      in order. */
  lemma LabelsOfLabelled(src: seq<SourceItem>, vals: seq<Value>)
    requires forall j :: 0 <= j < |vals| ==> !IsNullish(Label(src, vals[j]))
    ensures Labels(src, vals) == seq(|vals|, j requires 0 <= j < |vals| => Label(src, vals[j]))
  {
    var r := Labels(src, vals);
    LabelCountOfLabelled(src, vals);
    forall j | 0 <= j < |vals| ensures r[j] == Label(src, vals[j]) {
      LabelCountOfLabelled(src, vals[..j]);
    }
  }

  lemma {:induction false} LabelCountOfLabelled(src: seq<SourceItem>, vals: seq<Value>)
    requires forall j :: 0 <= j < |vals| ==> !IsNullish(Label(src, vals[j]))
    ensures LabelCount(src, vals) == |vals|
    decreases |vals|
  {
    if |vals| > 0 {
      LabelCountOfLabelled(src, vals[1..]);
    }
  }

  /** The text of each value's label. */
  function LabelTexts(src: seq<SourceItem>, vals: seq<Value>): (r: seq<string>)
    ensures |r| == |vals| && forall j :: 0 <= j < |vals| ==> r[j] == ToStr(Label(src, vals[j]))
  {
    seq(|vals|, j requires 0 <= j < |vals| => ToStr(Label(src, vals[j])))
  }

  /** `texts.join(', ')` for labels that are neither null nor undefined. */
  function JoinTexts(texts: seq<Value>): string {
    Join(seq(|texts|, i requires 0 <= i < |texts| => ToStr(texts[i])), ", ")
  }

  /** `ChecklistInput.value2html`: the labels of the selected values joined with ", ", a
      value without a label (null or undefined) left out; a falsy value or a missing source
      shows nothing. */
  function ChecklistValue2Html(src: Option<seq<SourceItem>>, v: Value): (r: string)
    ensures !Truthy(v) || src.None? ==> r == ""
    ensures Truthy(v) && src.Some? ==> r == JoinTexts(Labels(src.value, SelectedValues(v)))
  {
    if !Truthy(v) || src.None? then "" else JoinTexts(Labels(src.value, SelectedValues(v)))
  }

  /** When every selected value has a label, the checklist shows all the labels, in the
      order of the values, joined with ", ". */
  lemma ChecklistHtmlOfLabelled(src: seq<SourceItem>, v: Value)
    requires Truthy(v)
    requires forall j :: 0 <= j < |SelectedValues(v)| ==> !IsNullish(Label(src, SelectedValues(v)[j]))
    ensures ChecklistValue2Html(Some(src), v) == Join(LabelTexts(src, SelectedValues(v)), ", ")
  {
    var vals := SelectedValues(v);
    var ls := Labels(src, vals);
    LabelsOfLabelled(src, vals);
    assert seq(|ls|, i requires 0 <= i < |ls| => ToStr(ls[i])) == LabelTexts(src, vals);
  }

  /** For a single selected value the checklist shows what a select would, with a missing
      label shown as nothing. */
  lemma ChecklistHtmlOfSingle(src: seq<SourceItem>, v: Value)
    requires Truthy(v) && !v.Arr?
    ensures var h := SelectValue2Html(Some(src), v);
      ChecklistValue2Html(Some(src), v) == if IsNullish(h) then "" else ToStr(h)
  {
    var l := Label(src, v);
    if IsNullish(l) {
      assert Labels(src, [v]) == [];
    } else {
      assert Labels(src, [v]) == [l];
    }
  }

  /** The items of a comma-separated list: each piece trimmed, empty pieces dropped. */
  function ListItems(pieces: seq<string>): (r: seq<string>)
    ensures |r| <= |pieces|
    decreases |pieces|
  {
    if |pieces| == 0 then []
    else
      var t := Trim(pieces[0]);
      if t == "" then ListItems(pieces[1..]) else [t] + ListItems(pieces[1..])
  }

  /** Every list item is non-empty and trimmed. */
  lemma {:induction false} ListItemsClean(pieces: seq<string>)
    ensures forall i :: 0 <= i < |ListItems(pieces)| ==> ListItems(pieces)[i] != "" && IsTrimmed(ListItems(pieces)[i])
    decreases |pieces|
  {
    if |pieces| > 0 {
      var rest := ListItems(pieces[1..]);
      ListItemsClean(pieces[1..]);
      var t := Trim(pieces[0]);
      if t != "" {
        var r := [t] + rest;
        assert ListItems(pieces) == r;
        assert forall i :: 1 <= i < |r| ==> r[i] == rest[i - 1];
      }
    }
  }

  /** Trimming adds no commas. */
  lemma {:induction false} ListItemsCommaFree(pieces: seq<string>)
    requires forall i :: 0 <= i < |pieces| ==> ',' !in pieces[i]
    ensures forall i :: 0 <= i < |ListItems(pieces)| ==> ',' !in ListItems(pieces)[i]
    decreases |pieces|
  {
    if |pieces| > 0 {
      var rest := ListItems(pieces[1..]);
      var t := Trim(pieces[0]);
      TrimKeepsOut(pieces[0], ',');
      ListItemsCommaFree(pieces[1..]);
      var r := ListItems(pieces);
      assert r == if t == "" then rest else [t] + rest;
      forall i | 0 <= i < |r| ensures ',' !in r[i] {
        if t == "" {
          assert r[i] == rest[i];
        } else if i > 0 {
          assert r[i] == rest[i - 1];
        }
      }
    }
  }

  /** Strings as string values. */
  function StrItems(xs: seq<string>): (r: seq<Value>)
    ensures |r| == |xs| && forall i :: 0 <= i < |r| ==> r[i] == Str(xs[i])
  {
    seq(|xs|, i requires 0 <= i < |xs| => Str(xs[i]))
  }

  /** A list of items fit to round-trip: non-empty, trimmed, free of commas. */
  predicate CleanItems(xs: seq<string>) {
    forall i :: 0 <= i < |xs| ==> xs[i] != "" && IsTrimmed(xs[i]) && ',' !in xs[i]
  }

  /** A string without commas is one piece, which is kept unless it is blank. */
  lemma SingleItem(s: string)
    requires ',' !in s
    ensures ListItems(Split(s, ',')) == if Trim(s) == "" then [] else [Trim(s)]
  {
    SplitOfPiece(s, ',');
    assert [s][1..] == [];
  }

  /** The same, as the list of values `str2value` builds. */
  lemma SingleItemValues(s: string)
    requires ',' !in s
    ensures StrItems(ListItems(Split(s, ','))) == if IsBlank(s) then [] else [Str(Trim(s))]
  {
    SingleItem(s);
    TrimEmptyIffBlank(s);
  }

  /** `ChecklistInput.str2value`: a non-empty string becomes its list items; anything else,
      including a non-string that has no `split`, becomes the empty list. */
  function ChecklistStr2Value(v: Value): (r: Value)
    ensures r.Arr?
    ensures !(v.Str? && v.s != "") ==> r == Arr([])
    ensures v.Str? && ',' !in v.s && !IsBlank(v.s) ==> r == Arr([Str(Trim(v.s))])
    ensures v.Str? && ',' !in v.s && IsBlank(v.s) ==> r == Arr([])
  {
    if v.Str? && v.s != "" then
      assert ',' !in v.s ==> StrItems(ListItems(Split(v.s, ','))) == if IsBlank(v.s) then [] else [Str(Trim(v.s))] by {
        if ',' !in v.s { SingleItemValues(v.s); }
      }
      Arr(StrItems(ListItems(Split(v.s, ','))))
    else Arr([])
  }

  /** What `str2value` produces is a list of clean string items. */
  lemma ChecklistStr2ValueClean(v: Value)
    ensures exists xs :: CleanItems(xs) && ChecklistStr2Value(v) == Arr(StrItems(xs))
  {
    if v.Str? && v.s != "" {
      var xs := ListItems(Split(v.s, ','));
      ListItemsCommaFree(Split(v.s, ','));
      ListItemsClean(Split(v.s, ','));
      assert CleanItems(xs);
    } else {
      assert CleanItems([]) && ChecklistStr2Value(v) == Arr(StrItems([]));
    }
  }

  /** `ChecklistInput.value2str`: a falsy value is "", an array is joined with ",", anything
      else goes through `String`. */
  function ChecklistValue2Str(v: Value): (r: string)
    ensures !Truthy(v) ==> r == ""
    ensures v.Str? ==> r == v.s
  {
    if !Truthy(v) then "" else ToStr(v)
  }

  lemma {:induction false} ElemStringsOfStrItems(xs: seq<string>, i: nat)
    requires i <= |xs|
    ensures ElemStrings(Arr(StrItems(xs)), i) == xs[i..]
    decreases |xs| - i
  {
    if i < |xs| {
      ElemStringsOfStrItems(xs, i + 1);
      assert xs[i..] == [xs[i]] + xs[i + 1..];
    }
  }

  /** A list of strings is written as the strings joined with ",". */
  lemma ChecklistValue2StrOfItems(xs: seq<string>)
    ensures ChecklistValue2Str(Arr(StrItems(xs))) == Join(xs, ",")
  {
    ElemStringsOfStrItems(xs, 0);
    assert xs[0..] == xs;
  }

  lemma {:induction false} ListItemsOfClean(xs: seq<string>)
    requires forall i :: 0 <= i < |xs| ==> xs[i] != "" && IsTrimmed(xs[i])
    ensures ListItems(xs) == xs
  {
    TrimmedPiecesOfAll(xs);
    ListItemsOfTrimmedPieces(xs);
  }

  /** Every piece non-empty and trimmed, stated one piece at a time. */
  predicate TrimmedPieces(xs: seq<string>)
    decreases |xs|
  {
    |xs| == 0 || (xs[0] != "" && IsTrimmed(xs[0]) && TrimmedPieces(xs[1..]))
  }

  lemma {:induction false} TrimmedPiecesOfAll(xs: seq<string>)
    requires forall i :: 0 <= i < |xs| ==> xs[i] != "" && IsTrimmed(xs[i])
    ensures TrimmedPieces(xs)
    decreases |xs|
  {
    if |xs| > 0 {
      var rest := xs[1..];
      assert forall i :: 0 <= i < |rest| ==> rest[i] == xs[i + 1];
      TrimmedPiecesOfAll(rest);
    }
  }

  lemma {:induction false} ListItemsOfTrimmedPieces(xs: seq<string>)
    requires TrimmedPieces(xs)
    ensures ListItems(xs) == xs
    decreases |xs|
  {
    if |xs| > 0 {
      ListItemsOfCleanHead(xs);
      ListItemsOfTrimmedPieces(xs[1..]);
      HeadTail(xs);
    }
  }

  /** A clean first piece is kept as it is. */
  lemma ListItemsOfCleanHead(s: seq<string>)
    requires |s| > 0 && s[0] != "" && IsTrimmed(s[0])
    ensures ListItems(s) == [s[0]] + ListItems(s[1..])
  {
    TrimOfTrimmed(s[0]);
  }

  /** A list of non-empty, trimmed, comma-free strings survives `value2str` then
      `str2value`. */
  lemma {:induction false} ChecklistListRoundTrip(xs: seq<string>)
    requires CleanItems(xs)
    ensures ChecklistStr2Value(Str(ChecklistValue2Str(Arr(StrItems(xs))))) == Arr(StrItems(xs))
  {
    ChecklistValue2StrOfItems(xs);
    if |xs| > 0 {
      JoinStartsWith(xs, ",");
      SplitJoin(xs, ',');
      ListItemsOfClean(xs);
    }
  }

  /** Reading a list, writing it and reading it again gives the same list: `str2value`
      already produces the normal form. */
  lemma ChecklistStr2ValueIdempotent(v: Value)
    ensures var a := ChecklistStr2Value(v);
      ChecklistStr2Value(Str(ChecklistValue2Str(a))) == a
  {
    ChecklistStr2ValueClean(v);
    var xs :| CleanItems(xs) && ChecklistStr2Value(v) == Arr(StrItems(xs));
    ChecklistListRoundTrip(xs);
  }

  // ---- numbers and dates ----

  /** `NumberInput.str2value` and `RangeInput.str2value`: null and "" give null, so does a
      string `Number` reads as NaN; anything else is the number `Number` reads. */
  function NumberStr2Value(v: Value): (r: Value)
    ensures r.Null? || r.Num?
    ensures v == Null || v == Str("") ==> r == Null
    ensures ToNumber(v).None? ==> r == Null
    ensures v != Null && v != Str("") && ToNumber(v).Some? ==> r == Num(ToNumber(v).value)
  {
    if v == Null || v == Str("") then Null
    else match ToNumber(v)
      case Some(n) => Num(n)
      case None => Null
  }

  /** What a number field sends reads back as the same number. */
  lemma NumberWireRoundTrip(n: int)
    ensures NumberStr2Value(Str(IntToString(n))) == Num(n)
  {
    ParseNumberOfIntToString(n);
  }

  /** A blank but non-empty string is not caught by the "" test and reads as 0. */
  lemma NumberBlankIsZero()
    ensures NumberStr2Value(Str(" ")) == Num(0)
  {
    assert IsBlank(" ");
  }

  /** `DateInput.str2value` and `DateTimeInput.str2value`. */
  function DateStr2Value(v: Value): (r: Value)
    ensures r.Null? || r.Date?
    ensures !Truthy(v) ==> r == Null
    ensures ToDate(v).None? ==> r == Null
    ensures Truthy(v) && ToDate(v).Some? ==> r == Date(ToDate(v).value)
  {
    if !Truthy(v) then Null
    else match ToDate(v)
      case Some(t) => Date(t)
      case None => Null
  }

  /** The calendar fields of a value a date input can show, if it denotes a valid date. */
  function DateFields(v: Value): Option<Dates.DateRec> {
    if !Truthy(v) then None
    else match ToDate(v)
      case Some(t) => Some(Dates.RecOf(t))
      case None => None
  }

  function DateValue2Html(v: Value): string {
    match DateFields(v)
    case Some(d) => Dates.FormatDate(d)
    case None => ""
  }

  function DateTimeValue2Html(v: Value): string {
    match DateFields(v)
    case Some(d) => Dates.FormatDateTime(d)
    case None => ""
  }

  // ---- the per-class conversions ----

  /** `value2html`. */
  function Value2Html(k: Kind, src: Option<seq<SourceItem>>, v: Value): (r: Value)
    ensures k != SelectInput ==> r.Str?
    ensures k !in {SelectInput, ChecklistInput, DateInput, DateTimeInput, PasswordInput} && v.Str? ==> r == v
    ensures IsNullish(v) && k != PasswordInput ==> r == Str("")
  {
    match k
    case SelectInput => SelectValue2Html(src, v)
    case ChecklistInput => Str(ChecklistValue2Html(src, v))
    case DateInput => Str(DateValue2Html(v))
    case DateTimeInput => Str(DateTimeValue2Html(v))
    case PasswordInput => Str("******")
    case _ => Str(ValueString(v))
  }

  /** `value !== null && value !== undefined ? String(value) : ''`: the string the plain
      inputs show, send and put into their control. */
  function ValueString(v: Value): (r: string)
    ensures v.Str? ==> r == v.s
    ensures IsNullish(v) ==> r == ""
  {
    if IsNullish(v) then "" else ToStr(v)
  }

  /** The password mask does not depend on the value. */
  lemma PasswordHidesValue(src: Option<seq<SourceItem>>, v: Value, w: Value)
    ensures Value2Html(PasswordInput, src, v) == Value2Html(PasswordInput, src, w)
    ensures Value2Html(PasswordInput, src, v) != v || v == Str("******")
  {
  }

  /** `value2str`, which is also `value2submit`. */
  function Value2Str(k: Kind, v: Value): (r: string)
    ensures v.Str? ==> r == v.s
    ensures IsNullish(v) ==> r == ""
    ensures v.Num? && v.n != 0 ==> r == IntToString(v.n)
  {
    if k == ChecklistInput then ChecklistValue2Str(v) else ValueString(v)
  }

  /** `str2value`. */
  function Str2Value(k: Kind, v: Value): (r: Value)
    ensures k !in {ChecklistInput, DateInput, DateTimeInput, NumberInput, RangeInput} ==> r == v
  {
    match k
    case ChecklistInput => ChecklistStr2Value(v)
    case DateInput => DateStr2Value(v)
    case DateTimeInput => DateStr2Value(v)
    case NumberInput => NumberStr2Value(v)
    case RangeInput => NumberStr2Value(v)
    case _ => v
  }

  /** `html2value`: the shown text, trimmed. */
  function Html2Value(html: string): (r: string)
    ensures IsTrimmed(r)
    ensures |r| == 0 <==> IsBlank(html)
  {
    TrimEmptyIffBlank(html);
    Trim(html)
  }

  /** A trimmed string shown by a plain input reads back from its display unchanged. */
  lemma Html2ValueOfDisplay(k: Kind, src: Option<seq<SourceItem>>, s: string)
    requires k !in {SelectInput, ChecklistInput, DateInput, DateTimeInput, PasswordInput}
    requires IsTrimmed(s)
    ensures Html2Value(Value2Html(k, src, Str(s)).s) == s
  {
    var h := Value2Html(k, src, Str(s));
    assert h == Str(s);
    TrimOfTrimmed(s);
  }

  /** A string sent by a plain input reads back as the same string. */
  lemma TextWireRoundTrip(k: Kind, s: string)
    requires k !in {ChecklistInput, DateInput, DateTimeInput, NumberInput, RangeInput}
    ensures Str2Value(k, Str(Value2Str(k, Str(s)))) == Str(s)
  {
  }

  /** A checklist value sent and read back is the same list. */
  lemma ChecklistWireRoundTrip(xs: seq<string>)
    requires CleanItems(xs)
    ensures Str2Value(ChecklistInput, Str(Value2Str(ChecklistInput, Arr(StrItems(xs))))) == Arr(StrItems(xs))
  {
    ChecklistListRoundTrip(xs);
  }

  // ---- the form control ----

  /** What the form control holds: the text of an `<input>`/`<select>`/`<textarea>`, or the
      checkboxes of a checklist, each with its value string and checked state. */
  datatype Control = Typed(text: string) | Boxes(boxes: seq<(string, bool)>)

  /** The values `value2input` matches checkboxes against: an array's items, a truthy
      value alone, or nothing. */
  function SelectedValues(v: Value): seq<Value> {
    if v.Arr? then v.items else if Truthy(v) then [v] else []
  }

  predicate Selects(vals: seq<Value>, boxValue: string) {
    exists j :: 0 <= j < |vals| && ToStr(vals[j]) == boxValue
  }

  /** What a `<select>` reads back after its `value` is set to `s`: `s` when one of its
      options has that value, and "" otherwise, since then no option is selected. Without a
      source the select has no options. */
  function SelectControlValue(src: Option<seq<SourceItem>>, s: string): (r: string)
    ensures r == s || r == ""
    ensures r == s && s != "" <==> s != "" && src.Some? && exists j :: 0 <= j < |src.value| && ToStr(src.value[j].value) == s
  {
    if src.Some? && FindItem(src.value, Str(s)).Some? then s else ""
  }

  /** `value2input` after `render`: the control as filled from `v`, after the control has
      sanitized the string it was given. */
  function Value2Input(k: Kind, src: Option<seq<SourceItem>>, v: Value): (r: Control)
    ensures k == ChecklistInput <==> r.Boxes?
    ensures r.Boxes? && src.Some? ==> |r.boxes| == |src.value|
    ensures r.Boxes? && src.None? ==> r.boxes == []
    ensures r.Boxes? && src.Some? ==> forall i :: 0 <= i < |r.boxes| ==>
      (r.boxes[i].0 == DomString(src.value[i].value) && (r.boxes[i].1 <==> Selects(SelectedValues(v), r.boxes[i].0)))
  {
    if k == ChecklistInput then Boxes(ChecklistBoxes(src, v)) else Typed(TypedText(k, src, v))
  }

  /** The checklist's boxes: one per source item, checked when the value selects it. */
  function ChecklistBoxes(src: Option<seq<SourceItem>>, v: Value): (r: seq<(string, bool)>)
    ensures src.None? ==> r == []
    ensures src.Some? ==> |r| == |src.value| && forall i :: 0 <= i < |r| ==>
      (r[i].0 == DomString(src.value[i].value) && (r[i].1 <==> Selects(SelectedValues(v), r[i].0)))
  {
    var items := if src.Some? then src.value else [];
    var vals := SelectedValues(v);
    seq(|items|, i requires 0 <= i < |items| => (DomString(items[i].value), Selects(vals, DomString(items[i].value))))
  }

  /** The string a typed control of kind `k` holds after `v` is assigned to it. */
  function TypedText(k: Kind, src: Option<seq<SourceItem>>, v: Value): string {
    var t := ValueString(v);
    match k
    case DateInput =>
      (match DateFields(v) case Some(d) => DateControlValue(Dates.FormatDate(d)) case None => "")
    case DateTimeInput =>
      (match DateFields(v) case Some(d) => DateTimeControlValue(Dates.FormatDateTimeLocal(d)) case None => "")
    case SelectInput => SelectControlValue(src, t)
    case NumberInput => NumberControlValue(t)
    case RangeInput => RangeControlValue(t)
    case TextareaInput => NormalizeNewlines(t)
    case EmailInput => StripAsciiWhitespace(StripNewlines(t))
    case UrlInput => StripAsciiWhitespace(StripNewlines(t))
    case TextInput => StripNewlines(t)
    case TelInput => StripNewlines(t)
    case PasswordInput => StripNewlines(t)
    case ChecklistInput => ""
  }

  /** What a typed control of kind `k` can hold: no line breaks in a one-line control, no
      carriage returns in a textarea, no whitespace at the ends of an email or url, an
      option's value or "" in a select, a valid number or "" in a number control, a whole
      number from 0 to 100 in a range, a valid date or date-time or "" in the date
      controls. */
  predicate Sanitized(k: Kind, src: Option<seq<SourceItem>>, text: string) {
    match k
    case TextInput | TelInput | PasswordInput => forall i :: 0 <= i < |text| ==> !IsNewline(text[i])
    case EmailInput | UrlInput => (forall i :: 0 <= i < |text| ==> !IsNewline(text[i])) && IsAsciiTrimmed(text)
    case TextareaInput => forall i :: 0 <= i < |text| ==> text[i] != '\r'
    case SelectInput => text == "" || (src.Some? && exists j :: 0 <= j < |src.value| && ToStr(src.value[j].value) == text)
    case NumberInput => text == "" || IsValidFloat(text)
    case RangeInput => InDefaultRange(text)
    case DateInput => text == "" || IsValidDateString(text)
    case DateTimeInput => text == "" || IsValidLocalDateTime(text)
    case ChecklistInput => true
  }

  /** A date value has the calendar fields of its time value. */
  lemma DateFieldsOfDate(t: int)
    ensures DateFields(Date(t)) == Some(Dates.RecOf(t))
  {
  }

  /** A date control filled from a value with calendar fields holds what the control makes
      of their `YYYY-MM-DD` string. */
  lemma DateControlText(src: Option<seq<SourceItem>>, v: Value, d: Dates.DateRec)
    requires DateFields(v) == Some(d)
    ensures Value2Input(DateInput, src, v) == Typed(DateControlValue(Dates.FormatDate(d)))
  {
  }

  /** A date-time control filled from a value with calendar fields holds what the control
      makes of their `YYYY-MM-DDTHH:MM` string. */
  lemma DateTimeControlText(src: Option<seq<SourceItem>>, v: Value, d: Dates.DateRec)
    requires DateFields(v) == Some(d)
    ensures Value2Input(DateTimeInput, src, v) == Typed(DateTimeControlValue(Dates.FormatDateTimeLocal(d)))
  {
  }

  /** The string a one-line control holds after it is given `v`. */
  lemma TypedTextOf(k: Kind, src: Option<seq<SourceItem>>, v: Value)
    requires k in {TextInput, TelInput, PasswordInput, EmailInput, UrlInput}
    ensures k in {TextInput, TelInput, PasswordInput} ==> TypedText(k, src, v) == StripNewlines(ValueString(v))
    ensures k in {EmailInput, UrlInput} ==> TypedText(k, src, v) == StripAsciiWhitespace(StripNewlines(ValueString(v)))
  {
  }

  /** A control other than a checklist or date control reads back the text it holds as a
      string. */
  lemma ControlReadsText(k: Kind, src: Option<seq<SourceItem>>, v: Value, text: string)
    requires k !in {ChecklistInput, DateInput, DateTimeInput}
    requires TypedText(k, src, v) == text
    ensures Input2Value(k, Value2Input(k, src, v)) == Str(text)
  {
  }

  /** A range control holds what its sanitization makes of the string it is given. */
  lemma RangeText(src: Option<seq<SourceItem>>, v: Value, s: string, t: string)
    requires ValueString(v) == s && RangeControlValue(s) == t
    ensures TypedText(RangeInput, src, v) == t
  {
  }

  /** Whatever it is given, a typed control holds only what its type allows. */
  lemma Value2InputSanitized(k: Kind, src: Option<seq<SourceItem>>, v: Value)
    requires k != ChecklistInput
    ensures Sanitized(k, src, Value2Input(k, src, v).text)
  {
    var r := Value2Input(k, src, v);
    var t := ValueString(v);
    match k
    case EmailInput =>
      assert r.text == StripAsciiWhitespace(StripNewlines(t));
      StripAsciiKeepsOut(StripNewlines(t));
    case UrlInput =>
      assert r.text == StripAsciiWhitespace(StripNewlines(t));
      StripAsciiKeepsOut(StripNewlines(t));
    case TextInput => assert r.text == StripNewlines(t);
    case TelInput => assert r.text == StripNewlines(t);
    case PasswordInput => assert r.text == StripNewlines(t);
    case TextareaInput => assert r.text == NormalizeNewlines(t);
    case SelectInput => assert r.text == SelectControlValue(src, t);
    case NumberInput => assert r.text == NumberControlValue(t);
    case RangeInput => assert r.text == RangeControlValue(t);
    case DateInput =>
    case DateTimeInput =>
  }

  /** The value strings of the checked boxes, in order: the checked box `j` gives the item
      at the position counting the checked boxes before it. */
  function CheckedValues(boxes: seq<(string, bool)>): (r: seq<Value>)
    ensures |r| == CheckedCount(boxes) <= |boxes|
    ensures forall i :: 0 <= i < |r| ==> r[i].Str? && exists j :: 0 <= j < |boxes| && boxes[j] == (r[i].s, true)
    decreases |boxes|
  {
    if |boxes| == 0 then []
    else
      var rest := CheckedValues(boxes[1..]);
      assert forall i :: 0 <= i < |rest| ==> exists j :: 0 <= j < |boxes| && boxes[j] == (rest[i].s, true) by {
        forall i | 0 <= i < |rest| ensures exists j :: 0 <= j < |boxes| && boxes[j] == (rest[i].s, true) {
          var j :| 0 <= j < |boxes[1..]| && boxes[1..][j] == (rest[i].s, true);
          assert boxes[j + 1] == (rest[i].s, true);
        }
      }
      if boxes[0].1 then [Str(boxes[0].0)] + rest else rest
  }

  /** Each checked box is read back, at the position that counts the checked boxes before
      it; with the length above, the values are exactly the checked boxes' values in
      order. */
  lemma {:induction false} CheckedValuesAt(boxes: seq<(string, bool)>, j: nat)
    requires j < |boxes| && boxes[j].1
    ensures CheckedCount(boxes[..j]) < |CheckedValues(boxes)|
    ensures CheckedValues(boxes)[CheckedCount(boxes[..j])] == Str(boxes[j].0)
    decreases j
  {
    if j > 0 {
      var c := if boxes[0].1 then 1 else 0;
      CheckedValuesAt(boxes[1..], j - 1);
      assert boxes[..j][1..] == boxes[1..][..j - 1] && boxes[..j][0] == boxes[0];
      assert CheckedCount(boxes[..j]) == c + CheckedCount(boxes[1..][..j - 1]);
    }
  }

  /** How many boxes are checked. */
  function CheckedCount(boxes: seq<(string, bool)>): nat
    decreases |boxes|
  {
    if |boxes| == 0 then 0 else (if boxes[0].1 then 1 else 0) + CheckedCount(boxes[1..])
  }

  /** With every box checked, the control reads back every box's value. */
  lemma CheckedValuesOfAll(boxes: seq<(string, bool)>)
    requires forall j :: 0 <= j < |boxes| ==> boxes[j].1
    ensures CheckedValues(boxes) == StrItems(seq(|boxes|, j requires 0 <= j < |boxes| => boxes[j].0))
  {
    var r := CheckedValues(boxes);
    CheckedCountOfAll(boxes);
    forall j | 0 <= j < |boxes| ensures r[j] == Str(boxes[j].0) {
      CheckedCountOfAll(boxes[..j]);
      CheckedValuesAt(boxes, j);
    }
  }

  lemma {:induction false} CheckedCountOfAll(boxes: seq<(string, bool)>)
    requires forall j :: 0 <= j < |boxes| ==> boxes[j].1
    ensures CheckedCount(boxes) == |boxes|
    decreases |boxes|
  {
    if |boxes| > 0 {
      CheckedCountOfAll(boxes[1..]);
    }
  }

  /** `input2value`: the control's content as a value. An empty date control is null. */
  function Input2Value(k: Kind, c: Control): (r: Value)
    ensures k == ChecklistInput ==> r.Arr?
    ensures k == ChecklistInput && c.Boxes? ==> r == Arr(CheckedValues(c.boxes))
    ensures k in {DateInput, DateTimeInput} ==> r.Null? || r.Date? || r.InvalidDate?
    ensures k in {DateInput, DateTimeInput} && c.Typed? ==> r == if c.text == "" then Null else NewDate(c.text)
    ensures k !in {ChecklistInput, DateInput, DateTimeInput} && c.Typed? ==> r == Str(c.text)
  {
    match (k, c)
    case (ChecklistInput, Boxes(boxes)) => Arr(CheckedValues(boxes))
    case (ChecklistInput, Typed(_)) => Arr([])
    case (DateInput, Typed(s)) => if s != "" then NewDate(s) else Null
    case (DateTimeInput, Typed(s)) => if s != "" then NewDate(s) else Null
    case (DateInput, Boxes(_)) => Null
    case (DateTimeInput, Boxes(_)) => Null
    case (_, Typed(s)) => Str(s)
    case (_, Boxes(_)) => Null
  }

  /** A string without line breaks put into a text, tel or password control comes back out
      unchanged; so does one for an email or url control when it has no whitespace at
      either end. */
  lemma TextControlRoundTrip(k: Kind, src: Option<seq<SourceItem>>, s: string)
    requires k in {TextInput, TelInput, PasswordInput, EmailInput, UrlInput}
    requires forall i :: 0 <= i < |s| ==> !IsNewline(s[i])
    requires k in {EmailInput, UrlInput} ==> IsAsciiTrimmed(s)
    ensures Input2Value(k, Value2Input(k, src, Str(s))) == Str(s)
  {
    assert TypedText(k, src, Str(s)) == s by {
      StripNewlinesOfClean(s);
      if k in {EmailInput, UrlInput} {
        StripAsciiOfTrimmed(s);
      }
      TypedTextOf(k, src, Str(s));
    }
    ControlReadsText(k, src, Str(s), s);
  }

  /** A one-line control drops the line breaks of what it is given. */
  lemma TextControlDropsNewlines(k: Kind, src: Option<seq<SourceItem>>, s: string)
    requires k in {TextInput, TelInput, PasswordInput}
    ensures Input2Value(k, Value2Input(k, src, Str(s))) == Str(StripNewlines(s))
  {
    TypedTextOf(k, src, Str(s));
    ControlReadsText(k, src, Str(s), StripNewlines(s));
  }

  /** A textarea gives back what it was given with its line breaks normalised to LF. */
  lemma TextareaControlRoundTrip(src: Option<seq<SourceItem>>, s: string)
    ensures Input2Value(TextareaInput, Value2Input(TextareaInput, src, Str(s))) == Str(NormalizeNewlines(s))
  {
    ControlReadsText(TextareaInput, src, Str(s), NormalizeNewlines(s));
  }

  /** Text without carriage returns comes back out of a textarea unchanged. */
  lemma TextareaKeepsText(src: Option<seq<SourceItem>>, s: string)
    requires forall i :: 0 <= i < |s| ==> s[i] != '\r'
    ensures Input2Value(TextareaInput, Value2Input(TextareaInput, src, Str(s))) == Str(s)
  {
    TextareaControlRoundTrip(src, s);
    NormalizeNewlinesOfClean(s);
  }

  /** A select gives back the string of a value one of its options has, and "" for a value
      no option has. */
  lemma SelectControlRoundTrip(src: seq<SourceItem>, v: Value)
    requires !IsNullish(v)
    ensures FindItem(src, v).Some? ==> Input2Value(SelectInput, Value2Input(SelectInput, Some(src), v)) == Str(ToStr(v))
    ensures FindItem(src, v).None? ==> Input2Value(SelectInput, Value2Input(SelectInput, Some(src), v)) == Str("")
  {
    var t := if FindItem(src, v).Some? then ToStr(v) else "";
    assert TypedText(SelectInput, Some(src), v) == t by {
      assert FindItem(src, Str(ToStr(v))) == FindItem(src, v);
    }
    ControlReadsText(SelectInput, Some(src), v, t);
  }

  /** A number put into a number control comes back as its decimal text. */
  lemma NumberControlRoundTrip(src: Option<seq<SourceItem>>, n: int)
    ensures Input2Value(NumberInput, Value2Input(NumberInput, src, Num(n))) == Str(IntToString(n))
  {
    assert TypedText(NumberInput, src, Num(n)) == IntToString(n) by {
      ParseFloatOfInt(n);
    }
    ControlReadsText(NumberInput, src, Num(n), IntToString(n));
  }

  /** Reading back what a number control holds gives the number put into it. */
  lemma NumberControlReadsBack(src: Option<seq<SourceItem>>, n: int)
    ensures NumberStr2Value(Input2Value(NumberInput, Value2Input(NumberInput, src, Num(n)))) == Num(n)
  {
    NumberControlRoundTrip(src, n);
    NumberWireRoundTrip(n);
  }

  /** A number control given text that is not a number reads back as "", which `str2value`
      turns into null. */
  lemma NumberControlRejects(src: Option<seq<SourceItem>>, s: string)
    requires !IsValidFloat(s)
    ensures Input2Value(NumberInput, Value2Input(NumberInput, src, Str(s))) == Str("")
    ensures NumberStr2Value(Input2Value(NumberInput, Value2Input(NumberInput, src, Str(s)))) == Null
  {
    ControlReadsText(NumberInput, src, Str(s), "");
  }

  /** A range control (default bounds 0 to 100, step 1) keeps a whole number within the
      bounds and clamps one outside them. */
  lemma RangeControlRoundTrip(src: Option<seq<SourceItem>>, n: int)
    ensures 0 <= n <= 100 ==> Input2Value(RangeInput, Value2Input(RangeInput, src, Num(n))) == Str(IntToString(n))
    ensures n < 0 ==> Input2Value(RangeInput, Value2Input(RangeInput, src, Num(n))) == Str("0")
    ensures n > 100 ==> Input2Value(RangeInput, Value2Input(RangeInput, src, Num(n))) == Str("100")
  {
    var t := if n < 0 then "0" else if n > 100 then "100" else IntToString(n);
    RangeOfInt(n);
    RangeText(src, Num(n), IntToString(n), t);
    ControlReadsText(RangeInput, src, Num(n), t);
  }

  /** The date display format parses back to midnight of the same day. */
  lemma ParseDateOfFormatDate(d: Dates.DateRec)
    requires Dates.ShowableRec(d)
    ensures Dates.FormatDate(d) != ""
    ensures ParseDate(Dates.FormatDate(d)) == Some(Dates.TimeOf(d.(hour := 0, minute := 0, second := 0, ms := 0)))
  {
    Dates.ParseFormatDate(d);
    Dates.TimeOfShowableInRange(d.(hour := 0, minute := 0, second := 0, ms := 0));
    Dates.FormatDateShape(d);
  }

  /** The `datetime-local` control format parses back to the same minute. */
  lemma ParseDateOfFormatDateTimeLocal(d: Dates.DateRec)
    requires Dates.ShowableRec(d)
    ensures Dates.FormatDateTimeLocal(d) != ""
    ensures ParseDate(Dates.FormatDateTimeLocal(d)) == Some(Dates.TimeOf(d.(second := 0, ms := 0)))
  {
    Dates.ParseFormatDateTimeLocal(d);
    Dates.TimeOfShowableInRange(d.(second := 0, ms := 0));
  }

  /** The date-control string of a showable date is truthy and parses to midnight of its day. */
  lemma DateStringReadsBack(d: Dates.DateRec)
    requires Dates.ShowableRec(d)
    ensures var m := Date(Dates.TimeOf(d.(hour := 0, minute := 0, second := 0, ms := 0)));
      && DateStr2Value(Str(Dates.FormatDate(d))) == m
      && NewDate(Dates.FormatDate(d)) == m
  {
    ParseDateOfFormatDate(d);
    ParsedStringReadsBack(Dates.FormatDate(d), Dates.TimeOf(d.(hour := 0, minute := 0, second := 0, ms := 0)));
  }

  lemma ParsedStringReadsBack(s: string, t: int)
    requires s != "" && ParseDate(s) == Some(t)
    ensures DateStr2Value(Str(s)) == Date(t) && NewDate(s) == Date(t)
  {
    assert ToDate(Str(s)) == ParseDate(s);
  }

  /** A date put into a date control comes back as midnight of the same day. */
  lemma DateControlRoundTrip(src: Option<seq<SourceItem>>, t: int)
    requires Dates.ShowableRec(Dates.RecOf(t))
    ensures var d := Dates.RecOf(t);
      Input2Value(DateInput, Value2Input(DateInput, src, Date(t)))
        == Date(Dates.TimeOf(d.(hour := 0, minute := 0, second := 0, ms := 0)))
  {
    var d := Dates.RecOf(t);
    FormatDateIsValid(d);
    DateFieldsOfDate(t);
    DateControlText(src, Date(t), d);
    DateStringReadsBack(d);
  }

  /** A date with a four-digit year put into a date control reads back as midnight (UTC) of
      its day. */
  lemma DateControlMidnight(src: Option<seq<SourceItem>>, t: int)
    requires 1000 <= Dates.RecOf(t).year <= 9999
    ensures Input2Value(DateInput, Value2Input(DateInput, src, Date(t))) == Date(t - t % Dates.MsPerDay)
  {
    Dates.RecOfTimeOf(t);
    DateControlRoundTrip(src, t);
    Dates.MidnightOfDay(t);
  }

  /** The `datetime-local` string of a showable date parses to the same minute. */
  lemma DateTimeStringReadsBack(d: Dates.DateRec)
    requires Dates.ShowableRec(d)
    ensures Input2Value(DateTimeInput, Typed(Dates.FormatDateTimeLocal(d)))
      == Date(Dates.TimeOf(d.(second := 0, ms := 0)))
  {
    ParseDateOfFormatDateTimeLocal(d);
  }

  /** A date put into a date-time control comes back truncated to the minute. */
  lemma DateTimeControlRoundTrip(src: Option<seq<SourceItem>>, t: int)
    requires Dates.ShowableRec(Dates.RecOf(t))
    ensures var d := Dates.RecOf(t);
      Input2Value(DateTimeInput, Value2Input(DateTimeInput, src, Date(t)))
        == Date(Dates.TimeOf(d.(second := 0, ms := 0)))
  {
    var d := Dates.RecOf(t);
    FormatDateTimeLocalIsValid(d);
    DateFieldsOfDate(t);
    DateTimeControlText(src, Date(t), d);
    DateTimeStringReadsBack(d);
  }

  /** A date with a four-digit year put into a date-time control reads back as the start
      of its minute. */
  lemma DateTimeControlMinute(src: Option<seq<SourceItem>>, t: int)
    requires 1000 <= Dates.RecOf(t).year <= 9999
    ensures Input2Value(DateTimeInput, Value2Input(DateTimeInput, src, Date(t))) == Date(t - t % 60000)
  {
    Dates.RecOfTimeOf(t);
    DateTimeControlRoundTrip(src, t);
    Dates.StartOfMinute(t);
  }

  /** A date whose year has fewer than four digits (or is not positive) is not a valid
      date string: the date and date-time controls reject it and read back as null. */
  lemma ShortYearControlIsEmpty(src: Option<seq<SourceItem>>, t: int)
    requires Dates.RecOf(t).year < 1000
    ensures Input2Value(DateInput, Value2Input(DateInput, src, Date(t))) == Null
    ensures Input2Value(DateTimeInput, Value2Input(DateTimeInput, src, Date(t))) == Null
  {
    Dates.RecOfTimeOf(t);
    var d := Dates.RecOf(t);
    ShortYearIsInvalid(d);
    DateFieldsOfDate(t);
    DateControlText(src, Date(t), d);
    DateTimeControlText(src, Date(t), d);
  }

  /** The displayed date reads back, through `str2value`, as midnight of the same day. */
  lemma DateDisplayRoundTrip(src: Option<seq<SourceItem>>, t: int)
    requires Dates.ShowableRec(Dates.RecOf(t))
    ensures var d := Dates.RecOf(t);
      Str2Value(DateInput, Value2Html(DateInput, src, Date(t)))
        == Date(Dates.TimeOf(d.(hour := 0, minute := 0, second := 0, ms := 0)))
  {
    var d := Dates.RecOf(t);
    assert DateFields(Date(t)) == Some(d);
    DateStringReadsBack(d);
    assert Value2Html(DateInput, src, Date(t)) == Str(Dates.FormatDate(d));
  }

  /** The displayed date of a four-digit year reads back as midnight (UTC) of its day. */
  lemma DateDisplayMidnight(src: Option<seq<SourceItem>>, t: int)
    requires 1000 <= Dates.RecOf(t).year <= 9999
    ensures Str2Value(DateInput, Value2Html(DateInput, src, Date(t))) == Date(t - t % Dates.MsPerDay)
  {
    Dates.RecOfTimeOf(t);
    DateDisplayRoundTrip(src, t);
    Dates.MidnightOfDay(t);
  }

  /** The date-time display text of a showable date reads back as the same minute. */
  lemma DateTimeTextReadsBack(d: Dates.DateRec)
    requires Dates.ShowableRec(d)
    ensures DateStr2Value(Str(Dates.FormatDateTime(d))) == Date(Dates.TimeOf(d.(second := 0, ms := 0)))
  {
    var s := Dates.FormatDateTime(d);
    Dates.ParseFormatDateTime(d);
    Dates.TimeOfShowableInRange(d.(second := 0, ms := 0));
    Dates.FormatDateShape(d);
    assert s != "";
    assert ToDate(Str(s)) == ParseDate(s);
  }

  /** The displayed date and time read back, through `str2value`, as the same minute. */
  lemma DateTimeDisplayRoundTrip(src: Option<seq<SourceItem>>, t: int)
    requires Dates.ShowableRec(Dates.RecOf(t))
    ensures var d := Dates.RecOf(t);
      Str2Value(DateTimeInput, Value2Html(DateTimeInput, src, Date(t)))
        == Date(Dates.TimeOf(d.(second := 0, ms := 0)))
  {
    var d := Dates.RecOf(t);
    assert DateFields(Date(t)) == Some(d);
    DateTimeTextReadsBack(d);
    assert Value2Html(DateTimeInput, src, Date(t)) == Str(Dates.FormatDateTime(d));
  }

  /** The displayed date and time of a four-digit year read back as the start of its minute. */
  lemma DateTimeDisplayMinute(src: Option<seq<SourceItem>>, t: int)
    requires 1000 <= Dates.RecOf(t).year <= 9999
    ensures Str2Value(DateTimeInput, Value2Html(DateTimeInput, src, Date(t))) == Date(t - t % 60000)
  {
    Dates.RecOfTimeOf(t);
    DateTimeDisplayRoundTrip(src, t);
    Dates.StartOfMinute(t);
  }

  /** A checklist reports only values that were selected: each item it reads back is the
      string of one of the selected values. */
  lemma ChecklistControlSound(src: seq<SourceItem>, v: Value)
    ensures forall x :: x in Input2Value(ChecklistInput, Value2Input(ChecklistInput, Some(src), v)).items ==>
      exists y :: y in SelectedValues(v) && x == Str(ToStr(y))
  {
    var c := Value2Input(ChecklistInput, Some(src), v);
    var r := Input2Value(ChecklistInput, c);
    forall x | x in r.items
      ensures exists y :: y in SelectedValues(v) && x == Str(ToStr(y))
    {
      var i :| 0 <= i < |r.items| && r.items[i] == x;
      var b :| 0 <= b < |c.boxes| && c.boxes[b] == (r.items[i].s, true);
      var vals := SelectedValues(v);
      assert Selects(vals, c.boxes[b].0);
      var j :| 0 <= j < |vals| && ToStr(vals[j]) == c.boxes[b].0;
      assert vals[j] in vals;
    }
  }

  /** Selecting every option's value checks every box, and reading the control back gives
      the same list. */
  lemma ChecklistControlAll(src: seq<SourceItem>)
    ensures var v := Arr(StrItems(seq(|src|, i requires 0 <= i < |src| => DomString(src[i].value))));
      Input2Value(ChecklistInput, Value2Input(ChecklistInput, Some(src), v)) == v
  {
    var names := seq(|src|, i requires 0 <= i < |src| => DomString(src[i].value));
    var v := Arr(StrItems(names));
    var c := Value2Input(ChecklistInput, Some(src), v);
    forall i | 0 <= i < |c.boxes| ensures c.boxes[i].1 {
      assert ToStr(SelectedValues(v)[i]) == names[i];
    }
    assert seq(|c.boxes|, j requires 0 <= j < |c.boxes| => c.boxes[j].0) == names;
    CheckedValuesOfAll(c.boxes);
  }
}

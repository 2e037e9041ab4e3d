/** JavaScript values as the editor handles them: committed field values, option sources,
    server responses and request bodies. Numbers are integer-valued; objects are ordered
    lists of properties in property-enumeration order, each key at most once. Strings are
    sequences of Unicode scalar values, not UTF-16 code units, so `length`, index reads and
    string spreads count code points. */
module JsValue {
  import opened Wrappers
  import opened Text
  import Dates

  datatype Value =
    | Undefined
    | Null
    | Bool(b: bool)
    | Num(n: int)
    | Str(s: string)
    | Arr(items: seq<Value>)
    | Obj(props: seq<(string, Value)>)
    | Date(time: int)
    | InvalidDate

  predicate IsNullish(v: Value) {
    v.Undefined? || v.Null?
  }

  /** JavaScript truthiness. */
  predicate Truthy(v: Value) {
    match v
    case Undefined => false
    case Null => false
    case Bool(b) => b
    case Num(n) => n != 0
    case Str(s) => s != ""
    case _ => true
  }

  /** `String(v)`. An array joins its elements with ",", writing null and undefined as "". */
  function ToStr(v: Value): string
    decreases v, 1
  {
    match v
    case Undefined => "undefined"
    case Null => "null"
    case Bool(b) => if b then "true" else "false"
    case Num(n) => IntToString(n)
    case Str(s) => s
    case Arr(items) => Join(ElemStrings(v, 0), ",")
    case Obj(_) => "[object Object]"
    case Date(t) => Dates.ToDateString(t)
    case InvalidDate => "Invalid Date"
  }

  /** The strings `Array.prototype.join` writes for `a.items[i..]`. */
  function ElemStrings(a: Value, i: nat): (r: seq<string>)
    requires a.Arr? && i <= |a.items|
    ensures |r| == |a.items| - i
    decreases a, 0, |a.items| - i
  {
    if i == |a.items| then []
    else [if IsNullish(a.items[i]) then "" else ToStr(a.items[i])] + ElemStrings(a, i + 1)
  }

  /** What assigning `v` to `innerHTML`, `textContent` or an input's `value` stores:
      `null` becomes the empty string, anything else goes through `String`. */
  function DomString(v: Value): string {
    if v.Null? then "" else ToStr(v)
  }

  /** What assigning `v` to `textContent` stores: `null` and `undefined` become the empty
      string, anything else goes through `String`. */
  function TextContent(v: Value): string {
    if IsNullish(v) then "" else ToStr(v)
  }

  /** The value of the first property named `key`. */
  function Lookup(props: seq<(string, Value)>, key: string): (r: Option<Value>)
    ensures r.Some? <==> exists k :: 0 <= k < |props| && props[k].0 == key
    ensures r.Some? ==> exists k :: 0 <= k < |props| && props[k] == (key, r.value)
  {
    if |props| == 0 then None
    else if props[0].0 == key then Some(props[0].1)
    else Lookup(props[1..], key)
  }

  /** Whether `k` is a canonical array index string ("0", "1", ..., no leading zeros). */
  predicate IsIndexKey(k: string) {
    |k| >= 1 && AllDigits(k) && (k[0] != '0' || |k| == 1)
  }

  /** The property read `v[key]`, for own data properties: object properties, array and
      string elements and their `length`. Everything else reads as `undefined`. */
  function Get(v: Value, key: string): Value {
    match v
    case Obj(props) => (match Lookup(props, key) case Some(x) => x case None => Undefined)
    case Arr(items) =>
      if key == "length" then Num(|items|)
      else if IsIndexKey(key) && ParseDigits(key) < |items| then items[ParseDigits(key)]
      else Undefined
    case Str(s) =>
      if key == "length" then Num(|s|)
      else if IsIndexKey(key) && ParseDigits(key) < |s| then Str([s[ParseDigits(key)]])
      else Undefined
    case _ => Undefined
  }

  /** The tree `JSON.stringify` writes. */
  datatype Json = JNull | JBool(b: bool) | JNum(n: int) | JStr(s: string) | JArr(elems: seq<Json>) | JObj(members: seq<(string, Json)>)

  /** The JSON tree of `v`, or `None` where `JSON.stringify(v)` is `undefined`. Undefined
      object members are dropped, undefined array elements become null, a date becomes its
      ISO string and an invalid date becomes null. */
  function JsonOf(v: Value): Option<Json>
    decreases v, 1
  {
    match v
    case Undefined => None
    case Null => Some(JNull)
    case Bool(b) => Some(JBool(b))
    case Num(n) => Some(JNum(n))
    case Str(s) => Some(JStr(s))
    case Arr(_) => Some(JArr(JsonElems(v, 0)))
    case Obj(_) => Some(JObj(JsonMembers(v, 0)))
    case Date(t) => Some(JStr(Dates.ToIsoString(t)))
    case InvalidDate => Some(JNull)
  }

  function JsonElems(a: Value, i: nat): (r: seq<Json>)
    requires a.Arr? && i <= |a.items|
    ensures |r| == |a.items| - i
    decreases a, 0, |a.items| - i
  {
    if i == |a.items| then []
    else [match JsonOf(a.items[i]) case Some(j) => j case None => JNull] + JsonElems(a, i + 1)
  }

  function JsonMembers(o: Value, i: nat): seq<(string, Json)>
    requires o.Obj? && i <= |o.props|
    decreases o, 0, |o.props| - i
  {
    if i == |o.props| then []
    else
      var rest := JsonMembers(o, i + 1);
      match JsonOf(o.props[i].1)
      case Some(j) => [(o.props[i].0, j)] + rest
      case None => rest
  }

  /** `JSON.stringify(a) === JSON.stringify(b)`. JSON text is an injective encoding of JSON
      trees, so comparing the trees compares the strings. */
  predicate SameJson(a: Value, b: Value) {
    JsonOf(a) == JsonOf(b)
  }

  /** `obj[key] = v` on an ordinary object: an existing key keeps its place and takes the new
      value, a new key goes last. */
  function SetProp(props: seq<(string, Value)>, key: string, v: Value): (r: seq<(string, Value)>)
    ensures |r| == |props| + (if Lookup(props, key).Some? then 0 else 1)
    ensures forall k :: 0 <= k < |props| ==> r[k].0 == props[k].0
    ensures Lookup(r, key) == Some(v)
    ensures forall k :: k != key ==> Lookup(r, k) == Lookup(props, k)
  {
    if |props| == 0 then [(key, v)]
    else if props[0].0 == key then [(key, v)] + props[1..]
    else [props[0]] + SetProp(props[1..], key, v)
  }

  /** The own enumerable properties object spread (`{...v}`) copies from `v`. */
  function OwnEntries(v: Value): seq<(string, Value)> {
    match v
    case Obj(props) => props
    case Arr(items) => seq(|items|, i requires 0 <= i < |items| => (NatToString(i), items[i]))
    case Str(s) => seq(|s|, i requires 0 <= i < |s| => (NatToString(i), Str([s[i]])))
    case _ => []
  }

  /** `{...base, ...entries}` for the entries taken from a spread source, in order. */
  function Assign(base: seq<(string, Value)>, entries: seq<(string, Value)>): (r: seq<(string, Value)>)
    ensures forall k :: Lookup(entries, k).None? ==> Lookup(r, k) == Lookup(base, k)
    decreases |entries|
  {
    if |entries| == 0 then base
    else Assign(SetProp(base, entries[0].0, entries[0].1), entries[1..])
  }

  /** Keys set by a spread come out with the value of their last occurrence in the spread. */
  lemma {:induction false} AssignOverrides(base: seq<(string, Value)>, entries: seq<(string, Value)>, k: string)
    requires Lookup(entries, k).Some?
    ensures Lookup(Assign(base, entries), k) == LastValue(entries, k)
    decreases |entries|
  {
    var b' := SetProp(base, entries[0].0, entries[0].1);
    assert Assign(base, entries) == Assign(b', entries[1..]);
    if Lookup(entries[1..], k).Some? {
      AssignOverrides(b', entries[1..], k);
      LastValueSome(entries[1..], k);
    } else {
      LastValueNone(entries[1..], k);
      assert entries[0].0 == k;
      assert Lookup(b', k) == Some(entries[0].1);
    }
  }

  /** The value a key ends up with when entries are assigned in order: the last one wins. */
  function LastValue(entries: seq<(string, Value)>, k: string): Option<Value>
    decreases |entries|
  {
    if |entries| == 0 then None
    else match LastValue(entries[1..], k)
      case Some(x) => Some(x)
      case None => if entries[0].0 == k then Some(entries[0].1) else None
  }

  lemma {:induction false} LastValueNone(entries: seq<(string, Value)>, k: string)
    requires Lookup(entries, k).None?
    ensures LastValue(entries, k).None?
    decreases |entries|
  {
    if |entries| > 0 {
      LastValueNone(entries[1..], k);
    }
  }

  lemma {:induction false} LastValueSome(entries: seq<(string, Value)>, k: string)
    requires Lookup(entries, k).Some?
    ensures LastValue(entries, k).Some?
    decreases |entries|
  {
    if entries[0].0 != k {
      LastValueSome(entries[1..], k);
    } else if Lookup(entries[1..], k).Some? {
      LastValueSome(entries[1..], k);
    }
  }

  /** With keys listed once, as in any JavaScript object, the last occurrence is the only one. */
  lemma {:induction false} LastValueOfUnique(entries: seq<(string, Value)>, k: string)
    requires forall i, j :: 0 <= i < j < |entries| ==> entries[i].0 != entries[j].0
    ensures LastValue(entries, k) == Lookup(entries, k)
    decreases |entries|
  {
    if |entries| > 0 {
      LastValueOfUnique(entries[1..], k);
      if entries[0].0 == k {
        assert forall j :: 0 <= j < |entries[1..]| ==> entries[1..][j].0 != k by {
          forall j | 0 <= j < |entries[1..]| ensures entries[1..][j].0 != k {
            assert entries[1..][j] == entries[j + 1];
          }
        }
        LookupAbsent(entries[1..], k);
      }
    }
  }

  lemma {:induction false} LookupAbsent(entries: seq<(string, Value)>, k: string)
    requires forall j :: 0 <= j < |entries| ==> entries[j].0 != k
    ensures Lookup(entries, k).None?
  {
  }

  /** `Number(s)` on a string: surrounding spaces are ignored, a blank string is 0, and an
      optional sign followed by decimal digits is that integer. Anything else is NaN. */
  function ParseNumber(s: string): (r: Option<int>)
    ensures IsBlank(s) ==> r == Some(0)
  {
    TrimEmptyIffBlank(s);
    var t := Trim(s);
    if |t| == 0 then Some(0)
    else if (t[0] == '+' || t[0] == '-') && |t| >= 2 && AllDigits(t[1..]) then
      var d: int := ParseDigits(t[1..]);
      Some(if t[0] == '-' then -d else d)
    else if AllDigits(t) then Some(ParseDigits(t))
    else None
  }

  /** `Number(v)`, with `None` for NaN. */
  function ToNumber(v: Value): Option<int> {
    match v
    case Undefined => None
    case Null => Some(0)
    case Bool(b) => Some(if b then 1 else 0)
    case Num(n) => Some(n)
    case Str(s) => ParseNumber(s)
    case Arr(_) => ParseNumber(ToStr(v))
    case Obj(_) => None
    case Date(t) => Some(t)
    case InvalidDate => None
  }

  /** The time value of `v instanceof Date ? v : new Date(v)`, or `None` for an invalid date. */
  function ToDate(v: Value): (r: Option<int>)
    ensures r.Some? ==> Dates.InTimeRange(r.value) || v.Date?
  {
    match v
    case Date(t) => Some(t)
    case InvalidDate => None
    case Str(s) => ParseDate(s)
    case Arr(_) => ParseDate(ToStr(v))
    case Obj(_) => None
    case Undefined => None
    case Null => Some(0)
    case Bool(b) => Some(if b then 1 else 0)
    case Num(n) => if Dates.InTimeRange(n) then Some(n) else None
  }

  function ParseDate(s: string): (r: Option<int>)
    ensures r.Some? ==> Dates.InTimeRange(r.value)
  {
    match Dates.ParseDateString(s)
    case Some(t) => if Dates.InTimeRange(t) then Some(t) else None
    case None => None
  }

  /** The value `new Date(s)` evaluates to. */
  function NewDate(s: string): (r: Value)
    ensures r.Date? || r == InvalidDate
  {
    match ParseDate(s)
    case Some(t) => Date(t)
    case None => InvalidDate
  }

  // ---- properties ----

  lemma DigitIsNotSpace(c: char)
    requires IsDigit(c) || c == '-'
    ensures !IsSpace(c)
  {
  }

  /** Writing an integer and reading it back with `Number` gives the integer. */
  lemma {:induction false} ParseNumberOfIntToString(n: int)
    ensures ParseNumber(IntToString(n)) == Some(n)
  {
    var s := IntToString(n);
    var m: nat := if n >= 0 then n else -n;
    ParseNatToString(m);
    var digits := NatToString(m);
    DigitIsNotSpace(s[0]);
    DigitIsNotSpace(s[|s| - 1]);
    assert IsTrimmed(s);
    TrimOfTrimmed(s);
    assert Trim(s) == s;
    if n < 0 {
      assert s == "-" + digits;
      assert s[1..] == digits;
    } else {
      assert s == digits;
      assert s[0] != '+' && s[0] != '-';
    }
  }

  /** Values that serialise alike: identical values do, and so do values differing only in
      where `undefined` stands in for `null` inside arrays. */
  lemma {:induction false} ElemsWithNullAt(a: Value, k: nat, i: nat)
    requires a.Arr? && k < |a.items| && a.items[k] == Undefined && i <= |a.items|
    ensures JsonElems(a, i) == JsonElems(Arr(a.items[k := Null]), i)
    decreases |a.items| - i
  {
    if i < |a.items| {
      ElemsWithNullAt(a, k, i + 1);
    }
  }

  /** `JSON.stringify` writes an undefined array item as `null`. */
  lemma UndefinedItemIsNull(items: seq<Value>, k: nat)
    requires k < |items| && items[k] == Undefined
    ensures SameJson(Arr(items), Arr(items[k := Null]))
  {
    ElemsWithNullAt(Arr(items), k, 0);
  }

  /** The members from `i` on depend only on the properties from `i` on. */
  lemma {:induction false} MembersOfSuffix(p: seq<(string, Value)>, q: seq<(string, Value)>, i: nat, j: nat)
    requires i <= |p| && j <= |q| && p[i..] == q[j..]
    ensures JsonMembers(Obj(p), i) == JsonMembers(Obj(q), j)
    decreases |p| - i
  {
    if i < |p| {
      assert p[i] == p[i..][0] && q[j] == q[j..][0];
      assert p[i + 1..] == p[i..][1..] && q[j + 1..] == q[j..][1..];
      MembersOfSuffix(p, q, i + 1, j + 1);
    }
  }

  lemma {:induction false} MembersWithout(pre: seq<(string, Value)>, m: (string, Value), post: seq<(string, Value)>, i: nat)
    requires m.1 == Undefined && i <= |pre|
    ensures JsonMembers(Obj(pre + [m] + post), i) == JsonMembers(Obj(pre + post), i)
    decreases |pre| - i
  {
    var p := pre + [m] + post;
    if i == |pre| {
      assert p[i] == m;
      assert p[|pre| + 1..] == post == (pre + post)[|pre|..];
      MembersOfSuffix(p, pre + post, |pre| + 1, |pre|);
    } else {
      assert p[i] == (pre + post)[i];
      MembersWithout(pre, m, post, i + 1);
    }
  }

  /** `JSON.stringify` leaves out an object member whose value is undefined. */
  lemma UndefinedMemberIsDropped(pre: seq<(string, Value)>, key: string, post: seq<(string, Value)>)
    ensures SameJson(Obj(pre + [(key, Undefined)] + post), Obj(pre + post))
  {
    MembersWithout(pre, (key, Undefined), post, 0);
  }
}

/** `getValueByPath`: reading a dotted property path out of a response object. */
module Paths {
  import opened Text
  import opened JsValue

  /** Follows the keys one by one; reaching `null` or `undefined` before the keys run out
      gives `null`. */
  function Walk(cur: Value, keys: seq<string>): (r: Value)
    ensures |keys| == 0 ==> r == cur
    ensures |keys| > 0 && IsNullish(cur) ==> r == Null
    decreases |keys|
  {
    if |keys| == 0 then cur
    else if IsNullish(cur) then Null
    else Walk(Get(cur, keys[0]), keys[1..])
  }

  /** `getValueByPath(obj, path)`: `null` for a falsy object or an empty path. */
  function GetValueByPath(obj: Value, path: string): (r: Value)
    ensures !Truthy(obj) || path == "" ==> r == Null
  {
    if !Truthy(obj) || path == "" then Null else Walk(obj, Split(path, '.'))
  }

  // ---- properties ----

  /** Following `a` then `b` is following `a + b`: an early `null` stays `null`. */
  lemma {:induction false} WalkConcat(cur: Value, a: seq<string>, b: seq<string>)
    ensures Walk(cur, a + b) == Walk(Walk(cur, a), b)
    decreases |a|
  {
    if |a| == 0 {
      assert a + b == b;
    } else if IsNullish(cur) {
      assert Walk(cur, a) == Null;
    } else {
      assert (a + b)[1..] == a[1..] + b;
      WalkConcat(Get(cur, a[0]), a[1..], b);
    }
  }

  /** A path `a.b` reads `b` out of whatever `a` reads, except that a missing or null
      intermediate value reads as `null`. */
  lemma {:induction false} PathComposition(obj: Value, a: string, b: string)
    requires Truthy(obj) && a != ""
    ensures var mid := GetValueByPath(obj, a);
      GetValueByPath(obj, a + "." + b) == (if IsNullish(mid) then Null else Walk(mid, Split(b, '.')))
  {
    SplitConcat(a, '.', b);
    WalkConcat(obj, Split(a, '.'), Split(b, '.'));
  }

  /** A path with no dot reads that one property. */
  lemma {:induction false} SingleKeyPath(obj: Value, key: string)
    requires Truthy(obj) && key != "" && '.' !in key
    ensures GetValueByPath(obj, key) == Get(obj, key)
  {
    SplitOfPiece(key, '.');
  }
}

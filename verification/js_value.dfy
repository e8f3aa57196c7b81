/**
  The JavaScript values that the search layer receives from `response.json()`
  and from `JSON.parse`, together with the few pieces of JavaScript semantics
  that the normalisers lean on: truthiness, `||`, property access with and
  without optional chaining, `Object.keys`, conversion to a string and
  `Array.prototype.filter`.
*/
module JsValue {

  /** The result of a JavaScript call: it returns a value or it throws. */
  datatype Outcome<+T> = Returned(value: T) | Threw

  datatype Option<+T> = None | Some(value: T)

  /**
    A decoded JSON value, plus `undefined` (what a missing property reads as).
    Numbers are integers. The pairs of an object are listed in the order
    `Object.keys` reports, without a repeated key (`WellFormedFields`), so the
    first pair is the first key and a key's only pair is its value.
  */
  datatype Value =
    | Undefined
    | Null
    | Bool(b: bool)
    | Num(n: int)
    | Str(s: string)
    | Arr(items: seq<Value>)
    | Obj(fields: seq<(string, Value)>)

  /** `null` and `undefined`: reading a property of these throws. */
  predicate Nullish(v: Value) {
    v.Undefined? || v.Null?
  }

  /** JavaScript truthiness: `undefined`, `null`, `false`, `0` and `""` are falsy. */
  predicate Truthy(v: Value) {
    match v
    case Undefined => false
    case Null => false
    case Bool(b) => b
    case Num(n) => n != 0
    case Str(s) => s != ""
    case Arr(_) => true
    case Obj(_) => true
  }

  /** JavaScript `a || b`. */
  function Or(a: Value, b: Value): (r: Value)
    ensures Truthy(a) ==> r == a
    ensures !Truthy(a) ==> r == b
  {
    if Truthy(a) then a else b
  }

  /** The value of the first pair named `k`, or `undefined`. */
  function Lookup(fields: seq<(string, Value)>, k: string): (r: Value)
    ensures r != Undefined ==> exists i :: 0 <= i < |fields| && fields[i] == (k, r)
  {
    if |fields| == 0 then Undefined
    else if fields[0].0 == k then fields[0].1
    else Lookup(fields[1..], k)
  }

  predicate IsDigit(c: char) {
    '0' <= c <= '9'
  }

  function DigitValue(c: char): nat
    requires IsDigit(c)
  {
    c as int - '0' as int
  }

  /** The number a string of decimal digits denotes. */
  function DecimalValue(k: string): nat
    requires forall i | 0 <= i < |k| :: IsDigit(k[i])
  {
    if |k| == 0 then 0
    else DecimalValue(k[..|k| - 1]) * 10 + DigitValue(k[|k| - 1])
  }

  /** The array index a property name denotes: canonical decimal digits, no leading zero. */
  function ArrayIndex(k: string): Option<nat> {
    if k == "0" then Some(0)
    else if |k| > 0 && '1' <= k[0] <= '9' && forall i | 0 <= i < |k| :: IsDigit(k[i])
    then Some(DecimalValue(k))
    else None
  }

  /** A property name that is an array index, 0 to 2^32 - 2: `Object.keys` lists these first. */
  predicate IndexKey(k: string) {
    ArrayIndex(k).Some? && ArrayIndex(k).value < 0xFFFF_FFFF
  }

  /**
    The pairs of an object as `JSON.parse` builds it, listed in the order
    `Object.keys` reports: no key twice (a repeated key keeps its last
    value), and the array-index keys ahead of all others, in ascending
    numeric order. The other keys keep the order of the text.
  */
  predicate WellFormedFields(fields: seq<(string, Value)>) {
    && (forall i, j | 0 <= i < j < |fields| :: fields[i].0 != fields[j].0)
    && (forall i, j | 0 <= i < j < |fields| && IndexKey(fields[j].0) ::
          IndexKey(fields[i].0) && ArrayIndex(fields[i].0).value < ArrayIndex(fields[j].0).value)
  }

  /** With distinct keys the pair named `k` is the only one, so the first pair and the last agree. */
  lemma {:induction false} LookupUnique(fields: seq<(string, Value)>, i: nat)
    requires WellFormedFields(fields)
    requires i < |fields|
    ensures Lookup(fields, fields[i].0) == fields[i].1
  {
    if i > 0 {
      assert fields[0].0 != fields[i].0;
      assert fields[1..][i - 1] == fields[i];
      LookupUnique(fields[1..], i - 1);
    }
  }

  /**
    Numeric page ids are listed in ascending order whatever order the text
    gives them in: `{"123": …, "45": …}` enumerates `"45"` first.
  */
  lemma {:induction false} IndexKeysAscend(a: Value, b: Value)
    ensures !WellFormedFields([("123", a), ("45", b)])
    ensures WellFormedFields([("45", b), ("123", a)])
  {
    assert "123"[..2] == "12" && "12"[..1] == "1" && "1"[..0] == "";
    assert DecimalValue("123") == 123;
    assert ArrayIndex("123") == Some(123);
    assert "45"[..1] == "4" && "4"[..0] == "";
    assert ArrayIndex("45") == Some(45);
    var fields := [("123", a), ("45", b)];
    assert IndexKey(fields[1].0) && !(ArrayIndex(fields[0].0).value < ArrayIndex(fields[1].0).value);
  }

  /**
    `v[k]` (and `v.k`) on a value that is not `null` or `undefined`.
    Properties inherited from a prototype (methods such as `toString`) are not
    modelled: every name other than `length` and an index reads as `undefined`
    on a primitive or an array.
  */
  function Prop(v: Value, k: string): (r: Value)
    requires !Nullish(v)
    ensures v.Obj? ==> r == Lookup(v.fields, k)
    ensures v.Bool? || v.Num? ==> r == Undefined
  {
    match v
    case Bool(_) => Undefined
    case Num(_) => Undefined
    case Str(s) =>
      if k == "length" then Num(|s|)
      else (match ArrayIndex(k)
            case Some(i) => if i < |s| then Str([s[i]]) else Undefined
            case None => Undefined)
    case Arr(items) =>
      if k == "length" then Num(|items|)
      else (match ArrayIndex(k)
            case Some(i) => if i < |items| then items[i] else Undefined
            case None => Undefined)
    case Obj(fields) => Lookup(fields, k)
  }

  /** Optional chaining `v?.[k]`: `undefined` when `v` is `null` or `undefined`. */
  function Chain(v: Value, k: string): (r: Value)
    ensures Nullish(v) ==> r == Undefined
  {
    if Nullish(v) then Undefined else Prop(v, k)
  }

  function NatToString(n: nat): (r: string)
    ensures |r| > 0
    ensures forall i | 0 <= i < |r| :: IsDigit(r[i])
    decreases n
  {
    var d := ['0' + ((n % 10) as char)];
    if n < 10 then d else NatToString(n / 10) + d
  }

  /** The decimal form of an integer, as `String(n)` writes it. */
  function IntToString(n: int): string {
    if n < 0 then "-" + NatToString(-n) else NatToString(n)
  }

  /** `String(v)`; for arrays, `Array.prototype.join` with `,`, where `null` and `undefined` items give `""`. */
  function ToJsString(v: Value): string
    decreases v, 1
  {
    match v
    case Undefined => "undefined"
    case Null => "null"
    case Bool(b) => if b then "true" else "false"
    case Num(n) => IntToString(n)
    case Str(s) => s
    case Obj(_) => "[object Object]"
    case Arr(items) => JoinItems(v, items)
  }

  function JoinItems(v: Value, items: seq<Value>): string
    requires forall i | 0 <= i < |items| :: items[i] < v
    decreases v, 0, |items|
  {
    if |items| == 0 then ""
    else
      var last := items[|items| - 1];
      var text := if Nullish(last) then "" else ToJsString(last);
      if |items| == 1 then text
      else
        JoinItems(v, items[..|items| - 1]) + "," + text
  }

  /** `Object.keys(v)` for a value that is not `null` or `undefined`. */
  function OwnKeys(v: Value): (keys: seq<string>)
    requires !Nullish(v)
    ensures v.Obj? ==> |keys| == |v.fields| && forall i | 0 <= i < |keys| :: keys[i] == v.fields[i].0
    ensures v.Bool? || v.Num? ==> keys == []
  {
    match v
    case Obj(fields) => Names(fields)
    case Arr(items) => IndexNames(|items|)
    case Str(s) => IndexNames(|s|)
    case _ => []
  }

  function Names(fields: seq<(string, Value)>): (keys: seq<string>)
    ensures |keys| == |fields| && forall i | 0 <= i < |keys| :: keys[i] == fields[i].0
  {
    if |fields| == 0 then [] else Names(fields[..|fields| - 1]) + [fields[|fields| - 1].0]
  }

  /** The index names "0", "1", ..., of an array or string of length `n`. */
  function IndexNames(n: nat): (keys: seq<string>)
    ensures |keys| == n
  {
    if n == 0 then [] else IndexNames(n - 1) + [NatToString(n - 1)]
  }

  /** `Array.prototype.filter` with a side-effect-free callback. */
  function Filter<T>(xs: seq<T>, keep: T -> bool): (r: seq<T>)
    ensures |r| <= |xs|
    ensures forall x | x in r :: x in xs && keep(x)
  {
    if |xs| == 0 then []
    else if keep(xs[0]) then [xs[0]] + Filter(xs[1..], keep)
    else Filter(xs[1..], keep)
  }

  /**
    `Array.prototype.map` with a callback that may throw: the call returns
    one result per element, in order, unless some callback throws.
  */
  function MapAll<A, B>(xs: seq<A>, f: A -> Outcome<B>): (r: Outcome<seq<B>>)
    ensures r.Returned? <==> forall i | 0 <= i < |xs| :: f(xs[i]).Returned?
    ensures r.Returned? ==> |r.value| == |xs|
    ensures r.Returned? ==> forall i | 0 <= i < |xs| :: f(xs[i]) == Returned(r.value[i])
  {
    if |xs| == 0 then Returned([])
    else match f(xs[0])
      case Threw => Threw
      case Returned(y) =>
        match MapAll(xs[1..], f)
        case Threw => Threw
        case Returned(ys) => Returned([y] + ys)
  }

  /** Filtering keeps exactly the elements the callback accepts. */
  lemma {:induction false} FilterMember<T>(xs: seq<T>, keep: T -> bool, x: T)
    ensures x in Filter(xs, keep) <==> x in xs && keep(x)
  {
    if |xs| > 0 {
      FilterMember(xs[1..], keep, x);
      assert xs == [xs[0]] + xs[1..];
    }
  }

  /** Filtering distributes over concatenation, so it keeps the elements' relative order. */
  lemma {:induction false} FilterAppend<T>(xs: seq<T>, ys: seq<T>, keep: T -> bool)
    ensures Filter(xs + ys, keep) == Filter(xs, keep) + Filter(ys, keep)
  {
    if |xs| == 0 {
      assert xs + ys == ys;
    } else {
      assert (xs + ys)[1..] == xs[1..] + ys;
      FilterAppend(xs[1..], ys, keep);
    }
  }

  /** A filtered sequence: membership, order across any split, and every kept element passes. */
  lemma {:induction false} FilterSpec<T>(xs: seq<T>, keep: T -> bool)
    ensures forall x | x in xs :: x in Filter(xs, keep) <==> keep(x)
    ensures forall k | 0 <= k <= |xs| :: Filter(xs, keep) == Filter(xs[..k], keep) + Filter(xs[k..], keep)
  {
    forall x | x in xs ensures x in Filter(xs, keep) <==> keep(x) {
      FilterMember(xs, keep, x);
    }
    forall k | 0 <= k <= |xs| ensures Filter(xs, keep) == Filter(xs[..k], keep) + Filter(xs[k..], keep) {
      FilterAppend(xs[..k], xs[k..], keep);
      assert xs[..k] + xs[k..] == xs;
    }
  }

  /** Filtering a sequence whose elements all pass gives it back unchanged. */
  lemma {:induction false} FilterAllKept<T>(xs: seq<T>, keep: T -> bool)
    requires forall i | 0 <= i < |xs| :: keep(xs[i])
    ensures Filter(xs, keep) == xs
  {
    if |xs| > 0 {
      FilterAllKept(xs[1..], keep);
    }
  }

  /** Filtering out the one element the callback rejects removes exactly that element. */
  lemma {:induction false} FilterDropsOne<T>(xs: seq<T>, keep: T -> bool, k: nat)
    requires k < |xs| && !keep(xs[k])
    requires forall i | 0 <= i < |xs| && i != k :: keep(xs[i])
    ensures Filter(xs, keep) == xs[..k] + xs[k + 1..]
    decreases k
  {
    var tail := xs[1..];
    if k == 0 {
      forall i | 0 <= i < |tail| ensures keep(tail[i]) {
        assert tail[i] == xs[i + 1];
      }
      FilterAllKept(tail, keep);
    } else {
      forall i | 0 <= i < |tail| && i != k - 1 ensures keep(tail[i]) {
        assert tail[i] == xs[i + 1];
      }
      FilterDropsOne(tail, keep, k - 1);
      SpliceFirst(xs, k);
    }
  }

  lemma {:induction false} SpliceFirst<T>(xs: seq<T>, k: nat)
    requires 0 < k < |xs|
    ensures xs[..k] + xs[k + 1..] == [xs[0]] + (xs[1..][..k - 1] + xs[1..][k..])
  {
    assert xs[..k] == [xs[0]] + xs[1..][..k - 1];
    assert xs[k + 1..] == xs[1..][k..];
  }

  /** Elements that occur once at most. */
  predicate NoDuplicates<T(==)>(xs: seq<T>) {
    forall i, j | 0 <= i < j < |xs| :: xs[i] != xs[j]
  }

  /** Filtering a duplicate-free sequence gives a duplicate-free sequence. */
  lemma {:induction false} FilterNoDuplicates<T>(xs: seq<T>, keep: T -> bool)
    requires NoDuplicates(xs)
    ensures NoDuplicates(Filter(xs, keep))
  {
    if |xs| > 0 {
      var rest := Filter(xs[1..], keep);
      FilterNoDuplicates(xs[1..], keep);
      if keep(xs[0]) {
        assert xs[0] !in xs[1..];
        var r := [xs[0]] + rest;
        forall i, j | 0 <= i < j < |r| ensures r[i] != r[j] {
          if i == 0 {
            assert r[j] in rest;
          }
        }
      }
    }
  }
}

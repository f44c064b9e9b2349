/**
 * The JavaScript values the message helpers inspect, the type guards they
 * apply (`typeof`, `Array.isArray`, `Object.prototype.toString`), truthiness
 * and the `||`/`??` operators, and the `.map(f).filter(Boolean)` idiom.
 */
module JsValues {
  import opened Wrappers

  /**
   * A JavaScript value. `Obj` is any non-array object; `tag` is what
   * `Object.prototype.toString` reports between `[object ` and `]`
   * (`Object` for plain objects and class instances, `Date`, `Function`, ...).
   */
  datatype JsValue =
    | Undefined
    | Null
    | Bool(b: bool)
    | Num(n: real)
    | NaN
    | Str(s: string)
    | Arr(items: seq<JsValue>)
    | Obj(fields: map<string, JsValue>, tag: string)

  /** `Boolean(v)`: false exactly for `undefined`, `null`, `false`, `0`, `NaN` and `""`. */
  predicate Truthy(v: JsValue) {
    match v
    case Undefined => false
    case Null => false
    case Bool(b) => b
    case Num(n) => n != 0.0
    case NaN => false
    case Str(s) => s != []
    case Arr(_) => true
    case Obj(_, _) => true
  }

  /** `Object.prototype.toString.call(v) === '[object Object]'`. */
  predicate IsPlainObject(v: JsValue) {
    v.Obj? && v.tag == "Object"
  }

  /** `v?.[key]` for an own data property; anything that is not an object with that key reads as `undefined`. */
  function Get(v: JsValue, key: string): (r: JsValue)
    ensures !v.Obj? ==> r == Undefined
  {
    if v.Obj? && key in v.fields then v.fields[key] else Undefined
  }

  /** `a || b`. */
  function Or(a: JsValue, b: JsValue): (r: JsValue)
    ensures Truthy(r) <==> Truthy(a) || Truthy(b)
    ensures r == a || r == b
  {
    if Truthy(a) then a else b
  }

  /** `a ?? b`. */
  function Nullish(a: JsValue, b: JsValue): (r: JsValue)
    ensures (r.Undefined? || r.Null?) ==> r == b
    ensures !(a.Undefined? || a.Null?) ==> r == a
  {
    if a.Undefined? || a.Null? then b else a
  }

  /** A string value that is not empty: what `typeof x === 'string'` followed by a truthiness test accepts. */
  predicate NonEmptyStr(v: JsValue) {
    v.Str? && v.s != []
  }

  // ---------------------------------------------------------------------------
  // xs.map(f).filter(Boolean), for an f whose results are objects or null
  // ---------------------------------------------------------------------------

  /** The results of `f` that are not `null`, in order. */
  function FilterMap<A, B>(xs: seq<A>, f: A -> Option<B>): (r: seq<B>)
    ensures |r| <= |xs|
  {
    if xs == [] then [] else (if f(xs[0]).Some? then [f(xs[0]).value] else []) + FilterMap(xs[1..], f)
  }

  /** The idiom distributes over concatenation: it keeps the order of what it keeps. */
  lemma {:induction false} FilterMapAppend<A, B>(xs: seq<A>, ys: seq<A>, f: A -> Option<B>)
    ensures FilterMap(xs + ys, f) == FilterMap(xs, f) + FilterMap(ys, f)
  {
    if xs == [] {
      assert xs + ys == ys;
    } else {
      var head := if f(xs[0]).Some? then [f(xs[0]).value] else [];
      assert (xs + ys)[0] == xs[0] && (xs + ys)[1..] == xs[1..] + ys;
      assert FilterMap(xs + ys, f) == head + FilterMap(xs[1..] + ys, f);
      assert FilterMap(xs, f) == head + FilterMap(xs[1..], f);
      FilterMapAppend(xs[1..], ys, f);
    }
  }

  /** Every result comes from an element, and every element with a result contributes it. */
  lemma {:induction false} FilterMapMembers<A, B>(xs: seq<A>, f: A -> Option<B>)
    ensures forall y :: y in FilterMap(xs, f) <==> exists i :: 0 <= i < |xs| && f(xs[i]) == Some(y)
  {
    if xs != [] {
      FilterMapMembers(xs[1..], f);
      forall y ensures y in FilterMap(xs, f) <==> exists i :: 0 <= i < |xs| && f(xs[i]) == Some(y) {
        if y in FilterMap(xs[1..], f) {
          var i :| 0 <= i < |xs[1..]| && f(xs[1..][i]) == Some(y);
          assert f(xs[i + 1]) == Some(y);
        }
        if exists i :: 0 <= i < |xs| && f(xs[i]) == Some(y) {
          var i :| 0 <= i < |xs| && f(xs[i]) == Some(y);
          if i > 0 {
            assert f(xs[1..][i - 1]) == Some(y);
          }
        }
      }
    }
  }

  /** The number of elements with a result. */
  function CountSome<A, B>(xs: seq<A>, f: A -> Option<B>): nat {
    if xs == [] then 0 else (if f(xs[0]).Some? then 1 else 0) + CountSome(xs[1..], f)
  }

  /** One output per element with a result. */
  lemma {:induction false} FilterMapLength<A, B>(xs: seq<A>, f: A -> Option<B>)
    ensures |FilterMap(xs, f)| == CountSome(xs, f)
  {
    if xs != [] {
      FilterMapLength(xs[1..], f);
    }
  }

  /** `xs.map(g)`. */
  function MapSeq<A, B>(xs: seq<A>, g: A -> B): (r: seq<B>)
    ensures |r| == |xs| && forall i :: 0 <= i < |xs| ==> r[i] == g(xs[i])
  {
    seq(|xs|, i requires 0 <= i < |xs| => g(xs[i]))
  }

  /** When every element has a result, nothing is dropped. */
  lemma {:induction false} FilterMapTotal<A, B>(xs: seq<A>, f: A -> Option<B>, g: A -> B)
    requires forall i :: 0 <= i < |xs| ==> f(xs[i]) == Some(g(xs[i]))
    ensures FilterMap(xs, f) == MapSeq(xs, g)
  {
    if xs != [] {
      FilterMapTotal(xs[1..], f, g);
      assert MapSeq(xs, g) == [g(xs[0])] + MapSeq(xs[1..], g);
    }
  }
}

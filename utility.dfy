/** Small helpers shared by the parser, the renderer and the hint resolver:
    the `{ok, value}` / `{ok: false, message}` result objects, floor division,
    one-level flattening, max/min and `getFirst`. */
module Utility {

  datatype Option<+T> = None | Some(value: T)

  /** `Ok(value)` is the object `{ok: true, value}`; `Fail(message)` is `{ok: false, message}`. */
  datatype Result<+T> = Ok(value: T) | Fail(message: string) {
    /** The object's `ok` field. */
    predicate IsOk() { Ok? }
  }

  /** `Math.floor(top / bottom)` on integers. */
  function Quotient(top: int, bottom: int): (q: int)
    requires bottom != 0
    ensures q as real <= top as real / bottom as real < q as real + 1.0
  {
    var b := if bottom > 0 then bottom else -bottom;
    var t := if bottom > 0 then top else -top;
    FloorDivision(t, b);
    assert t as real / b as real == top as real / bottom as real;
    t / b
  }

  /** Euclidean division by a positive divisor is floor division. */
  lemma FloorDivision(t: int, b: int)
    requires b > 0
    ensures (t / b) as real <= t as real / b as real < (t / b) as real + 1.0
  {
    var q, r := t / b, t % b;
    assert t == q * b + r && 0 <= r < b;
    assert t as real == q as real * b as real + r as real;
    assert t as real / b as real == q as real + r as real / b as real;
    assert 0.0 <= r as real / b as real < 1.0;
  }

  lemma {:induction false} QuotientOfOdd(k: int)
    ensures Quotient(2 * k + 1, 2) == k && Quotient(2 * k, 2) == k
  {
    var q1, q0 := Quotient(2 * k + 1, 2), Quotient(2 * k, 2);
    assert q1 as real <= (2 * k + 1) as real / 2.0 < q1 as real + 1.0;
    assert q0 as real <= (2 * k) as real / 2.0 < q0 as real + 1.0;
  }

  function SumLengths<T>(xss: seq<seq<T>>): nat
  {
    if |xss| == 0 then 0 else |xss[0]| + SumLengths(xss[1..])
  }

  /** `[].concat(...arr)`: the inner sequences, one after the other. */
  function Flatten<T>(xss: seq<seq<T>>): (r: seq<T>)
    ensures |r| == SumLengths(xss)
    ensures |xss| > 0 ==> r[..|xss[0]|] == xss[0]
  {
    if |xss| == 0 then [] else xss[0] + Flatten(xss[1..])
  }

  /** Flattening keeps the order of the outer sequence. */
  lemma {:induction false} FlattenAppend<T>(a: seq<seq<T>>, b: seq<seq<T>>)
    ensures Flatten(a + b) == Flatten(a) + Flatten(b)
  {
    if |a| > 0 {
      assert (a + b)[0] == a[0] && (a + b)[1..] == a[1..] + b;
      FlattenAppend(a[1..], b);
      assert Flatten(a + b) == a[0] + Flatten(a[1..] + b);
      assert Flatten(a) == a[0] + Flatten(a[1..]);
    } else {
      assert a + b == b;
    }
  }

  /** A value found in none of the inner sequences is not in their flattening. */
  lemma {:induction false} FlattenAvoids<T>(xss: seq<seq<T>>, x: T)
    requires forall k :: 0 <= k < |xss| ==> x !in xss[k]
    ensures x !in Flatten(xss)
  {
    if |xss| > 0 {
      FlattenAvoids(xss[1..], x);
    }
  }

  /** A non-empty `b` is its front and its last element. */
  lemma SnocSplit<T>(a: seq<T>, b: seq<T>)
    requires |b| > 0
    ensures a + b == (a + b[..|b| - 1]) + [b[|b| - 1]]
  {
  }

  lemma AppendAssoc<T>(x: seq<T>, y: seq<T>, z: seq<T>)
    ensures (x + y) + z == x + (y + z)
  {
  }

  function Max(a: real, b: real): (m: real)
    ensures m == a || m == b
    ensures a <= m && b <= m
  {
    if a > b then a else b
  }

  function Min(a: real, b: real): (m: real)
    ensures m == a || m == b
    ensures m <= a && m <= b
  {
    if a < b then a else b
  }

  /** `getFirst([first])`: element 0, or `undefined` (None) for an empty array. */
  function GetFirst<T>(s: seq<T>): (r: Option<T>)
    ensures r.Some? <==> |s| > 0
    ensures r.Some? ==> r.value == s[0]
  {
    if |s| == 0 then None else Some(s[0])
  }
}

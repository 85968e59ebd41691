/**
 Small building blocks shared by every module of the model: an optional value,
 and the two pieces of JavaScript number semantics the component relies on
 (Math.round and the `x || default` idiom on numbers).
 */
module Base {

  /** An optional value; `None` stands for JavaScript's `undefined`. */
  datatype Option<+T> = None | Some(value: T)

  /** JavaScript's Math.round: the nearest integer, with halves rounded up
      (towards positive infinity), i.e. floor(x + 0.5). */
  function Round(x: real): (r: int)
    ensures x - 0.5 < r as real <= x + 0.5
  {
    (x + 0.5).Floor
  }

  /** `x || fallback` on a number: JavaScript treats 0 (and undefined, which
      the model writes as 0) as false and falls back. */
  function OrElse(x: real, fallback: real): (r: real)
    ensures x != 0.0 ==> r == x
    ensures x == 0.0 ==> r == fallback
  {
    if x == 0.0 then fallback else x
  }

  function Abs(x: real): (r: real)
    ensures r >= 0.0
    ensures r == x || r == -x
  {
    if x < 0.0 then -x else x
  }

  /** Rounding an integer gives it back. */
  lemma RoundOfInteger(n: int)
    ensures Round(n as real) == n
  {
  }

  /** Math.round is monotone. */
  lemma RoundMonotone(x: real, y: real)
    requires x <= y
    ensures Round(x) <= Round(y)
  {
  }

  /** Math.round only depends on its argument's distance to the integers:
      shifting by an integer shifts the result by that integer. */
  lemma RoundShift(x: real, n: int)
    ensures Round(x + n as real) == Round(x) + n
  {
  }
}

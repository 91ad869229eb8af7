/** The few pieces of JavaScript and big-integer semantics the utilities rely on. */
module Js {
  import opened Wrappers

  /** JavaScript truthiness of a `string | false | undefined` value:
      the absent value and the empty string are falsy, every other string is truthy. */
  predicate IsTruthy(s: Option<string>) {
    s.Some? && s.value != ""
  }

  /** Clamps a `String.prototype.substring` argument into `[0, len]`. */
  function Clamp(i: int, len: nat): (r: nat)
    ensures r <= len
    ensures 0 <= i <= len ==> r == i
    ensures i < 0 ==> r == 0
    ensures len < i ==> r == len
  {
    if i < 0 then 0 else if i > len then len else i
  }

  /** `s.substring(start, end)`: both indices are clamped into `[0, |s|]` and
      swapped when the first exceeds the second. */
  function Substring(s: string, start: int, end: int): (r: string)
    ensures |r| <= |s|
    ensures 0 <= start <= end <= |s| ==> r == s[start..end]
    ensures 0 <= end <= start <= |s| ==> r == s[end..start]
    ensures start <= 0 && end <= 0 ==> r == []
    ensures |s| <= start && |s| <= end ==> r == []
    ensures 0 <= start <= |s| <= end ==> r == s[start..]
    ensures 0 <= end <= |s| <= start ==> r == s[end..]
    ensures start <= 0 <= end <= |s| ==> r == s[..end]
    ensures end <= 0 <= start <= |s| ==> r == s[..start]
    ensures start <= 0 && |s| <= end ==> r == s
    ensures end <= 0 && |s| <= start ==> r == s
  {
    var a := Clamp(start, |s|);
    var b := Clamp(end, |s|);
    if a <= b then s[a..b] else s[b..a]
  }

  /** `s.substring(start)`: from the clamped start index to the end of `s`. */
  function SubstringFrom(s: string, start: int): (r: string)
    ensures 0 <= start <= |s| ==> r == s[start..]
    ensures start <= 0 ==> r == s
    ensures |s| <= start ==> r == []
  {
    Substring(s, start, |s|)
  }

  /** Big-integer division as `JSBI.divide` and `BigNumber.div` perform it:
      the quotient is truncated toward zero, so `q * d` has the sign of `a`
      and lies within one divisor of it without passing it. */
  function TruncDiv(a: int, d: int): (q: int)
    requires d > 0
    ensures 0 <= a ==> 0 <= q * d <= a < q * d + d
    ensures a < 0 ==> q * d - d < a <= q * d <= 0
  {
    if a >= 0 then
      FloorDivBounds(a, d);
      a / d
    else
      FloorDivBounds(-a, d);
      -((-a) / d)
  }

  /** Euclidean division of a natural number leaves a remainder in `[0, d)`. */
  lemma FloorDivBounds(a: nat, d: int)
    requires d > 0
    ensures 0 <= (a / d) * d <= a < (a / d) * d + d
  {
    var q, r := a / d, a % d;
    assert a == q * d + r;
    assert 0 <= q;
    assert 0 <= q * d;
  }
}

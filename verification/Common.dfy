/** Small vocabulary shared by the other modules. */
module Common {

  /** A value that may be absent: `null` or `undefined` in the program. */
  datatype Option<+T> = None | Some(value: T)
  {
    function GetOr(default: T): T {
      if Some? then value else default
    }
  }

  function Max(a: int, b: int): int {
    if a < b then b else a
  }

  function Min(a: int, b: int): int {
    if a < b then a else b
  }

  function Abs(x: real): real {
    if x < 0.0 then -x else x
  }

  /** All but the element at one position. */
  function Without<T>(s: seq<T>, which: nat): (rest: seq<T>)
    requires which < |s|
    ensures |rest| == |s| - 1
    ensures forall i :: 0 <= i < |rest| ==> rest[i] == if i < which then s[i] else s[i + 1]
    ensures forall x :: x in rest ==> x in s
  {
    s[..which] + s[which + 1..]
  }

  /** No element occurs at two positions. */
  ghost predicate Distinct<T(!new)>(s: seq<T>) {
    forall i, j :: 0 <= i < j < |s| ==> s[i] != s[j]
  }
}

/** What several modules share. */
module Common {

  datatype Option<+T> = None | Some(value: T)

  /** One more than the largest uint32_t. */
  const UINT_SIZE: nat := 0x1_0000_0000

  function Pow10(k: nat): (p: nat)
    ensures p > 0
  {
    if k == 0 then 1 else 10 * Pow10(k - 1)
  }

  function Reverse<T>(s: seq<T>): (r: seq<T>)
    ensures |r| == |s|
    ensures forall i :: 0 <= i < |s| ==> r[i] == s[|s| - 1 - i]
  {
    if s == [] then [] else Reverse(s[1..]) + [s[0]]
  }
}

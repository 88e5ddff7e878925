/** Options, sequences without repetition and machine integers, shared by the models. */
module Common {

  datatype Option<+T> = None | Some(value: T)

  const WORD16 := 0x1_0000
  const WORD32 := 0x1_0000_0000
  const WORD64 := 0x1_0000_0000_0000_0000
  const INT32_MAX := 0x7FFF_FFFF
  const INT32_MIN := -0x8000_0000

  /** No element comes twice. */
  ghost predicate Distinct<T>(s: seq<T>) {
    forall i, j :: 0 <= i < j < |s| ==> s[i] != s[j]
  }

  type int32 = v: int | INT32_MIN <= v <= INT32_MAX

  /** Two's complement wrap-around of an `int32_t` result. */
  function ToInt32(v: int): (r: int32)
    ensures INT32_MIN <= r <= INT32_MAX && (r - v) % 0x1_0000_0000 == 0
    ensures INT32_MIN <= v <= INT32_MAX ==> r == v
  {
    var m := v % WORD32;
    if m <= INT32_MAX then m else m - WORD32
  }

  /** The conversion of a signed operand to `uint64_t`. */
  function ToUint64(v: int): (r: nat)
    ensures r < WORD64 && (r - v) % 0x1_0000_0000_0000_0000 == 0
    ensures 0 <= v < WORD64 ==> r == v
  {
    v % WORD64
  }

  /** Wrapping after every increment gives the same result as wrapping once. */
  lemma WrapIncrement(v: int)
    ensures ToInt32(ToInt32(v) + 1) == ToInt32(v + 1)
  {
  }
}

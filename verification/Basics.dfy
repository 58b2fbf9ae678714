/** What several of the modules share. */
module Basics {

  datatype Option<T> = None | Some(value: T)

  type byte = x: int | 0 <= x < 256

  /** The first numbers that 32 and 64 bits cannot hold. */
  const U32: nat := 0x1_0000_0000
  const U64: nat := 0x1_0000_0000_0000_0000

  /** A number assigned to a C int: its low 32 bits, the highest as the sign. */
  function AsInt(n: nat): int {
    var low := n % U32;
    if low < 0x8000_0000 then low else low - U32
  }

  /** The place of the first element that is wanted, or the length. */
  function FirstIndex<T>(s: seq<T>, wanted: T -> bool): (i: nat)
    ensures i <= |s|
    ensures i < |s| ==> wanted(s[i])
    ensures forall j :: 0 <= j < i ==> !wanted(s[j])
  {
    if s == [] || wanted(s[0]) then 0 else 1 + FirstIndex(s[1..], wanted)
  }

  lemma SubsetSize<T>(a: set<T>, b: set<T>)
    requires a <= b
    ensures |a| <= |b|
  {
    assert b == a + (b - a);
  }
}

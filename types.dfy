/** Value types shared by the whole model: the C `unsigned int` used for block
    and node ids, and a first-occurrence search over sequences, the abstract
    meaning of every "walk the list until the id matches" loop. */
module Types {

  /** C `unsigned int` on the platforms the program targets (32 bits). */
  newtype uint32 = x: int | 0 <= x < 0x1_0000_0000

  datatype Option<T> = None | Some(value: T)

  /** The index of the first occurrence of `x` in `s`, or `|s|` when there is none. */
  function FirstIndex<T(==)>(s: seq<T>, x: T): (k: nat)
    ensures k <= |s|
    ensures k < |s| <==> x in s
    ensures k < |s| ==> s[k] == x
    ensures forall j :: 0 <= j < k ==> s[j] != x
  {
    if s == [] then 0
    else if s[0] == x then 0
    else 1 + FirstIndex(s[1..], x)
  }

  /** Sequence `s` with position `k` removed, the other elements keeping their order. */
  function Without<T>(s: seq<T>, k: nat): (r: seq<T>)
    requires k < |s|
    ensures |r| == |s| - 1
    ensures forall j :: 0 <= j < k ==> r[j] == s[j]
    ensures forall j :: k <= j < |r| ==> r[j] == s[j + 1]
  {
    s[..k] + s[k + 1..]
  }

  /** Dropping the element just after a prefix `p` keeps `p`. */
  lemma WithoutJoin<T>(p: seq<T>, q: seq<T>)
    requires q != []
    ensures Without(p + q, |p|) == p + q[1..]
  {
    assert (p + q)[..|p|] == p;
    assert (p + q)[|p| + 1..] == q[1..];
  }
}

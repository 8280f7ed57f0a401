/** Small types and sequence facts shared by the other modules. */
module Base {

  /** The conventional optional value: a null pointer of the source is None. */
  datatype Option<+T> = None | Some(value: T)

  const TWO32: int := 0x1_0000_0000

  type u32 = x: int | 0 <= x < 0x1_0000_0000

  newtype byte = x: int | 0 <= x < 256

  function Min(a: int, b: int): int {
    if a < b then a else b
  }

  /** No value occurs at two positions. */
  ghost predicate Distinct<T>(s: seq<T>) {
    forall i, j :: 0 <= i < j < |s| ==> s[i] != s[j]
  }

  /** The first position at which p occurs. */
  function Position<T(==)>(s: seq<T>, p: T): (i: nat)
    requires p in s
    ensures i < |s| && s[i] == p && p !in s[..i]
  {
    if s[0] == p then 0 else 1 + Position(s[1..], p)
  }

  /** One step of a count: what goes out leaves the front, and what comes in joins the back. */
  lemma Reassociate<T>(out: seq<T>, outs: seq<T>, end: seq<T>, mid: seq<T>, ins: seq<T>, start: seq<T>, more: seq<T>)
    requires outs + end == mid + ins && out + mid == start + more
    ensures (out + outs) + end == start + (more + ins)
  {
    assert (out + outs) + end == out + (outs + end) == (out + mid) + ins;
    assert start + (more + ins) == (start + more) + ins;
  }
}

/** What several modules share. */
module Basics {
  const UINT32_RANGE := 0x1_0000_0000

  datatype Option<+T> = None | Some(value: T)

  lemma ConcatIsAssociative<T>(a: seq<T>, b: seq<T>, c: seq<T>)
    ensures a + (b + c) == a + b + c
  {
  }
}

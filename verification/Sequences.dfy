/** Facts about sequences, and sequences of bytes. */
module Sequences {
  type Byte = x: int | 0 <= x < 256
  type Bytes = seq<Byte>

  lemma Reassociated<T>(a: seq<T>, b: seq<T>, c: seq<T>)
    ensures (a + b) + c == a + (b + c)
  {}

  ghost predicate IsSuffix<T>(part: seq<T>, whole: seq<T>) {
    |part| <= |whole| && whole[|whole| - |part|..] == part
  }

  /** c ends b, which ends a. */
  lemma SuffixOfSuffix<T>(c: seq<T>, b: seq<T>, a: seq<T>)
    requires IsSuffix(c, b) && IsSuffix(b, a)
    ensures IsSuffix(c, a)
  {
    assert a[|a| - |c|..] == a[|a| - |b|..][|b| - |c|..];
  }

  lemma SuffixGrows<T>(part: seq<T>, whole: seq<T>, more: seq<T>)
    requires IsSuffix(part, whole)
    ensures IsSuffix(part + more, whole + more)
  {
    assert (whole + more)[|whole| - |part|..] == whole[|whole| - |part|..] + more;
  }
}

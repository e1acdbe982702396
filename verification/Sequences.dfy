/** Facts about sequences that several modules use. */
module Sequences {

  /** Marks the positions at which a quantified fact is to be used. */
  ghost predicate At(i: int) {
    true
  }

  lemma Assoc<T>(a: seq<T>, b: seq<T>, c: seq<T>)
    ensures a + b + c == a + (b + c)
  {
  }

  lemma AppendPiece<T>(a: seq<T>, data: seq<T>, done: nat, more: nat)
    requires done + more <= |data|
    ensures a + data[..done] + data[done..done + more] == a + data[..done + more]
  {
  }

  lemma SplitTake<T>(b: seq<T>, i: nat, j: nat)
    requires i + j <= |b|
    ensures b[..i + j] == b[..i] + b[i..][..j]
  {
  }

  lemma SplitConcat<T>(a: seq<T>, b: seq<T>, c: seq<T>)
    ensures (a + b + c)[..|a|] == a && (a + b + c)[|a|..] == b + c
  {
  }

  lemma SplitAppend<T>(b: seq<T>, more: seq<T>, k: nat)
    requires k <= |b|
    ensures (b + more)[..k] == b[..k] && (b + more)[k..] == b[k..] + more
  {
  }

  lemma DropTwice<T>(s: seq<T>, a: nat, b: nat)
    requires a + b <= |s|
    ensures s[a..][b..] == s[a + b..]
  {
  }
}

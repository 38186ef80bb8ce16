/** Objects, options, and sequences without repetitions. */
module Basics {
  type JId = nat   // a Java object
  type NId = nat   // a native object

  datatype Option<T> = None | Some(value: T)

  ghost predicate NoDuplicates<T>(s: seq<T>) { forall i, j :: 0 <= i < j < |s| ==> s[i] != s[j] }

  /** s without its element at position k. */
  ghost function Cut<T>(s: seq<T>, k: nat): (r: seq<T>)
    requires k < |s|
    ensures |r| == |s| - 1
  {
    s[..k] + s[k + 1..]
  }

  lemma CutAt<T>(s: seq<T>, k: nat)
    requires k < |s|
    ensures forall i :: 0 <= i < |s| - 1 ==> Cut(s, k)[i] == s[if i < k then i else i + 1]
  {
  }

  lemma CutDistinct<T>(s: seq<T>, k: nat)
    requires k < |s| && NoDuplicates(s)
    ensures NoDuplicates(Cut(s, k)) && s[k] !in Cut(s, k)
  {
  }

  lemma OnlyAt<T>(s: seq<T>, k: nat)
    requires k < |s| && NoDuplicates(s)
    ensures forall i :: 0 <= i < |s| && i != k ==> s[i] != s[k]
  {
  }
}

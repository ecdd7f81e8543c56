/** Value-level models of Rust's `Option` and of the `Vec`/slice primitives the core relies on. */
module Collections {

  /** Rust's `Option`. */
  datatype Option<T> = None | Some(value: T)

  /** Rust's `Vec::swap_remove(i)`: the last element takes the place of the removed one. */
  function SwapRemove<T>(s: seq<T>, i: nat): (r: seq<T>)
    requires i < |s|
    ensures |r| == |s| - 1
    ensures multiset(r) == multiset(s) - multiset{s[i]}
    ensures forall j :: 0 <= j < i ==> r[j] == s[j]
    ensures i < |r| ==> r[i] == s[|s| - 1]
    ensures forall j :: i < j < |r| ==> r[j] == s[j]
  {
    if i == |s| - 1 then
      assert s == s[..i] + [s[i]];
      s[..i]
    else
      MovedLastKeepsMultiset(s, i);
      s[..|s| - 1][i := s[|s| - 1]]
  }

  lemma MovedLastKeepsMultiset<T>(s: seq<T>, i: nat)
    requires i < |s| - 1
    ensures multiset(s[..|s| - 1][i := s[|s| - 1]]) == multiset(s) - multiset{s[i]}
  {
    var init, last := s[..|s| - 1], s[|s| - 1];
    assert s == init + [last];
    assert init[i] == s[i];
  }

  /** Rust's `slice::swap(a, b)` on a sequence. */
  function Swap<T>(s: seq<T>, a: nat, b: nat): (r: seq<T>)
    requires a < |s| && b < |s|
    ensures |r| == |s| && r[a] == s[b] && r[b] == s[a]
    ensures forall j :: 0 <= j < |s| && j != a && j != b ==> r[j] == s[j]
    ensures multiset(r) == multiset(s)
  {
    s[a := s[b]][b := s[a]]
  }

  lemma AppendAssociates<T>(a: seq<T>, b: seq<T>, c: seq<T>)
    ensures a + (b + c) == (a + b) + c
  {
  }

  /** The head of a non-empty sequence is one of its members. */
  lemma HeadIsMember<T>(s: seq<T>)
    requires s != []
    ensures s[0] in s
  {
  }

  /** A sequence of indices in strictly increasing order. */
  predicate StrictlyIncreasing(s: seq<nat>) {
    forall i, j :: 0 <= i < j < |s| ==> s[i] < s[j]
  }
}

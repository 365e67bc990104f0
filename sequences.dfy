/**
 * Facts about a sequence with one element inserted, shared by the ordered
 * insertions of the historical table and of the download listing.
 */
module Sequences {
  import opened Wrappers

  /** Indexing into a sequence with one element inserted. */
  lemma InsertedAt<T>(s: seq<T>, k: nat, x: T, i: nat)
    requires k <= |s| && i <= |s|
    ensures (s[..k] + [x] + s[k..])[i] == if i < k then s[i] else if i == k then x else s[i - 1]
  {
  }

  /** Inserting one element adds exactly that element to the multiset. */
  lemma InsertedMultiset<T>(s: seq<T>, k: nat, x: T)
    requires k <= |s|
    ensures multiset(s[..k] + [x] + s[k..]) == multiset(s) + multiset{x}
  {
    assert s == s[..k] + s[k..];
  }

  /** An element inserted into a prefix sits at the same place once the last element is appended back. */
  lemma InsertedBeforeLast<T>(init: seq<T>, last: T, k: nat, x: T)
    requires k <= |init|
    ensures init[..k] + [x] + init[k..] + [last] == (init + [last])[..k] + [x] + (init + [last])[k..]
  {
    var s := init + [last];
    assert s[..k] == init[..k];
    assert s[k..] == init[k..] + [last];
  }

  /** Inserting at the very end is appending. */
  lemma InsertedAtEnd<T>(s: seq<T>, x: T)
    ensures s[..|s|] + [x] + s[|s|..] == s + [x]
  {
    assert s[..|s|] == s;
  }

  /** The values present in a sequence of options, in order. */
  function Present<T>(s: seq<Option<T>>): seq<T> {
    if s == [] then []
    else Present(s[..|s| - 1]) + if s[|s| - 1].Some? then [s[|s| - 1].value] else []
  }

  lemma {:induction false} PresentExactly<T>(s: seq<Option<T>>, x: T)
    ensures x in Present(s) <==> exists i :: 0 <= i < |s| && s[i] == Some(x)
  {
    if s != [] {
      var n := |s| - 1;
      var init := s[..n];
      PresentExactly(init, x);
      if exists i :: 0 <= i < |s| && s[i] == Some(x) {
        var i :| 0 <= i < |s| && s[i] == Some(x);
        if i < n {
          assert init[i] == s[i];
        }
      }
      if exists i :: 0 <= i < n && init[i] == Some(x) {
        var i :| 0 <= i < n && init[i] == Some(x);
        assert s[i] == init[i];
      }
    }
  }
}

/** Order-preserving filtering of sequences: the list comprehensions and
    append-if loops of the source all keep, in order, the elements that pass a test. */
module Seqs {

  /** The elements of `s` for which `keep` holds, in their original order. */
  function Filter<T>(s: seq<T>, keep: T -> bool): (r: seq<T>)
    ensures |r| <= |s|
    ensures forall k :: 0 <= k < |r| ==> keep(r[k])
  {
    if s == [] then []
    else
      var prev := Filter(s[..|s| - 1], keep);
      if keep(s[|s| - 1]) then prev + [s[|s| - 1]] else prev
  }

  /** Filtering distributes over concatenation, so the survivors of an earlier part
      always precede those of a later part. */
  lemma {:induction false} FilterAppend<T>(a: seq<T>, b: seq<T>, keep: T -> bool)
    ensures Filter(a + b, keep) == Filter(a, keep) + Filter(b, keep)
    decreases |b|
  {
    if b == [] {
      assert a + b == a;
    } else {
      var b' := b[..|b| - 1];
      assert (a + b)[..|a + b| - 1] == a + b';
      FilterAppend(a, b', keep);
    }
  }

  /** An element survives exactly as often as it occurs, if it passes the test, and never otherwise. */
  lemma {:induction false} FilterCount<T>(s: seq<T>, keep: T -> bool, x: T)
    ensures multiset(Filter(s, keep))[x] == if keep(x) then multiset(s)[x] else 0
    decreases |s|
  {
    if s != [] {
      var s' := s[..|s| - 1];
      assert s == s' + [s[|s| - 1]];
      FilterCount(s', keep, x);
    }
  }

  /** Membership: an element is kept exactly when it occurs and passes the test. */
  lemma FilterMembership<T>(s: seq<T>, keep: T -> bool, x: T)
    ensures x in Filter(s, keep) <==> x in s && keep(x)
  {
    FilterCount(s, keep, x);
    assert x in Filter(s, keep) <==> multiset(Filter(s, keep))[x] > 0;
    assert x in s <==> multiset(s)[x] > 0;
  }

  /** When some element passes, the first survivor is the first passing element. */
  lemma {:induction false} FilterFirst<T>(s: seq<T>, keep: T -> bool)
    ensures Filter(s, keep) == [] <==> forall k :: 0 <= k < |s| ==> !keep(s[k])
    ensures Filter(s, keep) != [] ==>
      exists i :: 0 <= i < |s| && keep(s[i]) && Filter(s, keep)[0] == s[i] &&
                  forall j :: 0 <= j < i ==> !keep(s[j])
    decreases |s|
  {
    if s != [] {
      var s' := s[..|s| - 1];
      FilterFirst(s', keep);
      if Filter(s', keep) != [] {
        var i :| 0 <= i < |s'| && keep(s'[i]) && Filter(s', keep)[0] == s'[i] &&
                 forall j :: 0 <= j < i ==> !keep(s'[j]);
        assert keep(s[i]) && forall j :: 0 <= j < i ==> !keep(s[j]) && s[j] == s'[j];
      } else if keep(s[|s| - 1]) {
        assert forall j :: 0 <= j < |s| - 1 ==> !keep(s[j]) && s[j] == s'[j];
      } else {
        assert forall k :: 0 <= k < |s| ==> !keep(s[k]) by {
          forall k | 0 <= k < |s| ensures !keep(s[k]) {
            if k < |s| - 1 { assert s[k] == s'[k]; }
          }
        }
      }
    }
  }
}

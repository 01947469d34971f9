/** Small types and facts that several modules share. */
module Collections {

  datatype Option<T> = None | Some(value: T)

  /** What a call comes to when the source can panic. */
  datatype Outcome<T> = Returned(value: T) | Panicked

  ghost predicate NoDup<T>(s: seq<T>) {
    forall i, j :: 0 <= i < j < |s| ==> s[i] != s[j]
  }

  lemma {:induction false} NoDupIsMultisetSet<T>(s: seq<T>)
    ensures NoDup(s) <==> forall x :: multiset(s)[x] <= 1
  {
    if s == [] {
    } else {
      var n := |s| - 1;
      var init, last := s[..n], s[n];
      assert s == init + [last];
      assert multiset(s) == multiset(init) + multiset{last};
      NoDupIsMultisetSet(init);
      if NoDup(s) {
        forall x ensures multiset(s)[x] <= 1 {
          assert multiset(init)[x] <= 1;
          if x == last { assert x !in init; }
        }
      } else {
        var i, j :| 0 <= i < j < |s| && s[i] == s[j];
        if j < n {
          assert init[i] == init[j];
          assert !NoDup(init);
          var x :| multiset(init)[x] > 1;
          assert multiset(s)[x] > 1;
        } else {
          assert init[i] == last;
          assert last in multiset(init);
          assert multiset(s)[last] > 1;
        }
      }
    }
  }

  lemma NoDupConcat<T>(a: seq<T>, b: seq<T>)
    requires NoDup(a) && NoDup(b) && forall x :: x in a ==> x !in b
    ensures NoDup(a + b)
  {
    forall i, j | 0 <= i < j < |a + b| ensures (a + b)[i] != (a + b)[j] {
      if i < |a| <= j {
        assert a[i] in a && b[j - |a|] in b;
      }
    }
  }

  /** Any element of a set. */
  ghost function Any<T>(s: set<T>): (x: T)
    requires s != {}
    ensures x in s
  {
    var x :| x in s; x
  }

  /** The next key of an iteration whose order is not known. */
  method AnyOf<T>(keys: set<T>) returns (k: T)
    requires keys != {}
    ensures k in keys && |keys - {k}| == |keys| - 1
  {
    k :| k in keys;
  }
}

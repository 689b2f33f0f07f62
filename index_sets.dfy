/**
 * The `NSIndexSet` helpers. An index set is modelled by the set of integers
 * it holds; a mutable index set that a helper builds locally is a local
 * `set` variable that the helper reassigns.
 */
module IndexSets {

  /** `indexSetWithInts`: adds every integer of `ints`, in order, to a fresh set. */
  method IndexSetWithInts(ints: seq<int>) returns (result: set<int>)
    ensures forall i :: i in result <==> i in ints
  {
    result := {};
    for k := 0 to |ints|
      invariant forall i :: i in result <==> i in ints[..k]
    {
      assert ints[..k + 1] == ints[..k] + [ints[k]];
      result := result + {ints[k]};
    }
    assert ints[..|ints|] == ints;
  }

  /** `indexSet` holds some index that `self` does not hold. */
  ghost predicate HasIndexOutside(self: set<int>, indexSet: set<int>)
  {
    exists i :: i in indexSet && i !in self
  }

  /** The two index sets share an index. */
  ghost predicate Overlaps(self: set<int>, indexSet: set<int>)
  {
    exists i :: i in indexSet && i in self
  }

  /**
   * `self.intersectsIndexSet(indexSet)` as the source computes it: copy
   * `indexSet`, remove the indexes of `self`, and report whether anything is left.
   */
  method IntersectsIndexSet(self: set<int>, indexSet: set<int>) returns (r: bool)
    ensures r <==> HasIndexOutside(self, indexSet)
    ensures r <==> !(indexSet <= self)
  {
    var copy := indexSet;
    copy := copy - self;
    r := |copy| > 0;
    EmptyOrHasElement(copy);
    if copy == {} {
      assert |copy| == 0;
      forall i | i in indexSet
        ensures i in self
      {
        assert i !in copy;
      }
    } else {
      assert |copy| != 0;
    }
  }

  /**
   * What the name `intersectsIndexSet` promises: whether the two sets share an
   * index, computed by keeping only the indexes of `indexSet` that `self` holds.
   */
  method SharesIndex(self: set<int>, indexSet: set<int>) returns (r: bool)
    ensures r <==> Overlaps(self, indexSet)
    ensures r <==> indexSet * self != {}
  {
    var copy := indexSet;
    copy := copy * self;
    r := |copy| > 0;
    EmptyOrHasElement(copy);
    if copy == {} {
      assert |copy| == 0;
      forall i | i in indexSet
        ensures i !in self
      {
        assert i !in copy;
      }
    } else {
      assert |copy| != 0;
    }
  }

  /** A set is empty or has an element. */
  lemma EmptyOrHasElement(s: set<int>)
    ensures s == {} || exists i :: i in s
  {
    if !(exists i :: i in s) {
      assert s == {};
    }
  }

  /**
   * The computed test and the promised one disagree in both directions: a
   * subset of `self` that overlaps it is reported as not intersecting, and a
   * set disjoint from `self` is reported as intersecting.
   */
  lemma IntersectsIndexSetMisreports()
    ensures !HasIndexOutside({1, 2}, {1}) && Overlaps({1, 2}, {1})
    ensures HasIndexOutside({1}, {2}) && !Overlaps({1}, {2})
  {
    assert 1 in {1} && 1 in {1, 2};
    assert 2 in {2} && 2 !in {1};
  }
}

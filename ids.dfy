/** The least element of a finite set of ids, which fixes the order in which
    the store lists its accounts. */
module Ids {

  /** `m` is the smallest id in `ids`. */
  predicate IsLeast(m: int, ids: set<int>)
  {
    m in ids && forall k :: k in ids ==> m <= k
  }

  lemma Member(ids: set<int>) returns (x: int)
    requires |ids| > 0
    ensures x in ids
  {
    assert (forall k :: k !in ids) ==> ids == {};
    x :| x in ids;
  }

  lemma {:induction false} HasLeast(ids: set<int>)
    requires |ids| > 0
    ensures exists m :: IsLeast(m, ids)
  {
    var x := Member(ids);
    var rest := ids - {x};
    assert forall k :: k in ids ==> k == x || k in rest;
    if |rest| == 0 {
      assert IsLeast(x, ids);
    } else {
      HasLeast(rest);
      var y :| IsLeast(y, rest);
      if x < y {
        assert IsLeast(x, ids);
      } else {
        assert IsLeast(y, ids);
      }
    }
  }

  /** The smallest id in a non-empty set of ids. */
  function Least(ids: set<int>): (m: int)
    requires |ids| > 0
    ensures m in ids && forall k :: k in ids ==> m <= k
  {
    HasLeast(ids);
    var m :| IsLeast(m, ids);
    m
  }
}

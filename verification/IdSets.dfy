/** Sets of row ids. */
module IdSets {

  lemma Inhabited(ids: set<int>)
    requires ids != {}
    ensures exists i :: i in ids
  {
    assert (forall i: int :: i !in ids) ==> ids == {};
  }
}

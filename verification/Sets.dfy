/** Two facts every loop over a finite set needs. */
module Sets {

  lemma EmptyOrInhabited<T(!new)>(s: set<T>)
    ensures s == {} || exists x :: x in s
  {
  }

  lemma EmptyOrHasInt(s: set<int>)
    ensures s == {} || exists x :: x in s
  {
    if forall x :: x !in s {
      assert s == {};
    }
  }

  /** Moving an element from the remaining part to the finished part keeps the whole. */
  lemma MoveOne<T>(done: set<T>, remaining: set<T>, x: T)
    requires x in remaining
    ensures (done + {x}) + (remaining - {x}) == done + remaining
  {
  }
}

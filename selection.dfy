/**
 * The set of liked product ids and the like button's toggle: the new set is
 * a copy of the previous one with the membership of one id flipped.
 */
module Selection {

  /** The liked set after toggling `id`. */
  function Toggled(liked: set<int>, id: int): (next: set<int>)
    ensures id in next <==> id !in liked
    ensures forall x :: x != id ==> (x in next <==> x in liked)
  {
    if id in liked then liked - {id} else liked + {id}
  }

  /** Toggling the same id twice restores the set. */
  lemma {:induction false} ToggleTwiceRestores(liked: set<int>, id: int)
    ensures Toggled(Toggled(liked, id), id) == liked
  {
  }

  /** Toggling an id of a known product keeps the liked set among the known product ids. */
  lemma {:induction false} ToggleStaysWithin(liked: set<int>, id: int, ids: set<int>)
    requires liked <= ids && id in ids
    ensures Toggled(liked, id) <= ids
  {
  }

  /**
   * The state updater `prev => { const next = new Set(prev); ... }`: copy the
   * previous set, then delete `id` from the copy if present and add it
   * otherwise. The previous set is a value and is left as it was.
   */
  method ToggleLike(prev: set<int>, id: int) returns (next: set<int>)
    ensures next == Toggled(prev, id)
    ensures id in next <==> id !in prev
    ensures forall x :: x != id ==> (x in next <==> x in prev)
  {
    next := prev;
    if id in next {
      next := next - {id};
    } else {
      next := next + {id};
    }
  }
}

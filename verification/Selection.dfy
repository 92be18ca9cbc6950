/** Parts of a list chosen by position. */
module Selection {
  /** `chosen` are the elements of `all` at the positions in `kept`, in order. */
  ghost predicate Chosen<T>(all: seq<T>, kept: set<nat>, chosen: seq<T>) {
    if all == [] then chosen == []
    else
      var n := |all| - 1;
      if n in kept then
        chosen != [] && chosen[|chosen| - 1] == all[n] && Chosen(all[..n], kept, chosen[..|chosen| - 1])
      else Chosen(all[..n], kept, chosen)
  }

  lemma {:induction false} ChosenAlike<T>(all: seq<T>, kept: set<nat>, alike: set<nat>, chosen: seq<T>)
    requires Chosen(all, kept, chosen) && forall k | 0 <= k < |all| :: k in kept <==> k in alike
    ensures Chosen(all, alike, chosen)
  {
    if all != [] {
      var n := |all| - 1;
      if n in kept {
        ChosenAlike(all[..n], kept, alike, chosen[..|chosen| - 1]);
      } else {
        ChosenAlike(all[..n], kept, alike, chosen);
      }
    }
  }

  lemma ChosenNext<T>(all: seq<T>, kept: set<nat>, next: set<nat>, chosen: seq<T>, x: T)
    requires Chosen(all, kept, chosen) && forall k | 0 <= k < |all| :: k in kept <==> k in next
    ensures |all| in next ==> Chosen(all + [x], next, chosen + [x])
    ensures |all| !in next ==> Chosen(all + [x], next, chosen)
  {
    ChosenAlike(all, kept, next, chosen);
    assert (all + [x])[..|all|] == all && (chosen + [x])[..|chosen|] == chosen;
  }
}

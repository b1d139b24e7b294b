/** Rust's Option, used for lookups that may fail and for the optional heuristic table. */
module Options {
  datatype Option<T> = None | Some(value: T)
}

/** Facts about finite sets and sequences of ids that loops over map keys need. */
module SetFacts {
  ghost predicate Distinct(s: seq<int>)
  {
    forall i, j :: 0 <= i < j < |s| ==> s[i] != s[j]
  }

  /** Some enumeration of a finite set of ids, without repetition. */
  ghost function SeqOfSet(s: set<int>): (r: seq<int>)
    ensures Distinct(r)
    ensures forall x :: x in r <==> x in s
    decreases s
  {
    if s == {} then []
    else
      EmptyOrMember(s);
      var x :| x in s;
      [x] + SeqOfSet(s - {x})
  }

  /** A set is empty or has a member; loops use it before picking an element with `:|`. */
  lemma EmptyOrMember(s: set<int>)
    ensures s == {} || exists x :: x in s
  {
    if forall x :: x !in s {
      assert s == {};
    }
  }
}

/** Whole runs through either setter: when does the end from which an item is inserted make a difference? */
module CacheEnds {
  import opened ExpirationList
  import opened CacheRuns

  ghost predicate SameButEnd<K, V>(op: Op<K, V>, op': Op<K, V>) {
    op == op' || (op.Set? && op'.Set? && op' == op.(end := op'.end))
  }

  /** The two traces differ at most in which setter each set goes through. */
  ghost predicate SameButEnds<K, V>(ops: seq<Op<K, V>>, ops': seq<Op<K, V>>) {
    |ops| == |ops'| && forall i :: 0 <= i < |ops| ==> SameButEnd(ops[i], ops'[i])
  }

  /** No item that the operation keeps expires together with the one it sets. */
  ghost predicate NoTie<K, V>(s: seq<Item<K, V>>, capacity: int, op: Op<K, V>)
    requires capacity > 0
  {
    op.Set? ==> forall it :: it in Kept(s, capacity, op.key, op.now) ==> it.expiresAt != op.expiresAt
  }

  ghost predicate NoTies<K, V>(s: seq<Item<K, V>>, capacity: int, ops: seq<Op<K, V>>)
    requires capacity > 0
    decreases |ops|
  {
    ops != [] ==> NoTie(s, capacity, ops[0]) && NoTies(Step(s, capacity, ops[0]), capacity, ops[1..])
  }

  lemma NoTieSameStep<K(!new), V(!new)>(s: seq<Item<K, V>>, capacity: int, op: Op<K, V>, op': Op<K, V>)
    requires WellFormed(s, capacity) && capacity > 0 && SameButEnd(op, op') && NoTie(s, capacity, op)
    ensures Step(s, capacity, op) == Step(s, capacity, op')
  {
    hide ExpirationList.Set, Kept, WellFormed;
    if op != op' {
      assert op.end != op'.end;
      HeadAndTailAgree(s, capacity, op.key, op.value, op.now, op.expiresAt);
    }
  }

  /** Without ties the two setters are interchangeable: same list and same answers, over the whole run. */
  lemma {:induction false} EndsAreAlike<K(!new), V(!new)>(
      s: seq<Item<K, V>>, capacity: int, ops: seq<Op<K, V>>, ops': seq<Op<K, V>>)
    requires WellFormed(s, capacity) && capacity > 0
    requires SameButEnds(ops, ops') && NoTies(s, capacity, ops)
    ensures Run(s, capacity, ops) == Run(s, capacity, ops') && Answers(s, capacity, ops) == Answers(s, capacity, ops')
    decreases |ops|
  {
    hide WellFormed, Step, NoTie;
    if ops == [] {
    } else {
      NoTieSameStep(s, capacity, ops[0], ops'[0]);
      StepKeepsWellFormed(s, capacity, ops[0]);
      EndsAreAlike(Step(s, capacity, ops[0]), capacity, ops[1..], ops'[1..]);
    }
  }

  lemma {:induction false} NoTiesPrefix<K(!new), V(!new)>(s: seq<Item<K, V>>, capacity: int, ops: seq<Op<K, V>>, n: nat)
    requires capacity > 0 && NoTies(s, capacity, ops) && n <= |ops|
    ensures NoTies(s, capacity, ops[..n])
    decreases |ops|
  {
    hide Step, NoTie;
    if n == 0 {
    } else {
      assert ops[..n][1..] == ops[1..][..n - 1];
      NoTiesPrefix(Step(s, capacity, ops[0]), capacity, ops[1..], n - 1);
    }
  }

  ghost function Flipped<K, V>(op: Op<K, V>): (r: Op<K, V>)
    ensures SameButEnd(op, r)
  {
    if op.Set? then op.(end := if op.end == Head then Tail else Head) else op
  }

  lemma TieShowsInStep<K(!new), V(!new)>(s: seq<Item<K, V>>, capacity: int, op: Op<K, V>)
    requires WellFormed(s, capacity) && capacity > 0 && !NoTie(s, capacity, op)
    ensures Step(s, capacity, op) != Step(s, capacity, Flipped(op))
  {
    hide ExpirationList.Set, Kept, WellFormed;
    HeadAndTailAgree(s, capacity, op.key, op.value, op.now, op.expiresAt);
  }

  /** After a set with a tie, the other setter would have left another list. */
  lemma {:induction false} TieShows<K(!new), V(!new)>(s: seq<Item<K, V>>, capacity: int, ops: seq<Op<K, V>>)
    returns (i: nat)
    requires WellFormed(s, capacity) && capacity > 0 && !NoTies(s, capacity, ops)
    ensures i < |ops|
    ensures Run(s, capacity, ops[..i + 1]) != Run(s, capacity, ops[i := Flipped(ops[i])][..i + 1])
    decreases |ops|
  {
    hide WellFormed, Step, NoTie, Flipped;
    if !NoTie(s, capacity, ops[0]) {
      i := 0;
      TieShowsInStep(s, capacity, ops[0]);
      assert ops[..1] == [ops[0]];
      assert ops[0 := Flipped(ops[0])][..1] == [Flipped(ops[0])];
    } else {
      StepKeepsWellFormed(s, capacity, ops[0]);
      var j := TieShows(Step(s, capacity, ops[0]), capacity, ops[1..]);
      i := j + 1;
      var ops' := ops[i := Flipped(ops[i])];
      assert ops[..i + 1][1..] == ops[1..][..j + 1];
      assert ops'[..i + 1][1..] == ops[1..][j := Flipped(ops[i])][..j + 1];
    }
  }

  /** The choice of setters never shows in the list, at any moment of the run, exactly when no set meets a tie. */
  lemma EndsAreAlikeIffNoTies<K(!new), V(!new)>(s: seq<Item<K, V>>, capacity: int, ops: seq<Op<K, V>>)
    requires WellFormed(s, capacity) && capacity > 0
    ensures NoTies(s, capacity, ops) <==>
      forall ops', n :: SameButEnds(ops, ops') && 0 <= n <= |ops| ==>
        Run(s, capacity, ops[..n]) == Run(s, capacity, ops'[..n])
  {
    hide WellFormed, Step, NoTies, Run;
    if NoTies(s, capacity, ops) {
      forall ops', n | SameButEnds(ops, ops') && 0 <= n <= |ops|
        ensures Run(s, capacity, ops[..n]) == Run(s, capacity, ops'[..n])
      {
        NoTiesPrefix(s, capacity, ops, n);
        EndsAreAlike(s, capacity, ops[..n], ops'[..n]);
      }
    } else {
      var i := TieShows(s, capacity, ops);
      assert SameButEnds(ops, ops[i := Flipped(ops[i])]);
    }
  }
}

// Reidemeister moves 1 and 2 on a Gauss code: a twist of the rope (one crossing met twice in
// a row) and a strand slid over or under another (two crossings met in the same order along
// both strands) can be undone without changing the knot, so their entries are erased and the
// absolute ids of the erased crossings are recorded.
module ReidemeisterMoves {
  import opened GaussCodes

  // ---------------------------------------------------------------- move 1

  /** What move 1 keeps while it runs: reduced is code with the two passages of each added
      crossing erased, the other entries in order, and no id 0. */
  predicate Move1Kept(code: GaussCode, reduced: GaussCode, added: seq<int>) {
    |reduced| + 2 * |added| == |code|
    && multiset(Ids(reduced)) + Pairs(added) == multiset(Ids(code))
    && Subsequence(reduced, code) && NonZero(reduced)
    && (WellFormed(code) ==> WellFormed(reduced))
  }

  /** Erasing a cyclically adjacent pair id, -id drops exactly the ids id and -id. */
  lemma ErasePairIds(reduced: GaussCode, i: nat, j: nat, c: int)
    requires i < |reduced| && j < |reduced| && i != j && IsSameCross(reduced, i, j)
    requires c == Abs(reduced[i].id)
    ensures multiset(Ids(Erase2(reduced, i, j))) + multiset{c, -c} == multiset(Ids(reduced))
  {
    var x := reduced[i].id;
    var ids := Ids(reduced);
    IdsErase2(reduced, i, j);
    Erase2Drops(ids, i, j);
    assert ids[i] == x && ids[j] == -x;
    assert multiset{x, -x} == multiset{c, -c};
  }

  /** Erasing a cyclically adjacent pair id, -id drops exactly the two passages of crossing
      |id|, keeps the other entries in order and keeps the code well formed. */
  lemma ErasePairOfCrossing(code: GaussCode, reduced: GaussCode, added: seq<int>, i: nat, j: nat)
    requires Move1Kept(code, reduced, added)
    requires i < |reduced| && j == NextIndex(reduced, i) && IsSameCross(reduced, i, j)
    ensures i != j
    ensures Move1Kept(code, Erase2(reduced, i, j), added + [Abs(reduced[i].id)])
  {
    NextPrevValues(reduced, i);
    var c: int := Abs(reduced[i].id);
    var rest := Erase2(reduced, i, j);
    ErasePairIds(reduced, i, j, c);
    PairsAppend(added, c);
    Erase2InOrder(reduced, i, j);
    SubsequenceTransitive(rest, reduced, code);
    NonZeroIds(reduced);
    NonZeroIds(rest);
    if WellFormed(code) {
      ghost var ids, restIds := multiset(Ids(reduced)), multiset(Ids(rest));
      assert WellFormedIds(ids);
      RemovePairKeepsWellFormed(ids, restIds, c);
    }
  }

  /** One step of move 1: at position p of before the entry is followed (cyclically) by the
      other passage of its own crossing; both are erased, giving after, and the crossing's
      absolute id is recorded. */
  ghost predicate Move1Step(before: GaussCode, p: nat, id: int, after: GaussCode) {
    p < |before| && p != NextIndex(before, p) && IsSameCross(before, p, NextIndex(before, p))
    && id == Abs(before[p].id) && after == Erase2(before, p, NextIndex(before, p))
  }

  /** codes[0], codes[1], ... are the codes between the steps of a move 1 pass: step k erases the
      adjacent pair at position at[k] of codes[k] and records added[k]. */
  ghost predicate Move1Trace(codes: seq<GaussCode>, at: seq<nat>, added: seq<int>) {
    |codes| == |added| + 1 && |at| == |added|
    && forall k :: 0 <= k < |added| ==> Move1Step(codes[k], at[k], added[k], codes[k + 1])
  }

  /** The record of a move 1 pass so far: it starts at code and ends at reduced. */
  ghost predicate Move1Pass(code: GaussCode, steps: seq<GaussCode>, at: seq<nat>, added: seq<int>, reduced: GaussCode) {
    Move1Trace(steps, at, added) && steps[0] == code && steps[|steps| - 1] == reduced
  }

  /** Erasing an adjacent pair of the last code extends the record by that step. */
  lemma TraceExtend(code: GaussCode, steps: seq<GaussCode>, at: seq<nat>, added: seq<int>, reduced: GaussCode, i: nat)
    requires Move1Pass(code, steps, at, added, reduced)
    requires i < |reduced| && i != NextIndex(reduced, i) && IsSameCross(reduced, i, NextIndex(reduced, i))
    ensures Move1Pass(code, steps + [Erase2(reduced, i, NextIndex(reduced, i))], at + [i],
                      added + [Abs(reduced[i].id)], Erase2(reduced, i, NextIndex(reduced, i)))
  {
    var after := Erase2(reduced, i, NextIndex(reduced, i));
    var steps', at', added' := steps + [after], at + [i], added + [Abs(reduced[i].id)];
    forall k | 0 <= k < |added'|
      ensures Move1Step(steps'[k], at'[k], added'[k], steps'[k + 1])
    {
      if k < |added| {
        assert steps'[k] == steps[k] && steps'[k + 1] == steps[k + 1];
        assert Move1Step(steps[k], at[k], added[k], steps[k + 1]);
      }
    }
  }

  /** Some entry of the code is followed (cyclically) by the other passage of its crossing. */
  predicate HasAdjacentPair(code: GaussCode) {
    exists p :: 0 <= p < |code| && IsSameCross(code, p, NextIndex(code, p))
  }

  /** No entry before position n is followed by the other passage of its crossing. */
  predicate NoPairBefore(code: GaussCode, n: nat) {
    forall p :: 0 <= p < n && p < |code| ==> !IsSameCross(code, p, NextIndex(code, p))
  }

  lemma NoPairStep(code: GaussCode, n: nat)
    requires NoPairBefore(code, n) && n < |code| && !IsSameCross(code, n, NextIndex(code, n))
    ensures NoPairBefore(code, n + 1)
  {
  }

  lemma NoPairAtAll(code: GaussCode, n: nat)
    requires NoPairBefore(code, n) && n >= |code|
    ensures !HasAdjacentPair(code)
  {
  }

  /** The walk of tryReidmeisterMove1 from position i: where the entry at i is followed
      (cyclically) by the other passage of its own crossing, both are erased, the crossing's
      absolute id is recorded and the walk stays at i; otherwise it moves on to i + 1. The
      result is the code the walk leaves and the ids it erased, in order. (A lone entry is its
      own successor; it pairs with itself only with id 0, which the codes here never hold.) */
  function Move1From(code: GaussCode, i: nat): (GaussCode, seq<int>)
    decreases |code|, |code| - i
  {
    if i >= |code| then (code, [])
    else if i != NextIndex(code, i) && IsSameCross(code, i, NextIndex(code, i)) then
      var rest := Move1From(Erase2(code, i, NextIndex(code, i)), i);
      (rest.0, [Abs(code[i].id)] + rest.1)
    else Move1From(code, i + 1)
  }

  /** Erasing the adjacent pair at i is the walk's first step from i: what the walk then
      leaves and erases, after the crossing's id, is what it leaves and erases from i. */
  lemma Move1FromErase(code: GaussCode, i: nat, added: seq<int>)
    requires i < |code| && i != NextIndex(code, i) && IsSameCross(code, i, NextIndex(code, i))
    ensures var rest := Move1From(Erase2(code, i, NextIndex(code, i)), i);
            rest.0 == Move1From(code, i).0 && (added + [Abs(code[i].id)]) + rest.1 == added + Move1From(code, i).1
  {
    var rest := Move1From(Erase2(code, i, NextIndex(code, i)), i);
    assert (added + [Abs(code[i].id)]) + rest.1 == added + ([Abs(code[i].id)] + rest.1);
  }

  /** Passing an entry that starts no adjacent pair does not change what the walk leaves. */
  lemma Move1FromSkip(code: GaussCode, i: nat)
    requires i < |code| && !IsSameCross(code, i, NextIndex(code, i))
    ensures Move1From(code, i + 1) == Move1From(code, i)
  {
  }

  /** The walk's step at an adjacent pair, as one equation. */
  lemma Move1FromEraseAt(code: GaussCode, i: nat, id: int)
    requires i < |code| && i != NextIndex(code, i) && IsSameCross(code, i, NextIndex(code, i))
    requires id == Abs(code[i].id)
    ensures var rest := Move1From(Erase2(code, i, NextIndex(code, i)), i);
            Move1From(code, i) == (rest.0, [id] + rest.1)
  {
  }

  /** Passing a run of entries none of which starts an adjacent pair. */
  lemma {:induction false} Move1FromSkipRun(code: GaussCode, i: nat, k: nat)
    requires i <= k <= |code|
    requires forall p :: i <= p < k ==> !IsSameCross(code, p, NextIndex(code, p))
    ensures Move1From(code, i) == Move1From(code, k)
    decreases k - i
  {
    if i < k {
      Move1FromSkip(code, i);
      Move1FromSkipRun(code, i + 1, k);
    }
  }

  /** The first erasure of the walk on 3 1 4 -4 -2 6 7 -6 -7 -1 -5 5 2 -3: the pair 4 -4. */
  lemma Move1ExampleFirst(code: GaussCode)
    requires |code| == 14 && code[0].id == 3 && code[1].id == 1 && code[2].id == 4 && code[3].id == -4
    ensures var rest := Move1From(Erase2(code, 2, 3), 2); Move1From(code, 0) == (rest.0, [4] + rest.1)
  {
    Move1FromSkipRun(code, 0, 2);
    Move1FromEraseAt(code, 2, 4);
  }

  /** The second erasure: the pair -5 5. */
  lemma Move1ExampleSecond(code: GaussCode)
    requires |code| == 12 && code[2].id == -2 && code[3].id == 6 && code[4].id == 7 && code[5].id == -6
    requires code[6].id == -7 && code[7].id == -1 && code[8].id == -5 && code[9].id == 5
    ensures var rest := Move1From(Erase2(code, 8, 9), 8); Move1From(code, 2) == (rest.0, [5] + rest.1)
  {
    Move1FromSkipRun(code, 2, 8);
    Move1FromEraseAt(code, 8, 5);
  }

  /** The last erasure: the pair -3 3 that wraps around the end, after which the walk is done. */
  lemma Move1ExampleLast(code: GaussCode)
    requires |code| == 10 && code[0].id == 3 && code[8].id == 2 && code[9].id == -3
    ensures Move1From(code, 8) == (Erase2(code, 9, 0), [3])
  {
    assert NextIndex(code, 9) == 0;
    Move1FromSkip(code, 8);
    Move1FromEraseAt(code, 9, 3);
    assert |Erase2(code, 9, 0)| == 8;
    assert Move1From(Erase2(code, 9, 0), 9) == (Erase2(code, 9, 0), []);
    assert [3] + [] == [3];
  }

  /** Erasing two entries of a code erases the same two of its ids. */
  lemma ErasedIds(code: GaussCode, i: nat, j: nat, before: seq<int>, after: seq<int>)
    requires Ids(code) == before && i < |code| && j < |code| && i != j && Erase2(before, i, j) == after
    ensures Ids(Erase2(code, i, j)) == after
  {
    IdsErase2(code, i, j);
  }

  /** The three erasures of the example, on the ids alone. */
  lemma Move1ExampleErase1()
    ensures Erase2([3, 1, 4, -4, -2, 6, 7, -6, -7, -1, -5, 5, 2, -3], 2, 3)
            == [3, 1, -2, 6, 7, -6, -7, -1, -5, 5, 2, -3]
  {
    Erase2Keeps([3, 1, 4, -4, -2, 6, 7, -6, -7, -1, -5, 5, 2, -3], 2, 3);
  }

  lemma Move1ExampleErase2()
    ensures Erase2([3, 1, -2, 6, 7, -6, -7, -1, -5, 5, 2, -3], 8, 9) == [3, 1, -2, 6, 7, -6, -7, -1, 2, -3]
  {
    Erase2Keeps([3, 1, -2, 6, 7, -6, -7, -1, -5, 5, 2, -3], 8, 9);
  }

  lemma Move1ExampleErase3()
    ensures Erase2([3, 1, -2, 6, 7, -6, -7, -1, 2, -3], 9, 0) == [1, -2, 6, 7, -6, -7, -1, 2]
  {
    Erase2Keeps([3, 1, -2, 6, 7, -6, -7, -1, 2, -3], 9, 0);
  }

  /** The ids of the example code after each erasure. */
  lemma Move1ExampleIds(code: GaussCode)
    requires Ids(code) == [3, 1, 4, -4, -2, 6, 7, -6, -7, -1, -5, 5, 2, -3]
    ensures Ids(Erase2(code, 2, 3)) == [3, 1, -2, 6, 7, -6, -7, -1, -5, 5, 2, -3]
    ensures Ids(Erase2(Erase2(code, 2, 3), 8, 9)) == [3, 1, -2, 6, 7, -6, -7, -1, 2, -3]
    ensures Ids(Erase2(Erase2(Erase2(code, 2, 3), 8, 9), 9, 0)) == [1, -2, 6, 7, -6, -7, -1, 2]
  {
    var l0 := [3, 1, 4, -4, -2, 6, 7, -6, -7, -1, -5, 5, 2, -3];
    var l1 := [3, 1, -2, 6, 7, -6, -7, -1, -5, 5, 2, -3];
    var l2 := [3, 1, -2, 6, 7, -6, -7, -1, 2, -3];
    var c1 := Erase2(code, 2, 3);
    Move1ExampleErase1();
    ErasedIds(code, 2, 3, l0, l1);
    var c2 := Erase2(c1, 8, 9);
    Move1ExampleErase2();
    ErasedIds(c1, 8, 9, l1, l2);
    Move1ExampleErase3();
    ErasedIds(c2, 9, 0, l2, [1, -2, 6, 7, -6, -7, -1, 2]);
  }

  /** Entry p of a code has id Ids(code)[p]. */
  lemma IdAt(code: GaussCode, ids: seq<int>, p: nat)
    requires Ids(code) == ids && p < |ids|
    ensures |code| == |ids| && code[p].id == ids[p]
  {
    assert Ids(code)[p] == code[p].id;
  }

  /** The walk on 3 1 4 -4 -2 6 7 -6 -7 -1 -5 5 2 -3 erases the pair 4 -4, then -5 5, then the
      pair -3 3 that wraps around the end, leaving 1 -2 6 7 -6 -7 -1 2. */
  lemma Move1Example(code: GaussCode)
    requires Ids(code) == [3, 1, 4, -4, -2, 6, 7, -6, -7, -1, -5, 5, 2, -3]
    ensures Ids(Move1From(code, 0).0) == [1, -2, 6, 7, -6, -7, -1, 2]
    ensures Move1From(code, 0).1 == [4, 5, 3]
  {
    var l0 := [3, 1, 4, -4, -2, 6, 7, -6, -7, -1, -5, 5, 2, -3];
    var l1 := [3, 1, -2, 6, 7, -6, -7, -1, -5, 5, 2, -3];
    var l2 := [3, 1, -2, 6, 7, -6, -7, -1, 2, -3];
    Move1ExampleIds(code);
    var c1 := Erase2(code, 2, 3);
    var c2 := Erase2(c1, 8, 9);
    IdAt(code, l0, 0); IdAt(code, l0, 1); IdAt(code, l0, 2); IdAt(code, l0, 3);
    Move1ExampleFirst(code);
    IdAt(c1, l1, 2); IdAt(c1, l1, 3); IdAt(c1, l1, 4); IdAt(c1, l1, 5);
    IdAt(c1, l1, 6); IdAt(c1, l1, 7); IdAt(c1, l1, 8); IdAt(c1, l1, 9);
    Move1ExampleSecond(c1);
    IdAt(c2, l2, 0); IdAt(c2, l2, 8); IdAt(c2, l2, 9);
    Move1ExampleLast(c2);
  }

  /** What the move 1 walk keeps at position i: the erasures so far (added, with their record
      steps and at) took code to reduced, and while nothing was erased no entry before i starts
      an adjacent pair. */
  ghost predicate Move1Walk(code: GaussCode, reduced: GaussCode, added: seq<int>, steps: seq<GaussCode>,
                            at: seq<nat>, performed: bool, i: nat) {
    Move1Kept(code, reduced, added) && Move1Pass(code, steps, at, added, reduced)
    && (performed <==> |added| > 0)
    && (!performed ==> reduced == code && NoPairBefore(code, i))
  }

  /** Erasing the adjacent pair at i keeps the walk. */
  lemma WalkErase(code: GaussCode, reduced: GaussCode, added: seq<int>, steps: seq<GaussCode>,
                  at: seq<nat>, performed: bool, i: nat)
    requires Move1Walk(code, reduced, added, steps, at, performed, i)
    requires i < |reduced| && IsSameCross(reduced, i, NextIndex(reduced, i))
    ensures i != NextIndex(reduced, i)
    ensures var after := Erase2(reduced, i, NextIndex(reduced, i));
            Move1Walk(code, after, added + [Abs(reduced[i].id)], steps + [after], at + [i], true, i)
            && Move1From(after, i).0 == Move1From(reduced, i).0
            && (added + [Abs(reduced[i].id)]) + Move1From(after, i).1 == added + Move1From(reduced, i).1
  {
    ErasePairOfCrossing(code, reduced, added, i, NextIndex(reduced, i));
    TraceExtend(code, steps, at, added, reduced, i);
    Move1FromErase(reduced, i, added);
  }

  /** Stepping past an entry that starts no adjacent pair keeps the walk. */
  lemma WalkSkip(code: GaussCode, reduced: GaussCode, added: seq<int>, steps: seq<GaussCode>,
                 at: seq<nat>, performed: bool, i: nat)
    requires Move1Walk(code, reduced, added, steps, at, performed, i)
    requires i < |reduced| && !IsSameCross(reduced, i, NextIndex(reduced, i))
    ensures Move1Walk(code, reduced, added, steps, at, performed, i + 1)
    ensures Move1From(reduced, i + 1) == Move1From(reduced, i)
  {
    if !performed {
      NoPairStep(code, i);
    }
    Move1FromSkip(reduced, i);
  }

  /** At the end of the walk something was erased exactly when the code had an adjacent pair. */
  lemma WalkDone(code: GaussCode, reduced: GaussCode, added: seq<int>, steps: seq<GaussCode>,
                 at: seq<nat>, performed: bool, i: nat)
    requires Move1Walk(code, reduced, added, steps, at, performed, i) && i >= |reduced|
    ensures performed <==> HasAdjacentPair(code)
    ensures performed <==> |added| > 0
    ensures Move1Trace(steps, at, added) && steps[0] == code && steps[|steps| - 1] == reduced
    ensures |reduced| == |code| - 2 * |added|
    ensures multiset(Ids(reduced)) + Pairs(added) == multiset(Ids(code))
    ensures Subsequence(reduced, code)
    ensures WellFormed(code) ==> WellFormed(reduced)
    ensures !performed ==> reduced == code
  {
    if performed {
      assert Move1Step(steps[0], at[0], added[0], steps[1]);
    } else {
      NoPairAtAll(code, i);
    }
  }

  /** One visit of the move 1 walk at position i: if the entry there is followed by the other
      passage of its crossing both are erased and the crossing's absolute id is appended to
      added (the walk stays at i); otherwise the walk moves on to i + 1. */
  method Move1Visit(ghost code: GaussCode, reduced: GaussCode, added: seq<int>, ghost steps: seq<GaussCode>,
                    ghost at: seq<nat>, performed: bool, i: nat)
    returns (next: GaussCode, added': seq<int>, ghost steps': seq<GaussCode>, ghost at': seq<nat>,
             performed': bool, i': nat)
    requires Move1Walk(code, reduced, added, steps, at, performed, i) && i < |reduced|
    ensures Move1Walk(code, next, added', steps', at', performed', i')
    ensures IsSameCross(reduced, i, NextIndex(reduced, i)) ==>
              |next| < |reduced| && i' == i && added' == added + [Abs(reduced[i].id)]
    ensures !IsSameCross(reduced, i, NextIndex(reduced, i)) ==> next == reduced && added' == added && i' == i + 1
    ensures Move1From(next, i').0 == Move1From(reduced, i).0
    ensures added' + Move1From(next, i').1 == added + Move1From(reduced, i).1
  {
    var j := NextIndex(reduced, i);
    if IsSameCross(reduced, i, j) {
      WalkErase(code, reduced, added, steps, at, performed, i);
      next := Erase2(reduced, i, j);
      added', steps', at' := added + [Abs(reduced[i].id)], steps + [next], at + [i];
      performed', i' := true, i;
    } else {
      WalkSkip(code, reduced, added, steps, at, performed, i);
      next, added', steps', at', performed', i' := reduced, added, steps, at, performed, i + 1;
    }
  }

  /** tryReidmeisterMove1: walking along the code, every entry followed (cyclically) by the
      other passage of its own crossing is erased together with it, and the crossing's
      absolute id is appended to erased. The result says whether anything was erased, which
      happens exactly when the code has such an adjacent pair. The ghost steps and at give the
      codes between the erasures and the positions erased, each one an adjacent pair of the
      code as it stood then. */
  method TryMove1(code: GaussCode, erased: seq<int>)
    returns (reduced: GaussCode, erasedAfter: seq<int>, performed: bool, ghost steps: seq<GaussCode>, ghost at: seq<nat>)
    requires NonZero(code)
    ensures |erasedAfter| >= |erased| && erasedAfter[..|erased|] == erased
    ensures performed <==> |erasedAfter| > |erased|
    ensures performed <==> HasAdjacentPair(code)
    ensures Move1Trace(steps, at, erasedAfter[|erased|..]) && steps[0] == code && steps[|steps| - 1] == reduced
    ensures |reduced| == |code| - 2 * (|erasedAfter| - |erased|)
    ensures multiset(Ids(reduced)) + Pairs(erasedAfter[|erased|..]) == multiset(Ids(code))
    ensures Subsequence(reduced, code)
    ensures WellFormed(code) ==> WellFormed(reduced)
    ensures !performed ==> reduced == code
    ensures reduced == Move1From(code, 0).0 && erasedAfter == erased + Move1From(code, 0).1
  {
    reduced, performed := code, false;
    var added: seq<int> := [];
    steps, at := [code], [];
    SubsequenceOfItself(code);
    var i: nat := 0;
    while i < |reduced|
      invariant Move1Walk(code, reduced, added, steps, at, performed, i)
      invariant Move1From(reduced, i).0 == Move1From(code, 0).0
      invariant added + Move1From(reduced, i).1 == Move1From(code, 0).1
      decreases |reduced|, |reduced| - i
    {
      reduced, added, steps, at, performed, i := Move1Visit(code, reduced, added, steps, at, performed, i);
    }
    WalkDone(code, reduced, added, steps, at, performed, i);
    assert added + [] == added;
    erasedAfter := erased + added;
    assert erasedAfter[..|erased|] == erased && erasedAfter[|erased|..] == added;
  }

  // ---------------------------------------------------------------- move 2

  /** The position d steps after i along the closed code (d at most one full turn). */
  function Offset(code: GaussCode, i: nat, d: nat): (p: nat)
    requires i < |code| && d <= |code|
    ensures p < |code|
  {
    if i + d < |code| then i + d else i + d - |code|
  }

  /** nextIndex steps one further along the closed code. */
  lemma OffsetNext(code: GaussCode, i: nat, d: nat)
    requires i < |code| && d < |code|
    ensures NextIndex(code, Offset(code, i, d)) == Offset(code, i, d + 1)
  {
    NextPrevValues(code, Offset(code, i, d));
  }

  /** A move 2 found by the search: entries i and i + 1 pass the strand of entries i + d and
      i + d + 1 twice, both over or both under it. */
  predicate Move2At(code: GaussCode, i: nat, d: nat) {
    i < |code| && 2 <= d && d + 1 < |code|
    && DoesOverlap(code, i, Offset(code, i, 1), Offset(code, i, d), Offset(code, i, d + 1))
  }

  /** No move 2 comes earlier in the search order: by first entry i, then by distance d. */
  ghost predicate FirstMove2(code: GaussCode, i: nat, d: nat) {
    (forall i': nat, d': nat :: i' < i ==> !Move2At(code, i', d'))
    && (forall d': nat :: d' < d ==> !Move2At(code, i, d'))
  }

  /** The four positions of a move 2 are distinct. */
  lemma Move2Distinct(code: GaussCode, i: nat, d: nat)
    requires Move2At(code, i, d)
    ensures var j, k, l := Offset(code, i, 1), Offset(code, i, d), Offset(code, i, d + 1);
            i != j && i != k && i != l && j != k && j != l && k != l
  {
  }

  /** The code after a move 2: its four entries erased. */
  function Move2Erase(code: GaussCode, i: nat, d: nat): GaussCode
    requires Move2At(code, i, d)
  {
    Move2Distinct(code, i, d);
    Erase4(code, i, Offset(code, i, 1), Offset(code, i, d), Offset(code, i, d + 1))
  }

  lemma AbsPair(w: int, a: int)
    requires a == Abs(w)
    ensures multiset{w, -w} == multiset{a, -a}
  {
  }

  /** Two ids and their negations, in either order. */
  lemma CrossedIds(w: int, x: int, y: int, z: int)
    requires (y == -w && z == -x) || (z == -w && y == -x)
    ensures multiset{w} + multiset{x} + multiset{y} + multiset{z} == multiset{w, -w} + multiset{x, -x}
  {
  }

  /** The entries of a move 2 are the two passages of two crossings. */
  lemma Move2Ids(code: GaussCode, i: nat, d: nat, a: int, b: int)
    requires Move2At(code, i, d)
    requires a == Abs(code[i].id) && b == Abs(code[Offset(code, i, 1)].id)
    ensures Entries(Ids(code), Quad(i, Offset(code, i, 1), Offset(code, i, d), Offset(code, i, d + 1)))
            == multiset{a, -a} + multiset{b, -b}
  {
    var j, k, l := Offset(code, i, 1), Offset(code, i, d), Offset(code, i, d + 1);
    var ids := Ids(code);
    var w, x, y, z := code[i].id, code[j].id, code[k].id, code[l].id;
    assert Entries(ids, Quad(i, j, k, l)) == multiset{w} + multiset{x} + multiset{y} + multiset{z};
    CrossedIds(w, x, y, z);
    AbsPair(w, a);
    AbsPair(x, b);
  }

  /** A move 2 drops exactly the two passages of its two crossings. */
  lemma Move2DropsIds(code: GaussCode, i: nat, d: nat, a: int, b: int)
    requires Move2At(code, i, d)
    requires a == Abs(code[i].id) && b == Abs(code[Offset(code, i, 1)].id)
    ensures multiset(Ids(Move2Erase(code, i, d))) + multiset{a, -a} + multiset{b, -b} == multiset(Ids(code))
  {
    var j, k, l := Offset(code, i, 1), Offset(code, i, d), Offset(code, i, d + 1);
    Move2Distinct(code, i, d);
    var ids := Ids(code);
    var rest := multiset(Ids(Move2Erase(code, i, d)));
    IdsErase4(code, i, j, k, l);
    assert rest == multiset(Erase4(ids, i, j, k, l));
    Erase4Drops(ids, i, j, k, l);
    Move2Ids(code, i, d, a, b);
    assert rest + (multiset{a, -a} + multiset{b, -b}) == multiset(ids);
  }

  /** A move 2 keeps the other entries in order. */
  lemma Move2InOrder(code: GaussCode, i: nat, d: nat)
    requires Move2At(code, i, d)
    ensures Subsequence(Move2Erase(code, i, d), code)
  {
    Move2Distinct(code, i, d);
    Erase4InOrder(code, i, Offset(code, i, 1), Offset(code, i, d), Offset(code, i, d + 1));
  }

  /** A move 2 keeps a well-formed code well formed. */
  lemma Move2KeepsWellFormed(code: GaussCode, i: nat, d: nat)
    requires Move2At(code, i, d) && WellFormed(code)
    ensures WellFormed(Move2Erase(code, i, d))
  {
    var a: int, b: int := Abs(code[i].id), Abs(code[Offset(code, i, 1)].id);
    Move2DropsIds(code, i, d, a, b);
    ghost var ids, restIds := multiset(Ids(code)), multiset(Ids(Move2Erase(code, i, d)));
    assert WellFormedIds(ids);
    RemovePairKeepsWellFormed(ids, restIds + multiset{a, -a}, b);
    RemovePairKeepsWellFormed(restIds + multiset{a, -a}, restIds, a);
  }

  /** The inner loop of tryReidmeisterMove2: with entry i followed by j on the same side, the
      consecutive pairs k, l from two entries after i onwards are tried in order until l comes
      back to i; the first pair that overlaps i, j is returned. */
  method SearchStrand(code: GaussCode, i: nat, j: nat) returns (found: bool, k: nat, l: nat, ghost d: nat)
    requires i < |code| && j == NextIndex(code, i) && IsSameSign(code, i, j)
    ensures found ==> Move2At(code, i, d) && k == Offset(code, i, d) && l == Offset(code, i, d + 1)
    ensures found ==> forall d': nat :: d' < d ==> !Move2At(code, i, d')
    ensures !found ==> forall d': nat :: !Move2At(code, i, d')
  {
    NextPrevValues(code, i);
    assert j == Offset(code, i, 1);
    k := NextIndex(code, j);
    NextPrevValues(code, j);
    l := NextIndex(code, k);
    NextPrevValues(code, k);
    d := 2;
    while l != i
      invariant k < |code| && l < |code| && l == NextIndex(code, k)
      invariant |code| >= 3 ==> 2 <= d && d + 1 <= |code| && k == Offset(code, i, d) && l == Offset(code, i, d + 1)
      invariant forall d': nat :: d' < d ==> !Move2At(code, i, d')
      decreases Gap(code, l, i)
    {
      NextPrevValues(code, l);
      if |code| >= 3 && DoesOverlap(code, i, j, k, l) {
        return true, k, l, d;
      }
      if |code| >= 3 {
        OffsetNext(code, i, d + 1);
      }
      k := l;
      l := NextIndex(code, k);
      d := d + 1;
    }
    found := false;
  }

  /** tryReidmeisterMove2: for each entry i whose successor j passes on the same side, the
      pairs k, l of consecutive entries further on are tried in order until the search comes
      back to i; the first pair whose crossings are those of i and j is erased with them, the
      absolute ids of i and j are appended to erased and the result is true. */
  method TryMove2(code: GaussCode, erased: seq<int>) returns (reduced: GaussCode, erasedAfter: seq<int>, performed: bool)
    ensures !performed ==> reduced == code && erasedAfter == erased
    ensures !performed ==> forall i: nat, d: nat :: !Move2At(code, i, d)
    ensures performed ==> exists i: nat, d: nat :: (Move2At(code, i, d) && FirstMove2(code, i, d)
                                                    && reduced == Move2Erase(code, i, d)
                                                    && erasedAfter == erased + [Abs(code[i].id), Abs(code[Offset(code, i, 1)].id)])
  {
    var i := 0;
    while i < |code|
      invariant i <= |code|
      invariant forall i': nat, d': nat :: i' < i ==> !Move2At(code, i', d')
    {
      var j := NextIndex(code, i);
      NextPrevValues(code, i);
      assert j == Offset(code, i, 1);
      if IsSameSign(code, i, j) {
        var found, k, l, d := SearchStrand(code, i, j);
        if found {
          Move2Distinct(code, i, d);
          reduced := Erase4(code, i, j, k, l);
          erasedAfter := erased + [Abs(code[i].id), Abs(code[j].id)];
          performed := true;
          return;
        }
      }
      i := i + 1;
    }
    reduced, erasedAfter, performed := code, erased, false;
  }

  /** How many steps along the closed code lead from one position to another. */
  function Gap(code: GaussCode, from: nat, to: nat): nat
    requires from < |code| && to < |code|
  {
    if from <= to then to - from else to + |code| - from
  }
}

// Renumbering the crossings left after Reidemeister moves: the absolute ids still present are
// mapped to 1, 2, ... in the order in which the rope first meets them, and every entry keeps
// its sign (over or under).
module CrossingRenumbering {
  import opened GaussCodes

  /** The absolute ids present in a code. */
  function AbsIds(code: GaussCode): set<nat> {
    set p | 0 <= p < |code| :: Abs(code[p].id)
  }

  /** The map oldToNew once the loop has passed over code: an absolute id met for the first
      time gets the next number. */
  function Renumbering(code: GaussCode): map<nat, nat>
    decreases |code|
  {
    if code == [] then map[]
    else
      var before := Renumbering(code[..|code| - 1]);
      var id := Abs(code[|code| - 1].id);
      if id in before then before else before[id := |before| + 1]
  }

  predicate Injective(m: map<nat, nat>) {
    forall a, b :: a in m && b in m && m[a] == m[b] ==> a == b
  }

  lemma AbsIdsAppend(code: GaussCode)
    requires code != []
    ensures AbsIds(code) == AbsIds(code[..|code| - 1]) + {Abs(code[|code| - 1].id)}
  {
    var front := code[..|code| - 1];
    forall x | x in AbsIds(code)
      ensures x in AbsIds(front) + {Abs(code[|code| - 1].id)}
    {
      var p :| 0 <= p < |code| && Abs(code[p].id) == x;
      if p < |front| {
        assert Abs(front[p].id) == x;
      }
    }
    forall x | x in AbsIds(front)
      ensures x in AbsIds(code)
    {
      var p :| 0 <= p < |front| && Abs(front[p].id) == x;
      assert Abs(code[p].id) == x;
    }
  }

  /** Every absolute id of the code, and nothing else, gets a number. */
  lemma {:induction false} RenumberingKeys(code: GaussCode)
    ensures Renumbering(code).Keys == AbsIds(code)
    decreases |code|
  {
    if code != [] {
      RenumberingKeys(code[..|code| - 1]);
      AbsIdsAppend(code);
    }
  }

  /** The numbers given are exactly 1 to the number of absolute ids. */
  lemma {:induction false} RenumberingRange(code: GaussCode)
    ensures forall v :: v in Renumbering(code).Values <==> 1 <= v <= |Renumbering(code)|
    decreases |code|
  {
    if code != [] {
      var before := Renumbering(code[..|code| - 1]);
      var id := Abs(code[|code| - 1].id);
      RenumberingRange(code[..|code| - 1]);
      if id !in before {
        var after := before[id := |before| + 1];
        forall v | v in after.Values
          ensures 1 <= v <= |before| + 1
        {
          var k :| k in after && after[k] == v;
          if k != id {
            assert v in before.Values;
          }
        }
        forall v | 1 <= v <= |before| + 1
          ensures v in after.Values
        {
          if v <= |before| {
            assert v in before.Values;
            var k :| k in before && before[k] == v;
            assert after[k] == v;
          } else {
            assert after[id] == v;
          }
        }
      }
    }
  }

  /** No two absolute ids get the same number. */
  lemma {:induction false} RenumberingInjective(code: GaussCode)
    ensures Injective(Renumbering(code))
    decreases |code|
  {
    if code != [] {
      var before := Renumbering(code[..|code| - 1]);
      RenumberingRange(code[..|code| - 1]);
      RenumberingInjective(code[..|code| - 1]);
      forall k | k in before
        ensures before[k] != |before| + 1
      {
        assert before[k] in before.Values;
      }
    }
  }

  /** The loop never changes a number once given: the map for a prefix is part of the map for
      the whole code. */
  lemma {:induction false} RenumberingPrefix(code: GaussCode, n: nat)
    requires n <= |code|
    ensures forall k :: k in Renumbering(code[..n]) ==> k in Renumbering(code)
                                                         && Renumbering(code)[k] == Renumbering(code[..n])[k]
    decreases |code|
  {
    if n < |code| {
      var front := code[..|code| - 1];
      assert front[..n] == code[..n];
      RenumberingPrefix(front, n);
    } else {
      assert code[..n] == code;
    }
  }

  /** One pass of the loop: the map grows by the id at p when it is new, and the number that
      id gets is already its final one. */
  lemma RenumberingStep(code: GaussCode, p: nat)
    requires p < |code|
    ensures var before := Renumbering(code[..p]);
            var id := Abs(code[p].id);
            Renumbering(code[..p + 1]) == (if id in before then before else before[id := |before| + 1])
            && id in Renumbering(code) && Renumbering(code)[id] == Renumbering(code[..p + 1])[id]
  {
    assert code[..p + 1][..p] == code[..p];
    RenumberingPrefix(code, p + 1);
  }

  /** The entry with its id renumbered and its sign kept. */
  function Relabel(x: Crossing, m: map<nat, nat>): Crossing
    requires Abs(x.id) in m
  {
    x.(id := Sign(x.id) * m[Abs(x.id)])
  }

  /** adjustGaussCodeForErasedCrossings, as a function of the code. */
  function Renumbered(code: GaussCode): (r: GaussCode)
    ensures |r| == |code|
  {
    RenumberingKeys(code);
    seq(|code|, p requires 0 <= p < |code| => Relabel(code[p], Renumbering(code)))
  }

  /** adjustGaussCodeForErasedCrossings: one pass over the code with the map oldToNew and the
      counter next, renumbering each entry in place. */
  method AdjustIds(code: GaussCode) returns (adjusted: GaussCode)
    ensures adjusted == Renumbered(code)
  {
    var oldToNew: map<nat, nat> := map[];
    var next := 1;
    adjusted := code;
    RenumberingKeys(code);
    for p := 0 to |code|
      invariant |adjusted| == |code|
      invariant oldToNew == Renumbering(code[..p]) && next == |oldToNew| + 1
      invariant forall q :: 0 <= q < p ==> adjusted[q] == Relabel(code[q], Renumbering(code))
      invariant forall q :: p <= q < |code| ==> adjusted[q] == code[q]
    {
      RenumberingStep(code, p);
      var id := Abs(adjusted[p].id);
      var newId;
      if id !in oldToNew {
        newId := next;
        next := next + 1;
        oldToNew := oldToNew[id := newId];
      } else {
        newId := oldToNew[id];
      }
      adjusted := adjusted[p := adjusted[p].(id := Sign(adjusted[p].id) * newId)];
    }
  }

  /** The absolute id an entry ends with: its number, or 0 for an id 0 (whose sign is 0). */
  lemma RenumberedAbs(code: GaussCode, p: nat)
    requires p < |code|
    ensures Abs(code[p].id) in Renumbering(code)
    ensures Abs(Renumbered(code)[p].id) == if code[p].id == 0 then 0 else Renumbering(code)[Abs(code[p].id)]
    ensures code[p].id != 0 ==> Renumbering(code)[Abs(code[p].id)] >= 1
  {
    var m := Renumbering(code);
    RenumberingKeys(code);
    RenumberingRange(code);
    assert m[Abs(code[p].id)] in m.Values;
  }

  /** Every entry keeps its sign, its segment, its place on the segment and its handedness. */
  lemma RenumberedKeepsSigns(code: GaussCode, p: nat)
    requires p < |code|
    ensures Sign(Renumbered(code)[p].id) == Sign(code[p].id)
    ensures Renumbered(code)[p].(id := code[p].id) == code[p]
  {
    RenumberedAbs(code, p);
  }

  /** Two entries are passages of the same crossing after renumbering exactly when they were
      before. */
  lemma RenumberedSameCrossing(code: GaussCode, p: nat, q: nat)
    requires p < |code| && q < |code|
    ensures Abs(code[p].id) == Abs(code[q].id) <==> Abs(Renumbered(code)[p].id) == Abs(Renumbered(code)[q].id)
  {
    RenumberedAbs(code, p);
    RenumberedAbs(code, q);
    RenumberingInjective(code);
  }

  /** Without id 0, the absolute ids after renumbering are exactly 1 to the number of
      crossings present. */
  lemma RenumberedConsecutive(code: GaussCode)
    requires NonZero(code)
    ensures forall k :: k in AbsIds(Renumbered(code)) <==> 1 <= k <= |AbsIds(code)|
  {
    var m, r := Renumbering(code), Renumbered(code);
    RenumberingKeys(code);
    RenumberingRange(code);
    assert |m| == |AbsIds(code)| by {
      assert |m| == |m.Keys|;
    }
    forall k | k in AbsIds(r)
      ensures k in m.Values
    {
      var p :| 0 <= p < |r| && Abs(r[p].id) == k;
      RenumberedAbs(code, p);
    }
    forall k | k in m.Values
      ensures k in AbsIds(r)
    {
      var a :| a in m && m[a] == k;
      var p :| 0 <= p < |code| && Abs(code[p].id) == a;
      RenumberedAbs(code, p);
      assert Abs(r[p].id) == k;
    }
  }

  /** An entry that meets its crossing for the first time gets the next number: one more than
      the number of crossings met before it. */
  lemma RenumberedFirstAppearance(code: GaussCode, p: nat)
    requires p < |code| && code[p].id != 0 && Abs(code[p].id) !in AbsIds(code[..p])
    ensures Abs(Renumbered(code)[p].id) == |AbsIds(code[..p])| + 1
  {
    var before := Renumbering(code[..p]);
    assert code[..p + 1][..p] == code[..p];
    RenumberingKeys(code[..p]);
    assert |before| == |before.Keys|;
    RenumberingPrefix(code, p + 1);
    RenumberedAbs(code, p);
  }

  /** The ids s renumbered by m, signs kept. */
  function Mapped(s: seq<int>, m: map<nat, nat>): seq<int>
    requires forall p :: 0 <= p < |s| ==> Abs(s[p]) in m
  {
    seq(|s|, p requires 0 <= p < |s| => Sign(s[p]) * m[Abs(s[p])])
  }

  /** Renumbering with numbers from 1 up never sends two different ids to the same id. */
  lemma SignedNumbers(x: int, y: int, m: map<nat, nat>)
    requires Abs(x) in m && Abs(y) in m && Injective(m) && m[Abs(x)] >= 1 && m[Abs(y)] >= 1
    requires x != 0 && Sign(x) * m[Abs(x)] == Sign(y) * m[Abs(y)]
    ensures x == y
  {
    if y != 0 {
      assert Sign(x) == Sign(y) && m[Abs(x)] == m[Abs(y)];
    }
  }

  /** Renumbering keeps how often each id occurs. */
  lemma {:induction false} MappedCount(s: seq<int>, m: map<nat, nat>, x: int)
    requires forall p :: 0 <= p < |s| ==> Abs(s[p]) in m
    requires Injective(m) && forall k :: k in m ==> m[k] >= 1
    requires x != 0 && Abs(x) in m
    ensures multiset(Mapped(s, m))[Sign(x) * m[Abs(x)]] == multiset(s)[x]
    decreases |s|
  {
    if s != [] {
      var front, last := s[..|s| - 1], s[|s| - 1];
      MappedCount(front, m, x);
      assert s == front + [last];
      assert Mapped(s, m) == Mapped(front, m) + [Sign(last) * m[Abs(last)]];
      if Sign(last) * m[Abs(last)] == Sign(x) * m[Abs(x)] {
        SignedNumbers(x, last, m);
      }
    }
  }

  /** Renumbering by an injective map with numbers from 1 up keeps ids well formed. */
  lemma MappedKeepsWellFormed(s: seq<int>, m: map<nat, nat>)
    requires forall p :: 0 <= p < |s| ==> Abs(s[p]) in m
    requires Injective(m) && forall k :: k in m ==> m[k] >= 1
    requires WellFormedIds(multiset(s))
    ensures WellFormedIds(multiset(Mapped(s, m)))
  {
    var renumbered := Mapped(s, m);
    forall y | y in multiset(renumbered)
      ensures y != 0 && multiset(renumbered)[y] == 1 && multiset(renumbered)[-y] == 1
    {
      var p :| 0 <= p < |renumbered| && renumbered[p] == y;
      var x := s[p];
      assert x in multiset(s);
      MappedCount(s, m, x);
      MappedCount(s, m, -x);
      assert Sign(-x) * m[Abs(-x)] == -y;
    }
  }

  /** The ids of the renumbered code are the ids of the code renumbered by its map, whose
      numbers start at 1. */
  lemma IdsRenumbered(code: GaussCode)
    ensures forall p :: 0 <= p < |Ids(code)| ==> Abs(Ids(code)[p]) in Renumbering(code)
    ensures Ids(Renumbered(code)) == Mapped(Ids(code), Renumbering(code))
    ensures forall k :: k in Renumbering(code) ==> Renumbering(code)[k] >= 1
  {
    var m := Renumbering(code);
    RenumberingKeys(code);
    RenumberingRange(code);
    forall k | k in m
      ensures m[k] >= 1
    {
      assert m[k] in m.Values;
    }
    forall p | 0 <= p < |code|
      ensures Abs(Ids(code)[p]) in m
    {
      assert Abs(code[p].id) in AbsIds(code);
    }
  }

  /** Renumbering a well-formed code gives a well-formed code. */
  lemma RenumberedKeepsWellFormed(code: GaussCode)
    requires WellFormed(code)
    ensures WellFormed(Renumbered(code))
  {
    IdsRenumbered(code);
    RenumberingInjective(code);
    MappedKeepsWellFormed(Ids(code), Renumbering(code));
  }
}

// Gauss codes of knot diagrams: the sequence of crossings met along the rope, each signed by
// whether the rope passes over (+) or under (-), and the operations on them shared by the
// Reidemeister moves.
module GaussCodes {
  /** A crossing of the projected rope: its signed id, where along the rope it lies, and its
      handedness (the field the source calls sign). */
  datatype Crossing = Crossing(id: int, segmentId: nat, segmentLocation: real, sign: int)

  type GaussCode = seq<Crossing>

  function Abs(x: int): nat {
    if x < 0 then -x else x
  }

  /** boost::math::sign */
  function Sign(x: int): int {
    if x > 0 then 1 else if x < 0 then -1 else 0
  }

  function Ids(code: GaussCode): seq<int> {
    seq(|code|, p requires 0 <= p < |code| => code[p].id)
  }

  // ---------------------------------------------------------------- cyclic indices

  /** nextIndex */
  function NextIndex(code: GaussCode, i: nat): nat
    requires |code| > 0
  {
    (i + 1) % |code|
  }

  /** prevIndex */
  function PrevIndex(code: GaussCode, i: nat): nat
    requires |code| > 0
  {
    (i + |code| - 1) % |code|
  }

  lemma ModBelow(x: int, n: int)
    requires 0 <= x < n
    ensures x % n == x
  {
  }

  lemma ModOneCycle(x: int, n: int)
    requires n <= x < 2 * n
    ensures x % n == x - n
  {
    assert x == (x - n) + n;
  }

  /** nextIndex and prevIndex step to the neighbouring entry, wrapping around at the ends. */
  lemma NextPrevValues(code: GaussCode, i: nat)
    requires i < |code|
    ensures NextIndex(code, i) == if i == |code| - 1 then 0 else i + 1
    ensures PrevIndex(code, i) == if i == 0 then |code| - 1 else i - 1
  {
    var n := |code|;
    if i == n - 1 {
      ModOneCycle(i + 1, n);
    } else {
      ModBelow(i + 1, n);
    }
    if i == 0 {
      ModBelow(i + n - 1, n);
    } else {
      ModOneCycle(i + n - 1, n);
    }
  }

  /** Both indices stay in the code and undo each other. */
  lemma CyclicIndices(code: GaussCode, i: nat)
    requires i < |code|
    ensures NextIndex(code, i) < |code| && PrevIndex(code, i) < |code|
    ensures PrevIndex(code, NextIndex(code, i)) == i
    ensures NextIndex(code, PrevIndex(code, i)) == i
  {
    NextPrevValues(code, i);
    NextPrevValues(code, NextIndex(code, i));
    NextPrevValues(code, PrevIndex(code, i));
  }

  // ---------------------------------------------------------------- entry tests

  /** isSameSign: both entries pass over, or both under. */
  predicate IsSameSign(code: GaussCode, i: nat, j: nat)
    requires i < |code| && j < |code|
  {
    Sign(code[i].id) == Sign(code[j].id)
  }

  /** isSameCross: the two entries are the two passages of one crossing. */
  predicate IsSameCross(code: GaussCode, i: nat, j: nat)
    requires i < |code| && j < |code|
  {
    code[i].id == -code[j].id
  }

  /** doesOverlap: the strand i..j and the strand k..l cross each other twice, one over and
      one under the other. */
  predicate DoesOverlap(code: GaussCode, i: nat, j: nat, k: nat, l: nat)
    requires i < |code| && j < |code| && k < |code| && l < |code|
  {
    IsSameSign(code, i, j) && IsSameSign(code, k, l) && !IsSameSign(code, i, k)
    && ((IsSameCross(code, i, k) && IsSameCross(code, j, l)) || (IsSameCross(code, i, l) && IsSameCross(code, j, k)))
  }

  // ---------------------------------------------------------------- erasing entries

  /** vector::erase of one position. */
  function RemoveAt<T>(s: seq<T>, p: nat): seq<T>
    requires p < |s|
  {
    s[..p] + s[p + 1..]
  }

  lemma RemoveAtMultiset<T>(s: seq<T>, p: nat)
    requires p < |s|
    ensures multiset(RemoveAt(s, p)) + multiset{s[p]} == multiset(s)
  {
    assert s == s[..p] + [s[p]] + s[p + 1..];
  }

  /** t keeps some of the entries of s, in the order of s. */
  predicate Subsequence<T(==)>(t: seq<T>, s: seq<T>)
    decreases |s|
  {
    if t == [] then true
    else if s == [] then false
    else (t[0] == s[0] && Subsequence(t[1..], s[1..])) || Subsequence(t, s[1..])
  }

  lemma {:induction false} SubsequenceOfItself<T>(s: seq<T>)
    ensures Subsequence(s, s)
    decreases |s|
  {
    if s != [] {
      SubsequenceOfItself(s[1..]);
    }
  }

  lemma {:induction false} RemoveAtSubsequence<T>(s: seq<T>, p: nat)
    requires p < |s|
    ensures Subsequence(RemoveAt(s, p), s)
    decreases p
  {
    if p == 0 {
      assert RemoveAt(s, p) == s[1..];
      SubsequenceOfItself(s[1..]);
      assert Subsequence(RemoveAt(s, p), s[1..]);
    } else {
      assert RemoveAt(s, p)[1..] == RemoveAt(s[1..], p - 1);
      RemoveAtSubsequence(s[1..], p - 1);
    }
  }

  lemma {:induction false} SubsequenceTransitive<T>(a: seq<T>, b: seq<T>, c: seq<T>)
    requires Subsequence(a, b) && Subsequence(b, c)
    ensures Subsequence(a, c)
    decreases |c|
  {
    if a != [] {
      if b[0] == c[0] && Subsequence(b[1..], c[1..]) {
        if a[0] == b[0] && Subsequence(a[1..], b[1..]) {
          SubsequenceTransitive(a[1..], b[1..], c[1..]);
        } else {
          SubsequenceTransitive(a, b[1..], c[1..]);
        }
      } else {
        SubsequenceTransitive(a, b, c[1..]);
      }
    }
  }

  function Min(i: nat, j: nat): nat {
    if i < j then i else j
  }

  function Max(i: nat, j: nat): nat {
    if i < j then j else i
  }

  /** erase(code, i, j): the later position goes first, so the earlier one still names the
      same entry. */
  function Erase2<T>(code: seq<T>, i: nat, j: nat): seq<T>
    requires i < |code| && j < |code| && i != j
  {
    RemoveAt(RemoveAt(code, Max(i, j)), Min(i, j))
  }

  /** erase(code, i, j) keeps the entries before, between and after the two positions. */
  lemma Erase2Keeps<T>(code: seq<T>, i: nat, j: nat)
    requires i < |code| && j < |code| && i != j
    ensures Erase2(code, i, j)
            == code[..Min(i, j)] + code[Min(i, j) + 1..Max(i, j)] + code[Max(i, j) + 1..]
  {
  }

  /** erase(code, i, j) drops exactly the entries at i and j. */
  lemma Erase2Drops<T>(code: seq<T>, i: nat, j: nat)
    requires i < |code| && j < |code| && i != j
    ensures multiset(Erase2(code, i, j)) + multiset{code[i], code[j]} == multiset(code)
  {
    var lo, hi := Min(i, j), Max(i, j);
    var once := RemoveAt(code, hi);
    RemoveAtMultiset(code, hi);
    RemoveAtMultiset(once, lo);
    assert once[lo] == code[lo];
    assert multiset{code[lo]} + multiset{code[hi]} == multiset{code[i], code[j]};
  }

  /** erase(code, i, j) keeps the other entries in order. */
  lemma Erase2InOrder<T>(code: seq<T>, i: nat, j: nat)
    requires i < |code| && j < |code| && i != j
    ensures Subsequence(Erase2(code, i, j), code)
  {
    var once := RemoveAt(code, Max(i, j));
    RemoveAtSubsequence(code, Max(i, j));
    RemoveAtSubsequence(once, Min(i, j));
    SubsequenceTransitive(Erase2(code, i, j), once, code);
  }

  /** Four positions of the code. */
  datatype Quad = Quad(a: nat, b: nat, c: nat, d: nat)

  predicate Below(q: Quad, n: nat) {
    q.a < n && q.b < n && q.c < n && q.d < n
  }

  predicate Distinct(q: Quad) {
    q.a != q.b && q.a != q.c && q.a != q.d && q.b != q.c && q.b != q.d && q.c != q.d
  }

  /** The entries at four positions. */
  function Entries<T>(code: seq<T>, q: Quad): multiset<T>
    requires Below(q, |code|)
  {
    multiset{code[q.a]} + multiset{code[q.b]} + multiset{code[q.c]} + multiset{code[q.d]}
  }

  function Order(x: nat, y: nat): (nat, nat) {
    if x < y then (y, x) else (x, y)
  }

  /** std::sort with std::greater on four positions. */
  function SortDescending(q: Quad): Quad {
    var (a1, b1) := Order(q.a, q.b);
    var (c1, d1) := Order(q.c, q.d);
    var (a2, c2) := Order(a1, c1);
    var (b2, d2) := Order(b1, d1);
    var (b3, c3) := Order(b2, c2);
    Quad(a2, b3, c3, d2)
  }

  /** Sorting keeps the four positions, so the entries they name. */
  lemma SortDescendingKeeps<T>(code: seq<T>, q: Quad)
    requires Below(q, |code|)
    ensures Below(SortDescending(q), |code|)
    ensures Entries(code, SortDescending(q)) == Entries(code, q)
  {
  }

  /** Four distinct positions come out strictly decreasing. */
  lemma SortDescendingSorts(q: Quad)
    requires Distinct(q)
    ensures var r := SortDescending(q); r.a > r.b > r.c > r.d
  {
  }

  /** Erasing four positions from the last to the first. */
  function EraseDescending<T>(code: seq<T>, q: Quad): (r: seq<T>)
    requires q.a > q.b > q.c > q.d && q.a < |code|
    ensures |r| == |code| - 4
  {
    RemoveAt(RemoveAt(RemoveAt(RemoveAt(code, q.a), q.b), q.c), q.d)
  }

  /** Erasing four positions from the last to the first keeps the entries around them. */
  lemma EraseDescendingKeeps<T>(code: seq<T>, q: Quad)
    requires q.a > q.b > q.c > q.d && q.a < |code|
    ensures EraseDescending(code, q)
            == code[..q.d] + code[q.d + 1..q.c] + code[q.c + 1..q.b] + code[q.b + 1..q.a] + code[q.a + 1..]
  {
    var r1 := RemoveAt(code, q.a);
    var r2 := RemoveAt(r1, q.b);
    var r3 := RemoveAt(r2, q.c);
    assert r1 == code[..q.a] + code[q.a + 1..];
    assert r2 == code[..q.b] + code[q.b + 1..q.a] + code[q.a + 1..];
    assert r3 == code[..q.c] + code[q.c + 1..q.b] + code[q.b + 1..q.a] + code[q.a + 1..];
  }

  /** Erasing four positions from the last to the first drops exactly their entries. */
  lemma EraseDescendingDrops<T>(code: seq<T>, q: Quad)
    requires q.a > q.b > q.c > q.d && q.a < |code|
    ensures multiset(EraseDescending(code, q)) + Entries(code, q) == multiset(code)
  {
    var r1 := RemoveAt(code, q.a);
    var r2 := RemoveAt(r1, q.b);
    var r3 := RemoveAt(r2, q.c);
    RemoveAtMultiset(code, q.a);
    RemoveAtMultiset(r1, q.b);
    RemoveAtMultiset(r2, q.c);
    RemoveAtMultiset(r3, q.d);
    assert r1[q.b] == code[q.b];
    assert r2[q.c] == code[q.c];
    assert r3[q.d] == code[q.d];
  }

  /** Erasing four positions from the last to the first keeps the other entries in order. */
  lemma EraseDescendingInOrder<T>(code: seq<T>, q: Quad)
    requires q.a > q.b > q.c > q.d && q.a < |code|
    ensures Subsequence(EraseDescending(code, q), code)
  {
    var r1 := RemoveAt(code, q.a);
    var r2 := RemoveAt(r1, q.b);
    var r3 := RemoveAt(r2, q.c);
    RemoveAtSubsequence(code, q.a);
    RemoveAtSubsequence(r1, q.b);
    RemoveAtSubsequence(r2, q.c);
    RemoveAtSubsequence(r3, q.d);
    SubsequenceTransitive(r2, r1, code);
    SubsequenceTransitive(r3, r2, code);
    SubsequenceTransitive(EraseDescending(code, q), r3, code);
  }

  /** erase(code, i, j, k, l): four distinct positions, sorted from the largest and erased in
      that order, so that each position still names its entry when its turn comes. */
  function Erase4<T>(code: seq<T>, i: nat, j: nat, k: nat, l: nat): (r: seq<T>)
    requires i < |code| && j < |code| && k < |code| && l < |code|
    requires i != j && i != k && i != l && j != k && j != l && k != l
    ensures |r| == |code| - 4
  {
    var order := SortDescending(Quad(i, j, k, l));
    SortDescendingKeeps(code, Quad(i, j, k, l));
    SortDescendingSorts(Quad(i, j, k, l));
    EraseDescending(code, order)
  }

  /** erase(code, i, j, k, l) drops exactly the entries at the four positions. */
  lemma Erase4Drops<T>(code: seq<T>, i: nat, j: nat, k: nat, l: nat)
    requires i < |code| && j < |code| && k < |code| && l < |code|
    requires i != j && i != k && i != l && j != k && j != l && k != l
    ensures multiset(Erase4(code, i, j, k, l)) + Entries(code, Quad(i, j, k, l)) == multiset(code)
  {
    var order := SortDescending(Quad(i, j, k, l));
    SortDescendingKeeps(code, Quad(i, j, k, l));
    SortDescendingSorts(Quad(i, j, k, l));
    EraseDescendingDrops(code, order);
  }

  /** erase(code, i, j, k, l) keeps the other entries in order. */
  lemma Erase4InOrder<T>(code: seq<T>, i: nat, j: nat, k: nat, l: nat)
    requires i < |code| && j < |code| && k < |code| && l < |code|
    requires i != j && i != k && i != l && j != k && j != l && k != l
    ensures Subsequence(Erase4(code, i, j, k, l), code)
  {
    SortDescendingKeeps(code, Quad(i, j, k, l));
    SortDescendingSorts(Quad(i, j, k, l));
    EraseDescendingInOrder(code, SortDescending(Quad(i, j, k, l)));
  }

  // ---------------------------------------------------------------- well-formed codes

  /** Every id is non-zero and occurs once, together with its negation: each crossing is
      passed exactly twice, once over and once under. */
  predicate WellFormedIds(ids: multiset<int>) {
    forall x :: x in ids ==> x != 0 && ids[x] == 1 && ids[-x] == 1
  }

  predicate WellFormed(code: GaussCode) {
    WellFormedIds(multiset(Ids(code)))
  }

  /** The crossing ids run from 1 to the number of crossings. */
  predicate Consecutive(code: GaussCode) {
    forall p :: 0 <= p < |code| ==> 1 <= Abs(code[p].id) <= |code| / 2
  }

  lemma IdsAppend(a: GaussCode, b: GaussCode)
    ensures Ids(a + b) == Ids(a) + Ids(b)
  {
  }

  /** Being well formed depends only on the ids present: any reordering keeps it. */
  lemma WellFormedReordered(code: GaussCode, reordered: GaussCode)
    requires multiset(Ids(code)) == multiset(Ids(reordered))
    ensures WellFormed(code) <==> WellFormed(reordered)
  {
  }

  /** No entry has id 0, so that an entry is never the other passage of its own crossing. */
  predicate NonZero(code: GaussCode) {
    forall p :: 0 <= p < |code| ==> code[p].id != 0
  }

  lemma NonZeroIds(code: GaussCode)
    ensures NonZero(code) <==> 0 !in multiset(Ids(code))
  {
    if 0 in multiset(Ids(code)) {
      var p :| 0 <= p < |Ids(code)| && Ids(code)[p] == 0;
      assert code[p].id == 0;
    } else {
      forall p | 0 <= p < |code|
        ensures code[p].id != 0
      {
        assert Ids(code)[p] in multiset(Ids(code));
      }
    }
  }

  /** The ids of both passages of each of the given crossings. */
  function Pairs(crossings: seq<int>): multiset<int> {
    if crossings == [] then multiset{}
    else Pairs(crossings[..|crossings| - 1]) + multiset{crossings[|crossings| - 1], -crossings[|crossings| - 1]}
  }

  lemma PairsAppend(crossings: seq<int>, c: int)
    ensures Pairs(crossings + [c]) == Pairs(crossings) + multiset{c, -c}
  {
    assert (crossings + [c])[..|crossings|] == crossings;
  }

  lemma IdsRemoveAt(code: GaussCode, p: nat)
    requires p < |code|
    ensures Ids(RemoveAt(code, p)) == RemoveAt(Ids(code), p)
  {
  }

  /** Erasing entries from a code erases the same positions from its ids. */
  lemma IdsErase2(code: GaussCode, i: nat, j: nat)
    requires i < |code| && j < |code| && i != j
    ensures Ids(Erase2(code, i, j)) == Erase2(Ids(code), i, j)
  {
    IdsRemoveAt(code, Max(i, j));
    IdsRemoveAt(RemoveAt(code, Max(i, j)), Min(i, j));
  }

  lemma IdsEraseDescending(code: GaussCode, q: Quad)
    requires q.a > q.b > q.c > q.d && q.a < |code|
    ensures Ids(EraseDescending(code, q)) == EraseDescending(Ids(code), q)
  {
    var r1 := RemoveAt(code, q.a);
    var r2 := RemoveAt(r1, q.b);
    var r3 := RemoveAt(r2, q.c);
    IdsRemoveAt(code, q.a);
    IdsRemoveAt(r1, q.b);
    IdsRemoveAt(r2, q.c);
    IdsRemoveAt(r3, q.d);
  }

  lemma IdsErase4(code: GaussCode, i: nat, j: nat, k: nat, l: nat)
    requires i < |code| && j < |code| && k < |code| && l < |code|
    requires i != j && i != k && i != l && j != k && j != l && k != l
    ensures Ids(Erase4(code, i, j, k, l)) == Erase4(Ids(code), i, j, k, l)
  {
    SortDescendingKeeps(code, Quad(i, j, k, l));
    SortDescendingSorts(Quad(i, j, k, l));
    IdsEraseDescending(code, SortDescending(Quad(i, j, k, l)));
  }

  /** Adding both passages of a new crossing keeps the ids well formed. */
  lemma AddPairKeepsWellFormed(ids: multiset<int>, c: int)
    requires WellFormedIds(ids) && c != 0 && c !in ids && -c !in ids
    ensures WellFormedIds(ids + multiset{c, -c})
  {
    var r := ids + multiset{c, -c};
    forall x | x in r
      ensures x != 0 && r[x] == 1 && r[-x] == 1
    {
      if x != c && x != -c {
        assert x in ids;
      }
    }
  }

  /** Removing both passages of a crossing keeps the ids well formed. */
  lemma RemovePairKeepsWellFormed(ids: multiset<int>, rest: multiset<int>, c: int)
    requires WellFormedIds(ids) && rest + multiset{c, -c} == ids
    ensures WellFormedIds(rest)
  {
    forall x | x in rest
      ensures x != 0 && rest[x] == 1 && rest[-x] == 1
    {
      assert ids[x] == rest[x] + multiset{c, -c}[x];
      assert ids[-x] == rest[-x] + multiset{c, -c}[-x];
      assert c in ids;
    }
  }

  // ---------------------------------------------------------------- crossing ids

  /** One intersection found by the segment pair loop of calculateCrossings: segment i passes
      the later segment j at parameters s and t; sign is +1 when segment i is over. */
  datatype Intersection = Intersection(i: nat, j: nat, s: real, t: real, sign: int, handedness: int)

  predicate Signed(intersections: seq<Intersection>) {
    forall n :: 0 <= n < |intersections| ==> intersections[n].sign == 1 || intersections[n].sign == -1
  }

  /** The two entries of crossing id: segment i at s, then segment j at t, with opposite
      signs. */
  function Pair(x: Intersection, id: nat): seq<Crossing> {
    [Crossing(id * x.sign, x.i, x.s, x.handedness), Crossing(id * -x.sign, x.j, x.t, x.handedness)]
  }

  /** Appending the pair of a new crossing id keeps a code well formed, with ids up to id. */
  lemma AppendPairKeepsWellFormed(crossings: GaussCode, x: Intersection, id: nat)
    requires x.sign == 1 || x.sign == -1
    requires id >= 1
    requires WellFormed(crossings) && forall p :: 0 <= p < |crossings| ==> 1 <= Abs(crossings[p].id) < id
    ensures WellFormed(crossings + Pair(x, id))
  {
    var c := id * x.sign;
    assert Abs(c) == id && -c == id * -x.sign;
    IdsBelow(crossings, id);
    AddPairKeepsWellFormed(multiset(Ids(crossings)), c);
    IdsAppend(crossings, Pair(x, id));
    assert Ids(Pair(x, id)) == [c, -c];
  }

  /** Every id of a code whose ids are below a bound is below the bound. */
  lemma IdsBelow(code: GaussCode, bound: nat)
    requires forall p :: 0 <= p < |code| ==> Abs(code[p].id) < bound
    ensures forall y :: y in multiset(Ids(code)) ==> Abs(y) < bound
  {
    forall y | y in multiset(Ids(code))
      ensures Abs(y) < bound
    {
      var p :| 0 <= p < |Ids(code)| && Ids(code)[p] == y;
    }
  }

  /** Appending the pair of crossing id to a code with smaller ids bounds the ids by id. */
  lemma AppendPairBounded(crossings: GaussCode, x: Intersection, id: nat)
    requires x.sign == 1 || x.sign == -1
    requires id >= 1
    requires forall p :: 0 <= p < |crossings| ==> 1 <= Abs(crossings[p].id) < id
    ensures forall p :: 0 <= p < |crossings| + 2 ==> 1 <= Abs((crossings + Pair(x, id))[p].id) <= id
  {
    assert Abs(id * x.sign) == id && Abs(id * -x.sign) == id;
  }

  /** The crossing id assignment of calculateCrossings: the n-th intersection found becomes
      crossing n + 1, one entry per segment, with opposite signs. */
  method AssignCrossingIds(intersections: seq<Intersection>) returns (crossings: GaussCode)
    requires Signed(intersections)
    ensures |crossings| == 2 * |intersections|
    ensures forall n :: 0 <= n < |intersections| ==> crossings[2 * n..2 * n + 2] == Pair(intersections[n], n + 1)
    ensures WellFormed(crossings) && Consecutive(crossings)
  {
    crossings := [];
    var crossingId := 1;
    for n := 0 to |intersections|
      invariant crossingId == n + 1 && |crossings| == 2 * n
      invariant forall m :: 0 <= m < n ==> crossings[2 * m..2 * m + 2] == Pair(intersections[m], m + 1)
      invariant WellFormed(crossings)
      invariant forall p :: 0 <= p < |crossings| ==> 1 <= Abs(crossings[p].id) <= n
    {
      var x := intersections[n];
      var pair := [Crossing(crossingId * x.sign, x.i, x.s, x.handedness),
                   Crossing(crossingId * -x.sign, x.j, x.t, x.handedness)];
      assert pair == Pair(x, crossingId);
      AppendPairKeepsWellFormed(crossings, x, crossingId);
      AppendPairBounded(crossings, x, crossingId);
      ghost var before := crossings;
      crossings := crossings + pair;
      crossingId := crossingId + 1;
      forall m | 0 <= m < n + 1
        ensures crossings[2 * m..2 * m + 2] == Pair(intersections[m], m + 1)
      {
        if m < n {
          assert crossings[2 * m..2 * m + 2] == before[2 * m..2 * m + 2];
        } else {
          assert crossings[2 * m..2 * m + 2] == pair;
        }
      }
    }
  }
}

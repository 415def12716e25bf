// The continuous-collision stepping loop of the physics pipeline: it advances the
// time of impact through the step, keeps only the earliest contacts of the
// continuous pairs, and hands them to the constraint stages.
module CcdCollisionLoop {
  import opened CollisionTypes

  /** Iteration budget and epsilon factor set by the constructor. */
  const MaxIterations: nat := 20
  const EpsilonFactor: real := 100.0

  /** std::numeric_limits<double>::max(), the start value of the earliest-time search. */
  const DblMax: real := 1.7976931348623157e308

  /** The double values the loop arithmetic can take: finite, infinite or not-a-number. */
  datatype Ext = Fin(v: real) | PosInf | NegInf | NaN

  function ExtNeg(a: Ext): Ext {
    match a
    case Fin(x) => Fin(-x)
    case PosInf => NegInf
    case NegInf => PosInf
    case NaN => NaN
  }

  /** IEEE addition: an infinity absorbs finite values, opposite infinities give NaN. */
  function ExtAdd(a: Ext, b: Ext): Ext {
    if a.NaN? || b.NaN? then NaN
    else if (a.PosInf? && b.NegInf?) || (a.NegInf? && b.PosInf?) then NaN
    else if a.PosInf? || b.PosInf? then PosInf
    else if a.NegInf? || b.NegInf? then NegInf
    else Fin(a.v + b.v)
  }

  /** Sign of an infinite product: +1, -1, or 0 when the finite factor is zero (IEEE gives NaN). */
  function SignOf(a: Ext): int {
    match a
    case Fin(x) => if x > 0.0 then 1 else if x < 0.0 then -1 else 0
    case PosInf => 1
    case NegInf => -1
    case NaN => 0
  }

  /** IEEE multiplication: zero times an infinity is NaN. */
  function ExtMul(a: Ext, b: Ext): Ext {
    if a.NaN? || b.NaN? then NaN
    else if a.Fin? && b.Fin? then Fin(a.v * b.v)
    else if SignOf(a) * SignOf(b) > 0 then PosInf
    else if SignOf(a) * SignOf(b) < 0 then NegInf
    else NaN
  }

  /** IEEE 1 / d. A zero divisor here is always the +0 that 1 - 1 yields, so it gives +infinity. */
  function ExtRecip(d: Ext): Ext {
    match d
    case Fin(x) => if x == 0.0 then PosInf else Fin(1.0 / x)
    case PosInf => Fin(0.0)
    case NegInf => Fin(0.0)
    case NaN => NaN
  }

  /** The comparison a > b against a finite bound; NaN compares false. */
  predicate ExtGreater(a: Ext, b: real) {
    match a
    case Fin(x) => x > b
    case PosInf => true
    case NegInf => false
    case NaN => false
  }

  /** The comparison time > bound used by the contact filter; NaN compares false. */
  predicate After(time: real, bound: Ext) {
    match bound
    case Fin(b) => time > b
    case PosInf => false
    case NegInf => true
    case NaN => false
  }

  /** toi += (1 - toi) * localToi */
  function NextToi(toi: Ext, localToi: Ext): Ext {
    ExtAdd(toi, ExtMul(ExtAdd(Fin(1.0), ExtNeg(toi)), localToi))
  }

  /** epsilon = 1 / ((1 - toi) * epsilonFactor) */
  function Epsilon(toi: Ext): Ext {
    ExtRecip(ExtMul(ExtAdd(Fin(1.0), ExtNeg(toi)), Fin(EpsilonFactor)))
  }

  /** std::min<double>(a, b): b when b < a, else a. */
  function Min(a: real, b: real): real { if b < a then b else a }

  /** The min-fold of the contact times, starting from `acc`, in list order. */
  function Earliest(cs: seq<Contact>, acc: real): real
    decreases |cs|
  {
    if cs == [] then acc else Earliest(cs[1..], Min(acc, cs[0].time))
  }

  /** remove_if(time > bound): the contacts kept by the filter, in their original order. */
  function Survivors(cs: seq<Contact>, bound: Ext): seq<Contact>
    decreases |cs|
  {
    if cs == [] then []
    else if After(cs[0].time, bound) then Survivors(cs[1..], bound)
    else [cs[0]] + Survivors(cs[1..], bound)
  }

  /** Every contact of the given pairs, pair by pair. */
  ghost function AllContacts(pairs: seq<CollisionPair>): seq<Contact>
    reads set p | p in pairs
    decreases |pairs|
  {
    if pairs == [] then [] else AllContacts(pairs[..|pairs| - 1]) + pairs[|pairs| - 1].contacts
  }

  /** The pairs the loop works on: the continuous ones, in their original order. */
  function ContinuousPairs(pairs: seq<CollisionPair>): (r: seq<CollisionPair>)
    ensures forall i :: 0 <= i < |r| ==> r[i] in pairs && r[i].kind == Continuous
    ensures forall i :: 0 <= i < |pairs| && pairs[i].kind == Continuous ==> pairs[i] in r
    decreases |pairs|
  {
    if pairs == [] then []
    else (if pairs[0].kind == Continuous then [pairs[0]] else []) + ContinuousPairs(pairs[1..])
  }

  lemma {:induction false} EarliestAppend(a: seq<Contact>, b: seq<Contact>, acc: real)
    ensures Earliest(a + b, acc) == Earliest(b, Earliest(a, acc))
    decreases |a|
  {
    if a != [] {
      assert (a + b)[1..] == a[1..] + b;
      EarliestAppend(a[1..], b, Min(acc, a[0].time));
    } else {
      assert a + b == b;
    }
  }

  /** The fold is the minimum of `acc` and the contact times, and it is one of them. */
  lemma {:induction false} EarliestIsMinimum(cs: seq<Contact>, acc: real)
    ensures Earliest(cs, acc) <= acc
    ensures forall c :: c in cs ==> Earliest(cs, acc) <= c.time
    ensures Earliest(cs, acc) == acc || exists c :: c in cs && c.time == Earliest(cs, acc)
    decreases |cs|
  {
    if cs != [] {
      EarliestIsMinimum(cs[1..], Min(acc, cs[0].time));
      forall c | c in cs ensures Earliest(cs, acc) <= c.time {
        if c != cs[0] {
          assert c in cs[1..];
        }
      }
      if Earliest(cs, acc) != acc && Earliest(cs, acc) != Min(acc, cs[0].time) {
        var c :| c in cs[1..] && c.time == Earliest(cs, acc);
        assert c in cs;
      }
    }
  }

  /** With contact times below DBL_MAX, the sentinel survives exactly when there is no contact. */
  lemma NoContactIffSentinel(cs: seq<Contact>)
    requires forall c :: c in cs ==> c.time < DblMax
    ensures Earliest(cs, DblMax) < DblMax <==> cs != []
  {
    EarliestIsMinimum(cs, DblMax);
  }

  /** The filter keeps exactly the contacts not after the bound. */
  lemma {:induction false} SurvivorsMembers(cs: seq<Contact>, bound: Ext)
    ensures |Survivors(cs, bound)| <= |cs|
    ensures forall c :: c in Survivors(cs, bound) <==> c in cs && !After(c.time, bound)
    decreases |cs|
  {
    if cs != [] {
      SurvivorsMembers(cs[1..], bound);
      assert cs == [cs[0]] + cs[1..];
    }
  }

  /** Filtering distributes over concatenation, so the relative order of kept contacts is preserved. */
  lemma {:induction false} SurvivorsAppend(a: seq<Contact>, b: seq<Contact>, bound: Ext)
    ensures Survivors(a + b, bound) == Survivors(a, bound) + Survivors(b, bound)
    decreases |a|
  {
    if a == [] {
      assert a + b == b;
    } else {
      assert (a + b)[1..] == a[1..] + b;
      SurvivorsAppend(a[1..], b, bound);
    }
  }

  /** A second filter with the same bound changes nothing. */
  lemma {:induction false} SurvivorsIdempotent(cs: seq<Contact>, bound: Ext)
    ensures Survivors(Survivors(cs, bound), bound) == Survivors(cs, bound)
    decreases |cs|
  {
    if cs != [] {
      SurvivorsIdempotent(cs[1..], bound);
    }
  }

  /** A contact of the concatenated lists belongs to one of the pairs. */
  lemma {:induction false} InSomePair(pairs: seq<CollisionPair>, c: Contact)
    requires c in AllContacts(pairs)
    ensures exists p :: p in pairs && c in p.contacts
    decreases |pairs|
  {
    var init := pairs[..|pairs| - 1];
    if c !in pairs[|pairs| - 1].contacts {
      InSomePair(init, c);
      var p :| p in init && c in p.contacts;
      assert p in pairs;
    }
  }

  /** Every contact of every pair is among the concatenated lists. */
  lemma {:induction false} InAllContacts(pairs: seq<CollisionPair>, p: CollisionPair, c: Contact)
    requires p in pairs && c in p.contacts
    ensures c in AllContacts(pairs)
    decreases |pairs|
  {
    if p != pairs[|pairs| - 1] {
      InAllContacts(pairs[..|pairs| - 1], p, c);
    }
  }

  /** When the min-fold from DBL_MAX does not drop below DBL_MAX, no contact of any pair is
      earlier than DBL_MAX. */
  lemma NoEarlyContact(pairs: seq<CollisionPair>)
    requires !(Earliest(AllContacts(pairs), DblMax) < DblMax)
    ensures forall p, c :: p in pairs && c in p.contacts ==> c.time >= DblMax
  {
    forall p, c | p in pairs && c in p.contacts ensures c.time >= DblMax {
      InAllContacts(pairs, p, c);
      EarliestIsMinimum(AllContacts(pairs), DblMax);
    }
  }

  /** With a non-negative epsilon an earliest contact is kept, and every kept contact is within
      epsilon of the earliest one. */
  lemma EarliestSurvives(cs: seq<Contact>, epsilon: Ext)
    requires cs != [] && Earliest(cs, DblMax) < DblMax
    requires epsilon.PosInf? || (epsilon.Fin? && epsilon.v >= 0.0)
    ensures Survivors(cs, ExtAdd(Fin(Earliest(cs, DblMax)), epsilon)) != []
    ensures forall c :: c in Survivors(cs, ExtAdd(Fin(Earliest(cs, DblMax)), epsilon)) ==>
              epsilon.PosInf? || c.time <= Earliest(cs, DblMax) + epsilon.v
  {
    var bound := ExtAdd(Fin(Earliest(cs, DblMax)), epsilon);
    EarliestIsMinimum(cs, DblMax);
    SurvivorsMembers(cs, bound);
    var c :| c in cs && c.time == Earliest(cs, DblMax);
    assert c in Survivors(cs, bound);
  }

  lemma MulNonNegative(a: real, b: real)
    requires a >= 0.0 && b >= 0.0
    ensures a * b >= 0.0
  {
  }

  /** On a step from a toi in [0, 1] with a local toi in [0, 1], the accumulated toi does not
      decrease and stays within [0, 1]. */
  lemma ToiNonDecreasing(toi: real, localToi: real)
    requires 0.0 <= toi <= 1.0 && 0.0 <= localToi <= 1.0
    ensures NextToi(Fin(toi), Fin(localToi)).Fin?
    ensures toi <= NextToi(Fin(toi), Fin(localToi)).v <= 1.0
  {
    assert NextToi(Fin(toi), Fin(localToi)) == Fin(toi + (1.0 - toi) * localToi);
    MulNonNegative(1.0 - toi, localToi);
    assert (1.0 - toi) * localToi <= 1.0 - toi by {
      assert (1.0 - toi) * (1.0 - localToi) >= 0.0;
    }
  }

  /** The filter epsilon is positive while toi < 1, infinite at toi = 1 (division by zero),
      and negative past 1. */
  lemma EpsilonSign(toi: real)
    ensures toi < 1.0 ==> Epsilon(Fin(toi)).Fin? && Epsilon(Fin(toi)).v > 0.0
    ensures toi == 1.0 ==> Epsilon(Fin(toi)) == PosInf
    ensures toi > 1.0 ==> Epsilon(Fin(toi)).Fin? && Epsilon(Fin(toi)).v < 0.0
  {
    if toi != 1.0 {
      assert Epsilon(Fin(toi)) == Fin(1.0 / ((1.0 - toi) * EpsilonFactor));
    }
  }

  /** Once toi is NaN it stays NaN and the "toi > 1" exit never fires. */
  lemma NaNToiPersists(localToi: Ext)
    ensures NextToi(NaN, localToi) == NaN && !ExtGreater(NextToi(NaN, localToi), 1.0)
  {
  }

  /** The first half of the filter: the min-fold of every contact time, from DBL_MAX. */
  method EarliestTime(ccdPairs: seq<CollisionPair>) returns (toi: real)
    ensures toi == Earliest(AllContacts(ccdPairs), DblMax)
  {
    toi := DblMax;
    var i := 0;
    while i < |ccdPairs|
      invariant 0 <= i <= |ccdPairs|
      invariant toi == Earliest(AllContacts(ccdPairs[..i]), DblMax)
    {
      var cs := ccdPairs[i].contacts;
      ghost var before := AllContacts(ccdPairs[..i]);
      var j := 0;
      assert before + cs[..j] == before;
      while j < |cs|
        invariant 0 <= j <= |cs|
        invariant toi == Earliest(before + cs[..j], DblMax)
      {
        EarliestAppend(before + cs[..j], [cs[j]], DblMax);
        assert before + cs[..j + 1] == (before + cs[..j]) + [cs[j]];
        toi := Min(toi, cs[j].time);
        j := j + 1;
      }
      assert cs[..j] == cs;
      assert ccdPairs[..i + 1][..i] == ccdPairs[..i];
      i := i + 1;
    }
    assert ccdPairs[..i] == ccdPairs;
  }

  /** The second half of the filter: remove_if(time > bound) on every pair's list. */
  method RemoveLaterContacts(ccdPairs: seq<CollisionPair>, bound: Ext)
    modifies set p | p in ccdPairs
    ensures forall p :: p in ccdPairs ==> p.contacts == Survivors(old(p.contacts), bound)
  {
    var i := 0;
    while i < |ccdPairs|
      invariant 0 <= i <= |ccdPairs|
      invariant forall p :: p in ccdPairs[..i] ==> p.contacts == Survivors(old(p.contacts), bound)
      invariant forall p :: p in ccdPairs && p !in ccdPairs[..i] ==> p.contacts == old(p.contacts)
    {
      var p := ccdPairs[i];
      if p in ccdPairs[..i] {
        SurvivorsIdempotent(old(p.contacts), bound);
      }
      p.contacts := Survivors(p.contacts, bound);
      assert ccdPairs[..i + 1] == ccdPairs[..i] + [p];
      i := i + 1;
    }
    assert ccdPairs[..i] == ccdPairs;
  }

  /**
   * Find the earliest contact time over the continuous pairs and drop every contact later than
   * it plus epsilon. Returns false, leaving every list and the reported toi as they were, when no
   * time is below DBL_MAX; otherwise reports earliest + epsilon as the new local toi.
   */
  method FilterContacts(ccdPairs: seq<CollisionPair>, epsilon: Ext, currentToi: Ext)
    returns (found: bool, toiOut: Ext)
    modifies set p | p in ccdPairs
    ensures found <==> Earliest(old(AllContacts(ccdPairs)), DblMax) < DblMax
    ensures !found ==> toiOut == currentToi && forall p :: p in ccdPairs ==> p.contacts == old(p.contacts)
    ensures !found ==> forall p, c :: p in ccdPairs && c in p.contacts ==> c.time >= DblMax
    ensures found ==> toiOut == ExtAdd(Fin(Earliest(old(AllContacts(ccdPairs)), DblMax)), epsilon)
    ensures found ==> forall p :: p in ccdPairs ==> p.contacts == Survivors(old(p.contacts), toiOut)
    ensures found && (epsilon.PosInf? || (epsilon.Fin? && epsilon.v >= 0.0)) ==>
              exists p :: p in ccdPairs && p.contacts != []
  {
    var toi := EarliestTime(ccdPairs);
    if !(toi < DblMax) {
      NoEarlyContact(ccdPairs);
      return false, currentToi;
    }
    toiOut := ExtAdd(Fin(toi), epsilon);
    if epsilon.PosInf? || (epsilon.Fin? && epsilon.v >= 0.0) {
      ghost var all := AllContacts(ccdPairs);
      EarliestSurvives(all, epsilon);
      SurvivorsMembers(all, toiOut);
      ghost var c := Survivors(all, toiOut)[0];
      InSomePair(ccdPairs, c);
      ghost var p :| p in ccdPairs && c in p.contacts;
      RemoveLaterContacts(ccdPairs, toiOut);
      SurvivorsMembers(old(p.contacts), toiOut);
      assert c in p.contacts;
    } else {
      RemoveLaterContacts(ccdPairs, toiOut);
    }
    found := true;
  }

  /** Empty the contact list of every given pair. */
  method ClearContacts(ccdPairs: seq<CollisionPair>)
    modifies set p | p in ccdPairs
    ensures forall p :: p in ccdPairs ==> p.contacts == []
  {
    var i := 0;
    while i < |ccdPairs|
      invariant 0 <= i <= |ccdPairs|
      invariant forall p :: p in ccdPairs[..i] ==> p.contacts == []
    {
      ccdPairs[i].contacts := [];
      assert ccdPairs[..i + 1] == ccdPairs[..i] + [ccdPairs[i]];
      i := i + 1;
    }
    assert ccdPairs[..i] == ccdPairs;
  }

  /**
   * The pipeline stages the loop drives, as transformers of an opaque physics state. The
   * continuous-collision stage is split into its effect on the state and the contact list it
   * leaves on the pair with a given id.
   */
  datatype Stages<!S> = Stages(
    updateCcdData: (Ext, S) -> S,
    ccdCollision: S -> S,
    detectedContacts: (S, nat, seq<Contact>) -> seq<Contact>,
    constraintGeneration: S -> S,
    buildMlcp: S -> S,
    solveMlcp: S -> S,
    pushResults: S -> S)

  /** The copied pairs are exactly the continuous members of the input. */
  lemma {:induction false} ContinuousMembers(pairs: seq<CollisionPair>)
    ensures forall p :: p in ContinuousPairs(pairs) <==> p in pairs && p.kind == Continuous
    decreases |pairs|
  {
    if pairs != [] {
      ContinuousMembers(pairs[1..]);
      assert pairs == [pairs[0]] + pairs[1..];
    }
  }

  /**
   * The detection and filtering half of a pass: the continuous stage leaves its contacts on
   * every pair, then the filter runs. When it finds nothing, every list holds only contacts at
   * or past DBL_MAX.
   */
  method DetectAndFilter<S>(ccdPairs: seq<CollisionPair>, last: S, stages: Stages<S>, epsilon: Ext,
                            localToi: Ext)
    returns (found: bool, toiOut: Ext)
    modifies set p | p in ccdPairs
    ensures !found ==> toiOut == localToi
    ensures !found ==> forall p, c :: p in ccdPairs && c in p.contacts ==> c.time >= DblMax
  {
    forall p | p in ccdPairs {
      p.contacts := stages.detectedContacts(last, p.id, p.contacts);
    }
    found, toiOut := FilterContacts(ccdPairs, epsilon, localToi);
  }

  /**
   * One physics update of the CCD loop. Returns the final state, the iteration counter as the
   * source leaves it, the number of passes through the loop body, the accumulated toi, whether
   * the "maxed out iterations" warning is logged, and (as a ghost) whether the loop stopped
   * because the filter found no contact. The loop ends for one of three reasons: the filter
   * finds no contact (the detected lists are left as they are, all at or past DBL_MAX), the
   * accumulated toi passes 1 after a solved pass, or the counter runs out; after a solved pass
   * the continuous pairs' lists are empty.
   */
  method DoUpdate<S>(pairs: seq<CollisionPair>, state: S, stages: Stages<S>)
    returns (last: S, iterations: nat, passes: nat, toi: Ext, warned: bool, ghost stoppedOnNoContact: bool)
    modifies set p | p in pairs && p.kind == Continuous
    ensures passes <= MaxIterations - 1
    ensures warned <==> iterations == 0
    ensures warned ==> passes == MaxIterations - 1
    ensures !warned ==> iterations + passes == MaxIterations
    ensures !warned ==> stoppedOnNoContact || ExtGreater(toi, 1.0)
    ensures warned ==> !stoppedOnNoContact && !ExtGreater(toi, 1.0)
    ensures stoppedOnNoContact ==>
              forall p, c :: p in pairs && p.kind == Continuous && c in p.contacts ==> c.time >= DblMax
    ensures !stoppedOnNoContact ==> forall p :: p in pairs && p.kind == Continuous ==> p.contacts == []
    ensures forall p :: p in pairs && p.kind != Continuous ==> p.contacts == old(p.contacts)
  {
    var ccdPairs := ContinuousPairs(pairs);
    ContinuousMembers(pairs);
    last := state;
    iterations := MaxIterations;
    toi := Fin(0.0);
    var localToi := Fin(0.0);
    passes := 0;
    stoppedOnNoContact := false;

    iterations := iterations - 1;
    while iterations > 0
      invariant iterations + passes == MaxIterations - 1
      invariant !ExtGreater(toi, 1.0)
      invariant passes > 0 ==> forall p :: p in ccdPairs ==> p.contacts == []
      invariant forall p :: p in pairs && p.kind != Continuous ==> p.contacts == old(p.contacts)
      decreases iterations
    {
      passes := passes + 1;
      toi := NextToi(toi, localToi);
      var epsilon := Epsilon(toi);

      last := stages.updateCcdData(localToi, last);
      last := stages.ccdCollision(last);
      var found;
      found, localToi := DetectAndFilter(ccdPairs, last, stages, epsilon, localToi);
      if !found {
        stoppedOnNoContact := true;
        break;
      }

      last := stages.constraintGeneration(last);
      last := stages.buildMlcp(last);
      last := stages.solveMlcp(last);
      last := stages.pushResults(last);

      ClearContacts(ccdPairs);

      if ExtGreater(toi, 1.0) {
        break;
      }
      iterations := iterations - 1;
    }
    warned := iterations == 0;
  }
}

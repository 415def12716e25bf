// Identifying a reduced Gauss code against a table of known knots: two codes are the same
// knot when their ids agree entry by entry, or agree once all ids are negated, and their
// handedness agrees entry by entry. The table maps knot names to their known codes and is
// searched in the order of the names.
module KnotIdentification {
  import opened GaussCodes
  import opened Wrappers

  // ---------------------------------------------------------------- names in std::map order

  /** std::string operator<: lexicographic on characters, a proper prefix first. */
  predicate Less(a: string, b: string)
    decreases |a|
  {
    if b == [] then false
    else if a == [] then true
    else if a[0] != b[0] then a[0] < b[0]
    else Less(a[1..], b[1..])
  }

  lemma {:induction false} LessIrreflexive(a: string)
    ensures !Less(a, a)
    decreases |a|
  {
    if a != [] {
      LessIrreflexive(a[1..]);
    }
  }

  /** Two different names are ordered one way or the other, never both. */
  lemma {:induction false} LessTotal(a: string, b: string)
    ensures a == b || Less(a, b) || Less(b, a)
    ensures !(Less(a, b) && Less(b, a))
    decreases |a|
  {
    if a != [] && b != [] && a[0] == b[0] {
      LessTotal(a[1..], b[1..]);
      if a[1..] == b[1..] {
        assert a == [a[0]] + a[1..] && b == [b[0]] + b[1..];
      }
    }
  }

  lemma {:induction false} LessTransitive(a: string, b: string, c: string)
    requires Less(a, b) && Less(b, c)
    ensures Less(a, c)
    decreases |a|
  {
    if a != [] && a[0] == b[0] && b[0] == c[0] {
      LessTransitive(a[1..], b[1..], c[1..]);
    }
  }

  // ---------------------------------------------------------------- the table of known knots

  /** One entry of the map m_knownLists: a knot name and its known codes. */
  datatype KnownKnot = KnownKnot(name: string, codes: seq<GaussCode>)

  /** Every name in entries comes after low. */
  predicate AllAfter(entries: seq<KnownKnot>, low: string) {
    forall p :: 0 <= p < |entries| ==> Less(low, entries[p].name)
  }

  /** The entries of a std::map: names strictly increasing. */
  predicate Sorted(entries: seq<KnownKnot>) {
    entries == [] || (AllAfter(entries[1..], entries[0].name) && Sorted(entries[1..]))
  }

  /** m_knownLists[name] as a value: the known codes of name, none when absent. */
  function Lookup(entries: seq<KnownKnot>, name: string): seq<GaussCode> {
    if entries == [] then []
    else if entries[0].name == name then entries[0].codes
    else Lookup(entries[1..], name)
  }

  /** A name before every name of a sorted table is not in it. */
  lemma {:induction false} LookupBefore(entries: seq<KnownKnot>, name: string)
    requires AllAfter(entries, name)
    ensures Lookup(entries, name) == []
  {
    if entries != [] {
      LessIrreflexive(name);
      LookupBefore(entries[1..], name);
    }
  }

  /** The known code appended under a name: the new entry in its place when the name is new,
      else the code appended to that entry's codes. */
  function Inserted(entries: seq<KnownKnot>, name: string, code: GaussCode): seq<KnownKnot> {
    if entries == [] then [KnownKnot(name, [code])]
    else if entries[0].name == name then [entries[0].(codes := entries[0].codes + [code])] + entries[1..]
    else if Less(name, entries[0].name) then [KnownKnot(name, [code])] + entries
    else [entries[0]] + Inserted(entries[1..], name, code)
  }

  lemma {:induction false} InsertedAfter(entries: seq<KnownKnot>, name: string, code: GaussCode, low: string)
    requires AllAfter(entries, low) && Less(low, name)
    ensures AllAfter(Inserted(entries, name, code), low)
  {
    if entries != [] && entries[0].name != name && !Less(name, entries[0].name) {
      InsertedAfter(entries[1..], name, code, low);
    }
  }

  lemma AllAfterChain(entries: seq<KnownKnot>, low: string, mid: string)
    requires AllAfter(entries, mid) && Less(low, mid)
    ensures AllAfter(entries, low)
  {
    forall p | 0 <= p < |entries|
      ensures Less(low, entries[p].name)
    {
      LessTransitive(low, mid, entries[p].name);
    }
  }

  /** Adding a known code keeps the names in order. */
  lemma {:induction false} InsertedSorted(entries: seq<KnownKnot>, name: string, code: GaussCode)
    requires Sorted(entries)
    ensures Sorted(Inserted(entries, name, code))
  {
    if entries == [] {
    } else if entries[0].name == name {
      assert Inserted(entries, name, code)[1..] == entries[1..];
    } else if Less(name, entries[0].name) {
      assert Inserted(entries, name, code)[1..] == entries;
      AllAfterChain(entries[1..], name, entries[0].name);
    } else {
      LessTotal(name, entries[0].name);
      InsertedSorted(entries[1..], name, code);
      InsertedAfter(entries[1..], name, code, entries[0].name);
      assert Inserted(entries, name, code)[1..] == Inserted(entries[1..], name, code);
    }
  }

  /** Adding a known code appends it to the codes of its name and changes no other name. */
  lemma {:induction false} InsertedLookup(entries: seq<KnownKnot>, name: string, code: GaussCode, other: string)
    requires Sorted(entries)
    ensures Lookup(Inserted(entries, name, code), other)
            == if other == name then Lookup(entries, other) + [code] else Lookup(entries, other)
  {
    if entries == [] {
    } else if entries[0].name == name {
      assert Inserted(entries, name, code)[1..] == entries[1..];
    } else if Less(name, entries[0].name) {
      assert Inserted(entries, name, code)[1..] == entries;
      if other == name {
        AllAfterChain(entries[1..], name, entries[0].name);
        assert AllAfter(entries, name);
        LookupBefore(entries, name);
      }
    } else {
      InsertedLookup(entries[1..], name, code, other);
      assert Inserted(entries, name, code)[1..] == Inserted(entries[1..], name, code);
    }
  }

  // ---------------------------------------------------------------- comparing codes

  /** The ids agree entry by entry, each multiplied by factor, and so does the handedness. */
  predicate Agree(code: GaussCode, knot: GaussCode, factor: int)
    requires |code| == |knot|
  {
    forall p :: 0 <= p < |code| ==> factor * code[p].id == knot[p].id && code[p].sign == knot[p].sign
  }

  /** isSameCode: same length, and the same entries or the same entries with all ids
      negated (the mirror image, read with over and under swapped). */
  predicate SameCode(code: GaussCode, knot: GaussCode) {
    |code| == |knot| && (Agree(code, knot, 1) || Agree(code, knot, -1))
  }

  /** isSameCode is symmetric. */
  lemma SameCodeSymmetric(code: GaussCode, knot: GaussCode)
    ensures SameCode(code, knot) <==> SameCode(knot, code)
  {
    if |code| == |knot| {
      if Agree(code, knot, -1) {
        forall p | 0 <= p < |code|
          ensures -1 * knot[p].id == code[p].id
        {
        }
      }
      if Agree(knot, code, -1) {
        forall p | 0 <= p < |code|
          ensures -1 * code[p].id == knot[p].id
        {
        }
      }
    }
  }

  /** The first loop of isSameCode: stop at the first entry that differs. */
  method AgreeLoop(code: GaussCode, knot: GaussCode, factor: int) returns (isSame: bool)
    requires |code| == |knot|
    ensures isSame <==> Agree(code, knot, factor)
  {
    isSame := true;
    var i := 0;
    while i < |code| && isSame
      invariant 0 <= i <= |code|
      invariant isSame <==> forall p :: 0 <= p < i ==> factor * code[p].id == knot[p].id && code[p].sign == knot[p].sign
    {
      isSame := factor * code[i].id == knot[i].id && code[i].sign == knot[i].sign;
      i := i + 1;
    }
  }

  /** isSameCode: compare entry by entry, then again with the ids negated. */
  method IsSameCode(code: GaussCode, knot: GaussCode) returns (isSame: bool)
    ensures isSame <==> SameCode(code, knot)
  {
    if |code| != |knot| {
      return false;
    }
    isSame := AgreeLoop(code, knot, 1);
    if !isSame {
      isSame := AgreeLoop(code, knot, -1);
    }
  }

  /** A code is not matched by its rotations: the trefoil read from its last crossing,
      [-3, 1, -2, 3, -1, 2], is the same knot as the known trefoil code but not the same code,
      neither as written nor with all ids negated. */
  lemma RotationNotMatched()
    ensures !SameCode(Enhanced([-3, 1, -2, 3, -1, 2], RightHanded[..6]), Enhanced(TrefoilCode, RightHanded[..6]))
  {
    var rotated, trefoil := Enhanced([-3, 1, -2, 3, -1, 2], RightHanded[..6]), Enhanced(TrefoilCode, RightHanded[..6]);
    assert !Agree(rotated, trefoil, 1) by {
      assert 1 * rotated[0].id != trefoil[0].id;
    }
    assert !Agree(rotated, trefoil, -1) by {
      assert -1 * rotated[0].id != trefoil[0].id;
    }
  }

  // ---------------------------------------------------------------- identification

  /** Some known code of the list is the same code. */
  predicate AnySame(codes: seq<GaussCode>, code: GaussCode) {
    exists q :: 0 <= q < |codes| && SameCode(code, codes[q])
  }

  /** The first name, in the order of the table, with a known code the same as code. */
  function FirstMatch(entries: seq<KnownKnot>, code: GaussCode): Option<string> {
    if entries == [] then None
    else if AnySame(entries[0].codes, code) then Some(entries[0].name)
    else FirstMatch(entries[1..], code)
  }

  /** identifyKnot, as a function of the table and the code. */
  function Identification(entries: seq<KnownKnot>, code: GaussCode): string {
    if code == [] then "No Knot"
    else match FirstMatch(entries, code)
      case Some(name) => name
      case None => "Unknown Knot"
  }

  /** The name found has a known code the same as code, and no name before it has one. */
  lemma {:induction false} FirstMatchFound(entries: seq<KnownKnot>, code: GaussCode, name: string)
    requires Sorted(entries) && FirstMatch(entries, code) == Some(name)
    ensures AnySame(Lookup(entries, name), code)
    ensures forall other :: Less(other, name) ==> !AnySame(Lookup(entries, other), code)
  {
    var first := entries[0].name;
    if AnySame(entries[0].codes, code) {
      forall other | Less(other, name)
        ensures !AnySame(Lookup(entries, other), code)
      {
        AllAfterChain(entries[1..], other, name);
        LookupBefore(entries[1..], other);
        LessIrreflexive(name);
      }
    } else {
      FirstMatchFound(entries[1..], code, name);
      LookupBefore(entries[1..], first);
      assert name != first;
      forall other | Less(other, name)
        ensures !AnySame(Lookup(entries, other), code)
      {
        if other != first {
          assert Lookup(entries, other) == Lookup(entries[1..], other);
        }
      }
    }
  }

  /** When no name is found, no name has a known code the same as code. */
  lemma {:induction false} NoMatchNoneSame(entries: seq<KnownKnot>, code: GaussCode)
    requires FirstMatch(entries, code) == None
    ensures forall name :: !AnySame(Lookup(entries, name), code)
  {
    if entries != [] {
      NoMatchNoneSame(entries[1..], code);
      forall name
        ensures !AnySame(Lookup(entries, name), code)
      {
        if name != entries[0].name {
          assert Lookup(entries, name) == Lookup(entries[1..], name);
        }
      }
    }
  }

  /** No name is found exactly when no known code is the same as code. */
  lemma {:induction false} FirstMatchNone(entries: seq<KnownKnot>, code: GaussCode)
    requires Sorted(entries)
    ensures FirstMatch(entries, code) == None ==> forall name :: !AnySame(Lookup(entries, name), code)
    ensures (forall name :: !AnySame(Lookup(entries, name), code)) ==> FirstMatch(entries, code) == None
  {
    if FirstMatch(entries, code) == None {
      NoMatchNoneSame(entries, code);
    } else {
      var found := FirstMatch(entries, code).value;
      FirstMatchFound(entries, code, found);
    }
  }

  /** The entries of known codes given as ids and handedness, the other fields zero. */
  function Enhanced(code: seq<int>, signs: seq<int>): GaussCode
    requires |code| == |signs|
  {
    seq(|code|, p requires 0 <= p < |code| => Crossing(code[p], 0, 0.0, signs[p]))
  }

  /** The codes and handedness of the knots a new behavior knows. */
  const TrefoilCode: seq<int> := [1, -2, 3, -1, 2, -3]
  const GrannyCodeA: seq<int> := [1, -2, 3, -4, 5, -6, 4, -5, 6, -1, 2, -3]
  const GrannyCodeB: seq<int> := [1, -2, 3, 4, -5, 6, -4, 5, -6, -1, 2, -3]
  const LeftHanded: seq<int> := [-1, -1, -1, -1, -1, -1, -1, -1, -1, -1, -1, -1]
  const RightHanded: seq<int> := [1, 1, 1, 1, 1, 1, 1, 1, 1, 1, 1, 1]
  const SquareLeftFirst: seq<int> := [-1, -1, -1, 1, 1, 1, 1, 1, 1, -1, -1, -1]
  const SquareRightFirst: seq<int> := [1, 1, 1, -1, -1, -1, -1, -1, -1, 1, 1, 1]

  function GrannyCodes(): seq<GaussCode> {
    [Enhanced(GrannyCodeA, LeftHanded), Enhanced(GrannyCodeB, LeftHanded),
     Enhanced(GrannyCodeA, RightHanded), Enhanced(GrannyCodeB, RightHanded)]
  }

  function SquareCodes(): seq<GaussCode> {
    [Enhanced(GrannyCodeB, SquareLeftFirst), Enhanced(GrannyCodeA, SquareLeftFirst),
     Enhanced(GrannyCodeB, SquareRightFirst), Enhanced(GrannyCodeA, SquareRightFirst)]
  }

  /** The codes a new behavior knows under each name. */
  function DefaultCodes(name: string): seq<GaussCode> {
    if name == "Trefoil Knot" then [Enhanced(TrefoilCode, RightHanded[..6])]
    else if name == "Granny Knot" then GrannyCodes()
    else if name == "Square Knot" then SquareCodes()
    else []
  }

  /** KnotIdentificationBehavior's table of known knots. */
  class KnotIdentifier {
    var knownLists: seq<KnownKnot>

    ghost predicate Valid()
      reads this
    {
      Sorted(knownLists)
    }

    /** A new behavior knows the trefoil, four codes of the granny knot and four of the
        square knot. */
    constructor ()
      ensures Valid()
      ensures forall name :: Lookup(knownLists, name) == DefaultCodes(name)
    {
      knownLists := [];
      new;
      AddKnownKnotCode("Trefoil Knot", TrefoilCode, RightHanded[..6]);
      AddGrannyCodes();
      AddSquareCodes();
    }

    /** The four granny knot codes of the constructor, in order. */
    method AddGrannyCodes()
      requires Valid()
      modifies this
      ensures Valid()
      ensures forall other :: Lookup(knownLists, other)
                              == if other == "Granny Knot" then Lookup(old(knownLists), other) + GrannyCodes()
                                 else Lookup(old(knownLists), other)
    {
      AddKnownKnotCode("Granny Knot", GrannyCodeA, LeftHanded);
      AddKnownKnotCode("Granny Knot", GrannyCodeB, LeftHanded);
      AddKnownKnotCode("Granny Knot", GrannyCodeA, RightHanded);
      AddKnownKnotCode("Granny Knot", GrannyCodeB, RightHanded);
    }

    /** The four square knot codes of the constructor, in order. */
    method AddSquareCodes()
      requires Valid()
      modifies this
      ensures Valid()
      ensures forall other :: Lookup(knownLists, other)
                              == if other == "Square Knot" then Lookup(old(knownLists), other) + SquareCodes()
                                 else Lookup(old(knownLists), other)
    {
      AddKnownKnotCode("Square Knot", GrannyCodeB, SquareLeftFirst);
      AddKnownKnotCode("Square Knot", GrannyCodeA, SquareLeftFirst);
      AddKnownKnotCode("Square Knot", GrannyCodeB, SquareRightFirst);
      AddKnownKnotCode("Square Knot", GrannyCodeA, SquareRightFirst);
    }

    /** A table with no known knots. */
    constructor Empty()
      ensures Valid() && knownLists == []
    {
      knownLists := [];
    }

    /** addKnownKnotCode: the code and the handedness must have the same length; the code is
        appended to the known codes of name, which is added to the table if new. */
    method AddKnownKnotCode(name: string, code: seq<int>, signs: seq<int>)
      requires Valid() && |code| == |signs|
      modifies this
      ensures Valid()
      ensures knownLists == Inserted(old(knownLists), name, Enhanced(code, signs))
      ensures forall other :: Lookup(knownLists, other)
                              == if other == name then Lookup(old(knownLists), other) + [Enhanced(code, signs)]
                                 else Lookup(old(knownLists), other)
    {
      var enhancedGaussCode: GaussCode := [];
      for id := 0 to |code|
        invariant enhancedGaussCode == Enhanced(code[..id], signs[..id])
      {
        enhancedGaussCode := enhancedGaussCode + [Crossing(code[id], 0, 0.0, signs[id])];
      }
      assert code[..|code|] == code && signs[..|signs|] == signs;
      InsertedSorted(knownLists, name, enhancedGaussCode);
      forall other
        ensures Lookup(Inserted(knownLists, name, enhancedGaussCode), other)
                == if other == name then Lookup(knownLists, other) + [enhancedGaussCode] else Lookup(knownLists, other)
      {
        InsertedLookup(knownLists, name, enhancedGaussCode, other);
      }
      knownLists := Inserted(knownLists, name, enhancedGaussCode);
    }

    /** clearKnownKnotCodes */
    method ClearKnownKnotCodes()
      modifies this
      ensures Valid() && knownLists == []
    {
      knownLists := [];
    }

    /** identifyKnot: "No Knot" for an empty code, else the name of the first known code,
        in the order of the names, that is the same code, else "Unknown Knot". */
    method IdentifyKnot(code: GaussCode) returns (name: string)
      ensures name == Identification(knownLists, code)
    {
      if code == [] {
        return "No Knot";
      }
      for e := 0 to |knownLists|
        invariant FirstMatch(knownLists, code) == FirstMatch(knownLists[e..], code)
      {
        var codes := knownLists[e].codes;
        for q := 0 to |codes|
          invariant forall q' :: 0 <= q' < q ==> !SameCode(code, codes[q'])
        {
          var same := IsSameCode(code, codes[q]);
          if same {
            return knownLists[e].name;
          }
        }
        assert knownLists[e..][1..] == knownLists[e + 1..];
      }
      return "Unknown Knot";
    }
  }
}

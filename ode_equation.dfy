// The update flags of an ODE equation: a bit field recording which of the force vector F
// and the mass, damping and stiffness matrices M, D and K have been computed at least once.
module OdeEquations {
  /** The update options as bits of an unsigned 32-bit word. */
  const OptionF: bv32 := 1
  const OptionM: bv32 := 2
  const OptionD: bv32 := 4
  const OptionK: bv32 := 8
  /** OptionF | OptionM | OptionD | OptionK */
  const OptionFMDK: bv32 := 15

  /** The four computed quantities. */
  datatype Quantity = F | M | D | K

  /** The computations updateFMDK asks of the equation, in the order it asks them. */
  datatype Computation = ComputeFMDK | Compute(quantity: Quantity)

  /** A quantity is flagged when its bit is set. */
  predicate Has(flags: bv32, q: Quantity) {
    match q
    case F => flags & OptionF != 0
    case M => flags & OptionM != 0
    case D => flags & OptionD != 0
    case K => flags & OptionK != 0
  }

  /** The flags after an update with the given options: every requested bit is set. */
  function Updated(flags: bv32, options: bv32): bv32 {
    if options == OptionFMDK then flags | OptionFMDK else flags | (options & OptionFMDK)
  }

  /** The computations an update asks for: the combined one for exactly FMDK, otherwise
      each requested quantity in the order F, M, D, K. */
  function Computations(options: bv32): seq<Computation> {
    if options == OptionFMDK then [ComputeFMDK]
    else
      Requested(options, F) + Requested(options, M) + Requested(options, D) + Requested(options, K)
  }

  function Requested(options: bv32, q: Quantity): seq<Computation> {
    if Has(options, q) then [Compute(q)] else []
  }

  function Bit(q: Quantity): bv32 {
    match q
    case F => OptionF
    case M => OptionM
    case D => OptionD
    case K => OptionK
  }

  /** The flags after the per-quantity branch for q. */
  function Step(flags: bv32, options: bv32, q: Quantity): bv32 {
    if Has(options, q) then flags | Bit(q) else flags
  }

  /** The branch for q sets q's bit exactly when options has it. */
  lemma StepSetsBit(flags: bv32, options: bv32, q: Quantity)
    ensures Step(flags, options, q) == flags | (options & Bit(q))
  {
    MaskedBit(options, Bit(q));
  }

  /** A one-bit mask keeps the bit or nothing. */
  lemma MaskedBit(options: bv32, bit: bv32)
    requires bit == OptionF || bit == OptionM || bit == OptionD || bit == OptionK
    ensures options & bit == 0 || options & bit == bit
  {
  }

  /** The four bits together make up FMDK. */
  lemma BitsMakeFMDK(flags: bv32, options: bv32)
    ensures flags | (options & OptionF) | (options & OptionM) | (options & OptionD) | (options & OptionK)
            == flags | (options & OptionFMDK)
  {
  }

  /** The four per-quantity branches together set the requested bits. */
  lemma RequestsUpdate(flags: bv32, options: bv32)
    requires options != OptionFMDK
    ensures Step(Step(Step(Step(flags, options, F), options, M), options, D), options, K) == Updated(flags, options)
  {
    var f := Step(flags, options, F);
    var m := Step(f, options, M);
    var d := Step(m, options, D);
    StepSetsBit(flags, options, F);
    StepSetsBit(f, options, M);
    StepSetsBit(m, options, D);
    StepSetsBit(d, options, K);
    BitsMakeFMDK(flags, options);
  }

  /** After an update a quantity is flagged iff it was flagged before or was requested; no
      other bit changes. */
  lemma UpdatedFlags(flags: bv32, options: bv32, q: Quantity)
    ensures Has(Updated(flags, options), q) <==> Has(flags, q) || Has(options, q)
  {
    UpdatedBit(flags, options, Bit(q));
    HasEither(flags, options, Updated(flags, options), q);
  }

  /** A quantity is flagged when the word masked by its bit is not zero. */
  lemma HasBit(flags: bv32, q: Quantity)
    ensures Has(flags, q) <==> flags & Bit(q) != 0
  {
  }

  /** A word whose bit for q is the bit of x or of y flags q exactly when x or y does. */
  lemma HasEither(x: bv32, y: bv32, u: bv32, q: Quantity)
    requires u & Bit(q) == (x & Bit(q)) | (y & Bit(q))
    ensures Has(u, q) <==> Has(x, q) || Has(y, q)
  {
    HasBit(x, q);
    HasBit(y, q);
    HasBit(u, q);
  }

  /** An update sets a quantity's bit to the bit in the flags or in the options. */
  lemma UpdatedBit(flags: bv32, options: bv32, bit: bv32)
    requires bit == OptionF || bit == OptionM || bit == OptionD || bit == OptionK
    ensures Updated(flags, options) & bit == (flags & bit) | (options & bit)
  {
  }

  /** An update leaves every bit outside FMDK as it was. */
  lemma UpdatedKeepsOtherBits(flags: bv32, options: bv32)
    ensures Updated(flags, options) & !OptionFMDK == flags & !OptionFMDK
  {
  }

  /** An update with FMDK flags all four quantities. */
  lemma UpdatedAll(flags: bv32, q: Quantity)
    ensures Has(Updated(flags, OptionFMDK), q)
  {
  }

  /** Flags are only ever set: a flagged quantity stays flagged. */
  lemma UpdatedMonotone(flags: bv32, options: bv32, q: Quantity)
    requires Has(flags, q)
    ensures Has(Updated(flags, options), q)
  {
  }

  /** Repeating an update changes nothing. */
  lemma UpdatedIdempotent(flags: bv32, options: bv32)
    ensures Updated(Updated(flags, options), options) == Updated(flags, options)
  {
  }

  /** A quantity is computed iff it is requested; the combined computation is asked only
      for the exact FMDK options, and then alone. */
  lemma ComputationsRequested(options: bv32, q: Quantity)
    ensures Compute(q) in Computations(options) <==> options != OptionFMDK && Has(options, q)
    ensures ComputeFMDK in Computations(options) <==> options == OptionFMDK
    ensures |Computations(options)| <= 4
  {
  }

  class OdeEquation {
    /** m_initState */
    var initState: bv32
    /** The computations asked of the equation so far. */
    var computations: seq<Computation>

    constructor ()
      ensures initState == 0 && computations == []
      ensures forall q: Quantity :: !HasQuantity(q)
    {
      initState := 0;
      computations := [];
    }

    /** hasF, hasM, hasD, hasK. */
    predicate HasQuantity(q: Quantity)
      reads this
    {
      Has(initState, q)
    }

    /** updateFMDK: the requested computations run, then their bits are set. */
    method UpdateFMDK(options: bv32)
      modifies this
      ensures initState == Updated(old(initState), options)
      ensures computations == old(computations) + Computations(options)
    {
      if options == OptionFMDK {
        computations := computations + [ComputeFMDK];
        initState := initState | OptionFMDK;
      } else {
        Request(options, F);
        Request(options, M);
        Request(options, D);
        Request(options, K);
        RequestsUpdate(old(initState), options);
      }
    }

    /** One test of the per-quantity branch of updateFMDK. */
    method Request(options: bv32, q: Quantity)
      modifies this
      ensures initState == Step(old(initState), options, q)
      ensures computations == old(computations) + Requested(options, q)
    {
      if Has(options, q) {
        computations := computations + [Compute(q)];
        initState := initState | Bit(q);
      }
    }
  }
}

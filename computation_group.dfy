// A group of physics computations run in sequence on the physics manager state; any
// computation may ask the group to abort the rest of the pass.
module ComputationGroups {
  /** The part of the physics manager state the group looks at: its data and the abort flag. */
  datatype PhysicsState<T> = PhysicsState(data: T, abortGroup: bool)

  /** What one pass produces: the last state and whether a computation aborted the pass. */
  datatype PassResult<T> = PassResult(state: PhysicsState<T>, aborted: bool)

  /** The state after running every computation in order, ignoring the abort flag. */
  function Thread<C, T>(computations: seq<C>, update: (C, real, PhysicsState<T>) -> PhysicsState<T>,
                        dt: real, state: PhysicsState<T>): PhysicsState<T>
    decreases |computations|
  {
    if computations == [] then state
    else Thread(computations[1..], update, dt, update(computations[0], dt, state))
  }

  /** One pass of doUpdate: each computation updates the state in turn; the first whose
      result asks to abort ends the pass, with the flag cleared. */
  function Pass<C, T>(computations: seq<C>, update: (C, real, PhysicsState<T>) -> PhysicsState<T>,
                      dt: real, state: PhysicsState<T>): PassResult<T>
    decreases |computations|
  {
    if computations == [] then PassResult(state, false)
    else
      var next := update(computations[0], dt, state);
      if next.abortGroup then PassResult(next.(abortGroup := false), true)
      else Pass(computations[1..], update, dt, next)
  }

  /** Without an abort along the way a pass is the plain composition of the computations. */
  lemma {:induction false} PassWithoutAbort<C, T>(computations: seq<C>,
                                                  update: (C, real, PhysicsState<T>) -> PhysicsState<T>,
                                                  dt: real, state: PhysicsState<T>)
    requires forall k :: 1 <= k <= |computations| ==> !Thread(computations[..k], update, dt, state).abortGroup
    ensures Pass(computations, update, dt, state) == PassResult(Thread(computations, update, dt, state), false)
    decreases |computations|
  {
    if computations != [] {
      var next := update(computations[0], dt, state);
      assert Thread(computations[..1], update, dt, state) == next by {
        assert computations[..1][1..] == [];
      }
      forall k | 1 <= k <= |computations[1..]|
        ensures !Thread(computations[1..][..k], update, dt, next).abortGroup
      {
        assert computations[..k + 1][1..] == computations[1..][..k];
        assert Thread(computations[..k + 1], update, dt, state) == Thread(computations[1..][..k], update, dt, next);
      }
      PassWithoutAbort(computations[1..], update, dt, next);
    }
  }

  /** A pass stops at the first computation whose result asks to abort: the state is the one
      that computation returned, with the abort flag cleared. */
  lemma {:induction false} PassStopsAtFirstAbort<C, T>(computations: seq<C>,
                                                       update: (C, real, PhysicsState<T>) -> PhysicsState<T>,
                                                       dt: real, state: PhysicsState<T>, first: nat)
    requires 1 <= first <= |computations|
    requires Thread(computations[..first], update, dt, state).abortGroup
    requires forall k :: 1 <= k < first ==> !Thread(computations[..k], update, dt, state).abortGroup
    ensures Pass(computations, update, dt, state)
            == PassResult(Thread(computations[..first], update, dt, state).(abortGroup := false), true)
    decreases |computations|
  {
    var next := update(computations[0], dt, state);
    assert Thread(computations[..1], update, dt, state) == next by {
      assert computations[..1][1..] == [];
    }
    if first > 1 {
      assert !next.abortGroup;
      assert computations[..first][1..] == computations[1..][..first - 1];
      forall k | 1 <= k < first - 1
        ensures !Thread(computations[1..][..k], update, dt, next).abortGroup
      {
        assert computations[..k + 1][1..] == computations[1..][..k];
        assert Thread(computations[..k + 1], update, dt, state) == Thread(computations[1..][..k], update, dt, next);
      }
      PassStopsAtFirstAbort(computations[1..], update, dt, next, first - 1);
    }
  }

  /** A pass never hands back a state that still asks to abort. */
  lemma {:induction false} PassClearsAbort<C, T>(computations: seq<C>,
                                                 update: (C, real, PhysicsState<T>) -> PhysicsState<T>,
                                                 dt: real, state: PhysicsState<T>)
    requires !state.abortGroup
    ensures !Pass(computations, update, dt, state).state.abortGroup
    decreases |computations|
  {
    if computations != [] {
      var next := update(computations[0], dt, state);
      if !next.abortGroup {
        PassClearsAbort(computations[1..], update, dt, next);
      }
    }
  }

  class ComputationGroup<C, T> {
    /** m_computations */
    var computations: seq<C>
    /** m_iterations: the number of passes of the last update. */
    var iterations: nat

    constructor ()
      ensures computations == [] && iterations == 0
    {
      computations := [];
      iterations := 0;
    }

    /** addComputation appends. */
    method AddComputation(computation: C)
      modifies this
      ensures computations == old(computations) + [computation]
      ensures iterations == old(iterations)
    {
      computations := computations + [computation];
    }

    /** The group's own end-of-pass test: every pass is the last. */
    function EndIteration(): bool {
      true
    }

    /** doUpdate: passes over the computations until one aborts or endIteration says so;
        with the group's own endIteration there is exactly one pass. */
    method DoUpdate(dt: real, state: PhysicsState<T>, update: (C, real, PhysicsState<T>) -> PhysicsState<T>)
      returns (lastState: PhysicsState<T>)
      modifies this
      ensures iterations == 1
      ensures lastState == Pass(computations, update, dt, state).state
      ensures computations == old(computations)
    {
      iterations := 0;
      var keepRunning := true;
      lastState := state;
      while keepRunning
        invariant keepRunning ==> iterations == 0 && lastState == state
        invariant !keepRunning ==> iterations == 1 && lastState == Pass(computations, update, dt, state).state
        invariant computations == old(computations)
        decreases keepRunning
      {
        iterations := iterations + 1;
        var i := 0;
        var aborted := false;
        while i < |computations| && !aborted
          invariant 0 <= i <= |computations|
          invariant !aborted ==> Pass(computations[i..], update, dt, lastState) == Pass(computations, update, dt, state)
          invariant aborted ==> lastState == Pass(computations, update, dt, state).state
          decreases |computations| - i, !aborted
        {
          assert computations[i..][1..] == computations[i + 1..];
          lastState := update(computations[i], dt, lastState);
          if lastState.abortGroup {
            lastState := lastState.(abortGroup := false);
            aborted := true;
          } else {
            i := i + 1;
          }
        }
        if !aborted {
          assert computations[i..] == [];
        }
        keepRunning := !aborted && !EndIteration();
      }
    }
  }
}

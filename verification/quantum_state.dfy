/** The lattice state (`QuantumState`): one complex amplitude per lattice point,
    a history holding the most recent state only, and the temporal entanglement
    vector derived from the state after every step.

    The ODE solve is not modelled: `evolve` receives the solver's outcome, either
    a failure or the final sample at t = dt. */
module QuantumStates {
  import opened Numerics
  import opened Results
  import opened Config

  datatype QuantumState = QuantumState(
    state: seq<Complex>,
    history: seq<seq<Complex>>,
    entanglement: seq<Complex>)

  /** Shape invariant: every vector spans the lattice and the history is at most
      one state deep. */
  predicate Valid(q: QuantumState) {
    && |q.state| == TotalPoints
    && |q.entanglement| == TotalPoints
    && |q.history| <= 1
    && (forall k :: 0 <= k < |q.history| ==> |q.history[k]| == TotalPoints)
  }

  /** A stream of uniform phase draws in [0, 2π): draw `i` is the phase of point
      `i` (`np.random.uniform(0, 2 * np.pi, total_points)`). */
  type Phases = nat -> real

  /** A random state, `exp(1j * phases) / sqrt(total_points)`: scaling entry i
      back by the square root of the point count gives the phase factor of
      draw i. */
  function FreshState(phases: Phases, lib: FloatLib): (r: seq<Complex>)
    ensures |r| == TotalPoints
    ensures forall i :: 0 <= i < TotalPoints ==> Scale(r[i], SqrtTotalPoints) == lib.cis(phases(i))
  {
    seq(TotalPoints, i requires 0 <= i => Scale(lib.cis(phases(i)), InvSqrtTotalPoints))
  }

  /** A fresh state is a unit vector whenever `exp(iθ)` has modulus one at the
      drawn phases: each of the N points carries weight 1/N. */
  lemma FreshStateUnitNorm(phases: Phases, lib: FloatLib)
    requires forall i :: 0 <= i < TotalPoints ==> AbsSquared(lib.cis(phases(i))) == 1.0
    ensures NormSquared(FreshState(phases, lib)) == 1.0
  {
    var v := FreshState(phases, lib);
    var w := 1.0 / (TotalPoints as real);
    forall i | 0 <= i < |v| ensures AbsSquared(v[i]) == w {
      FreshEntryWeight(phases, lib, i);
    }
    NormSquaredUniform(v, w);
  }

  /** A point of a fresh state whose phase factor has modulus one carries
      weight 1/N. */
  lemma FreshEntryWeight(phases: Phases, lib: FloatLib, i: nat)
    requires i < TotalPoints && AbsSquared(lib.cis(phases(i))) == 1.0
    ensures AbsSquared(FreshState(phases, lib)[i]) == 1.0 / (TotalPoints as real)
  {
    var z := lib.cis(phases(i));
    assert FreshState(phases, lib)[i] == Scale(z, InvSqrtTotalPoints);
    ScaleAbsSquared(z, InvSqrtTotalPoints);
  }

  /** Scaling by k multiplies |z|² by k². */
  lemma ScaleAbsSquared(z: Complex, k: real)
    ensures AbsSquared(Scale(z, k)) == k * k * AbsSquared(z)
  {
  }

  /** A vector whose entries all have |v[i]|² = w has squared norm |v|·w. */
  lemma {:induction false} NormSquaredUniform(v: seq<Complex>, w: real)
    requires forall i :: 0 <= i < |v| ==> AbsSquared(v[i]) == w
    ensures NormSquared(v) == |v| as real * w
    decreases |v|
  {
    if v != [] {
      NormSquaredUniform(v[..|v| - 1], w);
    }
  }

  /** `QuantumState.__init__`: a fresh random state, an empty history and an
      all-zero entanglement vector, each over the whole lattice. */
  function Init(phases: Phases, lib: FloatLib): (q: QuantumState)
    ensures Valid(q)
    ensures |q.state| == TotalPoints && q.state == FreshState(phases, lib)
    ensures q.history == []
    ensures |q.entanglement| == TotalPoints
    ensures forall i :: 0 <= i < TotalPoints ==> q.entanglement[i] == Zero
  {
    QuantumState(FreshState(phases, lib), [], seq(TotalPoints, _ => Zero))
  }

  /** What `solve_ivp` reports: failure, or success with the solution at the end
      of the step, point by point (`sol.y[:, -1]`). */
  datatype SolverResult = SolverFailed | SolverOk(final: nat -> Complex)

  /** The `RuntimeError("ODE solver failed")` that `evolve` raises. */
  datatype EvolveError = OdeSolverFailed

  /** The solver's final sample over the `n` points of the initial state. */
  function FinalSample(final: nat -> Complex, n: nat): (r: seq<Complex>)
    ensures |r| == n
  {
    seq(n, i requires 0 <= i => final(i))
  }

  /** `np.linalg.norm(v)`. */
  function Norm(v: seq<Complex>, lib: FloatLib): real {
    lib.sqrt(NormSquared(v))
  }

  /** Normalise-or-reinitialise: a sample with positive norm is divided by its
      norm; otherwise the state is replaced by a fresh random one. */
  function Renormalise(sample: seq<Complex>, lib: FloatLib, phases: Phases): (r: seq<Complex>)
    requires |sample| == TotalPoints
    ensures |r| == TotalPoints
    ensures Norm(sample, lib) > 0.0 ==>
              forall i :: 0 <= i < TotalPoints ==> Scale(r[i], Norm(sample, lib)) == sample[i]
    ensures !(Norm(sample, lib) > 0.0) ==> r == FreshState(phases, lib)
  {
    var norm := Norm(sample, lib);
    if norm > 0.0 then seq(|sample|, i requires 0 <= i < |sample| => Divide(sample[i], norm))
    else FreshState(phases, lib)
  }

  /** `history.append(s)` followed by keeping only the last entry when the list
      grew past one: whatever the history held, only the new state remains. */
  function PushHistory(history: seq<seq<Complex>>, s: seq<Complex>): (r: seq<seq<Complex>>)
    ensures r == [s]
  {
    var h := history + [s];
    if |h| > 1 then h[|h| - 1..] else h
  }

  /** `state.conj() * entanglement_factor`. The vector determines the state:
      dividing by the factor and conjugating gives each amplitude back. */
  function EntanglementOf(state: seq<Complex>): (r: seq<Complex>)
    ensures |r| == |state|
    ensures forall i :: 0 <= i < |state| ==> Conj(Divide(r[i], EntanglementFactor)) == state[i]
  {
    seq(|state|, i requires 0 <= i < |state| => Scale(Conj(state[i]), EntanglementFactor))
  }

  /** `QuantumState.evolve` after the solve: a failed solve raises and leaves
      nothing changed; a successful one stores the renormalised (or
      reinitialised) sample, makes it the single history entry, and recomputes
      the entanglement vector from it. */
  function Evolve(q: QuantumState, outcome: SolverResult, lib: FloatLib, phases: Phases)
    : (r: Result<QuantumState, EvolveError>)
    requires Valid(q)
    ensures r.Failure? <==> outcome.SolverFailed?
    ensures r.Success? ==> Valid(r.value)
    ensures r.Success? ==> |r.value.history| == 1 && r.value.history[0] == r.value.state
    ensures r.Success? ==>
              forall i :: 0 <= i < TotalPoints ==>
                r.value.entanglement[i] == Scale(Conj(r.value.state[i]), EntanglementFactor)
    ensures r.Success? ==>
              var sample := FinalSample(outcome.final, TotalPoints);
              && (Norm(sample, lib) > 0.0 ==>
                    forall i :: 0 <= i < TotalPoints ==> Scale(r.value.state[i], Norm(sample, lib)) == sample[i])
              && (!(Norm(sample, lib) > 0.0) ==> r.value.state == FreshState(phases, lib))
  {
    match outcome
    case SolverFailed => Failure(OdeSolverFailed)
    case SolverOk(final) =>
      var state := Renormalise(FinalSample(final, |q.state|), lib, phases);
      Success(QuantumState(state, PushHistory(q.history, state), EntanglementOf(state)))
  }

  /** The solver outcomes of a sequence of steps, applied one after the other
      until a step fails. */
  function EvolveAll(q: QuantumState, outcomes: seq<SolverResult>, lib: FloatLib, phases: Phases)
    : (r: Result<QuantumState, EvolveError>)
    requires Valid(q)
    decreases |outcomes|
  {
    if outcomes == [] then Success(q)
    else match Evolve(q, outcomes[0], lib, phases)
      case Failure(e) => Failure(e)
      case Success(q') => EvolveAll(q', outcomes[1..], lib, phases)
  }

  /** However many steps run, the history never holds more than one state, and
      after at least one successful step it holds exactly the current state. */
  lemma {:induction false} HistoryDepthOne(q: QuantumState, outcomes: seq<SolverResult>, lib: FloatLib, phases: Phases)
    requires Valid(q)
    ensures EvolveAll(q, outcomes, lib, phases).Success? ==>
              var q' := EvolveAll(q, outcomes, lib, phases).value;
              && |q'.history| <= 1
              && (outcomes != [] ==> q'.history == [q'.state])
    decreases |outcomes|
  {
    if outcomes != [] {
      match Evolve(q, outcomes[0], lib, phases)
      case Failure(_) =>
      case Success(q') =>
        HistoryDepthOne(q', outcomes[1..], lib, phases);
    }
  }
}

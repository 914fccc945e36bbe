/** The simulation controller (`Unified6DTOE`): it embeds the target public key
    into the lattice fields once, then runs the evolve → extract → validate loop
    under an iteration budget, stopping early on a match, on an exception, or
    when it was shut down. */
module Simulation {
  import opened Bits
  import opened Numerics
  import opened Results
  import opened Config
  import opened KeyExtraction
  import opened QuantumStates

  // ---------------------------------------------------------------------------
  // The target public key and its bit embedding
  // ---------------------------------------------------------------------------

  /** What the first element of `target_pubkey` may be. `bool` is a subclass of
      `int` in Python, so it passes the `isinstance(.., int)` guard. */
  datatype PyValue = PyInt(value: int) | PyBool(flag: bool) | PyOther

  /** `target_pubkey`: `None` or a tuple; `None` and `()` are both falsy. */
  datatype PubkeyArg = PubkeyNone | PubkeyTuple(items: seq<PyValue>)

  /** The two `ValueError`s construction can raise. */
  datatype ConfigError =
    | InvalidTargetPubkey   // the explicit guard: falsy tuple or non-int first element
    | InvalidDigit          // `int('b')`: `bin` of a negative number starts with "-0b"

  /** `[int(bit) for bit in bin(x)[2:].zfill(256)]` for `x >= 0`. */
  function PubkeyBits(x: nat): (r: seq<Bit>)
    ensures |r| == if |Digits(x)| >= KeyBits then |Digits(x)| else KeyBits
    ensures Pack(r) == x
  {
    ZeroFill(Digits(x), KeyBits)
  }

  /** The embedding is exactly 256 digits wide precisely for keys below 2^256;
      wider keys keep all their digits. */
  lemma PubkeyBitsWidth(x: nat)
    ensures |PubkeyBits(x)| == KeyBits <==> x < Pow2(KeyBits)
    ensures |PubkeyBits(x)| >= KeyBits
  {
    DigitsWidth(x, KeyBits);
  }

  /** Every 256-bit pattern is the embedding of the integer it packs to. */
  lemma PubkeyBitsRoundTrip(s: seq<Bit>)
    requires |s| == KeyBits
    ensures PubkeyBits(Pack(s)) == s
  {
    ZeroFillDigitsOfPack(s);
  }

  /** The guard of `send_pubkey_through_wormhole` and its digit conversion. */
  function EmbedPubkey(arg: PubkeyArg): (r: Result<seq<Bit>, ConfigError>)
    ensures r.Failure? <==>
              || arg.PubkeyNone?
              || arg.items == []
              || arg.items[0].PyOther?
              || (arg.items[0].PyInt? && arg.items[0].value < 0)
    ensures r.Success? ==> |r.value| >= KeyBits
    ensures r.Success? && arg.items[0].PyInt? ==> Pack(r.value) == arg.items[0].value
    ensures r.Success? && arg.items[0].PyBool? ==> Pack(r.value) == if arg.items[0].flag then 1 else 0
    ensures r.Success? && arg.items[0].PyInt? ==>
              |r.value| == if |Digits(arg.items[0].value)| >= KeyBits then |Digits(arg.items[0].value)| else KeyBits
    ensures r.Success? && arg.items[0].PyBool? ==> |r.value| == KeyBits
  {
    match arg
    case PubkeyNone => Failure(InvalidTargetPubkey)
    case PubkeyTuple(items) =>
      if items == [] then Failure(InvalidTargetPubkey)
      else
        match items[0]
        case PyOther => Failure(InvalidTargetPubkey)
        case PyBool(b) =>
          var x := if b then 1 else 0;
          PubkeyBitsWidth(x);
          Success(PubkeyBits(x))
        case PyInt(x) =>
          if x < 0 then Failure(InvalidDigit)
          else
            PubkeyBitsWidth(x);
            Success(PubkeyBits(x))
  }

  /** `scalar_field[i] = pubkey_bits[i % 256]` for every lattice point: the
      field starts with the top 256 key digits and repeats with period 256,
      which together fix every entry. */
  function ScalarField(bits: seq<Bit>, n: nat): (r: seq<Bit>)
    requires |bits| >= KeyBits
    ensures |r| == n
    ensures forall i :: 0 <= i < KeyBits && i < n ==> r[i] == bits[i]
    ensures forall i, j :: 0 <= i < j < n && (j - i) % KeyBits == 0 ==> r[i] == r[j]
  {
    var r := seq(n, i requires 0 <= i < n => bits[i % KeyBits]);
    assert forall i, j :: 0 <= i < j < n && (j - i) % KeyBits == 0 ==> r[i] == r[j] by {
      forall i, j | 0 <= i < j < n && (j - i) % KeyBits == 0 ensures r[i] == r[j] {
        SameResidue(i, j, KeyBits);
      }
    }
    r
  }

  /** Indices a multiple of `m` apart have the same residue modulo `m`. */
  lemma SameResidue(i: nat, j: nat, m: nat)
    requires m > 0 && i <= j && (j - i) % m == 0
    ensures i % m == j % m
  {
    var k := (j - i) / m;
    assert j == i + k * m;
    ModOfMulAdd(k, m, i % m);
    assert i == (i / m) * m + i % m;
    assert j == (k + i / m) * m + i % m;
    ModOfMulAdd(k + i / m, m, i % m);
  }

  /** The field's first 256 entries read back as the top 256 digits of the key:
      a key whose embedding is exactly 256 digits wide (one below 2^256, by
      `PubkeyBitsWidth`) is reproduced without loss, and a wider key loses its
      low `|bits| - 256` digits. */
  lemma ScalarFieldCarriesKey(x: nat, n: nat)
    requires n >= KeyBits
    ensures Pack(ScalarField(PubkeyBits(x), n)[..KeyBits]) == x / Pow2(|PubkeyBits(x)| - KeyBits)
    ensures |PubkeyBits(x)| == KeyBits ==> Pack(ScalarField(PubkeyBits(x), n)[..KeyBits]) == x
  {
    var bits := PubkeyBits(x);
    ScalarFieldPrefix(bits, n);
    TopDigits(bits, x);
    if |bits| == KeyBits {
      assert Pow2(|bits| - KeyBits) == Pow2(0) == 1;
      assert x / 1 == x;
    }
  }

  /** The first 256 field entries are the first 256 digits of the embedding. */
  lemma ScalarFieldPrefix(bits: seq<Bit>, n: nat)
    requires |bits| >= KeyBits && n >= KeyBits
    ensures Pack(ScalarField(bits, n)[..KeyBits]) == Pack(bits[..KeyBits])
  {
    assert ScalarField(bits, n)[..KeyBits] == bits[..KeyBits];
  }

  /** The first 256 digits of an embedding of `x` pack to its top digits. */
  lemma TopDigits(bits: seq<Bit>, x: nat)
    requires |bits| >= KeyBits && Pack(bits) == x
    ensures Pack(bits[..KeyBits]) == x / Pow2(|bits| - KeyBits)
  {
    PackPrefix(bits, KeyBits);
  }

  /** The Gaussian envelope times the cross-axis weight at each flat index,
      before the key mask (float work, supplied by the caller). */
  type Envelope = nat -> real

  /** Σ v[i]². */
  function SumSquares(v: seq<real>): real {
    if v == [] then 0.0 else SumSquares(v[..|v| - 1]) + v[|v| - 1] * v[|v| - 1]
  }

  /** `v /= norm` when the norm is positive; otherwise `v` unchanged. */
  function NormaliseReal(v: seq<real>, lib: FloatLib): (r: seq<real>)
    ensures |r| == |v|
    ensures forall i :: 0 <= i < |v| && v[i] == 0.0 ==> r[i] == 0.0
    ensures lib.sqrt(SumSquares(v)) > 0.0 ==>
              forall i :: 0 <= i < |v| ==> r[i] * lib.sqrt(SumSquares(v)) == v[i]
    ensures !(lib.sqrt(SumSquares(v)) > 0.0) ==> r == v
  {
    var norm := lib.sqrt(SumSquares(v));
    if norm > 0.0 then seq(|v|, i requires 0 <= i < |v| => v[i] / norm) else v
  }

  /** The wormhole coupling vector: the envelope with every point whose tiled
      key bit is 0 masked out, then normalised. */
  function CouplingVector(bits: seq<Bit>, envelope: Envelope, lib: FloatLib): (r: seq<real>)
    requires |bits| >= KeyBits
    ensures |r| == TotalPoints
    ensures forall i :: 0 <= i < TotalPoints && bits[i % KeyBits] == 0 ==> r[i] == 0.0
  {
    var masked := seq(TotalPoints, i requires 0 <= i => envelope(i) * (bits[i % KeyBits] as real));
    NormaliseReal(masked, lib)
  }

  // ---------------------------------------------------------------------------
  // The controller
  // ---------------------------------------------------------------------------

  datatype Simulation = Simulation(
    targetAddress: string,
    quantum: QuantumState,
    scalarField: seq<Bit>,
    coupling: seq<real>,
    running: bool,
    keyFound: bool,
    history: seq<nat>,
    predictedKey: Option<string>)

  predicate WellFormed(sim: Simulation) {
    QuantumStates.Valid(sim.quantum)
  }

  /** `Unified6DTOE.__init__`: fails exactly when the key embedding fails;
      otherwise the controller is running, has found nothing, and its fields
      carry the tiled key bits, with the coupling vector zero wherever the
      tiled bit is zero. */
  function New(target: string, pubkey: PubkeyArg, lib: FloatLib, phases: Phases, envelope: Envelope)
    : (r: Result<Simulation, ConfigError>)
    ensures r.Failure? <==> EmbedPubkey(pubkey).Failure?
    ensures r.Failure? ==> r.error == EmbedPubkey(pubkey).error
    ensures r.Success? ==>
              && WellFormed(r.value)
              && r.value.targetAddress == target
              && r.value.running && !r.value.keyFound
              && r.value.history == [] && r.value.predictedKey == None
              && r.value.quantum == Init(phases, lib)
              && r.value.scalarField == ScalarField(EmbedPubkey(pubkey).value, TotalPoints)
              && r.value.coupling == CouplingVector(EmbedPubkey(pubkey).value, envelope, lib)
              && |r.value.scalarField| == TotalPoints
              && |r.value.coupling| == TotalPoints
              && (forall i :: 0 <= i < TotalPoints && r.value.scalarField[i] == 0 ==> r.value.coupling[i] == 0.0)
  {
    match EmbedPubkey(pubkey)
    case Failure(e) => Failure(e)
    case Success(bits) =>
      Success(Simulation(
        target, Init(phases, lib), ScalarField(bits, TotalPoints), CouplingVector(bits, envelope, lib),
        true, false, [], None))
  }

  /** A non-negative integer key below 2^256 survives construction: the first
      256 entries of the scalar field read back as the key itself. */
  lemma NewCarriesKey(target: string, x: int, rest: seq<PyValue>, lib: FloatLib, phases: Phases, envelope: Envelope)
    requires 0 <= x < Pow2(KeyBits)
    ensures New(target, PubkeyTuple([PyInt(x)] + rest), lib, phases, envelope).Success?
    ensures Pack(New(target, PubkeyTuple([PyInt(x)] + rest), lib, phases, envelope).value.scalarField[..KeyBits]) == x
  {
    PubkeyBitsWidth(x);
    TotalPointsValue();
    ScalarFieldCarriesKey(x, TotalPoints);
  }

  /** `shutdown()`: clears `running` and sets `key_found`, which the loop reads
      as its stop signal. */
  function Shutdown(sim: Simulation): (r: Simulation)
    ensures !r.running && r.keyFound
    ensures r.(running := sim.running, keyFound := sim.keyFound) == sim
  {
    sim.(running := false, keyFound := true)
  }

  /** The collaborators of one run: the ODE solve, the float library, the
      validator, and the random draws of iteration i (phases for a reinitialised
      state, positions for the all-zero fallback), and the ranking `np.argsort`
      returns. */
  datatype Environment = Environment(
    solve: QuantumState -> SolverResult,
    lib: FloatLib,
    validate: Validator,
    reinit: nat -> Phases,
    fallback: nat -> Choice,
    rank: Ranking)

  /** How one iteration's `try` block ended. */
  datatype CycleResult =
    | Raised(sim: Simulation)
    | Matched(sim: Simulation, key: nat)
    | Missed(sim: Simulation, key: nat)

  /** The body of one loop iteration: evolve, extract, and react to the
      validator's answer.

      The first branch covers controllers no run reaches: `New` builds a
      well-formed one and every iteration keeps it so (`RunHistory`). It only
      makes the function total. The source would raise in the reshape for a
      state that does not span the lattice, but not for a mis-sized
      entanglement vector or a longer history, so on such inputs the model's
      `Raised` is not a claim about the source. */
  function Cycle(sim: Simulation, env: Environment, i: nat): (r: CycleResult)
    ensures WellFormed(sim) ==> WellFormed(r.sim)
    ensures WellFormed(sim) ==> (r.Raised? <==> env.solve(sim.quantum).SolverFailed?)
    ensures r.sim.scalarField == sim.scalarField && r.sim.coupling == sim.coupling
    ensures r.Raised? ==> r.sim == sim.(running := false)
    ensures WellFormed(sim) && !r.Raised? ==>
              && r.sim.quantum == Evolve(sim.quantum, env.solve(sim.quantum), env.lib, env.reinit(i)).value
              && var f := Features(r.sim.quantum.state, env.lib);
                 r.key == Candidate(f, env.rank(f), env.fallback(i))
    ensures !r.Raised? ==>
              && SearchStart <= r.key <= SearchEnd
              && r.sim.running == sim.running
              && r.sim.targetAddress == sim.targetAddress
              && r.sim.quantum.history == [r.sim.quantum.state]
    ensures r.Matched? ==>
              && env.validate(r.key, sim.targetAddress).matched
              && r.sim.history == sim.history + [r.key]
              && r.sim.keyFound
              && r.sim.predictedKey == Some(env.validate(r.key, sim.targetAddress).wif)
    ensures r.Missed? ==>
              && !env.validate(r.key, sim.targetAddress).matched
              && r.sim.history == sim.history
              && r.sim.keyFound == sim.keyFound
              && r.sim.predictedKey == sim.predictedKey
  {
    if !WellFormed(sim) then Raised(sim.(running := false))
    else
      match Evolve(sim.quantum, env.solve(sim.quantum), env.lib, env.reinit(i))
      case Failure(_) => Raised(sim.(running := false))
      case Success(q) =>
        var f := Features(q.state, env.lib);
        var ex := Extract(f, env.rank(f), env.fallback(i), sim.targetAddress, env.validate, sim.history);
        var next := sim.(quantum := q, history := ex.history);
        if ex.success then Matched(next.(predictedKey := Some(ex.wif), keyFound := true), ex.key)
        else Missed(next, ex.key)
  }

  /** One iteration as the loop sees it: the controller and the iteration
      number in, the way the `try` block ended out. */
  type Step = (Simulation, nat) -> CycleResult

  function CycleOf(env: Environment): Step {
    (sim: Simulation, i: nat) => Cycle(sim, env, i)
  }

  /** What the loop relies on about the outcome `r` of one iteration on `sim`. */
  predicate StepSpec(sim: Simulation, env: Environment, r: CycleResult) {
    && (WellFormed(sim) ==> WellFormed(r.sim))
    && (WellFormed(sim) && env.solve(sim.quantum).SolverOk? ==> !r.Raised?)
    && r.sim.scalarField == sim.scalarField && r.sim.coupling == sim.coupling
    && (r.Raised? ==> r.sim == sim.(running := false))
    && (!r.Raised? ==> r.sim.running == sim.running && r.sim.targetAddress == sim.targetAddress)
    && (r.Matched? ==>
          && env.validate(r.key, sim.targetAddress).matched
          && r.sim.history == sim.history + [r.key]
          && r.sim.keyFound
          && r.sim.predictedKey == Some(env.validate(r.key, sim.targetAddress).wif))
    && (r.Missed? ==>
          && !env.validate(r.key, sim.targetAddress).matched
          && r.sim.history == sim.history
          && r.sim.keyFound == sim.keyFound
          && r.sim.predictedKey == sim.predictedKey)
  }

  ghost predicate StepContract(step: Step, env: Environment) {
    forall sim: Simulation, i: nat :: StepSpec(sim, env, step(sim, i))
  }

  /** Every iteration of the controller keeps the contract the loop relies on. */
  lemma CycleMeetsContract(env: Environment)
    ensures StepContract(CycleOf(env), env)
  {
    forall sim: Simulation, i: nat
      ensures StepSpec(sim, env, CycleOf(env)(sim, i))
    {
      var r := Cycle(sim, env, i);
      assert CycleOf(env)(sim, i) == r;
    }
  }

  /** The controller after a run, and how many iterations entered the `try`
      block. */
  datatype Run = Run(sim: Simulation, cycles: nat)

  /** The loop of `run_simulation` from iteration `i` on: stop before the body
      when the controller is not running or the stop signal is set, leave after
      an exception or a match, continue after a miss. A stopped controller is
      returned untouched, and a run performs at most one cycle per remaining
      iteration. */
  function RunFrom(sim: Simulation, step: Step, i: nat, iterations: nat): (r: Run)
    ensures r.cycles <= if i <= iterations then iterations - i else 0
    ensures !sim.running || sim.keyFound ==> r == Run(sim, 0)
    decreases iterations - i
  {
    if i >= iterations || !sim.running || sim.keyFound then Run(sim, 0)
    else
      match step(sim, i)
      case Raised(s) => Run(s, 1)
      case Matched(s, _) => Run(s, 1)
      case Missed(s, _) =>
        var rest := RunFrom(s, step, i + 1, iterations);
        Run(rest.sim, rest.cycles + 1)
  }

  /** The history and the predicted key change only through a match: a run that
      did not set the stop signal leaves both as they were, and a run that found
      the key appended exactly the matched key and stored its WIF. The lattice
      shape, the target and the embedded key fields survive every run. */
  lemma {:induction false} RunHistory(sim: Simulation, env: Environment, step: Step, i: nat, iterations: nat)
    requires StepContract(step, env)
    ensures var r := RunFrom(sim, step, i, iterations).sim;
      && (WellFormed(sim) ==> WellFormed(r))
      && r.targetAddress == sim.targetAddress
      && r.scalarField == sim.scalarField && r.coupling == sim.coupling
      && (r.keyFound == sim.keyFound ==> r.history == sim.history && r.predictedKey == sim.predictedKey)
      && (r.keyFound && !sim.keyFound ==>
            && |r.history| == |sim.history| + 1
            && r.history[..|sim.history|] == sim.history
            && r.predictedKey.Some?
            && env.validate(r.history[|sim.history|], sim.targetAddress) == Validation(true, r.predictedKey.value))
    decreases iterations - i
  {
    if i < iterations && sim.running && !sim.keyFound {
      assert StepSpec(sim, env, step(sim, i));
      match step(sim, i)
      case Raised(_) =>
      case Matched(s, k) =>
        assert s.history[..|sim.history|] == sim.history;
      case Missed(s, _) => RunHistory(s, env, step, i + 1, iterations);
    }
  }

  /** Early exit: a run that ended on a match or an exception, rather than on its
      budget, ends the same way under any larger budget. */
  lemma {:induction false} RunStopsEarly(sim: Simulation, step: Step, i: nat, iterations: nat, more: nat)
    requires iterations <= more
    requires RunFrom(sim, step, i, iterations).sim.keyFound || !RunFrom(sim, step, i, iterations).sim.running
    ensures RunFrom(sim, step, i, more) == RunFrom(sim, step, i, iterations)
    decreases iterations - i
  {
    if i < iterations && sim.running && !sim.keyFound {
      match step(sim, i)
      case Raised(_) =>
      case Matched(_, _) =>
      case Missed(s, _) => RunStopsEarly(s, step, i + 1, iterations, more);
    }
  }

  /** Against a validator that matches no key, a run never sets the stop signal
      and leaves the history alone; when the solver never fails either, a
      running, well-formed controller uses its whole budget. */
  lemma {:induction false} RunUnmatched(sim: Simulation, env: Environment, step: Step, i: nat, iterations: nat)
    requires StepContract(step, env)
    requires forall k: nat :: !env.validate(k, sim.targetAddress).matched
    ensures !sim.keyFound ==> !RunFrom(sim, step, i, iterations).sim.keyFound
    ensures RunFrom(sim, step, i, iterations).sim.history == sim.history
    ensures (forall q :: env.solve(q).SolverOk?) && WellFormed(sim) && sim.running && !sim.keyFound && i <= iterations ==>
              RunFrom(sim, step, i, iterations).cycles == iterations - i
    decreases iterations - i
  {
    if i < iterations && sim.running && !sim.keyFound {
      assert StepSpec(sim, env, step(sim, i));
      match step(sim, i)
      case Raised(_) =>
      case Matched(_, _) =>
      case Missed(s, _) => RunUnmatched(s, env, step, i + 1, iterations);
    }
  }

  /** `run_simulation(iterations)`. */
  method RunSimulation(sim: Simulation, env: Environment, iterations: nat) returns (r: Simulation, cycles: nat)
    ensures Run(r, cycles) == RunFrom(sim, CycleOf(env), 0, iterations)
    ensures WellFormed(sim) ==> WellFormed(r)
    ensures cycles <= iterations
    ensures !sim.running || sim.keyFound ==> r == sim && cycles == 0
    ensures r.targetAddress == sim.targetAddress && r.scalarField == sim.scalarField && r.coupling == sim.coupling
    ensures r.keyFound == sim.keyFound ==> r.history == sim.history && r.predictedKey == sim.predictedKey
    ensures r.keyFound && !sim.keyFound ==>
              && |r.history| == |sim.history| + 1
              && r.history[..|sim.history|] == sim.history
              && r.predictedKey.Some?
              && env.validate(r.history[|sim.history|], sim.targetAddress) == Validation(true, r.predictedKey.value)
  {
    r := sim;
    cycles := 0;
    var i := 0;
    while i < iterations
      invariant 0 <= i <= iterations
      invariant RunFrom(sim, CycleOf(env), 0, iterations)
             == Run(RunFrom(r, CycleOf(env), i, iterations).sim, RunFrom(r, CycleOf(env), i, iterations).cycles + cycles)
      decreases iterations - i
    {
      if !r.running || r.keyFound {
        break;
      }
      var outcome := Cycle(r, env, i);
      assert CycleOf(env)(r, i) == outcome;
      cycles := cycles + 1;
      r := outcome.sim;
      if !outcome.Missed? {
        break;
      }
      i := i + 1;
    }
    CycleMeetsContract(env);
    RunHistory(sim, env, CycleOf(env), 0, iterations);
  }

  /** `start()`: a run with the configured iteration budget. */
  method Start(sim: Simulation, env: Environment) returns (r: Simulation, cycles: nat)
    ensures Run(r, cycles) == RunFrom(sim, CycleOf(env), 0, MaxIterations)
    ensures cycles <= MaxIterations
  {
    r, cycles := RunSimulation(sim, env, MaxIterations);
  }

  /** A controller shut down before a run performs no iteration at all, and
      shutting down twice is the same as once. */
  lemma ShutdownStopsRun(sim: Simulation, step: Step, iterations: nat)
    ensures RunFrom(Shutdown(sim), step, 0, iterations) == Run(Shutdown(sim), 0)
    ensures Shutdown(Shutdown(sim)) == Shutdown(sim)
  {
  }

  /** The repository's test: a controller built for the key (0x123456789, None)
      against an address no key derives, run for 10 iterations, ends without
      the key found and with an empty candidate history. */
  lemma TestUnmatchedRun(lib: FloatLib, phases: Phases, envelope: Envelope, env: Environment)
    requires forall k: nat :: !env.validate(k, "1TestAddress").matched
    ensures New("1TestAddress", PubkeyTuple([PyInt(0x123456789), PyOther]), lib, phases, envelope).Success?
    ensures var sim := New("1TestAddress", PubkeyTuple([PyInt(0x123456789), PyOther]), lib, phases, envelope).value;
      && !RunFrom(sim, CycleOf(env), 0, 10).sim.keyFound
      && RunFrom(sim, CycleOf(env), 0, 10).sim.history == []
  {
    var sim := New("1TestAddress", PubkeyTuple([PyInt(0x123456789), PyOther]), lib, phases, envelope).value;
    CycleMeetsContract(env);
    RunUnmatched(sim, env, CycleOf(env), 0, 10);
  }
}

# TVLE key-prediction core, modelled in Dafny

TVLE is a simulation that evolves a complex amplitude over a 6-dimensional
lattice of 5·5·5·5·3·3 = 5625 points and tries to read a secp256k1 private key
out of it. This project models the three parts of the program that decide what
is computed.

**The controller (`Unified6DTOE`)**
- Construction embeds the target public key as max(256, digit count)
  big-endian bits. The tiling over the lattice reads the first 256 of them
  into the scalar field, and the bits mask the normalised wormhole coupling
  vector.
- `run_simulation` repeats evolve → extract → validate under an iteration
  budget. It stops before an iteration when the controller is not running or
  the stop signal is set. It leaves after a match or after any exception.
- `shutdown` clears `running` and sets the stop signal.

**The quantum state (`QuantumState`)**
- A fresh state has random unit-modulus phases scaled by 1/√5625 = 1/75, an
  empty history and a zero entanglement vector.
- `evolve` takes the ODE solver's outcome:
  - a failure raises;
  - on success, the final sample is divided by its norm, or the state is
    re-drawn at random when the norm is not positive;
  - the new state then becomes the only history entry, and the entanglement
    vector becomes 0.2 times its conjugate.

**Key extraction (`KeyExtractor.extract`)**
1. Build one feature per point. The demon term is the w2-slice sums tiled with
   period 3. It is complex, so features are ordered like numpy's complex order:
   real part first, then imaginary part.
2. Rank the points by feature. The upper half by rank gets bit 1.
3. Pack the first 256 bits most significant first.
4. If the result is zero, use a random pattern with 128 ones instead.
5. Clamp into [1, n], where n is the secp256k1 group order.
6. Ask the validator. A match is appended to the candidate history.

Modules follow the program: `Bits` (bit strings and their integers, including
the int64 packing loop), `Numerics` (complex arithmetic and the injected float
library), `Config`, `KeyExtraction`, `QuantumStates` and `Simulation`.

**Collaborators become parameters**
- The ODE solve is a `QuantumState -> SolverResult` function.
- Float transcendental functions come in a `FloatLib`: `sqrt`, `cis`, and the
  per-point part of a feature.
- The validator `validate_key` is an oracle `(key, address) -> (matched, wif)`.
- Every random draw is a function of the iteration number: the phases of a
  re-drawn state, and the 128 fallback positions.
- `np.argsort` is a `Ranking`: any function that returns, for every feature
  vector, a permutation sorting it.

**The loop is split into two layers**
- `RunFrom` is the loop of `run_simulation` over any step function.
- `Cycle` is one iteration of the real controller, and `CycleOf` plugs it in.
- Properties of runs are proved from `StepContract`, which states what the loop
  needs from a step. `CycleMeetsContract` proves that the real iteration meets
  it.

## Model

| member | source | states |
|---|---|---|
| `Config.TotalPointsValue` | src/config.py:2 | the grid (5,5,5,5,3,3) has 5625 points, the last axis has 3 entries and divides the point count, 1/√5625 squared times 5625 is 1, and the lattice holds at least 256 points |
| `Bits.PackIsPositional` | src/key_extraction.py:39-41 | the shift-and-or loop over unbounded integers is the big-endian value: bit k weighs 2^(len-1-k) |
| `Bits.Pack` | src/key_extraction.py:39-41 | packing n bits gives a value below 2^n |
| `Bits.PackZeroIff` | src/key_extraction.py:43 | a packed value is zero exactly when every bit is zero, so the fallback fires only for an all-zero pattern |
| `Bits.WrapInt64` | src/key_extraction.py:41 | an np.int64 result lies in [-2^63, 2^63), is congruent to the exact value modulo 2^64, and is the exact value when that fits |
| `Bits.PackInt64` | src/key_extraction.py:39-41 | the int64 loop returns the exact packed value wrapped to int64: only the low 64 bits survive, read as signed |
| `Bits.PackInt64Short` | src/key_extraction.py:39-41 | for at most 63 bits the int64 loop and the exact loop agree |
| `Bits.PackInt64LosesLeadingOne` | src/key_extraction.py:39-43 | a one followed by 255 zeros stands for 2^255 but the int64 loop returns 0 |
| `Bits.Digits` | src/simulation.py:36 | `bin(x)[2:]` has at least one digit, starts with 1 for x > 0 and packs back to x |
| `Bits.DigitsWidth` | src/simulation.py:36 | `bin(x)[2:]` has at most w digits exactly when x < 2^w |
| `Bits.ZeroFill` | src/simulation.py:36 | `zfill(w)` reaches length max(w, len), keeps the digits as a suffix, pads only with zeros and keeps the value |
| `Bits.ZeroFillDigitsOfPack` | src/simulation.py:36-37 | reading a w-bit string as an integer and printing it back with `bin(..)[2:].zfill(w)` reproduces the string |
| `Bits.SetOnesAt` | src/key_extraction.py:38 | after `bits[idxs] = 1` a bit is one exactly when it was one before or its index was listed |
| `Bits.CountOnesSetOnes` | src/key_extraction.py:45 | scattering distinct indices onto clear bits raises the count of ones by the number of indices |
| `KeyExtraction.DemonObservation` | src/key_extraction.py:26-28 | three w2-slice sums that together hold the sum of all amplitudes, each point counted once |
| `KeyExtraction.Take` | src/key_extraction.py:30 | Python's `s[:n]` gives the first min(n, len) elements |
| `KeyExtraction.RepeatShape` | src/key_extraction.py:30 | `np.tile(obs, reps)` has reps·len entries and entry i is obs[i mod len] |
| `KeyExtraction.DemonFactor` | src/key_extraction.py:30 | the tiled observation has n − n mod 3 entries, so it covers the lattice only for a multiple of 3, and entry i is slice sum i mod 3 |
| `KeyExtraction.Features` | src/key_extraction.py:22-34 | one feature per point: its per-point float part plus 0.1 times the sum of the w2 slice its point lies in (period 3), whose imaginary part is the only complex part |
| `KeyExtraction.InsertSorted` | src/key_extraction.py:36 | inserting an index keeps a ranked list ranked |
| `KeyExtraction.ArgSort` | src/key_extraction.py:36 | insertion gives a valid ranking: every index once, by ascending feature in numpy's complex order (it witnesses that a `Ranking` exists) |
| `KeyExtraction.MedianSplit` | src/key_extraction.py:37-38 | the point ranked p gets bit 1 exactly when p ≥ n // 2, so exactly n − n // 2 points get bit 1 |
| `KeyExtraction.MedianSplitOrdered` | src/key_extraction.py:36-38 | for every valid argsort, unstable or not, each bit-1 point has a feature at least that of each bit-0 point |
| `KeyExtraction.PackedCandidate` | src/key_extraction.py:39-41 | the packed first 256 split bits lie below 2^256 |
| `KeyExtraction.PackedCandidateValue` | src/key_extraction.py:39-41 | the packed candidate is the big-endian value of the first 256 median-split bits |
| `KeyExtraction.FallbackBits` | src/key_extraction.py:44-45 | the fallback pattern has 256 bits, exactly 128 ones, and a one exactly at each drawn position |
| `KeyExtraction.FallbackNonZero` | src/key_extraction.py:43-48 | the fallback pattern packs to a non-zero value below 2^256 |
| `KeyExtraction.Clamp` | src/key_extraction.py:49 | the result lies in [1, n], equals the input inside the range, and is the nearer end outside it |
| `KeyExtraction.Candidate` | src/key_extraction.py:39-49 | the candidate key lies in [1, n] |
| `KeyExtraction.CandidateCases` | src/key_extraction.py:39-49 | a non-zero split within range is the key itself, one above n becomes n, the random draw matters only for an all-zero split, and then the fallback value is non-zero |
| `KeyExtraction.CandidateAsWritten` | src/key_extraction.py:39-49 | with numpy's int64 accumulator the key lies in [1, 2^63) |
| `KeyExtraction.CandidateAsWrittenAgrees` | src/key_extraction.py:39-49 | for a non-zero split, the int64 computation gives the intended key exactly when the split packs below 2^63 |
| `KeyExtraction.Extract` | src/key_extraction.py:36-53 | the key is the clamped candidate, success and WIF are the validator's answer for that key, and the history grows by the key exactly on success |
| `QuantumStates.FreshState` | src/quantum_state.py:13-14 | a fresh state spans the lattice, and entry i times √5625 is exp(i·θᵢ) of draw i |
| `QuantumStates.FreshStateUnitNorm` | src/quantum_state.py:13-14 | when exp(iθ) has modulus one at the drawn phases, the fresh state is a unit vector |
| `QuantumStates.Init` | src/quantum_state.py:8-16 | a fresh state spans the lattice with the random phases scaled by 1/75, the history is empty and the entanglement vector is all zero |
| `QuantumStates.Renormalise` | src/quantum_state.py:42-49 | with a positive norm, every stored amplitude times the norm gives back the solver's sample; otherwise the state is re-drawn |
| `QuantumStates.PushHistory` | src/quantum_state.py:50-53 | whatever the history held, appending and trimming leaves exactly the new state |
| `QuantumStates.EntanglementOf` | src/quantum_state.py:54 | the entanglement vector determines the state: dividing an entry by 0.2 and conjugating gives its amplitude back |
| `QuantumStates.Evolve` | src/quantum_state.py:18-54 | evolve fails exactly when the solver fails; otherwise the state is the normalised or re-drawn sample, the history is that state alone, and the entanglement vector is 0.2 times its conjugate |
| `QuantumStates.HistoryDepthOne` | src/quantum_state.py:50-53 | over any number of steps the history never holds more than one state, and after a step it holds the current one |
| `Simulation.PubkeyBits` | src/simulation.py:36-37 | the embedding has max(256, digit count) bits and packs back to the key |
| `Simulation.PubkeyBitsWidth` | src/simulation.py:36 | the embedding is exactly 256 bits wide precisely for keys below 2^256, and never narrower |
| `Simulation.PubkeyBitsRoundTrip` | src/simulation.py:36-37 | every 256-bit pattern is the embedding of the integer it packs to |
| `Simulation.EmbedPubkey` | src/simulation.py:33-37 | construction fails exactly for a falsy key tuple, a first element that is not an int or bool, or a negative int; otherwise the bits pack back to the key and number max(256, digit count), exactly 256 for a bool (counted as 0 or 1) |
| `Simulation.ScalarField` | src/simulation.py:39-42 | the scalar field spans the lattice, starts with the first 256 embedding bits and repeats with period 256, which fixes every entry |
| `Simulation.ScalarFieldCarriesKey` | src/simulation.py:36-42 | the first 256 field entries read back as the key's top 256 digits, and as the key itself when the embedding is 256 bits wide |
| `Simulation.NormaliseReal` | src/simulation.py:64-66 | with a positive norm every entry times the norm gives back the input, zeros stay zero, and otherwise the vector is unchanged |
| `Simulation.CouplingVector` | src/simulation.py:56-66 | the coupling vector spans the lattice and is zero wherever the tiled key bit is zero |
| `Simulation.New` | src/simulation.py:12-42 | construction fails exactly when the embedding fails; otherwise the controller is running, has no stop signal, no history, no predicted key and a fresh quantum state, its scalar field is the tiling of the embedding, and its coupling vector is masked by that embedding |
| `Simulation.NewCarriesKey` | src/simulation.py:12-42 | for an int key below 2^256, construction succeeds and the first 256 scalar-field entries read back as the key |
| `Simulation.Shutdown` | src/simulation.py:115-119 | shutdown clears running and sets the stop signal and changes nothing else |
| `Simulation.Cycle` | src/simulation.py:88-111 | an iteration raises exactly when the solver fails (then only `running` drops); otherwise the controller stores the evolved quantum state and the key is the clamped candidate read from the evolved state's features, so it lies in the search range; a match appends the key, stores its WIF and sets the stop signal, and a miss changes neither history, stop signal nor predicted key; the scalar field and coupling vector never change |
| `Simulation.CycleMeetsContract` | src/simulation.py:88-111 | every iteration of the controller meets the contract the loop relies on |
| `Simulation.RunFrom` | src/simulation.py:84-111 | a run performs at most one iteration per remaining budget unit and returns a stopped controller untouched |
| `Simulation.RunHistory` | src/simulation.py:95-105 | a run without a match leaves history and predicted key alone; a run that found the key appended exactly one validated key and stored its WIF; the lattice shape, target address, scalar field and coupling vector survive |
| `Simulation.RunStopsEarly` | src/simulation.py:84-111 | a run that ended on a match or an exception ends the same way under any larger budget |
| `Simulation.RunUnmatched` | src/simulation.py:84-111 | against a validator that matches nothing, a run never sets the stop signal and leaves the history alone; with a solver that never fails it uses its whole budget |
| `Simulation.RunSimulation` | src/simulation.py:75-113 | the loop computes the run the recursive definition describes, within budget, doing nothing when stopped, keeping the target and the embedded key fields, with the history changing only through one validated match |
| `Simulation.Start` | src/simulation.py:69-73 | start runs the loop with the configured 10000-iteration budget |
| `Simulation.ShutdownStopsRun` | src/simulation.py:85-87 | a shut-down controller performs no iteration, and shutting down twice is shutting down once |
| `Simulation.TestUnmatchedRun` | tests/test_simulation.py:19-26 | the key (0x123456789, None) embeds, and a 10-iteration run against an address no key derives ends without the stop signal and with an empty history |

## Findings

| source | as written | input that shows it | evidently intended | confidence | as-written member | corrected member |
|---|---|---|---|---|---|---|
| src/key_extraction.py:39-48 | `key_int` starts as a Python 0 but becomes an `np.int64` once the first array element is or-ed in. From then on each left shift wraps at 64 bits, so the zero test and the clamp see only the low 64 bits of the 256-bit pattern, read as signed. The fallback loop at lines 46-48 wraps in the same way. | `key_bits[:256]` = a one followed by 255 zeros packs to 0, so the random fallback replaces a split worth 2^255. A one at position 192 with zeros elsewhere packs to −2^63, which is clamped to 1. No candidate ever reaches 2^63. A further consequence, stated but not modelled because the validator is an oracle here: the clamp returns an `np.int64` unless it returns the Python 1, and `key.to_bytes` (src/utils.py:26) does not exist on `np.int64`, so a candidate that does derive the target address raises inside `validate_key`'s `try` and is reported as no match. As written, only key 1 can be reported as found. | the exact 256-bit big-endian integer, then clamped into [1, n] | not executed; high (numpy scalar promotion and unchecked shifts) | `KeyExtraction.CandidateAsWritten`, with counterexample `Bits.PackInt64LosesLeadingOne` | `KeyExtraction.Candidate`, packed by `Bits.Pack` (proved positional by `Bits.PackIsPositional`) |

`Extract`, and through it the controller, uses the corrected candidate.

## Left out

- The Hamiltonian and `solve_ivp` (src/hamiltonian.py is not part of this model). The solver's outcome is a parameter: failure, or the sample at t = dt.
- The potential vector `V` (src/simulation.py:43-54). It is float physics that only the Hamiltonian reads.
- The Gaussian envelope and z–w1 weight of the wormhole state (src/simulation.py:56-60). They are supplied as an `Envelope`; the key mask and the normalisation are modelled.
- Float arithmetic. Amplitudes and features are exact reals and complex pairs. `abs`, `angle`, `sin`, `exp` and `sqrt` come from the injected `FloatLib`. Rounding, NaN and infinities are not modelled; a NaN norm fails `norm > 0` in the source and would re-draw the state.
- `get_magnitude`, `get_phase` and the J-4 wave term (src/key_extraction.py:23-24, 32-34) are the injected per-point feature. `reshape_to_6d` plus the axis sum is modelled as the exact per-residue-class sum.
- Randomness: `np.random.uniform` phases and `np.random.choice(256, 128, replace=False)` are functions of the iteration number supplied by the caller. A draw is any 128 distinct positions below 256.
- `validate_key` (src/utils.py:6-30) is an opaque oracle of the key and the address. Key derivation, hashing and Base58 are not modelled.
- Logging, `tqdm`, the every-10-iterations log line and the closing log message (src/simulation.py:82, 86, 104, 106-107, 109, 112-113) have no effect on state.
- `threading.Event` is a boolean. A `shutdown` from another thread while a run is in progress is not modelled; `Shutdown` applies between runs.
- src/simulation.py uses `np`, `threading` and the physical constants without importing them, and src/config.py does the same with `np` and `ecdsa`. The model takes these names as resolving.
- `KeyExtraction.Features`: `extract` receives `total_points` separately from the state. The controller always passes the lattice size, which is also the state's length, so the model requires the state to span the lattice.
- `Simulation.Cycle`: the only exception modelled inside the `try` is a failed solve. Numeric errors the float library could raise are not modelled. The ranking is the environment's `Ranking`: any permutation that sorts the features, because numpy's default sort is not stable. Which permutation numpy picks among equal features is not modelled. `KeyExtraction.ArgSort` is one valid choice, putting the later index first among equal features. When features tie across the median, the choice changes the key.
- `Simulation.Cycle`: controllers that are not `WellFormed` raise in the model. No run reaches them, and for some of them (a mis-sized entanglement vector, a longer history) the source would not raise.
- `Simulation.EmbedPubkey`: a key wider than 256 bits is not rejected. All of its digits are kept, and the tiling reads its top 256 (`ScalarFieldCarriesKey`). The model does what the code does.
- `QuantumStates.EvolveAll` is a helper that chains steps for `HistoryDepthOne`. It has no counterpart in the source beyond repeated `evolve` calls.

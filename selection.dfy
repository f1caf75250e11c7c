/** Parent selection: tournament and roulette, each allowing or refusing
    duplicate picks (selection.rs). */
module Selection {
  import opened Common
  import opened Candidates
  import Random

  datatype DuplicateHandlingStrategy = Allow | Disallow(retries: nat)

  datatype SelectionOptions = SelectionOptions(selectionSize: nat, duplicates: DuplicateHandlingStrategy)

  datatype SelectionVariant = Roulette | Tournament(tournamentSize: nat)

  datatype SelectionStrategy = SelectionStrategy(options: SelectionOptions, variant: SelectionVariant)

  datatype SelectionError = EmptyCandidates | RngFail

  /** A candidate together with its fitness. */
  datatype CandidateFitness = CandidateFitness(candidate: Candidate, fitness: nat)

  /** The derived equality of `CandidateFitness`: equal candidates (same
      rules) with the same fitness. */
  predicate SameEntry(a: CandidateFitness, b: CandidateFitness) {
    Equal(a.candidate, b.candidate) && a.fitness == b.fitness
  }

  /** `results.contains(x)`. */
  predicate ContainsEntry(results: seq<CandidateFitness>, x: CandidateFitness) {
    exists i :: 0 <= i < |results| && SameEntry(results[i], x)
  }

  predicate NoDuplicateEntries(results: seq<CandidateFitness>) {
    forall i, j :: 0 <= i < j < |results| ==> !SameEntry(results[i], results[j])
  }

  /** A selected entry always equals itself, so picking it again is a
      duplicate. */
  lemma SameEntryReflexive(x: CandidateFitness)
    ensures SameEntry(x, x)
  {
  }

  /** How many consecutive duplicate draws end a `Disallow` draw loop: the
      count is compared only after it is incremented, so at least one. */
  function Budget(retries: nat): nat {
    if retries == 0 then 1 else retries
  }

  // ---------------------------------------------------------------------
  // Tournament

  /** `w` wins a round whose draws are `draws`: no draw is fitter, and `w` is
      the earliest draw of that fitness, because a later draw replaces the
      best only when strictly fitter. */
  predicate IsRoundWinner(candidates: seq<CandidateFitness>, draws: seq<nat>, w: CandidateFitness) {
    && |draws| > 0
    && (forall k :: 0 <= k < |draws| ==> draws[k] < |candidates|)
    && (forall k :: 0 <= k < |draws| ==> candidates[draws[k]].fitness <= w.fitness)
    && (exists k :: 0 <= k < |draws| && candidates[draws[k]] == w &&
          forall l :: 0 <= l < k ==> candidates[draws[l]].fitness < w.fitness)
  }

  /** The draw loop of `TournamentSelection::select` read off the tape from
      `pos`, after `fails` consecutive duplicates: the index drawn, or
      `RngFail`, and the next tape position. */
  function Draw(candidates: seq<CandidateFitness>, results: seq<CandidateFitness>,
                duplicates: DuplicateHandlingStrategy, rng: Random.Tape, pos: nat, fails: nat)
    : (r: (Result<nat, SelectionError>, nat))
    requires |candidates| > 0
    requires duplicates.Disallow? ==> fails < Budget(duplicates.retries)
    ensures r.1 > pos
    ensures r.0.Ok? ==> r.0.value < |candidates|
    decreases if duplicates.Disallow? then Budget(duplicates.retries) - fails else 0
  {
    var index := Random.GenRange(rng, pos, 0, |candidates|);
    match duplicates
    case Allow => (Ok(index), pos + 1)
    case Disallow(retries) =>
      if ContainsEntry(results, candidates[index]) then
        if fails + 1 >= retries then (Err(RngFail), pos + 1)
        else Draw(candidates, results, duplicates, rng, pos + 1, fails + 1)
      else (Ok(index), pos + 1)
  }

  /** What a draw read off the tape yields: the index is the last draw;
      under `Allow` it is the first; under `Disallow` every earlier draw hit
      a selected entry and the index does not, at most the remaining budget
      of draws is used, and the draw fails exactly when every draw of that
      budget hits a selected entry. */
  lemma {:induction false} DrawFacts(candidates: seq<CandidateFitness>, results: seq<CandidateFitness>,
                                     duplicates: DuplicateHandlingStrategy, rng: Random.Tape, pos: nat, fails: nat)
    requires |candidates| > 0
    requires duplicates.Disallow? ==> fails < Budget(duplicates.retries)
    ensures var r := Draw(candidates, results, duplicates, rng, pos, fails);
            && (r.0.Ok? ==> r.0.value == Random.GenRange(rng, r.1 - 1, 0, |candidates|))
            && (r.0.Ok? && duplicates.Disallow? ==> !ContainsEntry(results, candidates[r.0.value]))
            && (duplicates.Allow? ==> r.0.Ok? && r.1 == pos + 1)
            && (r.0.Err? ==> r.0.error == RngFail && duplicates.Disallow?)
            && (duplicates.Disallow? ==> r.1 <= pos + Budget(duplicates.retries) - fails)
            && (r.0.Err? ==> r.1 == pos + Budget(duplicates.retries) - fails)
            && (duplicates.Disallow? ==>
                  forall i :: pos <= i < r.1 - 1 ==> ContainsEntry(results, candidates[Random.GenRange(rng, i, 0, |candidates|)]))
            && (duplicates.Disallow? ==>
                  (r.0.Err? <==>
                     forall i :: pos <= i < pos + Budget(duplicates.retries) - fails ==>
                       ContainsEntry(results, candidates[Random.GenRange(rng, i, 0, |candidates|)])))
    decreases if duplicates.Disallow? then Budget(duplicates.retries) - fails else 0
  {
    var index := Random.GenRange(rng, pos, 0, |candidates|);
    if duplicates.Disallow? && ContainsEntry(results, candidates[index]) && fails + 1 < duplicates.retries {
      DrawFacts(candidates, results, duplicates, rng, pos + 1, fails + 1);
    }
  }

  /** With no results yet a `Disallow` draw never fails. */
  lemma DrawFirstSucceeds(candidates: seq<CandidateFitness>, duplicates: DuplicateHandlingStrategy,
                          rng: Random.Tape, pos: nat)
    requires |candidates| > 0
    ensures Draw(candidates, [], duplicates, rng, pos, 0).0.Ok?
  {
    DrawFacts(candidates, [], duplicates, rng, pos, 0);
    if duplicates.Disallow? {
      assert !ContainsEntry([], candidates[Random.GenRange(rng, pos, 0, |candidates|)]);
    }
  }

  /** One tournament draw: an index into `candidates`. Under `Disallow` a
      candidate already among the results is redrawn, and the draw fails
      with `RngFail` once the consecutive duplicates reach the budget. */
  method DrawIndex(candidates: seq<CandidateFitness>, results: seq<CandidateFitness>,
                   duplicates: DuplicateHandlingStrategy, rng: Random.Tape, pos: nat)
    returns (res: Result<nat, SelectionError>, next: nat)
    requires |candidates| > 0
    ensures (res, next) == Draw(candidates, results, duplicates, rng, pos, 0)
    ensures res.Ok? ==> res.value < |candidates|
    ensures res.Ok? && duplicates.Disallow? ==> !ContainsEntry(results, candidates[res.value])
    ensures res.Err? ==> res.error == RngFail && duplicates.Disallow?
  {
    DrawFacts(candidates, results, duplicates, rng, pos, 0);
    var fails := 0;
    next := pos;
    while true
      invariant next >= pos
      invariant duplicates.Disallow? ==> fails < Budget(duplicates.retries)
      invariant duplicates.Allow? ==> fails == 0 && next == pos
      invariant Draw(candidates, results, duplicates, rng, pos, 0) == Draw(candidates, results, duplicates, rng, next, fails)
      decreases if duplicates.Disallow? then Budget(duplicates.retries) - fails else 0
    {
      var index := Random.GenRange(rng, next, 0, |candidates|);
      next := next + 1;
      match duplicates
      case Allow =>
        return Ok(index), next;
      case Disallow(retries) =>
        if ContainsEntry(results, candidates[index]) {
          fails := fails + 1;
          if fails >= retries {
            return Err(RngFail), next;
          }
        } else {
          return Ok(index), next;
        }
    }
  }

  /** One tournament round read off the tape from `pos`, at draw `i` with the
      best draw so far `best` and the indices drawn so far `draws`: the
      round's winner (`None` for a round of no draws), the next tape position
      and all the round's draws. A later draw replaces the best only when
      strictly fitter. */
  function RoundFrom(tournamentSize: nat, candidates: seq<CandidateFitness>, results: seq<CandidateFitness>,
                     duplicates: DuplicateHandlingStrategy, rng: Random.Tape, pos: nat, i: nat,
                     best: Option<CandidateFitness>, draws: seq<nat>)
    : (r: (Result<Option<CandidateFitness>, SelectionError>, nat, seq<nat>))
    requires |candidates| > 0 || i >= tournamentSize
    decreases tournamentSize - i
  {
    if i >= tournamentSize then (Ok(best), pos, draws)
    else
      var d := Draw(candidates, results, duplicates, rng, pos, 0);
      if d.0.Err? then (Err(d.0.error), d.1, draws)
      else
        RoundFrom(tournamentSize, candidates, results, duplicates, rng, d.1, i + 1,
                  KeepFitter(best, candidates[d.0.value]), draws + [d.0.value])
  }

  /** The best draw after drawing `drawn`: it replaces the best so far only
      when strictly fitter. */
  function KeepFitter(best: Option<CandidateFitness>, drawn: CandidateFitness): (r: Option<CandidateFitness>)
    ensures r.Some?
    ensures best.Some? ==> r.value.fitness >= best.value.fitness && r.value.fitness >= drawn.fitness
    ensures r == best || r == Some(drawn)
    ensures r == Some(drawn) && best.Some? && best.value != drawn ==> drawn.fitness > best.value.fitness
  {
    match best
    case Some(prevBest) => if drawn.fitness > prevBest.fitness then Some(drawn) else best
    case None => Some(drawn)
  }

  /** One draw of a round, unfolded. */
  lemma RoundStep(tournamentSize: nat, candidates: seq<CandidateFitness>, results: seq<CandidateFitness>,
                  duplicates: DuplicateHandlingStrategy, rng: Random.Tape, pos: nat, i: nat,
                  best: Option<CandidateFitness>, draws: seq<nat>, drawn: Result<nat, SelectionError>, next: nat)
    requires i < tournamentSize && |candidates| > 0
    requires (drawn, next) == Draw(candidates, results, duplicates, rng, pos, 0)
    ensures drawn.Err? ==>
              RoundFrom(tournamentSize, candidates, results, duplicates, rng, pos, i, best, draws)
              == (Err(drawn.error), next, draws)
    ensures drawn.Ok? ==>
              RoundFrom(tournamentSize, candidates, results, duplicates, rng, pos, i, best, draws)
              == RoundFrom(tournamentSize, candidates, results, duplicates, rng, next, i + 1,
                           KeepFitter(best, candidates[drawn.value]), draws + [drawn.value])
  {
  }

  /** The rounds of `TournamentSelection::select` read off the tape from
      `pos`, with the winners `results` and the draws `rounds` of the rounds
      already played: the selection or its error, the next tape position and
      the draws of every completed round. */
  function TournamentFrom(tournamentSize: nat, candidates: seq<CandidateFitness>, options: SelectionOptions,
                          rng: Random.Tape, pos: nat, results: seq<CandidateFitness>, rounds: seq<seq<nat>>)
    : (r: (Result<seq<CandidateFitness>, SelectionError>, nat, seq<seq<nat>>))
    requires |candidates| > 0 || options.selectionSize == 0 || tournamentSize == 0
    decreases options.selectionSize - |results|
  {
    if |results| >= options.selectionSize then (Ok(results), pos, rounds)
    else
      var w := RoundFrom(tournamentSize, candidates, results, options.duplicates, rng, pos, 0, None, []);
      if w.0.Err? then (Err(w.0.error), w.1, rounds)
      else if w.0.value.None? then (Err(EmptyCandidates), w.1, rounds)
      else TournamentFrom(tournamentSize, candidates, options, rng, w.1, results + [w.0.value.value], rounds + [w.2])
  }

  /** `best` is what a round keeps after the draws `draws`: nothing before
      the first draw, afterwards the round's winner so far. */
  predicate Leads(candidates: seq<CandidateFitness>, draws: seq<nat>, best: Option<CandidateFitness>) {
    && (best.None? <==> |draws| == 0)
    && (best.Some? ==> IsRoundWinner(candidates, draws, best.value))
  }

  /** Keeping the fitter of the best so far and a new draw keeps the lead. */
  lemma LeadsStep(candidates: seq<CandidateFitness>, draws: seq<nat>, best: Option<CandidateFitness>, index: nat)
    requires index < |candidates| && Leads(candidates, draws, best)
    ensures Leads(candidates, draws + [index], KeepFitter(best, candidates[index]))
  {
    var d := draws + [index];
    var w := KeepFitter(best, candidates[index]);
    if best.None? {
      assert candidates[d[0]] == w.value;
    } else if candidates[index].fitness > best.value.fitness {
      assert candidates[d[|draws|]] == w.value;
      assert forall l :: 0 <= l < |draws| ==> candidates[d[l]].fitness < w.value.fitness;
    } else {
      var k :| 0 <= k < |draws| && candidates[draws[k]] == best.value &&
               forall l :: 0 <= l < k ==> candidates[draws[l]].fitness < best.value.fitness;
      assert candidates[d[k]] == w.value;
    }
  }

  /** What a round read off the tape yields: its draws number
      `tournamentSize`, the winner is the fittest and earliest of them, and
      under `Disallow` no draw is already among the results. */
  lemma {:induction false} RoundFromLeads(tournamentSize: nat, candidates: seq<CandidateFitness>,
                                          results: seq<CandidateFitness>, duplicates: DuplicateHandlingStrategy,
                                          rng: Random.Tape, pos: nat, i: nat,
                                          best: Option<CandidateFitness>, draws: seq<nat>)
    requires |candidates| > 0 || i >= tournamentSize
    requires |draws| == i <= tournamentSize
    requires Leads(candidates, draws, best)
    requires duplicates.Disallow? ==> forall k :: 0 <= k < |draws| ==> !ContainsEntry(results, candidates[draws[k]])
    ensures var r := RoundFrom(tournamentSize, candidates, results, duplicates, rng, pos, i, best, draws);
            && (r.0.Ok? ==> |r.2| == tournamentSize && Leads(candidates, r.2, r.0.value))
            && (r.0.Ok? && duplicates.Disallow? ==>
                  forall k :: 0 <= k < |r.2| ==> !ContainsEntry(results, candidates[r.2[k]]))
            && (r.0.Err? ==> r.0.error == RngFail && duplicates.Disallow?)
    decreases tournamentSize - i
  {
    if i < tournamentSize {
      DrawFacts(candidates, results, duplicates, rng, pos, 0);
      var d := Draw(candidates, results, duplicates, rng, pos, 0);
      if d.0.Ok? {
        LeadsStep(candidates, draws, best, d.0.value);
        RoundFromLeads(tournamentSize, candidates, results, duplicates, rng, d.1, i + 1,
                       KeepFitter(best, candidates[d.0.value]), draws + [d.0.value]);
      }
    }
  }

  /** One round of `TournamentSelection::select`: `tournamentSize` draws,
      keeping the fittest; the earliest of equally fit draws wins. */
  method PlayRound(tournamentSize: nat, candidates: seq<CandidateFitness>, results: seq<CandidateFitness>,
                   duplicates: DuplicateHandlingStrategy, rng: Random.Tape, pos: nat)
    returns (res: Result<Option<CandidateFitness>, SelectionError>, next: nat, ghost draws: seq<nat>)
    requires |candidates| > 0 || tournamentSize == 0
    ensures (res, next, draws) == RoundFrom(tournamentSize, candidates, results, duplicates, rng, pos, 0, None, [])
    ensures res.Ok? ==> |draws| == tournamentSize && (res.value.None? <==> tournamentSize == 0)
    ensures res.Ok? && res.value.Some? ==> IsRoundWinner(candidates, draws, res.value.value)
    ensures res.Ok? && res.value.Some? && duplicates.Disallow? ==> !ContainsEntry(results, res.value.value)
    ensures res.Err? ==> res.error == RngFail && duplicates.Disallow?
  {
    RoundFromLeads(tournamentSize, candidates, results, duplicates, rng, pos, 0, None, []);
    var best: Option<CandidateFitness> := None;
    draws := [];
    next := pos;
    var i := 0;
    while i < tournamentSize
      invariant 0 <= i <= tournamentSize
      invariant RoundFrom(tournamentSize, candidates, results, duplicates, rng, pos, 0, None, [])
                == RoundFrom(tournamentSize, candidates, results, duplicates, rng, next, i, best, draws)
    {
      var drawn: Result<nat, SelectionError>;
      ghost var at := next;
      drawn, next := DrawIndex(candidates, results, duplicates, rng, next);
      RoundStep(tournamentSize, candidates, results, duplicates, rng, at, i, best, draws, drawn, next);
      if drawn.Err? {
        return Err(drawn.error), next, draws;
      }
      var index := drawn.value;
      draws := draws + [index];
      best := KeepFitter(best, candidates[index]);
      i := i + 1;
    }
    res := Ok(best);
    if res.value.Some? && duplicates.Disallow? {
      ghost var k :| 0 <= k < |draws| && candidates[draws[k]] == res.value.value &&
               forall l :: 0 <= l < k ==> candidates[draws[l]].fitness < res.value.value.fitness;
    }
  }

  /** `TournamentSelection::select`: each round draws `tournamentSize`
      candidates and keeps the fittest; the rounds go on until
      `selectionSize` winners are chosen. */
  method TournamentSelect(tournamentSize: nat, candidates: seq<CandidateFitness>, options: SelectionOptions,
                          rng: Random.Tape, pos: nat)
    returns (res: Result<seq<CandidateFitness>, SelectionError>, next: nat, ghost rounds: seq<seq<nat>>)
    requires |candidates| > 0 || options.selectionSize == 0 || tournamentSize == 0
    ensures (res, next, rounds) == TournamentFrom(tournamentSize, candidates, options, rng, pos, [], [])
    ensures res.Ok? ==> |res.value| == options.selectionSize
    ensures res.Ok? ==> forall x :: x in res.value ==> x in candidates
    ensures res.Ok? ==>
              && |rounds| == options.selectionSize
              && forall r :: 0 <= r < |rounds| ==>
                   |rounds[r]| == tournamentSize && IsRoundWinner(candidates, rounds[r], res.value[r])
    ensures res.Ok? && options.duplicates.Disallow? ==> NoDuplicateEntries(res.value)
    ensures res == Err(EmptyCandidates) <==> tournamentSize == 0 && options.selectionSize > 0
    ensures res == Err(RngFail) ==> options.duplicates.Disallow?
    ensures options.selectionSize == 0 ==> res == Ok([])
  {
    var results: seq<CandidateFitness> := [];
    rounds := [];
    next := pos;
    while |results| < options.selectionSize
      invariant |results| <= options.selectionSize
      invariant |rounds| == |results|
      invariant forall x :: x in results ==> x in candidates
      invariant forall r :: 0 <= r < |rounds| ==>
                  |rounds[r]| == tournamentSize && IsRoundWinner(candidates, rounds[r], results[r])
      invariant options.duplicates.Disallow? ==> NoDuplicateEntries(results)
      invariant TournamentFrom(tournamentSize, candidates, options, rng, pos, [], [])
                == TournamentFrom(tournamentSize, candidates, options, rng, next, results, rounds)
    {
      var round: Result<Option<CandidateFitness>, SelectionError>;
      ghost var draws: seq<nat>;
      round, next, draws := PlayRound(tournamentSize, candidates, results, options.duplicates, rng, next);
      if round.Err? {
        return Err(round.error), next, rounds;
      }
      if round.value.None? {
        return Err(EmptyCandidates), next, rounds;
      }
      var best := round.value.value;
      assert best in candidates by {
        var k :| 0 <= k < |draws| && candidates[draws[k]] == best;
      }
      results := results + [best];
      rounds := rounds + [draws];
    }
    if options.selectionSize > 0 {
      assert IsRoundWinner(candidates, rounds[0], results[0]);
    }
    res := Ok(results);
  }

  // ---------------------------------------------------------------------
  // Roulette

  function TotalFitness(cs: seq<CandidateFitness>): nat {
    if cs == [] then 0 else cs[0].fitness + TotalFitness(cs[1..])
  }

  /** The candidate the wheel stops at for the draw `r < total`: the first
      one whose running fitness sum exceeds `r`. */
  function PickIndex(cs: seq<CandidateFitness>, r: nat): (i: nat)
    requires r < TotalFitness(cs)
    ensures i < |cs|
    ensures TotalFitness(cs[..i]) <= r < TotalFitness(cs[..i + 1])
  {
    assert cs[..1] == [cs[0]] && cs[..1][1..] == [];
    if r < cs[0].fitness then 0
    else
      var i := PickIndex(cs[1..], r - cs[0].fitness);
      assert cs[..i + 1][1..] == cs[1..][..i];
      assert cs[..i + 2][1..] == cs[1..][..i + 1];
      i + 1
  }

  /** The running sum passes `r` at one position only. */
  lemma {:induction false} PickIndexUnique(cs: seq<CandidateFitness>, r: nat, j: nat)
    requires j < |cs|
    requires TotalFitness(cs[..j]) <= r < TotalFitness(cs[..j + 1])
    ensures r < TotalFitness(cs)
    ensures PickIndex(cs, r) == j
  {
    assert cs[..j + 1][1..] == cs[1..][..j];
    if j == 0 {
      assert cs[..1][1..] == [];
      assert cs == [cs[0]] + cs[1..];
    } else {
      assert cs[..j][1..] == cs[1..][..j - 1];
      PickIndexUnique(cs[1..], r - cs[0].fitness, j - 1);
    }
  }

  /** `TotalFitness(cs[..j + 1])` adds one more candidate to the sum. */
  lemma {:induction false} PrefixSumStep(cs: seq<CandidateFitness>, j: nat)
    requires j < |cs|
    ensures TotalFitness(cs[..j + 1]) == TotalFitness(cs[..j]) + cs[j].fitness
  {
    if j > 0 {
      assert cs[..j + 1][1..] == cs[1..][..j];
      assert cs[..j][1..] == cs[1..][..j - 1];
      PrefixSumStep(cs[1..], j - 1);
    } else {
      assert cs[..1][1..] == [];
    }
  }

  lemma PrefixSumWhole(cs: seq<CandidateFitness>)
    ensures TotalFitness(cs[..|cs|]) == TotalFitness(cs)
  {
    assert cs[..|cs|] == cs;
  }

  /** `RouletteSelection::select`: draws one value below the total fitness
      and spins the wheel once per pick. The running sum is never reset and
      the value never redrawn, so the first pick is the candidate at the
      draw and every later pick is `candidates[0]`. Under `Disallow` a
      duplicate pick counts a failure and reaching the budget fails the
      selection; a kept pick resets the count. */
  method RouletteSelect(candidates: seq<CandidateFitness>, options: SelectionOptions, rng: Random.Tape, pos: nat)
    returns (res: Result<seq<CandidateFitness>, SelectionError>, next: nat, draw: nat)
    requires TotalFitness(candidates) > 0
    ensures draw == Random.GenRange(rng, pos, 0, TotalFitness(candidates)) && next == pos + 1
    ensures draw < TotalFitness(candidates)
    ensures res.Ok? ==> |res.value| == options.selectionSize
    ensures res.Ok? && options.selectionSize > 0 ==> res.value[0] == candidates[PickIndex(candidates, draw)]
    ensures res.Ok? ==> forall i :: 1 <= i < |res.value| ==> res.value[i] == candidates[0]
    ensures options.duplicates.Allow? || options.selectionSize <= 1 ==> res.Ok?
    ensures res.Err? ==> res.error == RngFail && options.duplicates.Disallow?
    ensures options.duplicates.Disallow? && options.selectionSize >= 3 ==> res.Err?
    ensures options.duplicates.Disallow? && options.selectionSize == 2 ==>
              (res.Ok? <==> !SameEntry(candidates[PickIndex(candidates, draw)], candidates[0]))
  {
    var results: seq<CandidateFitness> := [];
    var total := TotalFitness(candidates);
    var cumulativeTotal := 0;
    draw := Random.GenRange(rng, pos, 0, total);
    next := pos + 1;
    var failures := 0;
    ghost var pick := candidates[PickIndex(candidates, draw)];
    while |results| < options.selectionSize
      invariant |results| <= options.selectionSize
      invariant (results == [] && cumulativeTotal == 0) || (|results| >= 1 && cumulativeTotal > draw)
      invariant |results| >= 1 ==> results[0] == pick
      invariant forall i :: 1 <= i < |results| ==> results[i] == candidates[0]
      invariant options.duplicates.Disallow? ==> NoDuplicateEntries(results) && |results| <= 2
      invariant options.duplicates.Disallow? ==> failures < Budget(options.duplicates.retries)
      invariant options.duplicates.Allow? ==> failures == 0
      invariant next == pos + 1
      decreases options.selectionSize - |results|,
                if options.duplicates.Disallow? then Budget(options.duplicates.retries) - failures else 0
    {
      ghost var firstPass := results == [];
      var selected: Option<CandidateFitness> := None;
      var j := 0;
      while j < |candidates|
        invariant 0 <= j <= |candidates|
        invariant selected.None?
        invariant firstPass ==> cumulativeTotal == TotalFitness(candidates[..j]) <= draw
        invariant !firstPass ==> j == 0 && cumulativeTotal > draw
      {
        PrefixSumStep(candidates, j);
        cumulativeTotal := cumulativeTotal + candidates[j].fitness;
        if draw < cumulativeTotal {
          selected := Some(candidates[j]);
          if firstPass {
            PickIndexUnique(candidates, draw, j);
          }
          break;
        }
        j := j + 1;
      }
      PrefixSumWhole(candidates);
      var chosen := selected.value;
      assert chosen == if firstPass then pick else candidates[0];
      SameEntryReflexive(candidates[0]);
      if |results| == 2 {
        assert SameEntry(results[1], chosen);
      }
      if options.duplicates.Disallow? && ContainsEntry(results, chosen) {
        failures := failures + 1;
        if failures >= options.duplicates.retries {
          assert (|results| == 1 && SameEntry(pick, candidates[0])) || |results| >= 2;
          return Err(RngFail), next, draw;
        }
      } else {
        failures := 0;
        results := results + [chosen];
      }
    }
    if options.duplicates.Disallow? && |results| == 2 {
      assert !SameEntry(results[0], results[1]);
    }
    res := Ok(results);
  }

  /** `SelectionStrategy::select`: dispatches on the variant. */
  method Select(strategy: SelectionStrategy, candidates: seq<CandidateFitness>, rng: Random.Tape, pos: nat)
    returns (res: Result<seq<CandidateFitness>, SelectionError>, next: nat)
    requires strategy.variant.Roulette? ==> TotalFitness(candidates) > 0
    requires strategy.variant.Tournament? ==>
               |candidates| > 0 || strategy.options.selectionSize == 0 || strategy.variant.tournamentSize == 0
    ensures res.Ok? ==> |res.value| == strategy.options.selectionSize
    ensures res.Ok? ==> forall x :: x in res.value ==> x in candidates
    ensures res.Ok? && strategy.options.duplicates.Disallow? ==> NoDuplicateEntries(res.value)
    ensures strategy.variant.Tournament? ==>
              var t := TournamentFrom(strategy.variant.tournamentSize, candidates, strategy.options, rng, pos, [], []);
              res == t.0 && next == t.1
    ensures strategy.variant.Roulette? ==>
              var draw := Random.GenRange(rng, pos, 0, TotalFitness(candidates));
              && next == pos + 1
              && (res.Ok? && strategy.options.selectionSize > 0 ==> res.value[0] == candidates[PickIndex(candidates, draw)])
              && (res.Ok? ==> forall i :: 1 <= i < |res.value| ==> res.value[i] == candidates[0])
              && (strategy.options.duplicates.Allow? || strategy.options.selectionSize <= 1 ==> res.Ok?)
              && (res.Err? ==> res.error == RngFail && strategy.options.duplicates.Disallow?)
              && (strategy.options.duplicates.Disallow? && strategy.options.selectionSize >= 3 ==> res.Err?)
              && (strategy.options.duplicates.Disallow? && strategy.options.selectionSize == 2 ==>
                    (res.Ok? <==> !SameEntry(candidates[PickIndex(candidates, draw)], candidates[0])))
  {
    match strategy.variant
    case Tournament(size) =>
      ghost var rounds;
      res, next, rounds := TournamentSelect(size, candidates, strategy.options, rng, pos);
    case Roulette =>
      var draw;
      res, next, draw := RouletteSelect(candidates, strategy.options, rng, pos);
      if res.Ok? && strategy.options.selectionSize > 0 {
        assert res.value[0] in candidates;
      }
  }
}

/**
 * The generation orchestrator: strictly alternating forward and backward passes,
 * each asked for a batch of new concepts clipped to what remains of the target,
 * until the running count reaches the target.
 *
 * The pass engines are collaborators whose only promise is a non-negative count.
 * An engine is a function of the domains, the number of terms requested and the
 * pass's position in the run (which stands for whatever store state the engine sees).
 * The source loop has no iteration cap, so a run is followed for at most `fuel` passes.
 */
module Orchestration {

  datatype PassType = Forward | Backward

  function Flip(t: PassType): PassType {
    if t == Forward then Backward else Forward
  }

  /** `execute(domains, num_terms) -> int`, with the pass's position in the run as a third argument. */
  type PassEngine = (seq<string>, nat, nat) -> nat

  /** One call of a pass engine: its direction, the number requested, the number it reported. */
  datatype PassRecord = PassRecord(kind: PassType, request: nat, added: nat)

  /** What stays fixed during one run: the two engines, the target and the domains. */
  datatype RunConfig = RunConfig(forward: PassEngine, backward: PassEngine, targetTerms: int, domains: seq<string>)
  {
    /** The engine a pass in direction `kind` calls. */
    function Engine(kind: PassType): PassEngine {
      if kind == Forward then forward else backward
    }
  }

  /** `int(target_terms * 0.10)`: a tenth of the target, truncated toward zero. */
  function BatchSize(targetTerms: int): (b: int)
    ensures targetTerms >= 0 ==> 0 <= b <= targetTerms
    ensures targetTerms < 0 ==> b <= 0
  {
    if targetTerms >= 0 then targetTerms / 10 else -((-targetTerms) / 10)
  }

  /** The batch is the target divided by ten, rounded toward zero. */
  lemma BatchSizeTruncates(targetTerms: int)
    ensures targetTerms >= 0 ==> BatchSize(targetTerms) * 10 <= targetTerms < BatchSize(targetTerms) * 10 + 10
    ensures targetTerms < 0 ==> BatchSize(targetTerms) * 10 >= targetTerms > BatchSize(targetTerms) * 10 - 10
  {
  }

  function Min(a: int, b: int): int {
    if a <= b then a else b
  }

  function Max(a: int, b: int): int {
    if a <= b then b else a
  }

  /** The running count after the given passes. */
  function Total(ps: seq<PassRecord>): nat {
    if ps == [] then 0 else Total(ps[..|ps| - 1]) + ps[|ps| - 1].added
  }

  lemma {:induction false} TotalCons(p: PassRecord, ps: seq<PassRecord>)
    ensures Total([p] + ps) == p.added + Total(ps)
    decreases |ps|
  {
    if ps != [] {
      var init := ps[..|ps| - 1];
      assert ([p] + ps)[..|ps|] == [p] + init;
      TotalCons(p, init);
    }
  }

  lemma TotalAfterFirst(ps: seq<PassRecord>, i: nat)
    requires 1 <= i <= |ps|
    ensures Total(ps[..i]) == ps[0].added + Total(ps[1..][..i - 1])
  {
    assert ps[..i] == [ps[0]] + ps[1..][..i - 1];
    TotalCons(ps[0], ps[1..][..i - 1]);
  }

  /** The running count never decreases from one pass to a later one. */
  lemma {:induction false} TotalPrefixMonotone(ps: seq<PassRecord>, i: nat, j: nat)
    requires i <= j <= |ps|
    ensures Total(ps[..i]) <= Total(ps[..j])
    decreases j - i
  {
    if i < j {
      TotalPrefixMonotone(ps, i, j - 1);
      assert ps[..j][..j - 1] == ps[..j - 1];
    }
  }

  /**
   * The passes a run performs from a state of its loop: running count `current`,
   * next direction `kind`, `n` passes already made, at most `fuel` passes more.
   */
  function Passes(cfg: RunConfig, current: nat, kind: PassType, n: nat, fuel: nat): seq<PassRecord>
    decreases fuel
  {
    if fuel == 0 || current >= cfg.targetTerms then []
    else
      var request := Min(BatchSize(cfg.targetTerms), cfg.targetTerms - current);
      var added := cfg.Engine(kind)(cfg.domains, request, n);
      [PassRecord(kind, request, added)] + Passes(cfg, current + added, Flip(kind), n + 1, fuel - 1)
  }

  /** One turn of the loop: a pass in direction `kind`, then the rest of the run in the other direction. */
  lemma PassesStep(cfg: RunConfig, current: nat, kind: PassType, n: nat, fuel: nat, request: nat, added: nat)
    requires fuel > 0 && current < cfg.targetTerms
    requires request == Min(BatchSize(cfg.targetTerms), cfg.targetTerms - current)
    requires added == cfg.Engine(kind)(cfg.domains, request, n)
    ensures Passes(cfg, current, kind, n, fuel)
         == [PassRecord(kind, request, added)] + Passes(cfg, current + added, Flip(kind), n + 1, fuel - 1)
  {
  }

  /** The loop of `Run` keeps its account of the run: what it did plus what remains is the whole run. */
  lemma RunStep(cfg: RunConfig, passes: seq<PassRecord>, current: nat, kind: PassType, fuel: nat,
                request: nat, added: nat, next: seq<PassRecord>)
    requires |passes| < fuel && current < cfg.targetTerms && current == Total(passes)
    requires passes + Passes(cfg, current, kind, |passes|, fuel - |passes|) == Passes(cfg, 0, Forward, 0, fuel)
    requires request == Min(BatchSize(cfg.targetTerms), cfg.targetTerms - current)
    requires added == cfg.Engine(kind)(cfg.domains, request, |passes|)
    requires next == passes + [PassRecord(kind, request, added)]
    ensures next + Passes(cfg, current + added, Flip(kind), |next|, fuel - |next|) == Passes(cfg, 0, Forward, 0, fuel)
    ensures Total(next) == current + added
  {
    var record := PassRecord(kind, request, added);
    PassesStep(cfg, current, kind, |passes|, fuel - |passes|, request, added);
    var rest := Passes(cfg, current + added, Flip(kind), |next|, fuel - |next|);
    assert next + rest == passes + ([record] + rest);
    assert next[..|passes|] == passes;
  }

  /** The direction of the `i`-th pass of a run whose first pass goes in direction `first`. */
  function KindAt(first: PassType, i: nat): PassType {
    if i % 2 == 0 then first else Flip(first)
  }

  /** Passes strictly alternate, whatever count each pass reported. */
  lemma {:induction false} PassesAlternate(cfg: RunConfig, current: nat, kind: PassType, n: nat, fuel: nat)
    ensures forall i :: 0 <= i < |Passes(cfg, current, kind, n, fuel)| ==>
      Passes(cfg, current, kind, n, fuel)[i].kind == KindAt(kind, i)
    decreases fuel
  {
    var ps := Passes(cfg, current, kind, n, fuel);
    if ps != [] {
      var rest := Passes(cfg, current + ps[0].added, Flip(kind), n + 1, fuel - 1);
      assert ps == [ps[0]] + rest;
      PassesAlternate(cfg, current + ps[0].added, Flip(kind), n + 1, fuel - 1);
      forall i | 1 <= i < |ps| ensures ps[i].kind == KindAt(kind, i) {
        assert ps[i] == rest[i - 1];
        assert rest[i - 1].kind == KindAt(Flip(kind), i - 1);
        assert Flip(Flip(kind)) == kind;
        if i % 2 == 0 { assert (i - 1) % 2 == 1; } else { assert (i - 1) % 2 == 0; }
      }
    }
  }

  /** The `i`-th pass ran because the target was not yet reached, and asked for `min(batch_size, target_terms - current)`. */
  ghost predicate CallAt(cfg: RunConfig, current: nat, n: nat, ps: seq<PassRecord>, i: nat)
    requires i < |ps|
  {
    && current + Total(ps[..i]) < cfg.targetTerms
    && ps[i].request == Min(BatchSize(cfg.targetTerms), cfg.targetTerms - (current + Total(ps[..i])))
    && ps[i].added == cfg.Engine(ps[i].kind)(cfg.domains, ps[i].request, n + i)
  }

  /**
   * Each pass happens only while the target is not reached, requests
   * `min(batch_size, target_terms - current)` and reports what its engine returned.
   */
  lemma {:induction false} PassesCalls(cfg: RunConfig, current: nat, kind: PassType, n: nat, fuel: nat)
    ensures forall i :: 0 <= i < |Passes(cfg, current, kind, n, fuel)| ==>
      CallAt(cfg, current, n, Passes(cfg, current, kind, n, fuel), i)
    decreases fuel
  {
    var ps := Passes(cfg, current, kind, n, fuel);
    if ps != [] {
      var added := ps[0].added;
      var rest := Passes(cfg, current + added, Flip(kind), n + 1, fuel - 1);
      assert ps[1..] == rest;
      assert ps[..0] == [];
      PassesCalls(cfg, current + added, Flip(kind), n + 1, fuel - 1);
      forall i | 0 <= i < |ps| ensures CallAt(cfg, current, n, ps, i) {
        if i > 0 {
          TotalAfterFirst(ps, i);
          assert ps[i] == rest[i - 1];
          assert CallAt(cfg, current + added, n + 1, rest, i - 1);
        }
      }
    }
  }

  /** Consequently every request lies between 0 and the batch size and never exceeds what remains. */
  lemma PassesRequestBounds(cfg: RunConfig, current: nat, kind: PassType, n: nat, fuel: nat)
    ensures forall i :: 0 <= i < |Passes(cfg, current, kind, n, fuel)| ==>
      && Passes(cfg, current, kind, n, fuel)[i].request <= BatchSize(cfg.targetTerms)
      && current + Total(Passes(cfg, current, kind, n, fuel)[..i]) + Passes(cfg, current, kind, n, fuel)[i].request
         <= cfg.targetTerms
  {
    var ps := Passes(cfg, current, kind, n, fuel);
    PassesCalls(cfg, current, kind, n, fuel);
    forall i | 0 <= i < |ps|
      ensures ps[i].request <= BatchSize(cfg.targetTerms) && current + Total(ps[..i]) + ps[i].request <= cfg.targetTerms
    {
      assert CallAt(cfg, current, n, ps, i);
    }
  }

  /** A run that stops before its fuel runs out has reached the target. */
  lemma {:induction false} PassesStopOnlyAtTarget(cfg: RunConfig, current: nat, kind: PassType, n: nat, fuel: nat)
    ensures |Passes(cfg, current, kind, n, fuel)| <= fuel
    ensures |Passes(cfg, current, kind, n, fuel)| < fuel ==>
      current + Total(Passes(cfg, current, kind, n, fuel)) >= cfg.targetTerms
    decreases fuel
  {
    var ps := Passes(cfg, current, kind, n, fuel);
    if ps != [] {
      var rest := Passes(cfg, current + ps[0].added, Flip(kind), n + 1, fuel - 1);
      assert ps == [ps[0]] + rest;
      PassesStopOnlyAtTarget(cfg, current + ps[0].added, Flip(kind), n + 1, fuel - 1);
      TotalCons(ps[0], rest);
    }
  }

  /** The engine never reports more than it was asked for. */
  ghost predicate Honest(engine: PassEngine) {
    forall domains, request, n :: engine(domains, request, n) <= request
  }

  /** The engine adds at least one concept whenever it is asked for at least one. */
  ghost predicate Progressing(engine: PassEngine) {
    forall domains, request, n :: request >= 1 ==> engine(domains, request, n) >= 1
  }

  /** With engines that keep to their request the count never passes the target, and a finished run hits it exactly. */
  lemma {:induction false} HonestPassesHitTarget(cfg: RunConfig, current: nat, kind: PassType, n: nat, fuel: nat)
    requires Honest(cfg.forward) && Honest(cfg.backward)
    requires current <= cfg.targetTerms
    ensures current + Total(Passes(cfg, current, kind, n, fuel)) <= cfg.targetTerms
    ensures |Passes(cfg, current, kind, n, fuel)| < fuel ==>
      current + Total(Passes(cfg, current, kind, n, fuel)) == cfg.targetTerms
    decreases fuel
  {
    var ps := Passes(cfg, current, kind, n, fuel);
    if ps != [] {
      var rest := Passes(cfg, current + ps[0].added, Flip(kind), n + 1, fuel - 1);
      assert ps == [ps[0]] + rest;
      assert ps[0].added <= ps[0].request;
      HonestPassesHitTarget(cfg, current + ps[0].added, Flip(kind), n + 1, fuel - 1);
      TotalCons(ps[0], rest);
    }
  }

  /**
   * Termination under the assumption that passes make progress: once batches are at
   * least one term (a target of ten or more), `target - current` passes suffice.
   */
  lemma {:induction false} ProgressingPassesTerminate(cfg: RunConfig, current: nat, kind: PassType, n: nat, fuel: nat)
    requires Progressing(cfg.forward) && Progressing(cfg.backward)
    requires cfg.targetTerms >= 10
    requires fuel >= cfg.targetTerms - current
    ensures current + Total(Passes(cfg, current, kind, n, fuel)) >= cfg.targetTerms
    ensures current + |Passes(cfg, current, kind, n, fuel)| <= Max(current, cfg.targetTerms)
    decreases fuel
  {
    var ps := Passes(cfg, current, kind, n, fuel);
    if current < cfg.targetTerms {
      assert fuel > 0;
      var rest := Passes(cfg, current + ps[0].added, Flip(kind), n + 1, fuel - 1);
      assert ps == [ps[0]] + rest;
      assert ps[0].request >= 1;
      assert ps[0].added >= 1;
      ProgressingPassesTerminate(cfg, current + ps[0].added, Flip(kind), n + 1, fuel - 1);
      TotalCons(ps[0], rest);
    }
  }

  /**
   * The stall the source does not guard against: for 0 < target < 10 the batch is 0,
   * every request is 0, engines that keep to their request add nothing, and the run
   * uses up any amount of fuel without moving.
   */
  lemma {:induction false} SmallTargetStalls(cfg: RunConfig, kind: PassType, n: nat, fuel: nat)
    requires Honest(cfg.forward) && Honest(cfg.backward)
    requires 0 < cfg.targetTerms < 10
    ensures |Passes(cfg, 0, kind, n, fuel)| == fuel
    ensures Total(Passes(cfg, 0, kind, n, fuel)) == 0
    ensures forall i :: 0 <= i < |Passes(cfg, 0, kind, n, fuel)| ==> Passes(cfg, 0, kind, n, fuel)[i].request == 0
    decreases fuel
  {
    var ps := Passes(cfg, 0, kind, n, fuel);
    if fuel > 0 {
      assert ps[0].request == 0 && ps[0].added == 0;
      var rest := Passes(cfg, 0, Flip(kind), n + 1, fuel - 1);
      assert ps == [ps[0]] + rest;
      SmallTargetStalls(cfg, Flip(kind), n + 1, fuel - 1);
      TotalCons(ps[0], rest);
      forall i | 1 <= i < |ps| ensures ps[i].request == 0 {
        assert ps[i] == rest[i - 1];
      }
    }
  }

  class Orchestrator {
    const forwardPass: PassEngine
    const backwardPass: PassEngine

    constructor (forwardPass: PassEngine, backwardPass: PassEngine)
      ensures this.forwardPass == forwardPass && this.backwardPass == backwardPass
    {
      this.forwardPass := forwardPass;
      this.backwardPass := backwardPass;
    }

    /**
     * `run(target_terms, domains)`: returns the passes it made, the final running count,
     * and whether the loop ended because the target was reached (rather than the fuel).
     */
    method Run(targetTerms: int, domains: seq<string>, fuel: nat) returns (current: nat, passes: seq<PassRecord>, reached: bool)
      ensures passes == Passes(RunConfig(forwardPass, backwardPass, targetTerms, domains), 0, Forward, 0, fuel)
      ensures current == Total(passes)
      ensures reached <==> current >= targetTerms
      ensures !reached ==> |passes| == fuel
      ensures targetTerms <= 0 ==> passes == [] && current == 0
    {
      var forward, backward := forwardPass, backwardPass;
      ghost var cfg := RunConfig(forward, backward, targetTerms, domains);
      var batchSize := BatchSize(targetTerms);
      current := 0;
      var passType := Forward;
      passes := [];
      while current < targetTerms && |passes| < fuel
        invariant |passes| <= fuel
        invariant current == Total(passes)
        invariant passes + Passes(cfg, current, passType, |passes|, fuel - |passes|) == Passes(cfg, 0, Forward, 0, fuel)
      {
        var termsThisBatch := Min(batchSize, targetTerms - current);
        var kind := passType;
        var added;
        if passType == Forward {
          added := forward(domains, termsThisBatch, |passes|);
          passType := Backward;
        } else {
          added := backward(domains, termsThisBatch, |passes|);
          passType := Forward;
        }
        assert added == cfg.Engine(kind)(domains, termsThisBatch, |passes|) && passType == Flip(kind);
        var next := passes + [PassRecord(kind, termsThisBatch, added)];
        RunStep(cfg, passes, current, kind, fuel, termsThisBatch, added, next);
        passes := next;
        current := current + added;
      }
      reached := current >= targetTerms;
    }
  }
}

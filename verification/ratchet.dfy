/** The mutation-score ratchet (scripts/mutation/ratchet.ts) as a state machine over recorded runs. */
module Ratchet {
  import opened Wrappers
  import opened Scoring

  datatype Provenance = Provenance(strykerVersion: string, configHash: string)

  /** Scores are hundredths of a percent, so `roundScore` of a difference is the difference. */
  datatype ModuleBaseline = ModuleBaseline(score: nat, killed: nat, survived: nat, total: nat,
                                           provenance: Provenance, updatedAt: string)

  datatype Baseline = Baseline(requiredStableRuns: nat, stableRuns: nat, gating: bool,
                               modules: map<ModuleId, ModuleBaseline>)

  datatype Status = New | Improved | Held | Regressed | Drifted

  datatype Verdict = Verdict(id: ModuleId, score: nat, killed: nat, total: nat, surviving: seq<SurvivingMutant>,
                             baselineScore: Option<nat>, delta: Option<int>, status: Status)

  datatype Result = Result(verdicts: seq<Verdict>, comparable: bool, regressed: bool, gating: bool, failed: bool)

  function EmptyBaseline(required: nat): Baseline {
    Baseline(required, 0, false, map[])
  }

  /** What the two scores and the provenance make of a module, whatever computes it. */
  ghost predicate TrueVerdict(s: ModuleScore, previous: Option<ModuleBaseline>, p: Provenance, v: Verdict) {
    && v.id == s.id && v.score == s.score && v.killed == s.killed && v.total == s.total && v.surviving == s.surviving
    && (v.status == New <==> previous.None?)
    && (v.status == Drifted <==> previous.Some? && previous.value.provenance != p)
    && (v.status == Improved <==>
          previous.Some? && previous.value.provenance == p && s.score > previous.value.score)
    && (v.status == Held <==> previous.Some? && previous.value.provenance == p && s.score == previous.value.score)
    && (v.status == Regressed <==>
          previous.Some? && previous.value.provenance == p && s.score < previous.value.score)
    && (previous.None? ==> v.baselineScore == None && v.delta == None)
    && (previous.Some? ==>
          v.baselineScore == Some(previous.value.score) && v.delta == Some(s.score - previous.value.score))
  }

  function VerdictFor(s: ModuleScore, previous: Option<ModuleBaseline>, p: Provenance): (v: Verdict)
    ensures TrueVerdict(s, previous, p, v)
  {
    match previous
    case None => Verdict(s.id, s.score, s.killed, s.total, s.surviving, None, None, New)
    case Some(b) =>
      var delta := s.score - b.score;
      Verdict(s.id, s.score, s.killed, s.total, s.surviving, Some(b.score), Some(delta),
              if b.provenance != p then Drifted
              else if delta < 0 then Regressed
              else if delta > 0 then Improved else Held)
  }

  function Lookup(modules: map<ModuleId, ModuleBaseline>, id: ModuleId): Option<ModuleBaseline> {
    if id in modules then Some(modules[id]) else None
  }

  /** The module has an entry measured with the same tool and config, and scored less than it. */
  predicate FellBelow(s: ModuleScore, previous: Option<ModuleBaseline>, p: Provenance) {
    previous.Some? && previous.value.provenance == p && s.score < previous.value.score
  }

  function EvaluateRatchet(scores: seq<ModuleScore>, baseline: Baseline, p: Provenance): (r: Result)
    ensures |r.verdicts| == |scores|
    ensures forall i :: 0 <= i < |scores| ==>
      TrueVerdict(scores[i], Lookup(baseline.modules, scores[i].id), p, r.verdicts[i])
    ensures r.gating == baseline.gating
    ensures r.comparable <==>
            forall i :: 0 <= i < |scores| ==>
              scores[i].id in baseline.modules && baseline.modules[scores[i].id].provenance == p
    ensures forall i :: 0 <= i < |scores| ==>
      (r.verdicts[i].status == Regressed <==> FellBelow(scores[i], Lookup(baseline.modules, scores[i].id), p))
    ensures r.failed <==>
            (baseline.gating &&
             exists i :: 0 <= i < |scores| && FellBelow(scores[i], Lookup(baseline.modules, scores[i].id), p))
  {
    hide VerdictFor;
    var verdicts := seq(|scores|, i requires 0 <= i < |scores| =>
                      VerdictFor(scores[i], Lookup(baseline.modules, scores[i].id), p));
    var regressed := exists i :: 0 <= i < |verdicts| && verdicts[i].status == Regressed;
    Result(verdicts,
           forall i :: 0 <= i < |verdicts| ==> verdicts[i].status != Drifted && verdicts[i].status != New,
           regressed, baseline.gating, baseline.gating && regressed)
  }

  /** `result.verdicts.find(...)?.status` */
  function FirstStatus(verdicts: seq<Verdict>, id: ModuleId): Option<Status> {
    if verdicts == [] then None
    else if verdicts[0].id == id then Some(verdicts[0].status)
    else FirstStatus(verdicts[1..], id)
  }

  datatype Options = Options(provenance: Provenance, now: string, countsTowardGraduation: bool)

  function Recorded(s: ModuleScore, o: Options): ModuleBaseline {
    ModuleBaseline(s.score, s.killed, s.survived, s.total, o.provenance, o.now)
  }

  /** The entry holds what run `o` measured, and when. */
  ghost predicate Keeps(entry: ModuleBaseline, s: ModuleScore, o: Options) {
    && entry.score == s.score && entry.killed == s.killed && entry.survived == s.survived && entry.total == s.total
    && entry.provenance == o.provenance && entry.updatedAt == o.now
  }

  function Max(a: nat, b: nat): nat {
    if a >= b then a else b
  }

  /** One turn of the loop in `applyRun`. */
  function RecordScore(modules: map<ModuleId, ModuleBaseline>, s: ModuleScore, verdicts: seq<Verdict>,
                       o: Options): map<ModuleId, ModuleBaseline> {
    var rebase := s.id !in modules || FirstStatus(verdicts, s.id) == Some(Drifted);
    if !rebase && s.score < modules[s.id].score then modules
    else modules[s.id := Recorded(s, o).(score := if rebase then s.score else Max(modules[s.id].score, s.score))]
  }

  function RecordAll(modules: map<ModuleId, ModuleBaseline>, scores: seq<ModuleScore>, verdicts: seq<Verdict>,
                     o: Options): map<ModuleId, ModuleBaseline> {
    if scores == [] then modules
    else RecordScore(RecordAll(modules, scores[..|scores| - 1], verdicts, o), scores[|scores| - 1], verdicts, o)
  }

  function NextBaseline(b: Baseline, scores: seq<ModuleScore>, r: Result, o: Options): Baseline {
    var stable := r.comparable && !r.regressed;
    var stableRuns := if !o.countsTowardGraduation then b.stableRuns else if stable then b.stableRuns + 1 else 0;
    Baseline(b.requiredStableRuns, stableRuns, stableRuns >= b.requiredStableRuns,
             RecordAll(b.modules, scores, r.verdicts, o))
  }

  /** `applyRun` */
  method ApplyRun(b: Baseline, scores: seq<ModuleScore>, r: Result, o: Options) returns (next: Baseline)
    ensures next == NextBaseline(b, scores, r, o)
  {
    var modules := b.modules;
    for i := 0 to |scores|
      invariant modules == RecordAll(b.modules, scores[..i], r.verdicts, o)
    {
      assert scores[..i + 1][..i] == scores[..i];
      var s := scores[i];
      var status := FirstStatus(r.verdicts, s.id);
      var rebase := s.id !in modules || status == Some(Drifted);
      if !rebase && s.score < modules[s.id].score {
        continue;
      }
      var score := if rebase then s.score else Max(modules[s.id].score, s.score);
      modules := modules[s.id := Recorded(s, o).(score := score)];
    }
    assert scores[..|scores|] == scores;
    var stable := r.comparable && !r.regressed;
    var stableRuns := b.stableRuns;
    if o.countsTowardGraduation {
      stableRuns := if stable then b.stableRuns + 1 else 0;
    }
    next := Baseline(b.requiredStableRuns, stableRuns, stableRuns >= b.requiredStableRuns, modules);
  }

  // ---- one run ----

  datatype Run = Run(scores: seq<ModuleScore>, options: Options)

  /** `summarizeReport` scores each module once. */
  ghost predicate OncePerModule(scores: seq<ModuleScore>) {
    forall i, j :: 0 <= i < j < |scores| ==> scores[i].id != scores[j].id
  }

  function Step(b: Baseline, run: Run): Baseline {
    NextBaseline(b, run.scores, EvaluateRatchet(run.scores, b, run.options.provenance), run.options)
  }

  lemma {:induction false} FirstStatusIsVerdict(scores: seq<ModuleScore>, b: Baseline, p: Provenance, k: nat, i: nat)
    requires OncePerModule(scores) && k <= i < |scores|
    ensures FirstStatus(EvaluateRatchet(scores, b, p).verdicts[k..], scores[i].id) ==
            Some(VerdictFor(scores[i], Lookup(b.modules, scores[i].id), p).status)
    decreases i - k
  {
    var vs := EvaluateRatchet(scores, b, p).verdicts;
    if k < i {
      FirstStatusIsVerdict(scores, b, p, k + 1, i);
      assert vs[k..][1..] == vs[k + 1..];
    }
  }

  /** What one run leaves on record for one module. */
  function Replaces(s: ModuleScore, previous: Option<ModuleBaseline>, p: Provenance): bool {
    previous.None? || previous.value.provenance != p || s.score >= previous.value.score
  }

  lemma {:induction false} RecordAllOthers(modules: map<ModuleId, ModuleBaseline>, scores: seq<ModuleScore>,
                                           verdicts: seq<Verdict>, o: Options, id: ModuleId)
    requires forall s :: s in scores ==> s.id != id
    ensures Lookup(RecordAll(modules, scores, verdicts, o), id) == Lookup(modules, id)
  {
    if scores != [] {
      assert scores[|scores| - 1] in scores;
      RecordAllOthers(modules, scores[..|scores| - 1], verdicts, o, id);
    }
  }

  lemma {:induction false} RecordAllOne(modules: map<ModuleId, ModuleBaseline>, scores: seq<ModuleScore>,
                                        verdicts: seq<Verdict>, o: Options, i: nat)
    requires OncePerModule(scores) && i < |scores|
    ensures Lookup(RecordAll(modules, scores, verdicts, o), scores[i].id) ==
            Lookup(RecordScore(modules, scores[i], verdicts, o), scores[i].id)
  {
    var n := |scores| - 1;
    if i == n {
      RecordAllOthers(modules, scores[..n], verdicts, o, scores[i].id);
    } else {
      RecordAllOne(modules, scores[..n], verdicts, o, i);
    }
  }

  /** Each measured module keeps its record unless the run matches it, beats it or drifted from it. */
  lemma StepRecords(b: Baseline, run: Run, i: nat)
    requires OncePerModule(run.scores) && i < |run.scores|
    ensures var s, previous := run.scores[i], Lookup(b.modules, run.scores[i].id);
      var entry := Lookup(Step(b, run).modules, s.id);
      if Replaces(s, previous, run.options.provenance) then entry.Some? && Keeps(entry.value, s, run.options)
      else entry == previous
  {
    var vs := EvaluateRatchet(run.scores, b, run.options.provenance).verdicts;
    RecordAllOne(b.modules, run.scores, vs, run.options, i);
    FirstStatusIsVerdict(run.scores, b, run.options.provenance, 0, i);
    assert vs[0..] == vs;
  }

  lemma StepKeepsOthers(b: Baseline, run: Run, id: ModuleId)
    requires forall s :: s in run.scores ==> s.id != id
    ensures Lookup(Step(b, run).modules, id) == Lookup(b.modules, id)
  {
    RecordAllOthers(b.modules, run.scores, EvaluateRatchet(run.scores, b, run.options.provenance).verdicts,
                    run.options, id);
  }

  /**
   Repeating a run against the baseline it produced: a regression stays a regression, and every
   other outcome (first measurement, improvement, drift) has become the new standing.
   */
  lemma RerunAgainstOwnBaseline(b: Baseline, run: Run, i: nat)
    requires OncePerModule(run.scores) && i < |run.scores|
    ensures var before := EvaluateRatchet(run.scores, b, run.options.provenance).verdicts[i].status;
      EvaluateRatchet(run.scores, Step(b, run), run.options.provenance).verdicts[i].status ==
        if before == Regressed then Regressed else Held
  {
    StepRecords(b, run, i);
  }

  /**
   A failed run fails again against the baseline it produced exactly when the gate stays on. A run that
   counts toward graduation resets the stable streak, and with it the gate, unless no streak is required.
   */
  lemma FailureRepeats(b: Baseline, run: Run)
    requires OncePerModule(run.scores) && EvaluateRatchet(run.scores, b, run.options.provenance).failed
    ensures EvaluateRatchet(run.scores, Step(b, run), run.options.provenance).failed <==>
            if run.options.countsTowardGraduation then b.requiredStableRuns == 0
            else b.stableRuns >= b.requiredStableRuns
  {
    hide RecordAll, VerdictFor;
    var before, p := EvaluateRatchet(run.scores, b, run.options.provenance), run.options.provenance;
    var i :| 0 <= i < |run.scores| && FellBelow(run.scores[i], Lookup(b.modules, run.scores[i].id), p);
    RerunAgainstOwnBaseline(b, run, i);
  }

  /** The full sweep that fails, taken again with the same scores, passes: one module, one stable run required. */
  lemma FailsOnlyOnce(p: Provenance, now: string, entry: ModuleBaseline, s: ModuleScore)
    requires entry.provenance == p && s.score < entry.score
    ensures var b, run := Baseline(1, 1, true, map[s.id := entry]), Run([s], Options(p, now, true));
      && EvaluateRatchet(run.scores, b, p).failed
      && !EvaluateRatchet(run.scores, Step(b, run), p).failed
  {
    var b, run := Baseline(1, 1, true, map[s.id := entry]), Run([s], Options(p, now, true));
    assert FellBelow(run.scores[0], Lookup(b.modules, run.scores[0].id), p);
    FailureRepeats(b, run);
  }

  // ---- whole histories ----

  function After(required: nat, history: seq<Run>): Baseline {
    if history == [] then EmptyBaseline(required)
    else Step(After(required, history[..|history| - 1]), history[|history| - 1])
  }

  ghost predicate WellFormed(history: seq<Run>) {
    forall i :: 0 <= i < |history| ==> OncePerModule(history[i].scores)
  }

  ghost predicate Measures(run: Run, s: ModuleScore) {
    s in run.scores
  }

  function ProvenanceOf(run: Run): Provenance {
    run.options.provenance
  }

  /** Between runs `j` and `i` the module was only ever measured under `i`'s tool and config. */
  ghost predicate SameEra(history: seq<Run>, id: ModuleId, j: int, i: int)
    requires 0 <= i < |history|
  {
    forall l, s :: 0 <= j <= l < i && Measures(history[l], s) && s.id == id ==>
      ProvenanceOf(history[l]) == ProvenanceOf(history[i])
  }

  /**
   `s`, measured by run `i`, is the module's standing record: nothing later matched it or changed
   the tool, and nothing earlier under the same tool beat it. Said without any baseline.
   */
  ghost predicate IsRecord(history: seq<Run>, i: int, s: ModuleScore) {
    && 0 <= i < |history| && Measures(history[i], s)
    && (forall j, t :: i < j < |history| && Measures(history[j], t) && t.id == s.id ==>
          ProvenanceOf(history[j]) == ProvenanceOf(history[i]) && t.score < s.score)
    && (forall j, t :: 0 <= j < i && Measures(history[j], t) && t.id == s.id && SameEra(history, s.id, j, i) ==>
          t.score <= s.score)
  }

  ghost predicate NeverMeasured(history: seq<Run>, id: ModuleId) {
    forall j, t :: 0 <= j < |history| && Measures(history[j], t) ==> t.id != id
  }

  /** The baseline entry of a module is its record, or absent if it was never measured. */
  ghost predicate EntryIsRecord(history: seq<Run>, id: ModuleId, entry: Option<ModuleBaseline>) {
    match entry
    case None => NeverMeasured(history, id)
    case Some(e) => exists i, s :: IsRecord(history, i, s) && s.id == id && Keeps(e, s, history[i].options)
  }

  lemma EraExtends(history: seq<Run>, run: Run, id: ModuleId, j: int, i: int)
    requires 0 <= i < |history|
    ensures SameEra(history + [run], id, j, i) <==> SameEra(history, id, j, i)
  {
    var more := history + [run];
    assert forall l :: 0 <= l < |history| ==> more[l] == history[l];
    if SameEra(more, id, j, i) {
      forall l, s | 0 <= j <= l < i && Measures(history[l], s) && s.id == id
        ensures ProvenanceOf(history[l]) == ProvenanceOf(history[i])
      {
        assert Measures(more[l], s);
      }
    }
  }

  lemma RecordSurvives(history: seq<Run>, run: Run, i: int, s: ModuleScore)
    requires IsRecord(history, i, s)
    requires forall t :: Measures(run, t) && t.id == s.id ==>
               ProvenanceOf(run) == ProvenanceOf(history[i]) && t.score < s.score
    ensures IsRecord(history + [run], i, s)
  {
    var more := history + [run];
    assert forall l :: 0 <= l < |history| ==> more[l] == history[l];
    forall j, t | 0 <= j < i && Measures(more[j], t) && t.id == s.id && SameEra(more, s.id, j, i)
      ensures t.score <= s.score
    {
      EraExtends(history, run, s.id, j, i);
      assert Measures(history[j], t);
    }
  }

  /** The first measurement of a module starts a record. */
  lemma RecordStarts(history: seq<Run>, run: Run, s: ModuleScore)
    requires Measures(run, s) && NeverMeasured(history, s.id)
    ensures IsRecord(history + [run], |history|, s)
  {
  }

  /** So does the first measurement after the tool or config changed. */
  lemma RecordRestarts(history: seq<Run>, run: Run, s: ModuleScore, i: int, r: ModuleScore)
    requires Measures(run, s) && IsRecord(history, i, r) && r.id == s.id
    requires ProvenanceOf(history[i]) != ProvenanceOf(run)
    ensures IsRecord(history + [run], |history|, s)
  {
    var more := history + [run];
    assert more[|history|] == run;
    forall j, t | 0 <= j < |history| && Measures(more[j], t) && t.id == s.id
      ensures !SameEra(more, s.id, j, |history|)
    {
      assert Measures(history[j], t);
      var l, u := if i < j then j else i, if i < j then t else r;
      assert Measures(more[l], u) && u.id == s.id && ProvenanceOf(more[l]) == ProvenanceOf(history[i]);
    }
  }

  /** Matching or beating the record under the same tool takes it over. */
  lemma RecordPasses(history: seq<Run>, run: Run, i: int, r: ModuleScore, s: ModuleScore)
    requires WellFormed(history)
    requires IsRecord(history, i, r) && r.id == s.id && Measures(run, s)
    requires ProvenanceOf(history[i]) == ProvenanceOf(run) && s.score >= r.score
    ensures IsRecord(history + [run], |history|, s)
  {
    var more := history + [run];
    assert more[|history|] == run;
    forall j, t | 0 <= j < |history| && Measures(more[j], t) && t.id == s.id && SameEra(more, s.id, j, |history|)
      ensures t.score <= s.score
    {
      assert Measures(history[j], t);
      if j < i {
        assert SameEra(history, s.id, j, i) by {
          forall l, u | j <= l < i && Measures(history[l], u) && u.id == s.id
            ensures ProvenanceOf(history[l]) == ProvenanceOf(history[i])
          {
            assert Measures(more[l], u);
          }
        }
      } else if j == i {
        OneScorePerRun(history[i], r, t);
      }
    }
  }

  lemma OneScorePerRun(run: Run, r: ModuleScore, t: ModuleScore)
    requires OncePerModule(run.scores) && Measures(run, r) && Measures(run, t) && r.id == t.id
    ensures r == t
  {
  }

  lemma EntryAfterStep(history: seq<Run>, run: Run, required: nat, id: ModuleId)
    requires WellFormed(history) && OncePerModule(run.scores)
    requires EntryIsRecord(history, id, Lookup(After(required, history).modules, id))
    ensures EntryIsRecord(history + [run], id, Lookup(Step(After(required, history), run).modules, id))
  {
    var b, more := After(required, history), history + [run];
    assert more[|history|] == run && forall l :: 0 <= l < |history| ==> more[l] == history[l];
    var entry := Lookup(b.modules, id);
    if forall s :: s in run.scores ==> s.id != id {
      StepKeepsOthers(b, run, id);
      if entry.Some? {
        var i, r :| IsRecord(history, i, r) && r.id == id && Keeps(entry.value, r, history[i].options);
        RecordSurvives(history, run, i, r);
      } else {
        assert NeverMeasured(more, id);
      }
    } else {
      var k :| 0 <= k < |run.scores| && run.scores[k].id == id;
      MeasuredEntryAfterStep(history, run, required, k);
    }
  }

  lemma MeasuredEntryAfterStep(history: seq<Run>, run: Run, required: nat, k: nat)
    requires WellFormed(history) && OncePerModule(run.scores) && k < |run.scores|
    requires EntryIsRecord(history, run.scores[k].id, Lookup(After(required, history).modules, run.scores[k].id))
    ensures EntryIsRecord(history + [run], run.scores[k].id,
                          Lookup(Step(After(required, history), run).modules, run.scores[k].id))
  {
    var b, more, s := After(required, history), history + [run], run.scores[k];
    assert more[|history|] == run && Measures(run, s);
    StepRecords(b, run, k);
    var entry := Lookup(b.modules, s.id);
    if entry.None? {
      RecordStarts(history, run, s);
      assert IsRecord(more, |history|, s);
    } else {
      var i, r :| IsRecord(history, i, r) && r.id == s.id && Keeps(entry.value, r, history[i].options);
      if entry.value.provenance != ProvenanceOf(run) {
        RecordRestarts(history, run, s, i, r);
        assert IsRecord(more, |history|, s);
      } else if s.score >= r.score {
        RecordPasses(history, run, i, r, s);
        assert IsRecord(more, |history|, s);
      } else {
        forall t | Measures(run, t) && t.id == r.id
          ensures t == s
        {
          OneScorePerRun(run, t, s);
        }
        RecordSurvives(history, run, i, r);
        assert more[i] == history[i];
      }
    }
  }

  /** After any history of recorded runs the baseline holds exactly the modules' records. */
  lemma {:induction false} BaselineHoldsRecords(history: seq<Run>, required: nat, id: ModuleId)
    requires WellFormed(history)
    ensures EntryIsRecord(history, id, Lookup(After(required, history).modules, id))
  {
    if history != [] {
      hide EntryIsRecord, Step, OncePerModule;
      var n := |history| - 1;
      BaselineHoldsRecords(history[..n], required, id);
      assert history == history[..n] + [history[n]];
      EntryAfterStep(history[..n], history[n], required, id);
    }
  }

  /** Under one tool and config the recorded score is the highest ever measured. */
  lemma RecordIsHighWater(history: seq<Run>, required: nat, id: ModuleId, p: Provenance)
    requires WellFormed(history) && forall run :: run in history ==> ProvenanceOf(run) == p
    ensures var modules := After(required, history).modules;
      if NeverMeasured(history, id) then id !in modules
      else
        && id in modules
        && (forall j, t :: 0 <= j < |history| && Measures(history[j], t) && t.id == id ==> t.score <= modules[id].score)
        && (exists j, t :: 0 <= j < |history| && Measures(history[j], t) && t.id == id && t.score == modules[id].score)
  {
    BaselineHoldsRecords(history, required, id);
    var entry := Lookup(After(required, history).modules, id);
    if entry.Some? {
      var i, s :| IsRecord(history, i, s) && s.id == id && Keeps(entry.value, s, history[i].options);
      assert Measures(history[i], s);
      forall j, t | 0 <= j < |history| && Measures(history[j], t) && t.id == id
        ensures t.score <= s.score
      {
        assert history[j] in history && history[i] in history;
        if j < i {
          assert SameEra(history, id, j, i);
        } else if j == i {
          OneScorePerRun(history[i], s, t);
        }
      }
    }
  }

  // ---- graduation ----

  /** Every module of run `i` had a record under the same tool and did not fall below it. */
  ghost predicate StableRun(history: seq<Run>, i: int) {
    0 <= i < |history| &&
    forall s :: Measures(history[i], s) ==>
      exists j, r :: IsRecord(history[..i], j, r) && r.id == s.id
                     && ProvenanceOf(history[j]) == ProvenanceOf(history[i]) && s.score >= r.score
  }

  /** Positions of the runs that count toward graduation. */
  ghost function Counting(history: seq<Run>): seq<nat> {
    if history == [] then []
    else
      Counting(history[..|history| - 1]) +
      (if history[|history| - 1].options.countsTowardGraduation then [|history| - 1] else [])
  }

  /** `k` is the length of the unbroken streak of stable runs that ends the counting ones. */
  ghost predicate TrailingStreak(history: seq<Run>, k: nat) {
    var c := Counting(history);
    && k <= |c|
    && (forall i :: |c| - k <= i < |c| ==> StableRun(history, c[i]))
    && (k < |c| ==> !StableRun(history, c[|c| - k - 1]))
  }

  lemma {:induction false} CountingInRange(history: seq<Run>)
    ensures forall i :: 0 <= i < |Counting(history)| ==> Counting(history)[i] < |history|
  {
    if history != [] {
      CountingInRange(history[..|history| - 1]);
    }
  }

  lemma StabilityIsLocal(history: seq<Run>, run: Run, i: int)
    requires 0 <= i < |history|
    ensures StableRun(history + [run], i) <==> StableRun(history, i)
  {
    var more := history + [run];
    assert more[..i] == history[..i] && more[i] == history[i];
    assert forall j :: 0 <= j < |history| ==> more[j] == history[j];
  }

  ghost predicate HasRecordBelow(history: seq<Run>, run: Run, s: ModuleScore) {
    exists j, r :: IsRecord(history, j, r) && r.id == s.id
                   && ProvenanceOf(history[j]) == ProvenanceOf(run) && s.score >= r.score
  }

  lemma StableMeansRecordsBelow(history: seq<Run>, run: Run)
    ensures StableRun(history + [run], |history|) <==> forall s :: Measures(run, s) ==> HasRecordBelow(history, run, s)
  {
    var more := history + [run];
    assert more[..|history|] == history && more[|history|] == run;
    forall s | Measures(run, s)
      ensures HasRecordBelow(history, run, s) <==>
        exists j, r :: IsRecord(more[..|history|], j, r) && r.id == s.id
                       && ProvenanceOf(more[j]) == ProvenanceOf(run) && s.score >= r.score
    {
      assert forall j :: 0 <= j < |history| ==> more[j] == history[j];
    }
  }

  /** The ratchet's own comparison agrees with the history-only notion of a stable run. */
  lemma StableIsComparable(history: seq<Run>, run: Run, required: nat)
    requires WellFormed(history) && OncePerModule(run.scores)
    ensures var r := EvaluateRatchet(run.scores, After(required, history), ProvenanceOf(run));
      r.comparable && !r.regressed <==> StableRun(history + [run], |history|)
  {
    hide IsRecord, HasRecordBelow, StableRun, EntryIsRecord;
    var b := After(required, history);
    var r := EvaluateRatchet(run.scores, b, ProvenanceOf(run));
    StableMeansRecordsBelow(history, run);
    forall k | 0 <= k < |run.scores|
      ensures r.verdicts[k].status == Improved || r.verdicts[k].status == Held <==>
        HasRecordBelow(history, run, run.scores[k])
    {
      BaselineHoldsRecords(history, required, run.scores[k].id);
      StandingVerdict(history, run, run.scores[k], Lookup(b.modules, run.scores[k].id));
    }
    assert forall k :: 0 <= k < |run.scores| ==> Measures(run, run.scores[k]);
  }

  /** A module has only one record. */
  lemma RecordIsUnique(history: seq<Run>, i: int, r: ModuleScore, j: int, q: ModuleScore)
    requires WellFormed(history) && IsRecord(history, i, r) && IsRecord(history, j, q) && r.id == q.id
    ensures i == j && r == q
  {
  }

  lemma StandingVerdict(history: seq<Run>, run: Run, s: ModuleScore, entry: Option<ModuleBaseline>)
    requires WellFormed(history) && EntryIsRecord(history, s.id, entry)
    ensures var status := VerdictFor(s, entry, ProvenanceOf(run)).status;
      status == Improved || status == Held <==> HasRecordBelow(history, run, s)
  {
    hide WellFormed, VerdictFor;
    if entry.Some? {
      var i, q :|
        0 <= i < |history| && IsRecord(history, i, q) && q.id == s.id && Keeps(entry.value, q, history[i].options);
      forall j, r | IsRecord(history, j, r) && r.id == s.id
        ensures j == i && r == q
      {
        RecordIsUnique(history, i, q, j, r);
      }
    } else {
      NoRecordUnmeasured(history, s.id);
    }
  }

  lemma NoRecordUnmeasured(history: seq<Run>, id: ModuleId)
    requires NeverMeasured(history, id)
    ensures forall j, r :: IsRecord(history, j, r) ==> r.id != id
  {
  }

  /** How one more run moves the streak. */
  lemma StreakSteps(history: seq<Run>, run: Run, k: nat)
    requires TrailingStreak(history, k)
    ensures TrailingStreak(history + [run],
              if !run.options.countsTowardGraduation then k
              else if StableRun(history + [run], |history|) then k + 1 else 0)
  {
    hide StableRun;
    var more := history + [run];
    assert more[..|more| - 1] == history;
    CountingInRange(history);
    forall i | 0 <= i < |Counting(history)|
      ensures StableRun(more, Counting(history)[i]) <==> StableRun(history, Counting(history)[i])
    {
      StabilityIsLocal(history, run, Counting(history)[i]);
    }
  }

  /** The counter is the trailing streak of stable counting runs, whatever happened before it. */
  lemma {:induction false} CounterIsStreak(history: seq<Run>, required: nat)
    requires WellFormed(history)
    ensures TrailingStreak(history, After(required, history).stableRuns)
    ensures After(required, history).requiredStableRuns == required
  {
    if history != [] {
      var n := |history| - 1;
      hide StableRun, TrailingStreak, EvaluateRatchet, TrueVerdict, FellBelow, RecordAll, IsRecord;
      CounterIsStreak(history[..n], required);
      assert history == history[..n] + [history[n]];
      StreakSteps(history[..n], history[n], After(required, history[..n]).stableRuns);
      StableIsComparable(history[..n], history[n], required);
    } else {
      assert Counting(history) == [];
    }
  }

  /**
   The lane starts without a gate, and after any run it gates exactly when the last `required` counting
   runs exist and were all stable.
   */
  lemma GatingIsEarned(history: seq<Run>, required: nat)
    requires WellFormed(history)
    ensures var c := Counting(history);
      After(required, history).gating <==>
        history != [] && required <= |c| && forall i :: |c| - required <= i < |c| ==> StableRun(history, c[i])
  {
    CounterIsStreak(history, required);
    if history != [] {
      CounterIsStreak(history[..|history| - 1], required);
    }
  }

  ghost predicate HasRecordAbove(history: seq<Run>, run: Run, s: ModuleScore) {
    exists j, r :: IsRecord(history, j, r) && r.id == s.id
                   && ProvenanceOf(history[j]) == ProvenanceOf(run) && s.score < r.score
  }

  lemma FallingIsBelowRecord(history: seq<Run>, run: Run, s: ModuleScore, entry: Option<ModuleBaseline>)
    requires WellFormed(history) && EntryIsRecord(history, s.id, entry)
    ensures FellBelow(s, entry, ProvenanceOf(run)) <==> HasRecordAbove(history, run, s)
  {
    if entry.Some? {
      var i, q :| IsRecord(history, i, q) && q.id == s.id && Keeps(entry.value, q, history[i].options);
      forall j, r | IsRecord(history, j, r) && r.id == s.id
        ensures j == i && r == q
      {
        RecordIsUnique(history, i, q, j, r);
      }
    }
  }

  lemma NoRecordYet(run: Run)
    ensures forall s :: !HasRecordAbove([], run, s)
  {
  }

  /**
   What the lane is for: after any history, a run fails exactly when the last `required` counting runs
   exist and were all stable, and some module now scores below its record under the same tool and config.
   */
  lemma FailureIsEarned(history: seq<Run>, run: Run, required: nat)
    requires WellFormed(history)
    ensures var c := Counting(history);
      EvaluateRatchet(run.scores, After(required, history), ProvenanceOf(run)).failed <==>
        && required <= |c| && (forall i :: |c| - required <= i < |c| ==> StableRun(history, c[i]))
        && exists s :: Measures(run, s) && HasRecordAbove(history, run, s)
  {
    hide IsRecord, EntryIsRecord, StableRun, Counting, FellBelow;
    var b := After(required, history);
    if history == [] {
      NoRecordYet(run);
    } else {
      GatingIsEarned(history, required);
    }
    forall i | 0 <= i < |run.scores|
      ensures FellBelow(run.scores[i], Lookup(b.modules, run.scores[i].id), ProvenanceOf(run)) <==>
              HasRecordAbove(history, run, run.scores[i])
    {
      var s := run.scores[i];
      BaselineHoldsRecords(history, required, s.id);
      FallingIsBelowRecord(history, run, s, Lookup(b.modules, s.id));
    }
    assert forall s :: Measures(run, s) <==> exists i :: 0 <= i < |run.scores| && run.scores[i] == s;
  }
}

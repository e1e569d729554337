/** The two-provider acceptance protocol: a prepared checkpoint, one acceptance by each provider in the
    protected order, and the final verification, with a host that may rewrite the project at any time. */
module Acceptance {
  import opened Bytes
  import opened Options

  datatype Provider = Claude | Codex

  type Blob = seq<Byte>

  /** Who closed the latest gate. */
  datatype Prior = Nobody | By(provider: Provider)

  /** One entry of the gate history; the file is only known to hold a list of something. */
  datatype Item = NotAMapping | Gate(gate: string, status: string, evidencePath: string, evidenceSha: string)

  datatype Pipeline = Pipeline(status: string, stage: string, gateDigest: string, orderedGates: seq<string>,
                               history: seq<Item>)

  datatype Evidence = Evidence(provider: Option<Provider>, gate: string, noFindings: bool, receiptSha: string)

  /** What a host reported of the pipeline. Receipts hold commitments to these values; commitments are
      equal exactly when the values are, so the values stand for them here. */
  datatype Observed = Observed(stage: string, count: nat, prior: Prior, gateDigest: string)

  datatype Receipt = Receipt(provider: Provider, observed: Observed, rest: string)

  /** The digest, the parsers and the kit's strict validation of a snapshot with the evidence beside it;
      a parser yields nothing when the file breaks its contract. */
  datatype Codec = Codec(sha: Blob -> string, pipeline: Blob -> Option<Pipeline>, evidence: Blob -> Option<Evidence>,
                         receipt: Blob -> Option<Receipt>, writeReceipt: Receipt -> Blob,
                         writeEvidence: Evidence -> Blob, inRoot: string -> bool, evidenceFile: Provider -> string,
                         validate: (Blob, map<string, Blob>) -> bool)

  ghost predicate Sound(cd: Codec)
  {
    && (forall x, y :: cd.sha(x) == cd.sha(y) ==> x == y)
    && (forall r :: cd.receipt(cd.writeReceipt(r)) == Some(r))
  }

  /** The validation refuses a history with an entry that is not a mapping. */
  ghost predicate RefusesJunk(cd: Codec)
  {
    forall snapshot, evidence :: cd.validate(snapshot, evidence) && cd.pipeline(snapshot).Some? ==>
      NotAMapping !in cd.pipeline(snapshot).value.history
  }

  const GATES := ["code-review", "build-green"]

  /** The protected direction: which provider goes first. */
  function Second(first: Provider): Provider { if first.Claude? then Codex else Claude }

  function Index(first: Provider, p: Provider): nat { if p == first then 0 else 1 }

  function At(first: Provider, i: nat): Provider { if i == 0 then first else Second(first) }

  /** The project files a host can write, and the control files it cannot. */
  datatype State = State(first: Provider, snapshot: Blob, evidence: map<string, Blob>,
                         checkpoints: map<Provider, string>, receipts: map<Provider, Blob>)

  /** What the gate commands leave, and whether all of them exit with success. */
  datatype Closed = Closed(ok: bool, snapshot: Blob, evidence: map<string, Blob>)

  /** Everything an acceptance takes from outside: the host's report, whether the checks of its
      commitments, hook events and project files pass, and what the gate commands make of the project
      files they find. */
  datatype Attempt = Attempt(provider: Provider, observed: Observed, hostOk: bool, rest: string,
                             close: (Blob, map<string, Blob>) -> Closed)

  /** The provider of the latest gate, or nothing when its evidence does not say. */
  function PriorProvider(cd: Codec, p: Pipeline, evidence: map<string, Blob>): Option<Prior>
  {
    if p.history == [] then Some(Nobody)
    else
      var last := p.history[|p.history| - 1];
      if last.NotAMapping? || !cd.inRoot(last.evidencePath) || last.evidencePath !in evidence then None
      else
        var e := cd.evidence(evidence[last.evidencePath]);
        if e.None? || e.value.provider.None? then None else Some(By(e.value.provider.value))
  }

  predicate Authorized(cd: Codec, s: State, p: Provider)
  {
    p in s.checkpoints && s.checkpoints[p] == cd.sha(s.snapshot)
  }

  predicate ObservationMatches(cd: Codec, s: State, o: Observed)
  {
    var p := cd.pipeline(s.snapshot);
    p.Some? && PriorProvider(cd, p.value, s.evidence).Some?
    && o == Observed(p.value.stage, |p.value.history|, PriorProvider(cd, p.value, s.evidence).value, p.value.gateDigest)
  }

  predicate Ready(cd: Codec, s: State, provider: Provider)
  {
    var p := cd.pipeline(s.snapshot);
    var i := Index(s.first, provider);
    p.Some? && p.value.status == "active" && p.value.stage == GATES[i] && |p.value.history| == i
    && PriorProvider(cd, p.value, s.evidence) == Some(if i == 0 then Nobody else By(s.first))
  }

  function ReceiptFor(a: Attempt): Receipt { Receipt(a.provider, a.observed, a.rest) }

  /** Whether an acceptance gets as far as writing its receipt. */
  predicate WritesReceipt(cd: Codec, s: State, a: Attempt)
  {
    Authorized(cd, s, a.provider) && a.hostOk && ObservationMatches(cd, s, a.observed) && a.provider !in s.receipts
  }

  /** The evidence an acceptance writes for its gate. */
  function EvidenceFor(cd: Codec, first: Provider, a: Attempt): Blob
  {
    var receipt := cd.writeReceipt(ReceiptFor(a));
    cd.writeEvidence(Evidence(Some(a.provider), GATES[Index(first, a.provider)], true, cd.sha(receipt)))
  }

  /** The gate commands, on the snapshot and with the new evidence file in place. */
  function GateRun(cd: Codec, s: State, a: Attempt): Closed
  {
    a.close(s.snapshot, s.evidence[cd.evidenceFile(a.provider) := EvidenceFor(cd, s.first, a)])
  }

  predicate GateCloses(cd: Codec, s: State, a: Attempt)
  {
    GateRun(cd, s, a).ok && cd.validate(GateRun(cd, s, a).snapshot, GateRun(cd, s, a).evidence)
  }

  /** One acceptance: the state it leaves and whether it succeeded. */
  function AcceptStep(cd: Codec, s: State, a: Attempt): (State, bool)
  {
    if !WritesReceipt(cd, s, a) then (s, false)
    else
      var s1 := s.(receipts := s.receipts[a.provider := cd.writeReceipt(ReceiptFor(a))]);
      if !Ready(cd, s, a.provider) || cd.evidenceFile(a.provider) in s.evidence then (s1, false)
      else
        var g := GateRun(cd, s, a);
        var s2 := s1.(snapshot := g.snapshot, evidence := g.evidence);
        if !GateCloses(cd, s, a) then (s2, false)
        else if a.provider == s.first
        then (s2.(checkpoints := s2.checkpoints[Second(s.first) := cd.sha(g.snapshot)]), true)
        else (s2, true)
  }

  predicate ReceiptProves(cd: Codec, s: State, i: nat)
    requires i < 2
  {
    var p := At(s.first, i);
    p in s.receipts && cd.receipt(s.receipts[p]).Some?
    && var r := cd.receipt(s.receipts[p]).value;
       r.provider == p && r.observed.stage == GATES[i] && r.observed.count == i
       && r.observed.prior == if i == 0 then Nobody else By(s.first)
  }

  function Gates(history: seq<Item>): seq<string>
  {
    if history == [] then []
    else (if history[0].Gate? then [history[0].gate] else []) + Gates(history[1..])
  }

  predicate Bound(cd: Codec, s: State, history: seq<Item>, i: nat)
    requires i < 2
  {
    var p := At(s.first, i);
    i < |history| && history[i].Gate? && p in s.receipts && history[i].evidencePath in s.evidence
    && var blob := s.evidence[history[i].evidencePath];
       var e := cd.evidence(blob);
       e.Some? && history[i].status == "passed" && history[i].evidenceSha == cd.sha(blob)
       && e.value.provider == Some(p) && e.value.gate == history[i].gate && e.value.noFindings
       && e.value.receiptSha == cd.sha(s.receipts[p])
  }

  /** The final verification; `othersOk` stands for its checks of static commitments and hook events. */
  predicate Verifies(cd: Codec, s: State, othersOk: bool)
  {
    var p := cd.pipeline(s.snapshot);
    && othersOk && ReceiptProves(cd, s, 0) && ReceiptProves(cd, s, 1)
    && cd.validate(s.snapshot, s.evidence) && p.Some?
    && (forall i :: 0 <= i < 2 ==>
          cd.receipt(s.receipts[At(s.first, i)]).value.observed.gateDigest == p.value.gateDigest)
    && p.value.status == "completed" && p.value.stage == "completed"
    && p.value.orderedGates == GATES && Gates(p.value.history) == GATES
    && Bound(cd, s, p.value.history, 0) && Bound(cd, s, p.value.history, 1)
  }

  /** The files as the scripts find and leave them. */
  class Fixture {
    const first: Provider
    var snapshot: Blob
    var evidence: map<string, Blob>
    var checkpoints: map<Provider, string>
    var receipts: map<Provider, Blob>

    /** `prepare`: only the first provider is authorised, on the snapshot as it is. */
    constructor (cd: Codec, first: Provider, snapshot: Blob)
      ensures View() == Prepared(cd, first, snapshot)
    {
      this.first := first;
      this.snapshot := snapshot;
      evidence, checkpoints, receipts := map[], map[first := cd.sha(snapshot)], map[];
    }

    ghost function View(): State
      reads this
    {
      State(first, snapshot, evidence, checkpoints, receipts)
    }

    /** A host, or anything else that can write the project. */
    method HostWrites(snapshot: Blob, evidence: map<string, Blob>)
      modifies this`snapshot, this`evidence
      ensures View() == old(View()).(snapshot := snapshot, evidence := evidence)
    {
      this.snapshot, this.evidence := snapshot, evidence;
    }

    method Accept(cd: Codec, a: Attempt) returns (ok: bool)
      modifies this
      ensures (View(), ok) == AcceptStep(cd, old(View()), a)
    {
      if a.provider !in checkpoints || checkpoints[a.provider] != cd.sha(snapshot) {
        return false;
      }
      var pipeline := cd.pipeline(snapshot);
      if !a.hostOk || pipeline.None? {
        return false;
      }
      var p := pipeline.value;
      var prior := PriorProvider(cd, p, evidence);
      if prior.None? || a.observed != Observed(p.stage, |p.history|, prior.value, p.gateDigest) {
        return false;
      }
      if a.provider in receipts {
        return false;
      }
      receipts := receipts[a.provider := cd.writeReceipt(Receipt(a.provider, a.observed, a.rest))];
      var i := if a.provider == first then 0 else 1;
      if p.status != "active" || p.stage != GATES[i] || |p.history| != i
         || prior.value != (if i == 0 then Nobody else By(first)) {
        return false;
      }
      if cd.evidenceFile(a.provider) in evidence {
        return false;
      }
      evidence := evidence[cd.evidenceFile(a.provider) :=
        cd.writeEvidence(Evidence(Some(a.provider), GATES[i], true, cd.sha(receipts[a.provider])))];
      var closed := a.close(snapshot, evidence);
      snapshot, evidence := closed.snapshot, closed.evidence;
      if !closed.ok || !cd.validate(snapshot, evidence) {
        return false;
      }
      if i == 0 {
        checkpoints := checkpoints[Second(first) := cd.sha(snapshot)];
      }
      return true;
    }
  }

  function Prepared(cd: Codec, first: Provider, snapshot: Blob): State
  {
    State(first, snapshot, map[], map[first := cd.sha(snapshot)], map[])
  }

  // ---------------------------------------------------------------------------------------------
  // Runs, with a record of what each acceptance saw.

  datatype Action = Host(snapshot: Blob, evidence: map<string, Blob>) | Accept(a: Attempt) | Verify(othersOk: bool)

  /** A receipt as it was written, and the snapshot it was written on. */
  datatype Entry = Entry(provider: Provider, seen: Blob, receipt: Blob)

  /** `left` is the snapshot that the first provider's acceptance ended with. */
  datatype Trace = Trace(s: State, log: seq<Entry>, left: Option<Blob>)

  function Next(cd: Codec, t: Trace, action: Action): Trace
  {
    match action
    case Host(snapshot, evidence) => t.(s := t.s.(snapshot := snapshot, evidence := evidence))
    case Verify(_) => t
    case Accept(a) =>
      var (s, ok) := AcceptStep(cd, t.s, a);
      Trace(s,
            if WritesReceipt(cd, t.s, a)
            then t.log + [Entry(a.provider, t.s.snapshot, cd.writeReceipt(ReceiptFor(a)))] else t.log,
            if ok && a.provider == t.s.first then Some(s.snapshot) else t.left)
  }

  function RunFrom(cd: Codec, first: Provider, snapshot: Blob, actions: seq<Action>): Trace
  {
    if actions == [] then Trace(Prepared(cd, first, snapshot), [], None)
    else Next(cd, RunFrom(cd, first, snapshot, actions[..|actions| - 1]), actions[|actions| - 1])
  }

  /** An entry describes the pipeline it was written on. */
  ghost predicate SawPipeline(cd: Codec, e: Entry)
  {
    && cd.receipt(e.receipt).Some? && cd.pipeline(e.seen).Some?
    && var r, p := cd.receipt(e.receipt).value, cd.pipeline(e.seen).value;
       r.provider == e.provider && r.observed.stage == p.stage && r.observed.count == |p.history|
       && r.observed.gateDigest == p.gateDigest
  }

  /** What every run keeps, from a fixture prepared on `snapshot`. */
  ghost predicate Invariant(cd: Codec, snapshot: Blob, t: Trace)
  {
    var first, second := t.s.first, Second(t.s.first);
    && |t.log| <= 2
    && (forall i :: 0 <= i < |t.log| ==> t.log[i].provider == At(first, i) && SawPipeline(cd, t.log[i]))
    && t.s.receipts.Keys == (set i | 0 <= i < |t.log| :: t.log[i].provider)
    && (forall i :: 0 <= i < |t.log| ==> t.s.receipts[t.log[i].provider] == t.log[i].receipt)
    && first in t.s.checkpoints && t.s.checkpoints[first] == cd.sha(snapshot)
    && (second in t.s.checkpoints <==> t.left.Some?)
    && (t.left.Some? ==> |t.log| > 0 && t.s.checkpoints[second] == cd.sha(t.left.value))
    && (|t.log| > 0 ==> t.log[0].seen == snapshot)
    && (|t.log| > 1 ==> t.left == Some(t.log[1].seen))
  }

  lemma AcceptKeepsInvariant(cd: Codec, snapshot: Blob, t: Trace, a: Attempt)
    requires Sound(cd) && Invariant(cd, snapshot, t)
    ensures Invariant(cd, snapshot, Next(cd, t, Accept(a)))
  {
    if WritesReceipt(cd, t.s, a) {
      NewEntry(cd, snapshot, t, a);
    }
  }

  /** A provider without a receipt is the one whose turn it is. */
  lemma TurnOf(cd: Codec, snapshot: Blob, t: Trace, p: Provider)
    requires Invariant(cd, snapshot, t) && p !in t.s.receipts
    requires p == Second(t.s.first) ==> |t.log| > 0
    ensures |t.log| < 2 && p == At(t.s.first, |t.log|)
  {
    hide SawPipeline;
    forall i | 0 <= i < |t.log| ensures At(t.s.first, i) in t.s.receipts {
      assert t.log[i].provider in t.s.receipts.Keys;
    }
  }

  lemma NewEntry(cd: Codec, snapshot: Blob, t: Trace, a: Attempt)
    requires Sound(cd) && Invariant(cd, snapshot, t) && WritesReceipt(cd, t.s, a)
    ensures Invariant(cd, snapshot, Next(cd, t, Accept(a)))
  {
    var e := Entry(a.provider, t.s.snapshot, cd.writeReceipt(ReceiptFor(a)));
    var t' := Next(cd, t, Accept(a));
    assert SawPipeline(cd, e);
    assert a.provider in t.s.checkpoints && t.s.checkpoints[a.provider] == cd.sha(t.s.snapshot);
    TurnOf(cd, snapshot, t, a.provider);
    assert t'.log == t.log + [e] && t'.s.receipts == t.s.receipts[a.provider := e.receipt];
    hide SawPipeline, WritesReceipt, Ready;
    KeysGrow(t.log, e, t.s.receipts);
  }

  lemma KeysGrow(log: seq<Entry>, e: Entry, receipts: map<Provider, Blob>)
    requires receipts.Keys == set i | 0 <= i < |log| :: log[i].provider
    ensures receipts[e.provider := e.receipt].Keys == set i | 0 <= i < |log + [e]| :: (log + [e])[i].provider
  {
    var grown := log + [e];
    var keys, names := receipts[e.provider := e.receipt].Keys, set i | 0 <= i < |grown| :: grown[i].provider;
    assert grown[|log|].provider == e.provider;
    forall p | p in keys ensures p in names {
      if p in receipts {
        var i :| 0 <= i < |log| && log[i].provider == p;
        assert grown[i].provider == p;
      }
    }
    forall p | p in names ensures p in keys {
      var i :| 0 <= i < |grown| && grown[i].provider == p;
      assert i < |log| ==> log[i].provider in receipts.Keys;
    }
  }

  /** Every run keeps the invariant, whatever is written to the project in between. */
  lemma {:induction false} RunKeepsInvariant(cd: Codec, first: Provider, snapshot: Blob, actions: seq<Action>)
    requires Sound(cd)
    ensures RunFrom(cd, first, snapshot, actions).s.first == first
    ensures Invariant(cd, snapshot, RunFrom(cd, first, snapshot, actions))
  {
    if actions != [] {
      var front, action := actions[..|actions| - 1], actions[|actions| - 1];
      RunKeepsInvariant(cd, first, snapshot, front);
      if action.Accept? { AcceptKeepsInvariant(cd, snapshot, RunFrom(cd, first, snapshot, front), action.a); }
    }
  }

  /** Acceptance is in order and only on authorised bytes: the first receipt was written on the very
      snapshot that was prepared, the second one after it and on the very snapshot the first left. */
  lemma AcceptedInOrder(cd: Codec, first: Provider, snapshot: Blob, actions: seq<Action>)
    requires Sound(cd)
    ensures var t := RunFrom(cd, first, snapshot, actions);
            && (forall p :: p in t.s.receipts ==>
                  exists i :: 0 <= i < |t.log| <= 2 && i == Index(first, p)
                              && t.log[i].provider == p && t.log[i].receipt == t.s.receipts[p])
            && (first in t.s.receipts ==> t.log[0].seen == snapshot)
            && (Second(first) in t.s.receipts ==> first in t.s.receipts && t.left == Some(t.log[1].seen))
  {
    RunKeepsInvariant(cd, first, snapshot, actions);
    var t := RunFrom(cd, first, snapshot, actions);
    forall p | p in t.s.receipts
      ensures exists i :: 0 <= i < |t.log| <= 2 && i == Index(first, p)
                          && t.log[i].provider == p && t.log[i].receipt == t.s.receipts[p]
    {
      var i :| 0 <= i < |t.log| && t.log[i].provider == p;
      assert i == Index(first, p);
    }
  }

  lemma StepKeepsReceipts(cd: Codec, t: Trace, action: Action)
    ensures forall p :: p in t.s.receipts ==>
              p in Next(cd, t, action).s.receipts && Next(cd, t, action).s.receipts[p] == t.s.receipts[p]
  {}

  /** A receipt, once written, is never replaced or removed. */
  lemma {:induction false} ReceiptsNeverReplaced(cd: Codec, first: Provider, snapshot: Blob, actions: seq<Action>,
                                                 more: seq<Action>, p: Provider)
    requires p in RunFrom(cd, first, snapshot, actions).s.receipts
    ensures p in RunFrom(cd, first, snapshot, actions + more).s.receipts
    ensures RunFrom(cd, first, snapshot, actions + more).s.receipts[p]
            == RunFrom(cd, first, snapshot, actions).s.receipts[p]
    decreases |more|
  {
    hide Next;
    if more == [] {
      assert actions + more == actions;
    } else {
      var front := more[..|more| - 1];
      ReceiptsNeverReplaced(cd, first, snapshot, actions, front, p);
      assert (actions + more)[..|actions + more| - 1] == actions + front;
      StepKeepsReceipts(cd, RunFrom(cd, first, snapshot, actions + front), more[|more| - 1]);
    }
  }

  /** In any run an acceptance succeeds exactly when it is the provider's turn, the snapshot is, byte
      for byte, the prepared one for the first provider and the one the first left for the second, the
      pipeline on it stands at the provider's gate with the other's before it, the host reported just
      that, and the gate closes over evidence that is new. */
  lemma AcceptanceConditions(cd: Codec, first: Provider, snapshot: Blob, actions: seq<Action>, a: Attempt)
    requires Sound(cd)
    ensures var t := RunFrom(cd, first, snapshot, actions);
            var i := Index(first, a.provider);
            AcceptStep(cd, t.s, a).1 <==>
            && |t.log| == i && (if i == 0 then Some(snapshot) else t.left) == Some(t.s.snapshot)
            && a.hostOk && cd.pipeline(t.s.snapshot).Some?
            && (var p := cd.pipeline(t.s.snapshot).value;
                && p.status == "active" && p.stage == GATES[i] && |p.history| == i
                && PriorProvider(cd, p, t.s.evidence) == Some(if i == 0 then Nobody else By(first))
                && a.observed == Observed(GATES[i], i, if i == 0 then Nobody else By(first), p.gateDigest))
            && cd.evidenceFile(a.provider) !in t.s.evidence && GateCloses(cd, t.s, a)
  {
    var t := RunFrom(cd, first, snapshot, actions);
    RunKeepsInvariant(cd, first, snapshot, actions);
    hide RunFrom, GateCloses, SawPipeline, PriorProvider;
    ItsTurn(cd, snapshot, t, a.provider);
  }

  /** A provider is authorised and has no receipt exactly when it is its turn on the right snapshot. */
  lemma ItsTurn(cd: Codec, snapshot: Blob, t: Trace, p: Provider)
    requires Sound(cd) && Invariant(cd, snapshot, t)
    ensures Authorized(cd, t.s, p) && p !in t.s.receipts <==>
            |t.log| == Index(t.s.first, p) && (if p == t.s.first then Some(snapshot) else t.left) == Some(t.s.snapshot)
  {
    hide SawPipeline;
    if p !in t.s.receipts && (p == Second(t.s.first) ==> |t.log| > 0) { TurnOf(cd, snapshot, t, p); }
    if p in t.s.receipts {
      assert p in t.s.receipts.Keys;
      var i :| 0 <= i < |t.log| && t.log[i].provider == p;
      assert i == Index(t.s.first, p);
    }
  }

  /** The second provider's acceptance can succeed only after the first's has, on the very snapshot that
      one's gate commands left. */
  lemma SecondNeedsFirst(cd: Codec, first: Provider, snapshot: Blob, actions: seq<Action>, b: Attempt)
    requires Sound(cd) && b.provider == Second(first)
    requires AcceptStep(cd, RunFrom(cd, first, snapshot, actions).s, b).1
    ensures exists n, a :: 0 <= n < |actions| && FirstSucceeds(cd, first, snapshot, actions, n, a)
                           && GateRun(cd, RunFrom(cd, first, snapshot, actions[..n]).s, a).snapshot
                              == RunFrom(cd, first, snapshot, actions).s.snapshot
  {
    AcceptanceConditions(cd, first, snapshot, actions, b);
    var n, a := LeftByFirst(cd, first, snapshot, actions);
  }

  ghost predicate FirstSucceeds(cd: Codec, first: Provider, snapshot: Blob, actions: seq<Action>, n: nat, a: Attempt)
    requires n < |actions|
  {
    actions[n] == Accept(a) && a.provider == first && AcceptStep(cd, RunFrom(cd, first, snapshot, actions[..n]).s, a).1
  }

  lemma {:induction false} LeftByFirst(cd: Codec, first: Provider, snapshot: Blob, actions: seq<Action>)
    returns (n: nat, a: Attempt)
    requires Sound(cd) && RunFrom(cd, first, snapshot, actions).left.Some?
    ensures n < |actions| && FirstSucceeds(cd, first, snapshot, actions, n, a)
    ensures RunFrom(cd, first, snapshot, actions).left
            == Some(GateRun(cd, RunFrom(cd, first, snapshot, actions[..n]).s, a).snapshot)
  {
    hide WritesReceipt, Ready, GateCloses;
    var front, action := actions[..|actions| - 1], actions[|actions| - 1];
    RunKeepsInvariant(cd, first, snapshot, front);
    var t := RunFrom(cd, first, snapshot, front);
    if action.Accept? && action.a.provider == first && AcceptStep(cd, t.s, action.a).1 {
      n, a := |front|, action.a;
    } else {
      n, a := LeftByFirst(cd, first, snapshot, front);
      assert actions[..n] == front[..n] && actions[n] == front[n];
    }
  }

  /** An acceptance that fails after writing its receipt can never be repeated: from then on the
      provider is refused, and refused without a trace, whatever the host does. */
  lemma FailedAdvanceIsFinal(cd: Codec, first: Provider, snapshot: Blob, actions: seq<Action>, a: Attempt,
                             more: seq<Action>, again: Attempt)
    requires WritesReceipt(cd, RunFrom(cd, first, snapshot, actions).s, a) && again.provider == a.provider
    ensures var t := RunFrom(cd, first, snapshot, actions + [Accept(a)] + more);
            AcceptStep(cd, t.s, again) == (t.s, false)
  {
    var run := actions + [Accept(a)];
    assert run[..|run| - 1] == actions;
    ReceiptsNeverReplaced(cd, first, snapshot, run, more, a.provider);
  }

  // ---------------------------------------------------------------------------------------------
  // What a passing verification means.

  lemma {:induction false} GatesAfterTwo(history: seq<Item>)
    requires Gates(history) == []
    ensures forall i :: 0 <= i < |history| ==> history[i].NotAMapping?
  {
    if history != [] { GatesAfterTwo(history[1..]); }
  }

  /** A verified history begins with the two gates in order, and holds nothing else once the strict
      validation refuses entries that are no mappings. */
  lemma HistoryIsTwoGates(cd: Codec, s: State, othersOk: bool)
    requires Verifies(cd, s, othersOk)
    ensures var h := cd.pipeline(s.snapshot).value.history;
            && |h| >= 2 && h[0].Gate? && h[1].Gate? && h[0].gate == GATES[0] && h[1].gate == GATES[1]
            && (forall i :: 2 <= i < |h| ==> h[i].NotAMapping?)
            && (RefusesJunk(cd) ==> |h| == 2)
  {
    var h := cd.pipeline(s.snapshot).value.history;
    assert Gates(h) == [h[0].gate] + Gates(h[1..]);
    assert Gates(h[1..]) == [h[1].gate] + Gates(h[1..][1..]);
    assert h[1..][1..] == h[2..];
    var rest := Gates(h[2..]);
    assert Gates(h) == [h[0].gate, h[1].gate] + rest;
    assert |rest| == 0 && Gates(h)[0] == h[0].gate && Gates(h)[1] == h[1].gate;
    GatesAfterTwo(h[2..]);
    forall i | 2 <= i < |h| ensures h[i].NotAMapping? { assert h[i] == h[2..][i - 2]; }
    if |h| > 2 { assert h[2] in h; }
  }

  lemma {:induction false} GatesSkipJunk(history: seq<Item>, junk: seq<Item>)
    requires forall i :: 0 <= i < |junk| ==> junk[i].NotAMapping?
    ensures Gates(history + junk) == Gates(history)
    decreases |history| + |junk|
  {
    if history != [] {
      GatesSkipJunk(history[1..], junk);
      assert (history + junk)[1..] == history[1..] + junk;
    } else if junk != [] {
      GatesSkipJunk(history, junk[1..]);
      assert history + junk == junk && history + junk[1..] == junk[1..];
    }
  }

  /** Entries that are no mappings, behind a verified history: the script's own comparison of the gates
      does not see them, so the verdict is that of the strict validation alone. */
  lemma JunkIsLeftToValidation(cd: Codec, s: State, snapshot: Blob, junk: seq<Item>, othersOk: bool)
    requires Verifies(cd, s, othersOk) && forall i :: 0 <= i < |junk| ==> junk[i].NotAMapping?
    requires var p := cd.pipeline(s.snapshot).value;
             cd.pipeline(snapshot) == Some(p.(history := p.history + junk))
    ensures Verifies(cd, s.(snapshot := snapshot), othersOk) <==> cd.validate(snapshot, s.evidence)
    ensures RefusesJunk(cd) && junk != [] ==> !Verifies(cd, s.(snapshot := snapshot), othersOk)
  {
    GatesSkipJunk(cd.pipeline(s.snapshot).value.history, junk);
    if junk != [] { assert junk[0] in cd.pipeline(snapshot).value.history; }
  }

  /** Gate `i` is recorded as passed over a file that is still there byte for byte, with no open finding,
      by the entry's provider for the entry's receipt; the entry was written on a pipeline that stood at
      that gate under the same gate definitions, and its receipt says so. */
  ghost predicate ClosedOver(cd: Codec, s: State, i: nat, e: Entry)
    requires i < 2
  {
    && cd.pipeline(s.snapshot).Some? && cd.pipeline(e.seen).Some? && cd.receipt(e.receipt).Some?
    && var p, seen, r := cd.pipeline(s.snapshot).value, cd.pipeline(e.seen).value, cd.receipt(e.receipt).value;
       && i < |p.history| && p.history[i].Gate? && p.history[i].gate == GATES[i] && p.history[i].status == "passed"
       && p.history[i].evidencePath in s.evidence
       && var file := s.evidence[p.history[i].evidencePath];
          && p.history[i].evidenceSha == cd.sha(file)
          && cd.evidence(file) == Some(Evidence(Some(e.provider), GATES[i], true, cd.sha(e.receipt)))
          && seen.stage == GATES[i] && |seen.history| == i && seen.gateDigest == p.gateDigest
          && r.provider == e.provider
          && r.observed == Observed(GATES[i], i, if i == 0 then Nobody else By(s.first), p.gateDigest)
  }

  /** The pipeline is over, through the two gates in order, and the project passes the strict validation. */
  ghost predicate Finished(cd: Codec, s: State)
  {
    && cd.validate(s.snapshot, s.evidence) && cd.pipeline(s.snapshot).Some?
    && var p := cd.pipeline(s.snapshot).value;
       p.status == "completed" && p.stage == "completed" && p.orderedGates == ["code-review", "build-green"]
  }

  /** In any run a verification passes exactly when the outside checks do, both providers have been
      accepted, the pipeline is finished, both gates were passed over unchanged evidence of the provider
      whose turn it was and of the very receipt that its acceptance wrote, and nothing but entries that
      are no mappings follows them. The first acceptance then saw the prepared snapshot before any gate
      was closed, and the second saw what the first left, after exactly one. */
  lemma VerifiedRun(cd: Codec, first: Provider, snapshot: Blob, actions: seq<Action>, othersOk: bool)
    requires Sound(cd)
    ensures var t := RunFrom(cd, first, snapshot, actions);
            Verifies(cd, t.s, othersOk) <==>
            && othersOk && |t.log| == 2 && Finished(cd, t.s)
            && ClosedOver(cd, t.s, 0, t.log[0]) && ClosedOver(cd, t.s, 1, t.log[1])
            && forall i :: 2 <= i < |cd.pipeline(t.s.snapshot).value.history| ==>
                 cd.pipeline(t.s.snapshot).value.history[i].NotAMapping?
    ensures var t := RunFrom(cd, first, snapshot, actions);
            Verifies(cd, t.s, othersOk) ==>
            && t.log[0].provider == first && t.log[1].provider == Second(first)
            && t.log[0].seen == snapshot && t.left == Some(t.log[1].seen)
            && (RefusesJunk(cd) ==> |cd.pipeline(t.s.snapshot).value.history| == 2)
  {
    var t := RunFrom(cd, first, snapshot, actions);
    RunKeepsInvariant(cd, first, snapshot, actions);
    hide RunFrom, Sound, RefusesJunk;
    if Verifies(cd, t.s, othersOk) {
      assert Finished(cd, t.s);
      hide Verifies, Invariant, SawPipeline, ClosedOver, Finished;
      HistoryIsTwoGates(cd, t.s, othersOk);
      BothEntries(cd, snapshot, t, othersOk);
      VerifiedEntry(cd, t.s, othersOk, t.log[0], 0);
      VerifiedEntry(cd, t.s, othersOk, t.log[1], 1);
    } else if othersOk && |t.log| == 2 && Finished(cd, t.s)
              && ClosedOver(cd, t.s, 0, t.log[0]) && ClosedOver(cd, t.s, 1, t.log[1]) {
      hide Verifies;
      if forall i :: 2 <= i < |cd.pipeline(t.s.snapshot).value.history| ==>
           cd.pipeline(t.s.snapshot).value.history[i].NotAMapping? {
        BothClosedVerify(cd, snapshot, t);
      }
    }
  }

  lemma {:induction false} OnlyJunkHasNoGates(history: seq<Item>)
    requires forall i :: 0 <= i < |history| ==> history[i].NotAMapping?
    ensures Gates(history) == []
  {
    if history != [] { OnlyJunkHasNoGates(history[1..]); }
  }

  lemma BothClosedVerify(cd: Codec, snapshot: Blob, t: Trace)
    requires Invariant(cd, snapshot, t) && |t.log| == 2 && Finished(cd, t.s)
    requires ClosedOver(cd, t.s, 0, t.log[0]) && ClosedOver(cd, t.s, 1, t.log[1])
    requires forall i :: 2 <= i < |cd.pipeline(t.s.snapshot).value.history| ==>
               cd.pipeline(t.s.snapshot).value.history[i].NotAMapping?
    ensures Verifies(cd, t.s, true)
  {
    var h := cd.pipeline(t.s.snapshot).value.history;
    assert t.log[0].provider == At(t.s.first, 0) && t.log[1].provider == At(t.s.first, 1);
    EntryIsReceipt(cd, snapshot, t, 0);
    EntryIsReceipt(cd, snapshot, t, 1);
    hide Invariant, SawPipeline;
    assert Gates(h) == [h[0].gate] + Gates(h[1..]) && Gates(h[1..]) == [h[1].gate] + Gates(h[1..][1..]);
    assert h[1..][1..] == h[2..];
    OnlyJunkHasNoGates(h[2..]);
    assert Bound(cd, t.s, h, 0) && Bound(cd, t.s, h, 1);
  }

  lemma EntryIsReceipt(cd: Codec, snapshot: Blob, t: Trace, i: nat)
    requires Invariant(cd, snapshot, t) && i < |t.log|
    ensures t.log[i].provider in t.s.receipts && t.s.receipts[t.log[i].provider] == t.log[i].receipt
  {
    assert t.log[i].provider in t.s.receipts.Keys;
  }

  lemma BothEntries(cd: Codec, snapshot: Blob, t: Trace, othersOk: bool)
    requires Invariant(cd, snapshot, t) && Verifies(cd, t.s, othersOk)
    ensures |t.log| == 2 && t.log[0].seen == snapshot && t.left == Some(t.log[1].seen)
    ensures forall i :: 0 <= i < 2 ==>
              && t.log[i].provider == At(t.s.first, i) && SawPipeline(cd, t.log[i]) && cd.pipeline(t.log[i].seen).Some?
              && t.log[i].provider in t.s.receipts && t.s.receipts[t.log[i].provider] == t.log[i].receipt
  {
    assert At(t.s.first, 0) in t.s.receipts && At(t.s.first, 1) in t.s.receipts;
    var i :| 0 <= i < |t.log| && t.log[i].provider == At(t.s.first, 1);
    assert i == 1;
  }

  lemma VerifiedEntry(cd: Codec, s: State, othersOk: bool, e: Entry, i: nat)
    requires i < 2 && Verifies(cd, s, othersOk) && SawPipeline(cd, e)
    requires e.provider == At(s.first, i) && e.provider in s.receipts && s.receipts[e.provider] == e.receipt
    ensures ClosedOver(cd, s, i, e)
  {
    HistoryIsTwoGates(cd, s, othersOk);
    assert Bound(cd, s, cd.pipeline(s.snapshot).value.history, i);
    assert ReceiptProves(cd, s, i);
  }

  /** A verified state is bound to its evidence: with any other bytes in the file of either gate it does
      not verify. */
  lemma TamperedEvidenceFails(cd: Codec, s: State, othersOk: bool, i: nat, blob: Blob)
    requires Sound(cd) && i < 2 && Verifies(cd, s, othersOk)
    ensures var h := cd.pipeline(s.snapshot).value.history;
            && i < |h| && h[i].Gate? && h[i].evidencePath in s.evidence
            && var tampered := s.(evidence := s.evidence[h[i].evidencePath := blob]);
               blob != s.evidence[h[i].evidencePath] ==> !Verifies(cd, tampered, othersOk)
  {
    var h := cd.pipeline(s.snapshot).value.history;
    assert Bound(cd, s, h, i);
    var tampered := s.(evidence := s.evidence[h[i].evidencePath := blob]);
    assert Verifies(cd, tampered, othersOk) ==> Bound(cd, tampered, h, i);
    assert Bound(cd, tampered, h, i) ==> cd.sha(blob) == cd.sha(s.evidence[h[i].evidencePath]);
    hide Verifies, Bound;
  }

  /** It is bound to its receipts as well. */
  lemma TamperedReceiptFails(cd: Codec, s: State, othersOk: bool, p: Provider, blob: Blob)
    requires Sound(cd) && Verifies(cd, s, othersOk)
    ensures p in s.receipts
    ensures blob != s.receipts[p] ==> !Verifies(cd, s.(receipts := s.receipts[p := blob]), othersOk)
  {
    var h, i := cd.pipeline(s.snapshot).value.history, Index(s.first, p);
    assert p == At(s.first, i) && Bound(cd, s, h, i);
    var tampered := s.(receipts := s.receipts[p := blob]);
    assert Verifies(cd, tampered, othersOk) ==> Bound(cd, tampered, h, i);
    assert Bound(cd, tampered, h, i) ==> cd.sha(blob) == cd.sha(s.receipts[p]);
    hide Verifies, Bound;
  }

  /** Nobody has closed a gate exactly while the history is empty; otherwise the prior provider is the one
      that the file of the latest entry names, and it is there, below the evidence root and readable. */
  lemma PriorIsLastEvidence(cd: Codec, p: Pipeline, evidence: map<string, Blob>, q: Provider)
    ensures PriorProvider(cd, p, evidence) == Some(Nobody) <==> p.history == []
    ensures PriorProvider(cd, p, evidence) == Some(By(q)) <==>
            exists front, last, file, e :: p.history == front + [last] && last.Gate? && cd.inRoot(last.evidencePath)
                                           && (last.evidencePath, file) in evidence.Items
                                           && cd.evidence(file) == Some(e) && e.provider == Some(q)
  {
    if PriorProvider(cd, p, evidence) == Some(By(q)) {
      var front, last := p.history[..|p.history| - 1], p.history[|p.history| - 1];
      var file := evidence[last.evidencePath];
      assert p.history == front + [last] && (last.evidencePath, file) in evidence.Items;
      assert cd.evidence(file) == Some(cd.evidence(file).value);
    }
    if front, last, file, e :| p.history == front + [last] && last.Gate? && cd.inRoot(last.evidencePath)
                               && (last.evidencePath, file) in evidence.Items
                               && cd.evidence(file) == Some(e) && e.provider == Some(q) {
      assert p.history[|p.history| - 1] == last && evidence[last.evidencePath] == file;
    }
  }

  // ---------------------------------------------------------------------------------------------
  // The protocol can be completed.

  /** The history entry of a gate closed over that file. */
  function ClosedGate(cd: Codec, first: Provider, a: Attempt): Item
  {
    Gate(GATES[Index(first, a.provider)], "passed", cd.evidenceFile(a.provider), cd.sha(EvidenceFor(cd, first, a)))
  }

  /** Gate commands that append the closed gate, move the stage on, keep all evidence and leave a
      project that validates. */
  ghost predicate Honest(cd: Codec, first: Provider, snapshot: Blob, left: Blob, final: Blob, digest: string,
                         a: Attempt, b: Attempt)
  {
    var one := map[cd.evidenceFile(first) := EvidenceFor(cd, first, a)];
    var two := one[cd.evidenceFile(b.provider) := EvidenceFor(cd, first, b)];
    && a.provider == first && b.provider == Second(first) && a.hostOk && b.hostOk
    && a.observed == Observed("code-review", 0, Nobody, digest)
    && b.observed == Observed("build-green", 1, By(first), digest)
    && cd.pipeline(snapshot) == Some(Pipeline("active", "code-review", digest, GATES, []))
    && cd.pipeline(left) == Some(Pipeline("active", "build-green", digest, GATES, [ClosedGate(cd, first, a)]))
    && cd.pipeline(final)
       == Some(Pipeline("completed", "completed", digest, GATES, [ClosedGate(cd, first, a), ClosedGate(cd, first, b)]))
    && a.close(snapshot, one) == Closed(true, left, one) && cd.validate(left, one)
    && b.close(left, two) == Closed(true, final, two) && cd.validate(final, two)
  }

  /** Accepting both providers in either protected direction, with gate commands that do their work,
      ends in a state that verifies. */
  lemma HonestRunVerifies(cd: Codec, first: Provider, snapshot: Blob, left: Blob, final: Blob, digest: string,
                          a: Attempt, b: Attempt)
    requires Sound(cd) && (forall e :: cd.evidence(cd.writeEvidence(e)) == Some(e))
    requires cd.evidenceFile(Claude) != cd.evidenceFile(Codex) && forall p :: cd.inRoot(cd.evidenceFile(p))
    requires Honest(cd, first, snapshot, left, final, digest, a, b)
    ensures Verifies(cd, RunFrom(cd, first, snapshot, [Accept(a), Accept(b)]).s, true)
  {
    HonestFirst(cd, first, snapshot, left, final, digest, a, b);
    HonestSecond(cd, first, snapshot, left, final, digest, a, b);
    TwoAccepts(cd, first, snapshot, a, b);
    HonestHistory(cd, first, snapshot, left, final, digest, a, b);
  }

  lemma TwoAccepts(cd: Codec, first: Provider, snapshot: Blob, a: Attempt, b: Attempt)
    ensures RunFrom(cd, first, snapshot, [Accept(a), Accept(b)]).s
            == AcceptStep(cd, AcceptStep(cd, Prepared(cd, first, snapshot), a).0, b).0
  {
    hide AcceptStep, WritesReceipt;
    var run := [Accept(a), Accept(b)];
    assert run[..1] == [Accept(a)] && [Accept(a)][..0] == [];
    assert RunFrom(cd, first, snapshot, run[..1]).s == AcceptStep(cd, Prepared(cd, first, snapshot), a).0;
  }

  /** The state between the two acceptances, and the state after both. */
  function Halfway(cd: Codec, first: Provider, snapshot: Blob, left: Blob, a: Attempt): State
  {
    State(first, left, map[cd.evidenceFile(first) := EvidenceFor(cd, first, a)],
          map[first := cd.sha(snapshot), Second(first) := cd.sha(left)], map[first := cd.writeReceipt(ReceiptFor(a))])
  }

  function Completed(cd: Codec, first: Provider, snapshot: Blob, left: Blob, final: Blob, a: Attempt, b: Attempt): State
  {
    var half := Halfway(cd, first, snapshot, left, a);
    half.(snapshot := final, evidence := half.evidence[cd.evidenceFile(b.provider) := EvidenceFor(cd, first, b)],
          receipts := half.receipts[Second(first) := cd.writeReceipt(ReceiptFor(b))])
  }

  lemma HonestFirst(cd: Codec, first: Provider, snapshot: Blob, left: Blob, final: Blob, digest: string,
                    a: Attempt, b: Attempt)
    requires Sound(cd) && Honest(cd, first, snapshot, left, final, digest, a, b)
    ensures AcceptStep(cd, Prepared(cd, first, snapshot), a) == (Halfway(cd, first, snapshot, left, a), true)
  {
    var s := Prepared(cd, first, snapshot);
    assert WritesReceipt(cd, s, a) && Ready(cd, s, first);
    var file, evidence := cd.evidenceFile(first), EvidenceFor(cd, first, a);
    assert s.evidence[file := evidence] == map[file := evidence];
  }

  lemma HonestSecond(cd: Codec, first: Provider, snapshot: Blob, left: Blob, final: Blob, digest: string,
                     a: Attempt, b: Attempt)
    requires Sound(cd) && (forall e :: cd.evidence(cd.writeEvidence(e)) == Some(e))
    requires cd.evidenceFile(Claude) != cd.evidenceFile(Codex) && forall p :: cd.inRoot(cd.evidenceFile(p))
    requires Honest(cd, first, snapshot, left, final, digest, a, b)
    ensures AcceptStep(cd, Halfway(cd, first, snapshot, left, a), b)
            == (Completed(cd, first, snapshot, left, final, a, b), true)
  {
    var s := Halfway(cd, first, snapshot, left, a);
    assert PriorProvider(cd, cd.pipeline(s.snapshot).value, s.evidence) == Some(By(first));
    assert WritesReceipt(cd, s, b) && Ready(cd, s, b.provider);
  }

  lemma HonestHistory(cd: Codec, first: Provider, snapshot: Blob, left: Blob, final: Blob, digest: string,
                      a: Attempt, b: Attempt)
    requires Sound(cd) && (forall e :: cd.evidence(cd.writeEvidence(e)) == Some(e))
    requires cd.evidenceFile(Claude) != cd.evidenceFile(Codex)
    requires Honest(cd, first, snapshot, left, final, digest, a, b)
    ensures Verifies(cd, Completed(cd, first, snapshot, left, final, a, b), true)
  {
    var s := Completed(cd, first, snapshot, left, final, a, b);
    var h := cd.pipeline(s.snapshot).value.history;
    assert Gates(h) == [h[0].gate] + Gates(h[1..]) && Gates(h[1..]) == [h[1].gate] + Gates(h[1..][1..]);
    assert Bound(cd, s, h, 0);
    assert Bound(cd, s, h, 1);
  }
}

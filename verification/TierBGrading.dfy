/** Grading skill-trigger probes: batches of targets, their classification, and standalone re-runs. */
module TierBGrading {
  import opened Bytes
  import opened Text

  datatype Outcome = Invoked | Named | Inconclusive | Substituted | Missed

  datatype Target = Target(id: string, skill: string)

  datatype Batch = Batch(name: string, targets: seq<Target>, prompt: string)

  /** What one session left: the skills it invoked, its exit code and its final answer. */
  datatype Probe = Probe(fired: set<string>, rc: int, answer: string)

  datatype Classification = Classification(triggered: bool, named: bool, nameInPrompt: bool, outsiders: set<string>,
                                           outcome: Outcome)

  datatype Row = Scored(id: string, skill: string, batch: string, c: Classification)
               | FalseTrigger(id: string, skill: string, batch: string)

  function Classify(skill: string, fired: set<string>, own: set<string>, prompt: string, answer: string): Classification
  {
    var invoked := skill in fired;
    var circular := Occurs(skill, prompt);
    var named := !invoked && !circular && Occurs(skill, answer);
    var inconclusive := !invoked && circular && Occurs(skill, answer);
    var outsiders := fired - own;
    var substituted := !invoked && !named && outsiders != {};
    Classification(invoked, named, circular, if substituted then outsiders else {},
                   if invoked then Invoked
                   else if named then Named
                   else if inconclusive then Inconclusive
                   else if substituted then Substituted
                   else Missed)
  }

  /** What each outcome says of the session: the skill fired; or else the answer named it and the prompt
      did not; or both named it; or else another skill fired; or none of this. */
  lemma OutcomesTold(skill: string, fired: set<string>, own: set<string>, prompt: string, answer: string)
    ensures var o := Classify(skill, fired, own, prompt, answer).outcome;
            var silent := skill !in fired;
            && (o == Invoked <==> skill in fired)
            && (o == Named <==> silent && Occurs(skill, answer) && !Occurs(skill, prompt))
            && (o == Inconclusive <==> silent && Occurs(skill, answer) && Occurs(skill, prompt))
            && (o == Substituted <==> silent && !Occurs(skill, answer) && exists f :: f in fired && f !in own)
            && (o == Missed <==> silent && !Occurs(skill, answer) && forall f :: f in fired ==> f in own)
    ensures Classify(skill, fired, own, prompt, answer).nameInPrompt <==> Occurs(skill, prompt)
  {
    hide Occurs;
    if f :| f in fired && f !in own { assert f in fired - own; }
    if fired - own != {} { var f :| f in fired - own; }
  }

  /** The outsiders are listed when the target neither fired nor was named, and only then. */
  lemma OutsidersTold(skill: string, fired: set<string>, own: set<string>, prompt: string, answer: string, f: string)
    ensures var c := Classify(skill, fired, own, prompt, answer);
            f in c.outsiders <==> c.outcome != Invoked && c.outcome != Named && f in fired && f !in own
  {
    hide Occurs;
  }

  /** A session that failed or said nothing supports no negative, but a skill that fired still counts. */
  predicate Counts(skill: string, p: Probe)
  {
    skill in p.fired || (p.rc == 0 && Strip(p.answer) != "")
  }

  function Own(b: Batch): set<string> { set t | t in b.targets :: t.skill }

  function ScoreTarget(b: Batch, p: Probe, t: Target): Row
  {
    Scored(t.id, t.skill, b.name, Classify(t.skill, p.fired, Own(b), b.prompt, p.answer))
  }

  /** The scored rows of a batch, and the ids of its targets that were not measured. */
  function ScoredRows(b: Batch, p: Probe, targets: seq<Target>): seq<Row>
  {
    if targets == [] then []
    else (if Counts(targets[0].skill, p) then [ScoreTarget(b, p, targets[0])] else []) + ScoredRows(b, p, targets[1..])
  }

  function UnrunIds(p: Probe, targets: seq<Target>): seq<string>
  {
    if targets == [] then []
    else (if Counts(targets[0].skill, p) then [] else [targets[0].id]) + UnrunIds(p, targets[1..])
  }

  function Ids(targets: seq<Target>): seq<string>
  {
    if targets == [] then [] else [targets[0].id] + Ids(targets[1..])
  }

  function BatchRows(b: Batch, probes: map<string, Probe>): seq<Row>
  {
    if b.name in probes then ScoredRows(b, probes[b.name], b.targets) else []
  }

  function BatchUnrun(b: Batch, probes: map<string, Probe>): seq<string>
  {
    if b.name in probes then UnrunIds(probes[b.name], b.targets) else Ids(b.targets)
  }

  function AllRows(spec: seq<Batch>, probes: map<string, Probe>): seq<Row>
  {
    if spec == [] then [] else AllRows(spec[..|spec| - 1], probes) + BatchRows(spec[|spec| - 1], probes)
  }

  function AllUnrun(spec: seq<Batch>, probes: map<string, Probe>): seq<string>
  {
    if spec == [] then [] else AllUnrun(spec[..|spec| - 1], probes) + BatchUnrun(spec[|spec| - 1], probes)
  }

  function AllIds(spec: seq<Batch>): seq<string>
  {
    if spec == [] then [] else AllIds(spec[..|spec| - 1]) + Ids(spec[|spec| - 1].targets)
  }

  /** Rows that carry a verdict on a target; false triggers do not. */
  function OnlyScored(rows: seq<Row>): seq<Row>
  {
    if rows == [] then []
    else OnlyScored(rows[..|rows| - 1]) + if rows[|rows| - 1].Scored? then [rows[|rows| - 1]] else []
  }

  function RowIds(rows: seq<Row>): seq<string>
  {
    if rows == [] then [] else [rows[0].id] + RowIds(rows[1..])
  }

  lemma {:induction false} OnlyScoredAppend(rows: seq<Row>, more: seq<Row>)
    ensures OnlyScored(rows + more) == OnlyScored(rows) + OnlyScored(more)
    decreases |more|
  {
    if more == [] {
      assert rows + more == rows;
    } else {
      var front := more[..|more| - 1];
      OnlyScoredAppend(rows, front);
      assert (rows + more)[..|rows + more| - 1] == rows + front;
    }
  }

  lemma {:induction false} RowIdsAppend(xs: seq<Row>, ys: seq<Row>)
    ensures RowIds(xs + ys) == RowIds(xs) + RowIds(ys)
  {
    if xs == [] {
      assert xs + ys == ys;
    } else {
      var rest := xs[1..];
      hide RowIds;
      RowIdsAppend(rest, ys);
      RowIdsCons(xs[0], rest);
      RowIdsCons(xs[0], rest + ys);
      SplitHead(xs, ys);
      Associate([xs[0].id], RowIds(rest), RowIds(ys));
    }
  }

  lemma SplitHead(xs: seq<Row>, ys: seq<Row>)
    requires xs != []
    ensures xs == [xs[0]] + xs[1..] && xs + ys == [xs[0]] + (xs[1..] + ys)
  {}

  lemma Associate(a: seq<string>, b: seq<string>, c: seq<string>)
    ensures a + b + c == a + (b + c)
  {}

  /** A row for a known skill that fired in a batch whose targets do not include it. */
  predicate IsStray(b: Batch, p: Probe, allTargets: map<string, string>, r: Row)
  {
    && r.FalseTrigger? && r.batch == b.name && r.skill in p.fired - Own(b)
    && r.skill in allTargets && r.id == allTargets[r.skill]
  }

  /** The batches in which the row is a stray. */
  function StrayCount(spec: seq<Batch>, probes: map<string, Probe>, allTargets: map<string, string>, r: Row): nat
  {
    if spec == [] then 0
    else
      var b := spec[|spec| - 1];
      StrayCount(spec[..|spec| - 1], probes, allTargets, r)
      + if b.name in probes && IsStray(b, probes[b.name], allTargets, r) then 1 else 0
  }

  /** The rows hold each false trigger as often as it happened. */
  ghost predicate StraysCounted(rows: seq<Row>, spec: seq<Batch>, probes: map<string, Probe>,
                                allTargets: map<string, string>)
  {
    forall r: Row :: r.FalseTrigger? ==> multiset(rows)[r] == StrayCount(spec, probes, allTargets, r)
  }

  method ScoreBatch(b: Batch, p: Probe) returns (rows: seq<Row>, unrun: seq<string>)
    ensures rows == ScoredRows(b, p, b.targets) && unrun == UnrunIds(p, b.targets)
  {
    rows, unrun := [], [];
    var admissible := p.rc == 0 && Strip(p.answer) != "";
    for k := 0 to |b.targets|
      invariant rows == ScoredRows(b, p, b.targets[..k])
      invariant unrun == UnrunIds(p, b.targets[..k])
    {
      var t := b.targets[k];
      ScoredRowsSnoc(b, p, b.targets[..k], t);
      assert b.targets[..k + 1] == b.targets[..k] + [t];
      if !admissible && t.skill !in p.fired {
        unrun := unrun + [t.id];
      } else {
        rows := rows + [Scored(t.id, t.skill, b.name, Classify(t.skill, p.fired, Own(b), b.prompt, p.answer))];
      }
    }
    assert b.targets[..|b.targets|] == b.targets;
  }

  method FalseTriggers(b: Batch, p: Probe, allTargets: map<string, string>) returns (rows: seq<Row>)
    ensures OnlyScored(rows) == []
    ensures forall r :: multiset(rows)[r] == if IsStray(b, p, allTargets, r) then 1 else 0
  {
    rows := [];
    var strangers := p.fired - Own(b);
    while strangers != {}
      invariant strangers <= p.fired - Own(b)
      invariant OnlyScored(rows) == []
      invariant forall r :: multiset(rows)[r] == if IsStray(b, p, allTargets, r) && r.skill !in strangers then 1 else 0
      decreases |strangers|
    {
      var f :| f in strangers;
      strangers := strangers - {f};
      if f in allTargets {
        var row := FalseTrigger(allTargets[f], f, b.name);
        OnlyScoredAppend(rows, [row]);
        OnlyScoredOne(row);
        rows := rows + [row];
      }
    }
  }

  /** The grading loop: batch by batch, target by target, then the skills that fired out of turn. */
  method Grade(spec: seq<Batch>, probes: map<string, Probe>, allTargets: map<string, string>)
    returns (rows: seq<Row>, unrun: seq<string>)
    ensures OnlyScored(rows) == AllRows(spec, probes)
    ensures unrun == AllUnrun(spec, probes)
    ensures StraysCounted(rows, spec, probes, allTargets)
  {
    rows, unrun := [], [];
    NothingGraded(spec[..0], probes, allTargets);
    hide *;
    for n := 0 to |spec|
      invariant IsGrading(rows, unrun, spec[..n], probes, allTargets)
    {
      var b := spec[n];
      assert spec[..n + 1] == spec[..n] + [b];
      if b.name !in probes {
        var ids := TargetIds(b.targets);
        BatchSkipped(spec[..n], b, probes, allTargets, rows, unrun);
        unrun := unrun + ids;
      } else {
        var scored, missing := ScoreBatch(b, probes[b.name]);
        var strays := FalseTriggers(b, probes[b.name], allTargets);
        BatchGraded(spec[..n], b, probes, allTargets, rows, unrun, strays);
        rows, unrun := rows + scored + strays, unrun + missing;
      }
    }
    assert spec[..|spec|] == spec;
    GradingTold(rows, unrun, spec, probes, allTargets);
  }

  /** What the loop has written for the batches so far. */
  ghost predicate IsGrading(rows: seq<Row>, unrun: seq<string>, spec: seq<Batch>, probes: map<string, Probe>,
                            allTargets: map<string, string>)
  {
    && OnlyScored(rows) == AllRows(spec, probes) && unrun == AllUnrun(spec, probes)
    && StraysCounted(rows, spec, probes, allTargets)
  }

  lemma NothingGraded(spec: seq<Batch>, probes: map<string, Probe>, allTargets: map<string, string>)
    requires spec == []
    ensures IsGrading([], [], spec, probes, allTargets)
  {}

  lemma GradingTold(rows: seq<Row>, unrun: seq<string>, spec: seq<Batch>, probes: map<string, Probe>,
                    allTargets: map<string, string>)
    requires IsGrading(rows, unrun, spec, probes, allTargets)
    ensures OnlyScored(rows) == AllRows(spec, probes) && unrun == AllUnrun(spec, probes)
    ensures StraysCounted(rows, spec, probes, allTargets)
  {}

  lemma BatchSkipped(front: seq<Batch>, b: Batch, probes: map<string, Probe>, allTargets: map<string, string>,
                     rows: seq<Row>, unrun: seq<string>)
    requires IsGrading(rows, unrun, front, probes, allTargets) && b.name !in probes
    ensures IsGrading(rows, unrun + Ids(b.targets), front + [b], probes, allTargets)
  {
    AllSnoc(front, b, probes);
    hide OnlyScored, AllRows, AllUnrun, StraysCounted, Ids;
    StraysAdd(front, b, probes, allTargets, rows, [], []);
    assert rows + [] + [] == rows;
    assert AllRows(front, probes) + [] == AllRows(front, probes);
  }

  lemma BatchGraded(front: seq<Batch>, b: Batch, probes: map<string, Probe>, allTargets: map<string, string>,
                    rows: seq<Row>, unrun: seq<string>, strays: seq<Row>)
    requires IsGrading(rows, unrun, front, probes, allTargets) && b.name in probes && OnlyScored(strays) == []
    requires forall r :: multiset(strays)[r] == if IsStray(b, probes[b.name], allTargets, r) then 1 else 0
    ensures var p := probes[b.name];
            IsGrading(rows + ScoredRows(b, p, b.targets) + strays, unrun + UnrunIds(p, b.targets), front + [b],
                      probes, allTargets)
  {
    AllSnoc(front, b, probes);
    hide OnlyScored, AllRows, AllUnrun, StraysCounted, IsStray, ScoredRows, UnrunIds;
    var scored := ScoredRows(b, probes[b.name], b.targets);
    BatchStep(b, probes[b.name], rows, scored, strays);
    StraysAdd(front, b, probes, allTargets, rows, scored, strays);
  }

  lemma BatchStep(b: Batch, p: Probe, rows: seq<Row>, scored: seq<Row>, strays: seq<Row>)
    requires scored == ScoredRows(b, p, b.targets) && OnlyScored(strays) == []
    ensures OnlyScored(rows + scored + strays) == OnlyScored(rows) + scored
    ensures forall r :: r in scored ==> r.Scored?
  {
    ScoredRowsAreScored(b, p, b.targets);
    OnlyScoredAppend(rows, scored);
    OnlyScoredAppend(rows + scored, strays);
  }

  /** Each batch adds its own strays to the count and no others. */
  lemma StraysAdd(front: seq<Batch>, b: Batch, probes: map<string, Probe>, allTargets: map<string, string>,
                  rows: seq<Row>, scored: seq<Row>, strays: seq<Row>)
    requires StraysCounted(rows, front, probes, allTargets)
    requires forall r :: r in scored ==> r.Scored?
    requires forall r: Row :: multiset(strays)[r]
                              == if b.name in probes && IsStray(b, probes[b.name], allTargets, r) then 1 else 0
    ensures StraysCounted(rows + scored + strays, front + [b], probes, allTargets)
  {
    hide IsStray;
    forall r: Row | r.FalseTrigger?
      ensures multiset(rows + scored + strays)[r] == StrayCount(front + [b], probes, allTargets, r)
    {
      assert (front + [b])[..|front|] == front;
      assert r !in scored;
    }
  }

  lemma AllSnoc(front: seq<Batch>, b: Batch, probes: map<string, Probe>)
    ensures AllRows(front + [b], probes) == AllRows(front, probes) + BatchRows(b, probes)
    ensures AllUnrun(front + [b], probes) == AllUnrun(front, probes) + BatchUnrun(b, probes)
  {
    assert (front + [b])[..|front|] == front;
  }

  lemma {:induction false} ScoredRowsAreScored(b: Batch, p: Probe, targets: seq<Target>)
    ensures OnlyScored(ScoredRows(b, p, targets)) == ScoredRows(b, p, targets)
    ensures forall r :: r in ScoredRows(b, p, targets) ==> r.Scored?
  {
    hide Counts, OnlyScored;
    if targets == [] {
      assert OnlyScored([]) == [] by { OnlyScoredNone(); }
    } else {
      var rest := ScoredRows(b, p, targets[1..]);
      ScoredRowsAreScored(b, p, targets[1..]);
      var row := ScoreTarget(b, p, targets[0]);
      assert row.Scored?;
      hide ScoreTarget;
      OnlyScoredNone();
      OnlyScoredOne(row);
      OnlyScoredAppend([row], rest);
      assert [] + rest == rest;
    }
  }

  method TargetIds(targets: seq<Target>) returns (ids: seq<string>)
    ensures ids == Ids(targets)
  {
    ids := [];
    for k := 0 to |targets|
      invariant ids + Ids(targets[k..]) == Ids(targets)
    {
      assert targets[k..][1..] == targets[k + 1..];
      ids := ids + [targets[k].id];
    }
    assert targets[|targets|..] == [];
  }

  lemma OnlyScoredNone()
    ensures OnlyScored([]) == []
  {}

  lemma OnlyScoredOne(r: Row)
    ensures OnlyScored([r]) == if r.Scored? then [r] else []
  {
    assert [r][..0] == [];
  }

  lemma ScoredRowsHead(b: Batch, p: Probe, targets: seq<Target>)
    requires targets != []
    ensures ScoredRows(b, p, targets)
            == (if Counts(targets[0].skill, p) then [ScoreTarget(b, p, targets[0])] else [])
               + ScoredRows(b, p, targets[1..])
    ensures UnrunIds(p, targets)
            == (if Counts(targets[0].skill, p) then [] else [targets[0].id]) + UnrunIds(p, targets[1..])
  {
    hide Counts, ScoreTarget;
  }

  lemma {:induction false} ScoredRowsSnoc(b: Batch, p: Probe, targets: seq<Target>, t: Target)
    ensures ScoredRows(b, p, targets + [t])
            == ScoredRows(b, p, targets) + if Counts(t.skill, p) then [ScoreTarget(b, p, t)] else []
    ensures UnrunIds(p, targets + [t]) == UnrunIds(p, targets) + if Counts(t.skill, p) then [] else [t.id]
  {
    hide Counts, ScoreTarget;
    var all := targets + [t];
    if targets == [] {
      assert all[1..] == [] && all[0] == t;
    } else {
      ScoredRowsSnoc(b, p, targets[1..], t);
      assert all[1..] == targets[1..] + [t] && all[0] == targets[0];
      ScoredRowsHead(b, p, all);
      ScoredRowsHead(b, p, targets);
      hide ScoredRows, UnrunIds;
    }
  }

  // ---------------------------------------------------------------------------------------------

  lemma {:induction false} TargetsConserved(b: Batch, p: Probe, targets: seq<Target>)
    ensures multiset(RowIds(ScoredRows(b, p, targets))) + multiset(UnrunIds(p, targets)) == multiset(Ids(targets))
  {
    hide Counts, ScoreTarget;
    if targets != [] {
      var t, rest := targets[0], targets[1..];
      TargetsConserved(b, p, rest);
      assert Ids(targets) == [t.id] + Ids(rest);
      if Counts(t.skill, p) {
        ScoreTargetKeepsId(b, p, t);
        RowIdsCons(ScoreTarget(b, p, t), ScoredRows(b, p, rest));
        assert UnrunIds(p, targets) == UnrunIds(p, rest);
      } else {
        assert ScoredRows(b, p, targets) == ScoredRows(b, p, rest);
        assert UnrunIds(p, targets) == [t.id] + UnrunIds(p, rest);
      }
    }
  }

  lemma RowIdsCons(r: Row, rest: seq<Row>)
    ensures RowIds([r] + rest) == [r.id] + RowIds(rest)
  {
    assert ([r] + rest)[1..] == rest;
  }

  lemma ScoreTargetKeepsId(b: Batch, p: Probe, t: Target)
    ensures ScoreTarget(b, p, t).id == t.id
  {}

  /** Every target of every batch is graded once or reported as not run once, never both. */
  lemma {:induction false} GradingConservesTargets(spec: seq<Batch>, probes: map<string, Probe>)
    ensures multiset(RowIds(AllRows(spec, probes))) + multiset(AllUnrun(spec, probes)) == multiset(AllIds(spec))
  {
    if spec != [] {
      var front, b := spec[..|spec| - 1], spec[|spec| - 1];
      GradingConservesTargets(front, probes);
      RowIdsAppend(AllRows(front, probes), BatchRows(b, probes));
      if b.name in probes { TargetsConserved(b, probes[b.name], b.targets); }
    }
  }

  // ---------------------------------------------------------------------------------------------
  // The printed figures.

  function CountTriggered(rows: seq<Row>): nat
  {
    if rows == [] then 0
    else CountTriggered(rows[1..]) + if rows[0].Scored? && rows[0].c.triggered then 1 else 0
  }

  function CountNamed(rows: seq<Row>): nat
  {
    if rows == [] then 0 else CountNamed(rows[1..]) + if rows[0].Scored? && rows[0].c.named then 1 else 0
  }

  function CountScored(rows: seq<Row>): nat
  {
    if rows == [] then 0 else CountScored(rows[1..]) + if rows[0].Scored? then 1 else 0
  }

  function CountOutcome(rows: seq<Row>, o: Outcome): nat
  {
    if rows == [] then 0 else CountOutcome(rows[1..], o) + if rows[0].Scored? && rows[0].c.outcome == o then 1 else 0
  }

  /** The rows as `classify` writes them: one classifier for the flags and the outcome. */
  ghost predicate Classified(rows: seq<Row>)
  {
    forall r :: r in rows && r.Scored? ==>
      exists fired, own, prompt, answer :: r.c == Classify(r.skill, fired, own, prompt, answer)
  }

  lemma FlagsFollowOutcome(skill: string, fired: set<string>, own: set<string>, prompt: string, answer: string)
    ensures var c := Classify(skill, fired, own, prompt, answer);
            (c.triggered <==> c.outcome == Invoked) && (c.named <==> c.outcome == Named)
  {}

  lemma {:induction false} ScoredRowsAreClassified(b: Batch, p: Probe, targets: seq<Target>)
    ensures Classified(ScoredRows(b, p, targets))
  {
    hide Classify, Counts;
    if targets != [] { ScoredRowsAreClassified(b, p, targets[1..]); }
  }

  lemma {:induction false} AllRowsAreClassified(spec: seq<Batch>, probes: map<string, Probe>)
    ensures Classified(AllRows(spec, probes))
  {
    hide Classify;
    if spec != [] {
      var b := spec[|spec| - 1];
      AllRowsAreClassified(spec[..|spec| - 1], probes);
      if b.name in probes { ScoredRowsAreClassified(b, probes[b.name], b.targets); }
    }
  }

  lemma {:induction false} OnlyScoredKeeps(rows: seq<Row>, r: Row)
    requires r in rows && r.Scored?
    ensures r in OnlyScored(rows)
  {
    var last := |rows| - 1;
    if rows[last] != r { OnlyScoredKeeps(rows[..last], r); }
  }

  /** The MISSED figure over all that a grading writes, false triggers included. */
  lemma MissedFigureIsExact(rows: seq<Row>, spec: seq<Batch>, probes: map<string, Probe>)
    requires OnlyScored(rows) == AllRows(spec, probes)
    ensures CountScored(rows) - CountTriggered(rows) - CountNamed(rows)
            - CountOutcome(rows, Inconclusive) - CountOutcome(rows, Substituted) == CountOutcome(rows, Missed)
  {
    AllRowsAreClassified(spec, probes);
    forall r | r in rows && r.Scored?
      ensures exists fired, own, prompt, answer :: r.c == Classify(r.skill, fired, own, prompt, answer)
    {
      OnlyScoredKeeps(rows, r);
    }
    MissedBySubtraction(rows);
  }

  /** The MISSED figure, printed as a difference of five counters, is the number of missed rows. */
  lemma {:induction false} MissedBySubtraction(rows: seq<Row>)
    requires Classified(rows)
    ensures CountScored(rows) - CountTriggered(rows) - CountNamed(rows)
            - CountOutcome(rows, Inconclusive) - CountOutcome(rows, Substituted) == CountOutcome(rows, Missed)
  {
    if rows != [] {
      assert forall r :: r in rows[1..] ==> r in rows;
      MissedBySubtraction(rows[1..]);
      var r := rows[0];
      if r.Scored? {
        assert r in rows;
        var fired, own, prompt, answer :| r.c == Classify(r.skill, fired, own, prompt, answer);
        FlagsFollowOutcome(r.skill, fired, own, prompt, answer);
      }
    }
  }

  // ---------------------------------------------------------------------------------------------
  // Standalone runs: the best admissible run speaks for the skill.

  datatype SoloRun = SoloRun(p: Probe, prompt: string)

  datatype SoloOutcome = NotInstalled | Unrun | Graded(o: Outcome)

  function GradeRun(skill: string, installed: set<string>, r: SoloRun): SoloOutcome
  {
    if installed != {} && skill !in installed then NotInstalled
    else if !Counts(skill, r.p) then Unrun
    else Graded(Classify(skill, r.p.fired, {skill}, r.prompt, r.p.answer).outcome)
  }

  /** A run of a skill that is not installed counts for nothing; a failed or blank one counts only if the
      skill fired in it; any other is classified with the skill as its only target. */
  lemma RunsGraded(skill: string, installed: set<string>, r: SoloRun)
    ensures var g := GradeRun(skill, installed, r);
            && (g == NotInstalled <==> installed != {} && skill !in installed)
            && (g == Unrun <==> (installed == {} || skill in installed) && skill !in r.p.fired
                                && (r.p.rc != 0 || AllBlank(r.p.answer)))
            && (g.Graded? ==> g.o == Classify(skill, r.p.fired, {skill}, r.prompt, r.p.answer).outcome)
  {
    hide Classify;
    BlankStripsToNothing(r.p.answer);
  }

  lemma BlankStripsToNothing(s: string)
    ensures Strip(s) == "" <==> AllBlank(s)
  {
    if AllBlank(s) {
      StripIsExact(s, [], []);
      assert s + [] + [] == s;
    } else {
      var pre, post := StripSplits(s);
      assert Strip(s) == "" ==> s == pre + post;
    }
  }

  /** Without an admissible run the first run speaks. */
  lemma {:induction false} FirstSpeaksForNone(skill: string, installed: set<string>, runs: seq<SoloRun>)
    requires runs != [] && forall r :: r in runs ==> !GradeRun(skill, installed, r).Graded?
    ensures Best(skill, installed, runs) == GradeRun(skill, installed, runs[0])
  {
    hide GradeRun;
    assert runs[0] in runs;
    if |runs| > 1 {
      assert forall r :: r in runs[1..] ==> r in runs;
      FirstSpeaksForNone(skill, installed, runs[1..]);
    }
  }

  function Rank(o: Outcome): nat
  {
    match o
    case Invoked => 0
    case Named => 1
    case Substituted => 2
    case Inconclusive => 3
    case Missed => 4
  }

  function Best(skill: string, installed: set<string>, runs: seq<SoloRun>): (o: SoloOutcome)
  {
    if runs == [] then Unrun
    else
      var first, rest := GradeRun(skill, installed, runs[0]), Best(skill, installed, runs[1..]);
      if !first.Graded? then (if rest.Graded? then rest else first)
      else if rest.Graded? && Rank(rest.o) < Rank(first.o) then rest else first
  }

  /** The verdict ranks at or above every admissible run and is one of them. */
  lemma {:induction false} BestIsBest(skill: string, installed: set<string>, runs: seq<SoloRun>)
    ensures var best := Best(skill, installed, runs);
            && (best.Graded? <==> exists r :: r in runs && GradeRun(skill, installed, r).Graded?)
            && (best.Graded? ==> exists r :: r in runs && GradeRun(skill, installed, r) == best)
            && (forall r :: r in runs && GradeRun(skill, installed, r).Graded? ==>
                  Rank(best.o) <= Rank(GradeRun(skill, installed, r).o))
  {
    hide GradeRun;
    if runs != [] {
      BestIsBest(skill, installed, runs[1..]);
      assert forall r :: r in runs <==> r == runs[0] || r in runs[1..];
    }
  }

  /** Further runs, wherever they fall, never make a graded verdict worse. */
  lemma MoreRunsNeverWorsen(skill: string, installed: set<string>, runs: seq<SoloRun>, more: seq<SoloRun>)
    requires Best(skill, installed, runs).Graded?
    requires forall r :: r in runs ==> r in more
    ensures Best(skill, installed, more).Graded?
    ensures Rank(Best(skill, installed, more).o) <= Rank(Best(skill, installed, runs).o)
  {
    BestIsBest(skill, installed, runs);
    BestIsBest(skill, installed, more);
  }

  /** An admissible run that is silent: it ended well, said something, fired nothing, named nothing. */
  predicate Silent(skill: string, r: SoloRun)
  {
    r.p.rc == 0 && Strip(r.p.answer) != "" && r.p.fired == {} && !Occurs(skill, r.p.answer)
  }

  lemma MissedRunIsSilent(skill: string, installed: set<string>, r: SoloRun)
    ensures GradeRun(skill, installed, r) == Graded(Missed)
            <==> GradeRun(skill, installed, r).Graded? && Silent(skill, r)
  {
    hide Strip, Occurs;
    assert r.p.fired - {skill} == {} && skill !in r.p.fired <==> r.p.fired == {};
  }

  /** A skill is MISSED exactly when it has an admissible run and all of them are silent. */
  lemma MissedMeansAllSilent(skill: string, installed: set<string>, runs: seq<SoloRun>)
    ensures Best(skill, installed, runs) == Graded(Missed) <==>
            (exists r :: r in runs && GradeRun(skill, installed, r).Graded?)
            && forall r :: r in runs && GradeRun(skill, installed, r).Graded? ==> Silent(skill, r)
  {
    BestIsBest(skill, installed, runs);
    forall r: SoloRun
      ensures GradeRun(skill, installed, r) == Graded(Missed)
              <==> GradeRun(skill, installed, r).Graded? && Silent(skill, r)
    {
      MissedRunIsSilent(skill, installed, r);
    }
    hide GradeRun, Silent;
    var best := Best(skill, installed, runs);
    if best == Graded(Missed) {
      forall r | r in runs && GradeRun(skill, installed, r).Graded? ensures Silent(skill, r) {
        assert Rank(GradeRun(skill, installed, r).o) >= 4;
      }
    }
  }

  // ---------------------------------------------------------------------------------------------
  // Cutting the usable targets into batches.

  function FloorDiv(a: int, b: int): int
    requires b != 0
  {
    if b > 0 then a / b else (-a) / (-b)
  }

  /** Division as Python rounds it: down, whatever the signs. */
  lemma FloorIsBelow(a: int, b: int)
    requires b != 0
    ensures var q := FloorDiv(a, b); if b > 0 then q * b <= a < (q + 1) * b else (q + 1) * b < a <= q * b
  {
    if b > 0 {
      assert a == a / b * b + a % b;
    } else {
      assert -a == (-a) / (-b) * (-b) + (-a) % (-b);
    }
  }

  /** Targets per batch: as asked for, or spread over the wanted number of batches, rounding up. */
  function PerBatch(n: int, batches: int, perBatch: int): int
    requires perBatch != 0 || batches != 0
  {
    if perBatch != 0 then perBatch
    else var up := -FloorDiv(-n, batches); if up > 1 then up else 1
  }

  /** The size asked for is kept; a number of batches gets the smallest size, at least one, that needs no
      more batches than that. */
  lemma PerBatchIsLeast(n: nat, batches: int, perBatch: int)
    requires perBatch != 0 || batches != 0
    ensures perBatch != 0 ==> PerBatch(n, batches, perBatch) == perBatch
    ensures perBatch == 0 && batches > 0 ==>
              var per := PerBatch(n, batches, 0);
              per >= 1 && n <= per * batches && (per > 1 ==> (per - 1) * batches < n)
    ensures perBatch == 0 && batches < 0 ==> PerBatch(n, batches, 0) == 1
  {
    if perBatch == 0 && batches > 0 {
      var below: int := 0 - n;
      var up := -(below / batches);
      assert up * batches >= n > (up - 1) * batches;
      if up <= 1 { MulMonotone(up, 1, batches); }
    } else if perBatch == 0 {
      assert n / -batches >= 0;
    }
  }

  /** Every usable target lands in exactly one batch, in order; asking for a negative size makes no
      batch, and asking for neither a size nor a number of batches divides by zero. */
  method Build(usable: seq<Target>, batches: int, perBatch: int) returns (groups: seq<seq<Target>>, ok: bool)
    ensures ok <==> perBatch != 0 || batches != 0
    ensures ok && perBatch < 0 ==> groups == []
    ensures ok && perBatch >= 0 ==> Concat(groups) == usable
    ensures ok && perBatch >= 0 ==> forall g :: 0 <= g < |groups| ==>
              var per := PerBatch(|usable|, batches, perBatch);
              0 < |groups[g]| <= per && (g < |groups| - 1 ==> |groups[g]| == per)
    ensures perBatch == 0 && batches > 0 ==> |groups| <= batches
  {
    groups := [];
    if perBatch == 0 && batches == 0 {
      return groups, false;
    }
    var per := PerBatch(|usable|, batches, perBatch);
    if per < 0 {
      return groups, true;
    }
    var i := 0;
    while i < |usable|
      invariant 0 <= i
      invariant Concat(groups) == usable[..if i < |usable| then i else |usable|]
      invariant forall g :: 0 <= g < |groups| ==> 0 < |groups[g]| <= per
      invariant forall g :: 0 <= g < |groups| && (i < |usable| || g < |groups| - 1) ==> |groups[g]| == per
      invariant i == |groups| * per
      invariant groups != [] ==> i - per < |usable|
      decreases |usable| - i
    {
      var stop := if i + per < |usable| then i + per else |usable|;
      var group := usable[i..stop];
      ConcatSnoc(groups, group);
      assert usable[..stop] == usable[..i] + group;
      groups := groups + [group];
      i := i + per;
      NextMultiple(|groups| - 1, per);
    }
    assert usable[..|usable|] == usable;
    if perBatch == 0 && batches > 0 {
      BatchCount(|usable|, batches, per, |groups|);
    }
    return groups, true;
  }

  lemma BatchCount(n: int, batches: int, per: int, g: int)
    requires n >= 0 && batches > 0 && per == PerBatch(n, batches, 0)
    requires g > 0 ==> g * per - per < n
    ensures g <= batches
  {
    var up := -((-n) / batches);
    assert batches * up >= n;
    assert per >= up && per >= 1;
    assert g * per - per == (g - 1) * per;
    MulMonotone(up, per, batches);
    if g > batches {
      MulMonotone(batches, g - 1, per);
      assert false;
    }
  }

  lemma MulMonotone(x: int, y: int, k: int)
    requires x <= y && k >= 0
    ensures x * k <= y * k
  {}

  lemma NextMultiple(g: int, per: int)
    ensures (g + 1) * per == g * per + per
  {}
}

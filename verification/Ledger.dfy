/** The component ledger: the writer that derives `dynamic_done` and its summaries, the independent
    recomputation that checks them, and the older writer of the Tier B rows. */
module Ledger {
  import opened Options
  import TierBGrading

  datatype Tier = A | B | C

  /** A JSON field that scripts compare with `is True`: anything else, or no field, is `Other`. */
  datatype Flag = True | False | Other

  datatype Run = Run(verdict: Option<string>)

  datatype Evidence = NoEvidence | Pointer(text: string) | Runs(runs: seq<Run>)

  datatype Component = Component(id: string, ctype: string, tier: Tier, staticDone: Flag, required: Flag,
                                 dynamicDone: Flag, measuresMissing: Option<seq<string>>,
                                 trials: int, trialsRequired: int, outcome: string, evidence: Evidence)

  /** The best graded probe of a Tier B component. */
  datatype Graded = Graded(outcome: TierBGrading.Outcome, run: string, batch: string)

  /** The source artifacts the verdicts are read from. */
  datatype Sources = Sources(agents: map<string, string>, cliWorkOk: map<string, bool>,
                             scriptArms: map<string, seq<bool>>, configOk: map<string, bool>,
                             graded: map<string, Graded>, reach: map<string, string>)

  const CREDITING := {"PASS", "EXERCISED", "EXERCISED_TWO_SIDED", "EXERCISED_DEFECT_FOUND", "EXERCISED_UNMASKED",
                      "INVOKED", "NAMED", "REACHABILITY_PROVEN", "MEASURED_BY_TIER_A_SCENARIO"}

  predicate Measured(o: TierBGrading.Outcome) { o.Invoked? || o.Named? }

  /** What follows the first colon of an id, or the whole id. */
  function NameOf(id: string): string
  {
    if id == [] then [] else if id[0] == ':' then id[1..]
    else if ':' in id[1..] then NameOf(id[1..]) else id
  }

  predicate TierA(c: Component, src: Sources)
  {
    var name := NameOf(c.id);
    if c.measuresMissing == Some([]) && c.trials >= c.trialsRequired then true
    else if c.ctype == "agent" && name in src.agents then src.agents[name] in CREDITING
    else if c.ctype == "cli-command" && name in src.cliWorkOk then src.cliWorkOk[name]
    else if c.ctype == "repo-validation-script" && name in src.scriptArms then
      src.scriptArms[name] != [] && false !in src.scriptArms[name]
    else c.id in src.configOk && src.configOk[c.id]
  }

  predicate PassingRun(e: Evidence) { e.Runs? && Run(Some("PASS")) in e.runs }

  predicate TierB(c: Component, graded: map<string, Graded>)
  {
    if c.id in graded then Measured(graded[c.id].outcome)
    else c.outcome == "MEASURED_BY_TIER_A_SCENARIO" && PassingRun(c.evidence)
  }

  predicate TierC(c: Component, reach: map<string, string>)
  {
    c.staticDone.True? && c.id in reach && reach[c.id] != ""
  }

  /** The rule of the component's tier. */
  predicate Verdict(c: Component, src: Sources)
  {
    match c.tier
    case A => TierA(c, src)
    case B => TierB(c, src.graded)
    case C => TierC(c, src.reach)
  }

  function AsFlag(b: bool): Flag { if b then True else False }

  function Mark(c: Component, src: Sources): Component { c.(dynamicDone := AsFlag(Verdict(c, src))) }

  function MarkAll(comps: seq<Component>, src: Sources): seq<Component>
  {
    seq(|comps|, i requires 0 <= i < |comps| => Mark(comps[i], src))
  }

  // ---------------------------------------------------------------------------------------------
  // What the marks mean, tier by tier.

  lemma {:induction false} NameIsBehindColon(kind: string, name: string)
    requires ':' !in kind
    ensures NameOf(kind + ":" + name) == name
    ensures NameOf(kind) == kind
  {
    var id := kind + ":" + name;
    if kind != [] {
      assert kind[0] in kind && ':' !in kind[1..];
      assert id[1..] == kind[1..] + ":" + name;
      assert id[|kind|] == ':' && id[1..][|kind| - 1] == ':';
      NameIsBehindColon(kind[1..], name);
    }
  }

  /** A mark in tier A: a component with no measure missing over enough trials is marked whatever the
      artifacts say; any other is decided by the row of its own type if there is one, else by its
      configuration probe, and is never marked when it has neither. The name in a row is what follows
      the first colon of the id, or an id without one. */
  lemma TierAMarks(comps: seq<Component>, i: nat, src: Sources, kind: string, name: string)
    requires i < |comps| && comps[i].tier.A?
    requires ':' !in kind && (comps[i].id == kind + ":" + name || comps[i].id == kind == name)
    ensures var c, marked := comps[i], MarkAll(comps, src)[i].dynamicDone == True;
            var noRow := !(c.ctype == "agent" && name in src.agents)
                         && !(c.ctype == "cli-command" && name in src.cliWorkOk)
                         && !(c.ctype == "repo-validation-script" && name in src.scriptArms);
            if c.measuresMissing == Some([]) && c.trialsRequired <= c.trials then marked
            else
              && (noRow && c.id !in src.configOk ==> !marked)
              && (noRow && c.id in src.configOk ==> marked == src.configOk[c.id])
              && (c.ctype == "agent" && name in src.agents ==>
                    (marked <==>
                     src.agents[name] in ["PASS", "EXERCISED", "EXERCISED_TWO_SIDED", "EXERCISED_DEFECT_FOUND",
                                          "EXERCISED_UNMASKED", "INVOKED", "NAMED", "REACHABILITY_PROVEN",
                                          "MEASURED_BY_TIER_A_SCENARIO"]))
              && (c.ctype == "cli-command" && name in src.cliWorkOk ==> marked == src.cliWorkOk[name])
              && (c.ctype == "repo-validation-script" && name in src.scriptArms ==>
                    (marked <==> src.scriptArms[name] != [] && forall arm :: arm in src.scriptArms[name] ==> arm))
  {
    NameIsBehindColon(kind, name);
    hide NameOf;
  }

  /** A mark in tier B needs an invocation or a naming in the best grade, or, ungraded, a scenario with a
      passing run. */
  lemma TierBMarks(comps: seq<Component>, i: nat, src: Sources)
    requires i < |comps| && comps[i].tier.B?
    ensures var c := comps[i];
            MarkAll(comps, src)[i].dynamicDone == True <==>
            || (c.id in src.graded && src.graded[c.id].outcome in [TierBGrading.Invoked, TierBGrading.Named])
            || (c.id !in src.graded && c.outcome == "MEASURED_BY_TIER_A_SCENARIO" && c.evidence.Runs?
                && exists r :: r in c.evidence.runs && r.verdict == Some("PASS"))
  {
    var c := comps[i];
    if c.evidence.Runs? {
      if r :| r in c.evidence.runs && r.verdict == Some("PASS") { assert r == Run(Some("PASS")); }
    }
  }

  /** A mark in tier C needs both a passing static check and a proof of reach. */
  lemma TierCMarks(comps: seq<Component>, i: nat, src: Sources)
    requires i < |comps| && comps[i].tier.C?
    ensures var c := comps[i];
            MarkAll(comps, src)[i].dynamicDone == True <==>
            c.staticDone == True && c.id in src.reach && src.reach[c.id] != ""
  {}

  /** The derivation writes the marks, as true or false, and nothing else. */
  lemma OnlyMarksChange(comps: seq<Component>, i: nat, src: Sources)
    requires i < |comps|
    ensures |MarkAll(comps, src)| == |comps| && MarkAll(comps, src)[i].dynamicDone != Other
    ensures MarkAll(comps, src)[i].(dynamicDone := comps[i].dynamicDone) == comps[i]
  {
    hide Verdict;
  }

  // ---------------------------------------------------------------------------------------------
  // Counting.

  function CountStatic(comps: seq<Component>): nat
  {
    if comps == [] then 0
    else CountStatic(comps[..|comps| - 1]) + if comps[|comps| - 1].staticDone.True? then 1 else 0
  }

  /** Components marked done, as `derived_scalars` counts them. */
  function CountMarked(comps: seq<Component>): nat
  {
    if comps == [] then 0
    else CountMarked(comps[..|comps| - 1]) + if comps[|comps| - 1].dynamicDone.True? then 1 else 0
  }

  function CountVerdicts(comps: seq<Component>, src: Sources): nat
  {
    if comps == [] then 0
    else CountVerdicts(comps[..|comps| - 1], src) + if Verdict(comps[|comps| - 1], src) then 1 else 0
  }

  /** The verdicts keyed by id: a later component of the same id overwrites an earlier one. */
  function VerdictTable(comps: seq<Component>, src: Sources): (t: map<string, bool>)
    ensures forall c :: c in comps ==> c.id in t
  {
    if comps == [] then map[]
    else
      var last := comps[|comps| - 1];
      assert forall c :: c in comps ==> c == last || c in comps[..|comps| - 1];
      VerdictTable(comps[..|comps| - 1], src)[last.id := Verdict(last, src)]
  }

  /** The components as the table, rather than their own mark, describes them. */
  function Tabled(comps: seq<Component>, table: map<string, bool>): seq<Component>
    requires forall c :: c in comps ==> c.id in table
  {
    seq(|comps|, i requires 0 <= i < |comps| => comps[i].(dynamicDone := AsFlag(table[comps[i].id])))
  }

  function RequiredOf(comps: seq<Component>): seq<Component>
  {
    if comps == [] then []
    else RequiredOf(comps[..|comps| - 1]) + if comps[|comps| - 1].required.True? then [comps[|comps| - 1]] else []
  }

  function OfType(comps: seq<Component>, t: string): seq<Component>
  {
    if comps == [] then []
    else OfType(comps[..|comps| - 1], t) + if comps[|comps| - 1].ctype == t then [comps[|comps| - 1]] else []
  }

  /** `round(k / d * 100, 1)` in tenths of a percent, ties to the even tenth; zero for no components. */
  function Percent(k: nat, d: nat): nat
  {
    if d == 0 then 0 else Rounded(1000 * k / d, 1000 * k % d, d)
  }

  /** The quotient, or the next integer when the remainder is more than half, or half and the quotient odd. */
  function Rounded(q: nat, r: nat, d: nat): nat
  {
    if 2 * r > d || (2 * r == d && q % 2 == 1) then q + 1 else q
  }

  /** A percentage is the nearest number of tenths, and the even one of two that are as near; of nothing
      it is zero. */
  lemma PercentIsNearest(k: nat, d: nat)
    ensures d == 0 ==> Percent(k, d) == 0
    ensures d > 0 ==>
            var scaled, exact := d * Percent(k, d), 1000 * k;
            && 2 * scaled <= 2 * exact + d && 2 * exact <= 2 * scaled + d
            && (2 * scaled == 2 * exact + d || 2 * exact == 2 * scaled + d ==> Percent(k, d) % 2 == 0)
  {
    if d > 0 {
      var q, r := 1000 * k / d, 1000 * k % d;
      assert d * q + r == 1000 * k;
      assert d * (q + 1) == d * q + d;
    }
  }

  /** Components of one id get one verdict; unique ids are a special case. */
  predicate Consistent(comps: seq<Component>, src: Sources)
  {
    forall i, j :: 0 <= i < j < |comps| && comps[i].id == comps[j].id ==>
      Verdict(comps[i], src) == Verdict(comps[j], src)
  }

  // ---------------------------------------------------------------------------------------------
  // The files the writer keeps.

  datatype TypeRow = TypeRow(ctype: string, total: nat, staticDone: nat, dynamicDone: nat)

  datatype Coverage = Coverage(total: nat, staticDone: nat, dynamicDone: nat, requiredTotal: nat, requiredDone: nat,
                               staticPercent: nat, dynamicPercent: nat, requiredPercent: nat, noRequirement: int,
                               byType: seq<TypeRow>)

  /** The gate's state file: the mirrored figures, and everything this writer leaves alone. */
  datatype GateState = GateState(total: nat, completed: nat, staticPercent: nat, dynamicPercent: nat, rest: string)

  /** The three headline figures that `derived_scalars` recomputes from the manifest and the writer mirrors. */
  datatype Headline = Headline(total: nat, staticPercent: nat, dynamicPercent: nat)

  function DerivedScalars(comps: seq<Component>): Headline
  {
    var required := RequiredOf(comps);
    Headline(|comps|, Percent(CountStatic(comps), |comps|), Percent(CountMarked(required), |required|))
  }

  function Mirrored(st: GateState): Headline { Headline(st.total, st.staticPercent, st.dynamicPercent) }

  /** The components of some types. */
  function OfTypes(comps: seq<Component>, types: set<string>): seq<Component>
  {
    if comps == [] then []
    else
      var last := comps[|comps| - 1];
      OfTypes(comps[..|comps| - 1], types) + if last.ctype in types then [last] else []
  }

  const RULES := {"rule"}

  const HOOKS := {"hook", "hook-script"}

  /** The share of marked components among those of some types, as the rule and the hook figure have it. */
  function FamilyFigure(comps: seq<Component>, types: set<string>): nat
  {
    Percent(CountMarked(OfTypes(comps, types)), |OfTypes(comps, types)|)
  }

  /** What the gate state mirrors: the required figure comes from the verdict table. */
  function TableHeadline(comps: seq<Component>, table: map<string, bool>): Headline
    requires forall c :: c in comps ==> c.id in table
  {
    DerivedScalars(Tabled(comps, table))
  }

  /** How a run of the writer ends. */
  datatype Report = DivisionByZero | Derived(flips: nat, done: nat)

  class Store {
    var comps: seq<Component>
    var coverage: Option<Coverage>
    var gate: Option<GateState>

    constructor (comps: seq<Component>, coverage: Option<Coverage>, gate: Option<GateState>)
      ensures this.comps == comps && this.coverage == coverage && this.gate == gate
    {
      this.comps, this.coverage, this.gate := comps, coverage, gate;
    }

    /** `reconcile_dynamic`: derive every mark, print the two percentages, and on `apply` store the
        marks and the summaries. The print divides by the number of required components, so a manifest
        without any stops the run, dry or not, before anything is stored. Without a coverage file the
        gate state is left as it was. */
    method Reconcile(src: Sources, apply: bool) returns (r: Report)
      modifies this
      ensures r.DivisionByZero? <==> RequiredOf(old(comps)) == []
      ensures r.Derived? ==> r.done == CountVerdicts(old(comps), src)
      ensures r.Derived? ==> (r.flips == 0 <==> MarkAll(old(comps), src) == old(comps))
      ensures !apply || r.DivisionByZero? ==> comps == old(comps) && coverage == old(coverage) && gate == old(gate)
      ensures apply && r.Derived? ==> comps == MarkAll(old(comps), src)
      ensures (coverage.Some? <==> old(coverage).Some?) && (gate.Some? <==> old(gate).Some?)
      ensures apply && coverage.None? ==> gate == old(gate)
      ensures apply && r.Derived? && coverage.Some? ==>
                IsSummary(Tabled(old(comps), VerdictTable(old(comps), src)), r.done, coverage.value)
      ensures apply && r.Derived? && coverage.Some? && gate.Some? ==>
                && Mirrored(gate.value) == TableHeadline(old(comps), VerdictTable(old(comps), src))
                && gate.value.completed == CountStatic(old(comps)) && gate.value.rest == old(gate).value.rest
      ensures apply && r.Derived? && coverage.Some? && Consistent(old(comps), src) ==>
                && IsSummary(comps, CountMarked(comps), coverage.value)
                && (gate.Some? ==> Mirrored(gate.value) == DerivedScalars(comps))
    {
      var verdict, marked, flips, done := Derive(comps, src);
      var required := CountRequired(comps);
      if required == 0 {
        return DivisionByZero;
      }
      if apply {
        MarkedKeepIds(comps, src, verdict);
        ghost var before := comps;
        comps := marked;
        WriteSummary(verdict, done);
        if coverage.Some? && Consistent(before, src) { CheckerAgrees(before, src, coverage.value); }
      }
      return Derived(flips, done);
    }

    /** Rewrites the coverage summary and its mirror in the gate state. */
    method WriteSummary(verdict: map<string, bool>, totalDone: nat)
      requires forall c :: c in comps ==> c.id in verdict
      modifies this`coverage, this`gate
      ensures (coverage.Some? <==> old(coverage).Some?) && (gate.Some? <==> old(gate).Some?)
      ensures coverage.None? ==> gate == old(gate)
      ensures coverage.Some? ==> IsSummary(Tabled(comps, verdict), totalDone, coverage.value)
      ensures coverage.Some? && gate.Some? ==>
                && Mirrored(gate.value) == TableHeadline(comps, verdict)
                && gate.value.completed == CountStatic(comps) && gate.value.rest == old(gate).value.rest
    {
      if coverage.None? {
        return;
      }
      hide Percent, AreTypeRows;
      var n := |comps|;
      var staticDone, requiredTotal, requiredDone, byType := CountUp(comps, verdict);
      coverage := Some(Coverage(n, staticDone, totalDone, requiredTotal, requiredDone, Percent(staticDone, n),
                                Percent(totalDone, n), Percent(requiredDone, requiredTotal), n - requiredTotal,
                                byType));
      if gate.Some? {
        gate := Some(GateState(n, staticDone, Percent(staticDone, n), Percent(requiredDone, requiredTotal),
                               gate.value.rest));
      }
    }
  }

  /** The derivation loop: verdict table, marked components, and the printed counts. */
  method Derive(comps: seq<Component>, src: Sources)
    returns (verdict: map<string, bool>, marked: seq<Component>, flips: nat, done: nat)
    ensures verdict == VerdictTable(comps, src) && marked == MarkAll(comps, src) && done == CountVerdicts(comps, src)
    ensures flips == 0 <==> marked == comps
  {
    verdict, marked, flips, done := map[], [], 0, 0;
    assert comps[..0] == [] && MarkAll([], src) == [] && CountVerdicts([], src) == 0;
    hide Verdict, MarkAll, CountVerdicts, VerdictTable, AsFlag;
    for i := 0 to |comps|
      invariant marked == MarkAll(comps[..i], src)
      invariant done == CountVerdicts(comps[..i], src)
      invariant flips == 0 <==> marked == comps[..i]
      invariant verdict == VerdictTable(comps[..i], src)
    {
      var c := comps[i];
      assert comps[..i + 1] == comps[..i] + [c];
      DeriveOne(comps[..i], c, src);
      var d := Verdict(c, src);
      verdict := verdict[c.id := d];
      if d { done := done + 1; }
      if c.dynamicDone != AsFlag(d) { flips := flips + 1; }
      marked := marked + [c.(dynamicDone := AsFlag(d))];
    }
    assert comps[..|comps|] == comps;
  }

  method CountRequired(comps: seq<Component>) returns (n: nat)
    ensures n == |RequiredOf(comps)|
  {
    n := 0;
    for i := 0 to |comps|
      invariant n == |RequiredOf(comps[..i])|
    {
      assert comps[..i + 1] == comps[..i] + [comps[i]];
      RequiredSnoc(comps[..i], comps[i]);
      if comps[i].required.True? { n := n + 1; }
    }
    assert comps[..|comps|] == comps;
  }

  /** The summary's counting loop. */
  method CountUp(comps: seq<Component>, verdict: map<string, bool>)
    returns (staticDone: nat, requiredTotal: nat, requiredDone: nat, byType: seq<TypeRow>)
    requires forall c :: c in comps ==> c.id in verdict
    ensures var tabled := Tabled(comps, verdict);
            && staticDone == CountStatic(comps) == CountStatic(tabled)
            && requiredTotal == |RequiredOf(tabled)| <= |comps| && requiredDone == CountMarked(RequiredOf(tabled))
            && AreTypeRows(tabled, byType)
  {
    hide AreTypeRows, CountStatic, CountMarked, RequiredOf;
    staticDone, requiredTotal, requiredDone, byType := 0, 0, 0, [];
    ghost var tabled := Tabled(comps, verdict);
    EmptyCounts(comps[..0], tabled[..0]);
    for i := 0 to |comps|
      invariant staticDone == CountStatic(comps[..i]) == CountStatic(tabled[..i])
      invariant requiredTotal == |RequiredOf(tabled[..i])| <= i && requiredDone == CountMarked(RequiredOf(tabled[..i]))
      invariant AreTypeRows(tabled[..i], byType)
    {
      var c := comps[i];
      assert c in comps;
      var done := verdict[c.id];
      assert comps[..i + 1] == comps[..i] + [c] && tabled[..i + 1] == tabled[..i] + [tabled[i]];
      StaticSnoc(comps[..i], c);
      StaticSnoc(tabled[..i], tabled[i]);
      RequiredSnoc(tabled[..i], tabled[i]);
      if c.staticDone.True? { staticDone := staticDone + 1; }
      if c.required.True? {
        requiredTotal := requiredTotal + 1;
        if done { requiredDone := requiredDone + 1; }
      }
      byType := Bump(tabled[..i], byType, c, done);
    }
    assert comps[..|comps|] == comps && tabled[..|comps|] == tabled;
  }

  lemma EmptyCounts(xs: seq<Component>, ys: seq<Component>)
    requires xs == [] && ys == []
    ensures CountStatic(xs) == 0 == CountStatic(ys) && RequiredOf(ys) == [] && CountMarked(RequiredOf(ys)) == 0
    ensures AreTypeRows(ys, [])
  {}

  lemma StaticSnoc(comps: seq<Component>, c: Component)
    ensures CountStatic(comps + [c]) == CountStatic(comps) + if c.staticDone.True? then 1 else 0
  {
    assert (comps + [c])[..|comps|] == comps;
  }

  lemma RequiredSnoc(comps: seq<Component>, c: Component)
    ensures |RequiredOf(comps + [c])| == |RequiredOf(comps)| + if c.required.True? then 1 else 0
    ensures CountMarked(RequiredOf(comps + [c]))
            == CountMarked(RequiredOf(comps)) + if c.required.True? && c.dynamicDone.True? then 1 else 0
  {
    assert (comps + [c])[..|comps|] == comps;
    var before := RequiredOf(comps);
    if c.required.True? {
      assert RequiredOf(comps + [c]) == before + [c];
      assert (before + [c])[..|before|] == before;
    } else {
      assert RequiredOf(comps + [c]) == before;
    }
  }

  lemma MarkedKeepIds(comps: seq<Component>, src: Sources, table: map<string, bool>)
    requires forall c :: c in comps ==> c.id in table
    ensures forall c :: c in MarkAll(comps, src) ==> c.id in table
    ensures Tabled(MarkAll(comps, src), table) == Tabled(comps, table)
    ensures CountStatic(MarkAll(comps, src)) == CountStatic(comps)
  {
    hide Verdict;
    MarkKeepsStatic(comps, src);
    forall c | c in MarkAll(comps, src) ensures c.id in table {
      var k :| 0 <= k < |comps| && MarkAll(comps, src)[k] == c;
      assert comps[k] in comps;
    }
    forall i | 0 <= i < |comps| ensures MarkAll(comps, src)[i].id == comps[i].id && comps[i] in comps {}
  }

  lemma {:induction false} MarkKeepsStatic(comps: seq<Component>, src: Sources)
    ensures CountStatic(MarkAll(comps, src)) == CountStatic(comps)
  {
    hide Verdict;
    if comps != [] {
      var front := comps[..|comps| - 1];
      assert MarkAll(comps, src)[..|comps| - 1] == MarkAll(front, src);
      MarkKeepsStatic(front, src);
    }
  }

  /** Adds one component to its type's row, opening the row if it is the first of its type. */
  method Bump(ghost seen: seq<Component>, rows: seq<TypeRow>, c: Component, done: bool) returns (r: seq<TypeRow>)
    requires AreTypeRows(seen, rows)
    ensures AreTypeRows(seen + [c.(dynamicDone := AsFlag(done))], r)
  {
    r := rows;
    var k := 0;
    while k < |r| && r[k].ctype != c.ctype
      invariant 0 <= k <= |r| && forall j :: 0 <= j < k ==> r[j].ctype != c.ctype
    {
      k := k + 1;
    }
    if k == |r| {
      NewTypeRow(seen, rows, c);
      r := r + [TypeRow(c.ctype, 0, 0, 0)];
    }
    ghost var padded := r;
    r := r[k := TypeRow(c.ctype, r[k].total + 1, r[k].staticDone + (if c.staticDone.True? then 1 else 0),
                        r[k].dynamicDone + if done then 1 else 0)];
    BumpedRow(seen, padded, k, c.(dynamicDone := AsFlag(done)), r);
  }

  function RowFor(comps: seq<Component>, t: string): TypeRow
  {
    TypeRow(t, |OfType(comps, t)|, CountStatic(OfType(comps, t)), CountMarked(OfType(comps, t)))
  }

  predicate DistinctTypes(rows: seq<TypeRow>)
  {
    forall i, j :: 0 <= i < j < |rows| ==> rows[i].ctype != rows[j].ctype
  }

  /** One row a type, each counting the components of that type. */
  ghost predicate AreTypeRows(comps: seq<Component>, rows: seq<TypeRow>)
  {
    && DistinctTypes(rows)
    && (forall i :: 0 <= i < |rows| ==> rows[i] == RowFor(comps, rows[i].ctype))
    && (forall c :: c in comps ==> exists i :: 0 <= i < |rows| && rows[i].ctype == c.ctype)
  }

  lemma OfTypeSnoc(comps: seq<Component>, c: Component, t: string)
    ensures RowFor(comps + [c], t) ==
            var r := RowFor(comps, t);
            if c.ctype == t then TypeRow(t, r.total + 1, r.staticDone + (if c.staticDone.True? then 1 else 0),
                                         r.dynamicDone + if c.dynamicDone.True? then 1 else 0)
            else r
  {
    assert (comps + [c])[..|comps|] == comps;
    var before := OfType(comps, t);
    if c.ctype == t {
      assert (before + [c])[..|before|] == before;
      assert OfType(comps + [c], t) == before + [c];
    } else {
      assert OfType(comps + [c], t) == before;
    }
  }

  lemma {:induction false} NoneOfType(comps: seq<Component>, t: string)
    requires forall c :: c in comps ==> c.ctype != t
    ensures OfType(comps, t) == []
  {
    if comps != [] {
      assert comps[|comps| - 1] in comps;
      NoneOfType(comps[..|comps| - 1], t);
    }
  }

  lemma NewTypeRow(comps: seq<Component>, rows: seq<TypeRow>, c: Component)
    requires AreTypeRows(comps, rows) && forall j :: 0 <= j < |rows| ==> rows[j].ctype != c.ctype
    ensures AreTypeRows(comps, rows + [TypeRow(c.ctype, 0, 0, 0)])
  {
    var padded := rows + [TypeRow(c.ctype, 0, 0, 0)];
    forall d | d in comps ensures d.ctype != c.ctype {
      var i :| 0 <= i < |rows| && rows[i].ctype == d.ctype;
    }
    NoneOfType(comps, c.ctype);
    forall d | d in comps ensures exists i :: 0 <= i < |padded| && padded[i].ctype == d.ctype {
      var i :| 0 <= i < |rows| && rows[i].ctype == d.ctype;
      assert padded[i].ctype == d.ctype;
    }
  }

  lemma BumpedRow(comps: seq<Component>, rows: seq<TypeRow>, k: nat, c: Component, bumped: seq<TypeRow>)
    requires AreTypeRows(comps, rows) && k < |rows| && rows[k].ctype == c.ctype
    requires bumped == rows[k := TypeRow(c.ctype, rows[k].total + 1,
                                         rows[k].staticDone + (if c.staticDone.True? then 1 else 0),
                                         rows[k].dynamicDone + if c.dynamicDone.True? then 1 else 0)]
    ensures AreTypeRows(comps + [c], bumped)
  {
    hide RowFor;
    forall i | 0 <= i < |bumped| ensures bumped[i] == RowFor(comps + [c], bumped[i].ctype) {
      OfTypeSnoc(comps, c, rows[i].ctype);
      assert bumped[i].ctype == rows[i].ctype && rows[i] == RowFor(comps, rows[i].ctype);
    }
    forall d | d in comps + [c] ensures exists i :: 0 <= i < |bumped| && bumped[i].ctype == d.ctype {
      if d in comps {
        var i :| 0 <= i < |rows| && rows[i].ctype == d.ctype;
        assert bumped[i].ctype == d.ctype;
      } else {
        assert bumped[k].ctype == d.ctype;
      }
    }
  }

  /** What the coverage file must say about the components. */
  ghost predicate IsSummary(comps: seq<Component>, totalDone: nat, cov: Coverage)
  {
    && cov.total == |comps| && cov.staticDone == CountStatic(comps) && cov.dynamicDone == totalDone
    && cov.requiredTotal == |RequiredOf(comps)| && cov.requiredDone == CountMarked(RequiredOf(comps))
    && cov.staticPercent == Percent(cov.staticDone, cov.total)
    && cov.dynamicPercent == Percent(cov.dynamicDone, cov.total)
    && cov.requiredPercent == Percent(cov.requiredDone, cov.requiredTotal)
    && cov.noRequirement == cov.total - cov.requiredTotal && cov.noRequirement >= 0
    && AreTypeRows(comps, cov.byType)
  }

  lemma DeriveOne(front: seq<Component>, c: Component, src: Sources)
    ensures var d := Verdict(c, src);
            && VerdictTable(front + [c], src) == VerdictTable(front, src)[c.id := d]
            && MarkAll(front + [c], src) == MarkAll(front, src) + [c.(dynamicDone := AsFlag(d))]
            && CountVerdicts(front + [c], src) == CountVerdicts(front, src) + (if d then 1 else 0)
            && (MarkAll(front + [c], src) == front + [c]
                <==> MarkAll(front, src) == front && c.dynamicDone == AsFlag(d))
  {
    hide Verdict;
    var all := front + [c];
    assert all[..|front|] == front;
    assert MarkAll(all, src) == MarkAll(front, src) + [Mark(c, src)];
    hide VerdictTable, CountVerdicts;
    assert Mark(c, src) == c <==> c.dynamicDone == AsFlag(Verdict(c, src));
    assert MarkAll(all, src) == all ==> MarkAll(front, src) == MarkAll(all, src)[..|front|] == front;
    assert MarkAll(all, src) == all ==> Mark(c, src) == MarkAll(all, src)[|front|] == c;
  }

  /** The table speaks for the last component of each id. */
  lemma {:induction false} TableIsLast(comps: seq<Component>, src: Sources, k: nat)
    requires k < |comps| && forall j :: k < j < |comps| ==> comps[j].id != comps[k].id
    ensures VerdictTable(comps, src)[comps[k].id] == Verdict(comps[k], src)
  {
    if k < |comps| - 1 { TableIsLast(comps[..|comps| - 1], src, k); }
  }

  lemma {:induction false} LastOfId(comps: seq<Component>, i: nat) returns (k: nat)
    requires i < |comps|
    ensures i <= k < |comps| && comps[k].id == comps[i].id
    ensures forall j :: k < j < |comps| ==> comps[j].id != comps[k].id
    decreases |comps| - i
  {
    if j :| i < j < |comps| && comps[j].id == comps[i].id { k := LastOfId(comps, j); } else { k := i; }
  }

  /** The table describes the components as their own marks do exactly when components of one id get
      one verdict. */
  lemma TableDescribesMarks(comps: seq<Component>, src: Sources)
    ensures Tabled(comps, VerdictTable(comps, src)) == MarkAll(comps, src) <==> Consistent(comps, src)
  {
    var t, m := Tabled(comps, VerdictTable(comps, src)), MarkAll(comps, src);
    hide Verdict, VerdictTable;
    forall i | 0 <= i < |comps|
      ensures t[i] == m[i] <==> VerdictTable(comps, src)[comps[i].id] == Verdict(comps[i], src) {}
    if Consistent(comps, src) {
      forall i | 0 <= i < |comps| ensures t[i] == m[i] {
        var k := LastOfId(comps, i);
        TableIsLast(comps, src, k);
        assert i < k ==> Verdict(comps[i], src) == Verdict(comps[k], src);
      }
    }
    if t == m {
      forall i, j | 0 <= i < j < |comps| && comps[i].id == comps[j].id
        ensures Verdict(comps[i], src) == Verdict(comps[j], src)
      {
        assert t[i] == m[i] && t[j] == m[j];
      }
    }
  }

  lemma {:induction false} VerdictsAreMarks(comps: seq<Component>, src: Sources)
    ensures CountVerdicts(comps, src) == CountMarked(MarkAll(comps, src))
  {
    hide Verdict;
    if comps != [] {
      var front := comps[..|comps| - 1];
      assert MarkAll(comps, src)[..|comps| - 1] == MarkAll(front, src);
      VerdictsAreMarks(front, src);
    }
  }

  /** When components of one id get one verdict, the independent recomputation from the stored manifest
      finds the mirrored figures, the summary agrees with the stored marks, and its type rows add up to
      its totals; the recomputed rule and hook figures are the ones that the summary's rows of those
      types give. */
  lemma CheckerAgrees(comps: seq<Component>, src: Sources, cov: Coverage)
    requires Consistent(comps, src)
    requires IsSummary(Tabled(comps, VerdictTable(comps, src)), CountVerdicts(comps, src), cov)
    ensures TableHeadline(comps, VerdictTable(comps, src)) == DerivedScalars(MarkAll(comps, src))
    ensures IsSummary(MarkAll(comps, src), CountMarked(MarkAll(comps, src)), cov)
    ensures var marked := MarkAll(comps, src);
            var required := RequiredOf(marked);
            cov == Coverage(|marked|, CountStatic(marked), CountMarked(marked), |required|, CountMarked(required),
                            Percent(CountStatic(marked), |marked|), Percent(CountMarked(marked), |marked|),
                            Percent(CountMarked(required), |required|), |marked| - |required|, cov.byType)
    ensures SumTotal(cov.byType) == cov.total && SumStatic(cov.byType) == cov.staticDone
            && SumDynamic(cov.byType) == cov.dynamicDone
    ensures FamilyFigure(MarkAll(comps, src), RULES) == RowsFigure(cov.byType, RULES)
    ensures FamilyFigure(MarkAll(comps, src), HOOKS) == RowsFigure(cov.byType, HOOKS)
  {
    TableDescribesMarks(comps, src);
    VerdictsAreMarks(comps, src);
    var marked := MarkAll(comps, src);
    TypeRowsAddUp(marked, cov.byType);
    FamilyAddsUp(marked, cov.byType, RULES);
    FamilyAddsUp(marked, cov.byType, HOOKS);
  }

  /** Required components that the table, respectively their own verdict alone, counts as done. */
  function Promoted(comps: seq<Component>, src: Sources, table: map<string, bool>): nat
    requires forall c :: c in comps ==> c.id in table
  {
    if comps == [] then 0
    else
      var c := comps[|comps| - 1];
      Promoted(comps[..|comps| - 1], src, table) + if c.required.True? && table[c.id] && !Verdict(c, src) then 1 else 0
  }

  function Overruled(comps: seq<Component>, src: Sources, table: map<string, bool>): nat
    requires forall c :: c in comps ==> c.id in table
  {
    if comps == [] then 0
    else
      var c := comps[|comps| - 1];
      Overruled(comps[..|comps| - 1], src, table) + if c.required.True? && !table[c.id] && Verdict(c, src) then 1 else 0
  }

  /** The mirror counts the promoted components on top of the stored marks and leaves out the overruled. */
  lemma {:induction false} DriftIsCounted(comps: seq<Component>, src: Sources, table: map<string, bool>)
    requires forall c :: c in comps ==> c.id in table
    ensures |RequiredOf(Tabled(comps, table))| == |RequiredOf(MarkAll(comps, src))|
    ensures CountMarked(RequiredOf(Tabled(comps, table))) + Overruled(comps, src, table)
            == CountMarked(RequiredOf(MarkAll(comps, src))) + Promoted(comps, src, table)
  {
    hide Verdict, RequiredOf, CountMarked, Tabled, MarkAll;
    if comps == [] {
      NoComponents(src, table);
    } else {
      var front, c := comps[..|comps| - 1], comps[|comps| - 1];
      DriftIsCounted(front, src, table);
      assert c in comps && comps == front + [c];
      var tabled := c.(dynamicDone := AsFlag(table[c.id]));
      DescribedSnoc(front, c, src, table);
      RequiredSnoc(Tabled(front, table), tabled);
      RequiredSnoc(MarkAll(front, src), Mark(c, src));
    }
  }

  lemma NoComponents(src: Sources, table: map<string, bool>)
    ensures RequiredOf(Tabled([], table)) == [] == RequiredOf(MarkAll([], src)) && CountMarked([]) == 0
  {}

  lemma DescribedSnoc(front: seq<Component>, c: Component, src: Sources, table: map<string, bool>)
    requires forall d :: d in front + [c] ==> d.id in table
    ensures c in front + [c] && forall d :: d in front ==> d in front + [c]
    ensures Tabled(front + [c], table) == Tabled(front, table) + [c.(dynamicDone := AsFlag(table[c.id]))]
    ensures MarkAll(front + [c], src) == MarkAll(front, src) + [Mark(c, src)]
  {
    hide Mark;
  }

  /** Repeated ids: the two counts of required components done are equal exactly when as many of them are
      promoted as overruled. The headlines are equal then, and for up to a thousand required components,
      which rounding still tells apart, only then. */
  lemma DuplicateIdsDrift(comps: seq<Component>, src: Sources)
    ensures var table := VerdictTable(comps, src);
            && (Promoted(comps, src, table) == Overruled(comps, src, table) <==>
                  CountMarked(RequiredOf(Tabled(comps, table))) == CountMarked(RequiredOf(MarkAll(comps, src))))
            && (Promoted(comps, src, table) == Overruled(comps, src, table) ==>
                  TableHeadline(comps, table) == DerivedScalars(MarkAll(comps, src)))
            && (|RequiredOf(MarkAll(comps, src))| <= 1000
                && TableHeadline(comps, table) == DerivedScalars(MarkAll(comps, src)) ==>
                  Promoted(comps, src, table) == Overruled(comps, src, table))
  {
    var table := VerdictTable(comps, src);
    var t, m := Tabled(comps, table), MarkAll(comps, src);
    DriftIsCounted(comps, src, table);
    StaticIgnoresTable(comps, table);
    MarkKeepsStatic(comps, src);
    hide RequiredOf, CountMarked, CountStatic, VerdictTable, Promoted, Overruled, Percent, Tabled, MarkAll;
    var x, y, d := CountMarked(RequiredOf(t)), CountMarked(RequiredOf(m)), |RequiredOf(m)|;
    MarkedAtMostAll(RequiredOf(t));
    MarkedAtMostAll(RequiredOf(m));
    SameSize(comps, src, table);
    if 0 < d <= 1000 && x != y { PercentIsStrict(if x < y then x else y, if x < y then y else x, d); }
  }

  lemma SameSize(comps: seq<Component>, src: Sources, table: map<string, bool>)
    requires forall c :: c in comps ==> c.id in table
    ensures |Tabled(comps, table)| == |MarkAll(comps, src)|
  {}

  lemma {:induction false} MarkedAtMostAll(comps: seq<Component>)
    ensures CountMarked(comps) <= |comps|
  {
    if comps != [] { MarkedAtMostAll(comps[..|comps| - 1]); }
  }

  /** Rounding to tenths of a percent tells counts out of at most a thousand apart. */
  lemma PercentIsStrict(j: nat, k: nat, d: nat)
    requires j < k && 0 < d <= 1000
    ensures Percent(j, d) < Percent(k, d)
  {
    var x, y := 1000 * j, 1000 * k;
    assert d == 1000 ==> x % d == 0;
    hide Rounded;
    QuotientGrows(x / d, x % d, y / d, y % d, d, x, y);
    RoundedIsStrict(x / d, x % d, y / d, y % d, d);
  }

  lemma RoundedIsStrict(q: nat, r: nat, p: nat, s: nat, d: nat)
    requires q < p && (p == q + 1 ==> r < s || r == s == 0) && 0 < d
    ensures Rounded(q, r, d) < Rounded(p, s, d)
  {}

  lemma QuotientGrows(q: nat, r: nat, p: nat, s: nat, d: nat, x: nat, y: nat)
    requires x == q * d + r && y == p * d + s && r < d && s < d && y >= x + d
    requires y == x + d ==> r == 0
    ensures p > q && (p == q + 1 ==> r < s || r == s == 0)
  {
    ProductIsMonotone(p, q, d);
    assert (q + 1) * d == q * d + d;
  }

  lemma ProductIsMonotone(p: nat, q: nat, d: nat)
    ensures p <= q ==> p * d <= q * d
  {
    if p <= q { assert q * d == p * d + (q - p) * d; }
  }

  lemma {:induction false} StaticIgnoresTable(comps: seq<Component>, table: map<string, bool>)
    requires forall c :: c in comps ==> c.id in table
    ensures CountStatic(Tabled(comps, table)) == CountStatic(comps)
  {
    if comps != [] {
      var front := comps[..|comps| - 1];
      assert Tabled(comps, table)[..|comps| - 1] == Tabled(front, table);
      StaticIgnoresTable(front, table);
    }
  }

  /** The smallest drift: two required components of one id, and the later verdict speaks for both. */
  lemma PairDrifts(c: Component, d: Component, src: Sources)
    requires c.id == d.id && c.required.True? && d.required.True? && Verdict(c, src) != Verdict(d, src)
    ensures TableHeadline([c, d], VerdictTable([c, d], src)) != DerivedScalars(MarkAll([c, d], src))
  {
    hide Verdict;
    var both := [c, d];
    var table := VerdictTable(both, src);
    assert table[c.id] == Verdict(d, src);
    assert both[..1] == [c] && both[..1][..0] == [];
    assert Promoted(both[..1], src, table) == if Verdict(d, src) then 1 else 0;
    assert Overruled(both[..1], src, table) == if Verdict(d, src) then 0 else 1;
    PairOfRequired(Mark(c, src), Mark(d, src));
    assert MarkAll(both, src) == [Mark(c, src), Mark(d, src)];
    assert Promoted(both, src, table) == Promoted(both[..1], src, table);
    assert Overruled(both, src, table) == Overruled(both[..1], src, table);
    hide Promoted, Overruled, RequiredOf, CountMarked, VerdictTable, MarkAll;
    DuplicateIdsDrift(both, src);
  }

  lemma PairOfRequired(c: Component, d: Component)
    requires c.required.True? && d.required.True?
    ensures |RequiredOf([c, d])| == 2
  {
    hide RequiredOf, CountMarked, AreTypeRows;
    EmptyCounts([], []);
    RequiredSnoc([], c);
    RequiredSnoc([c], d);
    assert [] + [c] == [c] && [c] + [d] == [c, d];
  }

  // ---------------------------------------------------------------------------------------------
  // Conservation across the type rows.

  function SumTotal(rows: seq<TypeRow>): nat { if rows == [] then 0 else rows[0].total + SumTotal(rows[1..]) }

  function SumStatic(rows: seq<TypeRow>): nat { if rows == [] then 0 else rows[0].staticDone + SumStatic(rows[1..]) }

  function SumDynamic(rows: seq<TypeRow>): nat { if rows == [] then 0 else rows[0].dynamicDone + SumDynamic(rows[1..]) }

  function RowsIn(rows: seq<TypeRow>, types: set<string>): seq<TypeRow>
  {
    if rows == [] then [] else (if rows[0].ctype in types then [rows[0]] else []) + RowsIn(rows[1..], types)
  }

  function RowsFigure(rows: seq<TypeRow>, types: set<string>): nat
  {
    Percent(SumDynamic(RowsIn(rows, types)), SumTotal(RowsIn(rows, types)))
  }

  lemma {:induction false} RowsInMembers(rows: seq<TypeRow>, types: set<string>, r: TypeRow)
    ensures r in RowsIn(rows, types) <==> r in rows && r.ctype in types
  {
    if rows != [] { RowsInMembers(rows[1..], types, r); }
  }

  lemma {:induction false} RowsInDistinct(rows: seq<TypeRow>, types: set<string>)
    requires DistinctTypes(rows)
    ensures DistinctTypes(RowsIn(rows, types))
  {
    if rows != [] {
      var rest := RowsIn(rows[1..], types);
      RowsInDistinct(rows[1..], types);
      forall j | 0 <= j < |rest| ensures rest[j].ctype != rows[0].ctype {
        RowsInMembers(rows[1..], types, rest[j]);
      }
    }
  }

  lemma {:induction false} OfTypesKeeps(comps: seq<Component>, types: set<string>, t: string)
    requires t in types
    ensures OfType(OfTypes(comps, types), t) == OfType(comps, t)
    ensures forall c :: c in OfTypes(comps, types) ==> c in comps && c.ctype in types
  {
    if comps != [] {
      var front, last := comps[..|comps| - 1], comps[|comps| - 1];
      var family := OfTypes(front, types);
      OfTypesKeeps(front, types, t);
      assert (family + [last])[..|family|] == family;
      assert family + [] == family;
    }
  }

  lemma {:induction false} OfNoTypes(comps: seq<Component>, types: set<string>)
    requires types == {}
    ensures OfTypes(comps, types) == []
  {
    if comps != [] { OfNoTypes(comps[..|comps| - 1], types); }
  }

  /** The rows of some types count the components of those types. */
  lemma FamilyAddsUp(comps: seq<Component>, rows: seq<TypeRow>, types: set<string>)
    requires AreTypeRows(comps, rows)
    ensures SumTotal(RowsIn(rows, types)) == |OfTypes(comps, types)|
    ensures SumDynamic(RowsIn(rows, types)) == CountMarked(OfTypes(comps, types))
  {
    var family, those := OfTypes(comps, types), RowsIn(rows, types);
    RowsInDistinct(rows, types);
    if types == {} { OfNoTypes(comps, types); }
    forall c | c in family ensures c in comps && c.ctype in types {
      var t :| t in types;
      OfTypesKeeps(comps, types, t);
    }
    forall i | 0 <= i < |those| ensures those[i] == RowFor(family, those[i].ctype) {
      RowsInMembers(rows, types, those[i]);
      OfTypesKeeps(comps, types, those[i].ctype);
    }
    hide RowFor;
    forall c | c in family ensures exists i :: 0 <= i < |those| && those[i].ctype == c.ctype {
      var i :| 0 <= i < |rows| && rows[i].ctype == c.ctype;
      RowsInMembers(rows, types, rows[i]);
      var j :| 0 <= j < |those| && those[j] == rows[i];
    }
    TypeRowsAddUp(family, those);
  }

  /** The rows without the last component: its row drops by one, the others stay. */
  function Before(comps: seq<Component>, rows: seq<TypeRow>): seq<TypeRow>
  {
    seq(|rows|, i requires 0 <= i < |rows| => RowFor(comps, rows[i].ctype))
  }

  lemma {:induction false} SumsDrop(comps: seq<Component>, c: Component, rows: seq<TypeRow>, k: int)
    requires DistinctTypes(rows)
    requires forall i :: 0 <= i < |rows| ==> rows[i] == RowFor(comps + [c], rows[i].ctype)
    requires if 0 <= k < |rows| then rows[k].ctype == c.ctype
             else forall i :: 0 <= i < |rows| ==> rows[i].ctype != c.ctype
    ensures var hit := if 0 <= k < |rows| then 1 else 0;
            && SumTotal(rows) == SumTotal(Before(comps, rows)) + hit
            && SumStatic(rows) == SumStatic(Before(comps, rows)) + (if c.staticDone.True? then hit else 0)
            && SumDynamic(rows) == SumDynamic(Before(comps, rows)) + (if c.dynamicDone.True? then hit else 0)
  {
    hide RowFor;
    if rows != [] {
      OfTypeSnoc(comps, c, rows[0].ctype);
      SumsDrop(comps, c, rows[1..], k - 1);
      assert Before(comps, rows)[1..] == Before(comps, rows[1..]);
      assert Before(comps, rows)[0] == RowFor(comps, rows[0].ctype);
    }
  }

  lemma {:induction false} EmptyRows(rows: seq<TypeRow>)
    requires forall i :: 0 <= i < |rows| ==> rows[i] == RowFor([], rows[i].ctype)
    ensures SumTotal(rows) == 0 && SumStatic(rows) == 0 && SumDynamic(rows) == 0
  {
    if rows != [] {
      assert rows[0] == RowFor([], rows[0].ctype);
      EmptyRows(rows[1..]);
    }
  }

  /** The by-type counters add up to the totals. */
  lemma {:induction false} TypeRowsAddUp(comps: seq<Component>, rows: seq<TypeRow>)
    requires AreTypeRows(comps, rows)
    ensures SumTotal(rows) == |comps| && SumStatic(rows) == CountStatic(comps) && SumDynamic(rows) == CountMarked(comps)
    decreases |comps|
  {
    hide RowFor;
    if comps == [] {
      EmptyRows(rows);
    } else {
      var front, c := comps[..|comps| - 1], comps[|comps| - 1];
      assert comps == front + [c] && c in comps;
      var k :| 0 <= k < |rows| && rows[k].ctype == c.ctype;
      SumsDrop(front, c, rows, k);
      var before := Before(front, rows);
      forall i | 0 <= i < |rows|
        ensures before[i].ctype == rows[i].ctype && before[i] == RowFor(front, before[i].ctype)
      {
        RowForType(front, rows[i].ctype);
      }
      forall d | d in front ensures exists i :: 0 <= i < |before| && before[i].ctype == d.ctype {
        assert d in comps;
        var i :| 0 <= i < |rows| && rows[i].ctype == d.ctype;
        assert before[i].ctype == d.ctype;
      }
      TypeRowsAddUp(front, before);
    }
  }

  lemma RowForType(comps: seq<Component>, t: string)
    ensures RowFor(comps, t).ctype == t
  {}

  // ---------------------------------------------------------------------------------------------
  // Idempotence, and the older Tier B writer.

  /** The same component under any other mark. */
  predicate SameButMark(c: Component, d: Component) { d == c.(dynamicDone := d.dynamicDone) }

  lemma VerdictIgnoresMark(c: Component, f: Flag, src: Sources)
    ensures Verdict(c.(dynamicDone := f), src) == Verdict(c, src)
  {}

  /** Deriving twice is deriving once, and what the marks were before does not matter. */
  lemma ReconcileIsIdempotent(comps: seq<Component>, others: seq<Component>, src: Sources)
    requires |others| == |comps| && forall i :: 0 <= i < |comps| ==> SameButMark(comps[i], others[i])
    ensures MarkAll(MarkAll(comps, src), src) == MarkAll(comps, src)
    ensures MarkAll(others, src) == MarkAll(comps, src)
  {
    forall i | 0 <= i < |comps|
      ensures Mark(Mark(comps[i], src), src) == Mark(comps[i], src) && Mark(others[i], src) == Mark(comps[i], src)
    {
      VerdictIgnoresMark(comps[i], AsFlag(Verdict(comps[i], src)), src);
      VerdictIgnoresMark(comps[i], others[i].dynamicDone, src);
    }
    hide Mark;
  }

  predicate NothingBehind(e: Evidence) { e.NoEvidence? || e == Pointer("") || e == Runs([]) }

  /** A Tier B mark with no grade and no other evidence. */
  predicate Unsupported(c: Component, graded: map<string, Graded>)
  {
    c.tier.B? && c.id !in graded && c.dynamicDone.True? && NothingBehind(c.evidence)
  }

  function OutcomeName(o: TierBGrading.Outcome): string
  {
    match o
    case Invoked => "INVOKED"
    case Named => "NAMED"
    case Inconclusive => "INCONCLUSIVE"
    case Substituted => "SUBSTITUTED"
    case Missed => "MISSED"
  }

  function Regrade(c: Component, graded: map<string, Graded>): Component
  {
    if c.tier.B? && c.id in graded then
      var g := graded[c.id];
      c.(dynamicDone := AsFlag(Measured(g.outcome)), outcome := OutcomeName(g.outcome),
         evidence := Pointer(g.run + "/" + g.batch))
    else c
  }

  /** A graded row is rewritten to its grade's outcome and the place it was found; no other row is. */
  lemma RegradeRewritesGraded(c: Component, graded: map<string, Graded>)
    ensures c.tier.B? && c.id in graded ==>
              var g := graded[c.id];
              Regrade(c, graded)
              == c.(dynamicDone := if g.outcome in [TierBGrading.Invoked, TierBGrading.Named] then True else False,
                    outcome := ["INVOKED", "NAMED", "INCONCLUSIVE", "SUBSTITUTED", "MISSED"][CollectRank(g.outcome)],
                    evidence := Pointer(g.run + "/" + g.batch))
    ensures !c.tier.B? || c.id !in graded ==> Regrade(c, graded) == c
  {}

  function RegradeAll(comps: seq<Component>, graded: map<string, Graded>): seq<Component>
  {
    seq(|comps|, i requires 0 <= i < |comps| => Regrade(comps[i], graded))
  }

  /** `tier_b_reconcile --apply`: one unsupported mark and nothing is written. */
  method ReconcileTierB(comps: seq<Component>, graded: map<string, Graded>) returns (out: seq<Component>, code: int)
    ensures code == if exists c :: c in comps && Unsupported(c, graded) then 1 else 0
    ensures code == 1 <==> exists c :: c in comps && c.tier == B && c.id !in graded && c.dynamicDone == True
                                       && c.evidence in [NoEvidence, Pointer(""), Runs([])]
    ensures out == if code == 1 then comps else RegradeAll(comps, graded)
  {
    out := [];
    var unsupported := false;
    for i := 0 to |comps|
      invariant unsupported <==> exists c :: c in comps[..i] && Unsupported(c, graded)
      invariant out == RegradeAll(comps[..i], graded)
    {
      var c := comps[i];
      assert comps[..i + 1] == comps[..i] + [c];
      if c.tier.B? && c.id !in graded && c.dynamicDone.True? && NothingBehind(c.evidence) {
        assert Unsupported(c, graded);
        unsupported := true;
      }
      out := out + [Regrade(c, graded)];
    }
    assert comps[..|comps|] == comps;
    if unsupported {
      return comps, 1;
    }
    return out, 0;
  }

  function Marks(comps: seq<Component>): seq<Flag>
  {
    seq(|comps|, i requires 0 <= i < |comps| => comps[i].dynamicDone)
  }

  lemma RegradeAgrees(c: Component, src: Sources)
    ensures Verdict(Regrade(c, src.graded), src) == Verdict(c, src)
    ensures Regrade(Mark(c, src), src.graded).dynamicDone == Mark(c, src).dynamicDone
    ensures !Unsupported(Mark(c, src), src.graded)
  {}

  /** The two writers agree on every mark: running the Tier B writer first, refused or not, does not
      show in what the derivation marks, and running it afterwards is accepted and moves no mark. */
  lemma WritersCommute(comps: seq<Component>, src: Sources)
    ensures Marks(MarkAll(RegradeAll(comps, src.graded), src)) == Marks(MarkAll(comps, src))
    ensures !exists c :: c in MarkAll(comps, src) && Unsupported(c, src.graded)
    ensures Marks(RegradeAll(MarkAll(comps, src), src.graded)) == Marks(MarkAll(comps, src))
  {
    forall i | 0 <= i < |comps|
      ensures Mark(Regrade(comps[i], src.graded), src).dynamicDone == Mark(comps[i], src).dynamicDone
      ensures Regrade(Mark(comps[i], src), src.graded).dynamicDone == Mark(comps[i], src).dynamicDone
      ensures !Unsupported(Mark(comps[i], src), src.graded)
    {
      RegradeAgrees(comps[i], src);
    }
    hide Mark, Regrade, Unsupported;
  }

  // ---------------------------------------------------------------------------------------------
  // The best grade of each component.

  /** One graded row; false triggers carry no outcome, and an unknown name stops the collection. */
  datatype RowOutcome = NoOutcome | Known(o: TierBGrading.Outcome) | Unknown(text: string)

  datatype GradeRow = GradeRow(id: string, outcome: RowOutcome, batch: string)

  datatype GradeFile = GradeFile(run: string, rows: seq<GradeRow>)

  /** Strongest first, as the collector ranks them. */
  function CollectRank(o: TierBGrading.Outcome): nat
  {
    match o
    case Invoked => 0
    case Named => 1
    case Inconclusive => 2
    case Substituted => 3
    case Missed => 4
  }

  ghost predicate HasGrade(files: seq<GradeFile>, id: string, o: TierBGrading.Outcome)
  {
    exists f, r :: f in files && r in f.rows && r.id == id && r.outcome == Known(o)
  }

  ghost predicate AllKnown(files: seq<GradeFile>)
  {
    forall f, r :: f in files && r in f.rows ==> !r.outcome.Unknown?
  }

  /** The table holds, for each graded id, a grade that no other grade of the id outranks. */
  ghost predicate IsBest(files: seq<GradeFile>, best: map<string, Graded>)
  {
    && (forall id :: id in best ==> HasGrade(files, id, best[id].outcome))
    && (forall id, o :: HasGrade(files, id, o) ==> id in best && CollectRank(best[id].outcome) <= CollectRank(o))
  }

  method Collect(files: seq<GradeFile>) returns (best: map<string, Graded>, ok: bool)
    ensures ok <==> AllKnown(files)
    ensures ok ==> IsBest(files, best)
  {
    best := map[];
    for n := 0 to |files|
      invariant AllKnown(files[..n]) && IsBest(files[..n], best)
    {
      var f := files[n];
      var rest := files[..n];
      NoRowsYet(rest, f.run, best);
      for k := 0 to |f.rows|
        invariant AllKnown(rest + [GradeFile(f.run, f.rows[..k])])
        invariant IsBest(rest + [GradeFile(f.run, f.rows[..k])], best)
      {
        var r := f.rows[k];
        if r.outcome.Unknown? {
          assert f in files && r in f.rows;
          return best, false;
        }
        ghost var was := best;
        if r.outcome.Known? {
          if r.id !in best || CollectRank(r.outcome.o) < CollectRank(best[r.id].outcome) {
            best := best[r.id := Graded(r.outcome.o, f.run, r.batch)];
          }
        }
        OneMoreRow(rest, f, k, was, best);
      }
      WholeFile(files, n);
    }
    assert files[..|files|] == files;
    return best, true;
  }

  lemma NoRowsYet(rest: seq<GradeFile>, run: string, best: map<string, Graded>)
    requires AllKnown(rest) && IsBest(rest, best)
    ensures AllKnown(rest + [GradeFile(run, [])]) && IsBest(rest + [GradeFile(run, [])], best)
  {
    forall id, o ensures HasGrade(rest + [GradeFile(run, [])], id, o) <==> HasGrade(rest, id, o) {
      if HasGrade(rest, id, o) {
        var g, r :| g in rest && r in g.rows && r.id == id && r.outcome == Known(o);
        assert g in rest + [GradeFile(run, [])];
      }
    }
  }

  lemma WholeFile(files: seq<GradeFile>, n: nat)
    requires n < |files|
    ensures files[..n] + [GradeFile(files[n].run, files[n].rows[..|files[n].rows|])] == files[..n + 1]
  {
    assert files[n].rows[..|files[n].rows|] == files[n].rows;
  }

  lemma GradesOfSnoc(rest: seq<GradeFile>, last: GradeFile, id: string, o: TierBGrading.Outcome)
    ensures HasGrade(rest + [last], id, o) <==>
            HasGrade(rest, id, o) || exists r :: r in last.rows && r.id == id && r.outcome == Known(o)
  {
    var all := rest + [last];
    if HasGrade(rest, id, o) {
      var g, r :| g in rest && r in g.rows && r.id == id && r.outcome == Known(o);
      assert g in all;
    }
    if r :| r in last.rows && r.id == id && r.outcome == Known(o) {
      assert last in all;
    }
  }

  lemma GradesGrow(rest: seq<GradeFile>, f: GradeFile, k: nat, id: string, o: TierBGrading.Outcome)
    requires k < |f.rows|
    ensures HasGrade(rest + [GradeFile(f.run, f.rows[..k + 1])], id, o) <==>
            HasGrade(rest + [GradeFile(f.run, f.rows[..k])], id, o)
            || (f.rows[k].id == id && f.rows[k].outcome == Known(o))
  {
    var small, big := GradeFile(f.run, f.rows[..k]), GradeFile(f.run, f.rows[..k + 1]);
    GradesOfSnoc(rest, small, id, o);
    GradesOfSnoc(rest, big, id, o);
    hide HasGrade;
    assert big.rows == small.rows + [f.rows[k]];
    assert forall r :: r in big.rows <==> r in small.rows || r == f.rows[k];
  }

  lemma OneMoreRow(rest: seq<GradeFile>, f: GradeFile, k: nat, was: map<string, Graded>, best: map<string, Graded>)
    requires k < |f.rows| && !f.rows[k].outcome.Unknown?
    requires AllKnown(rest + [GradeFile(f.run, f.rows[..k])]) && IsBest(rest + [GradeFile(f.run, f.rows[..k])], was)
    requires var r := f.rows[k];
             best == if r.outcome.Known? && (r.id !in was || CollectRank(r.outcome.o) < CollectRank(was[r.id].outcome))
                     then was[r.id := Graded(r.outcome.o, f.run, r.batch)] else was
    ensures AllKnown(rest + [GradeFile(f.run, f.rows[..k + 1])])
    ensures IsBest(rest + [GradeFile(f.run, f.rows[..k + 1])], best)
  {
    hide CollectRank, AllKnown;
    var small, big := rest + [GradeFile(f.run, f.rows[..k])], rest + [GradeFile(f.run, f.rows[..k + 1])];
    forall id, o ensures HasGrade(big, id, o) <==>
                         HasGrade(small, id, o) || (f.rows[k].id == id && f.rows[k].outcome == Known(o))
    {
      GradesGrow(rest, f, k, id, o);
    }
    KnownGrow(rest, f, k);
    hide HasGrade;
  }

  lemma KnownGrow(rest: seq<GradeFile>, f: GradeFile, k: nat)
    requires k < |f.rows| && !f.rows[k].outcome.Unknown? && AllKnown(rest + [GradeFile(f.run, f.rows[..k])])
    ensures AllKnown(rest + [GradeFile(f.run, f.rows[..k + 1])])
  {
    var small, big := rest + [GradeFile(f.run, f.rows[..k])], rest + [GradeFile(f.run, f.rows[..k + 1])];
    forall g, r | g in big && r in g.rows ensures !r.outcome.Unknown? {
      if g in rest {
        assert g in small;
      } else if r != f.rows[k] {
        assert small[|rest|] in small && r in small[|rest|].rows;
      }
    }
  }

  lemma RanksDiffer(o: TierBGrading.Outcome, p: TierBGrading.Outcome)
    requires CollectRank(o) == CollectRank(p)
    ensures o == p
  {}

  /** The order in which grade files and their rows are read does not decide any outcome. */
  lemma BestIgnoresOrder(files: seq<GradeFile>, others: seq<GradeFile>,
                         best: map<string, Graded>, theirs: map<string, Graded>)
    requires forall id, o :: HasGrade(files, id, o) <==> HasGrade(others, id, o)
    requires IsBest(files, best) && IsBest(others, theirs)
    ensures best.Keys == theirs.Keys && forall id :: id in best ==> best[id].outcome == theirs[id].outcome
  {
    hide HasGrade;
    forall id | id in best ensures id in theirs && best[id].outcome == theirs[id].outcome {
      assert HasGrade(others, id, best[id].outcome);
      assert HasGrade(files, id, theirs[id].outcome);
      RanksDiffer(best[id].outcome, theirs[id].outcome);
    }
    forall id | id in theirs ensures id in best {
      assert HasGrade(files, id, theirs[id].outcome);
    }
  }

  /** The collector and the standalone grader rank INCONCLUSIVE and SUBSTITUTED the opposite way
      round, and agree about every pair one of which is a measurement. */
  lemma RankingsAgreeOnMeasurements(o: TierBGrading.Outcome, p: TierBGrading.Outcome)
    ensures (CollectRank(o) < CollectRank(p) <==> TierBGrading.Rank(o) < TierBGrading.Rank(p))
            <==> {o, p} != {TierBGrading.Inconclusive, TierBGrading.Substituted}
    ensures CollectRank(o) <= CollectRank(p) && Measured(p) ==> Measured(o)
    ensures TierBGrading.Rank(o) <= TierBGrading.Rank(p) && Measured(p) ==> Measured(o)
  {
    if o != p {
      assert o in {o, p} && p in {o, p};
    } else {
      assert TierBGrading.Inconclusive in {TierBGrading.Inconclusive, TierBGrading.Substituted};
      assert TierBGrading.Substituted in {TierBGrading.Inconclusive, TierBGrading.Substituted};
    }
  }
}

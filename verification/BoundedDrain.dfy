/** The bounded capture of a child process: two threads drain its pipes and kill it when either
    stream passes the limit. The threads are a state machine whose steps are the single actions of
    the loop body, taken in any order. */
module BoundedDrain {
  import opened Bytes

  const MAX_HOST_OUTPUT_BYTES := 1_048_576

  datatype Name = Stdout | Stderr

  /** Where a drain thread stands in its loop. */
  datatype Pc = Reading | Holding(chunk: seq<Byte>) | Over | Killing | Finished

  /** `drained` is every chunk the thread has finished with; `buffer` is what it kept of them. */
  datatype Drain = Drain(pc: Pc, drained: seq<Byte>, buffer: seq<Byte>)

  datatype State = State(out: Drain, err: Drain, exceeded: bool, killed: bool, timedOut: bool)
  {
    function Get(n: Name): Drain { if n.Stdout? then out else err }

    function Set(n: Name, d: Drain): State { if n.Stdout? then this.(out := d) else this.(err := d) }
  }

  /** What the child writes on each pipe when nobody kills it. */
  datatype Child = Child(stdout: seq<Byte>, stderr: seq<Byte>)
  {
    function Stream(n: Name): seq<Byte> { if n.Stdout? then stdout else stderr }
  }

  function FirstBytes(s: seq<Byte>, n: int): seq<Byte>
  {
    if n < 0 then [] else if n < |s| then s[..n] else s
  }

  /** One loop body on a non-empty chunk: the extended buffer, and whether the limit is passed. */
  function Absorb(buffer: seq<Byte>, chunk: seq<Byte>): (seq<Byte>, bool)
  {
    var room := MAX_HOST_OUTPUT_BYTES + 1 - |buffer|;
    var kept := if room > 0 then buffer + FirstBytes(chunk, room) else buffer;
    (kept, |chunk| > room || |kept| > MAX_HOST_OUTPUT_BYTES)
  }

  function Init(): State
  {
    State(Drain(Reading, [], []), Drain(Reading, [], []), false, false, false)
  }

  datatype Action = Read(n: Name, chunk: seq<Byte>) | EndOfStream(n: Name) | Extend(n: Name)
                  | SetExceeded(n: Name) | Kill(n: Name) | Expire

  /** When an action can happen: a killed child may stop writing anywhere. */
  predicate Enabled(c: Child, s: State, a: Action)
  {
    match a
    case Read(n, chunk) => s.Get(n).pc.Reading? && chunk != [] && s.Get(n).drained + chunk <= c.Stream(n)
    case EndOfStream(n) => s.Get(n).pc.Reading? && (s.killed || s.Get(n).drained == c.Stream(n))
    case Extend(n) => s.Get(n).pc.Holding?
    case SetExceeded(n) => s.Get(n).pc.Over?
    case Kill(n) => s.Get(n).pc.Killing?
    case Expire => !s.timedOut
  }

  function Step(c: Child, s: State, a: Action): State
    requires Enabled(c, s, a)
  {
    match a
    case Read(n, chunk) => s.Set(n, s.Get(n).(pc := Holding(chunk)))
    case EndOfStream(n) => s.Set(n, s.Get(n).(pc := Finished))
    case Extend(n) =>
      var d := s.Get(n);
      var (kept, over) := Absorb(d.buffer, d.pc.chunk);
      s.Set(n, Drain(if over then Over else Reading, d.drained + d.pc.chunk, kept))
    case SetExceeded(n) => s.Set(n, s.Get(n).(pc := Killing)).(exceeded := true)
    case Kill(n) => s.Set(n, s.Get(n).(pc := Reading)).(killed := true)
    case Expire => s.(killed := true, timedOut := true)
  }

  ghost predicate IsRun(c: Child, run: seq<State>)
  {
    && run != [] && run[0] == Init()
    && forall i {:trigger run[i]} :: 0 <= i < |run| - 1 ==> Follows(c, run[i], run[i + 1])
  }

  ghost predicate Follows(c: Child, s: State, s': State)
  {
    exists a :: Enabled(c, s, a) && s' == Step(c, s, a)
  }

  predicate Done(s: State) { s.out.pc.Finished? && s.err.pc.Finished? }

  datatype Result = TimedOut | OutputExceeded | Completed(stdout: seq<Byte>, stderr: seq<Byte>)

  /** What the caller gets once both threads have been joined. */
  function Outcome(s: State): Result
    requires Done(s)
  {
    if s.timedOut then TimedOut
    else if s.exceeded then OutputExceeded
    else Completed(s.out.buffer, s.err.buffer)
  }

  // ---------------------------------------------------------------------------------------------

  predicate DrainInvariant(d: Drain, stream: seq<Byte>, s: State)
  {
    && d.drained <= stream
    && (d.pc.Holding? ==> d.pc.chunk != [] && d.drained + d.pc.chunk <= stream)
    && d.buffer == FirstBytes(d.drained, MAX_HOST_OUTPUT_BYTES + 1)
    && (|d.drained| > MAX_HOST_OUTPUT_BYTES ==> s.exceeded || d.pc.Over?)
    && (d.pc.Over? ==> |d.drained| > MAX_HOST_OUTPUT_BYTES)
    && (d.pc.Killing? ==> s.exceeded)
    && (d.pc.Finished? ==> s.killed || d.drained == stream)
  }

  predicate Invariant(c: Child, s: State)
  {
    && DrainInvariant(s.out, c.stdout, s)
    && DrainInvariant(s.err, c.stderr, s)
    && (s.exceeded ==> |s.out.drained| > MAX_HOST_OUTPUT_BYTES || |s.err.drained| > MAX_HOST_OUTPUT_BYTES)
    && (s.killed ==> s.exceeded || s.timedOut)
    && (s.exceeded ==> s.killed || s.out.pc.Killing? || s.err.pc.Killing?)
    && (s.timedOut ==> s.killed)
  }

  /** Absorbing a chunk keeps the buffer a capped prefix, and reports a passed limit exactly. */
  lemma AbsorbKeepsPrefix(seen: seq<Byte>, chunk: seq<Byte>)
    requires chunk != []
    ensures var (kept, over) := Absorb(FirstBytes(seen, MAX_HOST_OUTPUT_BYTES + 1), chunk);
            kept == FirstBytes(seen + chunk, MAX_HOST_OUTPUT_BYTES + 1)
            && (over <==> |seen + chunk| > MAX_HOST_OUTPUT_BYTES)
  {
    var cap := MAX_HOST_OUTPUT_BYTES + 1;
    if |seen| < cap < |seen + chunk| {
      assert (seen + chunk)[..cap] == seen + chunk[..cap - |seen|];
    } else if cap <= |seen| {
      assert (seen + chunk)[..cap] == seen[..cap];
    }
  }

  lemma ExtendKeepsInvariant(c: Child, s: State, n: Name)
    requires Invariant(c, s) && s.Get(n).pc.Holding?
    ensures Invariant(c, Step(c, s, Extend(n)))
  {
    AbsorbKeepsPrefix(s.Get(n).drained, s.Get(n).pc.chunk);
    hide Absorb, FirstBytes;
  }

  lemma StepKeepsInvariant(c: Child, s: State, a: Action)
    requires Invariant(c, s) && Enabled(c, s, a)
    ensures Invariant(c, Step(c, s, a))
  {
    hide Absorb, FirstBytes;
    if a.Extend? {
      ExtendKeepsInvariant(c, s, a.n);
    }
  }

  lemma {:induction false} RunKeepsInvariant(c: Child, run: seq<State>, i: nat)
    requires IsRun(c, run) && i < |run|
    ensures Invariant(c, run[i])
  {
    hide Step, Enabled;
    if i > 0 {
      hide Invariant;
      RunKeepsInvariant(c, run, i - 1);
      assert Follows(c, run[i - 1], run[i - 1 + 1]);
      var a :| Enabled(c, run[i - 1], a) && run[i] == Step(c, run[i - 1], a);
      StepKeepsInvariant(c, run[i - 1], a);
    }
  }

  /** At every moment of every run a thread's buffer is the capped prefix of what it drained, the
      flag is up only if some stream passed the limit, and only a raised flag or a timeout kills. */
  lemma BuffersArePrefixes(c: Child, run: seq<State>, i: nat, n: Name)
    requires IsRun(c, run) && i < |run|
    ensures run[i].Get(n).buffer == FirstBytes(run[i].Get(n).drained, MAX_HOST_OUTPUT_BYTES + 1)
    ensures run[i].Get(n).drained <= c.Stream(n)
    ensures run[i].exceeded ==> exists m :: |run[i].Get(m).drained| > MAX_HOST_OUTPUT_BYTES
    ensures run[i].killed ==> run[i].exceeded || run[i].timedOut
  {
    RunKeepsInvariant(c, run, i);
    assert run[i].Get(Stdout) == run[i].out && run[i].Get(Stderr) == run[i].err;
  }

  /** The timeout strikes between states `i` and `i + 1`. */
  predicate ExpiresAt(c: Child, run: seq<State>, i: nat)
  {
    i + 1 < |run| && !run[i].timedOut && run[i + 1] == Step(c, run[i], Expire)
  }

  ghost predicate Expired(c: Child, run: seq<State>) { exists i: nat :: ExpiresAt(c, run, i) }

  lemma {:induction false} FindExpiry(c: Child, run: seq<State>, i: nat) returns (j: nat)
    requires IsRun(c, run) && i < |run| && run[i].timedOut
    ensures ExpiresAt(c, run, j)
  {
    hide *;
    RunStarts(c, run);
    ExpiryStep(c, run, i - 1);
    if run[i - 1].timedOut { j := FindExpiry(c, run, i - 1); } else { j := i - 1; }
  }

  lemma {:induction false} StaysExpired(c: Child, run: seq<State>, j: nat, i: nat)
    requires IsRun(c, run) && ExpiresAt(c, run, j) && j < i < |run|
    ensures run[i].timedOut
  {
    hide *;
    ExpiryStep(c, run, i - 1);
    if j < i - 1 { StaysExpired(c, run, j, i - 1); }
  }

  /** The flag at the end of a run says whether the timeout struck in it. */
  lemma TimeoutIsExpiry(c: Child, run: seq<State>)
    requires IsRun(c, run)
    ensures run[|run| - 1].timedOut <==> Expired(c, run)
  {
    hide ExpiresAt, IsRun;
    RunStarts(c, run);
    if run[|run| - 1].timedOut { var j := FindExpiry(c, run, |run| - 1); }
    if j: nat :| ExpiresAt(c, run, j) {
      ExpiryIsInside(c, run, j);
      StaysExpired(c, run, j, |run| - 1);
    }
  }

  lemma RunStarts(c: Child, run: seq<State>)
    requires IsRun(c, run)
    ensures run != [] && !run[0].timedOut
  {}

  lemma ExpiryStep(c: Child, run: seq<State>, i: nat)
    requires IsRun(c, run) && i + 1 < |run|
    ensures run[i + 1].timedOut <==> run[i].timedOut || ExpiresAt(c, run, i)
  {
    assert Follows(c, run[i], run[i + 1]);
    var a :| Enabled(c, run[i], a) && run[i + 1] == Step(c, run[i], a);
    OnlyExpiryTimesOut(c, run[i], a);
    OnlyExpiryTimesOut(c, run[i], Expire);
    hide Step, Enabled, IsRun, Follows;
  }

  lemma OnlyExpiryTimesOut(c: Child, s: State, a: Action)
    ensures a == Expire ==> (Enabled(c, s, a) <==> !s.timedOut)
    ensures Enabled(c, s, a) ==> (Step(c, s, a).timedOut <==> s.timedOut || a == Expire)
  {
    hide Absorb;
  }

  /** The result of every run, however the threads are scheduled and the chunks are cut: a run in which
      the timeout strikes is a timeout; any other is a refusal when a stream is longer than the limit,
      and otherwise carries both streams whole. */
  lemma OutcomeIsDeterminate(c: Child, run: seq<State>)
    requires IsRun(c, run) && Done(run[|run| - 1])
    ensures Outcome(run[|run| - 1]) ==
            if Expired(c, run) then TimedOut
            else if |c.stdout| > MAX_HOST_OUTPUT_BYTES || |c.stderr| > MAX_HOST_OUTPUT_BYTES then OutputExceeded
            else Completed(c.stdout, c.stderr)
  {
    RunKeepsInvariant(c, run, |run| - 1);
    TimeoutIsExpiry(c, run);
  }

  lemma ExpiryIsInside(c: Child, run: seq<State>, i: nat)
    requires ExpiresAt(c, run, i)
    ensures i < |run| - 1
  {}

  /** Once both threads are done the flag says exactly whether one of them passed the limit, and a child
      that passed it, or that outlived the timeout, has been killed. */
  lemma ExceededIsKilled(c: Child, run: seq<State>)
    requires IsRun(c, run) && Done(run[|run| - 1])
    ensures var s := run[|run| - 1];
            && (s.exceeded <==> exists n :: |s.Get(n).drained| > MAX_HOST_OUTPUT_BYTES)
            && (s.exceeded || Expired(c, run) ==> s.killed)
  {
    var s := run[|run| - 1];
    RunKeepsInvariant(c, run, |run| - 1);
    TimeoutIsExpiry(c, run);
    FinalState(c, s);
  }

  lemma FinalState(c: Child, s: State)
    requires Invariant(c, s) && Done(s)
    ensures s.exceeded <==> exists n :: |s.Get(n).drained| > MAX_HOST_OUTPUT_BYTES
    ensures s.exceeded || s.timedOut ==> s.killed
  {
    hide FirstBytes;
    assert s.Get(Stdout) == s.out && s.Get(Stderr) == s.err;
  }

  // ---------------------------------------------------------------------------------------------
  // Every run ends, and a run that cannot go on has both threads finished.

  function PcRank(pc: Pc): nat
  {
    match pc
    case Reading => 2
    case Holding(_) => 1
    case Over => 4
    case Killing => 3
    case Finished => 0
  }

  function Fuel(d: Drain, stream: seq<Byte>): int { 5 * (|stream| - |d.drained|) + PcRank(d.pc) }

  function Measure(c: Child, s: State): int
  {
    Fuel(s.out, c.stdout) + Fuel(s.err, c.stderr) + if s.timedOut then 0 else 1
  }

  lemma EveryStepMakesProgress(c: Child, s: State, a: Action)
    requires Invariant(c, s) && Enabled(c, s, a)
    ensures 0 <= Measure(c, Step(c, s, a)) < Measure(c, s)
  {
    hide Absorb, FirstBytes;
    assert 0 <= Measure(c, Step(c, s, a)) by {
      hide Step, Enabled;
      StepKeepsInvariant(c, s, a);
      LastMeasure(c, Step(c, s, a));
    }
    if a.Extend? {
      assert |s.Get(a.n).pc.chunk| > 0;
    }
  }

  lemma {:induction false} MeasureFallsAlongRun(c: Child, run: seq<State>, i: nat)
    requires IsRun(c, run) && i < |run|
    ensures Measure(c, run[i]) + i <= Measure(c, Init())
  {
    hide Step, Enabled, Invariant, Measure;
    if i > 0 {
      MeasureFallsAlongRun(c, run, i - 1);
      RunKeepsInvariant(c, run, i - 1);
      assert Follows(c, run[i - 1], run[i - 1 + 1]);
      var a :| Enabled(c, run[i - 1], a) && run[i] == Step(c, run[i - 1], a);
      EveryStepMakesProgress(c, run[i - 1], a);
    }
  }

  /** A thread that is not finished can always take a step of its own. */
  lemma NoThreadIsStuck(c: Child, s: State, n: Name)
    requires Invariant(c, s) && !s.Get(n).pc.Finished?
    ensures exists a {:trigger Enabled(c, s, a)} :: a != Expire && Enabled(c, s, a)
  {
    hide FirstBytes;
    var d := s.Get(n);
    assert d.drained <= c.Stream(n);
    var rest := c.Stream(n)[|d.drained|..];
    assert d.drained + rest == c.Stream(n);
    assert rest == [] ==> d.drained == c.Stream(n);
    var a := match d.pc
      case Reading => if rest == [] then EndOfStream(n) else Read(n, rest)
      case Holding(_) => Extend(n)
      case Over => SetExceeded(n)
      case _ => Kill(n);
    assert Enabled(c, s, a);
  }

  /** A run takes at most five steps a byte, and stops only with both threads finished. */
  lemma DrainTerminates(c: Child, run: seq<State>)
    requires IsRun(c, run)
    ensures |run| <= 5 * (|c.stdout| + |c.stderr|) + 6
    ensures Done(run[|run| - 1])
            || exists a {:trigger Enabled(c, run[|run| - 1], a)} :: a != Expire && Enabled(c, run[|run| - 1], a)
  {
    hide Enabled, Step;
    MeasureFallsAlongRun(c, run, |run| - 1);
    RunKeepsInvariant(c, run, |run| - 1);
    LastMeasure(c, run[|run| - 1]);
    if !Done(run[|run| - 1]) {
      NoThreadIsStuck(c, run[|run| - 1], if run[|run| - 1].out.pc.Finished? then Stderr else Stdout);
    }
  }

  lemma LastMeasure(c: Child, s: State)
    requires Invariant(c, s)
    ensures Measure(c, s) >= 0
  {}
}

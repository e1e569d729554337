/** The seal of the holdout suite: a recorded digest that only a reasoned reseal can change. */
module HoldoutSeal {
  import opened Bytes
  import opened Options

  /** A superseded seal; the reason given for replacing it. */
  datatype Past = Past(sha: string, sealedAt: string, supersededBy: string)

  datatype Doc = Doc(sha: string, sealedAt: string, reason: string, history: seq<Past>)

  datatype Action = Seal | Verify | Reseal

  /** One invocation: what is asked, the suite as it stands then, and the texts given. An absent
      reason is the empty one. */
  datatype Command = Command(action: Action, suite: seq<Byte>, reason: string, at: string)

  type Digest = seq<Byte> -> string

  ghost predicate Injective(sha: Digest)
  {
    forall x, y :: sha(x) == sha(y) ==> x == y
  }

  function Rewrite(doc: Option<Doc>, now: string, c: Command): Doc
  {
    var history := if doc.None? then []
                   else doc.value.history + [Past(doc.value.sha, doc.value.sealedAt, c.reason)];
    Doc(now, c.at, if c.reason == "" then "initial seal" else c.reason, history)
  }

  /** What an invocation makes of the seal file, and its exit code. */
  function Step(sha: Digest, doc: Option<Doc>, c: Command): (Option<Doc>, int)
  {
    var now := sha(c.suite);
    match c.action
    case Verify =>
      if doc.None? then (doc, 2) else if doc.value.sha != now then (doc, 1) else (doc, 0)
    case Seal =>
      if doc.None? then (Some(Rewrite(doc, now, c)), 0)
      else if doc.value.sha == now then (doc, 0) else (doc, 2)
    case Reseal =>
      if c.reason == "" then (doc, 2) else (Some(Rewrite(doc, now, c)), 0)
  }

  class SealFile {
    var doc: Option<Doc>

    constructor ()
      ensures doc == None
    {
      doc := None;
    }

    method Invoke(sha: Digest, c: Command) returns (code: int)
      modifies this
      ensures (doc, code) == Step(sha, old(doc), c)
    {
      var now := sha(c.suite);
      if c.action == Verify {
        if doc.None? {
          return 2;
        }
        if doc.value.sha != now {
          return 1;
        }
        return 0;
      }
      if c.action == Seal && doc.Some? {
        if doc.value.sha == now {
          return 0;
        }
        return 2;
      }
      if c.action == Reseal && c.reason == "" {
        return 2;
      }
      var history := if doc.Some? then doc.value.history else [];
      if doc.Some? {
        history := history + [Past(doc.value.sha, doc.value.sealedAt, c.reason)];
      }
      doc := Some(Doc(now, c.at, if c.reason == "" then "initial seal" else c.reason, history));
      return 0;
    }
  }

  // ---------------------------------------------------------------------------------------------

  function After(sha: Digest, commands: seq<Command>): Option<Doc>
  {
    if commands == [] then None
    else Step(sha, After(sha, commands[..|commands| - 1]), commands[|commands| - 1]).0
  }

  function Hashes(history: seq<Past>): seq<string>
  {
    if history == [] then [] else Hashes(history[..|history| - 1]) + [history[|history| - 1].sha]
  }

  /** All hashes the file still records, oldest first. */
  function Recorded(doc: Option<Doc>): seq<string>
  {
    if doc.None? then [] else Hashes(doc.value.history) + [doc.value.sha]
  }

  /** Whether an invocation seals, told from the commands alone: the first seal, or a reseal that
      gives a reason. */
  predicate Seals(c: Command, before: nat)
  {
    (c.action == Seal && before == 0) || (c.action == Reseal && c.reason != "")
  }

  /** The digests of the suite at every moment it was sealed. */
  function EverSealed(sha: Digest, commands: seq<Command>): seq<string>
  {
    if commands == [] then []
    else
      var earlier := EverSealed(sha, commands[..|commands| - 1]);
      var c := commands[|commands| - 1];
      earlier + if Seals(c, |earlier|) then [sha(c.suite)] else []
  }

  /** In every run the history and the current hash are all hashes ever sealed, in order. */
  lemma {:induction false} HistoryIsComplete(sha: Digest, commands: seq<Command>)
    ensures Recorded(After(sha, commands)) == EverSealed(sha, commands)
  {
    if commands != [] {
      var front, c := commands[..|commands| - 1], commands[|commands| - 1];
      HistoryIsComplete(sha, front);
      var doc := After(sha, front);
      if doc.Some? {
        var grown := doc.value.history + [Past(doc.value.sha, doc.value.sealedAt, c.reason)];
        assert grown[..|grown| - 1] == doc.value.history;
      }
    }
  }

  /** Every superseded seal names a reason. */
  lemma {:induction false} SupersededWithReason(sha: Digest, commands: seq<Command>)
    ensures After(sha, commands).Some? ==>
              forall p :: p in After(sha, commands).value.history ==> p.supersededBy != ""
  {
    if commands != [] { SupersededWithReason(sha, commands[..|commands| - 1]); }
  }

  /** An existing seal changes exactly when a reseal gives a reason, and then only grows. */
  lemma OnlyReasonedResealChanges(sha: Digest, d: Doc, c: Command)
    ensures Step(sha, Some(d), c).0 != Some(d) <==> c.action == Reseal && c.reason != ""
    ensures Recorded(Some(d)) <= Recorded(Step(sha, Some(d), c).0)
    ensures Step(sha, Some(d), c).1 != 0 ==> Step(sha, Some(d), c).0 == Some(d)
  {
    var grown := d.history + [Past(d.sha, d.sealedAt, c.reason)];
    assert grown[..|grown| - 1] == d.history;
    if c.action == Reseal && c.reason != "" {
      assert |Step(sha, Some(d), c).0.value.history| == |d.history| + 1;
    }
  }

  lemma {:induction false} SealHolds(sha: Digest, commands: seq<Command>, more: seq<Command>)
    requires After(sha, commands).Some?
    requires forall c :: c in more ==> !(c.action == Reseal && c.reason != "")
    ensures After(sha, commands + more) == After(sha, commands)
    decreases |more|
  {
    if more == [] {
      assert commands + more == commands;
    } else {
      var front, c := more[..|more| - 1], more[|more| - 1];
      SealHolds(sha, commands, front);
      assert (commands + more)[..|commands + more| - 1] == commands + front;
      OnlyReasonedResealChanges(sha, After(sha, commands).value, c);
    }
  }

  /** Two successful verifications without a reseal between them saw the same suite, byte for byte. */
  lemma VerifiedSuitesAreEqual(sha: Digest, before: seq<Command>, v: Command, between: seq<Command>, w: Command)
    requires Injective(sha) && v.action == Verify && w.action == Verify
    requires forall c :: c in between ==> !(c.action == Reseal && c.reason != "")
    requires Step(sha, After(sha, before), v).1 == 0
    requires Step(sha, After(sha, before + [v] + between), w).1 == 0
    ensures v.suite == w.suite
  {
    var more := [v] + between;
    assert before + [v] + between == before + more;
    SealHolds(sha, before, more);
    assert sha(v.suite) == sha(w.suite);
  }
}

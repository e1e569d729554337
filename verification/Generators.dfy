/** The provider payload generators: lanes that write generated files, and the checks beside them. */
module Generators {
  import opened Text

  /** A regular file: the text stored in it and its permission bits. */
  datatype File = File(text: string, mode: nat)

  type Files = map<string, File>

  /** One generator: its rendered outputs, the modes it enforces, the surface it owns (which of the
      existing files its globs pick up), and the destinations its inventory demands. */
  datatype Lane = Lane(expected: map<string, string>, modes: map<string, nat>, surface: string -> bool,
                       inventory: set<string>)

  datatype Diagnostic = Missing(path: string) | Stale(path: string) | StaleMode(path: string)
                      | Unmanaged(path: string) | Uncovered(entry: string)

  /** The file at `path` reads back as the expected text. */
  predicate ContentCurrent(l: Lane, fs: Files, path: string)
    requires path in l.expected
  {
    path in fs && ReadText(fs[path].text) == l.expected[path]
  }

  predicate ModeCurrent(l: Lane, fs: Files, path: string)
  {
    path in fs && path in l.modes ==> fs[path].mode == l.modes[path]
  }

  function UnmanagedPaths(l: Lane, fs: Files): set<string>
  {
    set p | p in fs && l.surface(p) && p !in l.expected
  }

  lemma UnmanagedTold(l: Lane, fs: Files)
    ensures UnmanagedPaths(l, fs) != {} <==> exists p :: p in fs && l.surface(p) && p !in l.expected
  {
    if UnmanagedPaths(l, fs) != {} {
      var p :| p in UnmanagedPaths(l, fs);
    }
    if p :| p in fs && l.surface(p) && p !in l.expected { assert p in UnmanagedPaths(l, fs); }
  }

  /** What the check has to complain about. */
  predicate Complaint(l: Lane, fs: Files, d: Diagnostic)
  {
    match d
    case Missing(p) => p in l.expected && p !in fs
    case Stale(p) => p in l.expected && p in fs && !ContentCurrent(l, fs, p)
    case StaleMode(p) => p in l.expected && p in fs && !ModeCurrent(l, fs, p)
    case Unmanaged(p) => p in UnmanagedPaths(l, fs)
    case Uncovered(e) => e in l.inventory - l.expected.Keys
  }

  ghost predicate Clean(l: Lane, fs: Files) { forall d :: !Complaint(l, fs, d) }

  /** The paths a write touches. */
  function Outdated(l: Lane, fs: Files): set<string>
  {
    set p | p in l.expected && !(ContentCurrent(l, fs, p) && ModeCurrent(l, fs, p))
  }

  /** The file a write leaves at a generated path; `born` is the mode a new file gets. */
  function WrittenFile(l: Lane, fs: Files, born: nat, path: string): File
    requires path in l.expected
  {
    File(if ContentCurrent(l, fs, path) then fs[path].text else l.expected[path],
         if path in l.modes then l.modes[path] else if path in fs then fs[path].mode else born)
  }

  /** The files once the paths in `done` have been written. */
  function Written(l: Lane, fs: Files, born: nat, done: set<string>): Files
    requires done <= l.expected.Keys
  {
    map p | p in fs.Keys + done :: if p in done then WrittenFile(l, fs, born, p) else fs[p]
  }

  class Tree {
    var files: Files

    constructor (files: Files)
      ensures this.files == files
    {
      this.files := files;
    }

    /** The drift check of one lane. */
    method Check(l: Lane) returns (diagnostics: seq<Diagnostic>)
      ensures forall d :: d in diagnostics <==> Complaint(l, files, d)
      ensures forall p :: Unmanaged(p) in diagnostics <==> p in files && l.surface(p) && p !in l.expected
    {
      var drifted := CheckGenerated(l);
      var unmanaged := CheckUnmanaged(l);
      var uncovered := CheckInventory(l);
      diagnostics := drifted + unmanaged + uncovered;
    }

    method CheckGenerated(l: Lane) returns (diagnostics: seq<Diagnostic>)
      ensures forall d :: d in diagnostics <==> Complaint(l, files, d) && AboutGenerated(d)
    {
      hide ReadText;
      diagnostics := [];
      var todo := l.expected.Keys;
      while todo != {}
        invariant todo <= l.expected.Keys
        invariant forall d :: d in diagnostics <==>
                    Complaint(l, files, d) && AboutGenerated(d) && d.path !in todo
        decreases |todo|
      {
        var path :| path in todo;
        todo := todo - {path};
        if path !in files {
          diagnostics := diagnostics + [Missing(path)];
        } else if ReadText(files[path].text) != l.expected[path] {
          diagnostics := diagnostics + [Stale(path)];
        }
        if path in files && path in l.modes && files[path].mode != l.modes[path] {
          diagnostics := diagnostics + [StaleMode(path)];
        }
      }
    }

    method CheckUnmanaged(l: Lane) returns (diagnostics: seq<Diagnostic>)
      ensures forall d :: d in diagnostics <==> Complaint(l, files, d) && d.Unmanaged?
    {
      hide ContentCurrent, ModeCurrent;
      diagnostics := [];
      var unmanaged := UnmanagedPaths(l, files);
      while unmanaged != {}
        invariant unmanaged <= UnmanagedPaths(l, files)
        invariant forall d :: d in diagnostics <==> Complaint(l, files, d) && d.Unmanaged? && d.path !in unmanaged
        decreases |unmanaged|
      {
        var path :| path in unmanaged;
        unmanaged := unmanaged - {path};
        diagnostics := diagnostics + [Unmanaged(path)];
      }
    }

    method CheckInventory(l: Lane) returns (diagnostics: seq<Diagnostic>)
      ensures forall d :: d in diagnostics <==> Complaint(l, files, d) && d.Uncovered?
    {
      hide ContentCurrent, ModeCurrent, UnmanagedPaths;
      diagnostics := [];
      var uncovered := l.inventory - l.expected.Keys;
      while uncovered != {}
        invariant uncovered <= l.inventory - l.expected.Keys
        invariant forall d :: d in diagnostics <==> Complaint(l, files, d) && d.Uncovered? && d.entry !in uncovered
        decreases |uncovered|
      {
        var entry :| entry in uncovered;
        uncovered := uncovered - {entry};
        diagnostics := diagnostics + [Uncovered(entry)];
      }
    }

    /** The writer's loop body: text and mode of one path, each only if it is not current. */
    method Update(l: Lane, born: nat, path: string) returns (touched: bool)
      requires path in l.expected
      modifies this
      ensures files == old(files)[path := WrittenFile(l, old(files), born, path)]
      ensures touched <==> !(ContentCurrent(l, old(files), path) && ModeCurrent(l, old(files), path))
    {
      hide ReadText;
      var content := l.expected[path];
      var contentCurrent := path in files && ReadText(files[path].text) == content;
      var modeCurrent := path in l.modes && path in files ==> files[path].mode == l.modes[path];
      if contentCurrent && modeCurrent {
        assert files[path] == WrittenFile(l, files, born, path);
        return false;
      }
      if !contentCurrent {
        var mode := if path in files then files[path].mode else born;
        files := files[path := File(content, mode)];
      }
      if path in l.modes {
        files := files[path := files[path].(mode := l.modes[path])];
      }
      return true;
    }

    /** The writer of one lane: it refuses a surface with unmanaged files, and otherwise brings every
        outdated path up to date and leaves the rest alone. */
    method Write(l: Lane, born: nat) returns (code: nat, changed: nat)
      modifies this
      ensures code == if UnmanagedPaths(l, old(files)) != {} then 1 else 0
      ensures code == 1 <==> exists p :: p in old(files) && l.surface(p) && p !in l.expected
      ensures code == 1 ==> files == old(files) && changed == 0
      ensures code == 0 ==> files == Written(l, old(files), born, l.expected.Keys)
                            && changed == |Outdated(l, old(files))|
    {
      UnmanagedTold(l, files);
      hide Written, WrittenFile, Outdated, ContentCurrent, ModeCurrent, UnmanagedPaths;
      var unmanaged := UnmanagedPaths(l, files);
      if unmanaged != {} {
        return 1, 0;
      }
      changed := 0;
      var done: set<string> := {};
      ghost var before := files;
      NothingWritten(l, files, born);
      while done != l.expected.Keys
        invariant done <= l.expected.Keys
        invariant files == Written(l, before, born, done)
        invariant changed == |Outdated(l, before) * done|
        decreases |l.expected.Keys - done|
      {
        var path := Next(l.expected.Keys, done);
        WriteOne(l, before, born, done, path);
        CountOne(l, before, born, done, path);
        var touched := Update(l, born, path);
        if touched {
          changed := changed + 1;
        }
        done := done + {path};
      }
      AllWritten(l, before);
      return 0, changed;
    }

    /** All lanes in order; the first refusal stops the run. */
    method WriteAll(lanes: seq<Lane>, born: nat) returns (code: nat, changed: nat)
      requires Disjoint(lanes)
      modifies this
      ensures code == if forall l :: l in lanes ==> UnmanagedPaths(l, old(files)) == {} then 0 else 1
      ensures code == 0 ==> files == WrittenBy(lanes, old(files), born)
      ensures code == 0 ==> (changed == 0 <==> forall l :: l in lanes ==> Outdated(l, old(files)) == {})
      ensures code == 1 ==> exists k: nat ::
                && k < |lanes| && UnmanagedPaths(lanes[k], old(files)) != {}
                && (forall j :: 0 <= j < k ==> UnmanagedPaths(lanes[j], old(files)) == {})
                && files == WrittenBy(lanes[..k], old(files), born)
    {
      changed := 0;
      ghost var before := files;
      for k := 0 to |lanes|
        invariant files == WrittenBy(lanes[..k], before, born)
        invariant forall l :: l in lanes[..k] ==> UnmanagedPaths(l, before) == {}
        invariant changed == 0 <==> forall l :: l in lanes[..k] ==> Outdated(l, before) == {}
      {
        OtherLanesDoNotShow(lanes, k, before, born);
        assert lanes[..k + 1] == lanes[..k] + [lanes[k]];
        assert lanes[..k + 1][..k] == lanes[..k];
        var result, n := Write(lanes[k], born);
        if result != 0 {
          assert lanes[k] in lanes;
          assert forall j :: 0 <= j < k ==> lanes[j] in lanes[..k];
          return result, changed;
        }
        changed := changed + n;
      }
      assert lanes[..|lanes|] == lanes;
      return 0, changed;
    }

    /** The combined check: the lanes' diagnostics one after another. */
    method CheckAll(lanes: seq<Lane>) returns (diagnostics: seq<Diagnostic>)
      ensures forall d :: d in diagnostics <==> exists l :: l in lanes && Complaint(l, files, d)
      ensures diagnostics == [] <==> forall l :: l in lanes ==> Clean(l, files)
    {
      diagnostics := [];
      for k := 0 to |lanes|
        invariant forall d :: d in diagnostics <==> exists l :: l in lanes[..k] && Complaint(l, files, d)
      {
        var more := Check(lanes[k]);
        assert lanes[..k + 1] == lanes[..k] + [lanes[k]];
        diagnostics := diagnostics + more;
      }
      assert lanes[..|lanes|] == lanes;
      EmptyMeansClean(lanes, files, diagnostics);
    }
  }

  lemma EmptyMeansClean(lanes: seq<Lane>, fs: Files, diagnostics: seq<Diagnostic>)
    requires forall d :: d in diagnostics <==> exists l :: l in lanes && Complaint(l, fs, d)
    ensures diagnostics == [] <==> forall l :: l in lanes ==> Clean(l, fs)
  {
    hide Complaint;
    if diagnostics == [] {
      forall l, d | l in lanes ensures !Complaint(l, fs, d) { assert d !in diagnostics; }
    } else {
      assert diagnostics[0] in diagnostics;
      var l :| l in lanes && Complaint(l, fs, diagnostics[0]);
    }
  }

  predicate AboutGenerated(d: Diagnostic) { d.Missing? || d.Stale? || d.StaleMode? }

  /** Some path that has not been visited yet. */
  method Next(all: set<string>, done: set<string>) returns (path: string)
    requires done <= all && done != all
    ensures path in all && path !in done && done + {path} <= all
    ensures |all - (done + {path})| < |all - done|
  {
    assert all - done != {};
    path :| path in all - done;
    assert all - done == (all - (done + {path})) + {path};
  }

  lemma NothingWritten(l: Lane, fs: Files, born: nat)
    ensures Written(l, fs, born, {}) == fs && |Outdated(l, fs) * {}| == 0
  {
    assert Outdated(l, fs) * {} == {};
  }

  lemma AllWritten(l: Lane, fs: Files)
    ensures Outdated(l, fs) * l.expected.Keys == Outdated(l, fs)
  {}

  /** Writing one more path, seen from the files as they are by then. */
  lemma WriteOne(l: Lane, before: Files, born: nat, done: set<string>, path: string)
    requires done <= l.expected.Keys && path in l.expected && path !in done
    ensures var fs := Written(l, before, born, done);
            Written(l, before, born, done + {path}) == fs[path := WrittenFile(l, fs, born, path)]
  {
    hide ReadText;
    var fs := Written(l, before, born, done);
    assert path in fs <==> path in before;
    assert path in fs ==> fs[path] == before[path];
    assert WrittenFile(l, fs, born, path) == WrittenFile(l, before, born, path);
    hide WrittenFile;
    var next := Written(l, before, born, done + {path});
    assert next.Keys == fs.Keys + {path};
  }

  lemma CountOne(l: Lane, before: Files, born: nat, done: set<string>, path: string)
    requires done <= l.expected.Keys && path in l.expected && path !in done
    ensures var fs := Written(l, before, born, done);
            |Outdated(l, before) * (done + {path})| == |Outdated(l, before) * done|
              + if ContentCurrent(l, fs, path) && ModeCurrent(l, fs, path) then 0 else 1
  {
    var o, fs := Outdated(l, before), Written(l, before, born, done);
    assert path in o <==> !(ContentCurrent(l, fs, path) && ModeCurrent(l, fs, path));
    hide *;
    if path in o {
      assert o * (done + {path}) == o * done + {path};
    } else {
      assert o * (done + {path}) == o * done;
    }
  }

  // ---------------------------------------------------------------------------------------------
  // One lane: what a write means for the check.

  /** A rendered text that can be read back: reading never yields a carriage return. */
  ghost predicate Readable(l: Lane)
  {
    forall p :: p in l.expected ==> '\r' !in l.expected[p]
  }

  lemma WrittenIsCurrent(l: Lane, fs: Files, born: nat, path: string)
    requires path in l.expected
    ensures var out := Written(l, fs, born, l.expected.Keys);
            ModeCurrent(l, out, path) && path in out
            && (ContentCurrent(l, out, path) <==> '\r' !in l.expected[path])
  {
    var out := Written(l, fs, born, l.expected.Keys);
    ReadTextHasNoReturn(out[path].text);
    ReadTextIdentity(l.expected[path]);
  }

  /** After a write the check is silent exactly when every rendered text can be read back and the
      inventory is covered. */
  lemma WriteSatisfiesCheck(l: Lane, fs: Files, born: nat)
    requires UnmanagedPaths(l, fs) == {}
    ensures Clean(l, Written(l, fs, born, l.expected.Keys)) <==> Readable(l) && l.inventory <= l.expected.Keys
  {
    var out := Written(l, fs, born, l.expected.Keys);
    forall p | p in l.expected
      ensures p in out && ModeCurrent(l, out, p) && (ContentCurrent(l, out, p) <==> '\r' !in l.expected[p])
    {
      WrittenIsCurrent(l, fs, born, p);
    }
    assert UnmanagedPaths(l, out) == {} by {
      forall p ensures p !in UnmanagedPaths(l, out) { assert p !in UnmanagedPaths(l, fs); }
    }
    hide ContentCurrent, ModeCurrent, Written;
    if Clean(l, out) {
      forall p | p in l.expected ensures '\r' !in l.expected[p] { assert !Complaint(l, out, Stale(p)); }
      forall e | e in l.inventory ensures e in l.expected { assert !Complaint(l, out, Uncovered(e)); }
    }
  }

  /** The check is silent exactly when a write would not be refused and would find nothing to do,
      the inventory being covered. */
  lemma CleanMeansIdle(l: Lane, fs: Files)
    ensures Clean(l, fs) <==>
            UnmanagedPaths(l, fs) == {} && Outdated(l, fs) == {} && l.inventory <= l.expected.Keys
  {
    hide ReadText;
    if Clean(l, fs) {
      forall p ensures p !in UnmanagedPaths(l, fs) { assert !Complaint(l, fs, Unmanaged(p)); }
      forall e | e in l.inventory ensures e in l.expected { assert !Complaint(l, fs, Uncovered(e)); }
      forall p | p in l.expected ensures ContentCurrent(l, fs, p) && ModeCurrent(l, fs, p) {
        assert !Complaint(l, fs, Missing(p)) && !Complaint(l, fs, Stale(p)) && !Complaint(l, fs, StaleMode(p));
      }
    }
    if UnmanagedPaths(l, fs) == {} && Outdated(l, fs) == {} && l.inventory <= l.expected.Keys {
      forall p | p in l.expected ensures ContentCurrent(l, fs, p) && ModeCurrent(l, fs, p) {
        assert p !in Outdated(l, fs);
      }
    }
  }

  /** An idle write leaves every byte and mode as it was; when all texts can be read back nothing but
      an idle write does. */
  lemma IdleWriteChangesNothing(l: Lane, fs: Files, born: nat)
    ensures Outdated(l, fs) == {} ==> Written(l, fs, born, l.expected.Keys) == fs
    ensures Readable(l) ==> (Outdated(l, fs) == {} <==> Written(l, fs, born, l.expected.Keys) == fs)
  {
    var out := Written(l, fs, born, l.expected.Keys);
    if Outdated(l, fs) == {} {
      forall p | p in l.expected ensures p in fs && WrittenFile(l, fs, born, p) == fs[p] {
        assert p !in Outdated(l, fs);
      }
      assert out.Keys == fs.Keys;
      assert out == fs;
    }
    if Readable(l) && out == fs {
      forall p | p in l.expected ensures p !in Outdated(l, fs) { WrittenIsCurrent(l, fs, born, p); }
    }
  }

  /** A rendered carriage return: every write rewrites the same bytes and no write satisfies the check. */
  lemma CarriageReturnNeverSettles(l: Lane, fs: Files, born: nat, path: string)
    requires path in l.expected && '\r' in l.expected[path]
    ensures var out := Written(l, fs, born, l.expected.Keys);
            path in Outdated(l, out) && !Clean(l, out) && Written(l, out, born, l.expected.Keys) == out
  {
    var out := Written(l, fs, born, l.expected.Keys);
    WrittenIsCurrent(l, fs, born, path);
    assert Complaint(l, out, Stale(path));
    var again := Written(l, out, born, l.expected.Keys);
    assert again.Keys == out.Keys;
    forall p | p in l.expected ensures again[p] == out[p] {
      assert out[p] == WrittenFile(l, fs, born, p);
      assert again[p] == WrittenFile(l, out, born, p);
    }
    assert again == out;
  }

  // ---------------------------------------------------------------------------------------------
  // Several lanes.

  /** No lane generates a path of another, nor picks one up as part of its own surface. */
  predicate Apart(a: Lane, b: Lane)
  {
    && a.expected.Keys !! b.expected.Keys
    && (forall p :: p in b.expected ==> !a.surface(p))
    && (forall p :: p in a.expected ==> !b.surface(p))
  }

  ghost predicate Disjoint(lanes: seq<Lane>)
  {
    forall i, j :: 0 <= i < j < |lanes| ==> Apart(lanes[i], lanes[j])
  }

  function WrittenBy(lanes: seq<Lane>, fs: Files, born: nat): Files
  {
    if lanes == [] then fs
    else
      var l := lanes[|lanes| - 1];
      Written(l, WrittenBy(lanes[..|lanes| - 1], fs, born), born, l.expected.Keys)
  }

  /** Two file trees that a lane cannot tell apart. */
  ghost predicate SameFor(l: Lane, fs: Files, gs: Files)
  {
    && (forall p :: p in l.expected || l.surface(p) ==> (p in fs <==> p in gs))
    && (forall p :: (p in l.expected || l.surface(p)) && p in fs && p in gs ==> fs[p] == gs[p])
  }

  lemma SameView(l: Lane, fs: Files, gs: Files, born: nat)
    requires SameFor(l, fs, gs)
    ensures UnmanagedPaths(l, fs) == UnmanagedPaths(l, gs) && Outdated(l, fs) == Outdated(l, gs)
    ensures forall p :: p in l.expected ==> WrittenFile(l, fs, born, p) == WrittenFile(l, gs, born, p)
    ensures Clean(l, fs) <==> Clean(l, gs)
  {
    hide ReadText;
    forall d ensures Complaint(l, fs, d) <==> Complaint(l, gs, d) {}
  }

  lemma OtherLaneDoesNotShow(a: Lane, b: Lane, fs: Files, born: nat)
    requires Apart(a, b)
    ensures SameFor(a, fs, Written(b, fs, born, b.expected.Keys))
  {}

  lemma {:induction false} LanesDoNotShow(a: Lane, others: seq<Lane>, fs: Files, born: nat)
    requires forall b :: b in others ==> Apart(a, b)
    ensures SameFor(a, fs, WrittenBy(others, fs, born))
  {
    if others != [] {
      var front, b := others[..|others| - 1], others[|others| - 1];
      LanesDoNotShow(a, front, fs, born);
      OtherLaneDoesNotShow(a, b, WrittenBy(front, fs, born), born);
    }
  }

  lemma OtherLanesDoNotShow(lanes: seq<Lane>, k: nat, fs: Files, born: nat)
    requires Disjoint(lanes) && k < |lanes|
    ensures var gs := WrittenBy(lanes[..k], fs, born);
            UnmanagedPaths(lanes[k], gs) == UnmanagedPaths(lanes[k], fs)
            && Outdated(lanes[k], gs) == Outdated(lanes[k], fs)
  {
    forall b | b in lanes[..k] ensures Apart(lanes[k], b) {
      var i :| 0 <= i < k && lanes[i] == b;
      assert Apart(lanes[i], lanes[k]);
    }
    LanesDoNotShow(lanes[k], lanes[..k], fs, born);
    SameView(lanes[k], fs, WrittenBy(lanes[..k], fs, born), born);
  }

  lemma WrittenOver(a: Lane, b: Lane, fs: Files, born: nat)
    requires Apart(a, b)
    ensures var out := Written(b, Written(a, fs, born, a.expected.Keys), born, b.expected.Keys);
            && out.Keys == fs.Keys + a.expected.Keys + b.expected.Keys
            && (forall p :: p in a.expected ==> out[p] == WrittenFile(a, fs, born, p))
            && (forall p :: p in b.expected ==> out[p] == WrittenFile(b, fs, born, p))
            && (forall p :: p in fs && p !in a.expected && p !in b.expected ==> out[p] == fs[p])
  {
    var fa := Written(a, fs, born, a.expected.Keys);
    OtherLaneDoesNotShow(b, a, fs, born);
    SameView(b, fs, fa, born);
    hide WrittenFile;
  }

  /** Lanes that are apart can be written in either order. */
  lemma LanesCommute(a: Lane, b: Lane, fs: Files, born: nat)
    requires Apart(a, b)
    ensures WrittenBy([a, b], fs, born) == WrittenBy([b, a], fs, born)
  {
    PairWritten(a, b, fs, born);
    PairWritten(b, a, fs, born);
    WrittenOver(a, b, fs, born);
    WrittenOver(b, a, fs, born);
    EqualFiles(a, b, fs, born, WrittenBy([a, b], fs, born), WrittenBy([b, a], fs, born));
  }

  lemma EqualFiles(a: Lane, b: Lane, fs: Files, born: nat, x: Files, y: Files)
    requires x.Keys == fs.Keys + a.expected.Keys + b.expected.Keys
    requires y.Keys == fs.Keys + b.expected.Keys + a.expected.Keys
    requires forall p :: p in a.expected ==> x[p] == WrittenFile(a, fs, born, p) == y[p]
    requires forall p :: p in b.expected ==> x[p] == WrittenFile(b, fs, born, p) == y[p]
    requires forall p :: p in fs && p !in a.expected && p !in b.expected ==> x[p] == fs[p] == y[p]
    ensures x == y
  {
    hide WrittenFile;
    assert forall p :: p in x <==> p in y;
    assert forall p :: p in x ==> x[p] == y[p];
  }

  lemma PairWritten(a: Lane, b: Lane, fs: Files, born: nat)
    ensures WrittenBy([a, b], fs, born)
            == Written(b, Written(a, fs, born, a.expected.Keys), born, b.expected.Keys)
  {
    assert [a, b][..1] == [a] && [a][..0] == [];
    assert WrittenBy([a], fs, born) == Written(a, fs, born, a.expected.Keys);
  }

  lemma {:induction false} WrittenByKeepsOthers(lanes: seq<Lane>, fs: Files, born: nat, path: string)
    requires forall l :: l in lanes ==> path !in l.expected
    ensures path in WrittenBy(lanes, fs, born) <==> path in fs
    ensures path in fs ==> WrittenBy(lanes, fs, born)[path] == fs[path]
  {
    if lanes != [] { WrittenByKeepsOthers(lanes[..|lanes| - 1], fs, born, path); }
  }

  /** After all lanes have been written the combined check is silent exactly when every rendered text
      can be read back and every inventory is covered. */
  lemma {:induction false} WriteAllSatisfiesCheck(lanes: seq<Lane>, fs: Files, born: nat)
    requires Disjoint(lanes) && forall l :: l in lanes ==> UnmanagedPaths(l, fs) == {}
    ensures (forall l :: l in lanes ==> Clean(l, WrittenBy(lanes, fs, born)))
            <==> forall l :: l in lanes ==> Readable(l) && l.inventory <= l.expected.Keys
  {
    forall k | 0 <= k < |lanes|
      ensures Clean(lanes[k], WrittenBy(lanes, fs, born))
              <==> Readable(lanes[k]) && lanes[k].inventory <= lanes[k].expected.Keys
    {
      LaneIsCleanAfterAll(lanes, k, fs, born);
    }
  }

  /** The combined check is silent exactly when a combined write would be admitted, find nothing to do
      and find every inventory covered; such a write leaves every file as it was, and when all texts can
      be read back only such a write does. */
  lemma AllCleanMeansIdle(lanes: seq<Lane>, fs: Files, born: nat)
    requires Disjoint(lanes)
    ensures (forall l :: l in lanes ==> Clean(l, fs)) <==>
            forall l :: l in lanes ==>
              UnmanagedPaths(l, fs) == {} && Outdated(l, fs) == {} && l.inventory <= l.expected.Keys
    ensures (forall l :: l in lanes ==> Outdated(l, fs) == {}) ==> WrittenBy(lanes, fs, born) == fs
    ensures (forall l :: l in lanes ==> Readable(l)) ==>
              ((forall l :: l in lanes ==> Outdated(l, fs) == {}) <==> WrittenBy(lanes, fs, born) == fs)
  {
    hide Clean, Outdated, UnmanagedPaths, WrittenBy, Readable;
    forall l | l in lanes
      ensures Clean(l, fs) <==> UnmanagedPaths(l, fs) == {} && Outdated(l, fs) == {} && l.inventory <= l.expected.Keys
    {
      CleanMeansIdle(l, fs);
    }
    if forall l :: l in lanes ==> Outdated(l, fs) == {} { IdleLanesChangeNothing(lanes, fs, born); }
    if (forall l :: l in lanes ==> Readable(l)) && WrittenBy(lanes, fs, born) == fs {
      forall k | 0 <= k < |lanes| ensures Outdated(lanes[k], fs) == {} { WrittenLaneIsCurrent(lanes, k, fs, born); }
    }
  }

  lemma {:induction false} IdleLanesChangeNothing(lanes: seq<Lane>, fs: Files, born: nat)
    requires forall l :: l in lanes ==> Outdated(l, fs) == {}
    ensures WrittenBy(lanes, fs, born) == fs
  {
    hide Outdated, Written;
    if lanes != [] {
      IdleLanesChangeNothing(lanes[..|lanes| - 1], fs, born);
      IdleWriteChangesNothing(lanes[|lanes| - 1], fs, born);
    }
  }

  /** A readable lane is up to date once all lanes have been written, refused or not. */
  lemma WrittenLaneIsCurrent(lanes: seq<Lane>, k: nat, fs: Files, born: nat)
    requires Disjoint(lanes) && k < |lanes| && Readable(lanes[k])
    ensures Outdated(lanes[k], WrittenBy(lanes, fs, born)) == {}
  {
    var l, gs := lanes[k], WrittenBy(lanes[..k], fs, born);
    LastWritten(lanes, k + 1, fs, born);
    LaterLanesDoNotShow(lanes, k, |lanes|, fs, born);
    assert lanes[..|lanes|] == lanes;
    var hs := Written(l, gs, born, l.expected.Keys);
    forall p | p in l.expected ensures p !in Outdated(l, hs) { WrittenIsCurrent(l, gs, born, p); }
    SameView(l, hs, WrittenBy(lanes, fs, born), born);
  }

  lemma LaneIsCleanAfterAll(lanes: seq<Lane>, k: nat, fs: Files, born: nat)
    requires Disjoint(lanes) && k < |lanes| && UnmanagedPaths(lanes[k], fs) == {}
    ensures Clean(lanes[k], WrittenBy(lanes, fs, born))
            <==> Readable(lanes[k]) && lanes[k].inventory <= lanes[k].expected.Keys
  {
    var l, gs := lanes[k], WrittenBy(lanes[..k], fs, born);
    OtherLanesDoNotShow(lanes, k, fs, born);
    WriteSatisfiesCheck(l, gs, born);
    var hs := Written(l, gs, born, l.expected.Keys);
    assert lanes[..k + 1][..k] == lanes[..k];
    assert hs == WrittenBy(lanes[..k + 1], fs, born);
    LaterLanesDoNotShow(lanes, k, |lanes|, fs, born);
    assert lanes[..|lanes|] == lanes;
    SameView(l, hs, WrittenBy(lanes, fs, born), born);
  }

  lemma {:induction false} LaterLanesDoNotShow(lanes: seq<Lane>, k: nat, n: nat, fs: Files, born: nat)
    requires Disjoint(lanes) && k < n <= |lanes|
    ensures SameFor(lanes[k], WrittenBy(lanes[..k + 1], fs, born), WrittenBy(lanes[..n], fs, born))
    decreases n
  {
    hide SameFor, Written, WrittenBy, Apart;
    if k + 1 < n {
      var gs := WrittenBy(lanes[..n - 1], fs, born);
      LaterLanesDoNotShow(lanes, k, n - 1, fs, born);
      LastWritten(lanes, n, fs, born);
      OtherLaneDoesNotShow(lanes[k], lanes[n - 1], gs, born);
      SameForBoth(lanes[k], WrittenBy(lanes[..k + 1], fs, born), gs, WrittenBy(lanes[..n], fs, born));
    } else {
      SameForItself(lanes[k], WrittenBy(lanes[..n], fs, born));
    }
  }

  lemma LastWritten(lanes: seq<Lane>, n: nat, fs: Files, born: nat)
    requires 0 < n <= |lanes|
    ensures WrittenBy(lanes[..n], fs, born)
            == Written(lanes[n - 1], WrittenBy(lanes[..n - 1], fs, born), born, lanes[n - 1].expected.Keys)
  {
    assert lanes[..n][..n - 1] == lanes[..n - 1];
  }

  lemma SameForItself(l: Lane, fs: Files)
    ensures SameFor(l, fs, fs)
  {}

  lemma SameForBoth(l: Lane, fs: Files, gs: Files, hs: Files)
    requires SameFor(l, fs, gs) && SameFor(l, gs, hs)
    ensures SameFor(l, fs, hs)
  {}
}

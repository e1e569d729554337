/** Scoring the two arms of a blind A/B run, and the verdict that compares them. */
module BlindAdjudication {
  import opened Options
  import opened Sets

  /** Item-id prefixes in order, each with the tally bucket it counts toward. */
  type Kinds = seq<(string, string)>

  datatype Tally = Tally(total: nat, ok: nat)

  datatype Score = Score(scenarios: nat, byKind: map<string, Tally>, per: map<string, bool>)

  /** The bucket of the first prefix that the item starts with. */
  function Bucket(item: string, kinds: Kinds): (b: Option<string>)
    ensures b.Some? ==> exists i :: 0 <= i < |kinds| && IsFirstPrefix(kinds, i, item) && kinds[i].1 == b.value
    ensures b.None? ==> forall i :: 0 <= i < |kinds| ==> !(kinds[i].0 <= item)
  {
    if kinds == [] then None
    else if kinds[0].0 <= item then assert IsFirstPrefix(kinds, 0, item); Some(kinds[0].1)
    else
      var b := Bucket(item, kinds[1..]);
      assert b.Some? ==> exists i :: 0 <= i < |kinds| && IsFirstPrefix(kinds, i, item) && kinds[i].1 == b.value by {
        if b.Some? {
          var i :| 0 <= i < |kinds| - 1 && IsFirstPrefix(kinds[1..], i, item) && kinds[1..][i].1 == b.value;
          assert forall h :: 0 < h < i + 1 ==> kinds[h] == kinds[1..][h - 1];
          assert IsFirstPrefix(kinds, i + 1, item);
        }
      }
      assert b.None? ==> forall i :: 0 < i < |kinds| ==> kinds[i] == kinds[1..][i - 1];
      b
  }

  predicate IsFirstPrefix(kinds: Kinds, i: nat, item: string)
    requires i < |kinds|
  {
    kinds[i].0 <= item && forall h :: 0 <= h < i ==> !(kinds[h].0 <= item)
  }

  function Buckets(kinds: Kinds): set<string> { set k | k in kinds :: k.1 }

  function InBucket(ids: set<string>, kinds: Kinds, b: string): set<string>
  {
    set id | id in ids && Bucket(id, kinds) == Some(b)
  }

  function Passing(ids: set<string>, per: map<string, bool>): set<string>
    requires ids <= per.Keys
  {
    set id | id in ids && per[id]
  }

  function TallyOf(ids: set<string>, per: map<string, bool>, kinds: Kinds, b: string): Tally
    requires ids <= per.Keys
  {
    Tally(|InBucket(ids, kinds, b)|, |Passing(InBucket(ids, kinds, b), per)|)
  }

  /** What a score stands for: each bucket counts its items and the passing ones among them. */
  function ScoreOf(per: map<string, bool>, kinds: Kinds): Score
  {
    Score(|per|, map b | b in Buckets(kinds) :: TallyOf(per.Keys, per, kinds, b), per)
  }

  lemma BucketIsDeclared(item: string, kinds: Kinds)
    ensures Bucket(item, kinds).Some? ==> Bucket(item, kinds).value in Buckets(kinds)
  {
    if Bucket(item, kinds).Some? {
      var i :| 0 <= i < |kinds| && IsFirstPrefix(kinds, i, item) && kinds[i].1 == Bucket(item, kinds).value;
      assert kinds[i] in kinds;
    }
  }

  lemma TallyGrows(ids: set<string>, item: string, per: map<string, bool>, kinds: Kinds, b: string)
    requires ids <= per.Keys && item in per && item !in ids
    ensures var t := TallyOf(ids, per, kinds, b);
            TallyOf(ids + {item}, per, kinds, b) ==
            if Bucket(item, kinds) == Some(b) then Credit(t, per[item]) else t
  {
    hide Bucket;
    var before, after := InBucket(ids, kinds, b), InBucket(ids + {item}, kinds, b);
    if Bucket(item, kinds) == Some(b) {
      assert after == before + {item};
      assert Passing(after, per) == Passing(before, per) + if per[item] then {item} else {};
    } else {
      assert after == before;
    }
  }

  function Credit(t: Tally, ok: bool): Tally { Tally(t.total + 1, t.ok + if ok then 1 else 0) }

  /** Each bucket counts the items done so far. */
  ghost predicate Counted(tallies: map<string, Tally>, ids: set<string>, per: map<string, bool>, kinds: Kinds)
    requires ids <= per.Keys
  {
    && tallies.Keys == Buckets(kinds)
    && forall b :: b in tallies ==> tallies[b] == TallyOf(ids, per, kinds, b)
  }

  lemma NothingCounted(per: map<string, bool>, kinds: Kinds)
    ensures Counted(map b | b in Buckets(kinds) :: Tally(0, 0), {}, per, kinds)
  {
    forall b ensures TallyOf({}, per, kinds, b) == Tally(0, 0) {
      assert InBucket({}, kinds, b) == {} && Passing({}, per) == {};
    }
  }

  lemma CountOne(tallies: map<string, Tally>, ids: set<string>, item: string, per: map<string, bool>, kinds: Kinds)
    requires ids <= per.Keys && item in per && item !in ids && Counted(tallies, ids, per, kinds)
    ensures var b := Bucket(item, kinds);
            if b.Some? then
              b.value in tallies
              && Counted(tallies[b.value := Credit(tallies[b.value], per[item])], ids + {item}, per, kinds)
            else Counted(tallies, ids + {item}, per, kinds)
  {
    hide Bucket, Buckets, TallyOf;
    BucketIsDeclared(item, kinds);
    forall b ensures TallyOf(ids + {item}, per, kinds, b) ==
                     var t := TallyOf(ids, per, kinds, b);
                     if Bucket(item, kinds) == Some(b) then Credit(t, per[item]) else t
    {
      TallyGrows(ids, item, per, kinds, b);
    }
  }

  /** The fold over the pass map, item by item and prefix by prefix. */
  method ScoreArm(items: seq<string>, per: map<string, bool>, kinds: Kinds) returns (s: Score)
    requires forall i, j :: 0 <= i < j < |items| ==> items[i] != items[j]
    requires per.Keys == set i | i in items
    ensures s == ScoreOf(per, kinds)
  {
    hide Counted, Bucket;
    var tallies: map<string, Tally> := map b | b in Buckets(kinds) :: Tally(0, 0);
    NothingCounted(per, kinds);
    ghost var done: set<string> := {};
    for n := 0 to |items|
      invariant done == (set i | i in items[..n]) && done <= per.Keys
      invariant Counted(tallies, done, per, kinds)
    {
      var item := items[n];
      assert items[..n + 1] == items[..n] + [item];
      assert item !in done;
      CountOne(tallies, done, item, per, kinds);
      var k := 0;
      while k < |kinds|
        invariant 0 <= k <= |kinds|
        invariant forall h :: 0 <= h < k ==> !(kinds[h].0 <= item)
      {
        if kinds[k].0 <= item {
          FirstPrefixIsBucket(kinds, k, item);
          var bucket := kinds[k].1;
          tallies := tallies[bucket := Credit(tallies[bucket], per[item])];
          break;
        }
        k := k + 1;
      }
      if k == |kinds| { NoPrefixNoBucket(kinds, item); }
      done := done + {item};
    }
    assert items[..|items|] == items;
    s := Score(|per|, tallies, per);
    assert Counted(tallies, per.Keys, per, kinds);
    CountedIsScore(tallies, per, kinds);
  }

  lemma CountedIsScore(tallies: map<string, Tally>, per: map<string, bool>, kinds: Kinds)
    requires Counted(tallies, per.Keys, per, kinds)
    ensures tallies == ScoreOf(per, kinds).byKind
  {}

  lemma NoPrefixNoBucket(kinds: Kinds, item: string)
    requires forall h :: 0 <= h < |kinds| ==> !(kinds[h].0 <= item)
    ensures Bucket(item, kinds).None?
  {}

  lemma FirstPrefixIsBucket(kinds: Kinds, k: nat, item: string)
    requires k < |kinds| && IsFirstPrefix(kinds, k, item)
    ensures Bucket(item, kinds) == Some(kinds[k].1)
  {
    assert kinds[k].0 <= item;
    var i :| 0 <= i < |kinds| && IsFirstPrefix(kinds, i, item) && kinds[i].1 == Bucket(item, kinds).value;
    assert IsFirstPrefix(kinds, i, item);
    assert kinds[i].0 <= item;
    assert !(i < k) && !(k < i);
  }

  // ---------------------------------------------------------------------------------------------

  datatype Verdict = Verdict(pass: bool, newlyCaught: set<string>, newlyBroken: set<string>)

  function Line(s: Score, b: string): Tally
  {
    if b in s.byKind then s.byKind[b] else Tally(0, 0)
  }

  predicate Passed(s: Score, id: string) { id in s.per && s.per[id] }

  /** The comparison of the arms once the seal says which is which. */
  function Adjudicate(base: Score, cand: Score, gain: string, hold: string): Verdict
  {
    var improved := Line(cand, gain).ok > Line(base, gain).ok;
    var held := Line(cand, hold).ok >= Line(base, hold).ok && Line(cand, hold).ok == Line(cand, hold).total;
    var caught := set id | id in cand.per && cand.per[id] && !Passed(base, id);
    var broken := set id | id in cand.per && !cand.per[id] && Passed(base, id);
    Verdict(improved && held && broken == {}, caught, broken)
  }

  lemma LineIsTally(per: map<string, bool>, kinds: Kinds, b: string)
    ensures Line(ScoreOf(per, kinds), b) == TallyOf(per.Keys, per, kinds, b)
  {
    if b !in Buckets(kinds) {
      forall id | id in per ensures Bucket(id, kinds) != Some(b) { BucketIsDeclared(id, kinds); }
      assert InBucket(per.Keys, kinds, b) == {};
      assert Passing({}, per) == {};
    }
  }

  /** What a pass promises, item by item. */
  ghost predicate NothingLost(base: map<string, bool>, cand: map<string, bool>)
  {
    forall id :: id in base && base[id] ==> id in cand && cand[id]
  }

  ghost predicate SomethingGained(base: map<string, bool>, cand: map<string, bool>, kinds: Kinds, gain: string)
  {
    exists id :: id in cand && Bucket(id, kinds) == Some(gain) && cand[id] && !(id in base && base[id])
  }

  ghost predicate Whole(cand: map<string, bool>, kinds: Kinds, hold: string)
  {
    forall id :: id in cand && Bucket(id, kinds) == Some(hold) ==> cand[id]
  }

  /** The candidate ran every scenario that the baseline passed. */
  ghost predicate Covers(base: map<string, bool>, cand: map<string, bool>)
  {
    forall id :: id in base && base[id] ==> id in cand
  }

  lemma NothingBroken(base: map<string, bool>, cand: map<string, bool>, kinds: Kinds, gain: string, hold: string)
    ensures Adjudicate(ScoreOf(base, kinds), ScoreOf(cand, kinds), gain, hold).newlyBroken == {} && Covers(base, cand)
            <==> NothingLost(base, cand)
  {
    hide Line, TallyOf, Bucket;
    var v := Adjudicate(ScoreOf(base, kinds), ScoreOf(cand, kinds), gain, hold);
    forall id | id in base && base[id] && id in cand && !cand[id] ensures id in v.newlyBroken {}
  }

  lemma WholeIsFullTally(cand: map<string, bool>, kinds: Kinds, hold: string)
    ensures var t := TallyOf(cand.Keys, cand, kinds, hold); t.ok == t.total <==> Whole(cand, kinds, hold)
  {
    hide Bucket;
    var h := InBucket(cand.Keys, kinds, hold);
    SubsetSize(Passing(h, cand), h);
    forall id | id in cand && Bucket(id, kinds) == Some(hold) ensures id in h {}
    forall id | id in h ensures id in Passing(h, cand) <==> cand[id] {}
  }

  lemma TalliesCompare(base: map<string, bool>, cand: map<string, bool>, kinds: Kinds, b: string)
    requires NothingLost(base, cand)
    ensures TallyOf(cand.Keys, cand, kinds, b).ok >= TallyOf(base.Keys, base, kinds, b).ok
    ensures TallyOf(cand.Keys, cand, kinds, b).ok > TallyOf(base.Keys, base, kinds, b).ok
            <==> SomethingGained(base, cand, kinds, b)
  {
    hide Bucket;
    var p, q := Passing(InBucket(base.Keys, kinds, b), base), Passing(InBucket(cand.Keys, kinds, b), cand);
    SubsetSize(p, q);
    forall id | id in q && id !in p ensures Bucket(id, kinds) == Some(b) && cand[id] && !(id in base && base[id]) {}
    if p != q {
      var id :| id in q && id !in p;
      assert SomethingGained(base, cand, kinds, b);
    }
    if id :| id in cand && Bucket(id, kinds) == Some(b) && cand[id] && !(id in base && base[id]) {
      assert id in q && id !in p;
    }
  }

  /** A PASS over a candidate that ran all that the baseline passed means exactly: nothing lost,
      something gained where the change claims a gain, and the held bucket whole. */
  lemma PassIsGenuineGain(base: map<string, bool>, cand: map<string, bool>, kinds: Kinds, gain: string, hold: string)
    ensures Adjudicate(ScoreOf(base, kinds), ScoreOf(cand, kinds), gain, hold).pass && Covers(base, cand)
            <==> NothingLost(base, cand) && SomethingGained(base, cand, kinds, gain) && Whole(cand, kinds, hold)
  {
    LineIsTally(base, kinds, gain);
    LineIsTally(cand, kinds, gain);
    LineIsTally(base, kinds, hold);
    LineIsTally(cand, kinds, hold);
    NothingBroken(base, cand, kinds, gain, hold);
    WholeIsFullTally(cand, kinds, hold);
    hide Line, TallyOf, NothingLost, SomethingGained, Whole, Covers;
    if NothingLost(base, cand) {
      TalliesCompare(base, cand, kinds, gain);
      TalliesCompare(base, cand, kinds, hold);
    }
  }

  /** A PASS loses nothing exactly when the candidate ran all that the baseline passed, and what it
      does lose is what it did not run. */
  lemma PassLosesTheUnrun(base: map<string, bool>, cand: map<string, bool>, kinds: Kinds, gain: string, hold: string)
    requires Adjudicate(ScoreOf(base, kinds), ScoreOf(cand, kinds), gain, hold).pass
    ensures NothingLost(base, cand) <==> Covers(base, cand)
    ensures forall id :: id in base && base[id] && !(id in cand && cand[id]) ==> id !in cand
  {
    NothingBroken(base, cand, kinds, gain, hold);
    hide Line, TallyOf, Bucket;
    assert forall id :: id in cand && !cand[id] && id in base && base[id] ==>
        id in Adjudicate(ScoreOf(base, kinds), ScoreOf(cand, kinds), gain, hold).newlyBroken;
  }

  /** The reported lists: newly caught is what the candidate passes and the baseline did not, newly broken
      what both ran and only the baseline passed; so the candidate's passes are the newly caught and those
      of the baseline that it ran and did not break. */
  lemma ListsAreDifferences(base: map<string, bool>, cand: map<string, bool>, kinds: Kinds, gain: string, hold: string)
    ensures var v := Adjudicate(ScoreOf(base, kinds), ScoreOf(cand, kinds), gain, hold);
            var before, after := Passing(base.Keys, base), Passing(cand.Keys, cand);
            && v.newlyCaught == after - before && v.newlyBroken == (before * cand.Keys) - after
            && after == v.newlyCaught + (before * cand.Keys - v.newlyBroken)
  {
    hide Line, TallyOf;
  }

  /** Reading the seal the wrong way round turns every PASS into a FAIL. */
  lemma SwappedSealFails(base: map<string, bool>, cand: map<string, bool>, kinds: Kinds, gain: string, hold: string)
    requires Adjudicate(ScoreOf(base, kinds), ScoreOf(cand, kinds), gain, hold).pass
    ensures !Adjudicate(ScoreOf(cand, kinds), ScoreOf(base, kinds), gain, hold).pass
  {}

  /** One more scenario that only the baseline ran and passed: a PASS stays a PASS, although the
      scenario is lost, exactly when the candidate's lead in its bucket can take one more pass. */
  lemma DroppedScenarioEscapes(base: map<string, bool>, cand: map<string, bool>, x: string, kinds: Kinds,
                               gain: string, hold: string)
    requires x !in base && x !in cand
    requires Adjudicate(ScoreOf(base, kinds), ScoreOf(cand, kinds), gain, hold).pass
    ensures !NothingLost(base[x := true], cand)
    ensures Adjudicate(ScoreOf(base[x := true], kinds), ScoreOf(cand, kinds), gain, hold).pass
            <==> var b, c := ScoreOf(base, kinds), ScoreOf(cand, kinds);
                 && (Bucket(x, kinds) == Some(gain) ==> Line(c, gain).ok > Line(b, gain).ok + 1)
                 && (Bucket(x, kinds) == Some(hold) ==> Line(c, hold).ok > Line(b, hold).ok)
  {
    var more := base[x := true];
    assert x in more && more[x];
    LineGrows(base, x, kinds, gain);
    LineGrows(base, x, kinds, hold);
    var b, c, m := ScoreOf(base, kinds), ScoreOf(cand, kinds), ScoreOf(more, kinds);
    assert b.per == base && c.per == cand && m.per == more;
    hide Line, Bucket, ScoreOf, NothingLost;
    SameBroken(b, m, c, x, gain, hold);
  }

  lemma LineGrows(base: map<string, bool>, x: string, kinds: Kinds, b: string)
    requires x !in base
    ensures Line(ScoreOf(base[x := true], kinds), b).ok
            == Line(ScoreOf(base, kinds), b).ok + if Bucket(x, kinds) == Some(b) then 1 else 0
  {
    hide Bucket, Line, ScoreOf, Buckets;
    var more := base[x := true];
    LineIsTally(base, kinds, b);
    LineIsTally(more, kinds, b);
    TallyGrows(base.Keys, x, more, kinds, b);
    assert more.Keys == base.Keys + {x};
    assert Passing(InBucket(base.Keys, kinds, b), more) == Passing(InBucket(base.Keys, kinds, b), base);
  }

  lemma SameBroken(b: Score, m: Score, c: Score, x: string, gain: string, hold: string)
    requires x !in c.per && m.per == b.per[x := true]
    ensures Adjudicate(m, c, gain, hold).newlyBroken == Adjudicate(b, c, gain, hold).newlyBroken
  {
    hide Line;
  }

  /** Where every scenario id is its own prefix, an item lands in its own bucket exactly when the
      first id that it starts with is of its own kind. */
  lemma OwnBucketUnlessShadowed(kinds: Kinds, j: nat)
    requires j < |kinds|
    ensures Bucket(kinds[j].0, kinds) == Some(kinds[j].1)
            <==> forall i :: 0 <= i < j && IsFirstPrefix(kinds, i, kinds[j].0) ==> kinds[i].1 == kinds[j].1
  {
    var item := kinds[j].0;
    forall i | 0 <= i <= j && IsFirstPrefix(kinds, i, item) ensures Bucket(item, kinds) == Some(kinds[i].1) {
      FirstPrefixIsBucket(kinds, i, item);
    }
    assert kinds[j].0 <= item;
    assert Bucket(item, kinds).Some?;
    var f :| 0 <= f < |kinds| && IsFirstPrefix(kinds, f, item) && kinds[f].1 == Bucket(item, kinds).value;
    assert f <= j;
  }

  /** Two hook scenarios whose ids are `r-1` and `r-10`: the second is counted as the first's kind. */
  lemma NumberedIdsCollide()
    ensures Bucket("r-10", [("r-1", "target"), ("r-10", "other")]) == Some("target")
  {
    FirstPrefixIsBucket([("r-1", "target"), ("r-10", "other")], 0, "r-10");
  }
}

/** Cache-mode clustering of control arms, and the matched-arm verdict on a rule's token cost. */
module RuleLoadProof {
  import opened Bytes
  import opened Options

  /** One run: the tokens its first message wrote to cache, and when it was launched. */
  datatype Arm = Arm(dir: string, tokens: int, launched: Option<int>)

  const WAVE_TOLERANCE_S := 180

  function Max(x: int, y: int): int { if x < y then y else x }

  function Abs(x: int): nat { if x < 0 then -x else x }

  /** Within 35% of the larger value; never true of two values that are not positive. */
  predicate SameMode(a: int, b: int)
  {
    var hi := Max(a, b);
    hi > 0 && 100 * Abs(a - b) <= 35 * hi
  }

  predicate SameWave(a: Option<int>, b: Option<int>)
  {
    a.Some? && b.Some? && Abs(a.value - b.value) <= WAVE_TOLERANCE_S
  }

  // ---------------------------------------------------------------------------------------------
  // Sorting by tokens; equal keys keep their order.

  function Insert(c: Arm, s: seq<Arm>): seq<Arm>
  {
    if s == [] || c.tokens <= s[0].tokens then [c] + s else [s[0]] + Insert(c, s[1..])
  }

  function SortByTokens(s: seq<Arm>): seq<Arm>
  {
    if s == [] then [] else Insert(s[0], SortByTokens(s[1..]))
  }

  predicate Sorted(s: seq<Arm>) { forall i, j :: 0 <= i < j < |s| ==> s[i].tokens <= s[j].tokens }

  lemma {:induction false} InsertMembers(c: Arm, s: seq<Arm>)
    ensures multiset(Insert(c, s)) == multiset{c} + multiset(s)
  {
    if s != [] && c.tokens > s[0].tokens {
      InsertMembers(c, s[1..]);
      assert s == [s[0]] + s[1..];
    }
  }

  lemma {:induction false} InsertSorts(c: Arm, s: seq<Arm>)
    requires Sorted(s)
    ensures Sorted(Insert(c, s))
  {
    if s != [] && c.tokens > s[0].tokens {
      var rest := Insert(c, s[1..]);
      InsertSorts(c, s[1..]);
      InsertMembers(c, s[1..]);
      forall x | x in rest ensures s[0].tokens <= x.tokens {
        assert x in multiset(rest);
        assert x == c || x in s[1..];
      }
      HeadSorts(s[0], rest);
    }
  }

  lemma HeadSorts(x: Arm, rest: seq<Arm>)
    requires Sorted(rest) && forall y :: y in rest ==> x.tokens <= y.tokens
    ensures Sorted([x] + rest)
  {}

  lemma {:induction false} SortSorts(s: seq<Arm>)
    ensures Sorted(SortByTokens(s)) && multiset(SortByTokens(s)) == multiset(s)
  {
    if s != [] {
      SortSorts(s[1..]);
      InsertSorts(s[0], SortByTokens(s[1..]));
      InsertMembers(s[0], SortByTokens(s[1..]));
      assert s == [s[0]] + s[1..];
    }
  }

  // ---------------------------------------------------------------------------------------------
  // Modes as connected components.

  /** A walk from position `i` to position `j` along pairs of the same mode. */
  ghost predicate IsPath(s: seq<Arm>, path: seq<nat>, i: nat, j: nat)
  {
    && path != [] && path[0] == i && path[|path| - 1] == j
    && (forall k :: 0 <= k < |path| ==> path[k] < |s|)
    && (forall k {:trigger path[k]} :: 0 <= k < |path| - 1 ==> SameMode(s[path[k]].tokens, s[path[k + 1]].tokens))
  }

  ghost predicate Connected(s: seq<Arm>, i: nat, j: nat)
  {
    exists path :: IsPath(s, path, i, j)
  }

  /** How many neighbouring pairs up to position `p` differ in mode. */
  function Label(s: seq<Arm>, p: nat): nat
    requires p < |s|
  {
    if p == 0 then 0
    else Label(s, p - 1) + if SameMode(s[p - 1].tokens, s[p].tokens) then 0 else 1
  }

  /** The number of the cluster that holds position `p` of the concatenation. */
  function ClusterIndex(clusters: seq<seq<Arm>>, p: nat): nat
    requires p < |Concat(clusters)|
  {
    if p < |clusters[0]| then 0 else 1 + ClusterIndex(clusters[1..], p - |clusters[0]|)
  }

  lemma {:induction false} ClusterIndexSnoc(front: seq<seq<Arm>>, last: seq<Arm>, p: nat)
    requires p < |Concat(front)| + |last|
    ensures Concat(front + [last]) == Concat(front) + last
    ensures ClusterIndex(front + [last], p) == if p < |Concat(front)| then ClusterIndex(front, p) else |front|
  {
    ConcatSnoc(front, last);
    if front != [] {
      assert (front + [last])[1..] == front[1..] + [last];
      if p >= |front[0]| { ClusterIndexSnoc(front[1..], last, p - |front[0]|); }
    }
  }

  /** What the loop has built from the first `n` sorted arms. */
  ghost predicate IsClustering(s: seq<Arm>, n: nat, clusters: seq<seq<Arm>>)
    requires n <= |s|
  {
    && Concat(clusters) == s[..n]
    && |clusters| == (if n == 0 then 0 else Label(s, n - 1) + 1)
    && (forall c :: c in clusters ==> c != [])
    && (n > 0 ==> clusters != [] && clusters[|clusters| - 1] != []
                  && clusters[|clusters| - 1][|clusters[|clusters| - 1]| - 1] == s[n - 1])
    && forall p {:trigger ClusterIndex(clusters, p)} :: 0 <= p < n ==> ClusterIndex(clusters, p) == Label(s, p)
  }

  lemma Grow(s: seq<Arm>, n: nat, front: seq<seq<Arm>>, last: seq<Arm>, grown: seq<Arm>)
    requires n < |s| && front + [grown] != []
    requires grown == last + [s[n]]
    requires last == [] ==> IsClustering(s, n, front) && (n == 0 || !SameMode(s[n - 1].tokens, s[n].tokens))
    requires last != [] ==> IsClustering(s, n, front + [last]) && n > 0 && SameMode(s[n - 1].tokens, s[n].tokens)
    ensures IsClustering(s, n + 1, front + [grown])
  {
    var next := front + [grown];
    ConcatSnoc(front, grown);
    ConcatSnoc(front, last);
    if last != [] { ClusterIndexSnoc(front, last, 0); }
    assert Concat(front) + last == s[..n] by {
      if last == [] { assert Concat(front) + last == Concat(front); }
    }
    assert Concat(next) == s[..n + 1] by {
      assert Concat(front) + grown == (Concat(front) + last) + [s[n]];
    }
    forall p: nat | p < n + 1 ensures ClusterIndex(next, p) == Label(s, p) {
      ClusterIndexSnoc(front, grown, p);
      if last != [] && p < n {
        ClusterIndexSnoc(front, last, p);
        assert ClusterIndex(front + [last], p) == Label(s, p);
      } else if last == [] && p < n {
        assert ClusterIndex(front, p) == Label(s, p);
      }
    }
    assert next[|next| - 1] == grown && grown[|grown| - 1] == s[n];
    forall c | c in next ensures c != [] {
      if c != grown { assert c in front; assert last != [] ==> c in front + [last]; }
    }
  }

  lemma NoClusters(s: seq<Arm>)
    ensures IsClustering(s, 0, [])
  {}

  lemma LastMember(s: seq<Arm>, n: nat, clusters: seq<seq<Arm>>)
    requires n <= |s| && IsClustering(s, n, clusters)
    ensures clusters == [] <==> n == 0
    ensures n > 0 ==> clusters[|clusters| - 1] != []
                      && clusters[|clusters| - 1][|clusters[|clusters| - 1]| - 1] == s[n - 1]
  {}

  lemma ClusteringIsLabels(s: seq<Arm>, clusters: seq<seq<Arm>>)
    requires IsClustering(s, |s|, clusters)
    ensures Concat(clusters) == s && forall c :: c in clusters ==> c != []
    ensures forall p {:trigger ClusterIndex(clusters, p)} :: 0 <= p < |s| ==> ClusterIndex(clusters, p) == Label(s, p)
  {
    assert s[..|s|] == s;
  }

  /** The single pass over the sorted controls: two of them share a cluster exactly when a chain of
      same-mode controls joins them. */
  method ClusterModes(controls: seq<Arm>) returns (clusters: seq<seq<Arm>>)
    ensures Concat(clusters) == SortByTokens(controls)
    ensures forall c :: c in clusters ==> c != []
    ensures forall i, j :: 0 <= i < |SortByTokens(controls)| && 0 <= j < |SortByTokens(controls)| ==>
              (ClusterIndex(clusters, i) == ClusterIndex(clusters, j) <==> Connected(SortByTokens(controls), i, j))
  {
    var sorted := SortByTokens(controls);
    clusters := [];
    NoClusters(sorted);
    hide IsClustering, SortByTokens, Connected, SameMode, Label, ClusterIndex, Concat;
    for n := 0 to |sorted|
      invariant IsClustering(sorted, n, clusters)
    {
      var c := sorted[n];
      var k := |clusters| - 1;
      LastMember(sorted, n, clusters);
      if k >= 0 && SameMode(clusters[k][|clusters[k]| - 1].tokens, c.tokens) {
        assert clusters == clusters[..k] + [clusters[k]];
        Grow(sorted, n, clusters[..k], clusters[k], clusters[k] + [c]);
        clusters := clusters[..k] + [clusters[k] + [c]];
      } else {
        assert [] + [c] == [c];
        Grow(sorted, n, clusters, [], [c]);
        clusters := clusters + [[c]];
      }
    }
    assert sorted[..|sorted|] == sorted;
    SortSorts(controls);
    ClusteringIsLabels(sorted, clusters);
    forall i, j | 0 <= i < |sorted| && 0 <= j < |sorted|
      ensures ClusterIndex(clusters, i) == ClusterIndex(clusters, j) <==> Connected(sorted, i, j)
    {
      LabelsAreComponents(sorted, i, j);
    }
  }

  lemma {:induction false} LabelMonotone(s: seq<Arm>, i: nat, j: nat)
    requires i <= j < |s|
    ensures Label(s, i) <= Label(s, j)
    decreases j - i
  {
    if i < j { LabelMonotone(s, i, j - 1); }
  }

  /** In sorted order everything between two values of one mode is of that mode. */
  lemma {:induction false} EdgeCrossesNoBreak(s: seq<Arm>, i: nat, m: nat, j: nat)
    requires Sorted(s) && i <= m <= j < |s|
    requires SameMode(s[i].tokens, s[j].tokens)
    ensures Label(s, m) == Label(s, i)
    decreases m - i
  {
    if i < m {
      EdgeCrossesNoBreak(s, i, m - 1, j);
      assert s[i].tokens <= s[m - 1].tokens <= s[m].tokens <= s[j].tokens;
    }
  }

  lemma {:induction false} PathKeepsLabel(s: seq<Arm>, path: seq<nat>, i: nat, j: nat)
    requires Sorted(s) && IsPath(s, path, i, j)
    ensures Label(s, i) == Label(s, j)
    decreases |path|
  {
    if |path| > 1 {
      var h := path[|path| - 2];
      var front := path[..|path| - 1];
      assert SameMode(s[h].tokens, s[path[|path| - 2 + 1]].tokens);
      assert IsPath(s, front, i, h);
      PathKeepsLabel(s, front, i, h);
      if h <= j { EdgeCrossesNoBreak(s, h, j, j); } else { EdgeCrossesNoBreak(s, j, h, h); }
    }
  }

  lemma {:induction false} WalkUp(s: seq<Arm>, i: nat, j: nat) returns (path: seq<nat>)
    requires i <= j < |s| && Label(s, i) == Label(s, j)
    ensures IsPath(s, path, i, j)
    decreases j - i
  {
    if i == j {
      path := [i];
    } else {
      LabelMonotone(s, i, j - 1);
      var front := WalkUp(s, i, j - 1);
      path := front + [j];
    }
  }

  lemma Backwards(s: seq<Arm>, path: seq<nat>, i: nat, j: nat)
    requires IsPath(s, path, i, j)
    ensures Connected(s, j, i)
  {
    var back := seq(|path|, k requires 0 <= k < |path| => path[|path| - 1 - k]);
    forall k | 0 <= k < |back| - 1 ensures SameMode(s[back[k]].tokens, s[back[k + 1]].tokens) {
      var h := |path| - 2 - k;
      assert SameMode(s[path[h]].tokens, s[path[h + 1]].tokens);
    }
    assert IsPath(s, back, j, i);
  }

  lemma LabelsAreComponents(s: seq<Arm>, i: nat, j: nat)
    requires Sorted(s) && i < |s| && j < |s|
    ensures Label(s, i) == Label(s, j) <==> Connected(s, i, j)
  {
    if Connected(s, i, j) {
      var path :| IsPath(s, path, i, j);
      PathKeepsLabel(s, path, i, j);
    }
    if Label(s, i) == Label(s, j) {
      if i <= j {
        var path := WalkUp(s, i, j);
      } else {
        var path := WalkUp(s, j, i);
        Backwards(s, path, j, i);
      }
    }
  }

  function Power(b: nat, e: nat): nat { if e == 0 then 1 else b * Power(b, e - 1) }

  /** `y` is at most `e` steps of 35% away from `x`. */
  predicate Reaches(e: nat, x: int, y: int) { Power(65, e) * y <= Power(100, e) * x }

  /** A mode can drift by 35% at each member but no faster. */
  lemma ClusterSpread(s: seq<Arm>, i: nat, j: nat)
    requires Sorted(s) && i <= j < |s| && Connected(s, i, j)
    ensures Power(65, j - i) * s[j].tokens <= Power(100, j - i) * s[i].tokens
  {
    LinksReach(s, i, j);
    hide Power, Connected, Sorted;
  }

  lemma {:induction false} LinksReach(s: seq<Arm>, i: nat, j: nat)
    requires Sorted(s) && i <= j < |s| && Connected(s, i, j)
    ensures Reaches(j - i, s[i].tokens, s[j].tokens)
    decreases j - i
  {
    hide Connected, SameMode, Sorted, Reaches;
    if i == j {
      ReachesItself(s[i].tokens);
    } else {
      LastLink(s, i, j);
      LinksReach(s, i, j - 1);
      SpreadStep(j - i, s[i].tokens, s[j - 1].tokens, s[j].tokens);
    }
  }

  lemma ReachesItself(x: int)
    ensures Reaches(0, x, x)
  {}

  /** A component is an interval whose neighbours share a mode. */
  lemma LastLink(s: seq<Arm>, i: nat, j: nat)
    requires Sorted(s) && i < j < |s| && Connected(s, i, j)
    ensures Connected(s, i, j - 1) && SameMode(s[j - 1].tokens, s[j].tokens) && s[j - 1].tokens <= s[j].tokens
  {
    hide Connected;
    LabelsAreComponents(s, i, j);
    LabelMonotone(s, i, j - 1);
    LabelsAreComponents(s, i, j - 1);
  }

  lemma SpreadStep(e: nat, x: int, y: int, z: int)
    requires e > 0 && y <= z && SameMode(y, z)
    requires Reaches(e - 1, x, y)
    ensures Reaches(e, x, z)
  {
    var p, q := Power(65, e - 1), Power(100, e - 1);
    assert Power(65, e) == 65 * p && Power(100, e) == 100 * q;
    hide Power;
    assert p * (65 * z) <= p * (100 * y);
    assert (65 * p) * z == p * (65 * z) && (100 * q) * x == 100 * (q * x);
  }

  // ---------------------------------------------------------------------------------------------
  // The verdict on one measured arm.

  datatype Verdict = Unpaired | Ambiguous | Failed(base: Arm) | Proven(base: Arm)

  function InWave(controls: seq<Arm>, arm: Arm): seq<Arm>
  {
    if controls == [] then []
    else (if SameWave(controls[0].launched, arm.launched) then [controls[0]] else []) + InWave(controls[1..], arm)
  }

  function InMode(pool: seq<Arm>, arm: Arm): seq<Arm>
  {
    if pool == [] then []
    else (if SameMode(pool[0].tokens, arm.tokens) then [pool[0]] else []) + InMode(pool[1..], arm)
  }

  function Distance(c: Arm, arm: Arm): nat { Abs(c.tokens - arm.tokens) }

  /** The first of the controls that are nearest to the arm. */
  function Nearest(matched: seq<Arm>, arm: Arm): Arm
    requires matched != []
  {
    if |matched| == 1 then matched[0]
    else
      var rest := Nearest(matched[1..], arm);
      if Distance(matched[0], arm) <= Distance(rest, arm) then matched[0] else rest
  }

  /** What an arm is judged by: the rule's size in bytes, the band of bytes for each extra token, and
      whether controls of other waves are allowed. */
  datatype Terms = Terms(size: nat, lo: real, hi: real, crossWave: bool)

  /** The rule's bytes over the extra tokens fall inside the band. */
  predicate InBand(terms: Terms, delta: int)
  {
    delta > 0 && terms.lo * delta as real <= terms.size as real <= terms.hi * delta as real
  }

  function Pool(controls: seq<Arm>, arm: Arm, terms: Terms): seq<Arm>
  {
    if terms.crossWave then controls else InWave(controls, arm)
  }

  function Judge(controls: seq<Arm>, arm: Arm, terms: Terms): Verdict
  {
    var pool := Pool(controls, arm, terms);
    var matched := InMode(pool, arm);
    if pool == [] then Unpaired
    else if matched == [] then Ambiguous
    else
      var base := Nearest(matched, arm);
      if InBand(terms, arm.tokens - base.tokens) then Proven(base) else Failed(base)
  }

  lemma {:induction false} InWaveMembers(controls: seq<Arm>, arm: Arm, c: Arm)
    ensures c in InWave(controls, arm) <==> c in controls && SameWave(c.launched, arm.launched)
  {
    if controls != [] { InWaveMembers(controls[1..], arm, c); }
  }

  lemma {:induction false} InModeMembers(pool: seq<Arm>, arm: Arm, c: Arm)
    ensures c in InMode(pool, arm) <==> c in pool && SameMode(c.tokens, arm.tokens)
  {
    if pool != [] { InModeMembers(pool[1..], arm, c); }
  }

  lemma {:induction false} NearestIsNearest(matched: seq<Arm>, arm: Arm)
    requires matched != []
    ensures Nearest(matched, arm) in matched
    ensures forall c :: c in matched ==> Distance(Nearest(matched, arm), arm) <= Distance(c, arm)
  {
    if |matched| > 1 { NearestIsNearest(matched[1..], arm); }
  }

  /** The control may be compared with the arm: it is of the same wave, or the wave does not matter. */
  predicate Paired(c: Arm, arm: Arm, terms: Terms) { terms.crossWave || SameWave(c.launched, arm.launched) }

  ghost predicate Matches(controls: seq<Arm>, arm: Arm, terms: Terms, c: Arm)
  {
    c in controls && Paired(c, arm, terms) && SameMode(c.tokens, arm.tokens)
  }

  /** A verdict names a matched control than which no matched control is nearer; no control that may be
      compared means no verdict, and none of the mode means an ambiguous one. */
  lemma JudgeIsMatched(controls: seq<Arm>, arm: Arm, terms: Terms)
    ensures var v := Judge(controls, arm, terms);
            && (v.Unpaired? <==> forall c :: c in controls ==> !Paired(c, arm, terms))
            && (v.Ambiguous? <==> !v.Unpaired? && forall c :: !Matches(controls, arm, terms, c))
            && (v.Failed? || v.Proven? ==>
                  && Matches(controls, arm, terms, v.base)
                  && (forall c :: Matches(controls, arm, terms, c) ==>
                        Abs(v.base.tokens - arm.tokens) <= Abs(c.tokens - arm.tokens))
                  && (v.Proven? <==> InBand(terms, arm.tokens - v.base.tokens)))
  {
    var pool := Pool(controls, arm, terms);
    var matched := InMode(pool, arm);
    forall c: Arm
      ensures (c in pool <==> c in controls && Paired(c, arm, terms))
              && (c in matched <==> Matches(controls, arm, terms, c))
    {
      PoolMembers(controls, arm, terms, c);
      InModeMembers(pool, arm, c);
    }
    if pool != [] { assert pool[0] in pool; }
    if matched != [] {
      NearestIsNearest(matched, arm);
      assert matched[0] in matched;
    }
  }

  lemma PoolMembers(controls: seq<Arm>, arm: Arm, terms: Terms, c: Arm)
    ensures c in Pool(controls, arm, terms) <==> c in controls && Paired(c, arm, terms)
  {
    InWaveMembers(controls, arm, c);
  }

  lemma {:induction false} InWaveIdempotent(controls: seq<Arm>, arm: Arm)
    ensures InWave(InWave(controls, arm), arm) == InWave(controls, arm)
  {
    if controls != [] {
      InWaveIdempotent(controls[1..], arm);
      var rest := InWave(controls[1..], arm);
      if SameWave(controls[0].launched, arm.launched) {
        assert ([controls[0]] + rest)[1..] == rest;
      } else {
        assert [] + rest == rest;
      }
    }
  }

  /** The tests in the quotients they are written with: the difference is at most 35% of the larger value,
      and the bytes for each extra token lie between the two ends of the band. */
  lemma QuotientForms(a: int, b: int, terms: Terms, delta: int)
    ensures SameMode(a, b) <==> (a > 0 || b > 0) && Abs(a - b) as real / Max(a, b) as real <= 0.35
    ensures InBand(terms, delta) <==> delta > 0 && terms.lo <= terms.size as real / delta as real <= terms.hi
  {
    if a > 0 || b > 0 {
      QuotientAtMost(Abs(a - b) as real, Max(a, b) as real, 0.35);
      assert 100 * Abs(a - b) <= 35 * Max(a, b) <==> Abs(a - b) as real <= 0.35 * Max(a, b) as real;
    }
    if delta > 0 {
      QuotientAtMost(terms.size as real, delta as real, terms.hi);
      QuotientAtLeast(terms.size as real, delta as real, terms.lo);
    }
  }

  lemma QuotientAtMost(x: real, y: real, z: real)
    requires y > 0.0
    ensures x / y <= z <==> x <= z * y
  {
    var q := x / y;
    assert q * y == x;
    if q <= z { assert (z - q) * y >= 0.0; } else { assert (q - z) * y > 0.0; }
  }

  lemma QuotientAtLeast(x: real, y: real, z: real)
    requires y > 0.0
    ensures z <= x / y <==> z * y <= x
  {
    var q := x / y;
    assert q * y == x;
    if z <= q { assert (q - z) * y >= 0.0; } else { assert (z - q) * y > 0.0; }
  }

  /** Arms without a launch stamp are of no wave; others are of one within three minutes. */
  lemma WavesTold(a: Option<int>, b: Option<int>)
    ensures SameWave(a, b) <==> a.Some? && b.Some? && -180 <= a.value - b.value <= 180
  {}

  /** Without the cross-wave option controls launched in another wave never touch a verdict: it is the
      one that the controls of the wave alone give, with the option or without. */
  lemma ForeignWavesAreIgnored(controls: seq<Arm>, foreign: seq<Arm>, arm: Arm, terms: Terms)
    requires !terms.crossWave
    requires InWave(controls, arm) == InWave(foreign, arm)
    ensures Judge(controls, arm, terms) == Judge(foreign, arm, terms)
    ensures Judge(InWave(controls, arm), arm, terms) == Judge(controls, arm, terms)
    ensures Judge(InWave(controls, arm), arm, terms.(crossWave := true)) == Judge(controls, arm, terms)
  {
    InWaveIdempotent(controls, arm);
    hide InWave, Judge;
    SamePool(controls, foreign, arm, terms, terms);
    SamePool(InWave(controls, arm), controls, arm, terms, terms);
    SamePool(InWave(controls, arm), controls, arm, terms.(crossWave := true), terms);
  }

  lemma SamePool(controls: seq<Arm>, foreign: seq<Arm>, arm: Arm, terms: Terms, others: Terms)
    requires Pool(controls, arm, terms) == Pool(foreign, arm, others)
    requires terms.(crossWave := others.crossWave) == others
    ensures Judge(controls, arm, terms) == Judge(foreign, arm, others)
  {
    hide Pool, InMode, Nearest;
  }

  /** Two matched controls equally near, one on each side, the lower of which would be in band. */
  ghost predicate Tied(controls: seq<Arm>, arm: Arm, terms: Terms, low: Arm, high: Arm)
  {
    && Matches(controls, arm, terms, low) && Matches(controls, arm, terms, high)
    && low.tokens < arm.tokens < high.tokens && arm.tokens - low.tokens == high.tokens - arm.tokens
    && (forall c :: Matches(controls, arm, terms, c) ==> Distance(low, arm) <= Distance(c, arm))
    && InBand(terms, arm.tokens - low.tokens)
  }

  ghost predicate Flips(controls: seq<Arm>, arm: Arm, terms: Terms, p: seq<Arm>, q: seq<Arm>)
  {
    && multiset(p) == multiset(controls) == multiset(q)
    && Judge(p, arm, terms).Proven? && Judge(q, arm, terms).Failed?
  }

  lemma TieFlips(controls: seq<Arm>, arm: Arm, terms: Terms, low: Arm, high: Arm)
    requires Tied(controls, arm, terms, low, high)
    ensures exists p, q :: Flips(controls, arm, terms, p, q)
  {
    hide Judge;
    var p := MoveFirst(controls, low);
    var q := MoveFirst(controls, high);
    FirstWinsTies(p, controls, arm, terms, low);
    FirstWinsTies(q, controls, arm, terms, high);
    assert Flips(controls, arm, terms, p, q);
  }

  lemma FlipNeedsTie(controls: seq<Arm>, arm: Arm, terms: Terms, p: seq<Arm>, q: seq<Arm>)
    requires Flips(controls, arm, terms, p, q)
    ensures exists low, high :: Tied(controls, arm, terms, low, high)
  {
    JudgeIsMatched(p, arm, terms);
    JudgeIsMatched(q, arm, terms);
    var low, high := Judge(p, arm, terms).base, Judge(q, arm, terms).base;
    hide Judge;
    SameMembers(p, controls);
    SameMembers(q, controls);
    assert Matches(q, arm, terms, low) && Matches(p, arm, terms, high);
    assert forall c :: Matches(controls, arm, terms, c) <==> Matches(p, arm, terms, c);
    assert Tied(controls, arm, terms, low, high);
  }

  /** The order in which controls were collected decides a verdict exactly when such a tie exists. */
  lemma OrderMattersOnlyOnTies(controls: seq<Arm>, arm: Arm, terms: Terms)
    ensures (exists low, high :: Tied(controls, arm, terms, low, high)) <==>
            (exists p, q :: Flips(controls, arm, terms, p, q))
  {
    hide Tied, Flips;
    if low, high :| Tied(controls, arm, terms, low, high) {
      TieFlips(controls, arm, terms, low, high);
    }
    if p, q :| Flips(controls, arm, terms, p, q) {
      FlipNeedsTie(controls, arm, terms, p, q);
    }
  }

  lemma SameMembers(p: seq<Arm>, q: seq<Arm>)
    requires multiset(p) == multiset(q)
    ensures forall c :: c in p <==> c in q
  {
    forall c: Arm ensures c in p <==> c in q {
      assert c in p <==> c in multiset(p);
      assert c in q <==> c in multiset(q);
    }
  }

  lemma MoveFirst(s: seq<Arm>, c: Arm) returns (p: seq<Arm>)
    requires c in s
    ensures p != [] && p[0] == c && multiset(p) == multiset(s)
  {
    var k :| 0 <= k < |s| && s[k] == c;
    p := [c] + (s[..k] + s[k + 1..]);
    assert s == s[..k] + [c] + s[k + 1..];
  }

  lemma FirstWinsTies(p: seq<Arm>, controls: seq<Arm>, arm: Arm, terms: Terms, first: Arm)
    requires p != [] && p[0] == first && multiset(p) == multiset(controls)
    requires Matches(controls, arm, terms, first)
    requires forall c :: Matches(controls, arm, terms, c) ==> Distance(first, arm) <= Distance(c, arm)
    ensures var v := Judge(p, arm, terms);
            v == if InBand(terms, arm.tokens - first.tokens) then Proven(first) else Failed(first)
  {
    SameMembers(p, controls);
    var pool := Pool(p, arm, terms);
    assert p == [first] + p[1..];
    assert pool[0] == first;
    var rest := pool[1..];
    var matched := InMode(pool, arm);
    assert matched == [first] + InMode(rest, arm);
    assert matched[1..] == InMode(rest, arm);
    if matched[1..] != [] {
      NearestIsNearest(matched[1..], arm);
      var n := Nearest(matched[1..], arm);
      InModeMembers(rest, arm, n);
      assert n in pool;
      PoolMembers(p, arm, terms, n);
      assert Matches(controls, arm, terms, n);
    }
  }
}

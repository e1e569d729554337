/** The "referenced" proof of reachability: a component's file counts as reachable when the corpus of
    shipped text, with the file's own section taken out, still mentions the file's name. */
module Reachability {
  import opened Bytes

  /** A shipped file as the corpus lists it. */
  datatype Section = Section(rel: string, text: string)

  function Header(rel: string): string { "<<" + rel + ">>" }

  function Part(s: Section): string { "\n" + Header(s.rel) + "\n" + s.text }

  /** The parts joined by line feeds. */
  function Corpus(sections: seq<Section>): string
  {
    if sections == [] then []
    else if |sections| == 1 then Part(sections[0])
    else Part(sections[0]) + "\n" + Corpus(sections[1..])
  }

  /** The first position from `from` on at which the needle stands, or the length when there is none. */
  function Find(needle: string, hay: string, from: nat): (i: nat)
    requires from <= |hay|
    decreases |hay| - from
    ensures from <= i <= |hay|
    ensures forall k :: from <= k < i ==> !OccursAt(needle, hay, k)
    ensures i < |hay| ==> OccursAt(needle, hay, i)
  {
    if from == |hay| || OccursAt(needle, hay, from) then from else Find(needle, hay, from + 1)
  }

  /** The corpus without the section that the first header of `rel` opens, up to the next line that
      starts with two angle brackets. */
  function Without(rel: string, corpus: string): string
  {
    var i := Find(Header(rel), corpus, 0);
    if i == |corpus| then corpus
    else
      var j := Find("\n<<", corpus, i + 1);
      corpus[..i] + corpus[j..]
  }

  /** The verdict on a file called `base` at `rel`. */
  predicate Referenced(rel: string, base: string, corpus: string)
  {
    Occurs(base, Without(rel, corpus))
  }

  /** What the verdict is meant to say: some other section mentions the name, in header or text. */
  predicate Mentions(s: Section, base: string) { Occurs(base, Header(s.rel)) || Occurs(base, s.text) }

  // ---------------------------------------------------------------------------------------------

  lemma OccursOnLeft(needle: string, a: string, b: string)
    requires Occurs(needle, a)
    ensures Occurs(needle, a + b)
  {
    OccursInside(needle, [], a, b);
    assert [] + a + b == a + b;
  }

  lemma OccursOnRight(needle: string, a: string, b: string)
    requires Occurs(needle, b)
    ensures Occurs(needle, a + b)
  {
    OccursInside(needle, a, b, []);
    assert a + b + [] == a + b;
  }

  /** A needle without a line feed cannot straddle one. */
  lemma OccursAroundFeed(needle: string, a: string, b: string)
    requires needle != [] && '\n' !in needle
    ensures Occurs(needle, a + "\n" + b) <==> Occurs(needle, a) || Occurs(needle, b)
  {
    var s := a + "\n" + b;
    if Occurs(needle, a) {
      OccursOnLeft(needle, a, "\n" + b);
      assert a + ("\n" + b) == s;
    }
    if Occurs(needle, b) { OccursOnRight(needle, a + "\n", b); }
    if Occurs(needle, s) {
      var i :| 0 <= i <= |s| - |needle| && OccursAt(needle, s, i);
      OccurrenceOnOneSide(needle, a, b, i);
    }
  }

  lemma CharOfNeedle(needle: string, s: string, i: int, k: nat)
    requires OccursAt(needle, s, i) && k < |needle|
    ensures s[i + k] in needle
  {
    assert s[i + k] == s[i..i + |needle|][k] == needle[k];
  }

  lemma FeedStaysOutside(needle: string, s: string, i: int, f: nat)
    requires '\n' !in needle && OccursAt(needle, s, i) && f < |s| && s[f] == '\n'
    ensures f < i || f >= i + |needle|
  {
    if i <= f < i + |needle| {
      CharOfNeedle(needle, s, i, f - i);
      assert false;
    }
  }

  lemma OccurrenceOnOneSide(needle: string, a: string, b: string, i: int)
    requires needle != [] && '\n' !in needle && OccursAt(needle, a + "\n" + b, i)
    ensures Occurs(needle, a) || Occurs(needle, b)
  {
    var s, n := a + "\n" + b, |needle|;
    FeedStaysOutside(needle, s, i, |a|);
    if i + n <= |a| {
      assert a[i..i + n] == s[i..i + n];
      assert OccursAt(needle, a, i);
    } else {
      var k := i - |a| - 1;
      assert b[k..k + n] == s[i..i + n];
      assert OccursAt(needle, b, k);
    }
  }

  lemma OccursInPart(needle: string, s: Section)
    requires needle != [] && '\n' !in needle
    ensures Occurs(needle, Part(s)) <==> Mentions(s, needle)
  {
    OccursAroundFeed(needle, "\n" + Header(s.rel), s.text);
    assert [] + "\n" + Header(s.rel) == "\n" + Header(s.rel);
    OccursAroundFeed(needle, [], Header(s.rel));
    assert !OccursAt(needle, [], 0);
  }

  /** The corpus mentions exactly what its sections mention. */
  lemma {:induction false} OccursInCorpus(needle: string, sections: seq<Section>)
    requires needle != [] && '\n' !in needle
    ensures Occurs(needle, Corpus(sections)) <==> exists s :: s in sections && Mentions(s, needle)
  {
    hide Mentions, Part;
    if sections == [] {
      assert !OccursAt(needle, [], 0);
    } else {
      OccursInPart(needle, sections[0]);
      if |sections| == 1 {
        assert sections == [sections[0]];
      } else {
        OccursInCorpus(needle, sections[1..]);
        OccursAroundFeed(needle, Part(sections[0]), Corpus(sections[1..]));
        assert forall s :: s in sections <==> s == sections[0] || s in sections[1..];
      }
    }
  }

  /** The corpus before, at and after one section. */
  function Lead(before: seq<Section>): string { if before == [] then "\n" else Corpus(before) + "\n" + "\n" }

  function Trail(after: seq<Section>): string { if after == [] then [] else "\n" + Corpus(after) }

  lemma {:induction false} CorpusAround(before: seq<Section>, s: Section, after: seq<Section>)
    ensures Corpus(before + [s] + after) == Lead(before) + (Header(s.rel) + ("\n" + s.text + Trail(after)))
  {
    hide Header;
    if before == [] {
      CorpusHead(s, after);
      assert before + [s] + after == [s] + after;
    } else {
      var rest := before[1..] + [s] + after;
      CorpusAround(before[1..], s, after);
      assert before + [s] + after == [before[0]] + rest;
      assert rest != [];
      CorpusCons(before[0], rest);
      LeadCons(before);
      hide Corpus, Part, Lead, Trail;
      var tail := Header(s.rel) + ("\n" + s.text + Trail(after));
      Reassociate(Part(before[0]) + "\n", Lead(before[1..]), tail);
    }
  }

  lemma Reassociate(a: string, b: string, c: string)
    ensures a + (b + c) == a + b + c
  {}

  lemma CorpusCons(s: Section, rest: seq<Section>)
    requires rest != []
    ensures Corpus([s] + rest) == Part(s) + "\n" + Corpus(rest)
  {
    assert ([s] + rest)[1..] == rest;
  }

  lemma CorpusHead(s: Section, after: seq<Section>)
    ensures Corpus([s] + after) == "\n" + (Header(s.rel) + ("\n" + s.text + Trail(after)))
  {
    hide Header;
    if after == [] {
      assert [s] + after == [s];
    } else {
      CorpusCons(s, after);
    }
  }

  lemma LeadCons(before: seq<Section>)
    requires before != []
    ensures Lead(before) == Part(before[0]) + "\n" + Lead(before[1..])
  {
    hide Part;
    if |before| == 1 {
      assert Corpus(before) == Part(before[0]);
    } else {
      CorpusCons(before[0], before[1..]);
      assert before == [before[0]] + before[1..];
    }
  }

  /** The own header is quoted in the part of the corpus before the own section. */
  ghost predicate QuotedBefore(before: seq<Section>, rel: string, corpus: string)
  {
    exists k :: 0 <= k < |Lead(before)| && OccursAt(Header(rel), corpus, k)
  }

  /** What the cut leaves of the own text: everything from the first line that starts with two angle
      brackets. */
  function Leftover(text: string): string
  {
    var body := "\n" + text;
    body[Find("\n<<", body, 0)..]
  }

  lemma FindAt(needle: string, hay: string, from: nat, i: nat)
    requires from <= i < |hay| && OccursAt(needle, hay, i)
    requires forall k :: from <= k < i ==> !OccursAt(needle, hay, k)
    ensures Find(needle, hay, from) == i
  {}

  lemma StandsInside(a: string, b: string, c: string)
    ensures OccursAt(b, a + (b + c), |a|)
  {
    assert (a + (b + c))[|a|..] == b + c;
  }

  lemma FindNotAfter(needle: string, hay: string, from: nat, i: nat)
    requires from <= i < |hay| && OccursAt(needle, hay, i)
    ensures Find(needle, hay, from) <= i
  {}

  lemma FindIsFirst(needle: string, hay: string, k: int)
    requires 0 <= k < Find(needle, hay, 0)
    ensures !OccursAt(needle, hay, k)
  {}

  /** The first header of a file that is not quoted earlier is its own. */
  lemma HeaderIsFound(before: seq<Section>, s: Section, after: seq<Section>)
    requires !QuotedBefore(before, s.rel, Corpus(before + [s] + after))
    ensures Find(Header(s.rel), Corpus(before + [s] + after), 0) == |Lead(before)| < |Corpus(before + [s] + after)|
  {
    var h, c := Header(s.rel), Corpus(before + [s] + after);
    CorpusAround(before, s, after);
    StandsInside(Lead(before), h, "\n" + s.text + Trail(after));
    FindAt(h, c, 0, |Lead(before)|);
  }

  lemma Regroup(a: string, b: string, c: string, d: string)
    ensures a + (b + (c + d)) == a + b + c + d
  {}

  lemma EndFound(needle: string, hay: string, from: nat)
    requires from <= |hay| && forall k :: from <= k < |hay| ==> !OccursAt(needle, hay, k)
    ensures Find(needle, hay, from) == |hay|
  {}

  lemma TrailStarts(after: seq<Section>)
    requires after != []
    ensures |Trail(after)| >= 4 && Trail(after)[0] == '\n' && Trail(after)[1..4] == "\n<<"
  {
    var rest := if |after| == 1 then [] else "\n" + Corpus(after[1..]);
    var tail := after[0].rel + ">>" + "\n" + after[0].text;
    assert Part(after[0]) == "\n<<" + tail;
    assert Corpus(after) == "\n<<" + (tail + rest);
    assert Trail(after) == "\n" + ("\n<<" + (tail + rest));
  }

  /** The three characters a header line starts with. */
  lemma HeaderAt(c: string, k: int)
    ensures OccursAt("\n<<", c, k) <==> 0 <= k && k + 3 <= |c| && c[k] == '\n' && c[k + 1] == '<' && c[k + 2] == '<'
  {
    if 0 <= k && k + 3 <= |c| {
      assert c[k..k + 3] == [c[k], c[k + 1], c[k + 2]];
      assert "\n<<" == ['\n', '<', '<'];
    }
  }

  /** Where the cut ends: at the first angled line of the text, or else at the next section. */
  function Stop(lead: string, h: string, body: string, after: seq<Section>): nat
  {
    var k := Find("\n<<", body, 0);
    |lead| + |h| + k + if k == |body| && after != [] then 1 else 0
  }

  lemma NoHeaderInside(lead: string, h: string, body: string, trail: string, k: int, rel: string, after: seq<Section>)
    requires h == Header(rel) && '\n' !in rel && trail == Trail(after)
    requires |lead| + 1 <= k < Stop(lead, h, body, after)
    ensures !OccursAt("\n<<", lead + h + body + trail, k)
  {
    var c := lead + h + body + trail;
    var m, n := |lead| + |h|, |lead| + |h| + |body|;
    assert '\n' !in h;
    if after != [] { TrailStarts(after); }
    assert after != [] ==> trail[1..4][0] == trail[1];
    HeaderAt(c, k);
    HeaderAt(body, k - m);
    if 0 <= k - m < Find("\n<<", body, 0) { FindIsFirst("\n<<", body, k - m); }
    hide OccursAt, Occurs, Trail, Header, Find;
    if k < m {
      assert c[k] == h[k - |lead|] && h[k - |lead|] in h;
    } else if k + 3 <= n {
      assert c[k] == body[k - m] && c[k + 1] == body[k + 1 - m] && c[k + 2] == body[k + 2 - m];
    } else if after == [] {
      assert |c| == n;
    } else {
      assert c[n] == trail[0] == '\n' && c[n + 1] == trail[1] == '\n';
    }
  }

  lemma StopIsHeader(lead: string, h: string, body: string, trail: string, after: seq<Section>)
    requires trail == Trail(after) && Stop(lead, h, body, after) < |lead + h + body + trail|
    ensures OccursAt("\n<<", lead + h + body + trail, Stop(lead, h, body, after))
  {
    var c, k, stop := lead + h + body + trail, Find("\n<<", body, 0), Stop(lead, h, body, after);
    if after != [] { TrailStarts(after); }
    assert after != [] ==> trail[1..4][0] == trail[1] && trail[1..4][1] == trail[2] && trail[1..4][2] == trail[3];
    HeaderAt(c, stop);
    HeaderAt(body, k);
    assert after == [] ==> trail == [];
    hide OccursAt, Occurs, Header, Find, Trail;
    if k < |body| {
      assert c[stop] == body[k] && c[stop + 1] == body[k + 1] && c[stop + 2] == body[k + 2];
    } else {
      assert c[stop] == trail[1] && c[stop + 1] == trail[2] && c[stop + 2] == trail[3];
    }
  }

  lemma StopIsFound(lead: string, h: string, body: string, trail: string, rel: string, after: seq<Section>)
    requires h == Header(rel) && h != [] && '\n' !in rel && trail == Trail(after)
    ensures Find("\n<<", lead + h + body + trail, |lead| + 1) == Stop(lead, h, body, after)
  {
    var c, stop := lead + h + body + trail, Stop(lead, h, body, after);
    forall k | |lead| + 1 <= k < stop ensures !OccursAt("\n<<", c, k) {
      NoHeaderInside(lead, h, body, trail, k, rel, after);
    }
    if after != [] { TrailStarts(after); } else { assert trail == []; }
    hide OccursAt, Occurs, Header, Trail;
    if stop < |c| {
      StopIsHeader(lead, h, body, trail, after);
      hide Find, Stop;
      FindAt("\n<<", c, |lead| + 1, stop);
    } else {
      hide Find;
      EndFound("\n<<", c, |lead| + 1);
    }
  }

  /** What is left once the own section is cut: the leftover of the own text and the other sections. */
  function Remains(text: string, after: seq<Section>): string
  {
    var rest := if after == [] then [] else Corpus(after);
    if Leftover(text) == [] then rest else Leftover(text) + Trail(after)
  }

  lemma WithoutOwn(before: seq<Section>, s: Section, after: seq<Section>)
    requires !QuotedBefore(before, s.rel, Corpus(before + [s] + after)) && '\n' !in s.rel
    ensures Without(s.rel, Corpus(before + [s] + after)) == Lead(before) + Remains(s.text, after)
  {
    hide *;
    HeaderIsFound(before, s, after);
    CorpusAround(before, s, after);
    HeaderIsNotEmpty(s.rel);
    var h, body, c := Header(s.rel), "\n" + s.text, Corpus(before + [s] + after);
    var lead, trail := Lead(before), Trail(after);
    Regroup(lead, h, body, trail);
    StopIsFound(lead, h, body, trail, s.rel, after);
    WithoutCuts(s.rel, c, |lead|, Stop(lead, h, body, after));
    CutLeavesRemains(c, lead, h, s.text, after);
  }

  lemma CutLeavesRemains(c: string, lead: string, h: string, text: string, after: seq<Section>)
    requires c == lead + h + ("\n" + text) + Trail(after)
    ensures var stop := Stop(lead, h, "\n" + text, after);
            |lead| <= |c| && stop <= |c| && c[..|lead|] + c[stop..] == lead + Remains(text, after)
  {
    hide *;
    RemainsAre(lead, h, text, after);
    TrailIsRest(after);
    AfterStop(lead, h, "\n" + text, Trail(after), Find("\n<<", "\n" + text, 0), if after != [] then 1 else 0);
  }

  lemma RemainsAre(lead: string, h: string, text: string, after: seq<Section>)
    ensures var body, skip := "\n" + text, if after != [] then 1 else 0;
            var k := Find("\n<<", body, 0);
            && skip <= |Trail(after)| && Stop(lead, h, body, after) == |lead| + |h| + StopIn(body, k, skip)
            && Remains(text, after) == RestFrom(body, Trail(after), k, skip)
  {
    TrailIsRest(after);
    hide Find, Trail, Corpus;
  }

  function StopIn(body: string, k: nat, skip: nat): nat { if k == |body| then k + skip else k }

  function RestFrom(body: string, trail: string, k: nat, skip: nat): string
    requires k <= |body| && skip <= |trail|
  {
    if k == |body| then trail[skip..] else body[k..] + trail
  }

  lemma HeaderIsNotEmpty(rel: string)
    ensures Header(rel) != []
  {}

  lemma TrailIsRest(after: seq<Section>)
    ensures after == [] ==> Trail(after) == []
    ensures after != [] ==> |Trail(after)| > 0 && Trail(after)[1..] == Corpus(after)
  {}

  lemma AfterStop(lead: string, h: string, body: string, trail: string, k: nat, skip: nat)
    requires k <= |body| && skip <= |trail|
    ensures var c, stop := lead + h + body + trail, |lead| + |h| + StopIn(body, k, skip);
            stop <= |c| && c[..|lead|] + c[stop..] == lead + RestFrom(body, trail, k, skip)
  {
    var c, stop := lead + h + body + trail, |lead| + |h| + StopIn(body, k, skip);
    assert c[..|lead|] == lead;
    assert c[stop..] == RestFrom(body, trail, k, skip);
  }

  lemma NothingInNothing(base: string)
    requires base != []
    ensures !Occurs(base, [])
  {
    assert !OccursAt(base, [], 0);
  }

  lemma LeadAndRest(base: string, before: seq<Section>, rest: string)
    requires base != [] && '\n' !in base
    ensures Occurs(base, Lead(before) + rest) <==> Occurs(base, Corpus(before)) || Occurs(base, rest)
  {
    NothingInNothing(base);
    if before == [] {
      assert [] + "\n" + rest == Lead(before) + rest;
      OccursAroundFeed(base, [], rest);
    } else {
      OccursAroundFeed(base, Corpus(before) + "\n", rest);
      OccursAroundFeed(base, Corpus(before), []);
      assert Corpus(before) + "\n" + [] == Corpus(before) + "\n";
    }
  }

  lemma RemainsMention(base: string, text: string, after: seq<Section>)
    requires base != [] && '\n' !in base
    ensures Occurs(base, Remains(text, after)) <==> Occurs(base, Leftover(text)) || Occurs(base, Corpus(after))
  {
    var left := Leftover(text);
    NothingInNothing(base);
    assert Corpus([]) == [];
    if left != [] && after != [] {
      OccursAroundFeed(base, left, Corpus(after));
      Reassociate(left, "\n", Corpus(after));
    } else if left != [] {
      assert left + Trail(after) == left;
    }
  }

  /** A header that is quoted earlier shields the own section from the cut. */
  lemma QuotedHeaderShields(before: seq<Section>, s: Section, after: seq<Section>, base: string, dir: string)
    requires QuotedBefore(before, s.rel, Corpus(before + [s] + after)) && '\n' !in s.rel && s.rel == dir + base
    ensures Referenced(s.rel, base, Corpus(before + [s] + after))
  {
    var h, c, lead := Header(s.rel), Corpus(before + [s] + after), Lead(before);
    var k: nat :| 0 <= k < |lead| && OccursAt(h, c, k);
    hide Corpus, Lead, Trail, Find, Occurs, OccursAt, Referenced, Header, QuotedBefore;
    CorpusAround(before, s, after);
    LeadEndsLine(before);
    var tail := "\n" + s.text + Trail(after);
    OwnHeaderLine(lead, h, tail, s.rel);
    FirstQuote(h, c, |lead| - 1, k);
    ShieldedMention(c, lead, h, tail, s.rel, base, dir);
  }

  /** A needle without a line feed that stands before one is over before it; so is the next header. */
  lemma FirstQuote(h: string, c: string, feed: nat, k: nat)
    requires h != [] && '\n' !in h && feed < |c| && c[feed] == '\n' && k <= feed
    requires OccursAt(h, c, k) && OccursAt("\n<<", c, feed)
    ensures var i := Find(h, c, 0); i < |c| && Find("\n<<", c, i + 1) <= feed
  {
    FindNotAfter(h, c, 0, k);
    FeedStaysOutside(h, c, Find(h, c, 0), feed);
    hide Find;
    FindNotAfter("\n<<", c, Find(h, c, 0) + 1, feed);
  }

  lemma LeadEndsLine(before: seq<Section>)
    ensures Lead(before) != [] && Lead(before)[|Lead(before)| - 1] == '\n'
  {}

  lemma OwnHeaderLine(lead: string, h: string, tail: string, rel: string)
    requires h == Header(rel) && lead != [] && lead[|lead| - 1] == '\n'
    ensures h != [] && ('\n' !in rel ==> '\n' !in h)
    ensures (lead + (h + tail))[|lead| - 1] == '\n'
    ensures OccursAt("\n<<", lead + (h + tail), |lead| - 1)
  {
    var c := lead + (h + tail);
    assert h[0] == '<' && h[1] == '<' && |h| >= 4;
    assert c[|lead|] == h[0] && c[|lead| + 1] == h[1];
    HeaderAt(c, |lead| - 1);
  }

  lemma ShieldedMention(c: string, lead: string, h: string, tail: string, rel: string, base: string, dir: string)
    requires c == lead + (h + tail) && h == Header(rel) && rel == dir + base && lead != []
    requires var i := Find(h, c, 0); i < |c| && Find("\n<<", c, i + 1) <= |lead| - 1
    ensures Referenced(rel, base, c)
  {
    hide Find, Header, Occurs, OccursAt, Without;
    var i := Find(h, c, 0);
    var j := Find("\n<<", c, i + 1);
    WithoutCuts(rel, c, i, j);
    HeaderSpells(rel, h, tail, base, dir);
    CutBefore(c, lead, h + tail, i, j);
    OccursOnRight(base, c[..i] + lead[j..], h + tail);
  }

  lemma WithoutCuts(rel: string, c: string, i: nat, j: nat)
    requires i == Find(Header(rel), c, 0) < |c| && j == Find("\n<<", c, i + 1)
    ensures Without(rel, c) == c[..i] + c[j..]
  {
    hide Find, Header;
  }

  lemma HeaderSpells(rel: string, h: string, tail: string, base: string, dir: string)
    requires h == Header(rel) && rel == dir + base
    ensures Occurs(base, h + tail)
  {
    assert OccursAt(base, base, 0);
    assert "<<" + dir + base + (">>" + tail) == h + tail;
    hide Header, OccursAt;
    OccursInside(base, "<<" + dir, base, ">>" + tail);
  }

  lemma CutBefore(c: string, lead: string, own: string, i: nat, j: nat)
    requires c == lead + own && i <= |c| && j <= |lead|
    ensures c[..i] + c[j..] == c[..i] + lead[j..] + own
  {}

  /** A header that is quoted earlier is quoted by some earlier section, which so mentions the name. */
  lemma QuotedMeansMentioned(before: seq<Section>, s: Section, after: seq<Section>, base: string, dir: string)
    requires QuotedBefore(before, s.rel, Corpus(before + [s] + after)) && '\n' !in s.rel && '\n' !in base
    requires base != [] && s.rel == dir + base
    ensures exists o :: o in before && Mentions(o, base)
  {
    var h, c, lead := Header(s.rel), Corpus(before + [s] + after), Lead(before);
    var k: nat :| 0 <= k < |lead| && OccursAt(h, c, k);
    hide Corpus, Lead, Trail, Mentions, OccursAt, Header, QuotedBefore, Occurs;
    CorpusAround(before, s, after);
    LeadEndsLine(before);
    var tail := "\n" + s.text + Trail(after);
    OwnHeaderLine(lead, h, tail, s.rel);
    FeedStaysOutside(h, c, k, |lead| - 1);
    StandsInPrefix(h, lead, h + tail, k);
    LeadSpells(before, h);
    HeaderSpells(s.rel, h, [], base, dir);
    assert h + [] == h;
    SpelledInside(base, h, Corpus(before));
    OccursInCorpus(base, before);
  }

  lemma StandsInPrefix(needle: string, front: string, back: string, k: nat)
    requires OccursAt(needle, front + back, k) && k + |needle| <= |front|
    ensures Occurs(needle, front)
  {
    assert front[k..k + |needle|] == (front + back)[k..k + |needle|];
    assert OccursAt(needle, front, k);
  }

  lemma LeadSpells(before: seq<Section>, needle: string)
    requires needle != [] && '\n' !in needle && Occurs(needle, Lead(before))
    ensures Occurs(needle, Corpus(before))
  {
    hide Corpus;
    assert Lead(before) + [] == Lead(before);
    LeadAndRest(needle, before, []);
    NothingInNothing(needle);
  }

  lemma SpelledInside(inner: string, outer: string, hay: string)
    requires Occurs(inner, outer) && Occurs(outer, hay)
    ensures Occurs(inner, hay)
  {
    var k :| 0 <= k <= |hay| - |outer| && OccursAt(outer, hay, k);
    hide Occurs;
    OccursInside(inner, hay[..k], outer, hay[k + |outer|..]);
    assert hay[..k] + outer + hay[k + |outer|..] == hay;
  }

  /** The verdict on a shipped file, for every corpus: it is called referenced exactly when another
      section mentions its name, in its text or in its own header line, or the own text does from its
      first line that starts with two angle brackets on. */
  lemma ReferencedExactly(before: seq<Section>, s: Section, after: seq<Section>, base: string, dir: string)
    requires '\n' !in s.rel && base != [] && s.rel == dir + base
    ensures Referenced(s.rel, base, Corpus(before + [s] + after)) <==>
            (exists o :: o in before + after && Mentions(o, base)) || Occurs(base, Leftover(s.text))
  {
    forall k | 0 <= k < |base| ensures base[k] != '\n' { assert base[k] == s.rel[|dir| + k]; }
    if QuotedBefore(before, s.rel, Corpus(before + [s] + after)) {
      QuotedHeaderShields(before, s, after, base, dir);
      QuotedMeansMentioned(before, s, after, base, dir);
    } else {
      WithoutOwn(before, s, after);
      hide Mentions, Occurs, Without, Leftover, QuotedBefore;
      LeadAndRest(base, before, Remains(s.text, after));
      RemainsMention(base, s.text, after);
      OccursInCorpus(base, before);
      OccursInCorpus(base, after);
    }
  }

  /** The promise of the cut, that only other sections count, for every file whose name does not survive
      in its own text. */
  lemma ReferencedMeansMentioned(before: seq<Section>, s: Section, after: seq<Section>, base: string, dir: string)
    requires '\n' !in s.rel && base != [] && s.rel == dir + base && !Occurs(base, Leftover(s.text))
    ensures Referenced(s.rel, base, Corpus(before + [s] + after))
            <==> exists o :: o in before + after && Mentions(o, base)
  {
    ReferencedExactly(before, s, after, base, dir);
  }

  /** A name that the own text holds behind a line starting with two angle brackets proves the file,
      wherever its section stands and whatever the others say. */
  lemma AngledTextProvesItself(before: seq<Section>, s: Section, after: seq<Section>, base: string, dir: string,
                               lines: string, rest: string)
    requires '\n' !in s.rel && base != [] && s.rel == dir + base
    requires "\n" + s.text == lines + ("\n<<" + rest) && Occurs(base, rest)
    ensures Referenced(s.rel, base, Corpus(before + [s] + after))
  {
    LeftoverHolds(s.text, lines, rest, base);
    hide Referenced, Corpus, QuotedBefore, Mentions, Leftover, Occurs;
    ReferencedExactly(before, s, after, base, dir);
  }

  lemma LeftoverHolds(text: string, lines: string, rest: string, base: string)
    requires "\n" + text == lines + ("\n<<" + rest) && Occurs(base, rest)
    ensures Occurs(base, Leftover(text))
  {
    hide Find, Occurs, OccursAt;
    var body := "\n" + text;
    StandsInside(lines, "\n<<", rest);
    FindNotAfter("\n<<", body, 0, |lines|);
    var j := Find("\n<<", body, 0);
    assert body[j..] == lines[j..] + "\n<<" + rest;
    OccursOnRight(base, lines[j..] + "\n<<", rest);
  }

  /** A namesake proves it: another file of the same name anywhere in the payload is enough, whatever
      its text says, because its header line spells the name. */
  lemma NamesakeProves(before: seq<Section>, s: Section, after: seq<Section>, base: string, dir: string,
                       o: Section, odir: string)
    requires '\n' !in s.rel && base != [] && s.rel == dir + base
    requires o in before + after && o.rel == odir + base
    ensures Referenced(s.rel, base, Corpus(before + [s] + after))
  {
    var h := Header(o.rel);
    assert h == "<<" + odir + base + ">>";
    assert OccursAt(base, base, 0);
    OccursInside(base, "<<" + odir, base, ">>");
    assert Mentions(o, base);
    ReferencedExactly(before, s, after, base, dir);
  }

  /** A path that the corpus has no header for loses nothing to the cut; an empty name is always found. */
  lemma UnlistedMeansMentioned(sections: seq<Section>, rel: string, base: string)
    requires '\n' !in base && !Occurs(Header(rel), Corpus(sections))
    ensures Referenced(rel, base, Corpus(sections)) <==> base == [] || exists s :: s in sections && Mentions(s, base)
  {
    var c := Corpus(sections);
    assert OccursAt([], c, 0);
    if base != [] { OccursInCorpus(base, sections); }
    hide Mentions, Corpus, Header;
    assert Find(Header(rel), c, 0) == |c|;
  }
}

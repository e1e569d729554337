/** The environment-variable passes of the skill generator: neutralising host words such as
    CLAUDE_KIT_HOME into markers, and projecting the markers back for the Claude host. */
module EnvMarkers {

  /** Which characters are word characters; only `[A-Z0-9_]` is fixed, the rest is the engine's. */
  type Classifier = char -> bool

  /** One pass: the host's prefix and the opening of its marker. */
  datatype Env = Env(prefix: string, tag: string)

  const KIT := Env("CLAUDE_KIT_", "{{kit_env:")
  const HOST := Env("CLAUDE_", "{{host_env:")
  const CLOSE := "}}"

  predicate IsUpper(c: char) { 'A' <= c <= 'Z' || '0' <= c <= '9' || c == '_' }

  predicate IsLower(c: char) { 'a' <= c <= 'z' || '0' <= c <= '9' || c == '-' }

  ghost predicate Classifies(W: Classifier) { forall c :: IsUpper(c) ==> W(c) }

  /** `lower().replace("_", "-")` and `upper().replace("-", "_")` on the characters a name holds. */
  function LowerChar(c: char): (r: char)
    requires IsUpper(c)
    ensures IsLower(r) && UpperChar(r) == c
  {
    if c == '_' then '-' else if 'A' <= c <= 'Z' then (c as int + 32) as char else c
  }

  function UpperChar(c: char): (r: char)
    requires IsLower(c)
    ensures IsUpper(r)
  {
    if c == '-' then '_' else if 'a' <= c <= 'z' then (c as int - 32) as char else c
  }

  predicate AllUpper(s: string) { forall i :: 0 <= i < |s| ==> IsUpper(s[i]) }

  predicate AllLower(s: string) { forall i :: 0 <= i < |s| ==> IsLower(s[i]) }

  function Lower(s: string): (r: string)
    requires AllUpper(s)
    ensures |r| == |s| && AllLower(r)
  {
    seq(|s|, i requires 0 <= i < |s| => LowerChar(s[i]))
  }

  function Upper(s: string): (r: string)
    requires AllLower(s)
    ensures |r| == |s| && AllUpper(r)
  {
    seq(|s|, i requires 0 <= i < |s| => UpperChar(s[i]))
  }

  lemma UpperLower(s: string)
    requires AllUpper(s)
    ensures Upper(Lower(s)) == s
  {}

  function UpperRun(s: string): (n: nat)
    ensures n <= |s| && AllUpper(s[..n]) && (n < |s| ==> !IsUpper(s[n]))
  {
    if s == [] || !IsUpper(s[0]) then 0 else 1 + UpperRun(s[1..])
  }

  function LowerRun(s: string): (n: nat)
    ensures n <= |s| && AllLower(s[..n]) && (n < |s| ==> !IsLower(s[n]))
  {
    if s == [] || !IsLower(s[0]) then 0 else 1 + LowerRun(s[1..])
  }

  predicate WordAt(W: Classifier, s: string, i: nat) { i < |s| && W(s[i]) }

  /** `\bPREFIX([A-Z0-9_]+)\b` can match the first `n` characters of `s`; `pw` says whether the
      character before them is a word character. */
  predicate RegexMatch(W: Classifier, e: Env, pw: bool, s: string, n: nat)
  {
    && !pw && |e.prefix| < n <= |s| && e.prefix <= s
    && AllUpper(s[|e.prefix|..n])
    && WordAt(W, s, n - 1) != WordAt(W, s, n)
  }

  /** How much the expression takes at the head of `s`, or zero: greed leaves only the whole run. */
  function MatchLen(W: Classifier, e: Env, pw: bool, s: string): (n: nat)
    ensures n > 0 ==> |e.prefix| < n <= |s|
  {
    if pw || !(e.prefix <= s) then 0
    else
      var run := UpperRun(s[|e.prefix|..]);
      if run == 0 || WordAt(W, s, |e.prefix| + run) then 0 else |e.prefix| + run
  }

  lemma {:induction false} UpperRunExact(s: string, n: nat)
    requires n <= |s| && AllUpper(s[..n]) && (n < |s| ==> !IsUpper(s[n]))
    ensures UpperRun(s) == n
  {
    if n > 0 {
      assert s[..n][0] == s[0] && s[1..][..n - 1] == s[..n][1..];
      UpperRunExact(s[1..], n - 1);
    }
  }

  lemma MatchIsUnique(W: Classifier, e: Env, pw: bool, s: string, n: nat)
    requires Classifies(W)
    ensures RegexMatch(W, e, pw, s, n) <==> n > 0 && MatchLen(W, e, pw, s) == n
  {
    if RegexMatch(W, e, pw, s, n) {
      var p := |e.prefix|;
      assert IsUpper(s[p..n][n - 1 - p]) && s[p..n] == s[p..][..n - p];
      UpperRunExact(s[p..], n - p);
    }
    if n > 0 && MatchLen(W, e, pw, s) == n {
      var tail := s[|e.prefix|..];
      var run := UpperRun(tail);
      assert s[|e.prefix|..n] == tail[..run];
      assert IsUpper(tail[..run][run - 1]);
    }
  }

  function Marker(e: Env, name: string): string
    requires AllUpper(name)
  {
    e.tag + Lower(name) + CLOSE
  }

  /** One neutralising substitution, left to right. */
  function Neutralize(W: Classifier, e: Env, pw: bool, s: string): string
    decreases |s|
  {
    if s == [] then []
    else
      var n := MatchLen(W, e, pw, s);
      if n > 0 then Marker(e, Taken(W, e, pw, s)) + Neutralize(W, e, true, s[n..])
      else [s[0]] + Neutralize(W, e, W(s[0]), s[1..])
  }

  /** The captured name of the match at the head of `s`. */
  function Taken(W: Classifier, e: Env, pw: bool, s: string): (name: string)
    requires MatchLen(W, e, pw, s) > 0
    ensures name != [] && AllUpper(name) && s[..MatchLen(W, e, pw, s)] == e.prefix + name
  {
    var tail := s[|e.prefix|..];
    assert s == e.prefix + tail;
    tail[..UpperRun(tail)]
  }

  /** Both neutralising passes, in the generator's order. */
  function NeutralizeText(W: Classifier, text: string): string
  {
    Neutralize(W, HOST, false, Neutralize(W, KIT, false, text))
  }

  /** How much `\{\{TAG:([a-z0-9-]+)\}\}` takes at the head of `s`, or zero. */
  function MarkerLen(e: Env, s: string): (n: nat)
    ensures n > 0 ==> |e.tag| + 2 < n <= |s| && AllLower(s[|e.tag|..n - 2])
  {
    if !(e.tag <= s) then 0
    else
      var run := LowerRun(s[|e.tag|..]);
      if run > 0 && CLOSE <= s[|e.tag| + run..] then
        assert s[|e.tag|..][..run] == s[|e.tag|..|e.tag| + run];
        |e.tag| + run + 2
      else 0
  }

  /** One projecting substitution for the Claude host. */
  function Project(e: Env, s: string): string
    decreases |s|
  {
    if s == [] then []
    else
      var n := MarkerLen(e, s);
      if n > 0 then e.prefix + Upper(s[|e.tag|..n - 2]) + Project(e, s[n..])
      else [s[0]] + Project(e, s[1..])
  }

  /** Both projecting passes, in the generator's order. */
  function ProjectText(text: string): string
  {
    Project(HOST, Project(KIT, text))
  }

  predicate NoMarker(e: Env, s: string)
  {
    forall i :: 0 <= i <= |s| ==> MarkerLen(e, s[i..]) == 0
  }

  // ---------------------------------------------------------------------------------------------

  /** The facts about a pass that the proofs use. */
  ghost predicate Valid(e: Env)
  {
    && e.prefix != [] && e.prefix[0] == 'C' && AllUpper(e.prefix)
    && |e.tag| > 2 && e.tag[0] == '{' && e.tag[1] == '{'
    && (forall i :: 2 <= i < |e.tag| ==> e.tag[i] != '{')
    && (forall i :: 0 <= i < |e.tag| ==> e.tag[i] != 'C')
  }

  lemma PassesAreValid()
    ensures Valid(KIT) && Valid(HOST) && KIT.tag[2] != HOST.tag[2]
  {}

  lemma NoMarkerTail(e: Env, s: string)
    requires s != []
    ensures NoMarker(e, s) <==> MarkerLen(e, s) == 0 && NoMarker(e, s[1..])
  {
    assert s[0..] == s;
    forall i | 0 <= i < |s| ensures s[i + 1..] == s[1..][i..] {}
    if MarkerLen(e, s) == 0 && NoMarker(e, s[1..]) {
      forall i | 0 <= i <= |s| ensures MarkerLen(e, s[i..]) == 0 {
        if i > 0 { assert s[i..] == s[1..][i - 1..]; }
      }
    }
  }

  lemma {:induction false} NoMarkerDrop(e: Env, s: string, n: nat)
    requires n <= |s| && NoMarker(e, s)
    ensures NoMarker(e, s[n..])
  {
    forall i | 0 <= i <= |s| - n ensures MarkerLen(e, s[n..][i..]) == 0 {
      assert s[n..][i..] == s[n + i..];
    }
  }

  /** The text with the kit markers (`k`) or the host markers (`h`) put in, in a single scan. */
  function Render(W: Classifier, k: bool, h: bool, pw: bool, s: string): string
    decreases |s|
  {
    if s == [] then []
    else
      var nk, nh := MatchLen(W, KIT, pw, s), MatchLen(W, HOST, pw, s);
      if k && nk > 0 then Marker(KIT, Taken(W, KIT, pw, s)) + Render(W, k, h, true, s[nk..])
      else if h && nk == 0 && nh > 0 then Marker(HOST, Taken(W, HOST, pw, s)) + Render(W, k, h, true, s[nh..])
      else [s[0]] + Render(W, k, h, W(s[0]), s[1..])
  }

  lemma {:induction false} RenderKit(W: Classifier, pw: bool, s: string)
    ensures Render(W, true, false, pw, s) == Neutralize(W, KIT, pw, s)
    decreases |s|
  {
    if s != [] {
      var n := MatchLen(W, KIT, pw, s);
      if n > 0 { RenderKit(W, true, s[n..]); } else { RenderKit(W, W(s[0]), s[1..]); }
    }
  }

  /** Where nothing is replaced one character is copied; inside a word nothing is. */
  lemma RenderCopies(W: Classifier, k: bool, h: bool, pw: bool, s: string)
    requires s != []
    requires pw || ((!k || MatchLen(W, KIT, pw, s) == 0)
                    && (!h || MatchLen(W, KIT, pw, s) > 0 || MatchLen(W, HOST, pw, s) == 0))
    ensures Render(W, k, h, pw, s) == [s[0]] + Render(W, k, h, W(s[0]), s[1..])
  {}

  lemma RenderKitWord(W: Classifier, h: bool, pw: bool, s: string)
    requires MatchLen(W, KIT, pw, s) > 0
    ensures Render(W, true, h, pw, s)
            == Marker(KIT, Taken(W, KIT, pw, s)) + Render(W, true, h, true, s[MatchLen(W, KIT, pw, s)..])
  {}

  lemma RenderHostWord(W: Classifier, k: bool, pw: bool, s: string)
    requires MatchLen(W, KIT, pw, s) == 0 && MatchLen(W, HOST, pw, s) > 0
    ensures Render(W, k, true, pw, s)
            == Marker(HOST, Taken(W, HOST, pw, s)) + Render(W, k, true, true, s[MatchLen(W, HOST, pw, s)..])
  {}

  lemma SplitFirst(s: string, n: nat)
    requires 0 < n <= |s|
    ensures s[1..][n - 1..] == s[n..] && s[..n] == [s[0]] + s[1..][..n - 1]
  {}

  lemma {:induction false} RenderCopiesWord(W: Classifier, k: bool, h: bool, s: string, n: nat)
    requires n <= |s| && forall i :: 0 <= i < n ==> W(s[i])
    ensures Render(W, k, h, true, s) == s[..n] + Render(W, k, h, true, s[n..])
    decreases n
  {
    hide Render, MatchLen;
    if n == 0 {
      assert s[0..] == s;
    } else {
      RenderCopies(W, k, h, true, s);
      RenderCopiesWord(W, k, h, s[1..], n - 1);
      SplitFirst(s, n);
    }
  }

  /** A kit word that is not replaced is copied whole: no host word starts inside it. */
  lemma RenderKeepsKitWord(W: Classifier, h: bool, pw: bool, s: string)
    requires Classifies(W) && MatchLen(W, KIT, pw, s) > 0
    ensures var n := MatchLen(W, KIT, pw, s);
            Render(W, false, h, pw, s) == s[..n] + Render(W, false, h, true, s[n..])
  {
    PassesAreValid();
    var n := MatchLen(W, KIT, pw, s);
    MatchIsWord(W, KIT, pw, s);
    hide MatchLen, Render;
    RenderCopies(W, false, h, pw, s);
    RenderCopiesWord(W, false, h, s[1..], n - 1);
    SplitFirst(s, n);
  }

  lemma MatchIsWord(W: Classifier, e: Env, pw: bool, s: string)
    requires Classifies(W) && Valid(e) && MatchLen(W, e, pw, s) > 0
    ensures var n := MatchLen(W, e, pw, s); forall i :: 0 <= i < n ==> W(s[i])
    ensures var n := MatchLen(W, e, pw, s); n < |s| ==> !W(s[n])
  {
    var n := MatchLen(W, e, pw, s);
    var name := Taken(W, e, pw, s);
    forall i | 0 <= i < n ensures W(s[i]) {
      assert s[i] == s[..n][i] == (e.prefix + name)[i];
    }
  }

  /** A string without an opening brace at the head of the rendered text was there all along. */
  lemma {:induction false} Reflects(W: Classifier, k: bool, h: bool, pw: bool, s: string, m: string)
    requires m <= Render(W, k, h, pw, s) && '{' !in m
    ensures m <= s
    decreases |s|
  {
    if s != [] && m != [] {
      var r := Render(W, k, h, pw, s);
      assert m[0] in m && m[0] == r[0] != '{';
      assert r[1..] == Render(W, k, h, W(s[0]), s[1..]);
      assert m[1..] <= r[1..];
      Reflects(W, k, h, W(s[0]), s[1..], m[1..]);
    }
  }

  // ---------------------------------------------------------------------------------------------
  // The two neutralising passes amount to one scan.

  lemma NeutralizePlain(W: Classifier, e: Env, pw: bool, c: char, t: string)
    requires Valid(e) && c != 'C'
    ensures Neutralize(W, e, pw, [c] + t) == [c] + Neutralize(W, e, W(c), t)
  {
    assert ([c] + t)[1..] == t;
  }

  lemma Uncons(a: string, r: string)
    requires a != []
    ensures a + r == [a[0]] + (a[1..] + r)
  {}

  lemma {:induction false} NeutralizeSkips(W: Classifier, e: Env, pw: bool, a: string, r: string)
    requires Valid(e) && a != [] && 'C' !in a
    ensures Neutralize(W, e, pw, a + r) == a + Neutralize(W, e, W(a[|a| - 1]), r)
    decreases |a|
  {
    hide Neutralize, MatchLen;
    assert a[0] in a;
    Uncons(a, r);
    NeutralizePlain(W, e, pw, a[0], a[1..] + r);
    if |a| > 1 {
      NeutralizeSkips(W, e, W(a[0]), a[1..], r);
      Uncons(a, Neutralize(W, e, W(a[|a| - 1]), r));
    } else {
      assert a[1..] + r == r && a == [a[0]];
    }
  }

  lemma NeutralizeIgnoresContext(W: Classifier, e: Env, s: string)
    requires Valid(e) && (s != [] ==> s[0] != 'C')
    ensures Neutralize(W, e, true, s) == Neutralize(W, e, false, s)
  {}

  lemma MarkerHasNoCapital(e: Env, name: string)
    requires Valid(e) && AllUpper(name)
    ensures 'C' !in Marker(e, name) && Marker(e, name) != []
  {
    assert forall c :: c in Lower(name) ==> IsLower(c);
  }

  /** Where no kit word starts, rendering the kit words leaves the head's host word as it was. */
  lemma HostMatchSurvives(W: Classifier, pw: bool, s: string)
    requires Classifies(W) && s != [] && MatchLen(W, KIT, pw, s) == 0
    ensures MatchLen(W, HOST, pw, Render(W, true, false, pw, s)) == MatchLen(W, HOST, pw, s)
    ensures var n := MatchLen(W, HOST, pw, s); n > 0 ==>
              Render(W, true, false, pw, s) == s[..n] + Render(W, true, false, true, s[n..])
  {
    PassesAreValid();
    var r := Render(W, true, false, pw, s);
    var n := MatchLen(W, HOST, pw, s);
    if n > 0 {
      MatchIsWord(W, HOST, pw, s);
      MatchIsUnique(W, HOST, pw, s, n);
      CopiesFirstWord(W, pw, s, n);
      SameWord(W, HOST, pw, s, r, n);
    } else {
      var m := MatchLen(W, HOST, pw, r);
      if m > 0 {
        MatchIsWord(W, HOST, pw, r);
        MatchIsUnique(W, HOST, pw, r, m);
        MatchHasNoBrace(W, HOST, pw, r);
        Reflects(W, true, false, pw, s, r[..m]);
        assert forall i :: 0 <= i < m ==> s[i] == r[..m][i] == r[i];
        CopiesFirstWord(W, pw, s, m);
        assert r[..m] == s[..m];
        SameWord(W, HOST, pw, r, s, m);
        assert false;
      }
    }
  }

  lemma MatchHasNoBrace(W: Classifier, e: Env, pw: bool, s: string)
    requires Valid(e) && MatchLen(W, e, pw, s) > 0
    ensures '{' !in s[..MatchLen(W, e, pw, s)]
  {
    var name := Taken(W, e, pw, s);
    assert forall c :: c in e.prefix + name ==> IsUpper(c);
  }

  lemma CopiesFirstWord(W: Classifier, pw: bool, s: string, n: nat)
    requires 0 < n <= |s| && MatchLen(W, KIT, pw, s) == 0
    requires forall i :: 0 <= i < n ==> W(s[i])
    ensures Render(W, true, false, pw, s) == s[..n] + Render(W, true, false, true, s[n..])
    ensures n < |s| ==> |Render(W, true, false, pw, s)| > n && Render(W, true, false, pw, s)[n] == s[n]
    ensures n == |s| ==> |Render(W, true, false, pw, s)| == n
  {
    CopiesFirstWordWhole(W, pw, s, n);
    var rest := s[n..];
    if rest == [] {
      assert Render(W, true, false, true, rest) == [];
    } else {
      hide MatchLen;
      RenderCopies(W, true, false, true, rest);
      hide Render;
      assert Render(W, true, false, true, rest)[0] == s[n];
    }
  }

  lemma CopiesFirstWordWhole(W: Classifier, pw: bool, s: string, n: nat)
    requires 0 < n <= |s| && MatchLen(W, KIT, pw, s) == 0
    requires forall i :: 0 <= i < n ==> W(s[i])
    ensures Render(W, true, false, pw, s) == s[..n] + Render(W, true, false, true, s[n..])
  {
    hide Render, MatchLen;
    RenderCopies(W, true, false, pw, s);
    RenderCopiesWord(W, true, false, s[1..], n - 1);
    SplitFirst(s, n);
  }

  /** The same word with the same end is the same match. */
  lemma SameWord(W: Classifier, e: Env, pw: bool, s: string, r: string, n: nat)
    requires Classifies(W) && Valid(e) && RegexMatch(W, e, pw, s, n) && n <= |r| && r[..n] == s[..n]
    requires WordAt(W, r, n) == WordAt(W, s, n)
    ensures MatchLen(W, e, pw, r) == n
  {
    var p := |e.prefix|;
    assert r[p..n] == r[..n][p..] == s[..n][p..] == s[p..n];
    assert e.prefix == s[..p] == s[..n][..p] == r[..n][..p] == r[..p];
    assert r[n - 1] == r[..n][n - 1] == s[..n][n - 1] == s[n - 1];
    MatchIsUnique(W, e, pw, r, n);
  }

  lemma {:induction false} TwoPassesAreOneScan(W: Classifier, pw: bool, s: string)
    requires Classifies(W)
    ensures Neutralize(W, HOST, pw, Render(W, true, false, pw, s)) == Render(W, true, true, pw, s)
    decreases |s|
  {
    PassesAreValid();
    if s != [] {
      var nk, nh := MatchLen(W, KIT, pw, s), MatchLen(W, HOST, pw, s);
      var r := Render(W, true, false, pw, s);
      if nk > 0 {
        var m, rest := Marker(KIT, Taken(W, KIT, pw, s)), Render(W, true, false, true, s[nk..]);
        MarkerHasNoCapital(KIT, Taken(W, KIT, pw, s));
        NeutralizeSkips(W, HOST, pw, m, rest);
        MatchIsWord(W, KIT, pw, s);
        NotCapital(W, s[nk..]);
        NeutralizeIgnoresContext(W, HOST, rest);
        TwoPassesAreOneScan(W, true, s[nk..]);
      } else {
        HostMatchSurvives(W, pw, s);
        if nh > 0 {
          var rest := Render(W, true, false, true, s[nh..]);
          assert r[nh..] == rest;
          assert Taken(W, HOST, pw, r) == Taken(W, HOST, pw, s) by {
            assert r[..nh] == s[..nh];
            assert HOST.prefix + Taken(W, HOST, pw, r) == HOST.prefix + Taken(W, HOST, pw, s);
            SamePrefix(HOST.prefix, Taken(W, HOST, pw, r), Taken(W, HOST, pw, s));
          }
          TwoPassesAreOneScan(W, true, s[nh..]);
        } else {
          assert r[0] == s[0] && r[1..] == Render(W, true, false, W(s[0]), s[1..]);
          TwoPassesAreOneScan(W, W(s[0]), s[1..]);
        }
      }
    }
  }

  lemma SamePrefix(p: string, a: string, b: string)
    requires p + a == p + b
    ensures a == b
  {
    assert a == (p + a)[|p|..] == (p + b)[|p|..] == b;
  }

  /** After a replaced word the rendered text cannot open with a capital C. */
  lemma NotCapital(W: Classifier, s: string)
    requires Classifies(W) && (s != [] ==> !W(s[0]))
    ensures var r := Render(W, true, false, true, s); r != [] ==> r[0] != 'C'
  {}

  // ---------------------------------------------------------------------------------------------
  // Projecting takes the markers out again.

  lemma ProjectPlain(e: Env, c: char, t: string)
    requires Valid(e) && c != '{'
    ensures Project(e, [c] + t) == [c] + Project(e, t)
  {
    assert ([c] + t)[1..] == t;
  }

  lemma {:induction false} ProjectSkips(e: Env, a: string, r: string)
    requires Valid(e) && '{' !in a
    ensures Project(e, a + r) == a + Project(e, r)
    decreases |a|
  {
    hide Project, MarkerLen;
    if a == [] {
      assert a + r == r;
    } else {
      assert a[0] in a;
      Uncons(a, r);
      ProjectPlain(e, a[0], a[1..] + r);
      ProjectSkips(e, a[1..], r);
      Uncons(a, Project(e, r));
    }
  }

  lemma {:induction false} LowerRunExact(name: string, r: string)
    requires AllLower(name) && (r != [] ==> !IsLower(r[0]))
    ensures LowerRun(name + r) == |name|
  {
    if name == [] {
      assert name + r == r;
    } else {
      assert (name + r)[1..] == name[1..] + r;
      LowerRunExact(name[1..], r);
    }
  }

  lemma MarkerIsTaken(e: Env, low: string, r: string)
    requires low != [] && AllLower(low)
    ensures MarkerLen(e, e.tag + low + CLOSE + r) == |e.tag| + |low| + 2
  {
    var s := e.tag + low + CLOSE + r;
    assert s[|e.tag|..] == low + (CLOSE + r);
    LowerRunExact(low, CLOSE + r);
    assert s[|e.tag| + |low|..] == CLOSE + r;
  }

  lemma ProjectTakesMarker(e: Env, name: string, r: string)
    requires name != [] && AllUpper(name)
    ensures Project(e, Marker(e, name) + r) == e.prefix + name + Project(e, r)
  {
    var s, low := Marker(e, name) + r, Lower(name);
    MarkerIsTaken(e, low, r);
    var n := |e.tag| + |low| + 2;
    assert s[n..] == r && s[|e.tag|..n - 2] == low;
    hide MarkerLen, Lower;
    UpperLower(name);
  }

  lemma OtherTag(e: Env, s: string)
    requires Valid(e) && s != [] && (s[0] != '{' || |s| == 1 || s[1] != '{' || |s| == 2 || s[2] != e.tag[2])
    ensures MarkerLen(e, s) == 0 && Project(e, s) == [s[0]] + Project(e, s[1..])
  {}

  /** The kit pass walks over a host marker without touching it. */
  lemma ProjectSkipsHostMarker(name: string, r: string)
    requires AllUpper(name)
    ensures Project(KIT, Marker(HOST, name) + r) == Marker(HOST, name) + Project(KIT, r)
  {
    PassesAreValid();
    var low := Lower(name);
    var body := HOST.tag[2..] + low + CLOSE;
    assert Marker(HOST, name) == ['{', '{'] + body;
    assert forall c :: c in low ==> IsLower(c);
    SkipsDoubleBrace(KIT, body, r);
  }

  lemma SkipsDoubleBrace(e: Env, body: string, r: string)
    requires Valid(e) && body != [] && '{' !in body && body[0] != e.tag[2]
    ensures Project(e, ['{', '{'] + body + r) == ['{', '{'] + body + Project(e, r)
  {
    hide Project, MarkerLen;
    var s1 := ['{'] + (body + r);
    var s0 := ['{'] + s1;
    assert body[0] in body;
    OtherTag(e, s0);
    OtherTag(e, s1);
    assert s0[1..] == s1 && s1[1..] == body + r;
    ProjectSkips(e, body, r);
    assert ['{', '{'] + body + r == s0;
  }

  lemma MarkerShape(e: Env, s: string)
    requires Valid(e) && MarkerLen(e, s) > 0
    ensures var n := MarkerLen(e, s);
            n > 2 && s[0] == '{' && s[1] == '{' && s[2] == e.tag[2] && '{' !in s[2..n] && 'C' !in s[..n]
  {
    var n := MarkerLen(e, s);
    var low := s[|e.tag|..n - 2];
    assert s[n - 2..n] == CLOSE by {
      var run := LowerRun(s[|e.tag|..]);
      assert s[|e.tag| + run..][..2] == s[n - 2..n];
    }
    assert s[..n] == e.tag + low + CLOSE;
    assert s[2..n] == e.tag[2..] + low + CLOSE;
    assert forall c :: c in low ==> IsLower(c);
  }

  /** Equal heads carry equal markers. */
  lemma MarkerIsLocal(e: Env, s: string, t: string)
    requires MarkerLen(e, s) > 0 && s[..MarkerLen(e, s)] <= t
    ensures MarkerLen(e, t) == MarkerLen(e, s)
  {
    var n := MarkerLen(e, s);
    var m := s[..n];
    var low := s[|e.tag|..n - 2];
    var run := LowerRun(s[|e.tag|..]);
    assert s[|e.tag| + run..][..2] == s[n - 2..n];
    assert m == e.tag + low + CLOSE;
    assert t == m + t[n..];
    assert t[|e.tag|..] == low + (CLOSE + t[n..]);
    LowerRunExact(low, CLOSE + t[n..]);
    assert t[|e.tag| + |low|..] == CLOSE + t[n..];
    assert e.tag <= t;
  }

  /** A copied character never opens a marker that the text did not hold. */
  lemma CopyOpensNoMarker(W: Classifier, e: Env, k: bool, h: bool, pw: bool, s: string)
    requires Valid(e) && s != [] && MarkerLen(e, s) == 0
    ensures MarkerLen(e, [s[0]] + Render(W, k, h, pw, s[1..])) == 0
  {
    PassesAreValid();
    hide MarkerLen;
    var r1 := Render(W, k, h, pw, s[1..]);
    var r := [s[0]] + r1;
    var n := MarkerLen(e, r);
    if n > 0 {
      MarkerShape(e, r);
      assert r1[0] == '{' && r1[1] == e.tag[2] != '{';
      var s1 := s[1..];
      assert r1[0] == s1[0] && r1[1..] == Render(W, k, h, W(s1[0]), s1[1..]);
      assert r[2..n] <= r1[1..];
      Reflects(W, k, h, W(s1[0]), s1[1..], r[2..n]);
      assert r[..n] == [s[0]] + ([s1[0]] + r[2..n]);
      assert s == [s[0]] + ([s1[0]] + s1[1..]);
      MarkerIsLocal(e, r, s);
      assert false;
    }
  }

  lemma ProjectCopies(W: Classifier, e: Env, k: bool, h: bool, s: string)
    requires Valid(e) && s != [] && MarkerLen(e, s) == 0
    ensures var r := Render(W, k, h, W(s[0]), s[1..]); Project(e, [s[0]] + r) == [s[0]] + Project(e, r)
  {
    var r := Render(W, k, h, W(s[0]), s[1..]);
    CopyOpensNoMarker(W, e, k, h, W(s[0]), s);
    hide Render, MarkerLen;
    assert ([s[0]] + r)[1..] == r;
  }

  lemma {:induction false} ProjectKit(W: Classifier, pw: bool, s: string)
    requires Classifies(W) && NoMarker(KIT, s)
    ensures Project(KIT, Render(W, true, true, pw, s)) == Render(W, false, true, pw, s)
    decreases |s|
  {
    PassesAreValid();
    hide MatchLen, MarkerLen, Marker;
    if s != [] {
      hide Project, Render, NoMarker;
      NoMarkerTail(KIT, s);
      var nk, nh := MatchLen(W, KIT, pw, s), MatchLen(W, HOST, pw, s);
      if nk > 0 {
        NoMarkerDrop(KIT, s, nk);
        ProjectKit(W, true, s[nk..]);
        RenderKitWord(W, true, pw, s);
        ProjectTakesMarker(KIT, Taken(W, KIT, pw, s), Render(W, true, true, true, s[nk..]));
        RenderKeepsKitWord(W, true, pw, s);
      } else if nh > 0 {
        NoMarkerDrop(KIT, s, nh);
        ProjectKit(W, true, s[nh..]);
        RenderHostWord(W, true, pw, s);
        RenderHostWord(W, false, pw, s);
        ProjectSkipsHostMarker(Taken(W, HOST, pw, s), Render(W, true, true, true, s[nh..]));
      } else {
        RenderCopies(W, true, true, pw, s);
        RenderCopies(W, false, true, pw, s);
        ProjectKit(W, W(s[0]), s[1..]);
        ProjectCopies(W, KIT, true, true, s);
      }
    }
  }

  lemma ProjectHostWord(W: Classifier, pw: bool, s: string)
    requires MatchLen(W, KIT, pw, s) == 0 && MatchLen(W, HOST, pw, s) > 0
    requires var t := s[MatchLen(W, HOST, pw, s)..]; Project(HOST, Render(W, false, true, true, t)) == t
    ensures Project(HOST, Render(W, false, true, pw, s)) == s
  {
    hide MatchLen, MarkerLen, Marker, Project, Render;
    var nh := MatchLen(W, HOST, pw, s);
    RenderHostWord(W, false, pw, s);
    ProjectTakesMarker(HOST, Taken(W, HOST, pw, s), Render(W, false, true, true, s[nh..]));
    assert s == s[..nh] + s[nh..];
  }

  lemma ProjectHostCopy(W: Classifier, pw: bool, s: string)
    requires Valid(HOST) && s != [] && MarkerLen(HOST, s) == 0
    requires MatchLen(W, KIT, pw, s) > 0 || MatchLen(W, HOST, pw, s) == 0
    requires Project(HOST, Render(W, false, true, W(s[0]), s[1..])) == s[1..]
    ensures Project(HOST, Render(W, false, true, pw, s)) == s
  {
    hide MatchLen, MarkerLen, Marker, Project, Render;
    RenderCopies(W, false, true, pw, s);
    ProjectCopies(W, HOST, false, true, s);
  }

  lemma {:induction false} ProjectHost(W: Classifier, pw: bool, s: string)
    requires Classifies(W) && NoMarker(HOST, s)
    ensures Project(HOST, Render(W, false, true, pw, s)) == s
    decreases |s|
  {
    PassesAreValid();
    hide MatchLen, MarkerLen, Marker;
    if s != [] {
      hide Project, Render, NoMarker;
      NoMarkerTail(HOST, s);
      var nh := MatchLen(W, HOST, pw, s);
      if MatchLen(W, KIT, pw, s) == 0 && nh > 0 {
        NoMarkerDrop(HOST, s, nh);
        ProjectHost(W, true, s[nh..]);
        ProjectHostWord(W, pw, s);
      } else {
        ProjectHost(W, W(s[0]), s[1..]);
        ProjectHostCopy(W, pw, s);
      }
    }
  }

  // ---------------------------------------------------------------------------------------------
  // Projected text holds no marker, so only marker-free text can survive the round trip.

  lemma {:induction false} ProjectReflects(e: Env, s: string, m: string)
    requires Valid(e) && m <= Project(e, s) && 'C' !in m
    ensures m <= s && (m != [] ==> MarkerLen(e, s) == 0)
    decreases |s|
  {
    if s != [] && m != [] {
      var p := Project(e, s);
      assert m[0] in m && m[0] == p[0] != 'C';
      assert MarkerLen(e, s) == 0;
      assert p[1..] == Project(e, s[1..]);
      ProjectReflects(e, s[1..], m[1..]);
    }
  }

  lemma HeadHasNoMarker(e: Env, f: Env, s: string)
    requires Valid(e) && Valid(f) && (f == e || MarkerLen(f, s) == 0)
    ensures MarkerLen(f, Project(e, s)) == 0
  {
    var p := Project(e, s);
    if MarkerLen(f, p) > 0 {
      MarkerShape(f, p);
      var m := p[..MarkerLen(f, p)];
      ProjectReflects(e, s, m);
      MarkerIsLocal(f, p, s);
    }
  }

  lemma {:induction false} SkipPlain(f: Env, a: string, r: string)
    requires Valid(f) && '{' !in a && NoMarker(f, r)
    ensures NoMarker(f, a + r)
    decreases |a|
  {
    if a == [] {
      assert a + r == r;
    } else {
      assert (a + r)[1..] == a[1..] + r;
      assert (a + r)[0] == a[0] && a[0] in a;
      SkipPlain(f, a[1..], r);
      NoMarkerTail(f, a + r);
    }
  }

  lemma PlainWord(e: Env, f: Env, name: string, r: string)
    requires Valid(e) && Valid(f) && AllUpper(name) && NoMarker(f, r)
    ensures NoMarker(f, e.prefix + name + r)
  {
    hide NoMarker;
    assert forall c :: c in e.prefix + name ==> IsUpper(c);
    SkipPlain(f, e.prefix + name, r);
  }

  lemma {:induction false} ProjectedHasNoMarker(e: Env, f: Env, s: string)
    requires Valid(e) && Valid(f) && (f == e || NoMarker(f, s))
    ensures NoMarker(f, Project(e, s))
    decreases |s|
  {
    if s == [] {
      assert forall i :: 0 <= i <= 0 ==> Project(e, s)[i..] == [];
    } else {
      var n := MarkerLen(e, s);
      if n > 0 {
        if f != e { NoMarkerDrop(f, s, n); }
        ProjectedHasNoMarker(e, f, s[n..]);
        PlainWord(e, f, Upper(s[|e.tag|..n - 2]), Project(e, s[n..]));
      } else {
        if f != e { NoMarkerTail(f, s); }
        ProjectedHasNoMarker(e, f, s[1..]);
        HeadHasNoMarker(e, f, s);
        assert Project(e, s)[1..] == Project(e, s[1..]);
        NoMarkerTail(f, Project(e, s));
      }
    }
  }

  /** Neutralising and projecting back gives the text character for character exactly when the text
      held no environment marker to begin with. */
  lemma RoundTrip(W: Classifier, text: string)
    requires Classifies(W)
    ensures ProjectText(NeutralizeText(W, text)) == text <==> NoMarker(KIT, text) && NoMarker(HOST, text)
  {
    PassesAreValid();
    if NoMarker(KIT, text) && NoMarker(HOST, text) {
      RenderKit(W, false, text);
      TwoPassesAreOneScan(W, false, text);
      ProjectKit(W, false, text);
      ProjectHost(W, false, text);
    }
    var once := Project(KIT, NeutralizeText(W, text));
    ProjectedHasNoMarker(KIT, KIT, NeutralizeText(W, text));
    ProjectedHasNoMarker(HOST, KIT, once);
    ProjectedHasNoMarker(HOST, HOST, once);
  }

  // ---------------------------------------------------------------------------------------------
  // Neutralised text holds no word of either family.

  /** Whether a word character stands before position `i`, given what stands before the text. */
  predicate Before(W: Classifier, pw: bool, s: string, i: nat)
    requires i <= |s|
  {
    if i == 0 then pw else W(s[i - 1])
  }

  predicate NoWord(W: Classifier, e: Env, pw: bool, s: string)
  {
    forall i :: 0 <= i <= |s| ==> MatchLen(W, e, Before(W, pw, s, i), s[i..]) == 0
  }

  lemma NoWordCons(W: Classifier, e: Env, pw: bool, s: string)
    requires s != []
    ensures NoWord(W, e, pw, s) <==> MatchLen(W, e, pw, s) == 0 && NoWord(W, e, W(s[0]), s[1..])
  {
    hide MatchLen;
    var t := s[1..];
    assert s[0..] == s;
    forall i | 0 <= i <= |t| ensures t[i..] == s[i + 1..] && Before(W, W(s[0]), t, i) == Before(W, pw, s, i + 1) {}
    if NoWord(W, e, pw, s) {
      forall i | 0 <= i <= |t| ensures MatchLen(W, e, Before(W, W(s[0]), t, i), t[i..]) == 0 {
        assert MatchLen(W, e, Before(W, pw, s, i + 1), s[i + 1..]) == 0;
      }
    }
    if MatchLen(W, e, pw, s) == 0 && NoWord(W, e, W(s[0]), t) {
      forall i | 0 <= i <= |s| ensures MatchLen(W, e, Before(W, pw, s, i), s[i..]) == 0 {
        if i > 0 { assert MatchLen(W, e, Before(W, W(s[0]), t, i - 1), t[i - 1..]) == 0; }
      }
    }
  }

  lemma NoWordInNothing(W: Classifier, e: Env, pw: bool)
    requires Valid(e)
    ensures NoWord(W, e, pw, [])
  {
    assert forall i :: 0 <= i <= 0 ==> ""[i..] == "";
  }

  /** What stands before a text that does not open a word makes no difference. */
  lemma NoWordAnyContext(W: Classifier, e: Env, pw: bool, r: string)
    requires Valid(e) && NoWord(W, e, true, r) && (r != [] ==> r[0] != 'C')
    ensures NoWord(W, e, pw, r)
  {
    if r == [] {
      NoWordInNothing(W, e, pw);
    } else {
      NoWordCons(W, e, true, r);
      assert !(e.prefix <= r);
      NoWordCons(W, e, pw, r);
    }
  }

  lemma {:induction false} NoWordSkips(W: Classifier, e: Env, pw: bool, a: string, r: string)
    requires Valid(e) && 'C' !in a
    requires NoWord(W, e, if a == [] then pw else W(a[|a| - 1]), r)
    ensures NoWord(W, e, pw, a + r)
    decreases |a|
  {
    if a == [] {
      assert a + r == r;
    } else {
      assert a[0] in a;
      Uncons(a, r);
      assert (a + r)[1..] == a[1..] + r && (a + r)[0] == a[0];
      assert !(e.prefix <= a + r);
      hide NoWord;
      NoWordSkips(W, e, W(a[0]), a[1..], r);
      NoWordCons(W, e, pw, a + r);
    }
  }

  lemma NeutralizeNothing(W: Classifier, e: Env, pw: bool)
    ensures Neutralize(W, e, pw, []) == []
  {}

  lemma NeutralizeTakes(W: Classifier, e: Env, pw: bool, s: string)
    requires MatchLen(W, e, pw, s) > 0
    ensures Neutralize(W, e, pw, s)
            == Marker(e, Taken(W, e, pw, s)) + Neutralize(W, e, true, s[MatchLen(W, e, pw, s)..])
  {}

  lemma NeutralizeCopies(W: Classifier, e: Env, pw: bool, s: string)
    requires s != [] && MatchLen(W, e, pw, s) == 0
    ensures Neutralize(W, e, pw, s) == [s[0]] + Neutralize(W, e, W(s[0]), s[1..])
  {}

  lemma InsideAWord(W: Classifier, e: Env, s: string)
    ensures MatchLen(W, e, true, s) == 0
  {}

  lemma {:induction false} NeutralizeCopiesWord(W: Classifier, e: Env, s: string, n: nat)
    requires n <= |s| && forall i :: 0 <= i < n ==> W(s[i])
    ensures Neutralize(W, e, true, s) == s[..n] + Neutralize(W, e, true, s[n..])
    decreases n
  {
    hide Neutralize, MatchLen;
    if n == 0 {
      assert s[0..] == s;
    } else {
      InsideAWord(W, e, s);
      NeutralizeCopies(W, e, true, s);
      NeutralizeCopiesWord(W, e, s[1..], n - 1);
      SplitFirst(s, n);
    }
  }

  /** Where no word is replaced at the head, the whole first word is copied. */
  lemma NeutralizeCopiesFirst(W: Classifier, e: Env, pw: bool, s: string, n: nat)
    requires 0 < n <= |s| && MatchLen(W, e, pw, s) == 0 && forall i :: 0 <= i < n ==> W(s[i])
    ensures Neutralize(W, e, pw, s) == s[..n] + Neutralize(W, e, true, s[n..])
    ensures |Neutralize(W, e, pw, s)| > n <==> |s| > n
    ensures n < |s| ==> Neutralize(W, e, pw, s)[n] == s[n]
  {
    NeutralizeNothing(W, e, true);
    hide Neutralize;
    NeutralizeCopies(W, e, pw, s);
    NeutralizeCopiesWord(W, e, s[1..], n - 1);
    SplitFirst(s, n);
    var rest := s[n..];
    if rest != [] {
      assert MatchLen(W, e, true, rest) == 0;
      NeutralizeCopies(W, e, true, rest);
    }
  }

  lemma {:induction false} NeutralizeReflects(W: Classifier, e: Env, pw: bool, s: string, m: string)
    requires Valid(e) && m <= Neutralize(W, e, pw, s) && '{' !in m
    ensures m <= s
    decreases |s|
  {
    if s != [] && m != [] {
      var r := Neutralize(W, e, pw, s);
      assert m[0] in m && m[0] == r[0] != '{';
      assert MatchLen(W, e, pw, s) == 0;
      assert r[1..] == Neutralize(W, e, W(s[0]), s[1..]);
      assert m[1..] <= r[1..];
      NeutralizeReflects(W, e, W(s[0]), s[1..], m[1..]);
    }
  }

  /** A head that is not replaced does not become a word by what follows it being replaced. */
  lemma HeadStaysNoWord(W: Classifier, e: Env, pw: bool, s: string)
    requires Classifies(W) && Valid(e) && s != [] && MatchLen(W, e, pw, s) == 0
    ensures MatchLen(W, e, pw, Neutralize(W, e, pw, s)) == 0
  {
    var r := Neutralize(W, e, pw, s);
    var m := MatchLen(W, e, pw, r);
    if m > 0 {
      MatchIsWord(W, e, pw, r);
      MatchIsUnique(W, e, pw, r, m);
      MatchHasNoBrace(W, e, pw, r);
      NeutralizeReflects(W, e, pw, s, r[..m]);
      assert forall i :: 0 <= i < m ==> s[i] == r[..m][i] == r[i];
      NeutralizeCopiesFirst(W, e, pw, s, m);
      assert r[..m] == s[..m];
      hide Neutralize, MatchLen;
      SameWord(W, e, pw, r, s, m);
    }
  }

  lemma {:induction false} NeutralizedHasNoWord(W: Classifier, e: Env, pw: bool, s: string)
    requires Classifies(W) && Valid(e)
    ensures NoWord(W, e, pw, Neutralize(W, e, pw, s))
    decreases |s|
  {
    if s == [] {
      NoWordInNothing(W, e, pw);
    } else {
      var n := MatchLen(W, e, pw, s);
      var out := Neutralize(W, e, pw, s);
      if n > 0 {
        var m, rest := Marker(e, Taken(W, e, pw, s)), Neutralize(W, e, true, s[n..]);
        NeutralizedHasNoWord(W, e, true, s[n..]);
        MatchIsWord(W, e, pw, s);
        OpensNoWord(W, e, s[n..]);
        MarkerHasNoCapital(e, Taken(W, e, pw, s));
        hide Neutralize, MatchLen, NoWord, Marker;
        NoWordAnyContext(W, e, W(m[|m| - 1]), rest);
        NoWordSkips(W, e, pw, m, rest);
      } else {
        HeadStaysNoWord(W, e, pw, s);
        NeutralizedHasNoWord(W, e, W(s[0]), s[1..]);
        NeutralizeCopies(W, e, pw, s);
        hide Neutralize, MatchLen, NoWord;
        assert out[0] == s[0] && out[1..] == Neutralize(W, e, W(s[0]), s[1..]);
        NoWordCons(W, e, pw, out);
      }
    }
  }

  /** Behind a word nothing is replaced at once, so what is not a word character stays in front. */
  lemma OpensNoWord(W: Classifier, e: Env, s: string)
    requires Classifies(W) && (s != [] ==> !W(s[0]))
    ensures var r := Neutralize(W, e, true, s); (r == [] <==> s == []) && (r != [] ==> r[0] == s[0] && r[0] != 'C')
  {}

  lemma KitWordIsHostWord(W: Classifier, pw: bool, s: string, n: nat)
    requires RegexMatch(W, KIT, pw, s, n)
    ensures RegexMatch(W, HOST, pw, s, n)
  {
    var h, k := |HOST.prefix|, |KIT.prefix|;
    assert KIT.prefix == HOST.prefix + "KIT_";
    assert s[..k] == KIT.prefix && s[..k][..h] == s[..h];
    forall i | 0 <= i < n - h ensures IsUpper(s[h..n][i]) {
      if i < k - h {
        assert s[h + i] == s[..k][h + i] == KIT.prefix[h + i];
      } else {
        assert s[h..n][i] == s[k..n][i - (k - h)];
      }
    }
  }

  /** Whatever the text, the neutralised text holds no word of either family at any position. */
  lemma NeutralizedHoldsNoWord(W: Classifier, text: string, e: Env, i: nat, n: nat)
    requires Classifies(W) && (e == KIT || e == HOST) && i <= |NeutralizeText(W, text)|
    ensures var out := NeutralizeText(W, text); !RegexMatch(W, e, i > 0 && W(out[i - 1]), out[i..], n)
  {
    PassesAreValid();
    var out := NeutralizeText(W, text);
    var before := i > 0 && W(out[i - 1]);
    NeutralizedHasNoWord(W, HOST, false, Neutralize(W, KIT, false, text));
    assert MatchLen(W, HOST, Before(W, false, out, i), out[i..]) == 0;
    if RegexMatch(W, e, before, out[i..], n) {
      if e == KIT { KitWordIsHostWord(W, before, out[i..], n); }
      MatchIsUnique(W, HOST, before, out[i..], n);
    }
  }

  // ---------------------------------------------------------------------------------------------
  // Each word is replaced where it stands, and nothing else is.

  /** Text without a word is left as it is. */
  lemma {:induction false} NoWordStays(W: Classifier, e: Env, pw: bool, s: string)
    requires NoWord(W, e, pw, s)
    ensures Neutralize(W, e, pw, s) == s
    decreases |s|
  {
    if s != [] {
      NoWordCons(W, e, pw, s);
      NoWordStays(W, e, W(s[0]), s[1..]);
    }
  }

  lemma PlainTextStays(W: Classifier, text: string)
    requires Classifies(W) && NoWord(W, HOST, false, text)
    ensures NeutralizeText(W, text) == text
  {
    forall i | 0 <= i <= |text| ensures MatchLen(W, KIT, Before(W, false, text, i), text[i..]) == 0 {
      var before, n := Before(W, false, text, i), MatchLen(W, KIT, Before(W, false, text, i), text[i..]);
      if n > 0 {
        MatchIsUnique(W, KIT, before, text[i..], n);
        KitWordIsHostWord(W, before, text[i..], n);
        MatchIsUnique(W, HOST, before, text[i..], n);
      }
    }
    NoWordStays(W, KIT, false, text);
    NoWordStays(W, HOST, false, text);
  }

  /** The text up to `a` and the text from `c` on touch at a word boundary, or at no word at all. */
  predicate Apart(W: Classifier, a: string, c: string)
  {
    a == [] || c == [] || !W(a[|a| - 1]) || !W(c[0])
  }

  lemma MatchStopsAtBoundary(W: Classifier, e: Env, pw: bool, a: string, c: string)
    requires Classifies(W) && Valid(e) && a != [] && Apart(W, a, c)
    ensures MatchLen(W, e, pw, a + c) == MatchLen(W, e, pw, a)
  {
    var s := a + c;
    var n, m := MatchLen(W, e, pw, a), MatchLen(W, e, pw, s);
    if n > 0 {
      MatchIsUnique(W, e, pw, a, n);
      assert a[..n] == s[..n] && a[|e.prefix|..n] == s[|e.prefix|..n];
      MatchIsWord(W, e, pw, a);
      hide MatchLen;
      SameWord(W, e, pw, a, s, n);
    } else if m > 0 {
      MatchIsUnique(W, e, pw, s, m);
      MatchIsWord(W, e, pw, s);
      assert s[|a| - 1] == a[|a| - 1] && (c != [] ==> s[|a|] == c[0]);
      if m <= |a| {
        assert a[..m] == s[..m];
        hide MatchLen;
        SameWord(W, e, pw, s, a, m);
      }
    }
  }

  /** Texts that touch at a boundary are neutralised one by one. */
  lemma {:induction false} NeutralizeSplits(W: Classifier, e: Env, pw: bool, a: string, c: string)
    requires Classifies(W) && Valid(e) && Apart(W, a, c)
    ensures Neutralize(W, e, pw, a + c)
            == Neutralize(W, e, pw, a) + Neutralize(W, e, if a == [] then pw else W(a[|a| - 1]), c)
    decreases |a|
  {
    hide Neutralize, MatchLen, Marker;
    if a == [] {
      assert a + c == c;
      assert Neutralize(W, e, pw, a) == [] by { NeutralizeNothing(W, e, pw); }
    } else {
      MatchStopsAtBoundary(W, e, pw, a, c);
      var n := MatchLen(W, e, pw, a);
      if n > 0 {
        MatchIsWord(W, e, pw, a);
        NeutralizeSplits(W, e, true, a[n..], c);
        SplitBehindWord(W, e, pw, a, c);
      } else {
        assert (a + c)[1..] == a[1..] + c && (a + c)[0] == a[0];
        NeutralizeCopies(W, e, pw, a);
        NeutralizeCopies(W, e, pw, a + c);
        NeutralizeSplits(W, e, W(a[0]), a[1..], c);
      }
    }
  }

  lemma SplitBehindWord(W: Classifier, e: Env, pw: bool, a: string, c: string)
    requires 0 < MatchLen(W, e, pw, a) <= |a| && MatchLen(W, e, pw, a + c) == MatchLen(W, e, pw, a)
    ensures var n, m := MatchLen(W, e, pw, a), Marker(e, Taken(W, e, pw, a));
            && Neutralize(W, e, pw, a) == m + Neutralize(W, e, true, a[n..])
            && Neutralize(W, e, pw, a + c) == m + Neutralize(W, e, true, a[n..] + c)
  {
    hide Neutralize, MatchLen, Marker;
    var n := MatchLen(W, e, pw, a);
    assert (a + c)[n..] == a[n..] + c && (a + c)[..n] == a[..n];
    SameTaken(W, e, pw, a, a + c);
    NeutralizeTakes(W, e, pw, a);
    NeutralizeTakes(W, e, pw, a + c);
  }

  lemma SameTaken(W: Classifier, e: Env, pw: bool, s: string, r: string)
    requires MatchLen(W, e, pw, s) == MatchLen(W, e, pw, r) > 0
    requires s[..MatchLen(W, e, pw, s)] == r[..MatchLen(W, e, pw, s)]
    ensures Taken(W, e, pw, s) == Taken(W, e, pw, r)
  {
    SamePrefix(e.prefix, Taken(W, e, pw, s), Taken(W, e, pw, r));
  }

  /** What `NeutralizeText` makes of the text behind a word: a boundary, so nothing depends on the word. */
  lemma NeutralizeBehind(W: Classifier, e: Env, pw: bool, b: string)
    requires Classifies(W) && Valid(e) && (b != [] ==> !W(b[0]))
    ensures Neutralize(W, e, pw, b) == Neutralize(W, e, false, b)
    ensures var r := Neutralize(W, e, pw, b); r != [] ==> b != [] && r[0] == b[0]
  {}

  lemma NoWordOpens(W: Classifier, e: Env, pw: bool, s: string)
    requires Classifies(W) && Valid(e) && s != [] && !W(s[0])
    ensures MatchLen(W, e, pw, s) == 0
  {}

  /** A text that ends with no word character keeps its last character. */
  lemma LastIsKept(W: Classifier, e: Env, a: string)
    requires Classifies(W) && Valid(e) && a != [] && !W(a[|a| - 1])
    ensures var r := Neutralize(W, e, false, a); r != [] && r[|r| - 1] == a[|a| - 1]
  {
    var front, last := a[..|a| - 1], a[|a| - 1..];
    var pw := front != [] && W(front[|front| - 1]);
    assert a == front + last;
    NeutralizeSplits(W, e, false, front, last);
    NoWordOpens(W, e, pw, last);
    NeutralizeCopies(W, e, pw, last);
    NeutralizeNothing(W, e, W(last[0]));
    assert last[1..] == [];
  }

  /** A word stands free: no word character touches it. */
  predicate Free(W: Classifier, a: string, b: string)
  {
    (a != [] ==> !W(a[|a| - 1])) && (b != [] ==> !W(b[0]))
  }

  lemma WholeWordMatches(W: Classifier, e: Env, name: string, b: string)
    requires Classifies(W) && Valid(e) && name != [] && AllUpper(name) && (b != [] ==> !W(b[0]))
    ensures MatchLen(W, e, false, e.prefix + name + b) == |e.prefix + name|
    ensures Taken(W, e, false, e.prefix + name + b) == name
  {
    var w := e.prefix + name;
    var s := w + b;
    assert s[|e.prefix|..|w|] == name && s[..|e.prefix|] == e.prefix;
    assert s[|w| - 1] == name[|name| - 1];
    MatchIsUnique(W, e, false, s, |w|);
    assert s[..|w|] == w;
    hide MatchLen;
    SamePrefix(e.prefix, Taken(W, e, false, s), name);
  }

  /** One pass replaces a free word of its family and neutralises what is left and right of it. */
  lemma PassReplacesWord(W: Classifier, e: Env, a: string, name: string, b: string)
    requires Classifies(W) && Valid(e) && name != [] && AllUpper(name) && Free(W, a, b)
    ensures Neutralize(W, e, false, a + (e.prefix + name + b))
            == Neutralize(W, e, false, a) + (Marker(e, name) + Neutralize(W, e, false, b))
  {
    var w := e.prefix + name;
    NeutralizeSplits(W, e, false, a, w + b);
    WholeWordMatches(W, e, name, b);
    NeutralizeTakes(W, e, false, w + b);
    assert (w + b)[|w|..] == b;
    NeutralizeBehind(W, e, true, b);
  }

  /** One pass copies a free word that is not of its family. */
  lemma PassCopiesWord(W: Classifier, e: Env, a: string, w: string, b: string)
    requires Classifies(W) && Valid(e) && w != [] && (forall c :: c in w ==> W(c)) && Free(W, a, b)
    requires MatchLen(W, e, false, w + b) == 0
    ensures Neutralize(W, e, false, a + (w + b)) == Neutralize(W, e, false, a) + (w + Neutralize(W, e, false, b))
  {
    NeutralizeSplits(W, e, false, a, w + b);
    assert forall i :: 0 <= i < |w| ==> (w + b)[i] == w[i] && w[i] in w;
    NeutralizeCopiesFirst(W, e, false, w + b, |w|);
    assert (w + b)[|w|..] == b && (w + b)[..|w|] == w;
    NeutralizeBehind(W, e, true, b);
  }

  lemma FreeAfterPass(W: Classifier, e: Env, a: string, b: string)
    requires Classifies(W) && Valid(e) && Free(W, a, b)
    ensures Free(W, Neutralize(W, e, false, a), Neutralize(W, e, false, b))
  {
    if a == [] { NeutralizeNothing(W, e, false); } else { LastIsKept(W, e, a); }
    NeutralizeBehind(W, e, false, b);
  }

  /** A free kit word becomes its kit marker, whatever stands around it. */
  lemma KitWordIsReplaced(W: Classifier, a: string, name: string, b: string)
    requires Classifies(W) && name != [] && AllUpper(name) && Free(W, a, b)
    ensures NeutralizeText(W, a + (KIT.prefix + name + b))
            == NeutralizeText(W, a) + (Marker(KIT, name) + NeutralizeText(W, b))
  {
    PassesAreValid();
    PassReplacesWord(W, KIT, a, name, b);
    FreeAfterPass(W, KIT, a, b);
    var x, y, m := Neutralize(W, KIT, false, a), Neutralize(W, KIT, false, b), Marker(KIT, name);
    MarkerHasNoCapital(KIT, name);
    hide Neutralize, Marker;
    NeutralizeSplits(W, HOST, false, x, m + y);
    NeutralizeSkips(W, HOST, false, m, y);
    NeutralizeBehind(W, HOST, W(m[|m| - 1]), y);
  }

  /** A free host word that is not a kit word becomes its host marker. */
  lemma HostWordIsReplaced(W: Classifier, a: string, name: string, b: string)
    requires Classifies(W) && name != [] && AllUpper(name) && Free(W, a, b)
    requires !("KIT_" < name)
    ensures NeutralizeText(W, a + (HOST.prefix + name + b))
            == NeutralizeText(W, a) + (Marker(HOST, name) + NeutralizeText(W, b))
  {
    PassesAreValid();
    var w := HOST.prefix + name;
    NotAKitWord(W, name, b);
    assert forall c :: c in w ==> IsUpper(c);
    PassCopiesWord(W, KIT, a, w, b);
    FreeAfterPass(W, KIT, a, b);
    hide Neutralize, Marker;
    PassReplacesWord(W, HOST, Neutralize(W, KIT, false, a), name, Neutralize(W, KIT, false, b));
  }

  /** A host word that the kit pass takes is a kit word. */
  lemma KitMatchIsKitName(W: Classifier, name: string, b: string)
    requires Classifies(W) && AllUpper(name) && (b != [] ==> !W(b[0]))
    requires MatchLen(W, KIT, false, HOST.prefix + name + b) > 0
    ensures "KIT_" < name
  {
    PassesAreValid();
    var w := HOST.prefix + name;
    var s := w + b;
    var n := MatchLen(W, KIT, false, s);
    MatchIsWord(W, KIT, false, s);
    assert b != [] ==> s[|w|] == b[0];
    assert n <= |w|;
    assert KIT.prefix == HOST.prefix + "KIT_" && s[..|KIT.prefix|] == KIT.prefix;
    assert name[..4] == s[|HOST.prefix|..|KIT.prefix|] == KIT.prefix[|HOST.prefix|..] == "KIT_";
  }

  lemma NotAKitWord(W: Classifier, name: string, b: string)
    requires Classifies(W) && AllUpper(name) && !("KIT_" < name) && (b != [] ==> !W(b[0]))
    ensures MatchLen(W, KIT, false, HOST.prefix + name + b) == 0
  {
    if MatchLen(W, KIT, false, HOST.prefix + name + b) > 0 { KitMatchIsKitName(W, name, b); }
  }

  /** A name as the generated skills hold it. */
  lemma HomeMarker(W: Classifier)
    requires Classifies(W)
    ensures NeutralizeText(W, "CLAUDE_HOME") == "{{host_env:home}}"
  {
    var name := "HOME";
    assert "KIT_"[0] != name[0];
    PassesAreValid();
    NeutralizeNothing(W, KIT, false);
    NeutralizeNothing(W, HOST, false);
    HomeSpelled();
    hide Neutralize, Lower;
    HostWordIsReplaced(W, [], name, []);
    assert [] + (HOST.prefix + name + []) == "CLAUDE_HOME";
    assert NeutralizeText(W, []) == [];
    assert [] + (Marker(HOST, name) + []) == Marker(HOST, name);
  }

  lemma HomeSpelled()
    ensures AllUpper("HOME") && Lower("HOME") == "home"
    ensures HOST.tag + "home" + CLOSE == "{{host_env:home}}"
  {
    assert "HOME" == ['H', 'O', 'M', 'E'] && "home" == ['h', 'o', 'm', 'e'];
    var name := ['H', 'O', 'M', 'E'];
    assert AllUpper(name);
    assert Lower(name) == [LowerChar(name[0]), LowerChar(name[1]), LowerChar(name[2]), LowerChar(name[3])];
  }

  /** Text without a marker is left as it is. */
  lemma {:induction false} NoMarkerStays(e: Env, s: string)
    requires NoMarker(e, s)
    ensures Project(e, s) == s
    decreases |s|
  {
    if s != [] {
      NoMarkerTail(e, s);
      NoMarkerStays(e, s[1..]);
    }
  }

  lemma MarkerStopsAtMarker(e: Env, a: string, c: string)
    requires Valid(e) && a != [] && |c| > 1 && c[0] == '{' && c[1] == '{'
    ensures MarkerLen(e, a + c) == MarkerLen(e, a)
  {
    var s := a + c;
    hide MarkerLen;
    if MarkerLen(e, a) > 0 {
      MarkerIsLocal(e, a, s);
    } else if MarkerLen(e, s) > 0 {
      MarkerShape(e, s);
      var n := MarkerLen(e, s);
      assert forall j :: 2 <= j < n ==> s[j] != '{' by {
        forall j | 2 <= j < n ensures s[j] != '{' { assert s[j] == s[2..n][j - 2]; }
      }
      assert s[|a|] == '{' && s[|a| + 1] == '{' && e.tag[2] != '{';
      if n <= |a| {
        assert s[..n] <= a;
        MarkerIsLocal(e, s, a);
      }
    }
  }

  lemma ProjectTakes(e: Env, s: string)
    requires MarkerLen(e, s) > 0
    ensures var n := MarkerLen(e, s); Project(e, s) == e.prefix + Upper(s[|e.tag|..n - 2]) + Project(e, s[n..])
  {}

  lemma ProjectPasses(e: Env, s: string)
    requires s != [] && MarkerLen(e, s) == 0
    ensures Project(e, s) == [s[0]] + Project(e, s[1..])
  {}

  lemma MarkerOpens(e: Env, name: string, b: string)
    requires Valid(e) && AllUpper(name)
    ensures var c := Marker(e, name) + b; |c| > 1 && c[0] == '{' && c[1] == '{'
  {}

  /** The head of a text is projected alike with anything behind it that leaves its marker alone. */
  lemma ProjectHead(e: Env, a: string, c: string) returns (head: string, k: nat)
    requires a != [] && MarkerLen(e, a + c) == MarkerLen(e, a)
    ensures 0 < k <= |a| && Project(e, a) == head + Project(e, a[k..])
    ensures Project(e, a + c) == head + Project(e, a[k..] + c)
  {
    hide *;
    var n := MarkerLen(e, a);
    if n > 0 {
      SliceBefore(a, c, |e.tag|, n);
      ProjectTakes(e, a);
      ProjectTakes(e, a + c);
      head, k := e.prefix + Upper(a[|e.tag|..n - 2]), n;
    } else {
      SliceBefore(a, c, 0, 1);
      ProjectPasses(e, a);
      ProjectPasses(e, a + c);
      head, k := [a[0]], 1;
    }
  }

  lemma SliceBefore(a: string, c: string, i: nat, n: nat)
    requires i <= n <= |a|
    ensures (a + c)[n..] == a[n..] + c
    ensures i <= n - 2 ==> (a + c)[i..n - 2] == a[i..n - 2]
  {}

  lemma Associate(x: string, y: string, z: string)
    ensures x + y + z == x + (y + z)
  {}

  /** A marker is replaced where it stands, and the text on either side is projected by itself. */
  lemma {:induction false} MarkerIsRestored(e: Env, a: string, name: string, b: string)
    requires Valid(e) && name != [] && AllUpper(name)
    ensures Project(e, a + (Marker(e, name) + b)) == Project(e, a) + (e.prefix + name + Project(e, b))
    decreases |a|
  {
    var c := Marker(e, name) + b;
    ProjectTakesMarker(e, name, b);
    MarkerOpens(e, name, b);
    if a == [] {
      assert a + c == c;
    } else {
      hide *;
      MarkerStopsAtMarker(e, a, c);
      var head, k := ProjectHead(e, a, c);
      MarkerIsRestored(e, a[k..], name, b);
      Associate(head, Project(e, a[k..]), e.prefix + name + Project(e, b));
    }
  }
}

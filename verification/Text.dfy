/** The text primitives several scripts share: stripping, line splitting and joining. */
module Text {

  predicate IsSpace(c: char)
  {
    var n := c as int;
    || 9 <= n <= 13 || 28 <= n <= 32 || n == 0x85 || n == 0xA0 || n == 0x1680 || 0x2000 <= n <= 0x200A
    || n == 0x2028 || n == 0x2029 || n == 0x202F || n == 0x205F || n == 0x3000
  }

  /** The characters that end a line for `splitlines`. */
  predicate IsBreak(c: char)
  {
    var n := c as int;
    10 <= n <= 13 || 28 <= n <= 30 || n == 0x85 || n == 0x2028 || n == 0x2029
  }

  function StripLeft(s: string): (r: string)
    ensures |r| <= |s| && r == s[|s| - |r|..]
    ensures r != [] ==> !IsSpace(r[0])
  {
    if s == [] then s else if IsSpace(s[0]) then StripLeft(s[1..]) else s
  }

  function StripRight(s: string): (r: string)
    ensures |r| <= |s| && r == s[..|r|]
    ensures r != [] ==> !IsSpace(r[|r| - 1])
    ensures r == [] ==> forall i :: 0 <= i < |s| ==> IsSpace(s[i])
  {
    if s == [] then s
    else if IsSpace(s[|s| - 1]) then
      var r := StripRight(s[..|s| - 1]);
      assert r == [] ==> forall i :: 0 <= i < |s| ==> IsSpace(s[i]) by {
        if r == [] {
          forall i | 0 <= i < |s| ensures IsSpace(s[i]) {
            if i < |s| - 1 { assert s[..|s| - 1][i] == s[i]; }
          }
        }
      }
      r
    else s
  }

  function Strip(s: string): (r: string)
    ensures |r| <= |s|
  {
    StripRight(StripLeft(s))
  }

  predicate AllBlank(s: string) { forall c :: c in s ==> IsSpace(c) }

  /** A text that neither starts nor ends with a blank. */
  predicate Trimmed(s: string) { s != [] ==> !IsSpace(s[0]) && !IsSpace(s[|s| - 1]) }

  lemma {:induction false} StripLeftExact(pre: string, r: string)
    requires AllBlank(pre) && (r != [] ==> !IsSpace(r[0]))
    ensures StripLeft(pre + r) == r
  {
    if pre == [] {
      assert pre + r == r;
    } else {
      assert pre[0] in pre && (pre + r)[1..] == pre[1..] + r;
      StripLeftExact(pre[1..], r);
    }
  }

  lemma {:induction false} StripRightExact(r: string, post: string)
    requires AllBlank(post) && (r != [] ==> !IsSpace(r[|r| - 1]))
    ensures StripRight(r + post) == r
    decreases |post|
  {
    if post == [] {
      assert r + post == r;
    } else {
      var n := |post| - 1;
      assert post[n] in post && (r + post)[..|r + post| - 1] == r + post[..n];
      StripRightExact(r, post[..n]);
    }
  }

  /** Stripping takes blanks off both ends and nothing else: what is left is the only trimmed text that
      blanks around it make the whole of. */
  lemma StripIsExact(pre: string, r: string, post: string)
    requires AllBlank(pre) && AllBlank(post) && Trimmed(r)
    ensures Strip(pre + r + post) == r
  {
    if r == [] {
      assert pre + r + post == (pre + post) + [];
      StripLeftExact(pre + post, []);
      assert StripRight([]) == [];
    } else {
      assert pre + r + post == pre + (r + post);
      StripLeftExact(pre, r + post);
      StripRightExact(r, post);
    }
  }

  lemma {:induction false} BlanksBefore(s: string)
    ensures AllBlank(s[..|s| - |StripLeft(s)|])
  {
    if s != [] && IsSpace(s[0]) {
      BlanksBefore(s[1..]);
      var n := |s| - |StripLeft(s)|;
      assert s[..n] == [s[0]] + s[1..][..n - 1];
    } else {
      assert s[..0] == [];
    }
  }

  lemma {:induction false} BlanksBehind(s: string)
    ensures AllBlank(s[|StripRight(s)|..])
  {
    if s != [] && IsSpace(s[|s| - 1]) {
      var front, n := s[..|s| - 1], |StripRight(s)|;
      BlanksBehind(front);
      assert s[n..] == front[n..] + [s[|s| - 1]];
    } else {
      assert s[|s|..] == [];
    }
  }

  lemma StripSplits(s: string) returns (pre: string, post: string)
    ensures s == pre + Strip(s) + post && AllBlank(pre) && AllBlank(post) && Trimmed(Strip(s))
  {
    var l := StripLeft(s);
    var r := StripRight(l);
    assert Strip(s) == r;
    assert Trimmed(r) by { if r != [] { assert r[0] == l[0]; } }
    hide *;
    BlanksBefore(s);
    BlanksBehind(l);
    pre, post := s[..|s| - |l|], l[|r|..];
    ThreeParts(s, l, r);
  }

  lemma ThreeParts(s: string, l: string, r: string)
    requires |l| <= |s| && l == s[|s| - |l|..] && |r| <= |l| && r == l[..|r|]
    ensures s == s[..|s| - |l|] + r + l[|r|..]
  {}

  /** The length of the first line, its break left out. */
  function LineLen(s: string): (n: nat)
    ensures n <= |s| && (forall i :: 0 <= i < n ==> !IsBreak(s[i])) && (n < |s| ==> IsBreak(s[n]))
  {
    if s == [] || IsBreak(s[0]) then 0 else 1 + LineLen(s[1..])
  }

  /** Python's `splitlines`: a carriage return and a line feed make one break. */
  function SplitLines(s: string): (lines: seq<string>)
    decreases |s|
    ensures forall l :: l in lines ==> NoBreak(l)
  {
    if s == [] then []
    else
      var n := LineLen(s);
      if n == |s| then [s] else [s[..n]] + SplitLines(s[n + BreakLen(s, n)..])
  }

  /** A carriage return takes a following line feed with it. */
  function BreakLen(s: string, n: nat): (k: nat)
    requires n < |s|
    ensures 1 <= k <= |s| - n
  {
    if s[n] == '\r' && n + 1 < |s| && s[n + 1] == '\n' then 2 else 1
  }

  predicate NoBreak(s: string) { forall i :: 0 <= i < |s| ==> !IsBreak(s[i]) }

  function Join(sep: string, lines: seq<string>): string
  {
    if lines == [] then [] else if |lines| == 1 then lines[0] else lines[0] + sep + Join(sep, lines[1..])
  }

  /** The characters of the lines, each with one break. */
  function Total(lines: seq<string>): nat
  {
    if lines == [] then 0 else |lines[0]| + 1 + Total(lines[1..])
  }

  lemma TotalCons(line: string, rest: seq<string>)
    ensures Total([line] + rest) == |line| + 1 + Total(rest)
  {
    assert ([line] + rest)[1..] == rest;
  }

  lemma {:induction false} SplitTotal(s: string)
    ensures Total(SplitLines(s)) <= |s| + if s == [] then 0 else 1
    decreases |s|
  {
    if s != [] {
      var n := LineLen(s);
      if n == |s| {
        TotalCons(s, []);
        assert [s] + [] == [s];
      } else {
        var rest := s[n + BreakLen(s, n)..];
        SplitTotal(rest);
        TotalCons(s[..n], SplitLines(rest));
      }
    }
  }

  lemma {:induction false} SublistTotal(lines: seq<string>, lo: nat, hi: nat)
    requires lo <= hi <= |lines|
    ensures Total(lines[lo..hi]) <= Total(lines)
  {
    if lo < hi {
      if lo == 0 {
        SublistTotal(lines[1..], 0, hi - 1);
        assert lines[0..hi][1..] == lines[1..][0..hi - 1];
      } else {
        SublistTotal(lines[1..], lo - 1, hi - 1);
        assert lines[lo..hi] == lines[1..][lo - 1..hi - 1];
      }
    }
  }

  lemma {:induction false} JoinLength(lines: seq<string>)
    requires lines != []
    ensures |Join("\n", lines)| + 1 == Total(lines)
  {
    if |lines| > 1 { JoinLength(lines[1..]); }
  }

  /** One line followed by its break splits into that line and the rest. */
  lemma SplitCons(line: string, rest: string)
    requires NoBreak(line)
    ensures SplitLines(line + "\n" + rest) == [line] + SplitLines(rest)
  {
    var s := line + "\n" + rest;
    LineLenExact(line, "\n" + rest);
    assert s == line + ("\n" + rest);
    assert s[|line|] == '\n' && s[..|line|] == line && s[|line| + 1..] == rest;
  }

  /** Lines joined by line feeds split again, unless the last one is empty. */
  lemma {:induction false} SplitJoined(lines: seq<string>)
    requires lines != [] && lines[|lines| - 1] != [] && forall l :: l in lines ==> NoBreak(l)
    ensures SplitLines(Join("\n", lines)) == lines
  {
    if |lines| == 1 {
      LineLenExact(lines[0], []);
      assert lines[0] + [] == lines[0];
    } else {
      assert Join("\n", lines) == lines[0] + "\n" + Join("\n", lines[1..]);
      hide Join, SplitLines;
      assert lines[0] in lines && forall l :: l in lines[1..] ==> l in lines;
      SplitJoined(lines[1..]);
      SplitCons(lines[0], Join("\n", lines[1..]));
      assert lines == [lines[0]] + lines[1..];
    }
  }

  lemma {:induction false} LineLenExact(line: string, rest: string)
    requires NoBreak(line) && (rest != [] ==> IsBreak(rest[0]))
    ensures LineLen(line + rest) == |line|
  {
    if line == [] {
      assert line + rest == rest;
    } else {
      assert (line + rest)[1..] == line[1..] + rest;
      LineLenExact(line[1..], rest);
    }
  }

  /** Reading text turns carriage returns, alone or before a line feed, into line feeds. */
  function ReadText(s: string): string
    decreases |s|
  {
    if s == [] then []
    else if s[0] == '\r' then "\n" + ReadText(s[if |s| > 1 && s[1] == '\n' then 2 else 1..])
    else [s[0]] + ReadText(s[1..])
  }

  lemma {:induction false} ReadTextIdentity(s: string)
    ensures ReadText(s) == s <==> '\r' !in s
    decreases |s|
  {
    if s != [] {
      if s[0] == '\r' {
        assert s[0] in s && ReadText(s)[0] == '\n';
      } else {
        ReadTextIdentity(s[1..]);
        assert s == [s[0]] + s[1..];
      }
    }
  }

  lemma {:induction false} ReadTextHasNoReturn(s: string)
    ensures '\r' !in ReadText(s)
    decreases |s|
  {
    if s != [] {
      if s[0] == '\r' {
        ReadTextHasNoReturn(s[if |s| > 1 && s[1] == '\n' then 2 else 1..]);
      } else {
        ReadTextHasNoReturn(s[1..]);
      }
    }
  }

  /** Up to the first carriage return text is read as it is. */
  lemma {:induction false} ReadTextSkips(a: string, rest: string)
    requires '\r' !in a
    ensures ReadText(a + rest) == a + ReadText(rest)
  {
    if a == [] {
      assert a + rest == rest;
    } else {
      assert (a + rest)[1..] == a[1..] + rest && a[0] in a;
      ReadTextSkips(a[1..], rest);
    }
  }

  /** Each line end, written as a carriage return and a line feed or as a carriage return alone, is read
      as one line feed. */
  lemma ReadTextTranslates(a: string, rest: string)
    requires '\r' !in a
    ensures ReadText(a + "\r\n" + rest) == a + "\n" + ReadText(rest)
    ensures (rest != [] ==> rest[0] != '\n') ==> ReadText(a + "\r" + rest) == a + "\n" + ReadText(rest)
  {
    assert a + "\r\n" + rest == a + ("\r\n" + rest) && a + "\r" + rest == a + ("\r" + rest);
    ReadTextSkips(a, "\r\n" + rest);
    ReadTextSkips(a, "\r" + rest);
    assert ("\r\n" + rest)[2..] == rest && ("\r" + rest)[1..] == rest;
  }
}

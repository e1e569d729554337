/** The search for a host's observation in nested, string-encoded JSON. */
module Observation {
  import opened Options
  import opened Text

  datatype Json = Null | Bool(b: bool) | Number(n: real) | Str(s: string)
                | Arr(items: seq<Json>) | Obj(entries: seq<Entry>)

  datatype Entry = Entry(key: string, value: Json)

  /** `json.loads`: some value, or none when the text is not JSON. */
  type Decoder = string -> Option<Json>

  /** The fields an observation must hold as strings, and the keys that are searched first. */
  datatype Contract = Contract(required: seq<string>, preferred: seq<string>)

  /** One more than the longest string value inside; zero when there is none. */
  function Longest(v: Json): nat
  {
    match v
    case Str(s) => 1 + |s|
    case Arr(items) => LongestItem(items)
    case Obj(entries) => LongestEntry(entries)
    case _ => 0
  }

  function LongestItem(items: seq<Json>): (n: nat)
    ensures forall i :: 0 <= i < |items| ==> Longest(items[i]) <= n
  {
    if items == [] then 0
    else var m, n := Longest(items[0]), LongestItem(items[1..]); if m > n then m else n
  }

  function LongestEntry(entries: seq<Entry>): (n: nat)
    ensures forall i :: 0 <= i < |entries| ==> Longest(entries[i].value) <= n
  {
    if entries == [] then 0
    else var m, n := Longest(entries[0].value), LongestEntry(entries[1..]); if m > n then m else n
  }

  /** A JSON text is longer than any string it spells: every literal costs its quotes. */
  ghost predicate Shrinks(loads: Decoder)
  {
    forall s :: loads(s).Some? ==> Longest(loads(s).value) <= |s|
  }

  predicate Fenced(s: string)
  {
    "```" <= s && |s| >= 3 && s[|s| - 3..] == "```"
  }

  /** The text that is decoded: stripped, and without the first and last line of a code fence. */
  function Candidate(s: string): (r: string)
    ensures |r| <= |s|
  {
    var text := Strip(s);
    if Fenced(text) then
      var lines := SplitLines(text);
      var inner := if |lines| <= 2 then [] else lines[1..|lines| - 1];
      SplitTotal(text);
      assert |Join("\n", inner)| <= |text| by {
        if inner != [] {
          SublistTotal(lines, 1, |lines| - 1);
          JoinLength(inner);
        }
      }
      Strip(Join("\n", inner))
    else text
  }

  /** A fence: a tag line, the body lines and a last line that ends the fence. */
  function Fence(tag: string, body: seq<string>, last: string): string
  {
    Join("\n", ["```" + tag] + body + [last + "```"])
  }

  lemma {:induction false} JoinEnds(lines: seq<string>)
    requires |lines| > 1
    ensures var j := Join("\n", lines);
            lines[0] <= j && |j| >= |lines[|lines| - 1]| && j[|j| - |lines[|lines| - 1]|..] == lines[|lines| - 1]
  {
    var rest := Join("\n", lines[1..]);
    if |lines| > 2 { JoinEnds(lines[1..]); }
    assert Join("\n", lines) == lines[0] + "\n" + rest;
  }

  lemma FenceIsFenced(tag: string, body: seq<string>, last: string)
    requires NoBreak(tag) && NoBreak(last) && forall l :: l in body ==> NoBreak(l)
    ensures Fenced(Fence(tag, body, last)) && Trimmed(Fence(tag, body, last))
    ensures SplitLines(Fence(tag, body, last)) == ["```" + tag] + body + [last + "```"]
  {
    var lines, fence := ["```" + tag] + body + [last + "```"], Fence(tag, body, last);
    JoinEnds(lines);
    FenceLines(tag, body, last);
    hide Join, SplitLines, NoBreak;
    SplitJoined(lines);
    assert lines[0] == "```" + tag && lines[|lines| - 1] == last + "```";
    assert fence[..3] == lines[0][..3] == "```";
    assert fence[|fence| - 3..] == lines[|lines| - 1][|last|..] == "```";
    FenceEnds(fence);
  }

  lemma FenceLines(tag: string, body: seq<string>, last: string)
    requires NoBreak(tag) && NoBreak(last) && forall l :: l in body ==> NoBreak(l)
    ensures forall l :: l in ["```" + tag] + body + [last + "```"] ==> NoBreak(l)
  {
    assert forall i :: 0 <= i < |tag| ==> ("```" + tag)[i + 3] == tag[i];
    assert NoBreak("```" + tag) && NoBreak(last + "```");
  }

  /** What is decoded of a fenced report, with any blanks around it, is its stripped body, without the
      first and the last line. */
  lemma FencedBodyIsDecoded(pre: string, tag: string, body: seq<string>, last: string, post: string)
    requires AllBlank(pre) && AllBlank(post)
    requires NoBreak(tag) && NoBreak(last) && forall l :: l in body ==> NoBreak(l)
    ensures Candidate(pre + Fence(tag, body, last) + post) == Strip(Join("\n", body))
  {
    FenceIsFenced(tag, body, last);
    StripIsExact(pre, Fence(tag, body, last), post);
    var lines := ["```" + tag] + body + [last + "```"];
    assert lines[1..|lines| - 1] == body;
    hide Strip, SplitLines, Fence, Fenced;
  }

  /** A single line that both opens and closes a fence leaves nothing to decode. */
  lemma OneLineFenceIsEmpty(pre: string, r: string, post: string)
    requires AllBlank(pre) && AllBlank(post) && NoBreak(r)
    requires "```" <= r && exists front :: r == front + "```"
    ensures Candidate(pre + r + post) == ""
  {
    StripsToNothing();
    OneLineFence(r);
    hide *;
    StripIsExact(pre, r, post);
    OneLineInside(pre + r + post, r);
  }

  lemma StripsToNothing()
    ensures Strip([]) == []
  {
    StripIsExact([], [], []);
    assert [] + [] + [] == "";
  }

  lemma OneLineInside(s: string, r: string)
    requires Strip(s) == r && Fenced(r) && SplitLines(r) == [r] && Strip([]) == []
    ensures Candidate(s) == []
  {
    hide Strip, SplitLines, Fenced;
  }

  lemma OneLineFence(r: string)
    requires NoBreak(r) && "```" <= r && exists front :: r == front + "```"
    ensures Fenced(r) && Trimmed(r) && SplitLines(r) == [r]
  {
    var front :| r == front + "```";
    assert r[|r| - 3..] == "```";
    hide *;
    FenceEnds(r);
    OneLineSplits(r);
  }

  lemma OneLineSplits(r: string)
    requires NoBreak(r) && r != []
    ensures SplitLines(r) == [r]
  {
    LineLenExact(r, []);
    assert r + [] == r;
  }

  lemma FenceEnds(s: string)
    requires |s| >= 3 && s[..3] == "```" && s[|s| - 3..] == "```"
    ensures Fenced(s) && Trimmed(s)
  {
    assert s[0] == s[..3][0] == '`' && s[|s| - 1] == s[|s| - 3..][2] == '`';
    assert "```" <= s;
  }

  /** Of any other text only the blanks at its ends are taken off. */
  lemma PlainTextIsDecoded(pre: string, r: string, post: string)
    requires AllBlank(pre) && AllBlank(post) && Trimmed(r)
    requires !("```" <= r) || forall front :: r != front + "```"
    ensures Candidate(pre + r + post) == r
  {
    StripIsExact(pre, r, post);
    assert |r| >= 3 ==> r == r[..|r| - 3] + r[|r| - 3..];
  }

  /** What a string stands for once decoded. */
  function Decoded(loads: Decoder, s: string): (r: Option<Json>)
    ensures Shrinks(loads) && r.Some? ==> Longest(r.value) <= |s|
  {
    loads(Candidate(s))
  }

  /** `value.get(key)`. */
  function Get(entries: seq<Entry>, key: string): (r: Option<Json>)
    ensures r.Some? ==> exists i :: 0 <= i < |entries| && entries[i] == Entry(key, r.value)
    ensures r.None? ==> forall i :: 0 <= i < |entries| ==> entries[i].key != key
  {
    if entries == [] then None
    else if entries[0].key == key then assert entries[0] == Entry(key, entries[0].value); Some(entries[0].value)
    else
      var r := Get(entries[1..], key);
      assert r.Some? ==> forall i :: 0 <= i < |entries| - 1 ==> entries[1..][i] == entries[i + 1];
      r
  }

  predicate HasString(entries: seq<Entry>, key: string)
  {
    Get(entries, key).Some? && Get(entries, key).value.Str?
  }

  /** A mapping all of whose required fields are strings. */
  predicate Qualifies(c: Contract, v: Json)
  {
    v.Obj? && forall f :: f in c.required ==> HasString(v.entries, f)
  }

  function Fields(c: Contract, v: Json): map<string, string>
    requires Qualifies(c, v)
  {
    map f | f in c.required :: Get(v.entries, f).value.s
  }

  function Find(c: Contract, loads: Decoder, v: Json): Option<map<string, string>>
    requires Shrinks(loads)
    decreases Longest(v), v, 2
  {
    match v
    case Obj(entries) =>
      if Qualifies(c, v) then Some(Fields(c, v))
      else
        var found := FindPreferred(c, loads, v, c.preferred);
        if found.Some? then found else FindEntry(c, loads, v, entries)
    case Arr(items) => FindItem(c, loads, v, items)
    case Str(s) =>
      var parsed := Decoded(loads, s);
      if parsed.Some? then Find(c, loads, parsed.value) else None
    case _ => None
  }

  function FindPreferred(c: Contract, loads: Decoder, v: Json, keys: seq<string>): Option<map<string, string>>
    requires Shrinks(loads) && v.Obj?
    decreases Longest(v), v, 1, |keys|
  {
    if keys == [] then None
    else
      var nested := Get(v.entries, keys[0]);
      var found := if nested.Some? then Find(c, loads, nested.value) else None;
      if found.Some? then found else FindPreferred(c, loads, v, keys[1..])
  }

  function FindEntry(c: Contract, loads: Decoder, v: Json, entries: seq<Entry>): Option<map<string, string>>
    requires Shrinks(loads) && v.Obj? && |entries| <= |v.entries|
    requires entries == v.entries[|v.entries| - |entries|..]
    decreases Longest(v), v, 1, |entries|
  {
    if entries == [] then None
    else
      assert entries[0] == v.entries[|v.entries| - |entries|];
      var found := Find(c, loads, entries[0].value);
      if found.Some? then found else FindEntry(c, loads, v, entries[1..])
  }

  function FindItem(c: Contract, loads: Decoder, v: Json, items: seq<Json>): Option<map<string, string>>
    requires Shrinks(loads) && v.Arr? && |items| <= |v.items|
    requires items == v.items[|v.items| - |items|..]
    decreases Longest(v), v, 1, |items|
  {
    if items == [] then None
    else
      assert items[0] == v.items[|v.items| - |items|];
      var found := Find(c, loads, items[0]);
      if found.Some? then found else FindItem(c, loads, v, items[1..])
  }

  /** A fenced report is searched as what its body decodes to. */
  lemma FindInFence(c: Contract, loads: Decoder, pre: string, tag: string, body: seq<string>, last: string,
                    post: string)
    requires Shrinks(loads) && AllBlank(pre) && AllBlank(post)
    requires NoBreak(tag) && NoBreak(last) && forall l :: l in body ==> NoBreak(l)
    ensures var parsed := loads(Strip(Join("\n", body)));
            Find(c, loads, Str(pre + Fence(tag, body, last) + post))
            == if parsed.Some? then Find(c, loads, parsed.value) else None
  {
    FencedBodyIsDecoded(pre, tag, body, last, post);
    FindString(c, loads, pre + Fence(tag, body, last) + post);
    hide Find, Fence, Join, Strip;
  }

  lemma FindString(c: Contract, loads: Decoder, s: string)
    requires Shrinks(loads)
    ensures var parsed := loads(Candidate(s));
            Find(c, loads, Str(s)) == if parsed.Some? then Find(c, loads, parsed.value) else None
  {
    hide Candidate, FindPreferred, FindEntry, FindItem;
  }

  lemma FindInText(c: Contract, loads: Decoder, pre: string, r: string, post: string)
    requires Shrinks(loads)
    requires AllBlank(pre) && AllBlank(post) && Trimmed(r)
    requires !("```" <= r) || forall front :: r != front + "```"
    ensures Find(c, loads, Str(pre + r + post)) == if loads(r).Some? then Find(c, loads, loads(r).value) else None
  {
    PlainTextIsDecoded(pre, r, post);
    FindString(c, loads, pre + r + post);
    hide Find, Trimmed;
  }

  /** The reported fields are the required ones, each with the string that the mapping holds under it. */
  lemma FieldsAreTheStrings(c: Contract, v: Json)
    requires Qualifies(c, v)
    ensures Fields(c, v).Keys == set f | f in c.required
    ensures forall f :: f in c.required ==> Entry(f, Str(Fields(c, v)[f])) in v.entries
  {
    forall f | f in c.required ensures Entry(f, Str(Fields(c, v)[f])) in v.entries {
      assert HasString(v.entries, f);
    }
  }

  lemma {:induction false} PreferredInOrder(c: Contract, loads: Decoder, v: Json, keys: seq<string>, i: nat)
    requires Shrinks(loads) && v.Obj? && i < |keys|
    requires Get(v.entries, keys[i]).Some? && Find(c, loads, Get(v.entries, keys[i]).value).Some?
    requires forall j :: 0 <= j < i && Get(v.entries, keys[j]).Some? ==>
               Find(c, loads, Get(v.entries, keys[j]).value).None?
    ensures FindPreferred(c, loads, v, keys) == Find(c, loads, Get(v.entries, keys[i]).value)
    decreases |keys|
  {
    hide Find;
    if i > 0 {
      assert forall j :: 0 <= j < i - 1 ==> keys[1..][j] == keys[j + 1];
      PreferredInOrder(c, loads, v, keys[1..], i - 1);
    }
  }

  /** The mapping itself comes first, then the preferred keys in their order. */
  lemma FindPrefers(c: Contract, loads: Decoder, v: Json, i: nat)
    requires Shrinks(loads) && v.Obj?
    ensures Qualifies(c, v) ==> Find(c, loads, v) == Some(Fields(c, v))
    ensures !Qualifies(c, v) && i < |c.preferred| && Get(v.entries, c.preferred[i]).Some?
            && Find(c, loads, Get(v.entries, c.preferred[i]).value).Some?
            && (forall j :: 0 <= j < i && Get(v.entries, c.preferred[j]).Some? ==>
                  Find(c, loads, Get(v.entries, c.preferred[j]).value).None?) ==>
              Find(c, loads, v) == Find(c, loads, Get(v.entries, c.preferred[i]).value)
  {
    if !Qualifies(c, v) && i < |c.preferred| && Get(v.entries, c.preferred[i]).Some?
       && Find(c, loads, Get(v.entries, c.preferred[i]).value).Some?
       && (forall j :: 0 <= j < i && Get(v.entries, c.preferred[j]).Some? ==>
             Find(c, loads, Get(v.entries, c.preferred[j]).value).None?) {
      PreferredInOrder(c, loads, v, c.preferred, i);
    }
  }

  lemma {:induction false} EntriesInOrder(c: Contract, loads: Decoder, v: Json, entries: seq<Entry>, i: nat)
    requires Shrinks(loads) && v.Obj? && |entries| <= |v.entries| && entries == v.entries[|v.entries| - |entries|..]
    requires i < |entries| && Find(c, loads, entries[i].value).Some?
    requires forall j :: 0 <= j < i ==> Find(c, loads, entries[j].value).None?
    ensures FindEntry(c, loads, v, entries) == Find(c, loads, entries[i].value)
    decreases |entries|
  {
    hide Find;
    if i > 0 {
      assert forall j :: 0 <= j < i - 1 ==> entries[1..][j] == entries[j + 1];
      EntriesInOrder(c, loads, v, entries[1..], i - 1);
    }
  }

  lemma {:induction false} NoPreferred(c: Contract, loads: Decoder, v: Json, keys: seq<string>)
    requires Shrinks(loads) && v.Obj?
    requires forall k :: k in keys && Get(v.entries, k).Some? ==> Find(c, loads, Get(v.entries, k).value).None?
    ensures FindPreferred(c, loads, v, keys) == None
    decreases |keys|
  {
    hide Find;
    if keys != [] {
      assert keys[0] in keys && forall k :: k in keys[1..] ==> k in keys;
      NoPreferred(c, loads, v, keys[1..]);
    }
  }

  /** When neither the mapping nor a preferred key gives one, the first entry that does counts. */
  lemma FindTakesFirstEntry(c: Contract, loads: Decoder, v: Json, i: nat)
    requires Shrinks(loads) && v.Obj? && !Qualifies(c, v)
    requires forall k :: k in c.preferred && Get(v.entries, k).Some? ==> Find(c, loads, Get(v.entries, k).value).None?
    requires i < |v.entries| && Find(c, loads, v.entries[i].value).Some?
    requires forall j :: 0 <= j < i ==> Find(c, loads, v.entries[j].value).None?
    ensures Find(c, loads, v) == Find(c, loads, v.entries[i].value)
  {
    NoPreferred(c, loads, v, c.preferred);
    EntriesInOrder(c, loads, v, v.entries, i);
  }

  lemma {:induction false} ItemsInOrder(c: Contract, loads: Decoder, v: Json, items: seq<Json>, i: nat)
    requires Shrinks(loads) && v.Arr? && |items| <= |v.items| && items == v.items[|v.items| - |items|..]
    requires i < |items| && Find(c, loads, items[i]).Some?
    requires forall j :: 0 <= j < i ==> Find(c, loads, items[j]).None?
    ensures FindItem(c, loads, v, items) == Find(c, loads, items[i])
    decreases |items|
  {
    hide Find;
    if i > 0 {
      assert forall j :: 0 <= j < i - 1 ==> items[1..][j] == items[j + 1];
      ItemsInOrder(c, loads, v, items[1..], i - 1);
    }
  }

  /** Of a list the first item that holds an observation counts. */
  lemma FindTakesFirstItem(c: Contract, loads: Decoder, items: seq<Json>, i: nat)
    requires Shrinks(loads) && i < |items| && Find(c, loads, items[i]).Some?
    requires forall j :: 0 <= j < i ==> Find(c, loads, items[j]).None?
    ensures Find(c, loads, Arr(items)) == Find(c, loads, items[i])
  {
    ItemsInOrder(c, loads, Arr(items), items, i);
  }

  // ---------------------------------------------------------------------------------------------
  // What the search is for: the values a path of mapping, sequence and decoding hops leads to.

  datatype Hop = Into(i: nat) | Decode

  function Follow(loads: Decoder, v: Json, path: seq<Hop>): Option<Json>
    decreases |path|
  {
    if path == [] then Some(v)
    else
      match (v, path[0])
      case (Obj(entries), Into(i)) => if i < |entries| then Follow(loads, entries[i].value, path[1..]) else None
      case (Arr(items), Into(i)) => if i < |items| then Follow(loads, items[i], path[1..]) else None
      case (Str(s), Decode) =>
        var parsed := Decoded(loads, s);
        if parsed.Some? then Follow(loads, parsed.value, path[1..]) else None
      case _ => None
  }

  ghost predicate LeadsTo(c: Contract, loads: Decoder, v: Json, path: seq<Hop>, o: Json)
  {
    Follow(loads, v, path) == Some(o) && Qualifies(c, o)
  }

  lemma Prepend(c: Contract, loads: Decoder, v: Json, hop: Hop, next: Json, path: seq<Hop>, o: Json)
    requires Follow(loads, v, [hop]) == Some(next) && LeadsTo(c, loads, next, path, o)
    ensures LeadsTo(c, loads, v, [hop] + path, o)
  {
    assert ([hop] + path)[1..] == path;
    assert [hop][1..] == [];
  }

  /** A found observation is the field map of a qualifying mapping on some path. */
  lemma {:induction false} FindIsSound(c: Contract, loads: Decoder, v: Json) returns (path: seq<Hop>, o: Json)
    requires Shrinks(loads) && Find(c, loads, v).Some?
    ensures LeadsTo(c, loads, v, path, o) && Find(c, loads, v) == Some(Fields(c, o))
    decreases Longest(v), v, 2
  {
    match v
    case Obj(entries) =>
      if Qualifies(c, v) {
        path, o := [], v;
      } else if FindPreferred(c, loads, v, c.preferred).Some? {
        path, o := PreferredIsSound(c, loads, v, c.preferred);
      } else {
        path, o := EntryIsSound(c, loads, v, entries);
      }
    case Arr(items) => path, o := ItemIsSound(c, loads, v, items);
    case Str(s) =>
      var parsed := Decoded(loads, s).value;
      path, o := FindIsSound(c, loads, parsed);
      assert [Decode][1..] == [];
      Prepend(c, loads, v, Decode, parsed, path, o);
      path := [Decode] + path;
  }

  lemma {:induction false} PreferredIsSound(c: Contract, loads: Decoder, v: Json, keys: seq<string>)
    returns (path: seq<Hop>, o: Json)
    requires Shrinks(loads) && v.Obj? && FindPreferred(c, loads, v, keys).Some?
    ensures LeadsTo(c, loads, v, path, o) && FindPreferred(c, loads, v, keys) == Some(Fields(c, o))
    decreases Longest(v), v, 1, |keys|
  {
    var nested := Get(v.entries, keys[0]);
    if nested.Some? && Find(c, loads, nested.value).Some? {
      var i :| 0 <= i < |v.entries| && v.entries[i] == Entry(keys[0], nested.value);
      path, o := FindIsSound(c, loads, nested.value);
      assert [Into(i)][1..] == [];
      Prepend(c, loads, v, Into(i), nested.value, path, o);
      path := [Into(i)] + path;
    } else {
      path, o := PreferredIsSound(c, loads, v, keys[1..]);
    }
  }

  lemma {:induction false} EntryIsSound(c: Contract, loads: Decoder, v: Json, entries: seq<Entry>)
    returns (path: seq<Hop>, o: Json)
    requires Shrinks(loads) && v.Obj? && |entries| <= |v.entries| && entries == v.entries[|v.entries| - |entries|..]
    requires FindEntry(c, loads, v, entries).Some?
    ensures LeadsTo(c, loads, v, path, o) && FindEntry(c, loads, v, entries) == Some(Fields(c, o))
    decreases Longest(v), v, 1, |entries|
  {
    var i := |v.entries| - |entries|;
    assert entries[0] == v.entries[i];
    if Find(c, loads, entries[0].value).Some? {
      path, o := FindIsSound(c, loads, entries[0].value);
      assert [Into(i)][1..] == [];
      Prepend(c, loads, v, Into(i), entries[0].value, path, o);
      path := [Into(i)] + path;
    } else {
      path, o := EntryIsSound(c, loads, v, entries[1..]);
    }
  }

  lemma {:induction false} ItemIsSound(c: Contract, loads: Decoder, v: Json, items: seq<Json>)
    returns (path: seq<Hop>, o: Json)
    requires Shrinks(loads) && v.Arr? && |items| <= |v.items| && items == v.items[|v.items| - |items|..]
    requires FindItem(c, loads, v, items).Some?
    ensures LeadsTo(c, loads, v, path, o) && FindItem(c, loads, v, items) == Some(Fields(c, o))
    decreases Longest(v), v, 1, |items|
  {
    var i := |v.items| - |items|;
    assert items[0] == v.items[i];
    if Find(c, loads, items[0]).Some? {
      path, o := FindIsSound(c, loads, items[0]);
      assert [Into(i)][1..] == [];
      Prepend(c, loads, v, Into(i), items[0], path, o);
      path := [Into(i)] + path;
    } else {
      path, o := ItemIsSound(c, loads, v, items[1..]);
    }
  }

  lemma {:induction false} EntryIsVisited(c: Contract, loads: Decoder, v: Json, entries: seq<Entry>, i: nat)
    requires Shrinks(loads) && v.Obj? && |entries| <= |v.entries| && entries == v.entries[|v.entries| - |entries|..]
    requires i < |entries| && Find(c, loads, entries[i].value).Some?
    ensures FindEntry(c, loads, v, entries).Some?
    decreases |entries|
  {
    if i > 0 { EntryIsVisited(c, loads, v, entries[1..], i - 1); }
  }

  lemma {:induction false} ItemIsVisited(c: Contract, loads: Decoder, v: Json, items: seq<Json>, i: nat)
    requires Shrinks(loads) && v.Arr? && |items| <= |v.items| && items == v.items[|v.items| - |items|..]
    requires i < |items| && Find(c, loads, items[i]).Some?
    ensures FindItem(c, loads, v, items).Some?
    decreases |items|
  {
    if i > 0 { ItemIsVisited(c, loads, v, items[1..], i - 1); }
  }

  /** A qualifying mapping on any path is enough for the search to find one. */
  lemma {:induction false} FindIsComplete(c: Contract, loads: Decoder, v: Json, path: seq<Hop>, o: Json)
    requires Shrinks(loads) && LeadsTo(c, loads, v, path, o)
    ensures Find(c, loads, v).Some?
    decreases |path|
  {
    if path != [] {
      match (v, path[0])
      case (Obj(entries), Into(i)) =>
        FindIsComplete(c, loads, entries[i].value, path[1..], o);
        EntryIsVisited(c, loads, v, entries, i);
      case (Arr(items), Into(i)) =>
        FindIsComplete(c, loads, items[i], path[1..], o);
        ItemIsVisited(c, loads, v, items, i);
      case (Str(s), Decode) =>
        FindIsComplete(c, loads, Decoded(loads, s).value, path[1..], o);
    }
  }

  /** The search comes back empty exactly when no mapping that a path leads to qualifies. */
  lemma FindDecides(c: Contract, loads: Decoder, v: Json)
    requires Shrinks(loads)
    ensures Find(c, loads, v).None? <==> forall path, o :: !LeadsTo(c, loads, v, path, o)
    ensures Find(c, loads, v).Some? ==>
              exists path, o :: LeadsTo(c, loads, v, path, o) && Find(c, loads, v) == Some(Fields(c, o))
  {
    if Find(c, loads, v).Some? {
      var path, o := FindIsSound(c, loads, v);
    } else {
      forall path, o ensures !LeadsTo(c, loads, v, path, o) {
        if LeadsTo(c, loads, v, path, o) { FindIsComplete(c, loads, v, path, o); }
      }
    }
  }
}

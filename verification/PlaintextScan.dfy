/** The chunked search for plaintext secrets, and the write loop of the guard relay. */
module PlaintextScan {
  import opened Bytes

  /** What a file holds, given the successive results of `read`: the first empty result ends it. */
  function FileOf(blocks: seq<seq<Byte>>): seq<Byte>
  {
    if blocks == [] || blocks[0] == [] then [] else blocks[0] + FileOf(blocks[1..])
  }

  /** A file read to its end holds its blocks one after another; what would follow an empty read is not
      part of it. */
  lemma {:induction false} FileIsItsBlocks(blocks: seq<seq<Byte>>, more: seq<seq<Byte>>)
    requires [] !in blocks && (more == [] || more[0] == [])
    ensures FileOf(blocks + more) == Concat(blocks)
  {
    if blocks == [] {
      assert blocks + more == more;
    } else {
      assert blocks[0] in blocks && [] !in blocks[1..];
      assert (blocks + more)[1..] == blocks[1..] + more;
      FileIsItsBlocks(blocks[1..], more);
    }
  }

  /** One less than the longest secret; a missing maximum counts as one. */
  function Longest(secrets: seq<seq<Byte>>): (r: nat)
    ensures forall s :: s in secrets ==> |s| <= r
  {
    if secrets == [] then 0
    else var rest := Longest(secrets[1..]); if |secrets[0]| > rest then |secrets[0]| else rest
  }

  function Overlap(secrets: seq<seq<Byte>>): int
  {
    (if secrets == [] then 1 else Longest(secrets)) - 1
  }

  /** `data[-k:]`: the last `k` bytes, or all but the first `-k` when `k` is negative. */
  function Suffix(data: seq<Byte>, k: int): (r: seq<Byte>)
    ensures k >= 0 ==> |r| == (if k == 0 || k > |data| then |data| else k)
  {
    if 0 < k < |data| then data[|data| - k..]
    else if k >= 0 then data
    else if -k <= |data| then data[-k..] else []
  }

  predicate AnyOccurs(secrets: seq<seq<Byte>>, data: seq<Byte>)
  {
    exists s | s in secrets :: Occurs(s, data)
  }

  /** What a scan should answer: a secret is somewhere in a file that holds at least one byte. */
  predicate Leaks(secrets: seq<seq<Byte>>, file: seq<Byte>)
  {
    file != [] && AnyOccurs(secrets, file)
  }

  lemma SliceRight(before: seq<Byte>, after: seq<Byte>, i: nat, n: nat)
    requires i + n <= |after|
    ensures (before + after)[|before| + i..|before| + i + n] == after[i..i + n]
  {}

  lemma SliceLeft(before: seq<Byte>, after: seq<Byte>, i: nat, n: nat)
    requires i + n <= |before|
    ensures (before + after)[i..i + n] == before[i..i + n]
  {}

  /** An occurrence that ends in the newest chunk starts within the kept tail. */
  lemma TailIsEnough(secret: seq<Byte>, seen: seq<Byte>, head: seq<Byte>, tail: seq<Byte>, chunk: seq<Byte>)
    requires seen == head + tail
    requires head == [] || |secret| - 1 <= |tail|
    requires seen == [] || !Occurs(secret, seen)
    ensures Occurs(secret, tail + chunk) <==> Occurs(secret, seen + chunk)
  {
    assert seen + chunk == head + (tail + chunk) == head + (tail + chunk) + [];
    if Occurs(secret, tail + chunk) {
      OccursInside(secret, head, tail + chunk, []);
    }
    if Occurs(secret, seen + chunk) {
      var i :| 0 <= i <= |seen + chunk| - |secret| && OccursAt(secret, seen + chunk, i);
      LateOccurrence(secret, seen, head, tail, chunk, i);
    }
  }

  lemma LateOccurrence(secret: seq<Byte>, seen: seq<Byte>, head: seq<Byte>, tail: seq<Byte>, chunk: seq<Byte>, i: int)
    requires seen == head + tail
    requires head == [] || |secret| - 1 <= |tail|
    requires seen == [] || !Occurs(secret, seen)
    requires OccursAt(secret, seen + chunk, i)
    ensures Occurs(secret, tail + chunk)
  {
    if i < |head| {
      SliceLeft(seen, chunk, i, |secret|);
      assert OccursAt(secret, seen, i);
      assert false;
    }
    assert seen + chunk == head + (tail + chunk);
    SliceRight(head, tail + chunk, i - |head|, |secret|);
    assert OccursAt(secret, tail + chunk, i - |head|);
  }

  /** The loop's tail: as much of what was read as an unfinished secret can occupy. */
  predicate IsTail(tail: seq<Byte>, seen: seq<Byte>, overlap: int)
  {
    tail == if overlap > 0 then Suffix(seen, overlap) else []
  }

  lemma TailsAreEnough(secrets: seq<seq<Byte>>, seen: seq<Byte>, tail: seq<Byte>, chunk: seq<Byte>)
    requires IsTail(tail, seen, Overlap(secrets)) && !Leaks(secrets, seen)
    ensures AnyOccurs(secrets, tail + chunk) <==> AnyOccurs(secrets, seen + chunk)
  {
    var head := seen[..|seen| - |tail|];
    forall s | s in secrets ensures Occurs(s, tail + chunk) <==> Occurs(s, seen + chunk) {
      TailIsEnough(s, seen, head, tail, chunk);
    }
  }

  lemma NextTail(secrets: seq<seq<Byte>>, seen: seq<Byte>, tail: seq<Byte>, chunk: seq<Byte>)
    requires IsTail(tail, seen, Overlap(secrets)) && !AnyOccurs(secrets, tail + chunk)
    ensures IsTail(if Overlap(secrets) != 0 then Suffix(tail + chunk, Overlap(secrets)) else [],
                   seen + chunk, Overlap(secrets))
  {
    if Overlap(secrets) > 0 {
      assert seen + chunk == seen[..|seen| - |tail|] + (tail + chunk);
    } else if Overlap(secrets) < 0 {
      // Every secret is empty, so the first chunk would have been reported.
      assert secrets[0] in secrets && OccursAt(secrets[0], tail + chunk, 0);
      assert false;
    }
  }

  lemma LeaksGrow(secrets: seq<seq<Byte>>, seen: seq<Byte>, rest: seq<Byte>)
    requires AnyOccurs(secrets, seen)
    ensures AnyOccurs(secrets, seen + rest)
  {
    var s :| s in secrets && Occurs(s, seen);
    OccursInside(s, [], seen, rest);
    assert [] + seen + rest == seen + rest;
  }

  lemma NextBlock(blocks: seq<seq<Byte>>, n: nat, seen: seq<Byte>)
    requires n < |blocks| && blocks[n] != []
    ensures seen + FileOf(blocks[n..]) == (seen + blocks[n]) + FileOf(blocks[n + 1..])
    ensures seen + blocks[n] != []
  {
    assert blocks[n..][1..] == blocks[n + 1..];
  }

  lemma NoTailYet(overlap: int)
    ensures IsTail([], [], overlap)
  {}

  lemma LeaksTold(secrets: seq<seq<Byte>>, file: seq<Byte>)
    ensures Leaks(secrets, file) <==> file != [] && exists s :: s in secrets && Occurs(s, file)
  {}

  /** The scan of one file answers exactly what the whole-file search would, whatever the chunks. */
  method ScanFile(blocks: seq<seq<Byte>>, secrets: seq<seq<Byte>>) returns (leaks: bool)
    ensures leaks <==> Leaks(secrets, FileOf(blocks))
    ensures leaks <==> FileOf(blocks) != [] && exists s :: s in secrets && Occurs(s, FileOf(blocks))
  {
    LeaksTold(secrets, FileOf(blocks));
    hide AnyOccurs, Suffix, Overlap, IsTail;
    var overlap := Overlap(secrets);
    var tail: seq<Byte> := [];
    var n := 0;
    ghost var seen: seq<Byte> := [];
    assert IsTail([], [], overlap) by { NoTailYet(overlap); }
    while n < |blocks| && blocks[n] != []
      invariant 0 <= n <= |blocks|
      invariant FileOf(blocks) == seen + FileOf(blocks[n..])
      invariant !Leaks(secrets, seen)
      invariant IsTail(tail, seen, overlap)
    {
      var chunk := blocks[n];
      var data := tail + chunk;
      TailsAreEnough(secrets, seen, tail, chunk);
      NextBlock(blocks, n, seen);
      if AnyOccurs(secrets, data) {
        LeaksGrow(secrets, seen + chunk, FileOf(blocks[n + 1..]));
        return true;
      }
      NextTail(secrets, seen, tail, chunk);
      tail := if overlap != 0 then Suffix(data, overlap) else [];
      seen := seen + chunk;
      n := n + 1;
    }
    assert seen + [] == seen;
    return false;
  }

  // ---------------------------------------------------------------------------------------------

  datatype Entry = Symlink | Directory | Regular(name: string, blocks: seq<seq<Byte>>)

  datatype Outcome = Clean | UnexpectedSymlink | Leaked(name: string)

  /** The verdict one entry of the tree deserves. */
  function EntryOutcome(e: Entry, secrets: seq<seq<Byte>>): Outcome
  {
    match e
    case Symlink => UnexpectedSymlink
    case Directory => Clean
    case Regular(name, blocks) => if Leaks(secrets, FileOf(blocks)) then Leaked(name) else Clean
  }

  /** The walk stops at the first entry that is not clean: an unexpected link, or a file that leaks. */
  method AssertTreeHasNoPlaintext(entries: seq<Entry>, secrets: seq<seq<Byte>>) returns (o: Outcome)
    ensures o.Clean? <==> forall e :: e in entries ==> EntryOutcome(e, secrets).Clean?
    ensures o.Clean? <==> Symlink !in entries
                          && forall name, blocks :: Regular(name, blocks) in entries ==> !Leaks(secrets, FileOf(blocks))
    ensures !o.Clean? ==> exists k :: 0 <= k < |entries| && o == EntryOutcome(entries[k], secrets)
                                      && forall j :: 0 <= j < k ==> EntryOutcome(entries[j], secrets).Clean?
    ensures o == UnexpectedSymlink ==> Symlink in entries
    ensures o.Leaked? ==> exists blocks :: Regular(o.name, blocks) in entries && Leaks(secrets, FileOf(blocks))
  {
    for k := 0 to |entries|
      invariant forall j :: 0 <= j < k ==> EntryOutcome(entries[j], secrets).Clean?
    {
      match entries[k] {
        case Symlink =>
          assert EntryOutcome(entries[k], secrets) == UnexpectedSymlink && entries[k] in entries;
          return UnexpectedSymlink;
        case Directory =>
        case Regular(name, blocks) =>
          var leaks := ScanFile(blocks, secrets);
          if leaks {
            assert EntryOutcome(entries[k], secrets) == Leaked(name) && Regular(name, blocks) in entries;
            return Leaked(name);
          }
      }
    }
    return Clean;
  }

  // ---------------------------------------------------------------------------------------------

  /** The relay's write loop: `accepted(k)` is what the operating system takes on call `k`, at most
      what it is offered. Success means every byte was written once and in order; a call that takes
      nothing stops the loop with a proper prefix written. */
  method WriteAll(data: seq<Byte>, accepted: nat -> int) returns (sink: seq<Byte>, ok: bool, calls: nat)
    ensures ok ==> sink == data && calls <= |data|
    ensures !ok ==> sink < data && 0 < calls && accepted(calls - 1) <= 0
    ensures forall k :: 0 <= k < (if ok then calls else calls - 1) ==> accepted(k) > 0
  {
    var remaining := data;
    sink, calls := [], 0;
    while remaining != []
      invariant data == sink + remaining
      invariant calls <= |sink|
      invariant forall k :: 0 <= k < calls ==> accepted(k) > 0
      decreases |remaining|
    {
      var written := accepted(calls);
      calls := calls + 1;
      if written <= 0 {
        return sink, false, calls;
      }
      written := if written > |remaining| then |remaining| else written;
      sink := sink + remaining[..written];
      remaining := remaining[written..];
    }
    return sink, true, calls;
  }
}

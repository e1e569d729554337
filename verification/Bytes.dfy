/** Byte strings and contiguous occurrence, shared by the streaming models. */
module Bytes {
  newtype Byte = x: int | 0 <= x < 256

  /** `needle` is a contiguous part of `hay` that starts at `i`. */
  predicate OccursAt<T(==)>(needle: seq<T>, hay: seq<T>, i: int)
  {
    0 <= i <= |hay| - |needle| && hay[i..i + |needle|] == needle
  }

  /** Python's `needle in hay` for byte strings and text. */
  predicate Occurs<T(==)>(needle: seq<T>, hay: seq<T>)
  {
    exists i | 0 <= i <= |hay| - |needle| :: OccursAt(needle, hay, i)
  }

  function Concat<T>(parts: seq<seq<T>>): (r: seq<T>)
  {
    if parts == [] then [] else parts[0] + Concat(parts[1..])
  }

  lemma {:induction false} ConcatSnoc<T>(parts: seq<seq<T>>, last: seq<T>)
    ensures Concat(parts + [last]) == Concat(parts) + last
  {
    if parts == [] {
      assert parts + [last] == [last];
      assert Concat([last][1..]) == [];
    } else {
      ConcatSnoc(parts[1..], last);
      assert (parts + [last])[1..] == parts[1..] + [last];
    }
  }

  lemma OccursInside<T>(needle: seq<T>, before: seq<T>, hay: seq<T>, after: seq<T>)
    requires Occurs(needle, hay)
    ensures Occurs(needle, before + hay + after)
  {
    var i :| 0 <= i <= |hay| - |needle| && OccursAt(needle, hay, i);
    var whole := before + hay + after;
    assert whole[|before| + i..|before| + i + |needle|] == hay[i..i + |needle|];
    assert OccursAt(needle, whole, |before| + i);
  }
}

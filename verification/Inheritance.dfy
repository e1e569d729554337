/** Two resolvers of inherited profile entries: the docs check's memoised `resolve`, and the static
    evaluation's `effective` with its guard against revisits. */
module Inheritance {
  import opened Options
  import opened Sets

  /** A profile's entry under one key: a list of names, or a single string such as `all`. */
  datatype Declared = Names(names: set<string>) | Text(text: string)

  /** `inherit` is absent when the source has no parent or an empty one. */
  datatype Profile = Profile(declared: Declared, inherit: Option<string>)

  type Profiles = map<string, Profile>

  predicate ListValued(ps: Profiles) { forall n :: n in ps ==> ps[n].declared.Names? }

  /** `effective`: `seen` cuts a chain that comes back to itself, and a missing profile is empty. */
  function Effective(ps: Profiles, universe: set<string>, name: string, seen: set<string>): set<string>
    decreases |ps.Keys - seen|
  {
    if name in seen || name !in ps then {}
    else
      match ps[name].declared
      case Text(text) => if text == "all" then universe else {text}
      case Names(own) =>
        assert ps.Keys - (seen + {name}) < ps.Keys - seen by { assert name in ps.Keys - seen; }
        SubsetSize(ps.Keys - (seen + {name}), ps.Keys - seen);
        own + (match ps[name].inherit
               case None => {}
               case Some(parent) => Effective(ps, universe, parent, seen + {name}))
  }

  /** A string stands for itself, or for the whole universe when it says `all`; its parent adds nothing. */
  lemma TextStandsAlone(ps: Profiles, universe: set<string>, name: string, text: string)
    requires name in ps && ps[name].declared == Text(text)
    ensures Effective(ps, universe, name, {}) == if text == "all" then universe else {text}
  {}

  // ---------------------------------------------------------------------------------------------
  // Chains of parents.

  /** The chain of parents from `name` ends after at most `n` profiles, all of them present. */
  predicate Ends(ps: Profiles, name: string, n: nat)
    decreases n
  {
    n > 0 && name in ps && (ps[name].inherit.Some? ==> Ends(ps, ps[name].inherit.value, n - 1))
  }

  ghost predicate Grounded(ps: Profiles, name: string) { exists n :: Ends(ps, name, n) }

  /** What a string adds as a collection is its characters. */
  function Own(p: Profile): set<string>
  {
    match p.declared
    case Names(own) => own
    case Text(text) => set i | 0 <= i < |text| :: [text[i]]
  }

  /** Everything declared along a chain that ends. */
  function Along(ps: Profiles, name: string, n: nat): set<string>
    requires Ends(ps, name, n)
    decreases n
  {
    Own(ps[name]) + (if ps[name].inherit.Some? then Along(ps, ps[name].inherit.value, n - 1) else {})
  }

  /** The profile `k` parents up. */
  function Ancestor(ps: Profiles, name: string, k: nat): (a: Option<string>)
    ensures a.Some? ==> a.value in ps
    decreases k
  {
    if name !in ps then None
    else if k == 0 then Some(name)
    else if ps[name].inherit.None? then None
    else Ancestor(ps, ps[name].inherit.value, k - 1)
  }

  predicate DeclaredBy(ps: Profiles, name: string, k: nat, gate: string)
  {
    var a := Ancestor(ps, name, k);
    a.Some?
    && match ps[a.value].declared
       case Names(names) => gate in names
       case Text(text) => |gate| == 1 && gate[0] in text
  }

  lemma OwnIsDeclared(ps: Profiles, name: string, gate: string)
    requires name in ps
    ensures gate in Own(ps[name]) <==> DeclaredBy(ps, name, 0, gate)
  {
    if ps[name].declared.Text? && |gate| == 1 {
      assert gate == [gate[0]];
    }
  }

  /** Along a chain that ends an entry counts exactly when the profile or some ancestor declares it; a
      string declares its characters. */
  lemma {:induction false} AlongIsDeclared(ps: Profiles, name: string, n: nat, gate: string)
    requires Ends(ps, name, n)
    ensures gate in Along(ps, name, n) <==> exists k: nat :: DeclaredBy(ps, name, k, gate)
    decreases n
  {
    OwnIsDeclared(ps, name, gate);
    if ps[name].inherit.Some? {
      var parent := ps[name].inherit.value;
      AlongIsDeclared(ps, parent, n - 1, gate);
      if k: nat :| DeclaredBy(ps, parent, k, gate) {
        assert Ancestor(ps, name, k + 1) == Ancestor(ps, parent, k);
        assert DeclaredBy(ps, name, k + 1, gate);
      }
      if k: nat :| k > 0 && DeclaredBy(ps, name, k, gate) {
        assert DeclaredBy(ps, parent, k - 1, gate);
      }
    } else {
      assert forall k: nat :: k > 0 ==> Ancestor(ps, name, k).None?;
    }
  }

  /** The profiles up to `k` parents up are all there, outside `seen`, and different from one another. */
  ghost predicate Fresh(ps: Profiles, name: string, k: nat, seen: set<string>)
  {
    && (forall j: nat :: j <= k ==> Ancestor(ps, name, j).Some? && Ancestor(ps, name, j).value !in seen)
    && (forall i: nat, j: nat :: i < j <= k ==> Ancestor(ps, name, i) != Ancestor(ps, name, j))
  }

  lemma {:induction false} FreshCounts(ps: Profiles, universe: set<string>, name: string, k: nat, gate: string,
                                       seen: set<string>)
    requires ListValued(ps) && DeclaredBy(ps, name, k, gate) && Fresh(ps, name, k, seen)
    ensures gate in Effective(ps, universe, name, seen)
    decreases k
  {
    assert Ancestor(ps, name, 0).Some? && Ancestor(ps, name, 0).value !in seen;
    if k > 0 {
      assert Ancestor(ps, name, k).Some?;
      var parent := ps[name].inherit.value;
      assert forall j: nat :: Ancestor(ps, name, j + 1) == Ancestor(ps, parent, j);
      forall j: nat | j <= k - 1
        ensures Ancestor(ps, parent, j).Some? && Ancestor(ps, parent, j).value !in seen + {name}
      {
        assert Ancestor(ps, parent, j) == Ancestor(ps, name, j + 1) != Ancestor(ps, name, 0);
      }
      forall i: nat, j: nat | i < j <= k - 1 ensures Ancestor(ps, parent, i) != Ancestor(ps, parent, j) {
        assert Ancestor(ps, parent, i) == Ancestor(ps, name, i + 1);
        assert Ancestor(ps, parent, j) == Ancestor(ps, name, j + 1);
      }
      FreshCounts(ps, universe, parent, k - 1, gate, seen + {name});
    }
  }

  lemma {:induction false} EffectiveIsAncestral(ps: Profiles, universe: set<string>, name: string, gate: string,
                                                seen: set<string>) returns (k: nat)
    requires ListValued(ps) && gate in Effective(ps, universe, name, seen)
    ensures DeclaredBy(ps, name, k, gate)
    decreases |ps.Keys - seen|
  {
    if gate in ps[name].declared.names {
      k := 0;
    } else {
      assert ps.Keys - (seen + {name}) < ps.Keys - seen by { assert name in ps.Keys - seen; }
      SubsetSize(ps.Keys - (seen + {name}), ps.Keys - seen);
      var n := EffectiveIsAncestral(ps, universe, ps[name].inherit.value, gate, seen + {name});
      k := n + 1;
    }
  }

  lemma {:induction false} AncestorAdds(ps: Profiles, name: string, i: nat, d: nat)
    requires Ancestor(ps, name, i).Some?
    ensures Ancestor(ps, name, i + d) == Ancestor(ps, Ancestor(ps, name, i).value, d)
    decreases i
  {
    if i > 0 { AncestorAdds(ps, ps[name].inherit.value, i - 1, d); }
  }

  /** The nearest declaration of an entry is reached without meeting any profile twice. */
  lemma {:induction false} NearestIsFresh(ps: Profiles, name: string, k: nat, gate: string)
    requires DeclaredBy(ps, name, k, gate) && forall j: nat :: j < k ==> !DeclaredBy(ps, name, j, gate)
    ensures Fresh(ps, name, k, {})
  {
    forall j: nat | j <= k ensures Ancestor(ps, name, j).Some? { EarlierAncestor(ps, name, j, k); }
    forall i: nat, j: nat | i < j <= k ensures Ancestor(ps, name, i) != Ancestor(ps, name, j) {
      if Ancestor(ps, name, i) == Ancestor(ps, name, j) {
        AncestorAdds(ps, name, i, k - j);
        AncestorAdds(ps, name, j, k - j);
        assert DeclaredBy(ps, name, i + (k - j), gate);
      }
    }
  }

  lemma {:induction false} EarlierAncestor(ps: Profiles, name: string, j: nat, k: nat)
    requires j <= k && Ancestor(ps, name, k).Some?
    ensures Ancestor(ps, name, j).Some?
    decreases k
  {
    if j > 0 { EarlierAncestor(ps, ps[name].inherit.value, j - 1, k - 1); }
  }

  lemma {:induction false} NearestDeclaration(ps: Profiles, name: string, k: nat, gate: string) returns (n: nat)
    requires DeclaredBy(ps, name, k, gate)
    ensures DeclaredBy(ps, name, n, gate) && forall j: nat :: j < n ==> !DeclaredBy(ps, name, j, gate)
    decreases k
  {
    if j: nat :| j < k && DeclaredBy(ps, name, j, gate) { n := NearestDeclaration(ps, name, j, gate); } else { n := k; }
  }

  /** The guarded recursion on any graph, cyclic or broken: an entry counts exactly when the profile or
      some ancestor declares it. */
  lemma EffectiveIsDeclared(ps: Profiles, universe: set<string>, name: string, gate: string)
    requires ListValued(ps)
    ensures gate in Effective(ps, universe, name, {}) <==> exists k: nat :: DeclaredBy(ps, name, k, gate)
  {
    if gate in Effective(ps, universe, name, {}) {
      var k := EffectiveIsAncestral(ps, universe, name, gate, {});
    }
    if k: nat :| DeclaredBy(ps, name, k, gate) {
      var n := NearestDeclaration(ps, name, k, gate);
      NearestIsFresh(ps, name, n, gate);
      FreshCounts(ps, universe, name, n, gate, {});
    }
  }

  lemma {:induction false} EndsMonotone(ps: Profiles, name: string, m: nat, n: nat)
    requires m <= n && Ends(ps, name, m)
    ensures Ends(ps, name, n) && Along(ps, name, m) == Along(ps, name, n)
    decreases n
  {
    if ps[name].inherit.Some? { EndsMonotone(ps, ps[name].inherit.value, m - 1, n - 1); }
  }

  /** The shortest length at which the chain ends. */
  predicate Depth(ps: Profiles, name: string, n: nat)
  {
    n > 0 && Ends(ps, name, n) && !Ends(ps, name, n - 1)
  }

  lemma {:induction false} DepthExists(ps: Profiles, name: string, n: nat) returns (d: nat)
    requires Ends(ps, name, n)
    ensures Depth(ps, name, d) && d <= n
  {
    if Ends(ps, name, n - 1) { d := DepthExists(ps, name, n - 1); } else { d := n; }
  }

  lemma ParentDepth(ps: Profiles, name: string, n: nat)
    requires Depth(ps, name, n) && ps[name].inherit.Some?
    ensures Depth(ps, ps[name].inherit.value, n - 1)
  {
    assert Ends(ps, ps[name].inherit.value, n - 1);
    assert !Ends(ps, ps[name].inherit.value, n - 2);
  }

  lemma LaterDoesNotEnd(ps: Profiles, x: string, m: nat, n: nat)
    requires m <= n && !Ends(ps, x, n)
    ensures !Ends(ps, x, m)
  {
    if Ends(ps, x, m) { EndsMonotone(ps, x, m, n); }
  }

  /** On a chain that ends, the guard of `effective` never cuts anything. */
  lemma {:induction false} EffectiveIsAlong(ps: Profiles, universe: set<string>, name: string, n: nat,
                                            seen: set<string>)
    requires ListValued(ps) && Depth(ps, name, n)
    requires forall x :: x in seen ==> !Ends(ps, x, n)
    ensures Effective(ps, universe, name, seen) == Along(ps, name, n)
    decreases n
  {
    if ps[name].inherit.Some? {
      ParentDepth(ps, name, n);
      forall x | x in seen + {name} ensures !Ends(ps, x, n - 1) {
        if x in seen { LaterDoesNotEnd(ps, x, n - 1, n); }
      }
      EffectiveIsAlong(ps, universe, ps[name].inherit.value, n - 1, seen + {name});
    }
  }

  /** A chain that ends does so within the number of profiles: it never repeats one. */
  lemma {:induction false} DepthIsBounded(ps: Profiles, name: string, n: nat, seen: set<string>)
    requires Depth(ps, name, n) && seen <= ps.Keys
    requires forall x :: x in seen ==> !Ends(ps, x, n)
    ensures n + |seen| <= |ps|
    decreases n
  {
    assert name !in seen;
    if ps[name].inherit.Some? {
      ParentDepth(ps, name, n);
      forall x | x in seen + {name} ensures !Ends(ps, x, n - 1) {
        if x in seen { LaterDoesNotEnd(ps, x, n - 1, n); }
      }
      DepthIsBounded(ps, ps[name].inherit.value, n - 1, seen + {name});
    } else {
      assert n == 1;
      SubsetSize(seen + {name}, ps.Keys);
    }
  }

  lemma GroundedWithinSize(ps: Profiles, name: string)
    ensures Grounded(ps, name) <==> Ends(ps, name, |ps|)
  {
    if Grounded(ps, name) {
      var n :| Ends(ps, name, n);
      var d := DepthExists(ps, name, n);
      DepthIsBounded(ps, name, d, {});
      EndsMonotone(ps, name, d, |ps|);
    }
  }

  lemma GroundedIsEffective(ps: Profiles, universe: set<string>, name: string, n: nat)
    requires ListValued(ps) && Ends(ps, name, n)
    ensures Along(ps, name, n) == Effective(ps, universe, name, {})
  {
    var d := DepthExists(ps, name, n);
    EffectiveIsAlong(ps, universe, name, d, {});
    EndsMonotone(ps, name, d, n);
  }

  // ---------------------------------------------------------------------------------------------

  datatype Outcome = Gates(gates: set<string>) | KeyError | RecursionError

  /** The memoised resolver, with its cache shared by all queries. */
  class Resolver {
    const profiles: Profiles
    var cache: map<string, set<string>>

    constructor (profiles: Profiles)
      ensures this.profiles == profiles && cache == map[] && Valid()
    {
      this.profiles := profiles;
      cache := map[];
    }

    /** Every cached entry is the union along its chain. */
    ghost predicate Valid()
      reads this
    {
      forall x :: x in cache ==> Ends(profiles, x, |profiles|) && cache[x] == Along(profiles, x, |profiles|)
    }

    /** One query; `depth` is the number of frames the interpreter still allows. */
    method Resolve(name: string, depth: nat) returns (r: Outcome)
      requires Valid()
      modifies this
      decreases depth
      ensures Valid()
      ensures forall x :: x in old(cache) ==> x in cache && cache[x] == old(cache[x])
      ensures r.Gates? ==> Ends(profiles, name, |profiles|) && r.gates == Along(profiles, name, |profiles|)
                           && name in cache && cache[name] == r.gates
      ensures Ends(profiles, name, depth) ==> r.Gates?
      ensures r.KeyError? ==> !Grounded(profiles, name)
    {
      GroundedWithinSize(profiles, name);
      if depth == 0 {
        return RecursionError;
      }
      if name in cache {
        return Gates(cache[name]);
      }
      if name !in profiles {
        return KeyError;
      }
      var p := profiles[name];
      var gates := Own(p);
      if p.inherit.Some? {
        GroundedWithinSize(profiles, p.inherit.value);
        GroundedParent(profiles, name);
        var parent := Resolve(p.inherit.value, depth - 1);
        if !parent.Gates? {
          return parent;
        }
        gates := gates + parent.gates;
      } else {
        assert Ends(profiles, name, 1);
      }
      AlongParent(profiles, name);
      cache := cache[name := gates];
      return Gates(gates);
    }

    /** All profiles in any order: with room for every chain, each entry is what `effective` gives. */
    method ResolveAll(order: seq<string>, depth: nat, ghost universe: set<string>)
      returns (r: map<string, set<string>>, ok: bool)
      requires Valid() && ListValued(profiles) && depth >= |profiles|
      modifies this
      ensures Valid()
      ensures ok <==> forall n :: n in order ==> Grounded(profiles, n)
      ensures ok ==> r.Keys == (set n | n in order)
      ensures forall n :: n in r ==> r[n] == Effective(profiles, universe, n, {})
    {
      r := map[];
      for i := 0 to |order|
        invariant Valid()
        invariant forall n :: n in order[..i] ==> Grounded(profiles, n)
        invariant r.Keys == (set n | n in order[..i])
        invariant forall n :: n in r ==> r[n] == Effective(profiles, universe, n, {})
      {
        var name := order[i];
        GroundedWithinSize(profiles, name);
        if Ends(profiles, name, |profiles|) { EndsMonotone(profiles, name, |profiles|, depth); }
        var one := Resolve(name, depth);
        if !one.Gates? {
          assert name in order && !Grounded(profiles, name);
          return r, false;
        }
        GroundedIsEffective(profiles, universe, name, |profiles|);
        r := r[name := one.gates];
        assert order[..i + 1] == order[..i] + [name];
      }
      assert order[..|order|] == order;
      return r, true;
    }
  }

  lemma GroundedParent(ps: Profiles, name: string)
    requires name in ps && ps[name].inherit.Some?
    ensures Grounded(ps, name) <==> Grounded(ps, ps[name].inherit.value)
  {
    var parent := ps[name].inherit.value;
    if n: nat :| Ends(ps, name, n) { assert Ends(ps, parent, n - 1); }
    if n: nat :| Ends(ps, parent, n) { assert Ends(ps, name, n + 1); }
  }

  lemma AlongParent(ps: Profiles, name: string)
    requires name in ps
    requires ps[name].inherit.Some? ==> Ends(ps, ps[name].inherit.value, |ps|)
    ensures Ends(ps, name, |ps|)
    ensures Along(ps, name, |ps|) == Own(ps[name])
              + if ps[name].inherit.Some? then Along(ps, ps[name].inherit.value, |ps|) else {}
  {
    var inherit := ps[name].inherit;
    if inherit.Some? {
      assert Ends(ps, name, |ps| + 1);
      EndsMonotone(ps, inherit.value, |ps|, |ps|);
    } else {
      assert Ends(ps, name, 1);
    }
    GroundedWithinSize(ps, name);
    if inherit.Some? { EndsMonotone(ps, inherit.value, |ps| - 1, |ps|); }
  }

  /** Where the two resolvers part: under a parent that does not exist no depth lets the memoised one
      answer, and the guarded one gives the child's own entries. */
  lemma DanglingParentSplits(ps: Profiles, universe: set<string>, child: string, parent: string)
    requires child in ps && ps[child].declared.Names? && ps[child].inherit == Some(parent) && parent !in ps
    ensures !Grounded(ps, child)
    ensures Effective(ps, universe, child, {}) == ps[child].declared.names
  {
    GroundedParent(ps, child);
    assert forall n: nat :: !Ends(ps, parent, n);
    assert Effective(ps, universe, parent, {child}) == {};
    assert {} + {child} == {child};
  }

  // ---------------------------------------------------------------------------------------------

  lemma {:induction false} LeavingOutTheChild(ps: Profiles, universe: set<string>, child: string, parent: string,
                                              name: string, seen: set<string>)
    requires child in ps && ps[child].declared.Names? && ps[child].inherit == Some(parent)
    requires name == parent || parent in seen
    ensures Effective(ps, universe, name, seen)
            <= ps[child].declared.names + Effective(ps, universe, name, seen + {child})
    decreases |ps.Keys - seen|
  {
    if name !in seen && name in ps && ps[name].declared.Names? {
      assert ps.Keys - (seen + {name}) < ps.Keys - seen by { assert name in ps.Keys - seen; }
      SubsetSize(ps.Keys - (seen + {name}), ps.Keys - seen);
      if name != child && ps[name].inherit.Some? {
        LeavingOutTheChild(ps, universe, child, parent, ps[name].inherit.value, seen + {name});
        assert seen + {name} + {child} == seen + {child} + {name};
      }
    }
  }

  /** A list-valued child holds everything its parent holds, on cyclic and broken graphs too. */
  lemma ParentInsideChild(ps: Profiles, universe: set<string>, child: string, parent: string)
    requires child in ps && ps[child].declared.Names? && ps[child].inherit == Some(parent)
    ensures Effective(ps, universe, parent, {}) <= Effective(ps, universe, child, {})
  {
    LeavingOutTheChild(ps, universe, child, parent, parent, {});
    assert {} + {child} == {child};
  }
}

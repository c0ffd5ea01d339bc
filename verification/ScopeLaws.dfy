/**
What variable lookup and the flattened map mean, said of the chain of a scope by position: the nearest
scope that holds a name decides, sub-scopes before variables; defaults come last, from the root for the
lookup and from the outermost scope for the map. A sub-scope shows as the map of its own chain.
*/
module ScopeLaws {
  import opened BlockTree
  import opened Variables

  /** Number of scopes above. */
  function Height(s: Scope): nat
    decreases s
  {
    if s.parent.Parent? then Height(s.parent.scope) + 1 else 0
  }

  /** The scope `k` steps up. */
  function ScopeAt(s: Scope, k: nat): (r: Scope)
    requires k <= Height(s)
    ensures r == s || r < s
    decreases k
  {
    if k == 0 then s else ScopeAt(s.parent.scope, k - 1)
  }

  /** How far up a flattening looks. */
  function Reach(s: Scope, skipParent: bool): (d: nat)
    ensures d <= Height(s)
  {
    if skipParent then 0 else Height(s)
  }

  predicate Has(s: Scope, name: string) {
    name in s.subScopes || name in s.vars
  }

  /** The nearest scope that has the name lies `k` steps up. */
  ghost predicate NearestAt(s: Scope, name: string, d: nat, k: nat)
    requires d <= Height(s)
  {
    k <= d && Has(ScopeAt(s, k), name) && forall j :: 0 <= j < k ==> !Has(ScopeAt(s, j), name)
  }

  ghost predicate NoneHas(s: Scope, name: string, d: nat)
    requires d <= Height(s)
  {
    forall j :: 0 <= j <= d ==> !Has(ScopeAt(s, j), name)
  }

  /** The outermost scope with a default for the name lies `k` steps up. */
  ghost predicate OutermostAt(s: Scope, name: string, d: nat, k: nat)
    requires d <= Height(s)
  {
    k <= d && name in ScopeAt(s, k).defaults && forall j :: k < j <= d ==> name !in ScopeAt(s, j).defaults
  }

  /** `v` is what this one scope holds under the name: the map of a sub-scope, else a variable. */
  ghost predicate Held(s: Scope, skipParent: bool, name: string, v: Value)
    decreases s, 0
  {
    if name in s.subScopes then v.Dict? && Shows(s.subScopes[name], skipParent, v.entries)
    else name in s.vars && v == s.vars[name]
  }

  /** `v` is what the scope and its reach hold under the name. */
  ghost predicate Shown(s: Scope, skipParent: bool, name: string, v: Value)
    decreases s, 1
  {
    var d := Reach(s, skipParent);
    || (exists k :: NearestAt(s, name, d, k) && Held(ScopeAt(s, k), skipParent, name, v))
    || (NoneHas(s, name, d) && exists k :: OutermostAt(s, name, d, k) && v == ScopeAt(s, k).defaults[name])
  }

  /** Some scope within reach has the name, as a default or otherwise. */
  ghost predicate Named(s: Scope, skipParent: bool, name: string) {
    exists k :: 0 <= k <= Reach(s, skipParent) && (Has(ScopeAt(s, k), name) || name in ScopeAt(s, k).defaults)
  }

  /** `m` is the map of a sub-scope: the names of its own chain with their values; a filter, or a flattening
      that skips parents, hides the chain. */
  ghost predicate Shows(sub: SubScope, skipParent: bool, m: map<string, Value>)
    decreases sub
  {
    var skip := skipParent || sub.Filtered?;
    forall name: string ::
      if name in m then Shown(sub.scope, skip, name, m[name]) else !Named(sub.scope, skip, name)
  }

  // ----- lookup -----

  function OwnValue(s: Scope, skipParent: bool, name: string): Value
    requires Has(s, name)
  {
    if name in s.subScopes then Dict(FlattenSub(s.subScopes[name], skipParent)) else s.vars[name]
  }

  lemma {:induction false} NearestLookup(s: Scope, name: string, k: nat)
    requires NearestAt(s, name, Height(s), k)
    ensures LookupVar(s, name) == Some(OwnValue(ScopeAt(s, k), false, name))
    decreases k
  {
    assert ScopeAt(s, 0) == s;
    if k > 0 {
      assert !Has(ScopeAt(s, 0), name);
      var p := s.parent.scope;
      forall j | 0 <= j < k - 1 ensures !Has(ScopeAt(p, j), name) {
        assert ScopeAt(s, j + 1) == ScopeAt(p, j);
      }
      NearestLookup(p, name, k - 1);
    }
  }

  lemma {:induction false} NoneLookup(s: Scope, name: string)
    requires NoneHas(s, name, Height(s))
    ensures LookupVar(s, name) == Entry(ScopeAt(s, Height(s)).defaults, name)
    decreases s
  {
    assert ScopeAt(s, 0) == s;
    assert !Has(ScopeAt(s, 0), name);
    if s.parent.Parent? {
      var p := s.parent.scope;
      forall j | 0 <= j <= Height(p) ensures !Has(ScopeAt(p, j), name) {
        assert ScopeAt(s, j + 1) == ScopeAt(p, j);
      }
      NoneLookup(p, name);
    }
  }

  /** Either no scope within reach has the name, or there is a nearest one. */
  lemma {:induction false} FindNearest(s: Scope, name: string, d: nat) returns (k: nat)
    requires d <= Height(s)
    ensures NoneHas(s, name, d) || NearestAt(s, name, d, k)
  {
    k := 0;
    while k <= d && !Has(ScopeAt(s, k), name)
      invariant k <= d + 1
      invariant forall j :: 0 <= j < k ==> !Has(ScopeAt(s, j), name)
    {
      k := k + 1;
    }
  }

  lemma {:induction false} NearestUnique(s: Scope, name: string, d: nat, j: nat, k: nat)
    requires d <= Height(s) && NearestAt(s, name, d, j) && NearestAt(s, name, d, k)
    ensures j == k
  {
  }

  // ----- defaults -----

  lemma {:induction false} OutermostIs(s: Scope, name: string, k: nat)
    requires OutermostAt(s, name, Height(s), k)
    ensures OutermostDefault(s, name) == Some(ScopeAt(s, k).defaults[name])
    decreases s
  {
    if k > 0 {
      var p := s.parent.scope;
      assert ScopeAt(s, k) == ScopeAt(p, k - 1);
      forall j | k - 1 < j <= Height(p) ensures name !in ScopeAt(p, j).defaults {
        assert ScopeAt(s, j + 1) == ScopeAt(p, j);
      }
      OutermostIs(p, name, k - 1);
    } else if s.parent.Parent? {
      var p := s.parent.scope;
      forall j | 0 <= j <= Height(p) ensures name !in ScopeAt(p, j).defaults {
        assert ScopeAt(s, j + 1) == ScopeAt(p, j);
      }
      NoDefault(p, name);
    }
  }

  lemma {:induction false} NoDefault(s: Scope, name: string)
    requires forall j :: 0 <= j <= Height(s) ==> name !in ScopeAt(s, j).defaults
    ensures OutermostDefault(s, name) == None
    decreases s
  {
    assert ScopeAt(s, 0) == s;
    if s.parent.Parent? {
      var p := s.parent.scope;
      forall j | 0 <= j <= Height(p) ensures name !in ScopeAt(p, j).defaults {
        assert ScopeAt(s, j + 1) == ScopeAt(p, j);
      }
      NoDefault(p, name);
    }
  }

  /** Either no scope within reach has a default for the name, or there is an outermost one. */
  lemma {:induction false} FindOutermost(s: Scope, name: string, d: nat) returns (k: nat)
    requires d <= Height(s)
    ensures (forall j :: 0 <= j <= d ==> name !in ScopeAt(s, j).defaults) || OutermostAt(s, name, d, k)
  {
    var n := d + 1;
    while n > 0 && name !in ScopeAt(s, n - 1).defaults
      invariant 0 <= n <= d + 1
      invariant forall j :: n <= j <= d ==> name !in ScopeAt(s, j).defaults
    {
      n := n - 1;
    }
    k := if n > 0 then n - 1 else 0;
  }

  // ----- the flattened map, name by name -----

  lemma {:induction false} FlattenOwn(s: Scope, name: string)
    ensures var e := Entry(Flatten(s, map[], true), name);
            && ScopeAt(s, 0) == s
            && (NearestAt(s, name, 0, 0) <==> Has(s, name)) && (NoneHas(s, name, 0) <==> !Has(s, name))
            && (Named(s, true, name) <==> Has(s, name) || name in s.defaults)
            && e == if Has(s, name) then Some(OwnValue(s, true, name)) else Entry(s.defaults, name)
  {
    assert ScopeAt(s, 0) == s;
    var own := Fill(Fill(map[], SubMaps(s, true)), s.vars);
    assert Flatten(s, map[], true) == Fill(own, s.defaults);
    assert name in own <==> Has(s, name);
    if Has(s, name) {
      assert own[name] == OwnValue(s, true, name);
    }
    if Has(s, name) || name in s.defaults {
      assert Has(ScopeAt(s, 0), name) || name in ScopeAt(s, 0).defaults;
    }
  }

  /** What the flattened map of a scope holds, by the positions of its chain. */
  lemma {:induction false} FlattenAt(s: Scope, skip: bool, name: string) returns (k: nat)
    ensures var d, e := Reach(s, skip), Entry(Flatten(s, map[], skip), name);
            || (NearestAt(s, name, d, k) && e == Some(OwnValue(ScopeAt(s, k), skip, name)))
            || (NoneHas(s, name, d) && OutermostAt(s, name, d, k) && e == Some(ScopeAt(s, k).defaults[name]))
            || (NoneHas(s, name, d) && !Named(s, skip, name) && e == None)
  {
    var d := Reach(s, skip);
    if skip {
      FlattenOwn(s, name);
      k := 0;
      assert Has(s, name) || name !in s.defaults || OutermostAt(s, name, 0, 0);
    } else {
      k := FindNearest(s, name, d);
      FlattenResolves(s, map[], name);
      if NearestAt(s, name, d, k) {
        NearestLookup(s, name, k);
      } else {
        NoneLookup(s, name);
        k := FindOutermost(s, name, d);
        if OutermostAt(s, name, d, k) {
          OutermostIs(s, name, k);
          RootDefault(s, name, k);
        } else {
          NoDefault(s, name);
          NotNamed(s, name);
        }
      }
    }
  }

  lemma {:induction false} NotNamed(s: Scope, name: string)
    requires NoneHas(s, name, Height(s)) && forall j :: 0 <= j <= Height(s) ==> name !in ScopeAt(s, j).defaults
    ensures !Named(s, false, name) && name !in ScopeAt(s, Height(s)).defaults
  {
    forall k: nat | k <= Height(s) ensures !Has(ScopeAt(s, k), name) && name !in ScopeAt(s, k).defaults {
    }
  }

  /** A default of the root is the outermost one. */
  lemma {:induction false} RootDefault(s: Scope, name: string, k: nat)
    requires OutermostAt(s, name, Height(s), k)
    ensures name in ScopeAt(s, Height(s)).defaults ==> k == Height(s)
  {
  }

  lemma {:induction false} HeldIff(s: Scope, skip: bool, name: string, v: Value)
    requires Has(s, name)
    ensures Held(s, skip, name, v) <==> v == OwnValue(s, skip, name)
    decreases s, 0
  {
    if name in s.subScopes && v.Dict? {
      ShowsIff(s.subScopes[name], skip, v.entries);
    }
  }

  lemma {:induction false} ShownIff(s: Scope, skip: bool, name: string, v: Value)
    ensures Shown(s, skip, name, v) <==> Entry(Flatten(s, map[], skip), name) == Some(v)
    ensures Named(s, skip, name) <==> name in Flatten(s, map[], skip)
    decreases s, 1
  {
    var d := Reach(s, skip);
    var k := FlattenAt(s, skip, name);
    if NearestAt(s, name, d, k) {
      HeldIff(ScopeAt(s, k), skip, name, v);
      if Shown(s, skip, name, v) {
        assert Has(ScopeAt(s, k), name);
        var j :| NearestAt(s, name, d, j) && Held(ScopeAt(s, j), skip, name, v);
        NearestUnique(s, name, d, j, k);
      }
    } else if OutermostAt(s, name, d, k) {
      assert name in ScopeAt(s, k).defaults;
      if Shown(s, skip, name, v) {
        var j :| OutermostAt(s, name, d, j) && v == ScopeAt(s, j).defaults[name];
        assert j == k;
      }
    }
  }

  /** The law of the flattened map: a map is the one of a sub-scope if and only if it holds exactly the names
      of the sub-scope's own chain, each with the value the chain holds. */
  lemma {:induction false} ShowsIff(sub: SubScope, skipParent: bool, m: map<string, Value>)
    ensures Shows(sub, skipParent, m) <==> m == FlattenSub(sub, skipParent)
    decreases sub
  {
    var skip := skipParent || sub.Filtered?;
    var f := FlattenSub(sub, skipParent);
    assert f == Flatten(sub.scope, map[], skip);
    forall name: string
      ensures (if name in m then Shown(sub.scope, skip, name, m[name]) else !Named(sub.scope, skip, name))
              <==> Entry(m, name) == Entry(f, name)
    {
      ShownIff(sub.scope, skip, name, if name in m then m[name] else Atom(0));
    }
    if Shows(sub, skipParent, m) {
      assert forall name: string :: Entry(m, name) == Entry(f, name);
      SameEntries(m, f);
    }
  }

  lemma {:induction false} SameEntries(m: map<string, Value>, f: map<string, Value>)
    requires forall name: string :: Entry(m, name) == Entry(f, name)
    ensures m == f
  {
    forall name | name in m ensures name in f && f[name] == m[name] {
      assert Entry(m, name) == Entry(f, name);
    }
    forall name | name in f ensures name in m {
      assert Entry(m, name) == Entry(f, name);
    }
  }

  /** The law of the lookup: it finds `v` if and only if the nearest scope of the chain that has the name as
      sub-scope or variable holds `v`, or no scope has it and `v` is its default in the root. */
  lemma {:induction false} LookupIff(s: Scope, name: string, v: Value)
    ensures LookupVar(s, name) == Some(v) <==>
            || (exists k :: NearestAt(s, name, Height(s), k) && Held(ScopeAt(s, k), false, name, v))
            || (NoneHas(s, name, Height(s)) && Entry(ScopeAt(s, Height(s)).defaults, name) == Some(v))
  {
    var d := Height(s);
    var k := FindNearest(s, name, d);
    if NearestAt(s, name, d, k) {
      NearestLookup(s, name, k);
      HeldIff(ScopeAt(s, k), false, name, v);
      assert Has(ScopeAt(s, k), name);
      forall j | NearestAt(s, name, d, j) ensures j == k {
        if j >= 0 { NearestUnique(s, name, d, j, k); }
      }
    } else {
      NoneLookup(s, name);
    }
  }
}

/**
Variable scopes: lookup through the chain of parent scopes against the flattened map of a scope.
Scopes are finite and acyclic, so they are values here; the class below keeps the references that
sub-scope creation is about.
*/
module Variables {
  import opened BlockTree

  /** A variable value; a nested scope shows up as a map. */
  datatype Value = Atom(id: int) | Dict(entries: map<string, Value>)

  datatype Scope = Scope(parent: ParentScope, vars: map<string, Value>, defaults: map<string, Value>,
                         subScopes: map<string, SubScope>)
  datatype ParentScope = NoParent | Parent(scope: Scope)

  /** A sub-scope, or one behind a filter that hides its parents. */
  datatype SubScope = Plain(scope: Scope) | Filtered(scope: Scope)

  /** Adds the entries whose names are not taken yet. */
  function Fill(taken: map<string, Value>, more: map<string, Value>): map<string, Value> {
    more + taken
  }

  /** The flattened map of a scope on top of the entries already taken. */
  function Flatten(s: Scope, taken: map<string, Value>, skipParent: bool): map<string, Value>
    decreases s, 1
  {
    var own := Fill(Fill(taken, SubMaps(s, skipParent)), s.vars);
    var all := if s.parent.Parent? && !skipParent then Flatten(s.parent.scope, own, false) else own;
    Fill(all, s.defaults)
  }

  function SubMaps(s: Scope, skipParent: bool): map<string, Value>
    decreases s, 0
  {
    map n | n in s.subScopes :: Dict(FlattenSub(s.subScopes[n], skipParent))
  }

  function FlattenSub(sub: SubScope, skipParent: bool): map<string, Value>
    decreases sub
  {
    match sub
    case Plain(s) => Flatten(s, map[], skipParent)
    case Filtered(s) => Flatten(s, map[], true)
  }

  /** The nearest scope that holds the name decides; defaults count at the root scope only. */
  function LookupVar(s: Scope, name: string): Option<Value>
    decreases s
  {
    if name in s.subScopes then Some(Dict(FlattenSub(s.subScopes[name], false)))
    else if name in s.vars then Some(s.vars[name])
    else if s.parent.Parent? then LookupVar(s.parent.scope, name)
    else if name in s.defaults then Some(s.defaults[name])
    else None
  }

  /** The same search without telling a missing name from a nil value. */
  function GetVar(s: Scope, name: string, nil: Value): Value
    decreases s
  {
    if name in s.subScopes then Dict(FlattenSub(s.subScopes[name], false))
    else if name in s.vars then s.vars[name]
    else if s.parent.Parent? then GetVar(s.parent.scope, name, nil)
    else if name in s.defaults then s.defaults[name]
    else nil
  }

  lemma {:induction false} GetVarIsLookup(s: Scope, name: string, nil: Value)
    ensures GetVar(s, name, nil) == match LookupVar(s, name) case Some(v) => v case None => nil
    decreases s
  {
    if s.parent.Parent? {
      GetVarIsLookup(s.parent.scope, name, nil);
    }
  }

  /** The default of the scope nearest to the root. */
  function OutermostDefault(s: Scope, name: string): Option<Value>
    decreases s
  {
    var outer := if s.parent.Parent? then OutermostDefault(s.parent.scope, name) else None;
    if outer.Some? then outer else if name in s.defaults then Some(s.defaults[name]) else None
  }

  /** Some scope of the chain other than the root holds the name as default. */
  predicate NonRootDefault(s: Scope, name: string)
    decreases s
  {
    s.parent.Parent? && (name in s.defaults || NonRootDefault(s.parent.scope, name))
  }

  /** What the flattened map holds for a name. */
  function Resolve(s: Scope, name: string): Option<Value> {
    if LookupVar(s, name).Some? then LookupVar(s, name) else OutermostDefault(s, name)
  }

  function Entry(m: map<string, Value>, name: string): Option<Value> {
    if name in m then Some(m[name]) else None
  }

  /** The flattened map, name by name: entries already taken, then the lookup, then the outermost
      default of a scope that the lookup does not ask. */
  lemma {:induction false} FlattenResolves(s: Scope, taken: map<string, Value>, name: string)
    ensures Entry(Flatten(s, taken, false), name) == if name in taken then Some(taken[name]) else Resolve(s, name)
    decreases s
  {
    if s.parent.Parent? {
      var own := Fill(Fill(taken, SubMaps(s, false)), s.vars);
      FlattenResolves(s.parent.scope, own, name);
    }
  }

  /** Where a name can be set: as a sub-scope or variable of some scope of the chain, or as a default of
      the root. */
  predicate SetInChain(s: Scope, name: string)
    decreases s
  {
    || name in s.subScopes || name in s.vars
    || if s.parent.Parent? then SetInChain(s.parent.scope, name) else name in s.defaults
  }

  /** The lookup finds exactly the names set there. */
  lemma {:induction false} LookupFinds(s: Scope, name: string)
    ensures LookupVar(s, name).Some? <==> SetInChain(s, name)
    decreases s
  {
    if s.parent.Parent? {
      LookupFinds(s.parent.scope, name);
    }
  }

  lemma {:induction false} DefaultPlaces(s: Scope, name: string)
    ensures LookupVar(s, name).Some? || OutermostDefault(s, name).Some?
            <==> LookupVar(s, name).Some? || NonRootDefault(s, name)
    decreases s
  {
    if s.parent.Parent? {
      DefaultPlaces(s.parent.scope, name);
    }
  }

  /** A name that the lookup finds has the same value in the flattened map; the flattened map holds
      exactly these names and the defaults of non-root scopes. */
  lemma {:induction false} LookupAgrees(s: Scope, name: string)
    ensures LookupVar(s, name).Some? ==> Entry(Flatten(s, map[], false), name) == LookupVar(s, name)
    ensures name in Flatten(s, map[], false) <==> SetInChain(s, name) || NonRootDefault(s, name)
  {
    FlattenResolves(s, map[], name);
    DefaultPlaces(s, name);
    LookupFinds(s, name);
  }

  /** Lookup and flattened map agree on a name if and only if it is set in the chain or no non-root scope
      has a default for it. */
  lemma {:induction false} AgreementIff(s: Scope, name: string)
    ensures Entry(Flatten(s, map[], false), name) == LookupVar(s, name)
            <==> SetInChain(s, name) || !NonRootDefault(s, name)
  {
    LookupAgrees(s, name);
    LookupFinds(s, name);
  }

  /** They do differ: a default set in a child scope. */
  lemma {:induction false} ChildDefaultDiffers(name: string, v: Value)
    ensures var s := Scope(Parent(Scope(NoParent, map[], map[], map[])), map[], map[name := v], map[]);
            LookupVar(s, name) == None && Entry(Flatten(s, map[], false), name) == Some(v)
  {
  }

  /** A filter shows the names of its scope and nothing of the parents. */
  lemma {:induction false} FilterHidesParents(s: Scope, p: ParentScope, name: string)
    ensures FlattenSub(Filtered(s), false) == FlattenSub(Filtered(s.(parent := p)), true)
    ensures name in FlattenSub(Filtered(s), false) <==> name in s.subScopes || name in s.vars || name in s.defaults
  {
    assert SubMaps(s, true) == SubMaps(s.(parent := p), true);
  }

  // ----- filling the accumulator map -----

  /** `r` is `taken` with the entries of `more` under the free names outside `rest`. */
  ghost predicate Filled(r: map<string, Value>, taken: map<string, Value>, more: map<string, Value>,
                         rest: set<string>) {
    && (forall n :: n in r <==> n in taken || (n in more && n !in rest))
    && (forall n :: n in r ==> r[n] == if n in taken then taken[n] else more[n])
  }

  lemma {:induction false} FilledAll(r: map<string, Value>, taken: map<string, Value>, more: map<string, Value>)
    requires Filled(r, taken, more, {})
    ensures r == Fill(taken, more)
  {
  }

  lemma {:induction false} FilledOne(r: map<string, Value>, taken: map<string, Value>, more: map<string, Value>,
                                     rest: set<string>, n: string)
    requires Filled(r, taken, more, rest) && n in rest && n in more
    ensures Filled(if n in r then r else r[n := more[n]], taken, more, rest - {n})
  {
  }

  method FillMap(taken: map<string, Value>, more: map<string, Value>) returns (r: map<string, Value>)
    ensures r == Fill(taken, more)
  {
    r := taken;
    var rest := more.Keys;
    while rest != {}
      invariant rest <= more.Keys && Filled(r, taken, more, rest)
      decreases |rest|
    {
      var n :| n in rest;
      FilledOne(r, taken, more, rest, n);
      rest := rest - {n};
      if n !in r {
        r := r[n := more[n]];
      }
    }
    FilledAll(r, taken, more);
  }

  method GetVarsMap(s: Scope, varsMap: map<string, Value>, skipParent: bool) returns (r: map<string, Value>)
    ensures r == Flatten(s, varsMap, skipParent)
    decreases s, 1
  {
    r := FillSubScopes(s, varsMap, skipParent);
    r := FillMap(r, s.vars);
    if s.parent.Parent? && !skipParent {
      r := GetVarsMap(s.parent.scope, r, false);
    }
    r := FillMap(r, s.defaults);
  }

  method FillSubScopes(s: Scope, taken: map<string, Value>, skipParent: bool) returns (r: map<string, Value>)
    ensures r == Fill(taken, SubMaps(s, skipParent))
    decreases s, 0
  {
    r := taken;
    ghost var more := SubMaps(s, skipParent);
    var rest := s.subScopes.Keys;
    while rest != {}
      invariant rest <= s.subScopes.Keys && Filled(r, taken, more, rest)
      decreases |rest|
    {
      var n :| n in rest;
      FilledOne(r, taken, more, rest, n);
      rest := rest - {n};
      if n in r {
        continue;
      }
      var sub := s.subScopes[n];
      var m := GetVarsMap(sub.scope, map[], sub.Filtered? || skipParent);
      assert more[n] == Dict(FlattenSub(sub, skipParent)) == Dict(m);
      r := r[n := Dict(m)];
    }
    FilledAll(r, taken, more);
  }
}

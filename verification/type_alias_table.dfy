/**
 * The type-alias registry: a table that maps types to positive integer
 * aliases and back, built from the (type, declared alias) pairs a scanner
 * yields.
 *
 * The registry is specified on values first (`Registry`, `Add`, `Build`) and
 * then implemented by the class `TypeAliasTable`, whose two map fields are
 * updated in place as the C# dictionaries are.
 *
 * A host type is the type parameter `T`, compared by identity (`==`); a null
 * type is `None`. `Type.FullName` is the parameter `fullName`, which may give
 * no name.
 */
module TypeAlias {
  import opened Wrappers
  import opened AliasHash

  /** The exceptions the registry throws. */
  datatype Error<T> =
      /** ArgumentNullException: the type is null. */
    | NullType
      /** ArgumentOutOfRangeException: the alias is zero or negative. */
    | InvalidAlias
      /** InvalidOperationException: `alias` is already bound, to `existing`. */
    | AliasConflict(incoming: T, existing: T, alias: int)
      /** ArgumentException from Dictionary.Add: `t` already has an alias. */
    | DuplicateType(t: T)

  /** The two dictionaries of a table, as values. */
  datatype Registry<T> = Registry(aliasToType: map<int, T>, typeToAlias: map<T, int>)

  function EmptyRegistry<T>(): Registry<T>
  {
    Registry(map[], map[])
  }

  /**
   * The table's invariant: every stored alias is positive and the two maps
   * are inverses of each other.
   */
  predicate Consistent<T>(r: Registry<T>)
  {
    && (forall a :: a in r.aliasToType ==>
          a > 0 && r.aliasToType[a] in r.typeToAlias && r.typeToAlias[r.aliasToType[a]] == a)
    && (forall t :: t in r.typeToAlias ==>
          r.typeToAlias[t] in r.aliasToType && r.aliasToType[r.typeToAlias[t]] == t)
  }

  /**
   * `AddTypeAlias(t, alias)` on a value: the checks in source order (null
   * type, alias <= 0, alias already bound, type already bound by the first
   * Dictionary.Add), then both directions added.
   */
  function Add<T>(r: Registry<T>, t: Option<T>, alias: int): Result<Registry<T>, Error<T>>
  {
    if t.None? then Failure(NullType)
    else if alias <= 0 then Failure(InvalidAlias)
    else if alias in r.aliasToType then Failure(AliasConflict(t.value, r.aliasToType[alias], alias))
    else if t.value in r.typeToAlias then Failure(DuplicateType(t.value))
    else Success(Registry(r.aliasToType[alias := t.value], r.typeToAlias[t.value := alias]))
  }

  /**
   * Re-adding a registered type under the alias it already has is a conflict
   * that names the type twice, not a no-op and not a duplicate-type error.
   */
  lemma AddConflictsOnOwnAlias<T>(r: Registry<T>, t: T)
    requires Consistent(r)
    requires t in r.typeToAlias
    ensures Add(r, Some(t), r.typeToAlias[t]) == Failure(AliasConflict(t, t, r.typeToAlias[t]))
  {
  }

  /**
   * On a consistent registry, `Add` succeeds exactly when the type is not null,
   * the alias is positive, and neither the alias nor the type is registered;
   * a duplicate type is reported only when it is bound to another alias.
   */
  lemma AddSucceedsIff<T>(r: Registry<T>, t: T, alias: int)
    requires Consistent(r)
    ensures Add(r, Some(t), alias).Success? <==>
              alias > 0 && alias !in r.aliasToType && t !in r.typeToAlias
    ensures Add(r, Some(t), alias) == Failure(DuplicateType(t)) ==>
              t in r.typeToAlias && r.typeToAlias[t] != alias
  {
  }

  /**
   * A successful `Add` binds `t` to `alias` both ways, adds exactly one key to
   * each map, and leaves every other entry as it was.
   */
  lemma AddBindsExactly<T>(r: Registry<T>, t: T, alias: int, r': Registry<T>)
    requires Add(r, Some(t), alias).Success? && r' == Add(r, Some(t), alias).value
    ensures r'.typeToAlias.Keys == r.typeToAlias.Keys + {t}
    ensures r'.aliasToType.Keys == r.aliasToType.Keys + {alias}
    ensures r'.typeToAlias[t] == alias && r'.aliasToType[alias] == t
    ensures forall u :: u in r.typeToAlias ==> r'.typeToAlias[u] == r.typeToAlias[u]
    ensures forall a :: a in r.aliasToType ==> r'.aliasToType[a] == r.aliasToType[a]
  {
  }

  /** A successful `Add` grows each map by exactly one entry. */
  lemma AddGrowsByOne<T>(r: Registry<T>, t: T, alias: int, r': Registry<T>)
    requires Add(r, Some(t), alias).Success? && r' == Add(r, Some(t), alias).value
    ensures |r'.typeToAlias| == |r.typeToAlias| + 1
    ensures |r'.aliasToType| == |r.aliasToType| + 1
  {
    MapSizeAfterNewKey(r.typeToAlias, t, alias);
    MapSizeAfterNewKey(r.aliasToType, alias, t);
  }

  /** Binding a key that is not yet present grows a map by one. */
  lemma MapSizeAfterNewKey<K, V>(m: map<K, V>, k: K, v: V)
    requires k !in m
    ensures |m[k := v]| == |m| + 1
  {
  }

  /** `Add` keeps the registry's invariant. */
  lemma AddPreservesConsistent<T>(r: Registry<T>, t: Option<T>, alias: int)
    requires Consistent(r)
    requires Add(r, t, alias).Success?
    ensures Consistent(Add(r, t, alias).value)
  {
  }

  /** One pair from the scanner: a type and the alias its attribute declares (0 for none). */
  datatype Candidate<T> = Candidate(t: T, declaredAlias: int)

  /** Whether the optional filter keeps a type (no filter keeps every type). */
  predicate Accepts<T>(filter: Option<T -> bool>, t: T)
  {
    filter.None? || filter.value(t)
  }

  /**
   * The alias `BuildTable` inserts for a candidate: the declared alias when it
   * is non-zero, otherwise the resolver's answer, otherwise the alias derived
   * from the full name. A non-positive alias, and so an `InvalidAlias` error,
   * can only come from a negative declared alias or from the resolver.
   */
  function ChooseAlias<T>(c: Candidate<T>, resolver: Option<T -> int>, fullName: T -> Option<Name>): (alias: int)
    ensures alias <= 0 ==> c.declaredAlias < 0 || (c.declaredAlias == 0 && resolver.Some?)
    ensures resolver.None? && c.declaredAlias >= 0 ==> alias > 0
  {
    if c.declaredAlias != 0 then c.declaredAlias
    else if resolver.Some? then resolver.value(c.t)
    else CalculateAlias(fullName(c.t))
  }

  /** The state `BuildTable` leaves behind and how it completes. */
  datatype BuildResult<T> = BuildResult(registry: Registry<T>, outcome: Outcome<Error<T>>)

  /** One iteration of `BuildTable`'s loop, applied to the registry built so far. */
  function BuildStep<T>(r: Registry<T>, c: Candidate<T>, filter: Option<T -> bool>,
                        resolver: Option<T -> int>, fullName: T -> Option<Name>): BuildResult<T>
  {
    if !Accepts(filter, c.t) then BuildResult(r, Pass)
    else match Add(r, Some(c.t), ChooseAlias(c, resolver, fullName))
      case Success(r') => BuildResult(r', Pass)
      case Failure(e) => BuildResult(r, Fail(e))
  }

  /**
   * `BuildTable` on a value: start from empty maps, process the candidates in
   * order, and stop at the first failing insertion, keeping what was added
   * before it.
   */
  function Build<T>(cs: seq<Candidate<T>>, filter: Option<T -> bool>,
                    resolver: Option<T -> int>, fullName: T -> Option<Name>): BuildResult<T>
    decreases |cs|
  {
    if cs == [] then BuildResult(EmptyRegistry(), Pass)
    else
      var prior := Build(cs[..|cs| - 1], filter, resolver, fullName);
      if prior.outcome.Fail? then prior
      else BuildStep(prior.registry, cs[|cs| - 1], filter, resolver, fullName)
  }

  /** Once a prefix of the candidates fails, the rest of them are never looked at. */
  lemma {:induction false} BuildStopsAtFailure<T>(cs: seq<Candidate<T>>, k: nat, filter: Option<T -> bool>,
                                                  resolver: Option<T -> int>, fullName: T -> Option<Name>)
    requires k <= |cs|
    requires Build(cs[..k], filter, resolver, fullName).outcome.Fail?
    ensures Build(cs, filter, resolver, fullName) == Build(cs[..k], filter, resolver, fullName)
    decreases |cs|
  {
    if k < |cs| {
      var prefix := cs[..|cs| - 1];
      assert prefix[..k] == cs[..k];
      BuildStopsAtFailure(prefix, k, filter, resolver, fullName);
    } else {
      assert cs[..k] == cs;
    }
  }

  /** Whatever `BuildTable` leaves behind, on success or failure, satisfies the invariant. */
  lemma {:induction false} BuildIsConsistent<T>(cs: seq<Candidate<T>>, filter: Option<T -> bool>,
                                                resolver: Option<T -> int>, fullName: T -> Option<Name>)
    ensures Consistent(Build(cs, filter, resolver, fullName).registry)
    decreases |cs|
  {
    if cs != [] {
      var prefix, c := cs[..|cs| - 1], cs[|cs| - 1];
      BuildIsConsistent(prefix, filter, resolver, fullName);
      var prior := Build(prefix, filter, resolver, fullName);
      if prior.outcome.Pass? && Accepts(filter, c.t) {
        var alias := ChooseAlias(c, resolver, fullName);
        if Add(prior.registry, Some(c.t), alias).Success? {
          AddPreservesConsistent(prior.registry, Some(c.t), alias);
        }
      }
    }
  }

  /**
   * Every registered type is the type of a candidate that the filter keeps,
   * bound to the alias chosen for that candidate.
   */
  lemma {:induction false} BuildOnlyFromCandidates<T>(cs: seq<Candidate<T>>, filter: Option<T -> bool>,
                                                      resolver: Option<T -> int>, fullName: T -> Option<Name>)
    ensures var r := Build(cs, filter, resolver, fullName).registry;
      forall t :: t in r.typeToAlias ==>
        exists i :: 0 <= i < |cs| && cs[i].t == t && Accepts(filter, t) &&
                    r.typeToAlias[t] == ChooseAlias(cs[i], resolver, fullName)
    decreases |cs|
  {
    if cs != [] {
      var prefix, c := cs[..|cs| - 1], cs[|cs| - 1];
      BuildOnlyFromCandidates(prefix, filter, resolver, fullName);
      var prior := Build(prefix, filter, resolver, fullName);
      var r := Build(cs, filter, resolver, fullName).registry;
      forall t | t in r.typeToAlias
        ensures exists i :: 0 <= i < |cs| && cs[i].t == t && Accepts(filter, t) &&
                            r.typeToAlias[t] == ChooseAlias(cs[i], resolver, fullName)
      {
        if t in prior.registry.typeToAlias && r.typeToAlias[t] == prior.registry.typeToAlias[t] {
          var i :| 0 <= i < |prefix| && prefix[i].t == t && Accepts(filter, t) &&
                   prior.registry.typeToAlias[t] == ChooseAlias(prefix[i], resolver, fullName);
          assert cs[i] == prefix[i];
        } else {
          assert cs[|cs| - 1] == c;
        }
      }
    }
  }

  /** A type the filter rejects appears in neither map. */
  lemma BuildSkipsRejected<T>(cs: seq<Candidate<T>>, filter: Option<T -> bool>,
                              resolver: Option<T -> int>, fullName: T -> Option<Name>, t: T)
    requires !Accepts(filter, t)
    ensures var r := Build(cs, filter, resolver, fullName).registry;
      t !in r.typeToAlias && forall a :: a in r.aliasToType ==> r.aliasToType[a] != t
  {
    BuildOnlyFromCandidates(cs, filter, resolver, fullName);
    BuildIsConsistent(cs, filter, resolver, fullName);
  }

  /**
   * When `BuildTable` completes, every candidate the filter keeps is
   * registered, both ways, under the alias chosen for it.
   */
  lemma {:induction false} BuildRegistersAccepted<T>(cs: seq<Candidate<T>>, filter: Option<T -> bool>,
                                                     resolver: Option<T -> int>, fullName: T -> Option<Name>)
    requires Build(cs, filter, resolver, fullName).outcome.Pass?
    ensures var r := Build(cs, filter, resolver, fullName).registry;
      forall i :: 0 <= i < |cs| && Accepts(filter, cs[i].t) ==>
        && cs[i].t in r.typeToAlias
        && r.typeToAlias[cs[i].t] == ChooseAlias(cs[i], resolver, fullName)
        && ChooseAlias(cs[i], resolver, fullName) in r.aliasToType
        && r.aliasToType[ChooseAlias(cs[i], resolver, fullName)] == cs[i].t
    decreases |cs|
  {
    if cs != [] {
      var prefix, c := cs[..|cs| - 1], cs[|cs| - 1];
      var prior := Build(prefix, filter, resolver, fullName);
      assert prior.outcome.Pass?;
      BuildRegistersAccepted(prefix, filter, resolver, fullName);
      forall i | 0 <= i < |prefix| ensures cs[i] == prefix[i] { }
    }
  }

  /**
   * When `BuildTable` completes, the candidates the filter keeps have pairwise
   * distinct types and pairwise distinct chosen aliases.
   */
  lemma {:induction false} BuildSuccessIsInjective<T>(cs: seq<Candidate<T>>, filter: Option<T -> bool>,
                                                      resolver: Option<T -> int>, fullName: T -> Option<Name>)
    requires Build(cs, filter, resolver, fullName).outcome.Pass?
    ensures forall i, j :: 0 <= i < j < |cs| && Accepts(filter, cs[i].t) && Accepts(filter, cs[j].t) ==>
              cs[i].t != cs[j].t &&
              ChooseAlias(cs[i], resolver, fullName) != ChooseAlias(cs[j], resolver, fullName)
    decreases |cs|
  {
    if cs != [] {
      var prefix, c := cs[..|cs| - 1], cs[|cs| - 1];
      var prior := Build(prefix, filter, resolver, fullName);
      assert prior.outcome.Pass?;
      BuildSuccessIsInjective(prefix, filter, resolver, fullName);
      BuildRegistersAccepted(prefix, filter, resolver, fullName);
      forall i, j | 0 <= i < j < |cs| && Accepts(filter, cs[i].t) && Accepts(filter, cs[j].t)
        ensures cs[i].t != cs[j].t &&
                ChooseAlias(cs[i], resolver, fullName) != ChooseAlias(cs[j], resolver, fullName)
      {
        assert cs[i] == prefix[i];
        if j < |prefix| {
          assert cs[j] == prefix[j];
        } else {
          assert cs[j] == c;
          assert Add(prior.registry, Some(c.t), ChooseAlias(c, resolver, fullName)).Success?;
        }
      }
    }
  }

  /**
   * Two kept candidates that end up with the same alias make `BuildTable`
   * fail: a collision is never resolved silently.
   */
  lemma SameAliasFailsBuild<T>(cs: seq<Candidate<T>>, filter: Option<T -> bool>,
                               resolver: Option<T -> int>, fullName: T -> Option<Name>, i: nat, j: nat)
    requires i < j < |cs|
    requires Accepts(filter, cs[i].t) && Accepts(filter, cs[j].t)
    requires ChooseAlias(cs[i], resolver, fullName) == ChooseAlias(cs[j], resolver, fullName)
    ensures Build(cs, filter, resolver, fullName).outcome.Fail?
  {
    if Build(cs, filter, resolver, fullName).outcome.Pass? {
      BuildSuccessIsInjective(cs, filter, resolver, fullName);
    }
  }

  /**
   * `BuildTable` stopped at kept candidate k: the build of the candidates
   * before k completed, its entries are the ones left in the maps, and the
   * error is the one inserting candidate k raised.
   */
  predicate StoppedAt<T(==)>(cs: seq<Candidate<T>>, k: nat, filter: Option<T -> bool>,
                         resolver: Option<T -> int>, fullName: T -> Option<Name>)
    requires k < |cs|
  {
    var before := Build(cs[..k], filter, resolver, fullName);
    var result := Build(cs, filter, resolver, fullName);
    && before.outcome.Pass?
    && Accepts(filter, cs[k].t)
    && result.registry == before.registry
    && result.outcome.Fail?
    && Add(before.registry, Some(cs[k].t), ChooseAlias(cs[k], resolver, fullName)) == Failure(result.outcome.error)
  }

  /** A failed `BuildTable` stopped at some kept candidate, keeping the entries added before it. */
  lemma {:induction false} BuildFailurePoint<T>(cs: seq<Candidate<T>>, filter: Option<T -> bool>,
                                                resolver: Option<T -> int>, fullName: T -> Option<Name>)
    requires Build(cs, filter, resolver, fullName).outcome.Fail?
    ensures exists k :: 0 <= k < |cs| && StoppedAt(cs, k, filter, resolver, fullName)
    decreases |cs|
  {
    var prefix := cs[..|cs| - 1];
    var prior := Build(prefix, filter, resolver, fullName);
    if prior.outcome.Fail? {
      BuildFailurePoint(prefix, filter, resolver, fullName);
      var k :| 0 <= k < |prefix| && StoppedAt(prefix, k, filter, resolver, fullName);
      assert prefix[..k] == cs[..k];
      assert prefix[k] == cs[k];
      assert StoppedAt(cs, k, filter, resolver, fullName);
    } else {
      assert StoppedAt(cs, |cs| - 1, filter, resolver, fullName);
    }
  }

  /**
   * Two candidates declaring the same alias 100: the first is registered, the
   * second fails with a conflict that names both types and the alias.
   */
  lemma DeclaredAliasClash<T>(t1: T, t2: T, fullName: T -> Option<Name>)
    requires t1 != t2
    ensures Build([Candidate(t1, 100), Candidate(t2, 100)], None, None, fullName)
              == BuildResult(Registry(map[100 := t1], map[t1 := 100]), Fail(AliasConflict(t2, t1, 100)))
  {
    var cs := [Candidate(t1, 100), Candidate(t2, 100)];
    assert cs[..1][..0] == [];
    assert Build(cs[..1], None, None, fullName) == BuildResult(Registry(map[100 := t1], map[t1 := 100]), Pass);
    assert cs[..|cs| - 1] == cs[..1];
  }

  /**
   * The registry object. `alias2Type` and `type2Alias` are the two
   * dictionaries of the C# class, updated in place.
   */
  class TypeAliasTable<T(==)> {
    var alias2Type: map<int, T>
    var type2Alias: map<T, int>

    /** The two dictionaries as a value. */
    function Model(): Registry<T>
      reads this
    {
      Registry(alias2Type, type2Alias)
    }

    predicate Valid()
      reads this
    {
      Consistent(Model())
    }

    /** A table with both dictionaries empty, as `BuildTable` starts them. */
    constructor ()
      ensures Model() == EmptyRegistry() && Valid()
    {
      alias2Type := map[];
      type2Alias := map[];
    }

    /**
     * `AddTypeAlias(t, alias)`: on success both directions are bound; on
     * any error nothing changes. The invariant is kept.
     */
    method AddTypeAlias(t: Option<T>, alias: int) returns (outcome: Outcome<Error<T>>)
      modifies this
      ensures match Add(old(Model()), t, alias)
        case Success(r) => outcome == Pass && Model() == r
        case Failure(e) => outcome == Fail(e) && Model() == old(Model())
      ensures outcome == Pass ==> GetAlias(t.value) == alias && GetType(alias) == Some(t.value)
      ensures old(Valid()) ==> Valid()
    {
      if t.None? {
        return Fail(NullType);
      }
      if alias <= 0 {
        return Fail(InvalidAlias);
      }
      if alias in alias2Type {
        return Fail(AliasConflict(t.value, alias2Type[alias], alias));
      }
      if t.value in type2Alias {
        return Fail(DuplicateType(t.value));
      }
      type2Alias := type2Alias[t.value := alias];
      alias2Type := alias2Type[alias := t.value];
      outcome := Pass;
      if old(Valid()) {
        AddPreservesConsistent(old(Model()), t, alias);
      }
    }

    /**
     * `AddTypeAlias(type)`: rejects a null type first, then inserts the type
     * under the alias derived from its full name.
     */
    method AddTypeAliasDerived(t: Option<T>, fullName: T -> Option<Name>) returns (outcome: Outcome<Error<T>>)
      modifies this
      ensures t.None? ==> outcome == Fail(NullType) && Model() == old(Model())
      ensures t.Some? ==> match Add(old(Model()), t, CalculateAlias(fullName(t.value)))
        case Success(r) => outcome == Pass && Model() == r
        case Failure(e) => outcome == Fail(e) && Model() == old(Model())
      ensures outcome != Fail(InvalidAlias)
      ensures old(Valid()) ==> Valid()
    {
      if t.None? {
        return Fail(NullType);
      }
      var hash := CalculateDjb2Hash(fullName(t.value));
      var alias := AliasOfHash(hash);
      outcome := AddTypeAlias(t, alias);
    }

    /**
     * `BuildTable`: reset both dictionaries, then insert the candidates the
     * filter keeps, in order, each under its declared alias, else the
     * resolver's, else the derived one; the first failing insertion ends the
     * build with that error and keeps the entries already added.
     */
    method BuildTable(candidates: seq<Candidate<T>>, filter: Option<T -> bool>,
                      resolver: Option<T -> int>, fullName: T -> Option<Name>)
      returns (outcome: Outcome<Error<T>>)
      modifies this
      ensures Model() == Build(candidates, filter, resolver, fullName).registry
      ensures outcome == Build(candidates, filter, resolver, fullName).outcome
      ensures Valid()
    {
      alias2Type := map[];
      type2Alias := map[];
      var i := 0;
      while i < |candidates|
        invariant 0 <= i <= |candidates|
        invariant Build(candidates[..i], filter, resolver, fullName) == BuildResult(Model(), Pass)
        invariant Valid()
      {
        var item := candidates[i];
        assert candidates[..i + 1][..i] == candidates[..i];
        assert candidates[..i + 1][i] == item;
        if filter.Some? && !filter.value(item.t) {
          i := i + 1;
          continue;
        }
        var alias := item.declaredAlias;
        if alias == 0 {
          if resolver.Some? {
            alias := resolver.value(item.t);
          } else {
            var hash := CalculateDjb2Hash(fullName(item.t));
            alias := AliasOfHash(hash);
          }
        }
        outcome := AddTypeAlias(Some(item.t), alias);
        if outcome.Fail? {
          BuildStopsAtFailure(candidates, i + 1, filter, resolver, fullName);
          return;
        }
        i := i + 1;
      }
      assert candidates[..i] == candidates;
      outcome := Pass;
    }

    /** `GetType`: the type bound to `alias`, or null; never fails. */
    function GetType(alias: int): (r: Option<T>)
      reads this
      ensures alias !in alias2Type ==> r == None
      ensures Valid() ==> (r == None <==> alias !in alias2Type)
      ensures Valid() ==> forall t :: t in type2Alias && type2Alias[t] == alias ==> r == Some(t)
      ensures Valid() && r.Some? ==> alias > 0 && r.value in type2Alias && type2Alias[r.value] == alias
    {
      if alias in alias2Type then Some(alias2Type[alias]) else None
    }

    /**
     * `GetAlias`: the alias bound to `t`, or 0; since stored aliases are
     * positive, 0 means exactly that the type is unregistered.
     */
    function GetAlias(t: T): (a: int)
      reads this
      ensures t !in type2Alias ==> a == 0
      ensures Valid() ==> a >= 0 && (a == 0 <==> t !in type2Alias)
      ensures Valid() && a != 0 ==> GetType(a) == Some(t)
    {
      if t in type2Alias then type2Alias[t] else 0
    }
  }
}

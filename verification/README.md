# TypeAlias registry in Dafny

A Dafny model of `TypeAliasTable`, the C# class that maps program types to
positive 32-bit integer aliases and back, so that serialized data can name a
type by a small number. The model covers:

- the two dictionaries, alias → type and type → alias, as the fields of the class
  `TypeAlias.TypeAliasTable`, and as the value `TypeAlias.Registry` that the specification works on;
- insertion (`AddTypeAlias` with an explicit alias, `AddTypeAliasDerived` for the
  one-argument overload), with its checks in source order: null type, alias ≤ 0,
  alias already bound, type already bound;
- the bulk build (`BuildTable`) over the scanner's (type, declared alias) pairs, with the optional
  filter and the optional alias resolver;
- the lookups `GetType` (null when the alias is unknown) and `GetAlias` (0 when the type is unknown);
- the alias derivation: djb2 over the UTF-16 code units of the full name, with
  32-bit unsigned wrap-around, masked to 31 bits, 0 replaced by 1, and values
  below 256 multiplied by 131.

Files:

- `wrappers.dfy`: module `Wrappers`. `Option` stands for a reference that may be null. `Result` and `Outcome` stand for a value or a thrown exception.
- `alias_hash.dfy`: module `AliasHash`. It holds the static `CalculateDjb2Hash` and `CalculateAlias`.
  `uint` arithmetic is written with an explicit `% 2^32`. The shift `hash << 5` on a `uint` is `hash * 32 % 2^32`.
  The mask `& 0x7FFFFFFF` is `% 2^31`.
- `type_alias_table.dfy`: module `TypeAlias`. It holds the value-level specification (`Registry`, `Add`, `Build`), its lemmas, and the class.

Modelling choices:

- A host `Type` is the type parameter `T`, compared by identity. A null type is `None`.
- `Type.FullName` is a function parameter `fullName: T -> Option<Name>`. A name is a sequence of UTF-16 code units.
- Exceptions become the datatype `Error`:
  - `NullType` for `ArgumentNullException`;
  - `InvalidAlias` for `ArgumentOutOfRangeException`;
  - `AliasConflict(incoming, existing, alias)` for the `InvalidOperationException`, which carries both types and the alias;
  - `DuplicateType(t)` for the `ArgumentException` that `Dictionary.Add` throws at line 75. It is thrown before line 76 runs, so neither map changes.
- A method that can throw returns an `Outcome`. Every error path of `AddTypeAlias` and `AddTypeAliasDerived` leaves both maps unchanged. A failed `BuildTable` keeps the entries it inserted before the failure.
- In C#, `BuildTable` is private and runs only inside the constructors, so a failed build throws out of the constructor. Here the constructor makes an empty table and `BuildTable` is a public method that reports the failure as its `Fail` outcome (see "## Left out").
- The two nested loops over assemblies and their attributed types are one sequence of `Candidate`s, in the order the scanner yields them.

Three behaviours of the code are worth stating outright:

- The comment at core/TypeAlias/TypeAliasTable.cs:93 says a derived alias is in [0x100, 0x7FFFFFFF]. A masked hash of 0 or 1 gives 131, so the model follows the code and proves the range [131, 0x7FFFFFFF]. `DerivedAliasBelowBand` states exactly when the low band is hit.
- An alias conflict is raised whenever the alias is already a key, even when it is bound to the same type.
- Registering a type twice is rejected, because `Dictionary.Add` throws on an existing key. The two maps therefore cannot drift apart.

`CalculateAlias` is a Dafny function, so it is deterministic by construction.

## Model

| member | source | states |
|---|---|---|
| AliasHash.CalculateDjb2Hash | core/TypeAlias/TypeAliasTable.cs:101-113 | A null or empty name hashes to 0. Any other name gives the djb2 left fold: seed 5381, then h := h*33 + c mod 2^32 for each code unit in index order. The loop runs the source's `(hash << 5) + hash + c` on a `uint`. The result also equals the exact polynomial 5381*33^n + Σ c_i*33^(n-1-i) reduced mod 2^32 |
| AliasHash.Djb2FoldIsPolynomialModulo | core/TypeAlias/TypeAliasTable.cs:106-110 | Wrapping the `uint` accumulator at every step gives the same hash as computing the exact integer fold and wrapping once at the end |
| AliasHash.AliasOfHash | core/TypeAlias/TypeAliasTable.cs:94-98 | For every 32-bit hash the alias is in [131, 0x7FFFFFFF], so never 0 or negative. It is below 0x100 exactly when the 31-bit masked hash is 0 or 1. A masked hash of at least 0x100 is used unchanged |
| AliasHash.CalculateAlias | core/TypeAlias/TypeAliasTable.cs:91-99 | Every name, including a null one, gets an alias in [131, 0x7FFFFFFF] |
| AliasHash.DerivedAliasBelowBand | core/TypeAlias/TypeAliasTable.cs:93-98 | The only derived alias below 0x100 is 131. It occurs exactly when the masked hash is 0 or 1, which includes null and empty names. This refutes the [0x100, 0x7FFFFFFF] claim in the comment |
| AliasHash.LowBandCollides | core/TypeAlias/TypeAliasTable.cs:95-98 | A masked hash k in [2, 255] gets the same alias as the masked hash 131*k. Lifting values out of the low band can make two names collide |
| AliasHash.AppModelsUserAlias | core/TypeAlias/TypeAliasTable.cs:91-113 | Pinned example: "App.Models.User" hashes to 2634065285 and gets the alias 486581637 |
| TypeAlias.AddConflictsOnOwnAlias | core/TypeAlias/TypeAliasTable.cs:67-73 | On a consistent table, inserting a registered type under the alias it already has fails with AliasConflict(t, t, alias). The alias check comes before the duplicate-type check, and neither map changes |
| TypeAlias.AddSucceedsIff | core/TypeAlias/TypeAliasTable.cs:60-76 | On a consistent table, an insert succeeds if and only if the alias is positive and neither the alias nor the type is registered. DuplicateType happens only for a type bound to a different alias |
| TypeAlias.AddBindsExactly | core/TypeAlias/TypeAliasTable.cs:75-76 | A successful insert adds exactly the key T to one map and the key A to the other, with T→A and A→T. Every earlier entry keeps its value |
| TypeAlias.AddGrowsByOne | core/TypeAlias/TypeAliasTable.cs:75-76 | A successful insert grows each dictionary by exactly one entry |
| TypeAlias.AddPreservesConsistent | core/TypeAlias/TypeAliasTable.cs:60-76 | Insertion keeps the invariant: the two maps are mutual inverses and every alias is positive |
| TypeAlias.ChooseAlias | core/TypeAlias/TypeAliasTable.cs:38-44 | The chosen alias can be zero or negative, which leads to InvalidAlias at lines 64-65, only when the declared alias is negative or when a resolver answered for a zero declared alias. With no resolver, any non-negative declared alias yields a positive alias |
| TypeAlias.BuildStopsAtFailure | core/TypeAlias/TypeAliasTable.cs:31-48 | Once an insertion fails, no later candidate is looked at, and the build's state and error are those of the failing prefix |
| TypeAlias.BuildIsConsistent | core/TypeAlias/TypeAliasTable.cs:28-48 | Starting from empty maps, the build leaves a consistent table, whether it succeeds or fails |
| TypeAlias.BuildOnlyFromCandidates | core/TypeAlias/TypeAliasTable.cs:31-47 | Every registered type is the type of a candidate the filter keeps, bound to the alias chosen for that candidate |
| TypeAlias.BuildSkipsRejected | core/TypeAlias/TypeAliasTable.cs:35-36 | A type the filter rejects appears in neither map |
| TypeAlias.BuildRegistersAccepted | core/TypeAlias/TypeAliasTable.cs:31-47 | After a successful build, every kept candidate is registered in both directions under its chosen alias |
| TypeAlias.BuildSuccessIsInjective | core/TypeAlias/TypeAliasTable.cs:31-47 | After a successful build, the kept candidates have pairwise distinct types and pairwise distinct aliases |
| TypeAlias.SameAliasFailsBuild | core/TypeAlias/TypeAliasTable.cs:38-46 | If two kept candidates end up with the same alias, the build fails. A collision is never resolved silently |
| TypeAlias.BuildFailurePoint | core/TypeAlias/TypeAliasTable.cs:31-48 | A failed build stopped at a kept candidate k. The error is the one that inserting k raised, and the entries of the completed build of the candidates before k remain in the maps |
| TypeAlias.DeclaredAliasClash | core/TypeAlias/TypeAliasTable.cs:35-73 | Two types that both declare alias 100: the first is registered, and the build fails with AliasConflict(second, first, 100) |
| TypeAlias.TypeAliasTable.constructor | core/TypeAlias/TypeAliasTable.cs:28-29 | A new table has both dictionaries empty and satisfies the invariant |
| TypeAlias.TypeAliasTable.AddTypeAlias | core/TypeAlias/TypeAliasTable.cs:60-77 | The new state is the value-level insert. On any error both maps are unchanged. On success GetAlias(T) == A and GetType(A) == T. The invariant is kept |
| TypeAlias.TypeAliasTable.AddTypeAliasDerived | core/TypeAlias/TypeAliasTable.cs:51-58 | A null type fails with NullType before any hashing. Otherwise the type is inserted under CalculateAlias(FullName), which can never fail with InvalidAlias. The invariant is kept |
| TypeAlias.TypeAliasTable.BuildTable | core/TypeAlias/TypeAliasTable.cs:24-49 | Resets both maps, then runs the build loop. The final maps and the outcome are those of the value-level Build, and the result satisfies the invariant |
| TypeAlias.TypeAliasTable.GetType | core/TypeAlias/TypeAliasTable.cs:79-83 | Gives null for an unknown alias and never fails. On a consistent table, it gives null exactly when the alias is unregistered, and it gives the type registered under the alias whenever there is one. A found type has a positive alias that maps back to the queried alias |
| TypeAlias.TypeAliasTable.GetAlias | core/TypeAlias/TypeAliasTable.cs:85-89 | Gives 0 for an unknown type. On a consistent table the result is never negative, it is 0 exactly when the type is unregistered, and a non-zero result maps back to the type |

## Left out

- Reflection-based discovery is not modelled: `TypeUtility.AssemblyProvider.GetAssemblies()` and `TypeUtility.GetTypesContainingAttribute<TypeAliasAttribute>` (lines 14 and 33). Their output is the input sequence of `Candidate`s. `TypeUtility` and `TypeAliasAttribute` are not part of this model.
- The parameterless constructor is not modelled. It scans every loaded assembly (lines 12-15), which is host I/O.
- Candidates are never null, because the scanner never yields a null type. So `Build` and `BuildTable` can never fail with `NullType`.
- TypeAlias.TypeAliasTable.GetAlias: its argument is never null. In the source `GetAlias(null)` throws ArgumentNullException from `Dictionary.TryGetValue`.
- Aliases are unbounded integers rather than 32-bit `int`. The source only compares declared and resolved aliases and never does arithmetic on them. The derived alias is proved to lie within the 32-bit range.
- The exception message text built with `string.Format` (lines 71-72) is not kept. The error keeps only its payload: the incoming type, the existing type and the alias.
- `Type.FullName`, the filter and the resolver are pure, total functions here. C# delegates and `FullName` may keep state or throw, and a throw at lines 35, 42 or 43 would abort `BuildTable`; neither is modelled. `BuildSkipsRejected` relies on the filter giving the same answer each time it sees a type. The resolver's output is unconstrained.
- A partially built table is observable here but not in C#. In C# a failed build throws out of the constructor, so no caller ever holds the partial table. Here a caller keeps the table after `BuildTable` returns `Fail`, and `BuildFailurePoint` describes its contents.
- Concurrency: the source has none.

/**
 * The static alias computation of `TypeAliasTable`: Bernstein's djb2 hash of a
 * type's full name, computed in 32-bit unsigned arithmetic, and the mapping of
 * that hash to a positive alias outside the low band below 0x100.
 *
 * C# strings are sequences of UTF-16 code units, so a name is a sequence of
 * integers in [0, 0xFFFF]; `uint` is an integer in [0, 2^32) whose arithmetic
 * wraps, written out below with `% TwoTo32`.
 */
module AliasHash {
  import opened Wrappers

  const TwoTo32: int := 0x1_0000_0000

  /** C#'s `uint`. */
  type UInt32 = x: int | 0 <= x < 0x1_0000_0000

  /** C#'s `char`: one UTF-16 code unit. */
  type CodeUnit = x: int | 0 <= x < 0x1_0000

  /** The contents of a C# `string`. */
  type Name = seq<CodeUnit>

  /** The djb2 seed. */
  const Djb2Seed: UInt32 := 5381

  /** The largest value of C#'s `int`, and so the largest alias. */
  const MaxAlias: int := 0x7FFF_FFFF

  /** The smallest alias that `CalculateAlias` can return (1 * 131). */
  const MinDerivedAlias: int := 131

  /**
   * djb2 over the code units of `s` in index order, each step computing
   * h * 33 + c modulo 2^32; the last code unit is folded in last.
   */
  function Djb2Fold(s: Name): UInt32
    decreases |s|
  {
    if s == [] then Djb2Seed
    else (Djb2Fold(s[..|s| - 1]) * 33 + s[|s| - 1]) % TwoTo32
  }

  /** The hash of a possibly null name: 0 for a null or empty name, the djb2 fold otherwise. */
  function Djb2Hash(name: Option<Name>): UInt32
  {
    match name
    case None => 0
    case Some(s) => if s == [] then 0 else Djb2Fold(s)
  }

  /**
   * The same fold without wrap-around: the exact polynomial
   * 5381 * 33^n + s[0] * 33^(n-1) + ... + s[n-1].
   */
  function Djb2Polynomial(s: Name): nat
    decreases |s|
  {
    if s == [] then 5381
    else Djb2Polynomial(s[..|s| - 1]) * 33 + s[|s| - 1]
  }

  /** One loop step of the C# code, `(hash << 5) + hash + c` on a `uint`, is h * 33 + c modulo 2^32. */
  lemma ShiftAddStep(h: UInt32, c: CodeUnit)
    ensures ((h * 32 % TwoTo32 + h) % TwoTo32 + c) % TwoTo32 == (h * 33 + c) % TwoTo32
  {
  }

  /** The remainder modulo 2^32 is determined by any quotient/remainder split. */
  lemma ModOfSplit(x: int, q: int, r: int)
    requires x == q * TwoTo32 + r && 0 <= r < TwoTo32
    ensures x % TwoTo32 == r
  {
  }

  /** Reducing before a multiply-add step gives the same residue as reducing after it. */
  lemma ReduceThenStep(x: nat, c: nat)
    ensures (x % TwoTo32 * 33 + c) % TwoTo32 == (x * 33 + c) % TwoTo32
  {
    var q, r := x / TwoTo32, x % TwoTo32;
    var small := r * 33 + c;
    var sq, sr := small / TwoTo32, small % TwoTo32;
    assert x * 33 + c == (q * 33 + sq) * TwoTo32 + sr;
    ModOfSplit(x * 33 + c, q * 33 + sq, sr);
  }

  /**
   * Wrapping at every step is the same as wrapping once at the end: the
   * 32-bit fold is the exact polynomial modulo 2^32.
   */
  lemma {:induction false} Djb2FoldIsPolynomialModulo(s: Name)
    ensures Djb2Fold(s) == Djb2Polynomial(s) % TwoTo32
  {
    if s != [] {
      var prefix := s[..|s| - 1];
      Djb2FoldIsPolynomialModulo(prefix);
      ReduceThenStep(Djb2Polynomial(prefix), s[|s| - 1]);
    }
  }

  /**
   * `CalculateDjb2Hash`: returns 0 for a null or empty name, otherwise runs the
   * C# loop over a `uint` accumulator seeded with 5381, where the shift
   * `hash << 5` on a `uint` is `hash * 32` modulo 2^32.
   */
  method CalculateDjb2Hash(name: Option<Name>) returns (hash: UInt32)
    ensures hash == Djb2Hash(name)
    ensures name.Some? && name.value != [] ==> hash == Djb2Polynomial(name.value) % TwoTo32
  {
    if name.None? || |name.value| == 0 {
      return 0;
    }
    var str := name.value;
    hash := Djb2Seed;
    var len := |str|;
    for i := 0 to len
      invariant hash == Djb2Fold(str[..i])
    {
      var shifted := hash * 32 % TwoTo32;
      ShiftAddStep(hash, str[i]);
      assert str[..i + 1][..i] == str[..i];
      hash := ((shifted + hash) % TwoTo32 + str[i]) % TwoTo32;
    }
    assert str[..len] == str;
    Djb2FoldIsPolynomialModulo(str);
  }

  /**
   * Lines 94-98 of `CalculateAlias` on an already computed hash: mask to 31
   * bits (`hash & 0x7FFFFFFF`, which on a `uint` is `hash % 2^31`), replace 0
   * by 1, and multiply values below 256 by 131.
   */
  function AliasOfHash(hash: UInt32): (alias: int)
    ensures MinDerivedAlias <= alias <= MaxAlias
    ensures alias < 0x100 <==> hash % 0x8000_0000 <= 1
    ensures hash % 0x8000_0000 >= 0x100 ==> alias == hash % 0x8000_0000
  {
    var ihash := hash % 0x8000_0000;
    var phash := if ihash == 0 then 1 else ihash;
    if phash < 256 then phash * 131 else phash
  }

  /** `CalculateAlias`: the alias a type with full name `name` receives when none is declared. */
  function CalculateAlias(name: Option<Name>): (alias: int)
    ensures MinDerivedAlias <= alias <= MaxAlias
  {
    AliasOfHash(Djb2Hash(name))
  }

  /**
   * Only one alias below 0x100 is ever derived, 131, and exactly for names
   * whose masked hash is 0 or 1 (a null or empty name among them).
   */
  lemma DerivedAliasBelowBand(name: Option<Name>)
    ensures CalculateAlias(name) < 0x100 <==> Djb2Hash(name) % 0x8000_0000 <= 1
    ensures CalculateAlias(name) < 0x100 ==> CalculateAlias(name) == MinDerivedAlias
    ensures name.None? || name == Some([]) ==> CalculateAlias(name) == MinDerivedAlias
  {
  }

  /**
   * Moving small masked hashes out of the low band makes them collide with
   * masked hashes that are already 131 times larger.
   */
  lemma LowBandCollides(small: UInt32)
    requires 2 <= small < 0x100
    ensures AliasOfHash(small) == AliasOfHash(small * 131)
  {
  }

  /** Extending a prefix by one code unit is one fold step. */
  lemma Djb2FoldPrefixStep(s: Name, k: nat, h: UInt32)
    requires 0 < k <= |s|
    requires Djb2Fold(s[..k - 1]) == h
    ensures Djb2Fold(s[..k]) == (h * 33 + s[k - 1]) % TwoTo32
  {
    assert s[..k][..k - 1] == s[..k - 1];
  }

  /** The full name "App.Models.User" as UTF-16 code units. */
  const AppModelsUser: Name := [65, 112, 112, 46, 77, 111, 100, 101, 108, 115, 46, 85, 115, 101, 114]

  /** djb2 over "App.M" (the first five code units), one step per code unit. */
  lemma AppMFold(s: Name)
    requires |s| >= 5
    requires s[0] == 65
    requires s[1] == 112
    requires s[2] == 112
    requires s[3] == 46
    requires s[4] == 77
    ensures Djb2Fold(s[..5]) == 215385601
  {
    assert s[..0] == [];
    assert Djb2Fold(s[..1]) == 177638 by { Djb2FoldPrefixStep(s, 1, 5381); }
    assert Djb2Fold(s[..2]) == 5862166 by { Djb2FoldPrefixStep(s, 2, 177638); }
    assert Djb2Fold(s[..3]) == 193451590 by { Djb2FoldPrefixStep(s, 3, 5862166); }
    assert Djb2Fold(s[..4]) == 2088935220 by { Djb2FoldPrefixStep(s, 4, 193451590); }
    assert Djb2Fold(s[..5]) == 215385601 by { Djb2FoldPrefixStep(s, 5, 2088935220); }
  }

  /** djb2 over "App.Models", continuing from the hash of its first five code units. */
  lemma AppModelsFold(s: Name)
    requires |s| >= 10
    requires s[0] == 65
    requires s[1] == 112
    requires s[2] == 112
    requires s[3] == 46
    requires s[4] == 77
    requires s[5] == 111
    requires s[6] == 100
    requires s[7] == 101
    requires s[8] == 108
    requires s[9] == 115
    ensures Djb2Fold(s[..10]) == 541106296
  {
    AppMFold(s);
    assert Djb2Fold(s[..6]) == 2812757648 by { Djb2FoldPrefixStep(s, 6, 215385601); }
    assert Djb2Fold(s[..7]) == 2626689268 by { Djb2FoldPrefixStep(s, 7, 2812757648); }
    assert Djb2Fold(s[..8]) == 781400025 by { Djb2FoldPrefixStep(s, 8, 2626689268); }
    assert Djb2Fold(s[..9]) == 16397157 by { Djb2FoldPrefixStep(s, 9, 781400025); }
    assert Djb2Fold(s[..10]) == 541106296 by { Djb2FoldPrefixStep(s, 10, 16397157); }
  }

  /** djb2 over "App.Models.User", continuing from the hash of its first ten code units. */
  lemma AppModelsUserFold(s: Name)
    requires |s| == 15
    requires s[0] == 65
    requires s[1] == 112
    requires s[2] == 112
    requires s[3] == 46
    requires s[4] == 77
    requires s[5] == 111
    requires s[6] == 100
    requires s[7] == 101
    requires s[8] == 108
    requires s[9] == 115
    requires s[10] == 46
    requires s[11] == 85
    requires s[12] == 115
    requires s[13] == 101
    requires s[14] == 114
    ensures Djb2Fold(s) == 2634065285
  {
    AppModelsFold(s);
    assert Djb2Fold(s[..11]) == 676638630 by { Djb2FoldPrefixStep(s, 11, 541106296); }
    assert Djb2Fold(s[..12]) == 854238395 by { Djb2FoldPrefixStep(s, 12, 676638630); }
    assert Djb2Fold(s[..13]) == 2420063374 by { Djb2FoldPrefixStep(s, 13, 854238395); }
    assert Djb2Fold(s[..14]) == 2552680115 by { Djb2FoldPrefixStep(s, 14, 2420063374); }
    assert Djb2Fold(s[..15]) == 2634065285 by { Djb2FoldPrefixStep(s, 15, 2552680115); }
    assert s[..15] == s;
  }

  /** A pinned input/output pair that any djb2 alias implementation must reproduce. */
  lemma AppModelsUserAlias()
    ensures Djb2Hash(Some(AppModelsUser)) == 2634065285
    ensures CalculateAlias(Some(AppModelsUser)) == 486581637
  {
    AppModelsUserFold(AppModelsUser);
  }
}

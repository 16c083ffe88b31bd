/** The detail-cache keys of src/utils/cache.ts and the bit-mask enumeration of
    src/utils/binaryCombination.ts. */
module CacheKeys {
  import opened Sequences

  const ENTITY := "user"
  const RELATIONS: seq<string> := ["vendor", "driver", "subAdmin"]

  // ----- 32-bit shifts

  function Pow2(n: nat): (p: nat)
    ensures p >= 1
  {
    if n == 0 then 1 else 2 * Pow2(n - 1)
  }

  /** `1 << n`: the count is taken modulo 32 and the result is a signed 32-bit integer. */
  function ShiftOne(n: nat): int {
    if n % 32 == 31 then -(Pow2(31) as int) else Pow2(n % 32)
  }

  /** `i & (1 << j)` is not 0, for a mask i that is not negative as an integer of 32 bits. */
  predicate HasBit(i: nat, j: nat) {
    (i / Pow2(j % 32)) % 2 == 1
  }

  // ----- combinations

  function FlagText(flag: bool): string {
    if flag then "true" else "false"
  }

  function Entry(name: string, flag: bool): string {
    name + "=" + FlagText(flag)
  }

  function Join(parts: seq<string>, separator: string): string {
    if parts == [] then ""
    else if |parts| == 1 then parts[0]
    else parts[0] + separator + Join(parts[1..], separator)
  }

  function Entries(names: seq<string>, flags: seq<bool>): (entries: seq<string>)
    requires |names| == |flags|
    ensures |entries| == |names|
  {
    seq(|names|, j requires 0 <= j < |names| => Entry(names[j], flags[j]))
  }

  /** The flags that mask i stands for. */
  function Flags(i: nat, n: nat): (flags: seq<bool>)
    ensures |flags| == n
  {
    seq(n, j requires 0 <= j < n => HasBit(i, j))
  }

  function Combination(names: seq<string>, i: nat): string {
    Join(Entries(names, Flags(i, |names|)), ":")
  }

  function Count(n: nat): nat {
    if ShiftOne(n) < 0 then 0 else ShiftOne(n)
  }

  function AllCombinations(names: seq<string>): seq<string> {
    seq(Count(|names|), i requires 0 <= i < Count(|names|) => Combination(names, i))
  }

  /** `combinations`. */
  method Combinations(names: seq<string>) returns (combinations: seq<string>)
    ensures combinations == AllCombinations(names)
  {
    hide HasBit, Join, Pow2;
    combinations := [];
    var i := 0;
    while i < ShiftOne(|names|)
      invariant 0 <= i <= Count(|names|) && |combinations| == i
      invariant forall k :: 0 <= k < i ==> combinations[k] == Combination(names, k)
      decreases ShiftOne(|names|) - i
    {
      var currentCombinations: seq<string> := [];
      for j := 0 to |names|
        invariant |currentCombinations| == j
        invariant forall k :: 0 <= k < j ==> currentCombinations[k] == Entry(names[k], HasBit(i, k))
      {
        currentCombinations := currentCombinations + [if HasBit(i, j) then names[j] + "=true" else names[j] + "=false"];
      }
      assert currentCombinations == Entries(names, Flags(i, |names|));
      combinations := combinations + [Join(currentCombinations, ":")];
      i := i + 1;
    }
  }

  // ----- The two key builders

  /** `getAllDetailCacheKeys`, for a list of relations. */
  function AllDetailKeys(names: seq<string>, id: string): seq<string> {
    var combinations := AllCombinations(names);
    seq(|combinations|, i requires 0 <= i < |combinations| => ENTITY + ":" + id + ":" + combinations[i])
  }

  type Query = map<string, bool>

  predicate Asked(query: Query, name: string) {
    name in query && query[name]
  }

  /** The fold of `createDetailCacheKey`. */
  function Suffix(names: seq<string>, flags: seq<bool>): string
    requires |names| == |flags|
  {
    if names == [] then ""
    else
      var n := |names| - 1;
      Suffix(names[..n], flags[..n]) + ":" + names[n] + "=" + FlagText(flags[n])
  }

  function QueryFlags(names: seq<string>, query: Query): (flags: seq<bool>)
    ensures |flags| == |names|
  {
    seq(|names|, j requires 0 <= j < |names| => Asked(query, names[j]))
  }

  function DetailKey(names: seq<string>, id: string, flags: seq<bool>): string
    requires |names| == |flags|
  {
    ENTITY + ":" + id + Suffix(names, flags)
  }

  /** `createDetailCacheKey`. */
  function CreateDetailKey(names: seq<string>, id: string, query: Query): string {
    DetailKey(names, id, QueryFlags(names, query))
  }

  // ----- How many combinations there are

  lemma {:induction false} Pow2Monotone(a: nat, b: nat)
    requires a <= b
    ensures Pow2(a) <= Pow2(b)
    ensures a < b ==> Pow2(a) < Pow2(b)
  {
    if a == b {
    } else {
      Pow2Monotone(a, b - 1);
    }
  }

  /** The enumeration has one combination for each choice of flags exactly up to 30 names: from 31 on
      the shift wraps round. */
  lemma CountExactly(n: nat)
    ensures Count(n) == Pow2(n) <==> n <= 30
  {
    hide Pow2;
    if n <= 30 {
    } else if n % 32 == 31 {
      assert Count(n) == 0;
    } else {
      Pow2Monotone(n % 32, 30);
      Pow2Monotone(30, n);
    }
  }

  // ----- Masks and flags

  function Mask(flags: seq<bool>): nat {
    if flags == [] then 0 else (if flags[0] then 1 else 0) + 2 * Mask(flags[1..])
  }

  lemma {:induction false} MaskBound(flags: seq<bool>)
    ensures Mask(flags) < Pow2(|flags|)
  {
    if flags == [] {
    } else {
      MaskBound(flags[1..]);
    }
  }

  lemma HalfDivides(i: nat, d: nat)
    requires d >= 1
    ensures i / (2 * d) == (i / 2) / d
  {
    var q, r := (i / 2) / d, (i / 2) % d;
    assert i / 2 == q * d + r;
    var b := i % 2;
    assert i == 2 * (q * d + r) + b;
    assert i == q * (2 * d) + (2 * r + b) by {
      assert 2 * (q * d) == q * (2 * d);
    }
    QuotientIs(i, 2 * d, q, 2 * r + b);
  }

  lemma MultipleIsLarge(k: nat, d: nat)
    requires k >= 1
    ensures k * d >= d
  {}

  lemma QuotientIs(n: nat, d: nat, q: nat, r: nat)
    requires d >= 1 && n == q * d + r && r < d
    ensures n / d == q
  {
    var p := n / d;
    assert n == p * d + n % d;
    assert (q - p) * d == n % d - r && (p - q) * d == r - n % d;
    if p < q {
      MultipleIsLarge(q - p, d);
    } else if p > q {
      MultipleIsLarge(p - q, d);
    }
  }

  lemma BitOfHalf(i: nat, j: nat)
    requires j < 31
    ensures HasBit(i, j + 1) == HasBit(i / 2, j)
  {
    HalfDivides(i, Pow2(j));
  }

  lemma {:induction false} FlagsOfMask(flags: seq<bool>)
    requires |flags| <= 31
    ensures Flags(Mask(flags), |flags|) == flags
  {
    if flags == [] {
    } else {
      FlagsOfMask(flags[1..]);
      var i := Mask(flags);
      assert i / 2 == Mask(flags[1..]);
      forall j | 0 <= j < |flags|
        ensures HasBit(i, j) == flags[j]
      {
        if j > 0 {
          BitOfHalf(i, j - 1);
          assert HasBit(i / 2, j - 1) == Flags(i / 2, |flags| - 1)[j - 1] == flags[1..][j - 1];
        }
      }
    }
  }

  lemma {:induction false} MaskOfFlags(i: nat, n: nat)
    requires n <= 31 && i < Pow2(n)
    ensures Mask(Flags(i, n)) == i
  {
    if n == 0 {
    } else {
      MaskOfFlags(i / 2, n - 1);
      forall j | 0 <= j < n - 1
        ensures Flags(i, n)[1..][j] == Flags(i / 2, n - 1)[j]
      {
        BitOfHalf(i, j);
      }
      assert Flags(i, n)[1..] == Flags(i / 2, n - 1);
    }
  }

  // ----- Join and fold

  lemma {:induction false} JoinAppends(parts: seq<string>, last: string, separator: string)
    requires parts != []
    ensures Join(parts + [last], separator) == Join(parts, separator) + separator + last
  {
    if |parts| == 1 {
      assert (parts + [last])[1..] == [last];
    } else {
      JoinAppends(parts[1..], last, separator);
      assert (parts + [last])[1..] == parts[1..] + [last];
    }
  }

  lemma JoinOne(part: string, separator: string)
    ensures Join([part], separator) == part
  {}

  lemma {:induction false} SuffixIsJoin(names: seq<string>, flags: seq<bool>)
    requires |names| == |flags| && names != []
    ensures Suffix(names, flags) == ":" + Join(Entries(names, flags), ":")
  {
    hide Join, FlagText;
    var n := |names| - 1;
    var last := Entry(names[n], flags[n]);
    assert Suffix(names, flags) == Suffix(names[..n], flags[..n]) + ":" + last;
    if n == 0 {
      assert Entries(names, flags) == [last];
      JoinOne(last, ":");
      assert Suffix(names[..0], flags[..0]) == "";
    } else {
      var front := Entries(names[..n], flags[..n]);
      SuffixIsJoin(names[..n], flags[..n]);
      assert Entries(names, flags) == front + [last];
      JoinAppends(front, last, ":");
      assert ":" + Join(front, ":") + ":" + last == ":" + (Join(front, ":") + ":" + last);
    }
  }

  /** The i-th enumerated key is the key of the flags that i stands for. */
  lemma EnumeratedKey(names: seq<string>, id: string, i: nat)
    requires names != [] && i < Count(|names|)
    ensures AllDetailKeys(names, id)[i] == DetailKey(names, id, Flags(i, |names|))
  {
    SuffixIsJoin(names, Flags(i, |names|));
  }

  // ----- Keys determine id and flags

  lemma FlagTextEnds(front: string, flag: bool)
    ensures var s := front + FlagText(flag);
            |s| >= 4 && (s[|s| - 4] == 't' <==> flag) && s[..|s| - |FlagText(flag)|] == front
  {}

  lemma FrontsAreEqual(front1: string, front2: string, last: string)
    requires front1 + last == front2 + last
    ensures front1 == front2
  {
    assert |front1| == |front2| by { assert |front1 + last| == |front2 + last|; }
    assert front1 == (front1 + last)[..|front1|] == (front2 + last)[..|front1|] == front2;
  }

  /** An entry that ends a text is read off from the right. */
  lemma LastEntryStrips(name: string, front1: string, g1: bool, front2: string, g2: bool)
    requires front1 + ":" + name + "=" + FlagText(g1) == front2 + ":" + name + "=" + FlagText(g2)
    ensures g1 == g2 && front1 == front2
  {
    hide FlagText;
    FlagTextEnds(front1 + ":" + name + "=", g1);
    FlagTextEnds(front2 + ":" + name + "=", g2);
    FrontsAreEqual(front1 + ":" + name, front2 + ":" + name, "=");
    FrontsAreEqual(front1 + ":", front2 + ":", name);
    FrontsAreEqual(front1, front2, ":");
  }

  /** A key determines the id and the flags, whatever the id contains: it reads from the right. */
  lemma {:induction false} KeyIsInjective(names: seq<string>, id1: string, f1: seq<bool>, id2: string, f2: seq<bool>)
    requires |f1| == |f2| == |names|
    requires id1 + Suffix(names, f1) == id2 + Suffix(names, f2)
    ensures id1 == id2 && f1 == f2
  {
    hide FlagText;
    if names == [] {
      assert id1 + "" == id1 && id2 + "" == id2;
    } else {
      var n := |names| - 1;
      var front1, front2 := id1 + Suffix(names[..n], f1[..n]), id2 + Suffix(names[..n], f2[..n]);
      assert id1 + Suffix(names, f1) == front1 + ":" + names[n] + "=" + FlagText(f1[n]);
      assert id2 + Suffix(names, f2) == front2 + ":" + names[n] + "=" + FlagText(f2[n]);
      LastEntryStrips(names[n], front1, f1[n], front2, f2[n]);
      KeyIsInjective(names[..n], id1, f1[..n], id2, f2[..n]);
      assert f1 == f1[..n] + [f1[n]] && f2 == f2[..n] + [f2[n]];
    }
  }

  lemma DetailKeyIsInjective(names: seq<string>, id1: string, f1: seq<bool>, id2: string, f2: seq<bool>)
    requires |f1| == |f2| == |names|
    ensures DetailKey(names, id1, f1) == DetailKey(names, id2, f2) <==> id1 == id2 && f1 == f2
  {
    var prefix := ENTITY + ":";
    assert DetailKey(names, id1, f1) == prefix + (id1 + Suffix(names, f1));
    assert DetailKey(names, id2, f2) == prefix + (id2 + Suffix(names, f2));
    assert DetailKey(names, id1, f1)[|prefix|..] == id1 + Suffix(names, f1);
    assert DetailKey(names, id2, f2)[|prefix|..] == id2 + Suffix(names, f2);
    if DetailKey(names, id1, f1) == DetailKey(names, id2, f2) {
      KeyIsInjective(names, id1, f1, id2, f2);
    }
  }

  /** No key is enumerated twice, and two ids never share a key. */
  lemma KeysAreDistinct(names: seq<string>, id1: string, i: nat, id2: string, j: nat)
    requires 1 <= |names| <= 30 && i < Count(|names|) && j < Count(|names|)
    ensures AllDetailKeys(names, id1)[i] == AllDetailKeys(names, id2)[j] <==> id1 == id2 && i == j
  {
    CountExactly(|names|);
    EnumeratedKey(names, id1, i);
    EnumeratedKey(names, id2, j);
    MaskOfFlags(i, |names|);
    MaskOfFlags(j, |names|);
    DetailKeyIsInjective(names, id1, Flags(i, |names|), id2, Flags(j, |names|));
  }

  /** A query that asks for exactly these flags. */
  function QueryFor(names: seq<string>, flags: seq<bool>): (query: Query)
    requires |names| == |flags| && Distinct(names)
    ensures QueryFlags(names, query) == flags
  {
    map j | 0 <= j < |names| :: names[j] := flags[j]
  }

  /** For up to 30 different relations, the enumerated keys of an id are those that some query creates. */
  lemma EnumeratedIsCreated(names: seq<string>, id: string, key: string)
    requires 1 <= |names| <= 30 && Distinct(names)
    ensures |AllDetailKeys(names, id)| == Pow2(|names|)
    ensures key in AllDetailKeys(names, id) <==> exists query :: CreateDetailKey(names, id, query) == key
  {
    CountExactly(|names|);
    if key in AllDetailKeys(names, id) {
      var i :| 0 <= i < Count(|names|) && AllDetailKeys(names, id)[i] == key;
      EnumeratedKey(names, id, i);
      assert CreateDetailKey(names, id, QueryFor(names, Flags(i, |names|))) == key;
    }
    if query :| CreateDetailKey(names, id, query) == key {
      var flags := QueryFlags(names, query);
      MaskBound(flags);
      FlagsOfMask(flags);
      EnumeratedKey(names, id, Mask(flags));
      assert AllDetailKeys(names, id)[Mask(flags)] == key;
    }
  }

  /** Without relations the two formats differ by a colon. */
  lemma NoRelationsNoMatch(id: string, query: Query)
    ensures CreateDetailKey([], id, query) == "user:" + id && AllDetailKeys([], id) == ["user:" + id + ":"]
    ensures CreateDetailKey([], id, query) !in AllDetailKeys([], id)
  {
    assert "user" + ":" + id == "user:" + id && "user:" + id + "" == "user:" + id;
    assert Entries([], Flags(0, 0)) == [] && Combination([], 0) == "";
    var keys, key := AllDetailKeys([], id), "user:" + id + ":";
    assert |keys| == Count(0) == 1 && keys[0] == key + "" == key;
    assert keys == [key] && |"user:" + id| < |key|;
  }

  /** Flag 32 of a mask repeats flag 0, and so on: the shift counts modulo 32. */
  lemma FlagsRepeat(i: nat, j: nat)
    ensures HasBit(i, j + 32) == HasBit(i, j)
  {
    assert (j + 32) % 32 == j % 32;
  }

  lemma MaskMissesFlag(n: nat, i: nat)
    requires n >= 31 && i < Count(n)
    ensures n % 32 < n && !HasBit(i, n % 32)
  {
    hide Pow2;
    assert n % 32 != 31;
    QuotientIs(i, Pow2(n % 32), 0, i);
  }

  /** From 31 relations on, the shift stops short of the mask of all flags. */
  lemma AllFlagsAreMissed(names: seq<string>, id: string)
    requires |names| >= 31
    ensures DetailKey(names, id, seq(|names|, j => true)) !in AllDetailKeys(names, id)
  {
    hide DetailKey, HasBit, Combination;
    var n, flags := |names|, seq(|names|, j => true);
    forall i | 0 <= i < Count(n)
      ensures AllDetailKeys(names, id)[i] != DetailKey(names, id, flags)
    {
      MaskMissesFlag(n, i);
      assert !Flags(i, n)[n % 32] && flags[n % 32];
      EnumeratedKey(names, id, i);
      DetailKeyIsInjective(names, id, Flags(i, n), id, flags);
    }
  }

  /** The enumerated keys of an id are exactly the keys that some query creates, so that clearing them all clears
      every cached answer for the id, if and only if there are 1 to 30 relations. */
  lemma EnumerationIsComplete(names: seq<string>, id: string)
    requires Distinct(names)
    ensures (forall key ::
               key in AllDetailKeys(names, id) <==> exists query :: CreateDetailKey(names, id, query) == key) <==>
            1 <= |names| <= 30
  {
    hide AllDetailKeys, DetailKey;
    if 1 <= |names| <= 30 {
      forall key
        ensures key in AllDetailKeys(names, id) <==> exists query :: CreateDetailKey(names, id, query) == key
      {
        EnumeratedIsCreated(names, id, key);
      }
    } else {
      var flags := seq(|names|, j => true);
      var query := QueryFor(names, flags);
      var key := CreateDetailKey(names, id, query);
      if names == [] {
        NoRelationsNoMatch(id, query);
      } else {
        AllFlagsAreMissed(names, id);
      }
      assert key !in AllDetailKeys(names, id);
    }
  }

  /** A list of 31 relations has no enumerated key at all. */
  lemma NothingForThirtyOne(names: seq<string>, id: string)
    requires |names| == 31
    ensures AllDetailKeys(names, id) == []
    ensures forall query :: CreateDetailKey(names, id, query) !in AllDetailKeys(names, id)
  {
    assert Count(31) == 0;
  }

  /** The three relations of a user have eight keys, and those are all that a query can create. */
  lemma UserKeysAreComplete(id: string, key: string)
    ensures |AllDetailKeys(RELATIONS, id)| == 8
    ensures key in AllDetailKeys(RELATIONS, id) <==> exists query :: CreateDetailKey(RELATIONS, id, query) == key
  {
    hide AllDetailKeys, CreateDetailKey;
    assert Distinct(RELATIONS) by { assert "vendor"[0] != "driver"[0]; }
    EnumeratedIsCreated(RELATIONS, id, key);
    assert Pow2(3) == 8;
  }

  // ----- Which key a query has

  lemma BitMeans(i: nat, j: nat)
    requires j < 32
    ensures HasBit(i, j) <==> (i / Pow2(j)) % 2 == 1
  {
    hide Pow2;
  }

  /** Bit j of the mask is set exactly if the query sets name j. */
  ghost predicate IsMaskOf(i: nat, names: seq<string>, query: Query) {
    forall j :: 0 <= j < |names| ==> ((i / Pow2(j)) % 2 == 1 <==> names[j] in query && query[names[j]])
  }

  lemma MaskFlags(names: seq<string>, query: Query, i: nat)
    requires |names| <= 30
    ensures IsMaskOf(i, names, query) <==> Flags(i, |names|) == QueryFlags(names, query)
  {
    hide Pow2, HasBit;
    forall j | 0 <= j < |names|
      ensures Flags(i, |names|)[j] <==> (i / Pow2(j)) % 2 == 1
    {
      BitMeans(i, j);
    }
  }

  /** The key of a query is the enumerated key of the mask whose bits are the flags that the query sets. */
  lemma KeyOfQuery(names: seq<string>, id: string, query: Query, i: nat)
    requires 1 <= |names| <= 30 && i < Pow2(|names|) && IsMaskOf(i, names, query)
    ensures i < Count(|names|) && AllDetailKeys(names, id)[i] == CreateDetailKey(names, id, query)
  {
    hide AllDetailKeys, DetailKey, Pow2, IsMaskOf, ShiftOne;
    CountExactly(|names|);
    MaskFlags(names, query, i);
    EnumeratedKey(names, id, i);
  }

  /** There is such a mask for every query. */
  lemma MaskOfQuery(names: seq<string>, query: Query) returns (i: nat)
    requires |names| <= 30
    ensures i < Pow2(|names|) && IsMaskOf(i, names, query)
  {
    hide IsMaskOf;
    var flags := QueryFlags(names, query);
    i := Mask(flags);
    MaskBound(flags);
    FlagsOfMask(flags);
    MaskFlags(names, query, i);
  }

  /** The empty query has the key of mask 0. */
  lemma EmptyQueryIsFirst(names: seq<string>, id: string)
    requires 1 <= |names| <= 30
    ensures Count(|names|) > 0 && AllDetailKeys(names, id)[0] == CreateDetailKey(names, id, map[])
  {
    hide AllDetailKeys, CreateDetailKey;
    assert forall j :: 0 <= j < |names| ==> 0 / Pow2(j) == 0;
    KeyOfQuery(names, id, map[], 0);
  }

  lemma UserKeyText(front: string, x: string, y: string, z: string)
    ensures front + (":" + "vendor" + "=" + x + ":" + "driver" + "=" + y + ":" + "subAdmin" + "=" + z) ==
            front + ":vendor=" + x + ":driver=" + y + ":subAdmin=" + z
  {}

  function TrueOrFalse(flag: bool): string {
    if flag then "true" else "false"
  }

  lemma SuffixOfThree(a: string, b: string, c: string, flags: seq<bool>)
    requires |flags| == 3
    ensures Suffix([a, b, c], flags) ==
            ":" + a + "=" + TrueOrFalse(flags[0]) + ":" + b + "=" + TrueOrFalse(flags[1])
            + ":" + c + "=" + TrueOrFalse(flags[2])
  {
    assert [a, b, c][..2] == [a, b] && [a, b][..1] == [a] && [a][..0] == [];
    assert flags[..2][..1] == flags[..1] && flags[..2][1] == flags[1] && flags[..1][0] == flags[0];
    assert Suffix([a], flags[..1]) == ":" + a + "=" + FlagText(flags[0]) by {
      assert flags[..1][..0] == [] && Suffix([], []) == "";
      assert "" + ":" + a + "=" + FlagText(flags[0]) == ":" + a + "=" + FlagText(flags[0]);
    }
  }

  /** The key of a user, written out. */
  lemma UserKey(id: string, query: Query)
    ensures CreateDetailKey(RELATIONS, id, query) ==
            "user:" + id
            + ":vendor=" + TrueOrFalse("vendor" in query && query["vendor"])
            + ":driver=" + TrueOrFalse("driver" in query && query["driver"])
            + ":subAdmin=" + TrueOrFalse("subAdmin" in query && query["subAdmin"])
  {
    hide Suffix, TrueOrFalse;
    var flags := QueryFlags(RELATIONS, query);
    SuffixOfThree("vendor", "driver", "subAdmin", flags);
    UserKeyText("user:" + id, TrueOrFalse(flags[0]), TrueOrFalse(flags[1]), TrueOrFalse(flags[2]));
  }
}

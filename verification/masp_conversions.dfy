/** The integer and ordering bookkeeping of the MASP conversion update at an epoch
    change: how the asset entries are split into per-thread chunks, the native-token-first
    order of the reward keys, the leaf position given to each asset entry, and the
    entries recorded for the previous and the new epoch. The reward arithmetic and the
    conversions themselves are not modelled. */
module MaspConversions {
  import opened Common

  type Address = string

  // ---------------------------------------------------------------------------
  // Chunk sizes

  /** ceil(n / threads); None when there are no assets, where the source's
      `assets.len() - 1` underflows. */
  function NotesPerThreadMax(n: nat, threads: nat): (r: Option<nat>)
    requires threads >= 1
    ensures r.Some? <==> n > 0
    ensures r.Some? ==> r.value * threads >= n && (r.value - 1) * threads < n
  {
    if n == 0 then None else Some((n - 1) / threads + 1)
  }

  /** floor(n / threads). */
  function NotesPerThreadMin(n: nat, threads: nat): (r: nat)
    requires threads >= 1
    ensures r * threads <= n < (r + 1) * threads
  {
    n / threads
  }

  /** Multiplying by a positive factor keeps a strict order. */
  lemma MulCancel(a: int, b: int, t: int)
    requires t > 0
    ensures a * t < b * t ==> a < b
  {
    if a >= b {
      assert a * t - b * t == (a - b) * t;
      assert (a - b) * t >= 0;
    }
  }

  /** The two chunk bounds differ by at most one, and are equal exactly when the
      threads divide the assets evenly. */
  lemma ChunkBounds(n: nat, threads: nat)
    requires threads >= 1 && n > 0
    ensures NotesPerThreadMin(n, threads) <= NotesPerThreadMax(n, threads).value <= NotesPerThreadMin(n, threads) + 1
    ensures NotesPerThreadMax(n, threads).value == NotesPerThreadMin(n, threads) <==> NotesPerThreadMin(n, threads) * threads == n
  {
    var max := NotesPerThreadMax(n, threads).value;
    var min := NotesPerThreadMin(n, threads);
    assert (max + 1) * threads == max * threads + threads;
    MulCancel(min, max + 1, threads);
    MulCancel(max - 1, min + 1, threads);
    MulCancel(max - 1, min, threads);
  }

  // ---------------------------------------------------------------------------
  // Rounding the chunk size to a power of two

  predicate IsPowerOfTwo(r: nat)
    decreases r
  {
    r == 1 || (r >= 2 && r % 2 == 0 && IsPowerOfTwo(r / 2))
  }

  /** The subtree size used when building the commitment tree: a power of two, at least
      a quarter of `max`, and the smallest such. */
  predicate IsRoundedChunk(max: nat, r: nat)
  {
    IsPowerOfTwo(r) && max <= 4 * r && (r == 1 || max > 2 * r)
  }

  /** Doubles the chunk size, starting at one, until four chunks cover `max` notes. */
  method RoundChunk(max: nat) returns (r: nat)
    ensures IsRoundedChunk(max, r)
  {
    r := 1;
    while max > r * 4
      invariant IsPowerOfTwo(r)
      invariant r == 1 || max > 2 * r
      decreases max - r
    {
      r := r * 2;
      assert r / 2 * 2 == r;
    }
  }

  lemma {:induction false} PowerOfTwoDoubles(a: nat, b: nat)
    requires IsPowerOfTwo(a) && IsPowerOfTwo(b) && a < b
    ensures 2 * a <= b
    decreases b
  {
    if a > 1 {
      PowerOfTwoDoubles(a / 2, b / 2);
    }
  }

  /** The rounded chunk size is determined by `max`. */
  lemma RoundedChunkUnique(max: nat, a: nat, b: nat)
    requires IsRoundedChunk(max, a) && IsRoundedChunk(max, b)
    ensures a == b
  {
    if a < b {
      PowerOfTwoDoubles(a, b);
    } else if b < a {
      PowerOfTwoDoubles(b, a);
    }
  }

  // ---------------------------------------------------------------------------
  // Native token first

  /** A reward key: a token and its optional sub-prefix. */
  datatype RewardKey = RewardKey(token: Address, subPrefix: Option<string>)

  datatype Ordering = Less | Equal | Greater

  /** Orders the native token's keys before all others; keys of one class compare equal. */
  function CompareNativeFirst(native: Address, x: RewardKey, y: RewardKey): (r: Ordering)
    ensures r == Less <==> x.token == native && y.token != native
    ensures r == Greater <==> x.token != native && y.token == native
    ensures r == Equal <==> (x.token == native <==> y.token == native)
  {
    if (x.token == native) == (y.token == native) then Equal
    else if x.token == native then Less
    else Greater
  }

  /** The comparator is a total preorder whose classes are "native" and "not native". */
  lemma ComparatorIsPreorder(native: Address, x: RewardKey, y: RewardKey, z: RewardKey)
    ensures CompareNativeFirst(native, x, y) == Less <==> CompareNativeFirst(native, y, x) == Greater
    ensures CompareNativeFirst(native, x, y) == Equal <==> (x.token == native <==> y.token == native)
    ensures CompareNativeFirst(native, x, y) == Less <==> x.token == native && y.token != native
    ensures CompareNativeFirst(native, x, y) != Greater && CompareNativeFirst(native, y, z) != Greater
            ==> CompareNativeFirst(native, x, z) != Greater
  {
  }

  /** No later element compares less than an earlier one. */
  predicate SortedBy(native: Address, s: seq<RewardKey>)
  {
    forall i, j :: 0 <= i < j < |s| ==> CompareNativeFirst(native, s[j], s[i]) != Less
  }

  /** In any sequence sorted by the comparator every native entry precedes every other. */
  lemma SortedPutsNativeFirst(native: Address, s: seq<RewardKey>)
    requires SortedBy(native, s)
    ensures forall i, j :: 0 <= i < j < |s| && s[j].token == native ==> s[i].token == native
  {
    forall i, j | 0 <= i < j < |s| && s[j].token == native ensures s[i].token == native {
      assert CompareNativeFirst(native, s[j], s[i]) != Less;
    }
  }

  /** The entries of `s` in the class `isNative`, in their order. */
  function OfClass(native: Address, s: seq<RewardKey>, isNative: bool): (r: seq<RewardKey>)
    ensures forall i :: 0 <= i < |r| ==> (r[i].token == native) == isNative
    decreases |s|
  {
    if |s| == 0 then []
    else
      var rest := OfClass(native, s[..|s| - 1], isNative);
      if (s[|s| - 1].token == native) == isNative then rest + [s[|s| - 1]] else rest
  }

  /** The two classes together hold exactly the entries of `s`. */
  lemma {:induction false} ClassesPartition(native: Address, s: seq<RewardKey>)
    ensures multiset(OfClass(native, s, true)) + multiset(OfClass(native, s, false)) == multiset(s)
    decreases |s|
  {
    if |s| > 0 {
      ClassesPartition(native, s[..|s| - 1]);
      assert s == s[..|s| - 1] + [s[|s| - 1]];
    }
  }

  /** One ordering the unstable sort may produce: the native entries, then the rest. */
  function NativeFirst(native: Address, s: seq<RewardKey>): (r: seq<RewardKey>)
    ensures multiset(r) == multiset(s)
    ensures SortedBy(native, r)
  {
    ClassesPartition(native, s);
    OfClass(native, s, true) + OfClass(native, s, false)
  }

  // ---------------------------------------------------------------------------
  // Leaf positions of the asset entries

  /** An asset type identifier; the asset map is ordered by it lexicographically. */
  type AssetType = Key

  /** The MASP denominations: the four 64-bit limbs of a 256-bit amount. */
  datatype Denom = Zero | One | Two | Three

  const Denoms: seq<Denom> := [Zero, One, Two, Three]

  /** An asset entry: the reward key and denomination it stands for, its epoch, and its
      leaf position in the conversion tree. The conversion itself is not modelled. */
  datatype AssetEntry = AssetEntry(key: RewardKey, denom: Denom, epoch: nat, pos: nat)

  type Assets = map<AssetType, AssetEntry>

  /** The asset types that sort before `a`. */
  function Smaller(a: AssetType, s: set<AssetType>): set<AssetType>
  {
    set x | x in s && Common.Less(x, a)
  }

  /** The index of `a` in the ascending enumeration of `s`. */
  function Rank(a: AssetType, s: set<AssetType>): nat
  {
    |Smaller(a, s)|
  }

  lemma SubsetSize<T>(a: set<T>, b: set<T>)
    requires a <= b
    ensures |a| <= |b|
    ensures a < b ==> |a| < |b|
  {
    assert b == a + (b - a);
    assert |b| == |a| + |b - a|;
    if a < b {
      var x :| x in b - a;
    }
  }

  /** Ranks are below the number of assets and strictly increase along the order, so
      distinct assets get distinct positions. */
  lemma RankIsIndex(a: AssetType, b: AssetType, s: set<AssetType>)
    requires a in s && b in s
    ensures Rank(a, s) < |s|
    ensures Common.Less(a, b) ==> Rank(a, s) < Rank(b, s)
    ensures a != b ==> Rank(a, s) != Rank(b, s)
  {
    LessIrreflexive(a);
    SubsetSize(Smaller(a, s), s);
    assert a !in Smaller(a, s);
    if Common.Less(a, b) {
      forall x | x in Smaller(a, s) ensures x in Smaller(b, s) {
        LessTransitive(x, a, b);
      }
      assert a in Smaller(b, s);
      SubsetSize(Smaller(a, s), Smaller(b, s));
    }
    if a != b {
      LessTotal(a, b);
      if Common.Less(b, a) {
        LessIrreflexive(b);
        forall x | x in Smaller(b, s) ensures x in Smaller(a, s) {
          LessTransitive(x, b, a);
        }
        assert b in Smaller(a, s) && b !in Smaller(b, s);
        SubsetSize(Smaller(b, s), Smaller(a, s));
      }
    }
  }

  /** The progress of the enumeration: the assets `done` precede all `remaining` ones
      and already carry their rank as position. */
  ghost predicate Enumerated(assets: Assets, r: Assets, done: set<AssetType>, remaining: set<AssetType>)
  {
    && SplitInOrder(assets.Keys, done, remaining)
    && r.Keys == done
    && (forall a :: a in r ==> a in assets && r[a] == assets[a].(pos := Rank(a, assets.Keys)))
  }

  /** `done` and `remaining` split `keys`, every key of `done` below every key of `remaining`. */
  ghost predicate SplitInOrder(keys: set<AssetType>, done: set<AssetType>, remaining: set<AssetType>)
  {
    && done + remaining == keys && done !! remaining
    && (forall x, y :: x in done && y in remaining ==> Common.Less(x, y))
  }

  /** The assets below the least remaining one are exactly those enumerated. */
  lemma SmallerThanLeast(keys: set<AssetType>, done: set<AssetType>, remaining: set<AssetType>, k: AssetType)
    requires SplitInOrder(keys, done, remaining)
    requires IsLeast(k, remaining)
    ensures Smaller(k, keys) == done
    ensures SplitInOrder(keys, done + {k}, remaining - {k})
  {
    forall x | x in Smaller(k, keys) ensures x in done {
      if x in remaining {
        LessIrreflexive(k);
        if x != k {
          LessTransitive(k, x, k);
        }
      }
    }
  }

  /** Giving the least remaining asset the next index keeps the enumeration's progress. */
  lemma EnumerateStep(assets: Assets, r: Assets, done: set<AssetType>, remaining: set<AssetType>, k: AssetType)
    requires Enumerated(assets, r, done, remaining)
    requires IsLeast(k, remaining)
    ensures Enumerated(assets, r[k := assets[k].(pos := |done|)], done + {k}, remaining - {k})
  {
    SmallerThanLeast(assets.Keys, done, remaining, k);
    EntriesStep(assets, r, k, |done|);
  }

  lemma EntriesStep(assets: Assets, r: Assets, k: AssetType, idx: nat)
    requires k in assets && Rank(k, assets.Keys) == idx
    requires forall a :: a in r ==> a in assets && r[a] == assets[a].(pos := Rank(a, assets.Keys))
    ensures forall a :: a in r[k := assets[k].(pos := idx)] ==>
      a in assets && r[k := assets[k].(pos := idx)][a] == assets[a].(pos := Rank(a, assets.Keys))
  {
    var r' := r[k := assets[k].(pos := idx)];
    forall a | a in r' ensures a in assets && r'[a] == assets[a].(pos := Rank(a, assets.Keys)) {
      if a != k {
        assert r'[a] == r[a];
      }
    }
  }

  /** Gives every asset entry the position of its asset type in ascending order, as the
      enumeration of the ordered asset map does. */
  method AssignPositions(assets: Assets) returns (r: Assets)
    ensures r.Keys == assets.Keys
    ensures forall a :: a in r ==> r[a] == assets[a].(pos := Rank(a, assets.Keys))
  {
    var remaining := assets.Keys;
    ghost var done: set<AssetType> := {};
    r := map[];
    var idx := 0;
    while remaining != {}
      invariant Enumerated(assets, r, done, remaining)
      invariant idx == |done|
      decreases |remaining|
    {
      LeastExists(remaining);
      var k :| IsLeast(k, remaining);
      EnumerateStep(assets, r, done, remaining, k);
      SmallerThanLeast(assets.Keys, done, remaining, k);
      r := r[k := assets[k].(pos := idx)];
      done := done + {k};
      remaining := remaining - {k};
      idx := idx + 1;
    }
  }

  /** The asset types `encode` gives the reward keys in an epoch. */
  function Encoded(keys: seq<RewardKey>, epoch: nat, encode: (RewardKey, Denom, nat) -> AssetType): set<AssetType>
  {
    set k, d | k in keys && d in Denoms :: encode(k, d, epoch)
  }

  lemma AllDenoms()
    ensures forall d: Denom :: d in Denoms
  {
    forall d: Denom ensures d in Denoms {
      match d
      case Zero => assert Denoms[0] == d;
      case One => assert Denoms[1] == d;
      case Two => assert Denoms[2] == d;
      case Three => assert Denoms[3] == d;
    }
  }

  /** Records the asset types of one reward key in `epoch`, one per denomination. */
  function InsertKey(m: Assets, k: RewardKey, epoch: nat, pos: nat,
                     encode: (RewardKey, Denom, nat) -> AssetType): Assets
  {
    m[encode(k, Zero, epoch) := AssetEntry(k, Zero, epoch, pos)]
     [encode(k, One, epoch) := AssetEntry(k, One, epoch, pos)]
     [encode(k, Two, epoch) := AssetEntry(k, Two, epoch, pos)]
     [encode(k, Three, epoch) := AssetEntry(k, Three, epoch, pos)]
  }

  lemma InsertKeySpec(m: Assets, k: RewardKey, epoch: nat, pos: nat, encode: (RewardKey, Denom, nat) -> AssetType)
    ensures var r := InsertKey(m, k, epoch, pos, encode);
      && (forall d :: encode(k, d, epoch) in r && r[encode(k, d, epoch)].epoch == epoch
                      && r[encode(k, d, epoch)].pos == pos && r[encode(k, d, epoch)].key == k)
      && (forall a :: a in r <==> a in m || a in Encoded([k], epoch, encode))
      && (forall a :: a in m && a !in Encoded([k], epoch, encode) ==> r[a] == m[a])
  {
    AllDenoms();
    var r := InsertKey(m, k, epoch, pos, encode);
    forall d ensures encode(k, d, epoch) in r && r[encode(k, d, epoch)].epoch == epoch
                     && r[encode(k, d, epoch)].pos == pos && r[encode(k, d, epoch)].key == k {
      var e := encode(k, d, epoch);
      if e == encode(k, Three, epoch) {
      } else if e == encode(k, Two, epoch) {
      } else if e == encode(k, One, epoch) {
      } else {
        assert d == Zero;
      }
    }
    forall a | a in r ensures a in m || a in Encoded([k], epoch, encode) {
      if a !in m {
        if a == encode(k, Zero, epoch) {
          assert Denoms[0] == Zero;
        } else if a == encode(k, One, epoch) {
          assert Denoms[1] == One;
        } else if a == encode(k, Two, epoch) {
          assert Denoms[2] == Two;
        } else {
          assert Denoms[3] == Three;
        }
      }
    }
  }

  /** `decode` recovers the key and denomination of every asset type `encode` gives in
      `epoch`, so distinct pairs get distinct asset types. */
  ghost predicate Decodes(encode: (RewardKey, Denom, nat) -> AssetType, decode: AssetType -> (RewardKey, Denom), epoch: nat)
  {
    forall k, d :: decode(encode(k, d, epoch)) == (k, d)
  }

  lemma InsertKeyDecodes(m: Assets, k: RewardKey, epoch: nat, pos: nat,
                         encode: (RewardKey, Denom, nat) -> AssetType, decode: AssetType -> (RewardKey, Denom), d: Denom)
    requires Decodes(encode, decode, epoch)
    ensures InsertKey(m, k, epoch, pos, encode)[encode(k, d, epoch)] == AssetEntry(k, d, epoch, pos)
  {
    var e := encode(k, d, epoch);
    assert d != Zero ==> e != encode(k, Zero, epoch);
    assert d != One ==> e != encode(k, One, epoch);
    assert d != Two ==> e != encode(k, Two, epoch);
    assert d != Three ==> e != encode(k, Three, epoch);
  }

  /** Records, for every reward key and denomination, the asset type of `epoch` with the
      given position and a zero conversion. */
  function InsertEntries(assets: Assets, keys: seq<RewardKey>, epoch: nat, pos: nat,
                         encode: (RewardKey, Denom, nat) -> AssetType): (r: Assets)
    ensures forall k, d :: k in keys ==>
      encode(k, d, epoch) in r && r[encode(k, d, epoch)].epoch == epoch && r[encode(k, d, epoch)].pos == pos
    ensures forall a :: a in r <==> a in assets || a in Encoded(keys, epoch, encode)
    ensures forall a :: a in assets && a !in Encoded(keys, epoch, encode) ==> r[a] == assets[a]
    decreases |keys|
  {
    if |keys| == 0 then assets
    else
      var init := keys[..|keys| - 1];
      var k := keys[|keys| - 1];
      assert keys == init + [k];
      assert Encoded(keys, epoch, encode) == Encoded(init, epoch, encode) + Encoded([k], epoch, encode);
      InsertKeySpec(InsertEntries(assets, init, epoch, pos, encode), k, epoch, pos, encode);
      InsertKey(InsertEntries(assets, init, epoch, pos, encode), k, epoch, pos, encode)
  }

  /** Under a decodable encoding no other key's asset types coincide with `k`'s. */
  lemma NotEncodedByOther(encode: (RewardKey, Denom, nat) -> AssetType, decode: AssetType -> (RewardKey, Denom),
                           epoch: nat, k: RewardKey, d: Denom, other: RewardKey)
    requires Decodes(encode, decode, epoch)
    requires k != other
    ensures encode(k, d, epoch) !in Encoded([other], epoch, encode)
  {
  }

  /** When asset types decode to their key and denomination, each inserted entry describes the key and denomination it was encoded from. */
  lemma {:induction false} InsertedEntriesDecode(assets: Assets, keys: seq<RewardKey>, epoch: nat, pos: nat,
                                                  encode: (RewardKey, Denom, nat) -> AssetType,
                                                  decode: AssetType -> (RewardKey, Denom), k: RewardKey, d: Denom)
    requires Decodes(encode, decode, epoch)
    requires k in keys
    ensures InsertEntries(assets, keys, epoch, pos, encode)[encode(k, d, epoch)] == AssetEntry(k, d, epoch, pos)
    decreases |keys|
  {
    var init := keys[..|keys| - 1];
    var last := keys[|keys| - 1];
    var prev := InsertEntries(assets, init, epoch, pos, encode);
    assert keys == init + [last];
    assert InsertEntries(assets, keys, epoch, pos, encode) == InsertKey(prev, last, epoch, pos, encode);
    if last == k {
      InsertKeyDecodes(prev, k, epoch, pos, encode, decode, d);
    } else {
      assert k in init;
      InsertedEntriesDecode(assets, init, epoch, pos, encode, decode, k, d);
      NotEncodedByOther(encode, decode, epoch, k, d, last);
      InsertKeySpec(prev, last, epoch, pos, encode);
    }
  }

  /** The bookkeeping of one conversion update: an entry at position 0 for every reward
      asset of the previous epoch, then every entry gets its leaf position (its rank among
      all entries, keeping everything else), then the new epoch's assets get decoding
      entries at the tree's size, a position no leaf has. */
  method UpdatePositions(assets: Assets, keys: seq<RewardKey>, lastEpoch: nat, epoch: nat,
                         encode: (RewardKey, Denom, nat) -> AssetType) returns (r: Assets, treeSize: nat)
    ensures treeSize == |InsertEntries(assets, keys, lastEpoch, 0, encode).Keys|
    ensures forall k, d :: k in keys ==>
      encode(k, d, epoch) in r && r[encode(k, d, epoch)].epoch == epoch && r[encode(k, d, epoch)].pos == treeSize
    ensures forall a :: a in r && a !in Encoded(keys, epoch, encode) ==> r[a].pos < treeSize
    ensures var withOld := InsertEntries(assets, keys, lastEpoch, 0, encode);
            forall a :: a in r && a !in Encoded(keys, epoch, encode) ==>
              a in withOld && r[a] == withOld[a].(pos := Rank(a, withOld.Keys))
  {
    var withOld := InsertEntries(assets, keys, lastEpoch, 0, encode);
    var positioned := AssignPositions(withOld);
    treeSize := |positioned.Keys|;
    r := InsertEntries(positioned, keys, epoch, treeSize, encode);
    forall a | a in r && a !in Encoded(keys, epoch, encode) ensures r[a].pos < treeSize {
      RankIsIndex(a, a, withOld.Keys);
    }
  }
}

/**
  Dense renaming of sparse keys (COMPRESSOR) and the vector of counters kept beside it
  (COMPRESSOR_COUNTER). INDEX is an unsigned type with `modulus` values, so the next index wraps
  around at `modulus`.
 */
module Renaming {
  import opened Prelude
  import opened Bits

  /** The keys of a stream in first-seen order, without repetitions. */
  function Seen<Key(==,!new)>(keys: seq<Key>): (s: seq<Key>)
    ensures forall k :: k in s <==> k in keys
    ensures forall i, j :: 0 <= i < j < |s| ==> s[i] != s[j]
  {
    if keys == [] then []
    else
      var before := Seen(Front(keys));
      assert keys == Front(keys) + [Last(keys)];
      if Last(keys) in before then before else before + [Last(keys)]
  }

  /** The position of the first occurrence. */
  function Position<Key(==,!new)>(s: seq<Key>, key: Key): (i: nat)
    requires key in s
    ensures i < |s| && s[i] == key
  {
    if s[0] == key then 0
    else
      assert s == [s[0]] + s[1..];
      1 + Position(s[1..], key)
  }

  /** How many distinct keys came before the first occurrence of this one. */
  function Rank<Key(==,!new)>(keys: seq<Key>, key: Key): (r: nat)
    requires key in keys
    ensures r < |Seen(keys)| && Seen(keys)[r] == key
  {
    Position(Seen(keys), key)
  }

  /** A rank is the only place of its key. */
  lemma RankUnique<Key(!new)>(keys: seq<Key>, r: nat)
    requires r < |Seen(keys)|
    ensures Seen(keys)[r] in keys && Rank(keys, Seen(keys)[r]) == r
  {
  }

  /** The index that Map returns for the last key of a stream. */
  function IndexOfLast<Key(==,!new)>(keys: seq<Key>, modulus: nat): nat
    requires keys != [] && modulus >= 1
  {
    Rem(Rank(keys, Last(keys)), modulus)
  }

  /** The indices that Map returns for a stream of keys, starting from nothing. */
  function IndexStream<Key(==,!new)>(keys: seq<Key>, modulus: nat): (r: seq<nat>)
    requires modulus >= 1
    ensures |r| == |keys|
  {
    if keys == [] then [] else IndexStream(Front(keys), modulus) + [IndexOfLast(keys, modulus)]
  }

  /** One more key leaves the ranks of all earlier keys as they are. */
  lemma RankStable<Key(!new)>(keys: seq<Key>, key: Key, more: Key)
    requires key in keys
    ensures key in keys + [more] && Rank(keys + [more], key) == Rank(keys, key)
  {
    var longer := keys + [more];
    assert Front(longer) == keys;
    assert Seen(longer)[Rank(keys, key)] == key;
    RankUnique(longer, Rank(keys, key));
  }

  lemma NewRank<Key(!new)>(keys: seq<Key>, more: Key)
    requires more !in keys
    ensures more in keys + [more] && Rank(keys + [more], more) == |Seen(keys)|
    ensures Seen(keys + [more]) == Seen(keys) + [more]
  {
    var longer := keys + [more];
    assert Front(longer) == keys;
    RankUnique(longer, |Seen(keys)|);
  }

  /** Every occurrence of a key gets the same index: the rank of the key in the whole stream. */
  lemma {:induction false} StreamIsStable<Key(!new)>(keys: seq<Key>, modulus: nat, i: nat)
    requires modulus >= 1 && i < |keys|
    ensures IndexStream(keys, modulus)[i] == Rem(Rank(keys, keys[i]), modulus)
  {
    if i < |keys| - 1 {
      StreamIsStable(Front(keys), modulus, i);
      RankStable(Front(keys), keys[i], Last(keys));
      assert keys == Front(keys) + [Last(keys)];
    }
  }

  lemma SameRankSameKey<Key(!new)>(keys: seq<Key>, a: Key, b: Key)
    requires a in keys && b in keys
    ensures Rank(keys, a) == Rank(keys, b) <==> a == b
  {
  }

  /** Up to `modulus` distinct keys the indices are 0, 1, 2, ... in first-seen order. */
  lemma IndicesAreDense<Key(!new)>(keys: seq<Key>, modulus: nat, r: nat) returns (i: nat)
    requires 1 <= |Seen(keys)| <= modulus && r < |Seen(keys)|
    ensures i < |keys| && IndexStream(keys, modulus)[i] == r
  {
    assert Seen(keys)[r] in keys;
    i :| 0 <= i < |keys| && keys[i] == Seen(keys)[r];
    RankUnique(keys, r);
    StreamIsStable(keys, modulus, i);
  }

  ghost predicate Injective<Key>(keys: seq<Key>, indices: seq<nat>)
    requires |keys| == |indices|
  {
    forall i, j :: 0 <= i < |keys| && 0 <= j < |keys| && indices[i] == indices[j] ==> keys[i] == keys[j]
  }

  /** Distinct keys get distinct indices if and only if there are no more keys than index values. */
  lemma InjectiveExactly<Key(!new)>(keys: seq<Key>, modulus: nat)
    requires modulus >= 1
    ensures Injective(keys, IndexStream(keys, modulus)) <==> |Seen(keys)| <= modulus
  {
    var indices := IndexStream(keys, modulus);
    if |Seen(keys)| <= modulus {
      forall i, j | 0 <= i < |keys| && 0 <= j < |keys| && indices[i] == indices[j] ensures keys[i] == keys[j] {
        StreamIsStable(keys, modulus, i);
        StreamIsStable(keys, modulus, j);
        SameRankSameKey(keys, keys[i], keys[j]);
      }
    } else {
      var a, b := Seen(keys)[0], Seen(keys)[modulus];
      assert a in keys && b in keys;
      var i :| 0 <= i < |keys| && keys[i] == a;
      var j :| 0 <= j < |keys| && keys[j] == b;
      RankUnique(keys, 0);
      RankUnique(keys, modulus);
      StreamIsStable(keys, modulus, i);
      StreamIsStable(keys, modulus, j);
      assert Rem(modulus, modulus) == Rem(0, modulus) == 0;
      assert indices[i] == indices[j] && keys[i] != keys[j];
    }
  }

  /** The keys seen so far, each with its wrapped rank. */
  function RenamingOf<Key(==,!new)>(keys: seq<Key>, modulus: nat): map<Key, nat>
    requires modulus >= 1
  {
    map k | k in keys :: Rem(Rank(keys, k), modulus)
  }

  lemma RenamesKnown<Key(!new)>(keys: seq<Key>, key: Key, modulus: nat)
    requires modulus >= 1 && key in keys
    ensures RenamingOf(keys + [key], modulus) == RenamingOf(keys, modulus) && Seen(keys + [key]) == Seen(keys)
    ensures IndexOfLast(keys + [key], modulus) == RenamingOf(keys, modulus)[key]
  {
    assert Front(keys + [key]) == keys;
    forall k | k in keys ensures k in keys + [key] && Rank(keys + [key], k) == Rank(keys, k) {
      RankStable(keys, k, key);
    }
  }

  lemma RenamesNew<Key(!new)>(keys: seq<Key>, key: Key, modulus: nat)
    requires modulus >= 1 && key !in keys
    ensures RenamingOf(keys + [key], modulus) == RenamingOf(keys, modulus)[key := Rem(|Seen(keys)|, modulus)]
    ensures Rem(|Seen(keys + [key])|, modulus) == Rem(Rem(|Seen(keys)|, modulus) + 1, modulus)
    ensures IndexOfLast(keys + [key], modulus) == Rem(|Seen(keys)|, modulus)
  {
    NewRank(keys, key);
    RemSuccessor(|Seen(keys)|, modulus);
    forall k | k in keys ensures k in keys + [key] && Rank(keys + [key], k) == Rank(keys, k) {
      RankStable(keys, k, key);
    }
  }

  // ---------- the renaming is canonical ----------

  /** Two streams repeat themselves at the same positions. */
  ghost predicate SamePattern<K, L>(a: seq<K>, b: seq<L>) {
    |a| == |b| && forall i, j :: 0 <= i < |a| && 0 <= j < |a| ==> (a[i] == a[j] <==> b[i] == b[j])
  }

  lemma {:induction false} SamePatternSameRanks<K(!new), L(!new)>(a: seq<K>, b: seq<L>)
    requires SamePattern(a, b)
    ensures |Seen(a)| == |Seen(b)|
    ensures forall i :: 0 <= i < |a| ==> Rank(a, a[i]) == Rank(b, b[i])
  {
    if a != [] {
      var c, d, n := Front(a), Front(b), |a| - 1;
      assert a == c + [a[n]] && b == d + [b[n]];
      SamePatternSameRanks(c, d);
      forall i | 0 <= i < n ensures Rank(a, a[i]) == Rank(b, b[i]) {
        assert a[i] == c[i] && b[i] == d[i];
        RankStable(c, a[i], a[n]);
        RankStable(d, b[i], b[n]);
      }
      if a[n] in c {
        var j :| 0 <= j < n && c[j] == a[n];
        assert a[j] == a[n] && b[j] == b[n] && d[j] == b[n];
      } else {
        forall j | 0 <= j < n ensures d[j] != b[n] {
          assert c[j] in c && a[j] == c[j] && b[j] == d[j];
        }
        NewRank(c, a[n]);
        NewRank(d, b[n]);
      }
    }
  }

  /**
    Streams with the same equality pattern are renamed to the same indices; and streams that are
    renamed to the same indices have the same pattern, as long as the indices have not wrapped.
   */
  lemma CanonicalRenaming<K(!new), L(!new)>(a: seq<K>, b: seq<L>, modulus: nat)
    requires modulus >= 1
    ensures SamePattern(a, b) ==> IndexStream(a, modulus) == IndexStream(b, modulus)
    ensures |Seen(a)| <= modulus && |Seen(b)| <= modulus && IndexStream(a, modulus) == IndexStream(b, modulus)
            ==> SamePattern(a, b)
  {
    var x, y := IndexStream(a, modulus), IndexStream(b, modulus);
    forall i | 0 <= i < |a| ensures x[i] == Rem(Rank(a, a[i]), modulus) {
      StreamIsStable(a, modulus, i);
    }
    forall i | 0 <= i < |b| ensures y[i] == Rem(Rank(b, b[i]), modulus) {
      StreamIsStable(b, modulus, i);
    }
    if SamePattern(a, b) {
      SamePatternSameRanks(a, b);
      assert x == y;
    }
    if |Seen(a)| <= modulus && |Seen(b)| <= modulus && x == y {
      forall i, j | 0 <= i < |a| && 0 <= j < |a| ensures a[i] == a[j] <==> b[i] == b[j] {
        assert x[i] == Rank(a, a[i]) && x[j] == Rank(a, a[j]);
        assert y[i] == Rank(b, b[i]) && y[j] == Rank(b, b[j]);
        SameRankSameKey(a, a[i], a[j]);
        SameRankSameKey(b, b[i], b[j]);
      }
    }
  }

  // ---------- the capacity of the counter vector ----------

  /** Doubles when the index after `index` would not be below the capacity. */
  function Grown(capacity: nat, index: nat, modulus: nat): nat
    requires modulus >= 1
  {
    if Rem(index + 1, modulus) >= capacity then 2 * capacity else capacity
  }

  function CapacityAfter<Key(==,!new)>(initial: nat, keys: seq<Key>, modulus: nat): nat
    requires modulus >= 1
  {
    if keys == [] then initial
    else Grown(CapacityAfter(initial, Front(keys), modulus), IndexOfLast(keys, modulus), modulus)
  }

  lemma CapacityStep<Key(!new)>(initial: nat, keys: seq<Key>, key: Key, modulus: nat)
    requires modulus >= 1
    ensures CapacityAfter(initial, keys + [key], modulus) ==
            Grown(CapacityAfter(initial, keys, modulus), IndexOfLast(keys + [key], modulus), modulus)
  {
    assert Front(keys + [key]) == keys;
  }

  /** How often the capacity was doubled. */
  function Doublings<Key(==,!new)>(initial: nat, keys: seq<Key>, modulus: nat): nat
    requires modulus >= 1
  {
    if keys == [] then 0
    else
      var c := CapacityAfter(initial, Front(keys), modulus);
      Doublings(initial, Front(keys), modulus) + if Grown(c, IndexOfLast(keys, modulus), modulus) == c then 0 else 1
  }

  /** The capacity is ahead of the distinct keys, if any, and no bigger than they have made it. */
  ghost predicate Ahead(initial: nat, seen: nat, capacity: nat, power: nat) {
    && (seen < capacity || seen == 0)
    && capacity == initial * power
    && initial <= capacity
    && (capacity <= initial || capacity <= 2 * seen)
  }

  lemma StaysAhead(initial: nat, seen: nat, capacity: nat, power: nat, index: nat, modulus: nat)
    requires initial >= 1 && Ahead(initial, seen, capacity, power)
    requires index <= seen && index + 1 < modulus
    ensures
      var grown := Grown(capacity, index, modulus);
      Ahead(initial, if index == seen then seen + 1 else seen, grown, if grown == capacity then power else 2 * power)
  {
    assert Rem(index + 1, modulus) == index + 1;
    DoublingStep(initial, power);
  }

  /** The index of a key that comes again is less than the number of keys seen before. */
  lemma KnownIndex<Key(!new)>(before: seq<Key>, key: Key, modulus: nat)
    requires key in before && |Seen(before)| <= modulus && modulus >= 1
    ensures IndexOfLast(before + [key], modulus) < |Seen(before)| == |Seen(before + [key])|
  {
    RenamesKnown(before, key, modulus);
    var r := Rank(before, key);
    assert Rem(r, modulus) == r;
  }

  /** That of a new key is this number. */
  lemma NewIndex<Key(!new)>(before: seq<Key>, key: Key, modulus: nat)
    requires key !in before && |Seen(before + [key])| <= modulus && modulus >= 1
    ensures IndexOfLast(before + [key], modulus) == |Seen(before)| == |Seen(before + [key])| - 1
  {
    NewRank(before, key);
    assert Last(before + [key]) == key;
    assert Rem(|Seen(before)|, modulus) == |Seen(before)|;
  }

  /**
    With at least one counter to start with the capacity stays above every mapped index plus one;
    it is the initial size doubled some number of times, and never much more than needed.
   */
  lemma {:induction false} CapacityKeepsAhead<Key(!new)>(initial: nat, keys: seq<Key>, modulus: nat)
    requires initial >= 1 && |Seen(keys)| < modulus
    ensures |Seen(keys)| < CapacityAfter(initial, keys, modulus) || keys == []
    ensures CapacityAfter(initial, keys, modulus) == initial * Pow2(Doublings(initial, keys, modulus))
    ensures initial <= CapacityAfter(initial, keys, modulus)
    ensures CapacityAfter(initial, keys, modulus) <= initial ||
            CapacityAfter(initial, keys, modulus) <= 2 * |Seen(keys)|
  {
    if keys != [] {
      var before := Front(keys);
      assert keys == before + [Last(keys)];
      SeenGrows(keys);
      if Last(keys) in before {
        KnownIndex(before, Last(keys), modulus);
      } else {
        NewIndex(before, Last(keys), modulus);
      }
      CapacityKeepsAhead(initial, before, modulus);
      StaysAhead(initial, |Seen(before)|, CapacityAfter(initial, before, modulus), Pow2(Doublings(initial, before, modulus)),
                 IndexOfLast(keys, modulus), modulus);
    }
  }

  lemma DoublingStep(initial: nat, power: nat)
    ensures 2 * (initial * power) == initial * (2 * power)
  {
  }

  /** Capacity keeps ahead of the mapped indices if and only if the initial size is not zero. */
  lemma {:induction false} CapacityExactly<Key(!new)>(initial: nat, keys: seq<Key>, modulus: nat)
    requires keys != [] && |Seen(keys)| < modulus
    ensures |Seen(keys)| < CapacityAfter(initial, keys, modulus) <==> initial >= 1
    ensures initial == 0 ==> CapacityAfter(initial, keys, modulus) == 0
  {
    if initial >= 1 {
      CapacityKeepsAhead(initial, keys, modulus);
    } else if |keys| > 1 {
      SeenGrows(keys);
      CapacityExactly(initial, Front(keys), modulus);
    }
  }

  lemma SeenGrows<Key(!new)>(keys: seq<Key>)
    requires keys != []
    ensures |Seen(Front(keys))| <= |Seen(keys)|
  {
  }

  /**
    reserve makes room but adds no elements, so the vector keeps its initial size: the checked
    access succeeds for every mapped index if and only if no more keys than that were mapped.
   */
  lemma CheckedAccessExactly<Key(!new)>(initial: nat, keys: seq<Key>, modulus: nat)
    requires |Seen(keys)| <= modulus && modulus >= 1
    ensures (forall i :: 0 <= i < |keys| ==> IndexStream(keys, modulus)[i] < initial) <==> |Seen(keys)| <= initial
  {
    forall i | 0 <= i < |keys| ensures IndexStream(keys, modulus)[i] < |Seen(keys)| {
      StreamIsStable(keys, modulus, i);
    }
    if |Seen(keys)| > initial {
      var i := IndicesAreDense(keys, modulus, |Seen(keys)| - 1);
    }
  }
}

module CompressorClasses {
  import opened Prelude
  import opened Bits
  import opened Renaming

  class Compressor<Key(==,!new)> {
    const modulus: nat
    var entries: map<Key, nat>
    var nextIndex: nat
    ghost var keys: seq<Key>  // all keys mapped so far

    ghost predicate Valid()
      reads this
    {
      && modulus >= 1
      && nextIndex == Rem(|Seen(keys)|, modulus)
      && entries == RenamingOf(keys, modulus)
    }

    constructor (modulus: nat)
      requires modulus >= 1
      ensures Valid() && keys == [] && this.modulus == modulus
    {
      this.modulus := modulus;
      entries := map[];
      nextIndex := 0;
      keys := [];
    }

    /** A known key keeps its index; a new one gets the next index. */
    method Map(key: Key) returns (index: nat)
      requires Valid()
      modifies this
      ensures Valid() && keys == old(keys) + [key]
      ensures index == IndexOfLast(keys, modulus)
    {
      if key in entries {
        RenamesKnown(keys, key, modulus);
        index := entries[key];
      } else {
        RenamesNew(keys, key, modulus);
        entries := entries[key := nextIndex];
        index := nextIndex;
        nextIndex := Rem(nextIndex + 1, modulus);
      }
      keys := keys + [key];
    }
  }

  /** The capacity after reserve(n): room for n elements at least, never less than before. */
  function Reserved(capacity: nat, n: nat): nat {
    if n > capacity then n else capacity
  }

  class CompressorCounter<Key(==,!new)> {
    const compressor: Compressor<Key>
    const initCounterSize: nat
    var counters: seq<nat>  // the elements of the vector
    var capacity: nat       // the elements it has room for

    ghost predicate Valid()
      reads this, compressor
    {
      && compressor.Valid()
      && |counters| == initCounterSize
      && HasGrown(compressor.keys)
    }

    /** The vector has grown as the stream of keys demands. */
    ghost predicate HasGrown(keys: seq<Key>)
      requires compressor.modulus >= 1
      reads this
    {
      capacity == CapacityAfter(initCounterSize, keys, compressor.modulus)
    }

    constructor (initCounterSize: nat, modulus: nat)
      requires modulus >= 1
      ensures Valid() && fresh(compressor) && compressor.keys == [] && compressor.modulus == modulus
      ensures this.initCounterSize == initCounterSize
      ensures forall i :: 0 <= i < initCounterSize ==> counters[i] == 0
    {
      compressor := new Compressor(modulus);
      this.initCounterSize := initCounterSize;
      counters := seq(initCounterSize, _ => 0);
      capacity := initCounterSize;
    }

    method Map(key: Key) returns (index: nat)
      requires Valid()
      modifies this`capacity, compressor
      ensures Valid() && compressor.keys == old(compressor.keys) + [key]
      ensures index == IndexOfLast(compressor.keys, compressor.modulus)
    {
      ghost var keys := compressor.keys + [key];
      CapacityStep(initCounterSize, compressor.keys, key, compressor.modulus);
      index := compressor.Map(key);
      Reserve(index);
      assert compressor.keys == keys && HasGrown(keys);
    }

    /** Makes room for twice as many counters when the index after this one would not be below the capacity. */
    method Reserve(index: nat)
      requires compressor.modulus >= 1
      modifies this`capacity
      ensures capacity == Grown(old(capacity), index, compressor.modulus)
    {
      if Rem(index + 1, compressor.modulus) >= capacity {
        capacity := Reserved(capacity, 2 * capacity);
      }
    }

    /** The range-checked access; None stands for the exception. */
    method At(index: nat) returns (counter: Option<nat>)
      requires Valid()
      ensures counter.Some? <==> index < initCounterSize
      ensures counter.Some? ==> counter.value == counters[index]
    {
      counter := if index < |counters| then Some(counters[index]) else None;
    }
  }

  /** A counter vector of initial size zero never gets room for its first key. */
  method NoRoomForFirstKey() returns (index: nat, capacity: nat)
    ensures index == 0 == capacity
  {
    var c := new CompressorCounter<nat>(0, WORD32);
    index := c.Map(7);
    assert index == IndexOfLast([7], WORD32);
    capacity := c.capacity;
  }

  /** A counter vector of initial size one refuses the checked access to its second key. */
  method SecondKeyIsRefused() returns (index: nat, counter: Option<nat>)
    ensures index == 1 && counter == None
  {
    var c := new CompressorCounter<nat>(1, WORD32);
    var _ := c.Map(7);
    index := c.Map(9);
    NewRank([7], 9);
    NewRank<nat>([], 7);
    assert [] + [7] == [7] && [7] + [9] == [7, 9];
    counter := c.At(index);
  }
}

/**
  Theorems that compare two runs: a bigger direct-mapped cache with a smaller one, a trace with the
  same trace without its stores, and an access with its immediate repetition.
 */
module CacheComparisons {
  import opened Prelude
  import opened Bits
  import opened FifoQueue
  import opened SetTraces
  import opened CacheModel
  import opened CacheGeometry
  import opened CacheTraces

  // ---------- stores that do not allocate leave no trace ----------

  function LoadsOnly(trace: seq<Event>): seq<Event> {
    if trace == [] then []
    else if Last(trace).Access? && Last(trace).kind == Store then LoadsOnly(Front(trace))
    else LoadsOnly(Front(trace)) + [Last(trace)]
  }

  /** The results of the loads of a trace, in order. */
  function LoadResults(policy: StoreAllocation, s: State, trace: seq<Event>): seq<bool> {
    if trace == [] then []
    else
      var before := LoadResults(policy, s, Front(trace));
      match Last(trace)
      case Access(lines, Load) => before + [AllHit(Run(policy, s, Front(trace)).sets, lines, true)]
      case _ => before
  }

  lemma {:induction false} NoAllocateKeepsTags(sets: Sets, lines: seq<Tag>)
    ensures TouchLines(sets, lines, false) == sets
  {
    if lines != [] {
      NoAllocateKeepsTags(sets, Front(lines));
    }
  }

  /** Without store allocation, deleting all stores changes no tag and no load result. */
  lemma {:induction false} StoresDoNotInterfere(s: State, trace: seq<Event>)
    ensures Run(StoreNoAllocate, s, LoadsOnly(trace)).sets == Run(StoreNoAllocate, s, trace).sets
    ensures LoadResults(StoreNoAllocate, s, LoadsOnly(trace)) == LoadResults(StoreNoAllocate, s, trace)
    ensures forall hit :: Run(StoreNoAllocate, s, LoadsOnly(trace)).counts.Get(Load, hit) ==
                          Run(StoreNoAllocate, s, trace).counts.Get(Load, hit)
  {
    if trace != [] {
      StoresDoNotInterfere(s, Front(trace));
      match Last(trace) {
        case Access(lines, Store) => NoAllocateKeepsTags(Run(StoreNoAllocate, s, Front(trace)).sets, lines);
        case e => assert Front(LoadsOnly(Front(trace)) + [e]) == LoadsOnly(Front(trace));
      }
    }
  }

  // ---------- loads allocate, and so do stores under the other policy ----------

  ghost predicate SomeWay(sets: Sets) {
    forall i :: 0 <= i < |sets| ==> |sets[i]| >= 1
  }

  /** After a load, or any access under StoreAllocate, the line that it touched last hits. */
  lemma AccessedLineHits(policy: StoreAllocation, s: State, lines: seq<Tag>, kind: AccessType)
    requires SomeWay(s.sets) && lines != [] && (kind == Load || policy == StoreAllocate)
    ensures LineHit(Step(policy, s, Access(lines, kind)).sets, Last(lines))
  {
    var mid := TouchLines(s.sets, Front(lines), true);
    assert |mid[SetOf(Last(lines), |mid|)]| >= 1;
    assert Step(policy, s, Access(lines, kind)).sets == TouchLine(mid, Last(lines), true);
  }

  /** The same trace with loads in place of the stores. */
  function AsLoads(trace: seq<Event>): seq<Event> {
    if trace == [] then []
    else AsLoads(Front(trace)) + [match Last(trace) case Access(lines, _) => Access(lines, Load) case e => e]
  }

  /** Under StoreAllocate stores leave the tags that loads of the same lines would leave. */
  lemma {:induction false} StoresAllocateLikeLoads(policy: StoreAllocation, s: State, trace: seq<Event>)
    ensures Run(StoreAllocate, s, trace).sets == Run(policy, s, AsLoads(trace)).sets
  {
    if trace != [] {
      StoresAllocateLikeLoads(policy, s, Front(trace));
      assert Front(AsLoads(trace)) == AsLoads(Front(trace));
    }
  }

  // ---------- direct-mapped inclusion ----------

  ghost predicate OneWay(sets: Sets) {
    forall i :: 0 <= i < |sets| ==> |sets[i]| == 1
  }

  /** Everything that hits in the small cache hits in the big one. */
  ghost predicate Includes(small: Sets, big: Sets) {
    forall line: Tag :: LineHit(small, line) ==> LineHit(big, line)
  }

  /** A one-way set holds the line that was allocated in it last. */
  lemma DirectTouch(sets: Sets, line: Tag, allocate: bool, other: Tag)
    requires OneWay(sets)
    ensures OneWay(TouchLine(sets, line, allocate))
    ensures LineHit(TouchLine(sets, line, allocate), other) <==>
            if allocate && SetOf(other, |sets|) == SetOf(line, |sets|) then other == line else LineHit(sets, other)
  {
  }

  lemma DirectTouchIncludes(small: Sets, big: Sets, line: Tag, allocate: bool)
    requires OneWay(small) && OneWay(big) && Includes(small, big) && Rem(|big|, |small|) == 0
    ensures Includes(TouchLine(small, line, allocate), TouchLine(big, line, allocate))
  {
    forall other: Tag | LineHit(TouchLine(small, line, allocate), other)
      ensures LineHit(TouchLine(big, line, allocate), other)
    {
      DirectTouch(small, line, allocate, other);
      DirectTouch(big, line, allocate, other);
      RemOfMultiple(line, |small|, |big|);
      RemOfMultiple(other, |small|, |big|);
    }
  }

  /** The set index of the small cache is determined by that of the big one. */
  lemma RemOfMultiple(x: nat, n: nat, m: nat)
    requires 1 <= n <= m && Rem(m, n) == 0
    ensures Rem(Rem(x, m), n) == Rem(x, n)
  {
    var k, q, r := Quot(m, n), Quot(x, m), Rem(x, m);
    DivMod(x, m);
    DivMod(m, n);
    DivMod(r, n);
    Regroup(n, k, q, Quot(r, n), Rem(r, n));
    DivModUnique(x, n, k * q + Quot(r, n), Rem(r, n));
  }

  lemma Regroup(n: nat, k: nat, q: nat, a: nat, b: nat)
    ensures (n * k) * q + (n * a + b) == n * (k * q + a) + b
  {
    assert (n * k) * q == n * (k * q);
  }

  lemma {:induction false} DirectAccessIncludes(small: Sets, big: Sets, lines: seq<Tag>, allocate: bool)
    requires OneWay(small) && OneWay(big) && Includes(small, big)
    requires |small| <= |big| && Rem(|big|, |small|) == 0
    ensures Includes(TouchLines(small, lines, allocate), TouchLines(big, lines, allocate))
    ensures AllHit(small, lines, allocate) ==> AllHit(big, lines, allocate)
  {
    if lines != [] {
      var before := Front(lines);
      DirectAccessIncludes(small, big, before, allocate);
      DirectTouchIncludes(TouchLines(small, before, allocate), TouchLines(big, before, allocate), Last(lines), allocate);
    }
  }

  /** The big cache never has more misses, with the same number of accesses of each kind. */
  ghost predicate NoMoreMisses(small: Counts, big: Counts) {
    && big.loadMisses <= small.loadMisses && big.storeMisses <= small.storeMisses
    && big.loadMisses + big.loadHits == small.loadMisses + small.loadHits
    && big.storeMisses + big.storeHits == small.storeMisses + small.storeHits
  }

  ghost predicate Dominated(small: State, big: State) {
    && OneWay(small.sets) && OneWay(big.sets)
    && |small.sets| <= |big.sets| && Rem(|big.sets|, |small.sets|) == 0
    && Includes(small.sets, big.sets)
    && NoMoreMisses(small.counts, big.counts)
  }

  lemma FlushIncludes(small: Sets, big: Sets)
    requires OneWay(small) && OneWay(big)
    ensures OneWay(FlushSets(small)) && OneWay(FlushSets(big))
    ensures Includes(FlushSets(small), FlushSets(big))
  {
  }

  lemma StepKeepsDominated(policy: StoreAllocation, small: State, big: State, e: Event)
    requires Dominated(small, big)
    ensures Dominated(Step(policy, small, e), Step(policy, big, e))
  {
    match e {
      case Access(lines, kind) => DirectAccessIncludes(small.sets, big.sets, lines, Allocates(kind, policy));
      case Flush => FlushIncludes(small.sets, big.sets);
      case ResetStats =>
    }
  }

  lemma {:induction false} InclusionOverRuns(policy: StoreAllocation, small: State, big: State, trace: seq<Event>)
    requires Dominated(small, big)
    ensures Dominated(Run(policy, small, trace), Run(policy, big, trace))
  {
    if trace != [] {
      InclusionOverRuns(policy, small, big, Front(trace));
      StepKeepsDominated(policy, Run(policy, small, Front(trace)), Run(policy, big, Front(trace)), Last(trace));
    }
  }

  /**
    Two direct-mapped caches of accepted geometries, with the same line size and policy: after any
    trace whatever hits in the smaller one also hits in the bigger one, for the next access as a
    whole too, and the bigger one has had no more misses.
   */
  lemma BiggerDirectMappedIsBetter(policy: StoreAllocation, gs: Geometry, gb: Geometry, small: State, big: State,
                                   trace: seq<Event>, lines: seq<Tag>, kind: AccessType)
    requires gs.Accepted() && gb.Accepted() && gs.associativity == gb.associativity == 1
    requires gs.lineSize == gb.lineSize && gs.NumSets() >= 1 && gs.cacheSize <= gb.cacheSize
    requires IsInitial(small, gs.NumSets(), 1) && IsInitial(big, gb.NumSets(), 1)
    ensures
      var s, b := Run(policy, small, trace), Run(policy, big, trace);
      && Includes(s.sets, b.sets)
      && (AllHit(s.sets, lines, Allocates(kind, policy)) ==> AllHit(b.sets, lines, Allocates(kind, policy)))
      && NoMoreMisses(s.counts, b.counts)
  {
    AcceptedGeometry(gs);
    AcceptedGeometry(gb);
    QuotMonotone(gs.cacheSize, gb.cacheSize, gs.BlockSize());
    var i: nat :| gs.NumSets() == Pow2(i);
    var j: nat :| gb.NumSets() == Pow2(j);
    Pow2Divides(i, j);
    InclusionOverRuns(policy, small, big, trace);
    var s, b := Run(policy, small, trace), Run(policy, big, trace);
    DirectAccessIncludes(s.sets, b.sets, lines, Allocates(kind, policy));
  }

  // ---------- repeating an access ----------

  ghost predicate DistinctSets(lines: seq<Tag>, numSets: nat)
    requires numSets >= 1
  {
    forall i, j :: 0 <= i < j < |lines| ==> SetOf(lines[i], numSets) != SetOf(lines[j], numSets)
  }

  lemma {:induction false} TouchedLinesStay(sets: Sets, lines: seq<Tag>)
    requires SomeWay(sets) && DistinctSets(lines, |sets|)
    ensures forall j :: 0 <= j < |lines| ==> LineHit(TouchLines(sets, lines, true), lines[j])
  {
    if lines != [] {
      var before := Front(lines);
      TouchedLinesStay(sets, before);
      var mid := TouchLines(sets, before, true);
      forall j | 0 <= j < |lines| ensures LineHit(TouchLine(mid, Last(lines), true), lines[j]) {
        if j < |before| {
          assert lines[j] == before[j];
        }
      }
    }
  }

  lemma {:induction false} HitsChangeNothing(sets: Sets, lines: seq<Tag>, allocate: bool)
    requires forall j :: 0 <= j < |lines| ==> LineHit(sets, lines[j])
    ensures TouchLines(sets, lines, allocate) == sets && AllHit(sets, lines, allocate)
  {
    if lines != [] {
      HitsChangeNothing(sets, Front(lines), allocate);
      assert LineHit(sets, lines[|lines| - 1]);
    }
  }

  /** Different lines, one after the other modulo the number of sets. */
  ghost predicate Consecutive(lines: seq<Tag>, numSets: nat)
    requires numSets >= 1
  {
    && NoRepeats(lines)
    && forall i :: 0 <= i < |lines| ==> SetOf(lines[i], numSets) == Rem(lines[0] + i, numSets)
  }

  /** Lines that go round all K lines once at most are, when the number of sets divides K. */
  lemma CyclicIsConsecutive(lines: seq<Tag>, f: nat, K: nat, numSets: nat)
    requires f < K && |lines| <= K && forall i :: 0 <= i < |lines| ==> lines[i] == Rem(f + i, K)
    requires 1 <= numSets <= K && Rem(K, numSets) == 0
    ensures Consecutive(lines, numSets)
  {
    forall i, j | 0 <= i < j < |lines| ensures lines[i] != lines[j] {
      NearbyRemainders(f + i, f + j, K);
    }
    forall i | 0 <= i < |lines| ensures SetOf(lines[i], numSets) == Rem(lines[0] + i, numSets) {
      RemOfMultiple(f + i, numSets, K);
      assert lines[0] == Rem(f + 0, K) == f;
    }
  }

  /** So are the lines of one access, also if it wraps. */
  lemma AccessIsConsecutive(addr: nat, size: nat, s: Space, numSets: nat)
    requires s.Valid() && addr < s.size && Terminates(addr, size, s)
    requires 1 <= numSets <= s.Lines() && Rem(s.Lines(), numSets) == 0
    ensures Consecutive(Lines(addr, size, s), numSets)
  {
    var lines, f, K := Lines(addr, size, s), LineNumber(addr, s.lineSize), s.Lines();
    LineAt(addr, size, s, 0);
    forall i | 0 <= i < |lines| ensures lines[i] == Rem(f + i, K) {
      LineAt(addr, size, s, i);
    }
    CyclicIsConsecutive(lines, f, K, numSets);
  }

  /** At most numSets of them fall into distinct sets. */
  lemma ConsecutiveDistinct(lines: seq<Tag>, numSets: nat)
    requires numSets >= 1 && Consecutive(lines, numSets) && |lines| <= numSets
    ensures DistinctSets(lines, numSets)
  {
    forall i, j | 0 <= i < j < |lines| ensures SetOf(lines[i], numSets) != SetOf(lines[j], numSets) {
      NearbyRemainders(lines[0] + i, lines[0] + j, numSets);
    }
  }

  /** A load of at most NumSets() lines hits when repeated at once, and changes no tag. */
  lemma RepeatedLoadHits(g: Geometry, w: nat, sets: Sets, addr: nat, size: nat)
    requires g.Accepted() && |sets| == g.NumSets() && SomeWay(sets) && 32 <= w && addr < Pow2(w)
    ensures
      var s := Space(g.lineSize, Pow2(w));
      s.Valid() && (Terminates(addr, size, s) ==>
        var lines := Lines(addr, size, s);
        var after := TouchLines(sets, lines, true);
        |lines| <= |sets| ==> AllHit(after, lines, true) && TouchLines(after, lines, true) == after)
  {
    var s := Space(g.lineSize, Pow2(w));
    SetsDivideLines(g, w);
    if Terminates(addr, size, s) && |Lines(addr, size, s)| <= |sets| {
      var lines := Lines(addr, size, s);
      AccessIsConsecutive(addr, size, s, |sets|);
      ConsecutiveDistinct(lines, |sets|);
      TouchedLinesStay(sets, lines);
      HitsChangeNothing(TouchLines(sets, lines, true), lines, true);
    }
  }

  /** With one way per set, a longer access drives its first line out again. */
  lemma {:induction false} FirstGone(sets: Sets, lines: seq<Tag>)
    requires OneWay(sets) && Consecutive(lines, |sets|) && |lines| > |sets|
    ensures !LineHit(TouchLines(sets, lines, true), lines[0])
  {
    var n, before := |sets|, Front(lines);
    DirectTouch(TouchLines(sets, before, true), Last(lines), true, lines[0]);
    assert Last(lines) != lines[0];
    if |before| > n {
      FirstGone(sets, before);
    } else {
      assert SetOf(lines[n], n) == Rem(lines[0] + n, n) == Rem(lines[0], n);
    }
  }

  lemma FirstMiss(sets: Sets, lines: seq<Tag>, allocate: bool)
    requires lines != [] && !LineHit(sets, lines[0])
    ensures !AllHit(sets, lines, allocate)
  {
    AllHitMeansEach(sets, lines, allocate);
    assert lines[..0] == [];
    assert !HitInTurn(sets, lines, 0, allocate);
  }

  lemma LongAccessMisses(sets: Sets, lines: seq<Tag>)
    requires OneWay(sets) && Consecutive(lines, |sets|) && |lines| > |sets|
    ensures !AllHit(TouchLines(sets, lines, true), lines, true)
  {
    FirstGone(sets, lines);
    FirstMiss(TouchLines(sets, lines, true), lines, true);
  }

  /** For direct-mapped sets the bound of RepeatedLoadHits is exact. */
  lemma RepeatedLoadHitsExactly(g: Geometry, w: nat, sets: Sets, addr: nat, size: nat)
    requires g.Accepted() && |sets| == g.NumSets() && OneWay(sets) && 32 <= w && addr < Pow2(w)
    ensures
      var s := Space(g.lineSize, Pow2(w));
      s.Valid() && (Terminates(addr, size, s) ==>
        var lines := Lines(addr, size, s);
        AllHit(TouchLines(sets, lines, true), lines, true) <==> |lines| <= |sets|)
  {
    var s := Space(g.lineSize, Pow2(w));
    SetsDivideLines(g, w);
    assert SomeWay(sets);
    RepeatedLoadHits(g, w, sets, addr, size);
    if Terminates(addr, size, s) && |Lines(addr, size, s)| > |sets| {
      AccessIsConsecutive(addr, size, s, |sets|);
      LongAccessMisses(sets, Lines(addr, size, s));
    }
  }
}

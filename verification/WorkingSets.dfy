/**
  Theorems about runs whose lines fit in their sets: loads of a working set miss each line at most
  once, and exactly when the lines that are resident at the same time can exceed the cache size.
 */
module WorkingSets {
  import opened Prelude
  import opened Bits
  import opened FifoQueue
  import opened SetTraces
  import opened CacheModel
  import opened CacheGeometry
  import opened CacheTraces

  // ---------- the lines of one set ----------

  /** The lines that belong to set i. */
  function Own(lines: seq<Tag>, numSets: nat, i: nat): seq<Tag>
    requires numSets >= 1
  {
    if lines == [] then []
    else Own(Front(lines), numSets, i) + if SetOf(Last(lines), numSets) == i then [Last(lines)] else []
  }

  lemma {:induction false} OwnLoads(lines: seq<Tag>, numSets: nat, i: nat)
    requires numSets >= 1
    ensures ProjectLines(lines, true, numSets, i) == Loads(Own(lines, numSets, i))
  {
    if lines != [] {
      OwnLoads(Front(lines), numSets, i);
    }
  }

  lemma {:induction false} OwnElements(lines: seq<Tag>, numSets: nat, i: nat, line: Tag)
    requires numSets >= 1
    ensures line in Own(lines, numSets, i) <==> line in lines && SetOf(line, numSets) == i
  {
    if lines != [] {
      OwnElements(Front(lines), numSets, i, line);
      assert lines == Front(lines) + [Last(lines)];
    }
  }

  lemma {:induction false} OwnGrows(lines: seq<Tag>, k: nat, numSets: nat, i: nat)
    requires numSets >= 1 && k <= |lines|
    ensures Own(lines[..k], numSets, i) <= Own(lines, numSets, i)
  {
    if k == |lines| {
      assert lines[..k] == lines;
    } else {
      assert Front(lines)[..k] == lines[..k];
      OwnGrows(Front(lines), k, numSets, i);
    }
  }

  /** What a set holds after loads. */
  lemma LoadedSet(sets: Sets, lines: seq<Tag>, i: nat)
    requires i < |sets|
    ensures TouchLines(sets, lines, true)[i] == RunSet(sets[i], Loads(Own(lines, |sets|, i)))
  {
    TouchLinesLocal(sets, lines, true, i);
    OwnLoads(lines, |sets|, i);
  }

  /** No set has to hold more distinct lines than it has ways. */
  ghost predicate FitsWays(sets: Sets, lines: seq<Tag>) {
    forall i :: 0 <= i < |sets| ==> |Elements(Own(lines, |sets|, i))| <= |sets[i]|
  }

  // ---------- a line of a fitting working set misses at most once ----------

  /** The position of the k-th line among those of its set. */
  lemma OwnPosition(lines: seq<Tag>, k: nat, numSets: nat) returns (p: nat)
    requires numSets >= 1 && k < |lines|
    ensures
      var i := SetOf(lines[k], numSets);
      var own := Own(lines, numSets, i);
      p == |Own(lines[..k], numSets, i)| < |own| && own[p] == lines[k] && own[..p] == Own(lines[..k], numSets, i)
  {
    var i := SetOf(lines[k], numSets);
    p := |Own(lines[..k], numSets, i)|;
    assert Front(lines[..k + 1]) == lines[..k];
    OwnGrows(lines, k, numSets, i);
    OwnGrows(lines, k + 1, numSets, i);
  }

  /** Whether the k-th line hits is decided by the run of its own set. */
  lemma HitInOwnSet(sets: Sets, lines: seq<Tag>, k: nat, p: nat)
    requires k < |lines|
    requires
      var i := SetOf(lines[k], |sets|);
      p <= |Own(lines, |sets|, i)| && Own(lines, |sets|, i)[..p] == Own(lines[..k], |sets|, i)
    ensures
      var i := SetOf(lines[k], |sets|);
      HitInTurn(sets, lines, k, true) <==> lines[k] in RunSet(sets[i], Loads(Own(lines, |sets|, i)[..p]))
  {
    LoadedSet(sets, lines[..k], SetOf(lines[k], |sets|));
  }

  /** From any state, a line that has missed in a stretch of fitting loads hits each time it comes again. */
  lemma HitsAgain(sets: Sets, lines: seq<Tag>, j: nat, k: nat)
    requires FitsWays(sets, lines) && j < k < |lines| && lines[j] == lines[k]
    requires !HitInTurn(sets, lines, j, true)
    ensures HitInTurn(sets, lines, k, true)
  {
    var i := SetOf(lines[k], |sets|);
    var own := Own(lines, |sets|, i);
    var pj := OwnPosition(lines, j, |sets|);
    var pk := OwnPosition(lines, k, |sets|);
    HitInOwnSet(sets, lines, j, pj);
    HitInOwnSet(sets, lines, k, pk);
    assert pj < pk by {
      assert Front(lines[..j + 1]) == lines[..j] && lines[..k][..j + 1] == lines[..j + 1];
      OwnGrows(lines[..k], j + 1, |sets|, i);
    }
    MissesOnce(sets[i], own, pj, pk);
  }

  /** The lines that miss in a stretch of loads, in the order of the misses. */
  function MissedLines(sets: Sets, lines: seq<Tag>): seq<Tag> {
    if lines == [] then []
    else MissedLines(sets, Front(lines)) + if HitInTurn(sets, lines, |lines| - 1, true) then [] else [Last(lines)]
  }

  lemma {:induction false} MissedInTurn(sets: Sets, lines: seq<Tag>, line: Tag) returns (j: nat)
    requires line in MissedLines(sets, lines)
    ensures j < |lines| && lines[j] == line && !HitInTurn(sets, lines, j, true)
  {
    if line in MissedLines(sets, Front(lines)) {
      j := MissedInTurn(sets, Front(lines), line);
      assert lines[..j] == Front(lines)[..j];
    } else {
      j := |lines| - 1;
    }
  }

  lemma FrontFits(sets: Sets, lines: seq<Tag>)
    requires FitsWays(sets, lines) && lines != []
    ensures FitsWays(sets, Front(lines))
  {
    forall i | 0 <= i < |sets| ensures |Elements(Own(Front(lines), |sets|, i))| <= |sets[i]| {
      SubsetSize(Elements(Own(Front(lines), |sets|, i)), Elements(Own(lines, |sets|, i)));
    }
  }

  lemma {:induction false} NoLineMissesTwice(sets: Sets, lines: seq<Tag>)
    requires FitsWays(sets, lines)
    ensures NoRepeats(MissedLines(sets, lines)) && Elements(MissedLines(sets, lines)) <= Elements(lines)
  {
    if lines != [] {
      var before, last := Front(lines), Last(lines);
      FrontFits(sets, lines);
      NoLineMissesTwice(sets, before);
      assert Elements(before) <= Elements(lines) && last in Elements(lines);
      if last in MissedLines(sets, before) {
        var j := MissedInTurn(sets, before, last);
        assert lines[..j] == before[..j];
        HitsAgain(sets, lines, j, |lines| - 1);
      }
    }
  }

  lemma {:induction false} MissesCounted(policy: StoreAllocation, s: State, lines: seq<Tag>)
    ensures Run(policy, s, Singles(lines, Load)).counts.loadMisses == s.counts.loadMisses + |MissedLines(s.sets, lines)|
  {
    if lines != [] {
      var before := Front(lines);
      MissesCounted(policy, s, before);
      assert Front(Singles(lines, Load)) == Singles(before, Load);
      SinglesTouchLines(policy, s, before, Load);
      TouchOneLine(TouchLines(s.sets, before, true), Last(lines), true);
    }
  }

  /**
    From any state, single-line loads that never need more lines of a set than it has ways count
    at most one miss for each distinct line, however often and in whatever order they come.
   */
  lemma WorkingSetMissesOnce(policy: StoreAllocation, s: State, lines: seq<Tag>)
    requires FitsWays(s.sets, lines)
    ensures NoRepeats(MissedLines(s.sets, lines))
    ensures Run(policy, s, Singles(lines, Load)).counts.loadMisses == s.counts.loadMisses + |MissedLines(s.sets, lines)|
    ensures |MissedLines(s.sets, lines)| <= |Elements(lines)|
  {
    MissesCounted(policy, s, lines);
    NoLineMissesTwice(s.sets, lines);
    NoRepeatsBound(MissedLines(s.sets, lines), Elements(lines));
  }

  // ---------- consecutive lines spread evenly over the sets ----------

  /** The numbers from a to b - 1 that belong to set i. */
  function Congruent(a: nat, b: nat, numSets: nat, i: nat): set<nat>
    requires numSets >= 1
  {
    set t | a <= t < b && Rem(t, numSets) == i
  }

  lemma AtMostOne(s: set<nat>)
    requires forall x, y :: x in s && y in s ==> x == y
    ensures |s| <= 1
  {
    if s != {} {
      var x :| x in s;
      assert s == {x};
    }
  }

  lemma OnePeriod(a: nat, numSets: nat, i: nat)
    requires numSets >= 1
    ensures |Congruent(a, a + numSets, numSets, i)| <= 1
  {
    var s := Congruent(a, a + numSets, numSets, i);
    forall x, y | x in s && y in s ensures x == y {
      if x < y {
        NearbyRemainders(x, y, numSets);
      } else if y < x {
        NearbyRemainders(y, x, numSets);
      }
    }
    AtMostOne(s);
  }

  lemma {:induction false} CongruentSize(a: nat, b: nat, numSets: nat, ways: nat, i: nat)
    requires numSets >= 1 && b == a + ways * numSets
    ensures |Congruent(a, b, numSets, i)| <= ways
  {
    if ways == 0 {
      assert Congruent(a, a, numSets, i) == {};
    } else {
      assert ways * numSets == (ways - 1) * numSets + numSets;
      var mid: nat := b - numSets;
      Times(0, ways - 1, numSets);
      CongruentSize(a, mid, numSets, ways - 1, i);
      OnePeriod(mid, numSets, i);
      assert Congruent(a, b, numSets, i) == Congruent(a, mid, numSets, i) + Congruent(mid, b, numSets, i);
      UnionSize(Congruent(a, mid, numSets, i), Congruent(mid, b, numSets, i));
    }
  }

  /** Lines from at most numSets * ways consecutive ones fit. */
  lemma ConsecutiveFit(sets: Sets, ways: nat, lines: seq<Tag>, a: nat, b: nat)
    requires forall i :: 0 <= i < |sets| ==> |sets[i]| >= ways
    requires forall k :: 0 <= k < |lines| ==> a <= lines[k] < b
    requires b <= a + ways * |sets|
    ensures FitsWays(sets, lines)
  {
    forall i | 0 <= i < |sets| ensures |Elements(Own(lines, |sets|, i))| <= |sets[i]| {
      forall t | t in Elements(Own(lines, |sets|, i)) ensures t in Congruent(a, a + ways * |sets|, |sets|, i) {
        OwnElements(lines, |sets|, i, t);
      }
      CongruentSize(a, a + ways * |sets|, |sets|, ways, i);
      SubsetSize(Elements(Own(lines, |sets|, i)), Congruent(a, a + ways * |sets|, |sets|, i));
    }
  }

  /** So a loop over a block of memory not bigger than the cache misses each line of it at most once. */
  lemma BlockMissesOnce(policy: StoreAllocation, s: State, ways: nat, lines: seq<Tag>, a: nat, b: nat)
    requires forall i :: 0 <= i < |s.sets| ==> |s.sets[i]| >= ways
    requires forall k :: 0 <= k < |lines| ==> a <= lines[k] < b
    requires a <= b <= a + ways * |s.sets|
    ensures Run(policy, s, Singles(lines, Load)).counts.loadMisses <= s.counts.loadMisses + (b - a)
    ensures NoRepeats(MissedLines(s.sets, lines))
  {
    ConsecutiveFit(s.sets, ways, lines, a, b);
    WorkingSetMissesOnce(policy, s, lines);
    RangeSize(a, b);
    SubsetSize(Elements(lines), Elements(Range(a, b)));
  }

  lemma RangeSize(a: nat, b: nat)
    requires a <= b
    ensures |Elements(Range(a, b))| <= b - a
    ensures forall t :: a <= t < b ==> t in Elements(Range(a, b))
  {
    SeqSetSize(Range(a, b));
    forall t | a <= t < b ensures t in Elements(Range(a, b)) {
      assert Range(a, b)[t - a] == t;
    }
  }

  // ---------- how much can be resident ----------

  /** All lines of the trace are among the first K of the address space. */
  ghost predicate TraceBelow(trace: seq<Event>, K: nat) {
    forall e :: e in trace && e.Access? ==> forall k :: 0 <= k < |e.lines| ==> e.lines[k] < K
  }

  ghost predicate TagsBelow(sets: Sets, K: nat) {
    forall i, w :: 0 <= i < |sets| && 0 <= w < |sets[i]| ==> sets[i][w] < K
  }

  lemma {:induction false} TouchedBelow(sets: Sets, lines: seq<Tag>, allocate: bool, K: nat)
    requires TagsBelow(sets, K) && forall k :: 0 <= k < |lines| ==> lines[k] < K
    ensures TagsBelow(TouchLines(sets, lines, allocate), K)
  {
    if lines != [] {
      TouchedBelow(sets, Front(lines), allocate, K);
    }
  }

  lemma {:induction false} RunBelow(policy: StoreAllocation, s: State, trace: seq<Event>, K: nat)
    requires TagsBelow(s.sets, K) && TraceBelow(trace, K) && K >= 1
    ensures TagsBelow(Run(policy, s, trace).sets, K)
  {
    if trace != [] {
      RunBelow(policy, s, Front(trace), K);
      match Last(trace) {
        case Access(lines, kind) =>
          TouchedBelow(Run(policy, s, Front(trace)).sets, lines, Allocates(kind, policy), K);
        case Flush =>
        case ResetStats =>
      }
    }
  }

  lemma {:induction false} ResidentTags(sets: seq<Queue>, t: Tag)
    ensures t in Resident(sets) <==> t != 0 && exists i :: 0 <= i < |sets| && t in sets[i]
  {
    if sets != [] {
      ResidentTags(Front(sets), t);
      assert sets == Front(sets) + [Last(sets)];
    }
  }

  /** Only lines of the address space are ever resident. */
  lemma ResidentBelow(policy: StoreAllocation, s: State, numSets: nat, ways: nat, trace: seq<Event>, K: nat)
    requires IsInitial(s, numSets, ways) && TraceBelow(trace, K) && K >= 1
    ensures |Resident(Run(policy, s, trace).sets)| <= K - 1
  {
    var sets := Run(policy, s, trace).sets;
    RunBelow(policy, s, trace, K);
    RangeSize(1, K);
    forall t | t in Resident(sets) ensures t in Elements(Range(1, K)) {
      ResidentTags(sets, t);
    }
    SubsetSize(Resident(sets), Elements(Range(1, K)));
  }

  /** Loads of the lines 1, ..., n. */
  function Fill(n: nat): seq<Event> {
    Singles(Range(1, n + 1), Load)
  }

  lemma FillBelow(n: nat, K: nat)
    requires n < K
    ensures TraceBelow(Fill(n), K)
  {
  }

  /** They make all of these lines resident, if there are ways for them. */
  lemma FillCache(policy: StoreAllocation, s: State, ways: nat, n: nat)
    requires IsInitial(s, |s.sets|, ways) && n <= ways * |s.sets|
    ensures |Resident(Run(policy, s, Fill(n)).sets)| >= n
  {
    LoadsTouchLines(policy, s, Range(1, n + 1));
    AllResident(s.sets, ways, n);
  }

  lemma LoadsTouchLines(policy: StoreAllocation, s: State, lines: seq<Tag>)
    ensures Run(policy, s, Singles(lines, Load)).sets == TouchLines(s.sets, lines, true)
  {
    SinglesTouchLines(policy, s, lines, Load);
  }

  lemma AllResident(sets: Sets, ways: nat, n: nat)
    requires n <= ways * |sets| && forall i :: 0 <= i < |sets| ==> sets[i] == Cold(ways)
    ensures |Resident(TouchLines(sets, Range(1, n + 1), true))| >= n
  {
    var lines := Range(1, n + 1);
    ConsecutiveFit(sets, ways, lines, 1, n + 1);
    DistinctResident(sets, ways, lines);
  }

  lemma DistinctResident(sets: Sets, ways: nat, lines: seq<Tag>)
    requires forall i :: 0 <= i < |sets| ==> sets[i] == Cold(ways)
    requires FitsWays(sets, lines) && NoRepeats(lines) && forall k :: 0 <= k < |lines| ==> lines[k] != 0
    ensures |Resident(TouchLines(sets, lines, true))| >= |lines|
  {
    var resident := Resident(TouchLines(sets, lines, true));
    forall t | t in lines ensures t in resident {
      StaysResident(sets, ways, lines, t);
    }
    NoRepeatsBound(lines, resident);
  }

  lemma StaysResident(sets: Sets, ways: nat, lines: seq<Tag>, t: Tag)
    requires forall i :: 0 <= i < |sets| ==> sets[i] == Cold(ways)
    requires FitsWays(sets, lines) && t in lines && t != 0
    ensures t in Resident(TouchLines(sets, lines, true))
  {
    var i := SetOf(t, |sets|);
    OwnElements(lines, |sets|, i, t);
    AllStay(ways, Own(lines, |sets|, i), t);
    LoadedSet(sets, lines, i);
    ResidentTags(TouchLines(sets, lines, true), t);
  }

  /** Whatever runs in a space of K lines, the resident lines fit in the cache. */
  ghost predicate AlwaysFits(policy: StoreAllocation, g: Geometry, s: State, K: nat) {
    forall trace :: TraceBelow(trace, K) ==> |Resident(Run(policy, s, trace).sets)| * g.lineSize <= g.cacheSize
  }

  /**
    The resident lines fit in the cache in every reachable state if and only if the product of
    associativity and line size does not wrap, or the cache holds all lines of the space but line 0.
   */
  lemma ResidentFitsExactly(policy: StoreAllocation, g: Geometry, s: State, K: nat)
    requires g.Accepted() && g.NumSets() >= 1 && K >= 1
    requires IsInitial(s, g.NumSets(), g.associativity)
    ensures AlwaysFits(policy, g, s, K) <==> g.associativity * g.lineSize < WORD32 || (K - 1) * g.lineSize <= g.cacheSize
  {
    if g.associativity * g.lineSize < WORD32 {
      forall trace ensures |Resident(Run(policy, s, trace).sets)| * g.lineSize <= g.cacheSize {
        ResidentFits(policy, g, s, trace);
      }
    } else if (K - 1) * g.lineSize <= g.cacheSize {
      forall trace | TraceBelow(trace, K) ensures |Resident(Run(policy, s, trace).sets)| * g.lineSize <= g.cacheSize {
        ResidentBelow(policy, s, g.NumSets(), g.associativity, trace, K);
        Times(|Resident(Run(policy, s, trace).sets)|, K - 1, g.lineSize);
      }
    } else {
      var trace := Overfull(policy, g, s, K);
    }
  }

  /** One line more than fits in the cache can be made resident. */
  lemma Overfull(policy: StoreAllocation, g: Geometry, s: State, K: nat) returns (trace: seq<Event>)
    requires g.Accepted() && g.NumSets() >= 1 && g.associativity * g.lineSize >= WORD32
    requires K >= 1 && (K - 1) * g.lineSize > g.cacheSize
    requires IsInitial(s, g.NumSets(), g.associativity)
    ensures TraceBelow(trace, K) && |Resident(Run(policy, s, trace).sets)| * g.lineSize > g.cacheSize
  {
    CapacityExact(g);
    Associative(g.NumSets(), g.associativity, g.lineSize);
    var n := LeastAbove(g.cacheSize, g.lineSize, g.associativity * |s.sets|, K - 1);
    trace := Fill(n);
    FillBelow(n, K);
    FillCache(policy, s, g.associativity, n);
    Times(n, |Resident(Run(policy, s, trace).sets)|, g.lineSize);
  }

  /** The least multiple of the line size above the cache size. */
  lemma LeastAbove(size: nat, line: nat, m: nat, k: nat) returns (n: nat)
    requires line >= 1 && m * line > size && k * line > size
    ensures n * line > size && n <= m && n <= k
  {
    var q := Quot(size, line);
    DivMod(size, line);
    n := q + 1;
    assert n * line == line * q + line;
    Exceeds(m, q, size, line);
    Exceeds(k, q, size, line);
  }

  lemma Exceeds(m: nat, q: nat, size: nat, line: nat)
    requires m * line > size >= line * q
    ensures m > q
  {
    TimesIf(m, q, line);
  }

  /** With three wrapped ways of 2^31 bytes and 64-bit addresses more than the cache can be resident. */
  lemma ResidentBeyondCapacity(policy: StoreAllocation, s: State)
    requires IsInitial(s, 1, 3)
    ensures !AlwaysFits(policy, Geometry(0x8000_0000, 0x8000_0000, 3), s, 0x2_0000_0000)
  {
    AcceptedBeyondCapacity();
    ResidentFitsExactly(policy, Geometry(0x8000_0000, 0x8000_0000, 3), s, 0x2_0000_0000);
  }
}

/**
  Theorems about the whole cache over all runs of accesses, flushes and resets.
 */
module CacheTraces {
  import opened Prelude
  import opened Bits
  import opened FifoQueue
  import opened SetTraces
  import opened CacheModel
  import opened CacheGeometry

  // ---------- a multi-line access is a row of single-line accesses ----------

  function Singles(lines: seq<Tag>, kind: AccessType): (trace: seq<Event>)
    ensures |trace| == |lines|
  {
    seq(|lines|, i requires 0 <= i < |lines| => Access([lines[i]], kind))
  }

  lemma {:induction false} SinglesTouchLines(policy: StoreAllocation, s: State, lines: seq<Tag>, kind: AccessType)
    ensures Run(policy, s, Singles(lines, kind)).sets == TouchLines(s.sets, lines, Allocates(kind, policy))
    ensures Run(policy, s, Singles(lines, kind)).counts.Accesses() == s.counts.Accesses() + |lines|
  {
    if lines != [] {
      SinglesTouchLines(policy, s, Front(lines), kind);
      assert Front(Singles(lines, kind)) == Singles(Front(lines), kind);
      TouchOneLine(Run(policy, s, Singles(Front(lines), kind)).sets, Last(lines), Allocates(kind, policy));
    }
  }

  /** The i-th line hits when its turn comes. */
  predicate HitInTurn(sets: Sets, lines: seq<Tag>, i: nat, allocate: bool)
    requires i < |lines|
  {
    LineHit(TouchLines(sets, lines[..i], allocate), lines[i])
  }

  lemma {:induction false} AllHitMeansEach(sets: Sets, lines: seq<Tag>, allocate: bool)
    ensures AllHit(sets, lines, allocate) <==> forall i :: 0 <= i < |lines| ==> HitInTurn(sets, lines, i, allocate)
  {
    if lines != [] {
      var before := Front(lines);
      AllHitMeansEach(sets, before, allocate);
      forall i | 0 <= i < |before| ensures HitInTurn(sets, lines, i, allocate) == HitInTurn(sets, before, i, allocate) {
        assert lines[..i] == before[..i];
      }
      assert AllHit(sets, lines, allocate) <==> AllHit(sets, before, allocate) && HitInTurn(sets, lines, |before|, allocate);
    }
  }

  /** Same tags afterwards; it hits exactly if each single access hits; it counts one access, not many. */
  lemma AccessIsSingles(policy: StoreAllocation, s: State, lines: seq<Tag>, kind: AccessType)
    ensures Run(policy, s, Singles(lines, kind)).sets == Step(policy, s, Access(lines, kind)).sets
    ensures AllHit(s.sets, lines, Allocates(kind, policy)) <==>
            forall i :: 0 <= i < |lines| ==> LineHit(Run(policy, s, Singles(lines[..i], kind)).sets, lines[i])
    ensures Run(policy, s, Singles(lines, kind)).counts.Accesses() == s.counts.Accesses() + |lines|
    ensures Step(policy, s, Access(lines, kind)).counts.Accesses() == s.counts.Accesses() + 1
  {
    SinglesTouchLines(policy, s, lines, kind);
    AllHitMeansEach(s.sets, lines, Allocates(kind, policy));
    forall i | 0 <= i < |lines|
      ensures LineHit(Run(policy, s, Singles(lines[..i], kind)).sets, lines[i]) ==
              HitInTurn(s.sets, lines, i, Allocates(kind, policy))
    {
      SinglesTouchLines(policy, s, lines[..i], kind);
    }
  }

  /** The number of access events since the last reset of the counters. */
  function CallsSinceReset(initial: nat, trace: seq<Event>): nat {
    if trace == [] then initial
    else match Last(trace)
      case Access(_, _) => CallsSinceReset(initial, Front(trace)) + 1
      case Flush => CallsSinceReset(initial, Front(trace))
      case ResetStats => 0
  }

  lemma {:induction false} AccessesCountCalls(policy: StoreAllocation, s: State, trace: seq<Event>)
    ensures Run(policy, s, trace).counts.Accesses() == CallsSinceReset(s.counts.Accesses(), trace)
  {
    if trace != [] {
      AccessesCountCalls(policy, s, Front(trace));
    }
  }

  /** The number of accesses since the last reset that are of a kind and hit, or not, with all their lines. */
  function Counted(policy: StoreAllocation, s: State, trace: seq<Event>, kind: AccessType, hit: bool, initial: nat): nat {
    if trace == [] then initial
    else
      var before := Counted(policy, s, Front(trace), kind, hit, initial);
      match Last(trace)
      case Access(lines, k) =>
        if k == kind && EachHits(Run(policy, s, Front(trace)).sets, lines, Allocates(k, policy)) == hit then before + 1 else before
      case Flush => before
      case ResetStats => 0
  }

  predicate EachHits(sets: Sets, lines: seq<Tag>, allocate: bool) {
    forall i :: 0 <= i < |lines| ==> HitInTurn(sets, lines, i, allocate)
  }

  /** Each of the four counters is the number of accesses that it is for. */
  lemma {:induction false} CountersExact(policy: StoreAllocation, s: State, trace: seq<Event>)
    ensures
      var c, d := s.counts, Run(policy, s, trace).counts;
      && d.loadHits == Counted(policy, s, trace, Load, true, c.loadHits)
      && d.loadMisses == Counted(policy, s, trace, Load, false, c.loadMisses)
      && d.storeHits == Counted(policy, s, trace, Store, true, c.storeHits)
      && d.storeMisses == Counted(policy, s, trace, Store, false, c.storeMisses)
  {
    if trace != [] {
      CountersExact(policy, s, Front(trace));
      match Last(trace) {
        case Access(lines, kind) =>
          AllHitMeansEach(Run(policy, s, Front(trace)).sets, lines, Allocates(kind, policy));
        case _ =>
      }
    }
  }

  function Occurrences(e: Event, trace: seq<Event>): nat {
    if trace == [] then 0 else Occurrences(e, Front(trace)) + if Last(trace) == e then 1 else 0
  }

  /** The flush and reset counters grow by one with each flush and each reset, and only then. */
  lemma {:induction false} FlushesAndResetsCounted(policy: StoreAllocation, s: State, trace: seq<Event>)
    ensures Run(policy, s, trace).flushes == s.flushes + Occurrences(Flush, trace)
    ensures Run(policy, s, trace).resets == s.resets + Occurrences(ResetStats, trace)
  {
    if trace != [] {
      FlushesAndResetsCounted(policy, s, Front(trace));
    }
  }

  // ---------- each set sees only its own accesses ----------

  function ProjectLines(lines: seq<Tag>, allocate: bool, numSets: nat, i: nat): seq<SetOp>
    requires numSets >= 1
  {
    if lines == [] then []
    else
      var before := ProjectLines(Front(lines), allocate, numSets, i);
      if SetOf(Last(lines), numSets) == i then before + [Line(Last(lines), allocate)] else before
  }

  /** The operations that a trace performs on set i. */
  function Project(policy: StoreAllocation, trace: seq<Event>, numSets: nat, i: nat): seq<SetOp>
    requires numSets >= 1
  {
    if trace == [] then []
    else
      var before := Project(policy, Front(trace), numSets, i);
      match Last(trace)
      case Access(lines, kind) => before + ProjectLines(lines, Allocates(kind, policy), numSets, i)
      case Flush => before + [Clear]
      case ResetStats => before
  }

  lemma {:induction false} TouchLinesLocal(sets: Sets, lines: seq<Tag>, allocate: bool, i: nat)
    requires i < |sets|
    ensures TouchLines(sets, lines, allocate)[i] == RunSet(sets[i], ProjectLines(lines, allocate, |sets|, i))
  {
    if lines != [] {
      var before := Front(lines);
      TouchLinesLocal(sets, before, allocate, i);
      if SetOf(Last(lines), |sets|) == i {
        RunSetConcat(sets[i], ProjectLines(before, allocate, |sets|, i), [Line(Last(lines), allocate)]);
        RunSetOne(RunSet(sets[i], ProjectLines(before, allocate, |sets|, i)), Line(Last(lines), allocate));
      } else {
        assert ProjectLines(lines, allocate, |sets|, i) == ProjectLines(before, allocate, |sets|, i);
      }
    }
  }

  lemma {:induction false} RunKeepsShape(policy: StoreAllocation, s: State, trace: seq<Event>)
    ensures |Run(policy, s, trace).sets| == |s.sets|
    ensures forall i :: 0 <= i < |s.sets| ==> |Run(policy, s, trace).sets[i]| == |s.sets[i]|
  {
    if trace != [] {
      RunKeepsShape(policy, s, Front(trace));
    }
  }

  /** What a set holds after a run depends only on the operations that map to it. */
  lemma {:induction false} SetsAreIndependent(policy: StoreAllocation, s: State, trace: seq<Event>, i: nat)
    requires i < |s.sets|
    ensures |Run(policy, s, trace).sets| == |s.sets|
    ensures Run(policy, s, trace).sets[i] == RunSet(s.sets[i], Project(policy, trace, |s.sets|, i))
  {
    RunKeepsShape(policy, s, trace);
    if trace != [] {
      var before := Front(trace);
      SetsAreIndependent(policy, s, before, i);
      RunKeepsShape(policy, s, before);
      var mid, ops := Run(policy, s, before).sets, Project(policy, before, |s.sets|, i);
      match Last(trace) {
        case Access(lines, kind) =>
          TouchLinesLocal(mid, lines, Allocates(kind, policy), i);
          RunSetConcat(s.sets[i], ops, ProjectLines(lines, Allocates(kind, policy), |s.sets|, i));
        case Flush =>
          RunSetConcat(s.sets[i], ops, [Clear]);
          RunSetOne(mid[i], Clear);
        case ResetStats =>
          assert ops + [] == ops;
      }
    }
  }

  /**
    Over all runs from a cold cache, a line hits if and only if it is among the last `ways` lines
    allocated in its set since the last flush; line 0 also hits while its set is not yet full.
   */
  lemma HitExact(policy: StoreAllocation, s: State, numSets: nat, ways: nat, trace: seq<Event>, line: Tag)
    requires numSets >= 1 && IsInitial(s, numSets, ways)
    ensures
      var history := Allocated(Cold(ways), Project(policy, trace, numSets, SetOf(line, numSets)));
      LineHit(Run(policy, s, trace).sets, line) <==>
      line in Newest(history, ways) || (line == 0 && |history| < ways)
  {
    var i := SetOf(line, numSets);
    SetsAreIndependent(policy, s, trace, i);
    FoundExact(ways, Project(policy, trace, numSets, i), line);
  }

  // ---------- reachable states ----------

  /** Nonzero tags sit in the set of their index bits and never twice in the same set. */
  ghost predicate Consistent(sets: Sets) {
    forall i :: 0 <= i < |sets| ==> ConsistentSet(sets[i], i, |sets|)
  }

  ghost predicate ConsistentSet(q: Queue, i: nat, numSets: nat)
    requires numSets >= 1
  {
    && (forall w :: 0 <= w < |q| ==> q[w] == 0 || SetOf(q[w], numSets) == i)
    && (forall w, x :: 0 <= w < x < |q| && q[w] == q[x] ==> q[w] == 0)
  }

  lemma TouchKeepsConsistent(q: Queue, tag: Tag, allocate: bool, numSets: nat)
    requires numSets >= 1 && ConsistentSet(q, SetOf(tag, numSets), numSets)
    ensures ConsistentSet(Touch(q, tag, allocate), SetOf(tag, numSets), numSets)
  {
    if q != [] && allocate && tag !in q {
      var r := Push(q, tag);
      assert forall w :: 1 <= w < |r| ==> r[w] == q[w - 1];
    }
  }

  lemma {:induction false} TouchLinesKeepConsistent(sets: Sets, lines: seq<Tag>, allocate: bool)
    requires Consistent(sets)
    ensures Consistent(TouchLines(sets, lines, allocate))
  {
    if lines != [] {
      var mid := TouchLines(sets, Front(lines), allocate);
      TouchLinesKeepConsistent(sets, Front(lines), allocate);
      TouchKeepsConsistent(mid[SetOf(Last(lines), |sets|)], Last(lines), allocate, |sets|);
    }
  }

  lemma {:induction false} ReachableConsistent(policy: StoreAllocation, s: State, numSets: nat, ways: nat, trace: seq<Event>)
    requires numSets >= 1 && IsInitial(s, numSets, ways)
    ensures Consistent(Run(policy, s, trace).sets)
  {
    if trace != [] {
      ReachableConsistent(policy, s, numSets, ways, Front(trace));
      var mid := Run(policy, s, Front(trace)).sets;
      match Last(trace) {
        case Access(lines, kind) => TouchLinesKeepConsistent(mid, lines, Allocates(kind, policy));
        case Flush =>
        case ResetStats =>
      }
    }
  }

  /** The nonzero lines held by the first n sets. */
  function Resident(sets: seq<Queue>): set<Tag> {
    if sets == [] then {} else Resident(Front(sets)) + NonZero(Last(sets))
  }

  function NonZero(q: Queue): set<Tag> {
    set t | t in q && t != 0
  }

  lemma {:induction false} ResidentBound(sets: seq<Queue>, ways: nat)
    requires forall i :: 0 <= i < |sets| ==> |sets[i]| == ways
    ensures |Resident(sets)| <= |sets| * ways
  {
    if sets != [] {
      ResidentBound(Front(sets), ways);
      SeqSetSize(Last(sets));
      SubsetSize(NonZero(Last(sets)), Elements(Last(sets)));
      UnionSize(Resident(Front(sets)), NonZero(Last(sets)));
      assert (|sets| - 1) * ways + ways == |sets| * ways;
    }
  }

  lemma UnionSize(a: set<Tag>, b: set<Tag>)
    ensures |a + b| <= |a| + |b|
  {
    assert a + b == a + (b - a);
    SubsetSize(b - a, b);
  }

  lemma {:induction false} SeqSetSize(q: Queue)
    ensures |Elements(q)| <= |q|
  {
    if q != [] {
      SeqSetSize(Front(q));
      assert Elements(q) == Elements(Front(q)) + {Last(q)};
    }
  }

  lemma Associative(a: nat, b: nat, c: nat)
    ensures a * b * c == a * (b * c)
  {
  }

  /** In every reachable state the resident lines fit in the cache. */
  lemma ResidentFits(policy: StoreAllocation, g: Geometry, s: State, trace: seq<Event>)
    requires g.Accepted() && g.NumSets() >= 1 && g.associativity * g.lineSize < WORD32
    requires IsInitial(s, g.NumSets(), g.associativity)
    ensures |Resident(Run(policy, s, trace).sets)| * g.lineSize <= g.cacheSize
  {
    var sets := Run(policy, s, trace).sets;
    RunKeepsShape(policy, s, trace);
    ResidentBound(sets, g.associativity);
    CapacityExact(g);
    Times(|Resident(sets)|, g.NumSets() * g.associativity, g.lineSize);
    Associative(g.NumSets(), g.associativity, g.lineSize);
  }
}

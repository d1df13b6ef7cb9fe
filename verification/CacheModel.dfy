/**
  The meaning of the whole cache: a row of FIFO queues, the four hit and miss counters, and what
  one event does to them. An access event carries the list of cache lines that it touches, in
  order; the line number is also the tag, because the source keeps the set bits in the tag.
 */
module CacheModel {
  import opened Bits
  import opened FifoQueue

  datatype AccessType = Load | Store

  datatype StoreAllocation = StoreAllocate | StoreNoAllocate

  type Sets = s: seq<Queue> | s != [] witness [[]]

  datatype Counts = Counts(loadMisses: nat, loadHits: nat, storeMisses: nat, storeHits: nat) {
    function Get(kind: AccessType, hit: bool): nat {
      match kind
      case Load => if hit then loadHits else loadMisses
      case Store => if hit then storeHits else storeMisses
    }

    function Bump(kind: AccessType, hit: bool): (c: Counts)
      ensures forall k, h :: c.Get(k, h) == Get(k, h) + if k == kind && h == hit then 1 else 0
    {
      match kind
      case Load => if hit then this.(loadHits := loadHits + 1) else this.(loadMisses := loadMisses + 1)
      case Store => if hit then this.(storeHits := storeHits + 1) else this.(storeMisses := storeMisses + 1)
    }

    function Accesses(): nat {
      loadMisses + loadHits + storeMisses + storeHits
    }
  }

  const ZERO_COUNTS := Counts(0, 0, 0, 0)

  datatype Event = Access(lines: seq<Tag>, kind: AccessType) | Flush | ResetStats

  datatype State = State(sets: Sets, counts: Counts, flushes: nat, resets: nat)

  /** Whether a miss brings the line in: with loads in every case, with stores if the policy says so. */
  predicate Allocates(kind: AccessType, policy: StoreAllocation) {
    kind.Load? || policy.StoreAllocate?
  }

  /** The lowest bits of the line number select the set. */
  function SetOf(line: Tag, numSets: nat): (i: nat)
    requires numSets >= 1
    ensures i < numSets
  {
    Rem(line, numSets)
  }

  predicate LineHit(sets: Sets, line: Tag) {
    line in sets[SetOf(line, |sets|)]
  }

  function TouchAt(sets: Sets, i: nat, line: Tag, allocate: bool): (r: Sets)
    requires i < |sets|
    ensures |r| == |sets|
    ensures forall j :: 0 <= j < |sets| ==> |r[j]| == |sets[j]|
  {
    sets[i := Touch(sets[i], line, allocate)]
  }

  function TouchLine(sets: Sets, line: Tag, allocate: bool): (r: Sets)
    ensures |r| == |sets|
    ensures forall i :: 0 <= i < |sets| ==> |r[i]| == |sets[i]|
  {
    TouchAt(sets, SetOf(line, |sets|), line, allocate)
  }

  function TouchLines(sets: Sets, lines: seq<Tag>, allocate: bool): (r: Sets)
    ensures |r| == |sets|
    ensures forall i :: 0 <= i < |sets| ==> |r[i]| == |sets[i]|
  {
    if lines == [] then sets
    else TouchLine(TouchLines(sets, lines[..|lines| - 1], allocate), lines[|lines| - 1], allocate)
  }

  /** Whether every line hits at the moment it is touched. */
  predicate AllHit(sets: Sets, lines: seq<Tag>, allocate: bool) {
    if lines == [] then true
    else
      var before := lines[..|lines| - 1];
      AllHit(sets, before, allocate) && LineHit(TouchLines(sets, before, allocate), lines[|lines| - 1])
  }

  lemma TouchOneLine(sets: Sets, line: Tag, allocate: bool)
    ensures TouchLines(sets, [line], allocate) == TouchLine(sets, line, allocate)
    ensures AllHit(sets, [line], allocate) == LineHit(sets, line)
  {
    assert [line][..0] == [];
  }

  lemma TouchNextLine(sets: Sets, lines: seq<Tag>, k: nat, allocate: bool)
    requires k < |lines|
    ensures TouchLines(sets, lines[..k + 1], allocate) == TouchLine(TouchLines(sets, lines[..k], allocate), lines[k], allocate)
    ensures AllHit(sets, lines[..k + 1], allocate) <==>
            AllHit(sets, lines[..k], allocate) && LineHit(TouchLines(sets, lines[..k], allocate), lines[k])
  {
    assert lines[..k + 1][..k] == lines[..k];
  }

  function FlushSets(sets: Sets): (r: Sets)
    ensures |r| == |sets|
  {
    seq(|sets|, i requires 0 <= i < |sets| => Cold(|sets[i]|))
  }

  function Step(policy: StoreAllocation, s: State, e: Event): State {
    match e
    case Access(lines, kind) =>
      var allocate := Allocates(kind, policy);
      s.(sets := TouchLines(s.sets, lines, allocate),
         counts := s.counts.Bump(kind, AllHit(s.sets, lines, allocate)))
    case Flush => s.(sets := FlushSets(s.sets), flushes := s.flushes + 1)
    case ResetStats => s.(counts := ZERO_COUNTS, resets := s.resets + 1)
  }

  /** What a single-line access does. */
  lemma OneLineStep(policy: StoreAllocation, s: State, line: Tag, kind: AccessType)
    ensures Step(policy, s, Access([line], kind)) ==
            State(TouchLine(s.sets, line, Allocates(kind, policy)), s.counts.Bump(kind, LineHit(s.sets, line)), s.flushes, s.resets)
  {
    TouchOneLine(s.sets, line, Allocates(kind, policy));
  }

  function Run(policy: StoreAllocation, s: State, trace: seq<Event>): State {
    if trace == [] then s
    else Step(policy, Run(policy, s, trace[..|trace| - 1]), trace[|trace| - 1])
  }

  /** The constructor sets the counters of accesses to zero and leaves the other two as they are. */
  ghost predicate IsInitial(s: State, numSets: nat, ways: nat) {
    && |s.sets| == numSets
    && s.counts == ZERO_COUNTS
    && forall i :: 0 <= i < numSets ==> s.sets[i] == Cold(ways)
  }
}

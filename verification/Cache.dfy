/**
  The configurable cache class. Its state is the row of sets and the 2 x 2 array of counters, both
  updated in place; `State()` is what that state means, and every method is proved to do to it
  exactly what one event of module CacheModel does.
 */
module CacheClass {
  import opened Bits
  import opened FifoQueue
  import opened CacheSets
  import opened CacheGeometry
  import opened CacheModel

  /** Positions of an access in the counter array. */
  function TypeIndex(kind: AccessType): (i: nat)
    ensures i < 2
  {
    if kind.Load? then 0 else 1
  }

  function HitIndex(hit: bool): (i: nat)
    ensures i < 2
  {
    if hit then 1 else 0
  }

  /** Separate sets, the first of which hold the given queues. */
  ghost predicate RowHolds(row: seq<RoundRobin>, queues: seq<Queue>)
    reads RowObjects(row)
  {
    && |queues| <= |row|
    && Separate(row)
    && (forall i :: 0 <= i < |row| ==> row[i].Valid())
    && (forall i :: 0 <= i < |queues| ==> row[i].queue == queues[i])
  }

  ghost function RowObjects(row: seq<RoundRobin>): set<object> {
    (set i | 0 <= i < |row| :: row[i]) + (set i | 0 <= i < |row| :: row[i].tags)
  }

  method MakeSet(inUse: bool, ways: nat, maxWays: nat) returns (r: RoundRobin)
    requires 1 <= maxWays && (inUse ==> 1 <= ways <= maxWays)
    ensures fresh(r) && fresh(r.tags) && r.Valid() && (inUse ==> r.queue == Cold(ways))
  {
    r := new RoundRobin(maxWays, maxWays);
    if inUse {
      r.SetAssociativity(ways);
    }
  }

  ghost predicate Separate(row: seq<RoundRobin>) {
    forall i, j :: 0 <= i < j < |row| ==> row[i] != row[j] && row[i].tags != row[j].tags
  }

  lemma StaysSeparate(row: seq<RoundRobin>, r: RoundRobin)
    requires Separate(row) && forall i :: 0 <= i < |row| ==> row[i] != r && row[i].tags != r.tags
    ensures Separate(row + [r])
  {
  }

  /** Every set starts with the largest associativity; the sets in use, if any, are then narrowed. */
  method MakeSets(numSets: nat, maxSets: nat, ways: nat, maxWays: nat) returns (row: seq<RoundRobin>)
    requires numSets <= maxSets && 1 <= maxWays && (numSets >= 1 ==> 1 <= ways <= maxWays)
    ensures |row| == maxSets && Separate(row)
    ensures forall i :: 0 <= i < |row| ==> fresh(row[i]) && fresh(row[i].tags) && row[i].Valid()
    ensures forall i :: 0 <= i < numSets ==> row[i].queue == Cold(ways)
  {
    row := [];
    while |row| < maxSets
      invariant |row| <= maxSets && Separate(row)
      invariant forall i :: 0 <= i < |row| ==> fresh(row[i]) && fresh(row[i].tags) && row[i].Valid()
      invariant forall i :: 0 <= i < |row| && i < numSets ==> row[i].queue == Cold(ways)
    {
      var r := MakeSet(|row| < numSets, ways, maxWays);
      StaysSeparate(row, r);
      row := row + [r];
    }
  }

  /** The row of sets, with the queues of those in use. */
  method MakeRow(numSets: nat, maxSets: nat, ways: nat, maxWays: nat)
    returns (row: seq<RoundRobin>, ghost queues: seq<Queue>)
    requires numSets <= maxSets && 1 <= maxWays && (numSets >= 1 ==> 1 <= ways <= maxWays)
    ensures |row| == maxSets && fresh(RowObjects(row))
    ensures |queues| == numSets && RowHolds(row, queues)
    ensures forall i :: 0 <= i < numSets ==> queues[i] == Cold(ways)
  {
    row := MakeSets(numSets, maxSets, ways, maxWays);
    ghost var cold := Cold(ways);
    queues := seq(numSets, _ => cold);
  }

  /** Looks a line up in its set and replaces on a miss that allocates. */
  method TouchInRow(row: seq<RoundRobin>, tag: Tag, setIndex: nat, allocate: bool, ghost queues: Sets)
    returns (hit: bool)
    requires RowHolds(row, queues) && setIndex < |queues|
    modifies RowObjects(row)
    ensures hit <==> tag in queues[setIndex]
    ensures RowHolds(row, TouchAt(queues, setIndex, tag, allocate))
  {
    hit := row[setIndex].Find(tag);
    if !hit && allocate {
      ReplaceInRow(row, setIndex, tag, queues);
    }
  }

  method ReplaceInRow(row: seq<RoundRobin>, setIndex: nat, tag: Tag, ghost queues: Sets)
    requires RowHolds(row, queues) && setIndex < |queues|
    modifies RowObjects(row)
    ensures RowHolds(row, queues[setIndex := Push(queues[setIndex], tag)])
  {
    row[setIndex].Replace(tag);
    assert forall i :: 0 <= i < |row| && i != setIndex ==> row[i].Valid() && row[i].queue == old(row[i].queue);
  }

  method FlushInRow(row: seq<RoundRobin>, setIndex: nat, ghost queues: Sets)
    requires RowHolds(row, queues) && setIndex < |row|
    modifies RowObjects(row)
    ensures RowHolds(row, FlushAt(queues, setIndex))
  {
    row[setIndex].Flush();
    assert forall i :: 0 <= i < |row| && i != setIndex ==> row[i].Valid() && row[i].queue == old(row[i].queue);
  }

  ghost function FlushAt(queues: Sets, i: nat): (r: Sets)
    ensures |r| == |queues|
  {
    if i < |queues| then queues[i := Cold(|queues[i]|)] else queues
  }

  /** The queues after the flush of the sets from n on. */
  ghost function FlushedFrom(queues: Sets, n: nat): (r: Sets)
    ensures |r| == |queues|
    ensures n >= |queues| ==> r == queues
    ensures n == 0 ==> r == FlushSets(queues)
  {
    seq(|queues|, i requires 0 <= i < |queues| => if i < n then queues[i] else Cold(|queues[i]|))
  }

  lemma FlushOneMore(queues: Sets, n: nat)
    ensures FlushAt(FlushedFrom(queues, n + 1), n) == FlushedFrom(queues, n)
  {
  }

  /** Flushes the sets from `top` down to 0. */
  method FlushRow(row: seq<RoundRobin>, top: nat, ghost queues: Sets)
    requires RowHolds(row, queues) && |queues| <= top < |row|
    modifies RowObjects(row)
    ensures RowHolds(row, FlushSets(queues))
  {
    var index: int := top;
    while index >= 0
      invariant -1 <= index <= top
      invariant RowHolds(row, FlushedFrom(queues, index + 1))
    {
      FlushOneMore(queues, index);
      FlushInRow(row, index, FlushedFrom(queues, index + 1));
      index := index - 1;
    }
  }

  /** The shift, the mask and the number of bits are those of the geometry, which has at least one set. */
  ghost predicate Exact(g: Geometry, shift: nat, mask: nat, setBits: nat, addressBits: nat) {
    && g.BlockSize() != 0
    && g.NumSets() == mask + 1 == Pow2(setBits)
    && g.lineSize == Pow2(shift)
    && shift < 32 <= addressBits
    && Space(g.lineSize, Pow2(addressBits)).Valid()
  }

  /** What the constructor computes is exact, exactly if there is a set. */
  method ShiftAndMask(g: Geometry, ghost addressBits: nat) returns (shift: nat, mask: nat, ghost setBits: nat)
    requires g.Accepted() && 32 <= addressBits
    ensures g.lineSize == Pow2(shift) && mask == g.SetIndexMask()
    ensures Exact(g, shift, mask, setBits, addressBits) <==> g.NumSets() >= 1
  {
    AcceptedGeometry(g);
    ghost var k: nat :| g.lineSize == Pow2(k);
    shift := FloorLog2(g.lineSize);
    ExactLog2(g.lineSize, shift);
    PowerSpace(shift, addressBits);
    mask := g.SetIndexMask();
    setBits := 0;
    if g.NumSets() >= 1 {
      setBits :| g.NumSets() == Pow2(setBits);
    }
  }

  method ZeroCounters() returns (access: array2<nat>)
    ensures fresh(access) && access.Length0 == access.Length1 == 2
    ensures access[0, 0] == access[0, 1] == access[1, 0] == access[1, 1] == 0
  {
    access := new nat[2, 2]((_, _) => 0);
  }

  class Cache {
    const geometry: Geometry
    const storeAllocation: StoreAllocation
    const addressBits: nat
    const lineShift: nat
    const setIndexMask: nat
    ghost const setBits: nat
    const access: array2<nat>
    const sets: seq<RoundRobin>
    ghost var queues: seq<Queue>
    var numberOfFlushes: nat
    var numberOfResets: nat

    ghost function Repr(): set<object> {
      {this, access} + RowObjects(sets)
    }

    function NumSets(): nat { setIndexMask + 1 }

    function LineSize(): nat { geometry.lineSize }

    /** Addresses are words of `addressBits` bits. */
    ghost function AddressSpace(): Space
    {
      Space(LineSize(), Pow2(addressBits))
    }

    ghost predicate ValidGeometry() {
      Exact(geometry, lineShift, setIndexMask, setBits, addressBits) && NumSets() <= |sets|
    }

    ghost predicate ValidSets()
      reads this, RowObjects(sets)
    {
      |queues| == NumSets() && RowHolds(sets, queues)
    }

    ghost predicate Valid()
      reads Repr()
    {
      && ValidGeometry()
      && access.Length0 == access.Length1 == 2
      && this !in RowObjects(sets) && access !in RowObjects(sets)
      && ValidSets()
    }

    ghost function CountsOf(): Counts
      requires access.Length0 == access.Length1 == 2
      reads access
    {
      Counts(access[0, 0], access[0, 1], access[1, 0], access[1, 1])
    }

    /** What the fields mean. */
    ghost function State(): CacheModel.State
      requires access.Length0 == access.Length1 == 2 && queues != []
      reads this, access
    {
      CacheModel.State(queues, CountsOf(), numberOfFlushes, numberOfResets)
    }

    /**
      Every geometry that passes the assertions is constructed, with zero counters. It is a valid,
      cold cache exactly if it has a set to index.
     */
    constructor (geometry: Geometry, storeAllocation: StoreAllocation, maxSets: nat, maxWays: nat, addressBits: nat)
      requires geometry.Accepted() && geometry.NumSets() <= maxSets && 1 <= maxWays
      requires geometry.NumSets() >= 1 ==> geometry.associativity <= maxWays
      requires 32 <= addressBits
      ensures fresh(access) && fresh(RowObjects(sets))
      ensures access.Length0 == access.Length1 == 2 && CountsOf() == ZERO_COUNTS
      ensures this.geometry == geometry && this.storeAllocation == storeAllocation
      ensures this.addressBits == addressBits && |sets| == maxSets
      ensures geometry.NumSets() >= 1 ==> Valid() && IsInitial(State(), geometry.NumSets(), geometry.associativity)
      ensures geometry.NumSets() == 0 ==> !Valid()
    {
      this.geometry := geometry;
      this.storeAllocation := storeAllocation;
      this.addressBits := addressBits;
      SomeWays(geometry);
      var shift, mask, bits := ShiftAndMask(geometry, addressBits);
      lineShift := shift;
      setIndexMask := mask;
      setBits := bits;
      var counters := ZeroCounters();
      access := counters;
      var row, cold := MakeRow(geometry.NumSets(), maxSets, geometry.associativity, maxWays);
      sets := row;
      queues := cold;
    }

    // ---------- accessors ----------

    method SplitAddress(addr: nat) returns (tag: Tag, setIndex: nat)
      requires ValidGeometry()
      ensures tag == LineNumber(addr, LineSize()) && setIndex == SetOf(tag, NumSets())
    {
      tag := ShiftRight(addr, lineShift);
      setIndex := And(tag, setIndexMask);
      AndLowMask(tag, setBits);
    }

    /** Splitting loses nothing: line number and offset give the address back. */
    method SplitAddressLine(addr: nat) returns (tag: Tag, setIndex: nat, lineIndex: nat)
      requires ValidGeometry()
      ensures LineSize() * tag + lineIndex == addr && lineIndex < LineSize()
      ensures setIndex == SetOf(tag, NumSets())
    {
      var lineMask := LineSize() - 1;
      lineIndex := And(addr, lineMask);
      tag, setIndex := SplitAddress(addr);
      AndLowMask(addr, lineShift);
      DivMod(addr, LineSize());
    }

    /** The total of one column of the counter array. */
    method SumAccess(hit: bool) returns (sum: nat)
      requires access.Length0 == access.Length1 == 2
      ensures sum == CountsOf().Get(Load, hit) + CountsOf().Get(Store, hit)
    {
      sum := 0;
      var accessType := 0;
      while accessType < 2
        invariant 0 <= accessType <= 2
        invariant accessType == 0 ==> sum == 0
        invariant accessType == 1 ==> sum == access[0, HitIndex(hit)]
        invariant accessType == 2 ==> sum == access[0, HitIndex(hit)] + access[1, HitIndex(hit)]
      {
        sum := sum + access[accessType, HitIndex(hit)];
        accessType := accessType + 1;
      }
    }

    method Accesses() returns (total: nat)
      requires access.Length0 == access.Length1 == 2
      ensures total == CountsOf().Accesses()
    {
      var hits := SumAccess(true);
      var misses := SumAccess(false);
      total := hits + misses;
    }

    // ---------- modifiers ----------

    method CountAccess(accessType: AccessType, hit: bool)
      requires Valid()
      modifies access
      ensures Valid() && queues == old(queues)
      ensures CountsOf() == old(CountsOf()).Bump(accessType, hit)
      ensures numberOfFlushes == old(numberOfFlushes) && numberOfResets == old(numberOfResets)
    {
      access[TypeIndex(accessType), HitIndex(hit)] := access[TypeIndex(accessType), HitIndex(hit)] + 1;
    }

    /** The line is looked up in its set, and replaces another one on demand. */
    method TouchSet(tag: Tag, setIndex: nat, accessType: AccessType) returns (hit: bool)
      requires this !in RowObjects(sets) && ValidSets() && setIndex == SetOf(tag, |queues|)
      modifies `queues, RowObjects(sets)
      ensures ValidSets()
      ensures hit == LineHit(old(queues), tag)
      ensures queues == TouchLine(old(queues), tag, Allocates(accessType, storeAllocation))
    {
      var allocate := Allocates(accessType, storeAllocation);
      hit := TouchInRow(sets, tag, setIndex, allocate, queues);
      queues := TouchAt(queues, setIndex, tag, allocate);
    }

    /** The part that both access methods share. */
    method TouchAddress(addr: nat, accessType: AccessType) returns (hit: bool)
      requires ValidGeometry() && this !in RowObjects(sets) && ValidSets()
      modifies `queues, RowObjects(sets)
      ensures ValidSets()
      ensures hit == LineHit(old(queues), LineNumber(addr, LineSize()))
      ensures queues == TouchLine(old(queues), LineNumber(addr, LineSize()), Allocates(accessType, storeAllocation))
    {
      var tag, setIndex := SplitAddress(addr);
      hit := TouchSet(tag, setIndex, accessType);
    }

    method AccessSingleLine(addr: nat, accessType: AccessType) returns (hit: bool)
      requires Valid()
      modifies Repr()
      ensures Valid()
      ensures hit == LineHit(old(queues), LineNumber(addr, LineSize()))
      ensures State() == Step(storeAllocation, old(State()), Event.Access([LineNumber(addr, LineSize())], accessType))
    {
      OneLineStep(storeAllocation, State(), LineNumber(addr, LineSize()), accessType);
      hit := TouchAddress(addr, accessType);
      CountAccess(accessType, hit);
    }

    method Access(addr: nat, size: nat, accessType: AccessType) returns (allHit: bool)
      requires Valid() && addr < AddressSpace().size && size < WORD32
      requires Terminates(addr, size, AddressSpace())
      modifies Repr()
      ensures Valid()
      ensures
        var lines := Lines(addr, size, AddressSpace());
        && allHit == AllHit(old(queues), lines, Allocates(accessType, storeAllocation))
        && State() == Step(storeAllocation, old(State()), Event.Access(lines, accessType))
    {
      allHit := WalkLines(addr, size, accessType);
      CountAccess(accessType, allHit);
    }

    /** From the line of addr on, until the address reaches the wrapped end. */
    method WalkLines(addr: nat, size: nat, accessType: AccessType) returns (allHit: bool)
      requires ValidGeometry() && this !in RowObjects(sets) && ValidSets()
      requires addr < AddressSpace().size && Terminates(addr, size, AddressSpace())
      modifies `queues, RowObjects(sets)
      ensures ValidSets()
      ensures Walked(old(queues), Lines(addr, size, AddressSpace()), Allocates(accessType, storeAllocation), queues, allHit)
    {
      ghost var lines := Lines(addr, size, AddressSpace());
      var highAddr := EndOf(addr, size);
      forall k: nat | k < |lines| ensures Visits(lines, addr, AddressSpace(), highAddr, k) {
        LoopVisitsLine(addr, size, AddressSpace(), k);
      }
      allHit := Walk(addr, highAddr, accessType, lines);
    }

    /** The loop of Access. */
    method Walk(addr: nat, highAddr: nat, accessType: AccessType, ghost lines: seq<Tag>) returns (allHit: bool)
      requires ValidGeometry() && this !in RowObjects(sets) && ValidSets()
      requires lines != [] && forall k: nat :: k < |lines| ==> Visits(lines, addr, AddressSpace(), highAddr, k)
      modifies `queues, RowObjects(sets)
      ensures ValidSets()
      ensures Walked(old(queues), lines, Allocates(accessType, storeAllocation), queues, allHit)
    {
      ghost var before, k: nat := queues, 0;
      var cur: nat, more := addr, true;
      allHit := true;
      while more
        invariant k <= |lines| && ValidSets()
        invariant more <==> k < |lines|
        invariant cur == AddressAfter(addr, AddressSpace(), k)
        invariant Walked(before, lines[..k], Allocates(accessType, storeAllocation), queues, allHit)
        decreases |lines| - k
      {
        assert Visits(lines, addr, AddressSpace(), highAddr, k);
        allHit, cur := VisitLine(cur, accessType, allHit, before, lines, k);
        k := k + 1;
        more := cur < highAddr;
      }
      assert lines[..k] == lines;
    }

    /** What the loop has done so far, after touching the given lines. */
    static ghost predicate Walked(before: Sets, lines: seq<Tag>, allocate: bool, after: seq<Queue>, allHit: bool) {
      after == TouchLines(before, lines, allocate) && allHit == AllHit(before, lines, allocate)
    }

    static lemma WalkStep(before: Sets, lines: seq<Tag>, k: nat, allocate: bool, mid: Sets, allHit: bool)
      requires k < |lines| && Walked(before, lines[..k], allocate, mid, allHit)
      ensures Walked(before, lines[..k + 1], allocate, TouchLine(mid, lines[k], allocate), allHit && LineHit(mid, lines[k]))
    {
      TouchNextLine(before, lines, k, allocate);
    }

    /** The body of the loop: the k-th line is touched, and the address moves to the next one. */
    method VisitLine(addr: nat, accessType: AccessType, hitSoFar: bool, ghost before: Sets, ghost lines: seq<Tag>, ghost k: nat)
      returns (allHit: bool, next: nat)
      requires ValidGeometry() && this !in RowObjects(sets) && ValidSets() && addr < AddressSpace().size
      requires k < |lines| && LineNumber(addr, LineSize()) == lines[k]
      requires Walked(before, lines[..k], Allocates(accessType, storeAllocation), queues, hitSoFar)
      modifies `queues, RowObjects(sets)
      ensures ValidSets()
      ensures Walked(before, lines[..k + 1], Allocates(accessType, storeAllocation), queues, allHit)
      ensures next == NextAddress(addr, AddressSpace())
    {
      WalkStep(before, lines, k, Allocates(accessType, storeAllocation), queues, hitSoFar);
      var localHit := TouchAddress(addr, accessType);
      allHit := hitSoFar && localHit;
      next := NextStart(addr);
    }

    method EndOf(addr: nat, size: nat) returns (highAddr: nat)
      requires ValidGeometry()
      ensures highAddr == HighAddress(addr, size, AddressSpace())
    {
      highAddr := Rem(addr + size, Pow2(addressBits));
    }

    static lemma NextStartIs(addr: nat, shift: nat, bits: nat)
      requires shift < bits && addr < Pow2(bits) && Space(Pow2(shift), Pow2(bits)).Valid()
      ensures Pow2(shift) <= Pow2(bits)
      ensures Rem(And(addr, Pow2(bits) - Pow2(shift)) + Pow2(shift), Pow2(bits))
              == NextAddress(addr, Space(Pow2(shift), Pow2(bits)))
    {
      AndHighMask(addr, bits, shift);
    }

    /** Clears the offset bits and adds the line size, in an address-sized word. */
    method NextStart(addr: nat) returns (next: nat)
      requires ValidGeometry() && addr < AddressSpace().size
      ensures next == NextAddress(addr, AddressSpace())
    {
      var notLineMask := Pow2(addressBits) - LineSize();
      NextStartIs(addr, lineShift, addressBits);
      next := Rem(And(addr, notLineMask) + LineSize(), Pow2(addressBits));
    }

    /**
      Flushes the set above the last one in use as well. Without such a set in the array the first
      iteration is already outside of it, and nothing is promised about what follows.
     */
    method Flush() returns (overrun: bool)
      requires Valid()
      modifies Repr()
      ensures Valid()
      ensures overrun <==> NumSets() == |sets|
      ensures State() == if overrun then old(State()) else Step(storeAllocation, old(State()), Event.Flush)
    {
      overrun := NumSets() >= |sets|;
      if overrun { return; }
      FlushRow(sets, NumSets(), queues);
      queues := FlushSets(queues);
      numberOfFlushes := numberOfFlushes + 1;
    }

    method ResetStats()
      requires Valid()
      modifies Repr()
      ensures Valid()
      ensures State() == Step(storeAllocation, old(State()), Event.ResetStats)
    {
      var accessType := 0;
      while accessType < 2
        invariant 0 <= accessType <= 2
        invariant Valid() && queues == old(queues)
        invariant numberOfFlushes == old(numberOfFlushes) && numberOfResets == old(numberOfResets)
        invariant forall t, h :: 0 <= t < accessType && 0 <= h < 2 ==> access[t, h] == 0
      {
        access[accessType, HitIndex(false)] := 0;
        access[accessType, HitIndex(true)] := 0;
        accessType := accessType + 1;
      }
      numberOfResets := numberOfResets + 1;
    }
  }
}

/**
  Address arithmetic of the cache: which geometries the constructor accepts, how an address is
  split, and which lines one access of `size` bytes touches. All of it is done in fixed-width
  words, so the wrap-arounds of the source are kept.
 */
module CacheGeometry {
  import opened Bits

  datatype Geometry = Geometry(cacheSize: nat, lineSize: nat, associativity: nat) {

    /** The 32-bit product of associativity and line size. */
    function BlockSize(): nat {
      (associativity * lineSize) % WORD32
    }

    function SetIndexMask(): nat
      requires BlockSize() != 0
    {
      (Quot(cacheSize, BlockSize()) + WORD32 - 1) % WORD32
    }

    function NumSets(): nat
      requires BlockSize() != 0
    {
      (SetIndexMask() + 1) % WORD32
    }

    /** The constructor neither divides by zero nor fails an assertion. */
    predicate Accepted() {
      && cacheSize < WORD32 && lineSize < WORD32 && associativity < WORD32
      && BlockSize() != 0
      && IsPower2(lineSize)
      && IsPower2(NumSets())
    }
  }

  /**
    A geometry whose block does not fit in the cache passes both assertions, with no set at all;
    every other accepted geometry has power-of-two line size and number of sets.
   */
  lemma AcceptedGeometry(g: Geometry)
    requires g.Accepted()
    ensures g.NumSets() == Quot(g.cacheSize, g.BlockSize())
    ensures g.NumSets() == 0 <==> g.cacheSize < g.BlockSize()
    ensures g.NumSets() != 0 ==> g.SetIndexMask() == g.NumSets() - 1 && IsPowerOfTwo(g.NumSets())
    ensures IsPowerOfTwo(g.lineSize)
  {
    SetsOfGeometry(g);
    IsPower2Exact(g.lineSize);
    IsPower2Exact(g.NumSets());
  }

  lemma SomeWays(g: Geometry)
    requires g.BlockSize() != 0
    ensures g.associativity >= 1
  {
    assert g.associativity == 0 ==> g.associativity * g.lineSize == 0;
  }

  lemma SetsOfGeometry(g: Geometry)
    requires g.cacheSize < WORD32 && g.BlockSize() != 0
    ensures g.NumSets() == Quot(g.cacheSize, g.BlockSize())
    ensures g.NumSets() == 0 <==> g.cacheSize < g.BlockSize()
    ensures g.NumSets() != 0 ==> g.SetIndexMask() == g.NumSets() - 1
  {
    QuotBounds(g.cacheSize, g.BlockSize());
    Wrap(Quot(g.cacheSize, g.BlockSize()));
  }

  /** The sets use the whole cache: as many blocks as there are in it, in 32-bit arithmetic. */
  lemma SetsUseCache(g: Geometry)
    requires g.Accepted()
    ensures
      var block := (g.associativity * g.lineSize) % 0x1_0000_0000;
      block >= 1 && g.NumSets() == g.cacheSize / block
    ensures
      var block := g.associativity * g.lineSize;
      1 <= block < 0x1_0000_0000 ==> g.NumSets() == g.cacheSize / block
  {
    SetsOfGeometry(g);
    BlocksInCache(g.cacheSize, g.associativity * g.lineSize, g.NumSets());
  }

  lemma BlocksInCache(size: nat, product: nat, n: nat)
    requires product % 0x1_0000_0000 >= 1 && n == Quot(size, product % 0x1_0000_0000)
    ensures n == size / (product % 0x1_0000_0000)
    ensures product < 0x1_0000_0000 ==> n == size / product
  {
    NativeDivision(size, product % 0x1_0000_0000);
  }

  lemma Wrap(q: nat)
    requires q < WORD32
    ensures ((q + WORD32 - 1) % WORD32 + 1) % WORD32 == q
    ensures q != 0 ==> (q + WORD32 - 1) % WORD32 == q - 1
  {
  }

  /** All ways of all sets together fit in the cache exactly when the 32-bit product did not wrap. */
  lemma CapacityExact(g: Geometry)
    requires g.Accepted() && g.NumSets() >= 1
    ensures g.NumSets() * (g.associativity * g.lineSize) <= g.cacheSize <==> g.associativity * g.lineSize < WORD32
  {
    AcceptedGeometry(g);
    Capacity(g.cacheSize, g.associativity * g.lineSize, g.NumSets());
  }

  lemma Capacity(size: nat, block: nat, n: nat)
    requires size < WORD32 && block % WORD32 >= 1 && n >= 1 && n == Quot(size, block % WORD32)
    ensures n * block <= size <==> block < WORD32
  {
    if block < WORD32 {
      assert block % WORD32 == block;
      QuotBounds(size, block);
      Times(n, n, block);
    } else {
      Times(1, n, block);
    }
  }

  lemma Rearrange(a: nat, b: nat, c: nat)
    ensures (a * b) * c == a * (b * c)
  {
  }

  /** The wrapped block is still a positive number of lines. */
  lemma WrappedBlock(ways: nat, line: nat, half: nat)
    requires line * half == WORD32 && (ways * line) % WORD32 != 0
    ensures (ways * line) % WORD32 >= line
  {
    var product := ways * line;
    var q, r := product / WORD32, product % WORD32;
    assert product == WORD32 * q + r;
    Rearrange(line, half, q);
    PositiveMultiple(ways, half * q, line, r);
  }

  lemma PositiveMultiple(a: nat, b: nat, d: nat, r: nat)
    requires a * d == d * b + r && r > 0
    ensures r >= d
  {
    if a <= b {
      Times(a, b, d);
    } else {
      Times(b + 1, a, d);
    }
  }

  /** The only power of two in [2^p, 2^(p+1)) is 2^p. */
  lemma ExactLog2(n: nat, p: nat)
    requires IsPowerOfTwo(n) && Pow2(p) <= n < Pow2(p + 1)
    ensures n == Pow2(p)
  {
    var k: nat :| n == Pow2(k);
    if k < p {
      Pow2Monotone(k, p);
    } else if p < k {
      if p + 1 < k { Pow2Monotone(p + 1, k); }
    }
  }

  // ---------- the lines touched by one access ----------

  /** a, a + 1, ..., b - 1, or nothing when b <= a. */
  function Range(a: nat, b: nat): (r: seq<nat>)
    ensures |r| == if a <= b then b - a else 0
    ensures forall i :: 0 <= i < |r| ==> r[i] == a + i
  {
    if a >= b then [] else seq(b - a, i requires 0 <= i => a + i)
  }

  function CeilDiv(n: nat, d: nat): nat
    requires d >= 1
  {
    Quot(n + d - 1, d)
  }

  /** An address space of `size` bytes, tiled by two or more cache lines of `lineSize` bytes. */
  datatype Space = Space(lineSize: nat, size: nat) {
    ghost predicate Valid() {
      lineSize >= 1 && Rem(size, lineSize) == 0 && Quot(size, lineSize) >= 2 && lineSize <= size
    }

    function Lines(): nat
      requires lineSize >= 1
    {
      Quot(size, lineSize)
    }
  }

  /** A space of 2^w bytes with lines of 2^p bytes. */
  lemma PowerSpace(p: nat, w: nat)
    requires p < w
    ensures Space(Pow2(p), Pow2(w)).Valid() && Quot(Pow2(w), Pow2(p)) == Pow2(w - p)
  {
    Pow2Monotone(p, w);
    Pow2Add(p, w - p);
    DivModUnique(Pow2(w), Pow2(p), Pow2(w - p), 0);
  }

  /** The line, and the tag, of an address. */
  function LineNumber(addr: nat, lineSize: nat): nat
    requires lineSize >= 1
  {
    Quot(addr, lineSize)
  }

  /** The loop variable after one iteration: the start of the next line. */
  function NextAddress(addr: nat, s: Space): nat
    requires s.Valid()
  {
    Rem(addr - Rem(addr, s.lineSize) + s.lineSize, s.size)
  }

  function AddressAfter(addr: nat, s: Space, k: nat): nat
    requires s.Valid()
  {
    if k == 0 then addr else NextAddress(AddressAfter(addr, s, k - 1), s)
  }

  /** The wrapped end of the access, which bounds the loop. */
  function HighAddress(addr: nat, size: nat, s: Space): nat
    requires s.Valid()
  {
    Rem(addr + size, s.size)
  }

  /** The wrapped end of the access does not lie strictly inside the topmost line. */
  predicate Terminates(addr: nat, size: nat, s: Space)
    requires s.Valid()
  {
    HighAddress(addr, size, s) <= s.size - s.lineSize
  }

  /**
    The lines that the loop touches: the line of `addr`, then every line that starts below the
    wrapped end of the access, counting on from the next one (or from line 0 after the topmost).
   */
  function Lines(addr: nat, size: nat, s: Space): (r: seq<nat>)
    requires s.Valid()
    ensures |r| >= 1
  {
    var first := LineNumber(addr, s.lineSize);
    [first] + Range(Rem(first + 1, s.Lines()), CeilDiv(HighAddress(addr, size, s), s.lineSize))
  }

  /** Line starts below n are those of the lines below CeilDiv(n, d). */
  lemma StartsBelow(start: nat, n: nat, d: nat)
    requires d >= 1 && Rem(start, d) == 0
    ensures Quot(start, d) < CeilDiv(n, d) <==> start < n
  {
    var line, c := Quot(start, d), CeilDiv(n, d);
    DivMod(start, d);
    DivMod(n + d - 1, d);
    if line < c {
      Times(line, c - 1, d);
    } else {
      Times(c, line, d);
    }
  }

  /** The topmost line holds exactly the addresses from its start on. */
  lemma TopLine(addr: nat, s: Space)
    requires s.Valid() && addr < s.size
    ensures LineNumber(addr, s.lineSize) < s.Lines()
    ensures LineNumber(addr, s.lineSize) == s.Lines() - 1 <==> addr >= s.size - s.lineSize
    ensures Rem(addr, s.lineSize) == 0 ==> addr <= s.size - s.lineSize
  {
    DivMod(s.size, s.lineSize);
    DivMod(addr, s.lineSize);
    TopBlock(s.lineSize, s.Lines(), LineNumber(addr, s.lineSize), Rem(addr, s.lineSize));
  }

  lemma TopBlock(d: nat, blocks: nat, q: nat, r: nat)
    requires r < d && blocks >= 2 && d * q + r < d * blocks
    ensures q < blocks
    ensures q == blocks - 1 <==> d * q + r >= d * blocks - d
    ensures r == 0 ==> d * q + r <= d * blocks - d
  {
    if q >= blocks {
      Times(blocks, q, d);
    } else if q < blocks - 1 {
      Times(q, blocks - 2, d);
    }
  }

  /** The next address is the start of the next line, or 0 after the topmost one. */
  lemma NextLine(addr: nat, s: Space)
    requires s.Valid() && addr < s.size
    ensures
      var next, line := NextAddress(addr, s), LineNumber(addr, s.lineSize);
      && next < s.size && Rem(next, s.lineSize) == 0
      && LineNumber(next, s.lineSize) == Rem(line + 1, s.Lines())
      && Rem(line + 1, s.Lines()) == (if line + 1 == s.Lines() then 0 else line + 1)
      && next == (if line + 1 == s.Lines() then 0 else addr - Rem(addr, s.lineSize) + s.lineSize)
  {
    var L, f, K := s.lineSize, LineNumber(addr, s.lineSize), s.Lines();
    TopLine(addr, s);
    DivMod(addr, L);
    var unwrapped := addr - Rem(addr, L) + L;
    DivModUnique(unwrapped, L, f + 1, 0);
    if f + 1 == K {
      DivMod(s.size, L);
      DivModUnique(unwrapped, s.size, 1, 0);
      DivModUnique(f + 1, K, 1, 0);
    } else {
      DivModUnique(unwrapped, s.size, 0, unwrapped);
      DivModUnique(f + 1, K, 0, f + 1);
    }
  }

  /** At the start of iteration k the loop variable is in the k-th line, at its start if k > 0. */
  ghost predicate AtLine(lines: seq<nat>, addr: nat, s: Space, k: nat, cur: nat)
    requires s.Valid()
  {
    && k < |lines|
    && cur < s.size
    && LineNumber(cur, s.lineSize) == lines[k]
    && (if k == 0 then cur == addr else Rem(cur, s.lineSize) == 0)
  }

  /** The k-th iteration moves on to the next line, and the loop stops after the last one. */
  ghost predicate Advances(lines: seq<nat>, addr: nat, s: Space, high: nat, k: nat, cur: nat)
    requires s.Valid()
  {
    var next := NextAddress(cur, s);
    if k + 1 < |lines| then next < high && AtLine(lines, addr, s, k + 1, next) else next >= high
  }

  lemma LoopFollowsLines(lines: seq<nat>, addr: nat, size: nat, s: Space, k: nat, cur: nat)
    requires s.Valid() && Terminates(addr, size, s) && lines == Lines(addr, size, s)
    requires AtLine(lines, addr, s, k, cur)
    ensures Advances(lines, addr, s, HighAddress(addr, size, s), k, cur)
  {
    var high, next := HighAddress(addr, size, s), NextAddress(cur, s);
    NextLine(cur, s);
    StartsBelow(next, high, s.lineSize);
    StartsBelow(0, high, s.lineSize);
    BoundedCount(addr, size, s);
  }

  /** Iteration k finds the loop variable in line k, and is the last one exactly if that line is. */
  ghost predicate Visits(lines: seq<nat>, addr: nat, s: Space, high: nat, k: nat)
    requires s.Valid() && k < |lines|
  {
    && AddressAfter(addr, s, k) < s.size
    && LineNumber(AddressAfter(addr, s, k), s.lineSize) == lines[k]
    && (AddressAfter(addr, s, k + 1) < high <==> k + 1 < |lines|)
  }

  lemma {:induction false} LoopVisitsLine(addr: nat, size: nat, s: Space, k: nat)
    requires s.Valid() && addr < s.size && Terminates(addr, size, s) && k < |Lines(addr, size, s)|
    ensures AtLine(Lines(addr, size, s), addr, s, k, AddressAfter(addr, s, k))
    ensures Visits(Lines(addr, size, s), addr, s, HighAddress(addr, size, s), k)
  {
    if k > 0 {
      LoopVisitsLine(addr, size, s, k - 1);
      LoopFollowsLines(Lines(addr, size, s), addr, size, s, k - 1, AddressAfter(addr, s, k - 1));
    }
    LoopFollowsLines(Lines(addr, size, s), addr, size, s, k, AddressAfter(addr, s, k));
  }

  /** The lines that start below the wrapped end leave out the topmost one. */
  lemma BoundedCount(addr: nat, size: nat, s: Space)
    requires s.Valid() && Terminates(addr, size, s)
    ensures CeilDiv(HighAddress(addr, size, s), s.lineSize) <= s.Lines() - 1
  {
    var top := s.size - s.lineSize;
    DivMod(s.size, s.lineSize);
    DivModUnique(top, s.lineSize, s.Lines() - 1, 0);
    StartsBelow(top, HighAddress(addr, size, s), s.lineSize);
  }

  /** The lines of an access follow each other modulo the number of all lines, and none comes twice. */
  lemma LineAt(addr: nat, size: nat, s: Space, i: nat)
    requires s.Valid() && addr < s.size && Terminates(addr, size, s) && i < |Lines(addr, size, s)|
    ensures Lines(addr, size, s)[i] == Rem(LineNumber(addr, s.lineSize) + i, s.Lines())
    ensures |Lines(addr, size, s)| <= s.Lines() && LineNumber(addr, s.lineSize) < s.Lines()
  {
    var f, K := LineNumber(addr, s.lineSize), s.Lines();
    TopLine(addr, s);
    NextLine(addr, s);
    BoundedCount(addr, size, s);
    if f + 1 == K && i >= 1 {
      DivModUnique(f + i, K, 1, i - 1);
    } else {
      DivModUnique(f + i, K, 0, f + i);
    }
  }

  lemma {:induction false} AddressAfterLine(addr: nat, s: Space, k: nat)
    requires s.Valid() && addr < s.size && k >= 1
    ensures
      var a := AddressAfter(addr, s, k);
      && LineNumber(a, s.lineSize) == Rem(LineNumber(addr, s.lineSize) + k, s.Lines())
      && Rem(a, s.lineSize) == 0 && a <= s.size - s.lineSize
  {
    NextLine(addr, s);
    if k != 1 {
      AddressAfterLine(addr, s, k - 1);
      NextLine(AddressAfter(addr, s, k - 1), s);
      RemSuccessor(LineNumber(addr, s.lineSize) + (k - 1), s.Lines());
    }
    TopLine(AddressAfter(addr, s, k), s);
  }

  /**
    When the access loop returns at all: some iteration leaves the address at or above the wrapped
    end if and only if that end is not strictly inside the topmost line of the address space.
   */
  lemma TerminatesExact(addr: nat, size: nat, s: Space)
    requires s.Valid() && addr < s.size
    ensures Terminates(addr, size, s) <==>
            exists k: nat :: k >= 1 && AddressAfter(addr, s, k) >= HighAddress(addr, size, s)
  {
    forall k: nat | k >= 1 ensures AddressAfter(addr, s, k) <= s.size - s.lineSize {
      AddressAfterLine(addr, s, k);
    }
    var k := ReachesTop(addr, s);
  }

  /** Some iteration leaves the address at the start of the topmost line. */
  lemma ReachesTop(addr: nat, s: Space) returns (k: nat)
    requires s.Valid() && addr < s.size
    ensures k >= 1 && AddressAfter(addr, s, k) == s.size - s.lineSize
  {
    TopLine(addr, s);
    var f, K := LineNumber(addr, s.lineSize), s.Lines();
    if f == K - 1 {
      k := K;
      DivModUnique(f + k, K, 1, K - 1);
    } else {
      k := K - 1 - f;
      DivModUnique(f + k, K, 0, K - 1);
    }
    AddressAfterLine(addr, s, k);
    TopLine(AddressAfter(addr, s, k), s);
  }

  /**
    An access that ends at or below the start of the topmost line touches every line from the one
    of its first byte to the one of its last byte exactly once, in ascending order.
   */
  lemma LinesOfPlainAccess(addr: nat, size: nat, s: Space)
    requires s.Valid() && size >= 1 && addr + size <= s.size - s.lineSize
    ensures Terminates(addr, size, s)
    ensures Lines(addr, size, s) ==
            Range(LineNumber(addr, s.lineSize), LineNumber(addr + size - 1, s.lineSize) + 1)
  {
    var f, high := LineNumber(addr, s.lineSize), addr + size;
    var last := LineNumber(high - 1, s.lineSize);
    DivModUnique(high, s.size, 0, high);
    TopLine(addr, s);
    NextLine(addr, s);
    CeilOfEnd(high, s.lineSize);
    QuotMonotone(addr, high - 1, s.lineSize);
    assert [f] + Range(f + 1, last + 1) == Range(f, last + 1);
  }

  lemma CeilOfEnd(high: nat, d: nat)
    requires d >= 1 && high >= 1
    ensures CeilDiv(high, d) == Quot(high - 1, d) + 1
  {
    DivMod(high - 1, d);
    DivModUnique(high + d - 1, d, Quot(high - 1, d) + 1, Rem(high - 1, d));
  }

  lemma QuotMonotone(a: nat, b: nat, d: nat)
    requires d >= 1 && a <= b
    ensures Quot(a, d) <= Quot(b, d)
  {
    DivMod(a, d);
    DivMod(b, d);
    if Quot(a, d) > Quot(b, d) {
      Times(Quot(b, d) + 1, Quot(a, d), d);
    }
  }

  /** An empty access below the topmost line still touches the line of its address, and only it. */
  lemma LinesOfEmptyAccess(addr: nat, s: Space)
    requires s.Valid() && addr < s.size - s.lineSize
    ensures Terminates(addr, 0, s)
    ensures Lines(addr, 0, s) == [LineNumber(addr, s.lineSize)]
  {
    var f := LineNumber(addr, s.lineSize);
    DivModUnique(addr, s.size, 0, addr);
    TopLine(addr, s);
    NextLine(addr, s);
    StartsBelow(NextAddress(addr, s), addr, s.lineSize);
    DivMod(addr, s.lineSize);
  }

  /**
    An access that starts in the topmost line and runs over the end of the address space goes on
    from line 0; one that starts in a lower line and runs over the end stops after its first line.
   */
  lemma LinesOfWrappingAccess(addr: nat, size: nat, s: Space)
    requires s.Valid() && addr < s.size && size <= s.size && addr + size > s.size
    requires Terminates(addr, size, s)
    ensures addr >= s.size - s.lineSize ==>
            Lines(addr, size, s) == [s.Lines() - 1] + Range(0, LineNumber(addr + size - s.size - 1, s.lineSize) + 1)
    ensures addr < s.size - s.lineSize ==> Lines(addr, size, s) == [LineNumber(addr, s.lineSize)]
  {
    var f, high := LineNumber(addr, s.lineSize), addr + size - s.size;
    DivModUnique(addr + size, s.size, 1, high);
    TopLine(addr, s);
    NextLine(addr, s);
    CeilOfEnd(high, s.lineSize);
    QuotMonotone(high - 1, addr, s.lineSize);
  }

  /** One line for each set fits in a 32-bit word. */
  lemma SetsOfLinesFit(g: Geometry, b: nat, k: nat)
    requires g.Accepted() && g.lineSize == Pow2(k) && g.NumSets() == Pow2(b)
    ensures k < 32 && b + k < 32
  {
    WordPowers();
    if k >= 32 {
      if k > 32 { Pow2Monotone(32, k); }
      assert false;
    }
    Pow2Add(k, 32 - k);
    WrappedBlock(g.associativity, g.lineSize, Pow2(32 - k));
    AcceptedGeometry(g);
    QuotBounds(g.cacheSize, g.BlockSize());
    Times(g.lineSize, g.BlockSize(), g.NumSets());
    Pow2Add(b, k);
    if b + k > 32 { Pow2Monotone(32, b + k); }
  }

  /** The number of sets divides the number of lines of the address space. */
  lemma SetsDivideLines(g: Geometry, w: nat)
    requires g.Accepted() && g.NumSets() >= 1 && 32 <= w
    ensures
      var s := Space(g.lineSize, Pow2(w));
      s.Valid() && g.NumSets() <= s.Lines() && Rem(s.Lines(), g.NumSets()) == 0
  {
    AcceptedGeometry(g);
    var k: nat :| g.lineSize == Pow2(k);
    var b: nat :| g.NumSets() == Pow2(b);
    SetsOfLinesFit(g, b, k);
    PowerSpace(k, w);
    if b < w - k { Pow2Monotone(b, w - k); }
    Pow2Divides(b, w - k);
  }

  // ---------- which accesses touch the lines of their bytes ----------

  /** The lines of the bytes addr, ..., addr + size - 1, which may wrap to address 0. */
  function LinesOfBytes(addr: nat, size: nat, s: Space): seq<nat>
    requires s.Valid() && size >= 1
  {
    var first := LineNumber(addr, s.lineSize);
    if addr + size <= s.size then Range(first, LineNumber(addr + size - 1, s.lineSize) + 1)
    else Range(first, s.Lines()) + Range(0, LineNumber(addr + size - 1 - s.size, s.lineSize) + 1)
  }

  /** The access ends below the topmost line, or starts in it and ends before it again. */
  predicate EndsWell(addr: nat, size: nat, s: Space)
    requires s.Valid()
  {
    var top := s.size - s.lineSize;
    addr + size <= top || (addr >= top && s.size <= addr + size <= s.size + top)
  }

  /** An access that starts below the topmost line and ends at or after the end of the space stops after one line. */
  lemma LinesOfOverrun(addr: nat, size: nat, s: Space)
    requires s.Valid() && addr < s.size - s.lineSize && size <= s.size <= addr + size
    ensures Terminates(addr, size, s) ==> Lines(addr, size, s) == [LineNumber(addr, s.lineSize)]
  {
    if addr + size == s.size {
      DivModUnique(s.size, s.size, 1, 0);
      NextLine(addr, s);
      TopLine(addr, s);
    } else if Terminates(addr, size, s) {
      LinesOfWrappingAccess(addr, size, s);
    }
  }

  /** An access that starts in the topmost line and ends with the space touches that line. */
  lemma LinesOfLastAccess(addr: nat, size: nat, s: Space)
    requires s.Valid() && s.size - s.lineSize <= addr < s.size == addr + size
    ensures Terminates(addr, size, s) && Lines(addr, size, s) == LinesOfBytes(addr, size, s)
  {
    DivModUnique(s.size, s.size, 1, 0);
    TopLine(addr, s);
    TopLine(s.size - 1, s);
    NextLine(addr, s);
  }

  /**
    The loop ends and touches each line of the bytes of the access once and in order, and no
    other, if and only if the access ends well.
   */
  lemma LinesExactly(addr: nat, size: nat, s: Space)
    requires s.Valid() && addr < s.size && 1 <= size <= s.size
    ensures Terminates(addr, size, s) && Lines(addr, size, s) == LinesOfBytes(addr, size, s) <==> EndsWell(addr, size, s)
  {
    var top, end := s.size - s.lineSize, addr + size;
    if end <= top {
      LinesOfPlainAccess(addr, size, s);
    } else if end < s.size {
      DivModUnique(end, s.size, 0, end);
    } else if addr < top {
      LinesOfOverrun(addr, size, s);
      TopLine(addr, s);
      TopLine(s.size - 1, s);
    } else if end == s.size {
      LinesOfLastAccess(addr, size, s);
    } else {
      DivModUnique(end, s.size, 1, end - s.size);
      if Terminates(addr, size, s) {
        LinesOfWrappingAccess(addr, size, s);
        TopLine(addr, s);
        assert Range(s.Lines() - 1, s.Lines()) == [s.Lines() - 1];
      }
    }
  }

  /** An empty access at the start of the topmost line touches every line. */
  lemma LinesOfEmptyTopAccess(s: Space)
    requires s.Valid()
    ensures
      var addr := s.size - s.lineSize;
      Terminates(addr, 0, s) && Lines(addr, 0, s) == [s.Lines() - 1] + Range(0, s.Lines() - 1)
  {
    var addr := s.size - s.lineSize;
    DivModUnique(addr, s.size, 0, addr);
    TopLine(addr, s);
    NextLine(addr, s);
    DivMod(s.size, s.lineSize);
    DivModUnique(addr, s.lineSize, s.Lines() - 1, 0);
    BoundedCount(addr, 0, s);
    if s.Lines() - 2 >= CeilDiv(addr, s.lineSize) {
      var start := addr - s.lineSize;
      DivModUnique(start, s.lineSize, s.Lines() - 2, 0);
      StartsBelow(start, addr, s.lineSize);
    }
  }

  /** An empty access touches just the line of its address if and only if it is not in the topmost line. */
  lemma EmptyAccessExactly(addr: nat, s: Space)
    requires s.Valid() && addr < s.size
    ensures Terminates(addr, 0, s) && Lines(addr, 0, s) == [LineNumber(addr, s.lineSize)]
            <==> addr < s.size - s.lineSize
  {
    if addr < s.size - s.lineSize {
      LinesOfEmptyAccess(addr, s);
    } else if addr == s.size - s.lineSize {
      LinesOfEmptyTopAccess(s);
    } else {
      DivModUnique(addr, s.size, 0, addr);
    }
  }

  // ---------- inputs for which the code falls short ----------

  /** A 32-bit address space with lines of 64 bytes. */
  const SPACE32 := Space(64, WORD32)

  lemma Space32()
    ensures SPACE32.Valid() && SPACE32.Lines() == 0x400_0000
  {
    DivModUnique(WORD32, 64, 0x400_0000, 0);
  }

  /** Loading the first four bytes of the topmost line never returns. */
  lemma LoadInTopLineNeverReturns()
    ensures SPACE32.Valid()
    ensures forall k: nat :: k >= 1 ==> AddressAfter(0xffff_ffc0, SPACE32, k) < HighAddress(0xffff_ffc0, 4, SPACE32)
  {
    Space32();
    DivModUnique(0xffff_ffc4, WORD32, 0, 0xffff_ffc4);
    TerminatesExact(0xffff_ffc0, 4, SPACE32);
  }

  /** Loading the last 128 bytes touches one of their two lines. */
  lemma LoadToTheEndTouchesOneLine()
    ensures SPACE32.Valid() && Terminates(0xffff_ff80, 128, SPACE32)
    ensures Lines(0xffff_ff80, 128, SPACE32) == [0x3ff_fffe]
    ensures LinesOfBytes(0xffff_ff80, 128, SPACE32) == [0x3ff_fffe, 0x3ff_ffff]
  {
    Space32();
    DivModUnique(WORD32, WORD32, 1, 0);
    DivModUnique(0xffff_ff80, 64, 0x3ff_fffe, 0);
    DivModUnique(0xffff_ffff, 64, 0x3ff_ffff, 63);
    LinesOfOverrun(0xffff_ff80, 128, SPACE32);
  }

  /** An empty load at the start of the topmost line touches 2^26 lines. */
  lemma EmptyLoadTouchesEveryLine()
    ensures SPACE32.Valid() && |Lines(0xffff_ffc0, 0, SPACE32)| == 0x400_0000
  {
    Space32();
    LinesOfEmptyTopAccess(SPACE32);
  }

  lemma AcceptedIf(g: Geometry)
    requires g.cacheSize < WORD32 && g.associativity < WORD32 && g.lineSize < WORD32 && g.BlockSize() != 0
    requires IsPowerOfTwo(g.lineSize)
    requires g.cacheSize < g.BlockSize() || IsPowerOfTwo(Quot(g.cacheSize, g.BlockSize()))
    ensures g.Accepted() && g.NumSets() == Quot(g.cacheSize, g.BlockSize())
  {
    SetsOfGeometry(g);
    IsPower2Exact(g.lineSize);
    IsPower2Exact(g.NumSets());
  }

  /** A block of 64 bytes in a cache of 32: accepted, without any set. */
  lemma AcceptedWithoutSets()
    ensures Geometry(32, 64, 1).Accepted() && Geometry(32, 64, 1).NumSets() == 0
  {
    assert Pow2(6) == 64;
    AcceptedIf(Geometry(32, 64, 1));
  }

  /** Three ways of 2^31 bytes in a cache of 2^31: the product wraps to one of them. */
  lemma AcceptedBeyondCapacity()
    ensures
      var g := Geometry(0x8000_0000, 0x8000_0000, 3);
      g.Accepted() && g.NumSets() == 1 && g.NumSets() * g.associativity * g.lineSize == 3 * g.cacheSize
  {
    var g := Geometry(0x8000_0000, 0x8000_0000, 3);
    assert g.BlockSize() == 0x8000_0000;
    DivModUnique(g.cacheSize, g.BlockSize(), 1, 0);
    WordPowers();
    assert Pow2(0) == 1;
    AcceptedIf(g);
  }
}

/**
  The CPU set macros of sched.h. A set is an array of 64-bit words; words are naturals and the bit
  operations act on their binary digits. What the words mean is a mathematical set of CPU numbers.
  Sizes are in bytes and the byte order is little-endian, as on the processors that Pin supports.
 */
module WordBits {
  import opened Bits

  datatype BitOp = AndOp | OrOp | XorOp

  predicate Combine(op: BitOp, p: bool, q: bool) {
    match op
    case AndOp => p && q
    case OrOp => p || q
    case XorOp => p != q
  }

  function Apply(op: BitOp, x: nat, y: nat): nat
    decreases x + y
  {
    if x == 0 && y == 0 then 0
    else (if Combine(op, x % 2 == 1, y % 2 == 1) then 1 else 0) + 2 * Apply(op, x / 2, y / 2)
  }

  /** The complement of a word of `width` bits. */
  function Not(x: nat, width: nat): nat {
    if width == 0 then 0 else (if x % 2 == 1 then 0 else 1) + 2 * Not(x / 2, width - 1)
  }

  predicate HasBit(x: nat, b: nat) {
    if b == 0 then x % 2 == 1 else HasBit(x / 2, b - 1)
  }

  lemma {:induction false} ZeroHasNoBit(b: nat)
    ensures !HasBit(0, b)
  {
    if b != 0 {
      ZeroHasNoBit(b - 1);
    }
  }

  lemma {:induction false} ApplyBits(op: BitOp, x: nat, y: nat, b: nat)
    ensures HasBit(Apply(op, x, y), b) <==> Combine(op, HasBit(x, b), HasBit(y, b))
  {
    if x == 0 && y == 0 {
      ZeroHasNoBit(b);
    } else if b != 0 {
      ApplyBits(op, x / 2, y / 2, b - 1);
      assert Apply(op, x, y) / 2 == Apply(op, x / 2, y / 2);
    }
  }

  lemma {:induction false} ApplyFits(op: BitOp, x: nat, y: nat, width: nat)
    requires x < Pow2(width) && y < Pow2(width)
    ensures Apply(op, x, y) < Pow2(width)
  {
    if width != 0 {
      ApplyFits(op, x / 2, y / 2, width - 1);
    }
  }

  lemma {:induction false} NotBits(x: nat, width: nat, b: nat)
    requires b < width
    ensures HasBit(Not(x, width), b) <==> !HasBit(x, b)
  {
    if b != 0 {
      NotBits(x / 2, width - 1, b - 1);
      assert Not(x, width) / 2 == Not(x / 2, width - 1);
    }
  }

  lemma {:induction false} NotFits(x: nat, width: nat)
    ensures Not(x, width) < Pow2(width)
  {
    if width != 0 {
      NotFits(x / 2, width - 1);
    }
  }

  lemma {:induction false} MaskBits(k: nat, b: nat)
    ensures HasBit(Pow2(k), b) <==> b == k
  {
    if k == 0 {
      if b != 0 {
        ZeroHasNoBit(b - 1);
      }
    } else if b != 0 {
      MaskBits(k - 1, b - 1);
      assert Pow2(k) / 2 == Pow2(k - 1);
    }
  }

  lemma {:induction false} MaskFits(k: nat, width: nat)
    requires k < width
    ensures Pow2(k) < Pow2(width)
  {
    Pow2Monotone(k, width);
  }

  /** Numbers of `width` bits are determined by them. */
  lemma {:induction false} SameBits(x: nat, y: nat, width: nat)
    requires x < Pow2(width) && y < Pow2(width)
    requires forall b: nat :: b < width ==> HasBit(x, b) == HasBit(y, b)
    ensures x == y
  {
    if width != 0 {
      assert HasBit(x, 0) == HasBit(y, 0);
      forall b: nat | b < width - 1 ensures HasBit(x / 2, b) == HasBit(y / 2, b) {
        assert HasBit(x, b + 1) == HasBit(y, b + 1);
      }
      SameBits(x / 2, y / 2, width - 1);
    }
  }

  /** The k-th byte of a word, counted from the low end. */
  function ByteOf(x: nat, k: nat): (b: nat)
    ensures b < 256
  {
    if k == 0 then x % 256 else ByteOf(x / 256, k - 1)
  }

  lemma {:induction false} LowBits(x: nat, width: nat, b: nat)
    requires b < width
    ensures HasBit(Rem(x, Pow2(width)), b) == HasBit(x, b)
  {
    ModDouble(x, Pow2(width - 1));
    if b != 0 {
      LowBits(x / 2, width - 1, b - 1);
    }
  }

  lemma ByteBits(x: nat, b: nat)
    requires b < 8
    ensures HasBit(x % 256, b) == HasBit(x, b)
  {
    assert Pow2(8) == 256;
    NativeDivision(x, 256);
    LowBits(x, 8, b);
  }

  lemma HighBits(x: nat, b: nat)
    ensures HasBit(x / 256, b) == HasBit(x, b + 8)
  {
    HighBits4(x, b + 4);
    HighBits4(x / 16, b);
  }

  lemma HighBits4(x: nat, b: nat)
    ensures HasBit(x / 16, b) == HasBit(x, b + 4)
  {
    assert HasBit(x, b + 4) == HasBit(x / 2, b + 3);
    assert HasBit(x / 2, b + 3) == HasBit(x / 4, b + 2);
    assert HasBit(x / 4, b + 2) == HasBit(x / 8, b + 1);
  }

  /** Bit b of byte k is bit 8 * k + b of the word. */
  lemma {:induction false} BitOfByte(x: nat, k: nat, b: nat)
    requires b < 8
    ensures HasBit(ByteOf(x, k), b) == HasBit(x, 8 * k + b)
  {
    if k == 0 {
      ByteBits(x, b);
    } else {
      BitOfByte(x / 256, k - 1, b);
      HighBits(x, 8 * (k - 1) + b);
    }
  }
}

module CpuSet {
  import opened Bits
  import opened WordBits

  const CPU_BITS: nat := 64
  const WORD_BYTES: nat := 8

  type Word = w: nat | w < Pow2(64) witness 0

  // __CPU_ELT
  function Elt(cpu: nat): nat {
    cpu / 64
  }

  // __CPU_MASK
  function Mask(cpu: nat): (m: Word)
  {
    MaskFits(cpu % 64, 64);
    Pow2(cpu % 64)
  }

  predicate Member(words: seq<Word>, cpu: nat) {
    Elt(cpu) < |words| && HasBit(words[Elt(cpu)], cpu % 64)
  }

  /** The set of CPUs that the words stand for. */
  function Cpus(words: seq<Word>): (s: set<nat>)
    ensures forall cpu: nat :: cpu in s <==> Member(words, cpu)
  {
    set cpu: nat | cpu < 64 * |words| && Member(words, cpu)
  }

  /** The CPUs that a set of `setsize` bytes can hold. */
  predicate InRange(cpu: nat, setsize: nat) {
    cpu < 8 * setsize
  }

  method SetCpu(cpu: nat, setsize: nat, bits: array<Word>)
    requires setsize <= WORD_BYTES * bits.Length
    modifies bits
    ensures Cpus(bits[..]) == if InRange(cpu, setsize) then old(Cpus(bits[..])) + {cpu} else old(Cpus(bits[..]))
  {
    if cpu < 8 * setsize {
      var i := Elt(cpu);
      ghost var words := bits[..];
      var word := WordWith(bits[i], Mask(cpu));
      AddsOne(words, cpu, word);
      bits[i] := word;
      assert bits[..] == words[i := word];
    }
  }

  method ClearCpu(cpu: nat, setsize: nat, bits: array<Word>)
    requires setsize <= WORD_BYTES * bits.Length
    modifies bits
    ensures Cpus(bits[..]) == if InRange(cpu, setsize) then old(Cpus(bits[..])) - {cpu} else old(Cpus(bits[..]))
  {
    if cpu < 8 * setsize {
      var i := Elt(cpu);
      ghost var words := bits[..];
      var word := WordWithout(bits[i], Mask(cpu));
      RemovesOne(words, cpu, word);
      bits[i] := word;
      assert bits[..] == words[i := word];
    }
  }

  function WordWith(w: Word, mask: Word): Word {
    ApplyFits(OrOp, w, mask, 64);
    Apply(OrOp, w, mask)
  }

  function WordWithout(w: Word, mask: Word): Word {
    NotFits(mask, 64);
    ApplyFits(AndOp, w, Not(mask, 64), 64);
    Apply(AndOp, w, Not(mask, 64))
  }

  lemma BitsWith(w: Word, cpu: nat, b: nat)
    ensures HasBit(WordWith(w, Mask(cpu)), b) <==> HasBit(w, b) || b == cpu % 64
  {
    ApplyBits(OrOp, w, Mask(cpu), b);
    MaskBits(cpu % 64, b);
  }

  lemma BitsWithout(w: Word, cpu: nat, b: nat)
    requires b < 64
    ensures HasBit(WordWithout(w, Mask(cpu)), b) <==> HasBit(w, b) && b != cpu % 64
  {
    ApplyBits(AndOp, w, Not(Mask(cpu), 64), b);
    NotBits(Mask(cpu), 64, b);
    MaskBits(cpu % 64, b);
  }

  /** Two CPUs are the same if they have the same word and the same bit in it. */
  lemma SameCpu(c: nat, d: nat)
    ensures c == d <==> Elt(c) == Elt(d) && c % 64 == d % 64
  {
    assert c == 64 * (c / 64) + c % 64 && d == 64 * (d / 64) + d % 64;
  }

  /** Or-ing the mask into its word adds exactly the one CPU. */
  lemma AddsOne(words: seq<Word>, cpu: nat, word: Word)
    requires Elt(cpu) < |words| && word == WordWith(words[Elt(cpu)], Mask(cpu))
    ensures Cpus(words[Elt(cpu) := word]) == Cpus(words) + {cpu}
  {
    var after := words[Elt(cpu) := word];
    forall c: nat ensures Member(after, c) <==> Member(words, c) || c == cpu {
      SameCpu(c, cpu);
      BitsWith(words[Elt(cpu)], cpu, c % 64);
    }
  }

  /** And-ing with the complement of the mask removes exactly the one CPU. */
  lemma RemovesOne(words: seq<Word>, cpu: nat, word: Word)
    requires Elt(cpu) < |words| && word == WordWithout(words[Elt(cpu)], Mask(cpu))
    ensures Cpus(words[Elt(cpu) := word]) == Cpus(words) - {cpu}
  {
    var after := words[Elt(cpu) := word];
    forall c: nat ensures Member(after, c) <==> Member(words, c) && c != cpu {
      SameCpu(c, cpu);
      BitsWithout(words[Elt(cpu)], cpu, c % 64);
    }
  }

  /** CPU_ISSET_S: and-ing with the mask is nonzero. */
  function IsSet(cpu: nat, setsize: nat, words: seq<Word>): bool
    requires setsize <= WORD_BYTES * |words|
  {
    if cpu < 8 * setsize then Apply(AndOp, words[Elt(cpu)], Mask(cpu)) != 0 else false
  }

  lemma IsSetExact(cpu: nat, setsize: nat, words: seq<Word>)
    requires setsize <= WORD_BYTES * |words|
    ensures IsSet(cpu, setsize, words) <==> InRange(cpu, setsize) && cpu in Cpus(words)
  {
    if cpu < 8 * setsize {
      var w, m := words[Elt(cpu)], Mask(cpu);
      ApplyFits(AndOp, w, m, 64);
      forall b: nat | b < 64 ensures HasBit(Apply(AndOp, w, m), b) <==> b == cpu % 64 && HasBit(w, b) {
        ApplyBits(AndOp, w, m, b);
        MaskBits(cpu % 64, b);
      }
      forall b: nat | b < 64 ensures !HasBit(0, b) {
        ZeroHasNoBit(b);
      }
      assert HasBit(Apply(AndOp, w, m), cpu % 64) == HasBit(w, cpu % 64);
      if !HasBit(w, cpu % 64) {
        SameBits(Apply(AndOp, w, m), 0, 64);
      }
    }
  }

  function CombinedWord(op: BitOp, x: Word, y: Word): Word {
    ApplyFits(op, x, y, 64);
    Apply(op, x, y)
  }

  /** The words after the loop: the first setsize / 8 are combined, the others are left alone. */
  function Operated(op: BitOp, setsize: nat, d: seq<Word>, a: seq<Word>, b: seq<Word>): (r: seq<Word>)
    requires setsize / 8 <= |d| && setsize / 8 <= |a| && setsize / 8 <= |b|
    ensures |r| == |d|
    ensures forall i :: 0 <= i < |d| ==> r[i] == if i < setsize / 8 then CombinedWord(op, a[i], b[i]) else d[i]
  {
    seq(|d|, i requires 0 <= i < |d| => if i < setsize / 8 then CombinedWord(op, a[i], b[i]) else d[i])
  }

  /** The word loop; the destination may be one of the sources. */
  method Operate(op: BitOp, setsize: nat, dst: array<Word>, src1: array<Word>, src2: array<Word>)
    requires setsize <= WORD_BYTES * dst.Length
    requires setsize <= WORD_BYTES * src1.Length && setsize <= WORD_BYTES * src2.Length
    modifies dst
    ensures dst[..] == Operated(op, setsize, old(dst[..]), old(src1[..]), old(src2[..]))
  {
    ghost var d, a, b := dst[..], src1[..], src2[..];
    var n, max: nat := 0, setsize / 8;
    while n < max
      invariant 0 <= n <= max
      invariant forall i :: 0 <= i < n ==> dst[i] == CombinedWord(op, a[i], b[i])
      invariant forall i :: n <= i < dst.Length ==> dst[i] == d[i]
      invariant forall i :: n <= i < max ==> src1[i] == a[i] && src2[i] == b[i]
    {
      dst[n] := CombinedWord(op, src1[n], src2[n]);
      n := n + 1;
    }
  }

  /** Which CPUs are members after the loop. */
  lemma OperatedMember(op: BitOp, setsize: nat, d: seq<Word>, a: seq<Word>, b: seq<Word>, cpu: nat)
    requires setsize / 8 <= |d| && setsize / 8 <= |a| && setsize / 8 <= |b|
    ensures Member(Operated(op, setsize, d, a, b), cpu) <==>
            if cpu < 64 * (setsize / 8) then Combine(op, Member(a, cpu), Member(b, cpu)) else Member(d, cpu)
  {
    if cpu < 64 * (setsize / 8) {
      ApplyBits(op, a[Elt(cpu)], b[Elt(cpu)], cpu % 64);
    }
  }

  function Combined(op: BitOp, a: set<nat>, b: set<nat>): set<nat> {
    match op
    case AndOp => a * b
    case OrOp => a + b
    case XorOp => (a - b) + (b - a)
  }

  /** CPU_AND, CPU_OR and CPU_XOR on whole sets: the operation on the sets of CPUs, aliased or not. */
  method OperateWhole(op: BitOp, dst: array<Word>, src1: array<Word>, src2: array<Word>)
    requires dst.Length == src1.Length == src2.Length
    modifies dst
    ensures Cpus(dst[..]) == Combined(op, old(Cpus(src1[..])), old(Cpus(src2[..])))
  {
    ghost var d, a, b := dst[..], src1[..], src2[..];
    Operate(op, WORD_BYTES * dst.Length, dst, src1, src2);
    OperatedSet(op, d, a, b);
  }

  lemma OperatedSet(op: BitOp, d: seq<Word>, a: seq<Word>, b: seq<Word>)
    requires |d| == |a| == |b|
    ensures Cpus(Operated(op, WORD_BYTES * |d|, d, a, b)) == Combined(op, Cpus(a), Cpus(b))
  {
    var r := Operated(op, WORD_BYTES * |d|, d, a, b);
    forall cpu: nat ensures Member(r, cpu) <==> Combine(op, Member(a, cpu), Member(b, cpu)) {
      OperatedMember(op, WORD_BYTES * |d|, d, a, b, cpu);
    }
  }

  /** Every CPU in range is combined, whatever was in the destination. */
  ghost predicate CombinesAll(op: BitOp, setsize: nat, d: seq<Word>, a: seq<Word>, b: seq<Word>)
    requires setsize / 8 <= |d| && setsize / 8 <= |a| && setsize / 8 <= |b|
  {
    forall cpu: nat :: InRange(cpu, setsize) ==>
      (Member(Operated(op, setsize, d, a, b), cpu) <==> Combine(op, Member(a, cpu), Member(b, cpu)))
  }

  predicate Fits(setsize: nat, words: seq<Word>) {
    setsize <= WORD_BYTES * |words|
  }

  /** The word loop does the operation on all CPUs of a set of `setsize` bytes exactly for whole-word sizes. */
  lemma OperatesOnAllExactly(op: BitOp, setsize: nat)
    ensures setsize % 8 == 0 <==>
      forall d, a, b :: Fits(setsize, d) && Fits(setsize, a) && Fits(setsize, b) ==> CombinesAll(op, setsize, d, a, b)
  {
    if setsize % 8 == 0 {
      forall d, a, b | Fits(setsize, d) && Fits(setsize, a) && Fits(setsize, b) ensures CombinesAll(op, setsize, d, a, b) {
        forall cpu: nat | InRange(cpu, setsize)
          ensures Member(Operated(op, setsize, d, a, b), cpu) <==> Combine(op, Member(a, cpu), Member(b, cpu))
        {
          OperatedMember(op, setsize, d, a, b, cpu);
        }
      }
    } else {
      PartialWordIsLeft(op, setsize);
    }
  }

  /** n words without a member, or with one in the last word. */
  function Blank(n: nat): seq<Word> {
    seq(n, _ => 0)
  }

  function Marked(n: nat): seq<Word> {
    Blank(n) + [1]
  }

  /** The first CPU of a partial last word stays in the destination, although it is in neither source. */
  lemma PartialWordIsLeft(op: BitOp, setsize: nat)
    requires setsize % 8 != 0
    ensures
      var n := setsize / 8;
      && Fits(setsize, Marked(n)) && Fits(setsize, Blank(n + 1)) && InRange(64 * n, setsize)
      && Member(Operated(op, setsize, Marked(n), Blank(n + 1), Blank(n + 1)), 64 * n)
      && !Combine(op, Member(Blank(n + 1), 64 * n), Member(Blank(n + 1), 64 * n))
  {
    var n := setsize / 8;
    var cpu := 64 * n;
    assert Elt(cpu) == n && cpu % 64 == 0;
    ZeroHasNoBit(0);
    OperatedMember(op, setsize, Marked(n), Blank(n + 1), Blank(n + 1), cpu);
    assert Marked(n)[n] == 1;
  }

  /** CPU_EQUAL_S: memcmp over the first `setsize` bytes. */
  predicate EqualBytes(setsize: nat, a: seq<Word>, b: seq<Word>)
    requires setsize <= WORD_BYTES * |a| && setsize <= WORD_BYTES * |b|
  {
    forall k: nat :: k < setsize ==> ByteOf(a[k / 8], k % 8) == ByteOf(b[k / 8], k % 8)
  }

  /** Equality of the bytes is equality of the sets, for every size and not only whole words. */
  lemma EqualExact(setsize: nat, a: seq<Word>, b: seq<Word>)
    requires setsize <= WORD_BYTES * |a| && setsize <= WORD_BYTES * |b|
    ensures EqualBytes(setsize, a, b) <==>
            forall cpu: nat :: InRange(cpu, setsize) ==> (cpu in Cpus(a) <==> cpu in Cpus(b))
  {
    if EqualBytes(setsize, a, b) {
      forall cpu: nat | InRange(cpu, setsize) ensures cpu in Cpus(a) <==> cpu in Cpus(b) {
        assert ByteOf(a[cpu / 8 / 8], cpu / 8 % 8) == ByteOf(b[cpu / 8 / 8], cpu / 8 % 8);
        MemberByByte(a, cpu);
        MemberByByte(b, cpu);
      }
    }
    if forall cpu: nat :: InRange(cpu, setsize) ==> (cpu in Cpus(a) <==> cpu in Cpus(b)) {
      forall k: nat | k < setsize ensures ByteOf(a[k / 8], k % 8) == ByteOf(b[k / 8], k % 8) {
        SameByte(a, b, k);
      }
    }
  }

  lemma SameByte(a: seq<Word>, b: seq<Word>, k: nat)
    requires k / 8 < |a| && k / 8 < |b|
    requires forall cpu: nat :: 8 * k <= cpu < 8 * k + 8 ==> (cpu in Cpus(a) <==> cpu in Cpus(b))
    ensures ByteOf(a[k / 8], k % 8) == ByteOf(b[k / 8], k % 8)
  {
    assert Pow2(8) == 256;
    var x, y := ByteOf(a[k / 8], k % 8), ByteOf(b[k / 8], k % 8);
    forall j: nat | j < 8 ensures HasBit(x, j) == HasBit(y, j) {
      assert 8 * k + j in Cpus(a) <==> 8 * k + j in Cpus(b);
      MemberInByte(a, k, j);
      MemberInByte(b, k, j);
    }
    SameBits(x, y, 8);
  }

  lemma MemberInByte(words: seq<Word>, k: nat, j: nat)
    requires k / 8 < |words| && j < 8
    ensures Member(words, 8 * k + j) <==> HasBit(ByteOf(words[k / 8], k % 8), j)
  {
    MemberByByte(words, 8 * k + j);
  }

  lemma MemberByByte(words: seq<Word>, cpu: nat)
    requires cpu / 8 / 8 < |words|
    ensures Member(words, cpu) <==> HasBit(ByteOf(words[cpu / 8 / 8], cpu / 8 % 8), cpu % 8)
  {
    var k, j := cpu / 8, cpu % 8;
    BitOfByte(words[k / 8], k % 8, j);
    assert cpu == 8 * k + j && k == 8 * (k / 8) + k % 8;
    assert cpu / 64 == k / 8 && cpu % 64 == 8 * (k % 8) + j;
  }

  // ---------- CPU_ALLOC_SIZE ----------

  const SIZE_WORD: nat := 0x1_0000_0000_0000_0000

  /** In size_t arithmetic, which wraps. */
  function AllocSize(count: nat): nat {
    Elt((count + (CPU_BITS - 1)) % SIZE_WORD) * WORD_BYTES
  }

  /** The least whole-word size that holds `count` bits, exactly as long as the sum does not wrap. */
  lemma AllocSizeExact(count: nat)
    requires count < SIZE_WORD
    ensures AllocSize(count) % WORD_BYTES == 0
    ensures 8 * AllocSize(count) >= count <==> count <= SIZE_WORD - CPU_BITS
    ensures forall size: nat :: count <= SIZE_WORD - CPU_BITS && size % WORD_BYTES == 0 && 8 * size >= count
                                ==> AllocSize(count) <= size
  {
  }
}

/**
  Theorems about one set over whole runs: what the rotating array remembers, how long a tag stays,
  and how often a round robin set can miss.
 */
module SetTraces {
  import opened Bits
  import opened FifoQueue

  /** One operation on a set: a line access that may allocate, or a flush. */
  datatype SetOp = Line(tag: Tag, allocate: bool) | Clear

  function StepSet(q: Queue, op: SetOp): (r: Queue)
    ensures |r| == |q|
  {
    match op
    case Line(tag, allocate) => Touch(q, tag, allocate)
    case Clear => Cold(|q|)
  }

  function RunSet(q: Queue, ops: seq<SetOp>): (r: Queue)
    ensures |r| == |q|
  {
    if ops == [] then q else StepSet(RunSet(q, ops[..|ops| - 1]), ops[|ops| - 1])
  }

  lemma {:induction false} RunSetConcat(q: Queue, a: seq<SetOp>, b: seq<SetOp>)
    ensures RunSet(q, a + b) == RunSet(RunSet(q, a), b)
  {
    if b == [] {
      assert a + b == a;
    } else {
      var c := a + b;
      assert c[..|c| - 1] == a + b[..|b| - 1];
      RunSetConcat(q, a, b[..|b| - 1]);
    }
  }

  // ---------- the array is a FIFO window over the allocation history ----------

  /** The tags that were written into the set since the start or the last flush, oldest first. */
  function Allocated(q: Queue, ops: seq<SetOp>): seq<Tag> {
    if ops == [] then []
    else
      var before, op := ops[..|ops| - 1], ops[|ops| - 1];
      match op
      case Clear => []
      case Line(tag, allocate) =>
        Allocated(q, before) + if allocate && tag !in RunSet(q, before) then [tag] else []
  }

  /** A queue after the tags of a history have come in, the newest in front. */
  function Pushed(q: Queue, history: seq<Tag>): (r: Queue)
    ensures |r| == |q|
  {
    seq(|q|, i requires 0 <= i < |q| => if i < |history| then history[|history| - 1 - i] else q[i - |history|])
  }

  /** The newest `ways` entries of a history on top of an empty set. */
  function Window(ways: nat, history: seq<Tag>): Queue {
    Pushed(Cold(ways), history)
  }

  /** The newest entries of a history, at most n of them. */
  function Newest(history: seq<Tag>, n: nat): seq<Tag> {
    if |history| <= n then history else history[|history| - n..]
  }

  lemma PushPushed(q: Queue, history: seq<Tag>, tag: Tag)
    ensures Push(Pushed(q, history), tag) == Pushed(q, history + [tag])
  {
    var before, after := Push(Pushed(q, history), tag), Pushed(q, history + [tag]);
    forall i | 0 <= i < |q| ensures before[i] == after[i] {
      if i > 0 {
        assert before[i] == Pushed(q, history)[i - 1];
      }
    }
  }

  /** What the allocated tags come in on top of: the old queue, or after a flush an empty one. */
  function Base(q: Queue, ops: seq<SetOp>): (r: Queue)
    ensures |r| == |q|
  {
    if Clear in ops then Cold(|q|) else q
  }

  lemma BaseStep(q: Queue, before: seq<SetOp>, op: SetOp)
    ensures Base(q, before + [op]) == if op.Clear? then Cold(|q|) else Base(q, before)
  {
    if Clear in before {
      var i :| 0 <= i < |before| && before[i] == Clear;
      assert (before + [op])[i] == Clear;
    } else if op.Clear? {
      assert (before + [op])[|before|] == Clear;
    }
  }

  lemma NothingPushed(q: Queue)
    ensures Pushed(q, []) == q
  {
  }

  /** From any queue, a run leaves the newest allocated tags on top of what was there. */
  lemma {:induction false} RunIsPushed(q: Queue, ops: seq<SetOp>)
    ensures RunSet(q, ops) == Pushed(Base(q, ops), Allocated(q, ops))
  {
    if ops == [] {
      NothingPushed(q);
    } else {
      var before, op := ops[..|ops| - 1], ops[|ops| - 1];
      RunIsPushed(q, before);
      assert ops == before + [op];
      BaseStep(q, before, op);
      match op {
        case Clear => NothingPushed(Cold(|q|));
        case Line(tag, _) => PushPushed(Base(q, before), Allocated(q, before), tag);
      }
    }
  }

  /** After any run from an empty set the queue is the window over the allocation history. */
  lemma RunIsWindow(ways: nat, ops: seq<SetOp>)
    ensures RunSet(Cold(ways), ops) == Window(ways, Allocated(Cold(ways), ops))
  {
    RunIsPushed(Cold(ways), ops);
  }

  lemma InPushed(q: Queue, history: seq<Tag>, tag: Tag)
    ensures tag in Pushed(q, history) <==>
            tag in Newest(history, |q|) || (|history| < |q| && tag in q[..|q| - |history|])
  {
    var w, n := Pushed(q, history), Newest(history, |q|);
    if tag in w {
      var i :| 0 <= i < |w| && w[i] == tag;
      if i < |history| {
        assert n[|n| - 1 - i] == tag;
      } else {
        assert q[..|q| - |history|][i - |history|] == tag;
      }
    }
    if tag in n {
      var j :| 0 <= j < |n| && n[j] == tag;
      assert w[|n| - 1 - j] == tag;
    } else if |history| < |q| && tag in q[..|q| - |history|] {
      var j :| 0 <= j < |q| - |history| && q[j] == tag;
      assert w[|history| + j] == tag;
    }
  }

  /**
    Find is exact: a tag is found if and only if it is among the last `ways` tags allocated since
    the start or the last flush; tag 0 is also found as long as some way has never been written.
   */
  lemma FoundExact(ways: nat, ops: seq<SetOp>, tag: Tag)
    ensures
      var history := Allocated(Cold(ways), ops);
      tag in RunSet(Cold(ways), ops) <==>
      tag in Newest(history, ways) || (tag == 0 && |history| < ways)
  {
    var history := Allocated(Cold(ways), ops);
    RunIsWindow(ways, ops);
    InPushed(Cold(ways), history, tag);
    if |history| < ways {
      assert Cold(ways)[..ways - |history|][0] == 0;
    }
  }

  lemma RunSetOne(q: Queue, op: SetOp)
    ensures RunSet(q, [op]) == StepSet(q, op)
  {
    assert [op][..0] == [];
  }

  /**
    From any queue, a tag that misses and is allocated is found after any further run if and only
    if fewer than `ways` tags have been allocated since, without a flush, or it is among the last
    `ways` of these tags again. (Tag 0 is also found in a flushed set that is not yet full.)
   */
  lemma SurvivesExact(q: Queue, tag: Tag, later: seq<SetOp>)
    requires tag !in q
    ensures
      var history := Allocated(Push(q, tag), later);
      tag in RunSet(q, [Line(tag, true)] + later) <==>
      (|history| < |q| && (Clear !in later || tag == 0)) || tag in Newest(history, |q|)
  {
    var history := Allocated(Push(q, tag), later);
    RunSetConcat(q, [Line(tag, true)], later);
    RunSetOne(q, Line(tag, true));
    RunIsPushed(Push(q, tag), later);
    var base := Base(Push(q, tag), later);
    InPushed(base, history, tag);
    if |history| < |q| {
      assert base[..|q| - |history|][0] == if Clear in later then 0 else tag;
    }
  }

  // ---------- round robin is conservative ----------

  function Loads(tags: seq<Tag>): (ops: seq<SetOp>)
    ensures |ops| == |tags|
  {
    seq(|tags|, i requires 0 <= i < |tags| => Line(tags[i], true))
  }

  /** The tags that miss in a stretch of allocating accesses, in the order of the misses. */
  function Missed(q: Queue, tags: seq<Tag>): seq<Tag> {
    if tags == [] then []
    else
      var before, tag := tags[..|tags| - 1], tags[|tags| - 1];
      Missed(q, before) + if tag in RunSet(q, Loads(before)) then [] else [tag]
  }

  ghost predicate NoRepeats(s: seq<Tag>) {
    forall i, j :: 0 <= i < j < |s| ==> s[i] != s[j]
  }

  function Elements(s: seq<Tag>): set<Tag> {
    set t | t in s
  }

  lemma {:induction false} NoRepeatsBound(s: seq<Tag>, elements: set<Tag>)
    requires NoRepeats(s) && Elements(s) <= elements
    ensures |s| <= |elements|
  {
    if s != [] {
      var before, last := s[..|s| - 1], s[|s| - 1];
      assert Elements(before) <= elements - {last};
      assert last in elements;
      NoRepeatsBound(before, elements - {last});
    }
  }

  /** Loads leave the missed tags on top of what was there. */
  lemma {:induction false} RunOfLoads(q: Queue, tags: seq<Tag>)
    ensures RunSet(q, Loads(tags)) == Pushed(q, Missed(q, tags))
  {
    if tags == [] {
      assert Loads(tags) == [];
    } else {
      var before, tag := tags[..|tags| - 1], tags[|tags| - 1];
      RunOfLoads(q, before);
      assert Loads(tags)[..|tags| - 1] == Loads(before);
      PushPushed(q, Missed(q, before), tag);
    }
  }

  /**
    From any state, a stretch of allocating accesses that uses at most as many distinct tags as
    there are ways misses each of them at most once. The queue afterwards consists of the missed
    tags, newest first, and of what is left of the old one.
   */
  lemma {:induction false} RoundRobinIsConservative(q: Queue, tags: seq<Tag>)
    requires |Elements(tags)| <= |q|
    ensures NoRepeats(Missed(q, tags)) && Elements(Missed(q, tags)) <= Elements(tags)
    ensures |Missed(q, tags)| <= |Elements(tags)|
    ensures RunSet(q, Loads(tags)) == Pushed(q, Missed(q, tags))
  {
    RunOfLoads(q, tags);
    if tags != [] {
      var before, tag := tags[..|tags| - 1], tags[|tags| - 1];
      SubsetSize(Elements(before), Elements(tags));
      RoundRobinIsConservative(q, before);
      InPushed(q, Missed(q, before), tag);
      NoRepeatsBound(Missed(q, tags), Elements(tags));
    }
  }

  lemma SubsetSize(a: set<Tag>, b: set<Tag>)
    requires a <= b
    ensures |a| <= |b|
  {
    assert b == a + (b - a);
  }

  /** Hence at most `ways` misses in such a stretch, and a tag that has missed once hits from then on. */
  lemma MissesAtMostWays(q: Queue, tags: seq<Tag>, k: nat)
    requires |Elements(tags)| <= |q| && k < |tags|
    ensures |Missed(q, tags)| <= |q|
    ensures tags[k] in Missed(q, tags[..k]) ==> tags[k] in RunSet(q, Loads(tags[..k]))
  {
    RoundRobinIsConservative(q, tags);
    SubsetSize(Elements(tags[..k]), Elements(tags));
    RoundRobinIsConservative(q, tags[..k]);
    InPushed(q, Missed(q, tags[..k]), tags[k]);
  }

  lemma {:induction false} MissedGrows(q: Queue, tags: seq<Tag>, k: nat)
    requires k <= |tags|
    ensures Missed(q, tags[..k]) <= Missed(q, tags)
  {
    if k == |tags| {
      assert tags[..k] == tags;
    } else {
      assert tags[..|tags| - 1][..k] == tags[..k];
      MissedGrows(q, tags[..|tags| - 1], k);
    }
  }

  /** A tag that has missed at some point of such a stretch hits at all later ones. */
  lemma MissesOnce(q: Queue, tags: seq<Tag>, j: nat, k: nat)
    requires |Elements(tags)| <= |q| && j < k < |tags| && tags[j] == tags[k]
    requires tags[j] !in RunSet(q, Loads(tags[..j]))
    ensures tags[k] in RunSet(q, Loads(tags[..k]))
  {
    assert tags[..j + 1][..j] == tags[..j] && tags[..k][..j + 1] == tags[..j + 1];
    var m := Missed(q, tags[..j + 1]);
    assert m[|m| - 1] == tags[j];
    MissedGrows(q, tags[..k], j + 1);
    MissesAtMostWays(q, tags, k);
  }

  /** From an empty set every nonzero tag misses when it first comes. */
  lemma {:induction false} FirstMisses(ways: nat, tags: seq<Tag>, tag: Tag)
    requires |Elements(tags)| <= ways && tag != 0 && tag in tags
    ensures tag in Missed(Cold(ways), tags)
  {
    var q, before := Cold(ways), tags[..|tags| - 1];
    if tag in before {
      SubsetSize(Elements(before), Elements(tags));
      FirstMisses(ways, before, tag);
    } else if tag in RunSet(q, Loads(before)) {
      RunOfLoads(q, before);
      InPushed(q, Missed(q, before), tag);
      MissedAreTags(q, before);
    }
  }

  lemma {:induction false} MissedAreTags(q: Queue, tags: seq<Tag>)
    ensures forall t :: t in Missed(q, tags) ==> t in tags
  {
    if tags != [] {
      MissedAreTags(q, tags[..|tags| - 1]);
    }
  }

  /** And is there at the end of such a stretch. */
  lemma AllStay(ways: nat, tags: seq<Tag>, tag: Tag)
    requires |Elements(tags)| <= ways && tag != 0 && tag in tags
    ensures tag in RunSet(Cold(ways), Loads(tags))
  {
    FirstMisses(ways, tags, tag);
    RoundRobinIsConservative(Cold(ways), tags);
    InPushed(Cold(ways), Missed(Cold(ways), tags), tag);
  }

  // ---------- and the bound on the number of tags is sharp ----------

  /** The first k tags of the cycle 1, 2, ..., ways + 1, 1, 2, ... */
  function Cycle(ways: nat, k: nat): (tags: seq<Tag>)
    ensures |tags| == k && forall i :: 0 <= i < k ==> 1 <= tags[i] <= ways + 1
  {
    seq(k, i requires 0 <= i => 1 + Rem(i, ways + 1))
  }

  /** With one distinct tag more than there are ways every single access can miss. */
  lemma {:induction false} BoundIsSharp(ways: nat, k: nat)
    ensures Missed(Cold(ways), Cycle(ways, k)) == Cycle(ways, k)
    ensures RunSet(Cold(ways), Loads(Cycle(ways, k))) == Window(ways, Cycle(ways, k))
  {
    if k == 0 {
      assert Loads(Cycle(ways, 0)) == [];
    } else {
      var before, tag := Cycle(ways, k - 1), Cycle(ways, k)[k - 1];
      assert Cycle(ways, k) == before + [tag];
      BoundIsSharp(ways, k - 1);
      var mid := RunSet(Cold(ways), Loads(before));
      NotInCycleWindow(ways, k - 1, mid, tag);
      OneMoreMiss(Cold(ways), before, mid, tag);
      PushPushed(Cold(ways), before, tag);
    }
  }

  lemma OneMoreMiss(q: Queue, before: seq<Tag>, mid: Queue, tag: Tag)
    requires mid == RunSet(q, Loads(before)) && tag !in mid
    ensures Missed(q, before + [tag]) == Missed(q, before) + [tag]
    ensures RunSet(q, Loads(before + [tag])) == Push(mid, tag)
  {
    var tags := before + [tag];
    assert tags[..|tags| - 1] == before && Loads(tags)[..|tags| - 1] == Loads(before);
  }

  lemma NotInCycleWindow(ways: nat, k: nat, q: Queue, tag: Tag)
    requires q == Window(ways, Cycle(ways, k)) && tag == 1 + Rem(k, ways + 1)
    ensures tag !in q
  {
    forall i | 0 <= i < ways ensures q[i] != tag {
      if i < k {
        NearbyRemainders(k - 1 - i, k, ways + 1);
      }
    }
  }
}

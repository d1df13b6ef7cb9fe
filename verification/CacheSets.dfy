/**
  The two replacement policies of namespace CACHE_SET. What a set means is a FIFO queue of tags:
  the most recently replaced tag first, the next victim last, and 0 standing for a way that has
  not been replaced since construction or the last flush.
 */
module FifoQueue {

  type Tag = nat

  type Queue = seq<Tag>

  function Cold(ways: nat): (q: Queue)
    ensures |q| == ways && forall i :: 0 <= i < ways ==> q[i] == 0
  {
    seq(ways, _ => 0)
  }

  /** Replace: the new tag comes in at the front and the oldest one falls out at the back. */
  function Push(q: Queue, tag: Tag): (r: Queue)
    ensures |r| == |q|
  {
    if q == [] then [] else [tag] + q[..|q| - 1]
  }

  /** What one line access does to its set: a miss replaces when the access allocates. */
  function Touch(q: Queue, tag: Tag, allocate: bool): (r: Queue)
    ensures |r| == |q|
  {
    if tag in q || !allocate then q else Push(q, tag)
  }
}

module CacheSets {
  import opened FifoQueue

  /** One way, so replacing overwrites the only tag. */
  class DirectMapped {
    ghost var queue: Queue
    var tag: Tag

    ghost predicate Valid()
      reads this
    {
      queue == [tag]
    }

    constructor ()
      ensures Valid() && queue == Cold(1)
    {
      tag := 0;
      queue := Cold(1);
    }

    method SetAssociativity(associativity: nat)
      requires associativity == 1
    {
    }

    method Find(t: Tag) returns (found: bool)
      requires Valid()
      ensures found <==> t in queue
    {
      found := tag == t;
    }

    method Replace(t: Tag)
      requires Valid()
      modifies this
      ensures Valid() && queue == Push(old(queue), t)
    {
      tag := t;
      queue := Push(queue, t);
    }

    method Flush()
      requires Valid()
      modifies this
      ensures Valid() && queue == Cold(|old(queue)|)
    {
      tag := 0;
      queue := Cold(1);
    }
  }

  /**
    An array of tags with a rotating replace index that runs downwards and wraps at
    `tagsLastIndex`. Ways above `tagsLastIndex` exist but are never looked at.
   */
  class RoundRobin {
    ghost var queue: Queue
    const tags: array<Tag>
    var tagsLastIndex: nat
    var nextReplaceIndex: nat

    ghost predicate Valid()
      reads this, tags
    {
      && nextReplaceIndex <= tagsLastIndex < tags.Length
      && queue == Rotated(tags[..], nextReplaceIndex, tagsLastIndex)
    }

    /** The ways in the order of their replacement: upwards from above `next`, wrapping to `next`. */
    static function Rotated(ways: seq<Tag>, next: nat, last: nat): (q: Queue)
      requires next <= last < |ways|
      ensures |q| == last + 1
    {
      ways[next + 1..last + 1] + ways[..next + 1]
    }

    /** Writing at the replace index and moving it down by one pushes onto the queue. */
    static lemma RotatedReplace(ways: seq<Tag>, next: nat, last: nat, t: Tag)
      requires next <= last < |ways|
      ensures
        Rotated(ways[next := t], if next == 0 then last else next - 1, last) == Push(Rotated(ways, next, last), t)
    {
      var newer, older := ways[next + 1..last + 1], ways[..next];
      assert Rotated(ways, next, last) == newer + (older + [ways[next]]);
      assert Push(newer + (older + [ways[next]]), t) == [t] + (newer + older);
      var after := ways[next := t];
      if next == 0 {
        assert Rotated(after, last, last) == after[..last + 1] == [t] + newer;
      } else {
        assert after[next..last + 1] == [t] + newer && after[..next] == older;
      }
    }

    constructor (associativity: nat, maxAssociativity: nat)
      requires 1 <= associativity <= maxAssociativity
      ensures Valid() && fresh(tags) && tags.Length == maxAssociativity
      ensures queue == Cold(associativity)
      ensures forall i :: 0 <= i < tags.Length ==> tags[i] == 0
    {
      tags := new Tag[maxAssociativity](_ => 0);
      tagsLastIndex := associativity - 1;
      nextReplaceIndex := associativity - 1;
      queue := Cold(associativity);
    }

    /** Narrows the set; the tags are left as they are and the replace index restarts at the top. */
    method SetAssociativity(associativity: nat)
      requires Valid() && 1 <= associativity <= tags.Length
      modifies this
      ensures Valid() && queue == tags[..associativity]
    {
      tagsLastIndex := associativity - 1;
      nextReplaceIndex := tagsLastIndex;
      queue := tags[..associativity];
    }

    method Find(t: Tag) returns (found: bool)
      requires Valid()
      ensures found <==> t in queue
    {
      var index: int := tagsLastIndex;
      while index >= 0
        invariant -1 <= index <= tagsLastIndex
        invariant forall j :: index < j <= tagsLastIndex ==> tags[j] != t
      {
        if tags[index] == t {
          var n := nextReplaceIndex;
          assert queue[if index <= n then tagsLastIndex - n + index else index - n - 1] == t;
          return true;
        }
        index := index - 1;
      }
      found := false;
    }

    method Replace(t: Tag)
      requires Valid()
      modifies this, tags
      ensures Valid() && queue == Push(old(queue), t)
    {
      var index := nextReplaceIndex;
      RotatedReplace(tags[..], index, tagsLastIndex, t);
      queue := Push(queue, t);
      tags[index] := t;
      assert tags[..] == old(tags[..])[index := t];
      nextReplaceIndex := if index == 0 then tagsLastIndex else index - 1;
    }

    method Flush()
      requires Valid()
      modifies this, tags
      ensures Valid() && queue == Cold(|old(queue)|)
    {
      ghost var ways := |queue|;
      var index: int := tagsLastIndex;
      while index >= 0
        invariant -1 <= index <= tagsLastIndex == old(tagsLastIndex) < tags.Length
        invariant forall j :: index < j <= tagsLastIndex ==> tags[j] == 0
      {
        tags[index] := 0;
        index := index - 1;
      }
      nextReplaceIndex := tagsLastIndex;
      queue := Cold(ways);
    }
  }
}

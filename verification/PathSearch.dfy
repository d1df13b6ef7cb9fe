/**
  search_in_path and find_base_path of the launcher. The search cuts a private copy of PATH into
  C strings by overwriting its separators; what it must agree with is the functional split of PATH.
  Whether a file exists and is acceptable is a predicate on path strings. A failed assertion and a
  write past the end of an allocated buffer are outcomes of their own.
 */
module PathSearch {

  const NUL: char := '\0'
  const SEPARATOR: char := ':'
  const PATH_MAX_SIZE: nat := 4096

  predicate IsCString(s: string) {
    NUL !in s
  }

  // ---------- the functional form ----------

  /** The components of a list, at least one. */
  function Split(s: string): (parts: seq<string>)
    ensures |parts| >= 1
    decreases |s|
  {
    if SEPARATOR in s then
      var i := FirstIndex(s, SEPARATOR);
      [s[..i]] + Split(s[i + 1..])
    else [s]
  }

  function FirstIndex(s: string, c: char): (i: nat)
    requires c in s
    ensures i < |s| && s[i] == c && c !in s[..i]
  {
    if s[0] == c then 0
    else
      assert s == [s[0]] + s[1..];
      1 + FirstIndex(s[1..], c)
  }

  datatype Query = Query(exename: string, passes: string -> bool)

  datatype Check = CheckAborted | CheckOverrun | Tested(passed: bool)

  /** Both strings have to be nonempty, and up to the length cap for the joined path to fit its buffer. */
  function CheckOf(dir: string, q: Query): Check {
    if dir == "" || q.exename == "" then CheckAborted
    else if |dir| > PATH_MAX_SIZE || |q.exename| > PATH_MAX_SIZE then CheckOverrun
    else Tested(q.passes(dir + "/" + q.exename))
  }

  datatype Outcome = Aborted | Overrun | NotFound | Found(dir: string)

  /** Goes through the components from the left until one of them decides. */
  function SearchParts(parts: seq<string>, q: Query): Outcome {
    if parts == [] then NotFound
    else match CheckOf(parts[0], q)
      case CheckAborted => Aborted
      case CheckOverrun => Overrun
      case Tested(true) => Found(parts[0])
      case Tested(false) => SearchParts(parts[1..], q)
  }

  /** The joined paths that are tested on the way, in order. */
  function TestedPaths(parts: seq<string>, q: Query): seq<string> {
    if parts == [] then []
    else match CheckOf(parts[0], q)
      case Tested(passed) =>
        [parts[0] + "/" + q.exename] + if passed then [] else TestedPaths(parts[1..], q)
      case _ => []
  }

  function Search(path: string, q: Query): Outcome {
    if path == "" || q.exename == "" then Aborted else SearchParts(Split(path), q)
  }

  // ---------- what the functional form finds ----------

  ghost predicate AllFail(parts: seq<string>, n: nat, q: Query)
    requires n <= |parts|
  {
    forall j :: 0 <= j < n ==> CheckOf(parts[j], q) == Tested(false)
  }

  /** The component that decides the search: all before it were tested in vain, and it was not. */
  ghost predicate Decides(parts: seq<string>, i: nat, q: Query) {
    i < |parts| && AllFail(parts, i, q) && CheckOf(parts[i], q) != Tested(false)
  }

  /** The outcome of a check that is not a failed test. */
  function OutcomeOf(check: Check, dir: string): Outcome {
    match check
    case CheckAborted => Aborted
    case CheckOverrun => Overrun
    case Tested(_) => Found(dir)
  }

  /** The first component that does not fail decides the outcome. */
  lemma {:induction false} OutcomeIsDecided(parts: seq<string>, i: nat, q: Query)
    requires Decides(parts, i, q)
    ensures SearchParts(parts, q) == OutcomeOf(CheckOf(parts[i], q), parts[i])
  {
    if i > 0 {
      assert CheckOf(parts[0], q) == Tested(false);
      assert forall j :: 0 <= j < |parts| - 1 ==> parts[1..][j] == parts[j + 1];
      assert AllFail(parts[1..], i - 1, q) by {
        forall j | 0 <= j < i - 1 ensures CheckOf(parts[1..][j], q) == Tested(false) {
          assert CheckOf(parts[j + 1], q) == Tested(false);
        }
      }
      OutcomeIsDecided(parts[1..], i - 1, q);
    }
  }

  /** Nothing is found if and only if every component was tested and failed. */
  lemma {:induction false} NotFoundExactly(parts: seq<string>, q: Query)
    ensures SearchParts(parts, q) == NotFound <==> AllFail(parts, |parts|, q)
  {
    if parts != [] {
      NotFoundExactly(parts[1..], q);
      if CheckOf(parts[0], q) == Tested(false) {
        forall j | 1 <= j < |parts| ensures parts[j] == parts[1..][j - 1] {
        }
      }
    }
  }

  lemma {:induction false} SomeDecides(parts: seq<string>, n: nat, q: Query) returns (i: nat)
    requires n <= |parts| && !AllFail(parts, n, q)
    ensures Decides(parts, i, q)
  {
    if AllFail(parts, n - 1, q) {
      i := n - 1;
    } else {
      i := SomeDecides(parts, n - 1, q);
    }
  }

  /** An outcome other than NotFound is the one of the deciding component. */
  lemma DecidedExactly(parts: seq<string>, q: Query, outcome: Outcome)
    requires outcome != NotFound
    ensures SearchParts(parts, q) == outcome <==>
      exists i: nat :: Decides(parts, i, q) && OutcomeOf(CheckOf(parts[i], q), parts[i]) == outcome
  {
    NotFoundExactly(parts, q);
    if !AllFail(parts, |parts|, q) {
      var i := SomeDecides(parts, |parts|, q);
      OutcomeIsDecided(parts, i, q);
    }
    forall i: nat | Decides(parts, i, q)
      ensures SearchParts(parts, q) == OutcomeOf(CheckOf(parts[i], q), parts[i])
    {
      OutcomeIsDecided(parts, i, q);
    }
  }

  /** A directory is found if and only if it is the leftmost component that passes and nothing went wrong before. */
  lemma FoundExactly(parts: seq<string>, q: Query, dir: string)
    ensures SearchParts(parts, q) == Found(dir) <==>
      exists i: nat :: i < |parts| && AllFail(parts, i, q)
                  && CheckOf(parts[i], q) == Tested(true) && parts[i] == dir
  {
    DecidedExactly(parts, q, Found(dir));
    forall i: nat | i < |parts| && AllFail(parts, i, q) && CheckOf(parts[i], q) == Tested(true)
      ensures Decides(parts, i, q)
    {
    }
  }

  /** The launcher aborts if and only if an empty component, or else an empty name, decides the search. */
  lemma AbortsExactly(parts: seq<string>, q: Query)
    ensures SearchParts(parts, q) == Aborted <==>
      exists i: nat :: Decides(parts, i, q) && (parts[i] == "" || q.exename == "")
  {
    DecidedExactly(parts, q, Aborted);
  }

  /** The joined path is written past its buffer if and only if a component or name longer than the cap decides. */
  lemma OverrunsExactly(parts: seq<string>, q: Query)
    ensures SearchParts(parts, q) == Overrun <==>
      exists i: nat :: Decides(parts, i, q) && parts[i] != "" && q.exename != ""
                       && (|parts[i]| > PATH_MAX_SIZE || |q.exename| > PATH_MAX_SIZE)
  {
    DecidedExactly(parts, q, Overrun);
  }

  /** A PATH that starts with a separator aborts the launcher, whatever comes after it. */
  lemma LeadingSeparatorAborts(rest: string, q: Query)
    ensures Search([SEPARATOR] + rest, q) == Aborted
  {
    var path := [SEPARATOR] + rest;
    assert path[0] == SEPARATOR;
    assert Split(path)[0] == "";
  }

  /** The components up to the deciding one are tested, in order, and none to its right. */
  lemma {:induction false} TestsNoneToTheRight(parts: seq<string>, i: nat, q: Query)
    requires i < |parts| && AllFail(parts, i, q) && CheckOf(parts[i], q) == Tested(true)
    ensures TestedPaths(parts, q) == seq(i + 1, j requires 0 <= j <= i => parts[j] + "/" + q.exename)
  {
    if i > 0 {
      assert forall j :: 0 <= j < i - 1 ==> parts[1..][j] == parts[j + 1];
      TestsNoneToTheRight(parts[1..], i - 1, q);
    }
  }

  // ---------- what that means for PATH itself ----------

  /** The components joined again. */
  function Joined(parts: seq<string>): string {
    if parts == [] then ""
    else if |parts| == 1 then parts[0]
    else parts[0] + ":" + Joined(parts[1..])
  }

  /** They are separated by colons in the path, and contain none. */
  ghost predicate AreComponents(parts: seq<string>, path: string) {
    parts != [] && Joined(parts) == path && forall i :: 0 <= i < |parts| ==> ':' !in parts[i]
  }

  /** Splitting loses nothing. */
  lemma {:induction false} SplitJoins(s: string)
    ensures AreComponents(Split(s), s)
    decreases |s|
  {
    if SEPARATOR in s {
      var i := FirstIndex(s, SEPARATOR);
      SplitJoins(s[i + 1..]);
      var rest := Split(s[i + 1..]);
      assert ([s[..i]] + rest)[1..] == rest;
      assert s == s[..i] + ":" + s[i + 1..];
    }
  }

  /** There is just one way to split a path. */
  lemma {:induction false} ComponentsAreSplit(parts: seq<string>, path: string)
    requires AreComponents(parts, path)
    ensures parts == Split(path)
    decreases |parts|
  {
    if |parts| > 1 {
      ComponentsAreSplit(parts[1..], Joined(parts[1..]));
      assert path == parts[0] + [SEPARATOR] + Joined(parts[1..]);
      SplitAt(parts[0], Joined(parts[1..]));
      assert parts == [parts[0]] + parts[1..];
    }
  }

  /** The component is tested, and the file is not there or not acceptable. */
  predicate InVain(part: string, q: Query) {
    1 <= |part| <= 4096 && 1 <= |q.exename| <= 4096 && !q.passes(part + "/" + q.exename)
  }

  predicate HasFile(part: string, q: Query) {
    1 <= |part| <= 4096 && 1 <= |q.exename| <= 4096 && q.passes(part + "/" + q.exename)
  }

  predicate AllInVain(parts: seq<string>, n: nat, q: Query)
    requires n <= |parts|
  {
    forall j :: 0 <= j < n ==> InVain(parts[j], q)
  }

  /** The first component that is not tested in vain. */
  predicate IsFirst(parts: seq<string>, i: nat, q: Query) {
    i < |parts| && AllInVain(parts, i, q) && !InVain(parts[i], q)
  }

  lemma ChecksExactly(part: string, q: Query)
    ensures CheckOf(part, q) == Tested(false) <==> InVain(part, q)
    ensures CheckOf(part, q) == Tested(true) <==> HasFile(part, q)
    ensures CheckOf(part, q) == CheckAborted <==> part == "" || q.exename == ""
  {
  }

  lemma IsFirstDecides(parts: seq<string>, i: nat, q: Query)
    ensures IsFirst(parts, i, q) <==> Decides(parts, i, q)
  {
    forall part ensures CheckOf(part, q) == Tested(false) <==> InVain(part, q) {
      ChecksExactly(part, q);
    }
  }

  /**
    The outcome for a path, whatever its components: a directory is found if and only if it is the
    first component that is not tested in vain and has the file; none is if and only if all are
    tested in vain; otherwise this first component, or the name, is empty or too long.
   */
  lemma SearchExactly(path: string, parts: seq<string>, q: Query)
    requires AreComponents(parts, path)
    ensures forall dir :: Search(path, q) == Found(dir) <==>
              exists i: nat :: IsFirst(parts, i, q) && HasFile(parts[i], q) && parts[i] == dir
    ensures Search(path, q) == NotFound <==> AllInVain(parts, |parts|, q)
    ensures Search(path, q) == Aborted <==>
              exists i: nat :: IsFirst(parts, i, q) && (parts[i] == "" || q.exename == "")
    ensures Search(path, q) == Overrun <==>
              exists i: nat :: IsFirst(parts, i, q) && parts[i] != "" && q.exename != "" && !HasFile(parts[i], q)
  {
    SearchOfParts(path, parts, q);
    if AllInVain(parts, |parts|, q) {
      NotFoundExactly(parts, q);
      forall i | 0 <= i < |parts| ensures CheckOf(parts[i], q) == Tested(false) {
        ChecksExactly(parts[i], q);
      }
    } else {
      var i := FirstComponent(parts, |parts|, q);
      IsFirstDecides(parts, i, q);
      OutcomeIsDecided(parts, i, q);
      ChecksExactly(parts[i], q);
      OnlyFirst(parts, i, q);
    }
  }

  lemma SearchOfParts(path: string, parts: seq<string>, q: Query)
    requires AreComponents(parts, path)
    ensures Search(path, q) == SearchParts(parts, q)
  {
    ComponentsAreSplit(parts, path);
    if path == "" || q.exename == "" {
      assert CheckOf(parts[0], q) == CheckAborted by {
        if path == "" {
          SplitJoins("");
          assert Split("") == [""];
        }
      }
    }
  }

  lemma {:induction false} FirstComponent(parts: seq<string>, n: nat, q: Query) returns (i: nat)
    requires n <= |parts| && !AllInVain(parts, n, q)
    ensures IsFirst(parts, i, q)
  {
    if AllInVain(parts, n - 1, q) {
      i := n - 1;
    } else {
      i := FirstComponent(parts, n - 1, q);
    }
  }

  lemma OnlyFirst(parts: seq<string>, i: nat, q: Query)
    requires IsFirst(parts, i, q)
    ensures forall k: nat :: IsFirst(parts, k, q) <==> k == i
  {
  }

  /** The paths tested are those of the components up to the first that is not tested in vain, and its own if it has the file. */
  lemma {:induction false} TestedExactly(parts: seq<string>, i: nat, q: Query)
    requires i == |parts| || (i < |parts| && !InVain(parts[i], q))
    requires AllInVain(parts, i, q)
    ensures
      var n := if i < |parts| && HasFile(parts[i], q) then i + 1 else i;
      TestedPaths(parts, q) == seq(n, j requires 0 <= j < n => parts[j] + "/" + q.exename)
  {
    if parts != [] {
      ChecksExactly(parts[0], q);
      if i > 0 {
        assert InVain(parts[0], q);
        assert AllInVain(parts[1..], i - 1, q) by {
          forall j | 0 <= j < i - 1 ensures InVain(parts[1..][j], q) {
            assert InVain(parts[j + 1], q);
          }
        }
        TestedExactly(parts[1..], i - 1, q);
      }
    }
  }

  // ---------- C strings in buffers ----------

  /** The string from index `at` to the next NUL. */
  function StringAt(buf: seq<char>, at: nat): string
    requires at <= |buf|
    decreases |buf| - at
  {
    if at == |buf| || buf[at] == NUL then [] else [buf[at]] + StringAt(buf, at + 1)
  }

  lemma {:induction false} StringAtIs(buf: seq<char>, at: nat, end: nat)
    requires at <= end < |buf| && buf[end] == NUL && NUL !in buf[at..end]
    ensures StringAt(buf, at) == buf[at..end]
    decreases end - at
  {
    if at < end {
      assert buf[at..end] == [buf[at]] + buf[at + 1..end];
      StringAtIs(buf, at + 1, end);
    }
  }

  method StrDup(s: string) returns (copy: array<char>)
    ensures fresh(copy) && copy[..] == s + [NUL]
    ensures copy.Length == |s| + 1 && forall i :: 0 <= i < |s| ==> copy[i] == s[i]
  {
    copy := new char[|s| + 1](i requires 0 <= i <= |s| => if i < |s| then s[i] else NUL);
  }

  /** The first c at or after `at`, or -1. */
  method StrChr(buf: array<char>, at: nat, c: char) returns (pos: int)
    requires at < buf.Length && buf[buf.Length - 1] == NUL && c != NUL && NUL !in buf[at..buf.Length - 1]
    ensures pos < 0 ==> c !in buf[at..buf.Length - 1]
    ensures pos >= 0 ==> at <= pos < buf.Length - 1 && buf[pos] == c && c !in buf[at..pos]
  {
    pos := at;
    while buf[pos] != NUL
      invariant at <= pos < buf.Length && c !in buf[at..pos]
      decreases buf.Length - pos
    {
      if buf[pos] == c { return; }
      assert buf[at..pos + 1] == buf[at..pos] + [buf[pos]];
      pos := pos + 1;
    }
    assert pos == buf.Length - 1;
    pos := -1;
  }

  /** strcpy and strcat: copies s to index `at`, with its terminator. */
  method CopyTo(p: array<char>, at: nat, s: string)
    requires at + |s| < p.Length
    modifies p
    ensures p[..at] == old(p[..at])
    ensures p[at..at + |s|] == s && p[at + |s|] == NUL
  {
    var i := 0;
    while i < |s|
      invariant 0 <= i <= |s|
      invariant p[..at] == old(p[..at])
      invariant p[at..at + i] == s[..i]
    {
      p[at + i] := s[i];
      i := i + 1;
    }
    p[at + |s|] := NUL;
  }

  /** append3(dir, "/", fn) and the test of the joined path. */
  method CheckFileInDir(q: Query, dir: string) returns (check: Check, joined: string)
    requires IsCString(q.exename) && IsCString(dir)
    ensures check == CheckOf(dir, q)
    ensures check.Tested? ==> joined == dir + "/" + q.exename
  {
    joined := "";
    if dir == "" || q.exename == "" {
      return CheckAborted, joined;
    }
    var n := 1 + Capped(dir) + 1 + Capped(q.exename);
    var p := new char[n];
    if |dir| + 1 + |q.exename| >= n {
      return CheckOverrun, joined;
    }
    CopyTo(p, 0, dir);
    CopyTo(p, |dir|, "/");
    assert p[..|dir| + 1] == dir + "/";
    CopyTo(p, |dir| + 1, q.exename);
    joined := p[..n - 1];
    assert joined == dir + "/" + q.exename;
    check := Tested(q.passes(joined));
  }

  /** get_strlen: the length, but never more than the cap. */
  function Capped(s: string): nat {
    if |s| > PATH_MAX_SIZE then PATH_MAX_SIZE else |s|
  }

  // ---------- the search in place ----------

  lemma {:induction false} FirstIndexIs(s: string, c: char, i: nat)
    requires i < |s| && s[i] == c && c !in s[..i]
    ensures c in s && FirstIndex(s, c) == i
  {
    if i != 0 {
      assert s[0] == s[..i][0] && s[1..][..i - 1] == s[..i][1..];
      FirstIndexIs(s[1..], c, i - 1);
    }
  }

  lemma SplitAt(part: string, rest: string)
    requires SEPARATOR !in part
    ensures Split(part + [SEPARATOR] + rest) == [part] + Split(rest)
  {
    var s := part + [SEPARATOR] + rest;
    assert s[..|part|] == part && s[|part| + 1..] == rest;
    FirstIndexIs(s, SEPARATOR, |part|);
  }

  /** The buffer still holds the unsearched rest of the path, terminated. */
  ghost predicate RestIntact(buf: seq<char>, path: string, dir: nat) {
    && dir <= |path| && |buf| == |path| + 1 && buf[|path|] == NUL
    && forall j :: dir <= j < |path| ==> buf[j] == path[j]
  }

  /** Cutting at the separator makes the component before it a C string and leaves the rest alone. */
  lemma CutAt(buf: seq<char>, path: string, dir: nat, sep: nat)
    requires IsCString(path) && RestIntact(buf, path, dir) && dir <= sep < |path|
    ensures StringAt(buf[sep := NUL], dir) == path[dir..sep]
    ensures RestIntact(buf[sep := NUL], path, sep + 1)
  {
    var cut := buf[sep := NUL];
    assert cut[dir..sep] == path[dir..sep];
    StringAtIs(cut, dir, sep);
  }

  lemma LastPart(buf: seq<char>, path: string, dir: nat)
    requires IsCString(path) && RestIntact(buf, path, dir)
    ensures StringAt(buf, dir) == path[dir..] && IsCString(path[dir..])
    ensures buf[dir..|path|] == path[dir..]
  {
    assert buf[dir..|path|] == path[dir..];
    StringAtIs(buf, dir, |path|);
  }

  /** Where the next separator of the path is, at or after `dir`. */
  ghost predicate IsNextSeparator(path: string, dir: nat, sep: int)
    requires dir <= |path|
  {
    if sep < 0 then SEPARATOR !in path[dir..]
    else dir <= sep < |path| && path[sep] == SEPARATOR && SEPARATOR !in path[dir..sep]
  }

  method NextSeparator(buf: array<char>, dir: nat, ghost path: string) returns (sep: int)
    requires IsCString(path) && RestIntact(buf[..], path, dir)
    ensures IsNextSeparator(path, dir, sep)
  {
    LastPart(buf[..], path, dir);
    assert buf[dir..buf.Length - 1] == path[dir..];
    sep := StrChr(buf, dir, SEPARATOR);
    if sep >= 0 {
      assert path[dir..][sep - dir] == buf[dir..buf.Length - 1][sep - dir] == SEPARATOR;
      assert buf[dir..sep] == buf[dir..buf.Length - 1][..sep - dir] == path[dir..][..sep - dir] == path[dir..sep];
    }
  }

  lemma CutSplits(path: string, dir: nat, sep: nat)
    requires dir <= sep < |path| && path[sep] == SEPARATOR && SEPARATOR !in path[dir..sep]
    ensures Split(path[dir..]) == [path[dir..sep]] + Split(path[sep + 1..])
  {
    assert path[dir..] == path[dir..sep] + [SEPARATOR] + path[sep + 1..];
    SplitAt(path[dir..sep], path[sep + 1..]);
  }

  /** Overwrites the separator and reads the component before it. */
  method CutComponent(buf: array<char>, dir: nat, sep: nat, ghost path: string) returns (part: string)
    requires IsCString(path) && RestIntact(buf[..], path, dir) && IsNextSeparator(path, dir, sep)
    modifies buf
    ensures sep < |path| && RestIntact(buf[..], path, sep + 1)
    ensures IsCString(part) && Split(path[dir..]) == [part] + Split(path[sep + 1..])
  {
    CutAt(buf[..], path, dir, sep);
    CutSplits(path, dir, sep);
    ghost var before := buf[..];
    buf[sep] := NUL;
    assert buf[..] == before[sep := NUL];
    part := StringAt(buf[..], dir);
  }

  /** Reads the component that no separator follows. */
  method LastComponent(buf: array<char>, dir: nat, ghost path: string) returns (part: string)
    requires IsCString(path) && RestIntact(buf[..], path, dir) && IsNextSeparator(path, dir, -1)
    ensures IsCString(part) && Split(path[dir..]) == [part] + []
  {
    LastPart(buf[..], path, dir);
    part := StringAt(buf[..], dir);
  }

  /** The outcome and the tested paths of a whole search, from those of the components left. */
  ghost predicate Continues(all: seq<string>, rest: seq<string>, q: Query, tested: seq<string>) {
    && SearchParts(all, q) == SearchParts(rest, q)
    && TestedPaths(all, q) == tested + TestedPaths(rest, q)
  }

  /** What the first component decides. */
  ghost predicate Decided(parts: seq<string>, q: Query, outcome: Outcome, tested: seq<string>) {
    SearchParts(parts, q) == outcome && TestedPaths(parts, q) == tested
  }

  lemma FirstDecides(part: string, rest: seq<string>, q: Query)
    ensures
      var parts, joined := [part] + rest, part + "/" + q.exename;
      match CheckOf(part, q)
      case CheckAborted => Decided(parts, q, Aborted, [])
      case CheckOverrun => Decided(parts, q, Overrun, [])
      case Tested(true) => Decided(parts, q, Found(part), [joined])
      case Tested(false) =>
        Decided(parts, q, SearchParts(rest, q), [joined] + TestedPaths(rest, q))
  {
    assert ([part] + rest)[1..] == rest;
  }

  /** A component that is tested and fails passes the search on to the rest; any other decides it. */
  lemma ContinuesAfter(all: seq<string>, part: string, rest: seq<string>, q: Query, tested: seq<string>)
    requires Continues(all, [part] + rest, q, tested)
    ensures
      match CheckOf(part, q)
      case CheckAborted => Decided(all, q, Aborted, tested)
      case CheckOverrun => Decided(all, q, Overrun, tested)
      case Tested(true) => Decided(all, q, Found(part), tested + [part + "/" + q.exename])
      case Tested(false) => Continues(all, rest, q, tested + [part + "/" + q.exename])
  {
    var joined := part + "/" + q.exename;
    FirstDecides(part, rest, q);
    assert tested + [] == tested;
    assert tested + ([joined] + TestedPaths(rest, q)) == (tested + [joined]) + TestedPaths(rest, q);
  }

  lemma NothingLeft(all: seq<string>, q: Query, tested: seq<string>)
    requires Continues(all, [], q, tested)
    ensures Decided(all, q, NotFound, tested)
  {
    assert tested + [] == tested;
  }

  /** Tests one component; unless it decides the search, the rest goes on with one more tested path. */
  method CheckPart(part: string, q: Query, testedBefore: seq<string>,
                   ghost all: seq<string>, ghost rest: seq<string>)
    returns (decided: bool, outcome: Outcome, tested: seq<string>)
    requires IsCString(q.exename) && IsCString(part)
    requires Continues(all, [part] + rest, q, testedBefore)
    ensures if decided then Decided(all, q, outcome, tested)
            else Continues(all, rest, q, tested)
  {
    ContinuesAfter(all, part, rest, q, testedBefore);
    var check, joined := CheckFileInDir(q, part);
    match check {
      case CheckAborted => return true, Aborted, testedBefore;
      case CheckOverrun => return true, Overrun, testedBefore;
      case Tested(passed) => return passed, Found(part), testedBefore + [joined];
    }
  }

  /** The search of all components continues with those of the part from `dir` on. */
  ghost predicate Scanned(all: seq<string>, path: string, dir: nat, q: Query, tested: seq<string>)
    requires dir <= |path|
  {
    Continues(all, Split(path[dir..]), q, tested)
  }

  lemma StartsScan(path: string, q: Query)
    ensures Scanned(Split(path), path, 0, q, [])
  {
    assert path[0..] == path;
  }

  /** The loop is about to look at the component from `dir` to `sep`, or to the end if there is no separator. */
  ghost predicate Scanning(buf: seq<char>, path: string, dir: nat, sep: int, all: seq<string>,
                           q: Query, tested: seq<string>)
  {
    && RestIntact(buf, path, dir)
    && IsNextSeparator(path, dir, sep)
    && Scanned(all, path, dir, q, tested)
  }

  /** One round of the loop: cuts the component before the separator, tests it, and looks for the next. */
  method ScanPart(syspath: array<char>, dir: nat, sep: nat, q: Query,
                  testedBefore: seq<string>, ghost path: string, ghost all: seq<string>)
    returns (decided: bool, outcome: Outcome, tested: seq<string>, next: int)
    requires IsCString(path) && IsCString(q.exename)
    requires Scanning(syspath[..], path, dir, sep, all, q, testedBefore)
    modifies syspath
    ensures dir <= sep < |path|
    ensures if decided then Decided(all, q, outcome, tested)
            else Scanning(syspath[..], path, sep + 1, next, all, q, tested)
  {
    var part := CutComponent(syspath, dir, sep, path);
    decided, outcome, tested := CheckPart(part, q, testedBefore, all, Split(path[sep + 1..]));
    next := -1;
    if !decided {
      next := NextSeparator(syspath, sep + 1, path);
    }
  }

  /** The test of the last component, after the loop. */
  method ScanLastPart(syspath: array<char>, dir: nat, q: Query,
                      testedBefore: seq<string>, ghost path: string, ghost all: seq<string>, ghost sep: int)
    returns (outcome: Outcome, tested: seq<string>)
    requires IsCString(path) && IsCString(q.exename) && sep < 0
    requires Scanning(syspath[..], path, dir, sep, all, q, testedBefore)
    ensures Decided(all, q, outcome, tested)
  {
    var part := LastComponent(syspath, dir, path);
    var decided;
    decided, outcome, tested := CheckPart(part, q, testedBefore, all, []);
    if !decided {
      NothingLeft(all, q, tested);
      outcome := NotFound;
    }
  }

  /** Goes through the buffer, cutting component after component, until one decides. */
  method ScanParts(syspath: array<char>, first: int, q: Query,
                   ghost path: string, ghost all: seq<string>)
    returns (outcome: Outcome, tested: seq<string>)
    requires IsCString(path) && IsCString(q.exename)
    requires Scanning(syspath[..], path, 0, first, all, q, [])
    modifies syspath
    ensures Decided(all, q, outcome, tested)
  {
    tested := [];
    var dir, dirsep := 0, first;
    while dirsep >= 0
      invariant Scanning(syspath[..], path, dir, dirsep, all, q, tested)
      decreases |path| - dir
    {
      var decided, next;
      decided, outcome, tested, next := ScanPart(syspath, dir, dirsep, q, tested, path, all);
      if decided { return; }
      dir, dirsep := dirsep + 1, next;
    }
    outcome, tested := ScanLastPart(syspath, dir, q, tested, path, all, dirsep);
  }

  /** The in-place search agrees with the functional one, in its outcome and in the files it tests. */
  method SearchInPath(envPath: string, q: Query)
    returns (outcome: Outcome, tested: seq<string>)
    requires IsCString(envPath) && IsCString(q.exename)
    ensures outcome == Search(envPath, q)
    ensures tested == if envPath == "" || q.exename == "" then [] else TestedPaths(Split(envPath), q)
  {
    var syspath := StrDup(envPath);
    if envPath == "" || q.exename == "" {
      return Aborted, []; // get_strlen asserts a positive length
    }
    StartsScan(envPath, q);
    var dirsep := NextSeparator(syspath, 0, envPath);
    outcome, tested := ScanParts(syspath, dirsep, q, envPath, Split(envPath));
  }

  // ---------- find_base_path ----------

  datatype BasePath = BaseAborted | BaseOverrun | Base(path: string)

  /** Everything before the last slash; without a slash, the directory found, or else the name itself. */
  method FindBasePath(filename: string, envPath: string, passes: string -> bool) returns (base: BasePath)
    requires IsCString(filename) && IsCString(envPath)
    ensures '/' in filename ==>
      && base.Base? && |base.path| < |filename| && base.path == filename[..|base.path|]
      && filename[|base.path|] == '/' && '/' !in filename[|base.path| + 1..]
    ensures '/' !in filename ==>
      base == match Search(envPath, Query(filename, passes))
              case Aborted => BaseAborted
              case Overrun => BaseOverrun
              case NotFound => Base(filename)
              case Found(dir) => Base(dir)
  {
    var path := StrDup(filename);
    var x := StrRChr(path, '/', filename);
    if x >= 0 {
      path[x] := NUL;
      assert path[..][0..x] == filename[..x];
      StringAtIs(path[..], 0, x);
      return Base(StringAt(path[..], 0));
    }
    var outcome, _ := SearchInPath(envPath, Query(filename, passes));
    match outcome {
      case Aborted => base := BaseAborted;
      case Overrun => base := BaseOverrun;
      case NotFound => base := Base(filename);
      case Found(dir) => base := Base(dir);
    }
  }

  /** The last c in a copy of s, or -1. */
  method StrRChr(buf: array<char>, c: char, ghost s: string) returns (pos: int)
    requires buf.Length == |s| + 1 && forall i :: 0 <= i < |s| ==> buf[i] == s[i]
    ensures pos < 0 ==> c !in s
    ensures pos >= 0 ==> pos < |s| && s[pos] == c && c !in s[pos + 1..]
  {
    pos := buf.Length - 2;
    while pos >= 0 && buf[pos] != c
      invariant -1 <= pos < |s|
      invariant forall i :: pos < i < |s| ==> s[i] != c
    {
      pos := pos - 1;
    }
  }
}

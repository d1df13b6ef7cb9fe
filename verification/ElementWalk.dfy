/**
  FindChildElement of the search results page: a walk over the elements below a given one that
  keeps no stack and moves by first-child, next-sibling and parent links only. An element is
  identified by its path of child indices from the element at which the walk starts.
 */
module ElementWalk {
  import opened Prelude

  datatype Node = Node(nodeName: string, className: string, childNodes: seq<Node>)

  type Path = seq<nat>

  function ParentNode(p: Path): Path
    requires p != []
  {
    p[..|p| - 1]
  }

  function IndexOf(p: Path): nat
    requires p != []
  {
    p[|p| - 1]
  }

  /** The node at a path, if there is one. */
  function NodeAt(root: Node, p: Path): Option<Node> {
    if p == [] then Some(root)
    else match NodeAt(root, ParentNode(p))
      case None => None
      case Some(n) => if IndexOf(p) < |n.childNodes| then Some(n.childNodes[IndexOf(p)]) else None
  }

  function FirstChild(root: Node, p: Path): Option<Path>
    requires NodeAt(root, p).Some?
  {
    if NodeAt(root, p).value.childNodes == [] then None else Some(p + [0])
  }

  function NextSibling(root: Node, p: Path): Option<Path>
    requires p != [] && NodeAt(root, p).Some?
  {
    if IndexOf(p) + 1 < |NodeAt(root, ParentNode(p)).value.childNodes|
    then Some(ParentNode(p) + [IndexOf(p) + 1]) else None
  }

  predicate IsDiv(n: Node) {
    n.nodeName == "DIV"
  }

  predicate IsTarget(n: Node) {
    IsDiv(n) && n.className == "SRChildren"
  }

  // ---------- the recursive search that the walk replaces ----------

  /** Pre-order search of one node and, if it is a DIV, of what is below it. */
  function FindAt(n: Node): Option<Path>
    decreases n
  {
    if IsTarget(n) then Some([]) else if IsDiv(n) then FindIn(n.childNodes, 0) else None
  }

  /** The first success among the nodes from index i on. */
  function FindIn(nodes: seq<Node>, i: nat): Option<Path>
    decreases nodes, |nodes| - i
  {
    if i >= |nodes| then None
    else match FindAt(nodes[i])
      case Some(q) => Some([i] + q)
      case None => FindIn(nodes, i + 1)
  }

  /** The path starts at index i or later and leads through DIVs to a target. */
  predicate Qualifies(nodes: seq<Node>, i: nat, q: Path) {
    q != [] && i <= q[0] < |nodes| &&
    if |q| == 1 then IsTarget(nodes[q[0]])
    else IsDiv(nodes[q[0]]) && Qualifies(nodes[q[0]].childNodes, 0, q[1..])
  }

  /** Document order: an element comes before what is inside it and what is after it. */
  predicate Before(a: Path, b: Path) {
    if b == [] then false
    else a == [] || a[0] < b[0] || (a[0] == b[0] && Before(a[1..], b[1..]))
  }

  /** Recursive search finds exactly the first qualifying element in document order, if any. */
  lemma {:induction false} FindInIsFirst(nodes: seq<Node>, i: nat)
    ensures
      match FindIn(nodes, i)
      case None => forall r :: !Qualifies(nodes, i, r)
      case Some(q) => Qualifies(nodes, i, q) && forall r :: Qualifies(nodes, i, r) && r != q ==> Before(q, r)
    decreases nodes, |nodes| - i
  {
    if i < |nodes| {
      var n := nodes[i];
      FindInIsFirst(nodes, i + 1);
      FindInIsFirst(n.childNodes, 0);
      forall r | Qualifies(nodes, i, r)
        ensures r[0] != i ==> Qualifies(nodes, i + 1, r)
        ensures r[0] == i ==> FindAt(n).Some?
        ensures r[0] == i ==> r == [i] + FindAt(n).value || Before([i] + FindAt(n).value, r)
      {
        if r[0] == i && !IsTarget(n) {
          assert Qualifies(n.childNodes, 0, r[1..]);
          assert r == [i] + r[1..];
        }
      }
      if FindAt(n).Some? {
        var q := [i] + FindAt(n).value;
        assert q[1..] == FindAt(n).value;
      }
    }
  }

  // ---------- the walk ----------

  /** What the recursive search finds after the subtree at p has been searched in vain. */
  function After(root: Node, p: Path): Option<Path>
    requires NodeAt(root, p).Some?
    decreases |p|
  {
    if p == [] then None
    else
      var up := ParentNode(p);
      match FindIn(NodeAt(root, up).value.childNodes, IndexOf(p) + 1)
      case Some(q) => Some(up + q)
      case None => After(root, up)
  }

  /** What the recursive search finds from p on. */
  function From(root: Node, p: Path): Option<Path>
    requires NodeAt(root, p).Some?
  {
    match FindAt(NodeAt(root, p).value)
    case Some(q) => Some(p + q)
    case None => After(root, p)
  }

  function Size(n: Node): (s: nat)
    ensures s >= 1
    decreases n
  {
    1 + SizeFrom(n.childNodes, 0)
  }

  function SizeFrom(nodes: seq<Node>, i: nat): nat
    decreases nodes, |nodes| - i
  {
    if i >= |nodes| then 0 else Size(nodes[i]) + SizeFrom(nodes, i + 1)
  }

  /** The number of nodes that come after the subtree at p. */
  function SizeAfter(root: Node, p: Path): nat
    requires NodeAt(root, p).Some?
    decreases |p|
  {
    if p == [] then 0
    else SizeFrom(NodeAt(root, ParentNode(p)).value.childNodes, IndexOf(p) + 1) + SizeAfter(root, ParentNode(p))
  }

  function Remaining(root: Node, p: Path): nat
    requires NodeAt(root, p).Some?
  {
    Size(NodeAt(root, p).value) + SizeAfter(root, p)
  }

  /** Going down to the first child leaves fewer nodes. */
  lemma GoDownShrinks(root: Node, p: Path)
    requires NodeAt(root, p).Some? && FirstChild(root, p).Some?
    ensures
      var child := FirstChild(root, p).value;
      NodeAt(root, child).Some? && Remaining(root, child) < Remaining(root, p)
  {
    var child, kids := p + [0], NodeAt(root, p).value.childNodes;
    assert ParentNode(child) == p && IndexOf(child) == 0;
    assert SizeFrom(kids, 0) == Size(kids[0]) + SizeFrom(kids, 1);
  }

  /** Going down searches what is below p and then what comes after it. */
  lemma GoDown(root: Node, p: Path)
    requires NodeAt(root, p).Some? && FirstChild(root, p).Some?
    ensures
      var child, below := FirstChild(root, p).value, FindIn(NodeAt(root, p).value.childNodes, 0);
      && NodeAt(root, child).Some?
      && From(root, child) == if below.Some? then Some(p + below.value) else After(root, p)
  {
    var child, kids := p + [0], NodeAt(root, p).value.childNodes;
    assert ParentNode(child) == p && IndexOf(child) == 0;
    assert NodeAt(root, child) == Some(kids[0]);
    match FindAt(kids[0]) {
      case Some(q) => assert child + q == p + ([0] + q);
      case None => assert FindIn(kids, 0) == FindIn(kids, 1);
    }
  }

  /** Going on to the next sibling does what comes after p. */
  lemma GoNext(root: Node, p: Path)
    requires p != [] && NodeAt(root, p).Some? && NextSibling(root, p).Some?
    ensures
      var next := NextSibling(root, p).value;
      && next != [] && NodeAt(root, next).Some?
      && Remaining(root, next) == SizeAfter(root, p)
      && From(root, next) == After(root, p)
  {
    SiblingSize(root, p);
    SiblingSearch(root, p);
  }

  lemma SiblingSize(root: Node, p: Path)
    requires p != [] && NodeAt(root, p).Some? && NextSibling(root, p).Some?
    ensures
      var next := NextSibling(root, p).value;
      next != [] && NodeAt(root, next).Some? && Remaining(root, next) == SizeAfter(root, p)
  {
    var up, next := ParentNode(p), NextSibling(root, p).value;
    assert ParentNode(next) == up && IndexOf(next) == IndexOf(p) + 1;
  }

  lemma SiblingSearch(root: Node, p: Path)
    requires p != [] && NodeAt(root, p).Some? && NextSibling(root, p).Some?
    ensures
      var next := NextSibling(root, p).value;
      next != [] && NodeAt(root, next).Some? && From(root, next) == After(root, p)
  {
    var up, next := ParentNode(p), NextSibling(root, p).value;
    assert ParentNode(next) == up;
    match FindAt(NodeAt(root, next).value) {
      case Some(q) => assert next + q == up + ([IndexOf(p) + 1] + q);
      case None =>
    }
  }

  /** A last sibling is followed by whatever follows its parent. */
  lemma GoUp(root: Node, p: Path)
    requires p != [] && NodeAt(root, p).Some? && NextSibling(root, p).None?
    ensures NodeAt(root, ParentNode(p)).Some?
    ensures After(root, p) == After(root, ParentNode(p)) && SizeAfter(root, p) == SizeAfter(root, ParentNode(p))
  {
  }

  /** The inner loop: up to the first ancestor that has a next sibling, or to the start of the walk. */
  method Climb(root: Node, start: Path) returns (p: Path)
    requires start != [] && NodeAt(root, start).Some? && NextSibling(root, start).None?
    ensures NodeAt(root, p).Some? && (p == [] || NextSibling(root, p).Some?)
    ensures After(root, p) == After(root, start) && SizeAfter(root, p) == SizeAfter(root, start)
  {
    GoUp(root, start);
    p := ParentNode(start);
    while p != [] && NextSibling(root, p).None?
      invariant NodeAt(root, p).Some?
      invariant After(root, p) == After(root, start) && SizeAfter(root, p) == SizeAfter(root, start)
      decreases |p|
    {
      GoUp(root, p);
      p := ParentNode(p);
    }
  }

  /** The stackless walk terminates and returns what the recursive search returns. */
  method FindChildElement(parentElement: Node) returns (found: Option<Path>)
    ensures found == FindIn(parentElement.childNodes, 0)
  {
    ghost var goal := FindIn(parentElement.childNodes, 0);
    var element := FirstChild(parentElement, []);
    if element.Some? {
      GoDown(parentElement, []);
      assert forall q: Path :: [] + q == q;
    }
    while element.Some? && element.value != []
      invariant element.Some? ==> NodeAt(parentElement, element.value).Some?
      invariant goal == if element.Some? && element.value != [] then From(parentElement, element.value) else None
      decreases if element.Some? && element.value != [] then Remaining(parentElement, element.value) else 0
    {
      var p := element.value;
      var node := NodeAt(parentElement, p).value;
      if IsTarget(node) {
        assert p + [] == p;
        return element;
      }
      assert FindAt(node) == if IsDiv(node) then FindIn(node.childNodes, 0) else None;
      if IsDiv(node) && node.childNodes != [] {
        GoDown(parentElement, p);
        GoDownShrinks(parentElement, p);
        element := FirstChild(parentElement, p);
      } else if NextSibling(parentElement, p).Some? {
        GoNext(parentElement, p);
        element := NextSibling(parentElement, p);
      } else {
        p := Climb(parentElement, p);
        if p != [] {
          GoNext(parentElement, p);
          element := NextSibling(parentElement, p);
        } else {
          element := Some(p);
        }
      }
    }
    found := None;
  }

  // ---------- in terms of the document ----------

  /** A DIV of class SRChildren, reached from the root through DIVs only. */
  predicate IsResultList(root: Node, p: Path) {
    && p != [] && NodeAt(root, p).Some?
    && NodeAt(root, p).value.className == "SRChildren"
    && forall k :: 1 <= k <= |p| ==> NodeAt(root, p[..k]).Some? && NodeAt(root, p[..k]).value.nodeName == "DIV"
  }

  lemma {:induction false} NodeBelow(root: Node, i: nat, q: Path)
    requires i < |root.childNodes|
    ensures NodeAt(root, [i] + q) == NodeAt(root.childNodes[i], q)
  {
    if q == [] {
      assert [i] + q == [i] && ParentNode([i]) == [];
    } else {
      assert ParentNode([i] + q) == [i] + ParentNode(q);
      NodeBelow(root, i, ParentNode(q));
    }
  }

  lemma {:induction false} NoNodeBelow(root: Node, i: nat, q: Path)
    requires i >= |root.childNodes|
    ensures NodeAt(root, [i] + q).None?
  {
    if q == [] {
      assert [i] + q == [i] && ParentNode([i]) == [];
    } else {
      assert ParentNode([i] + q) == [i] + ParentNode(q);
      NoNodeBelow(root, i, ParentNode(q));
    }
  }

  lemma {:induction false} QualifiesExactly(root: Node, p: Path)
    ensures Qualifies(root.childNodes, 0, p) <==> IsResultList(root, p)
    decreases |p|
  {
    if p != [] {
      var i, q := p[0], p[1..];
      assert p == [i] + q;
      if i >= |root.childNodes| {
        NoNodeBelow(root, i, q);
      } else {
        QualifiesBelow(root, i, q);
        if q != [] {
          QualifiesExactly(root.childNodes[i], q);
        }
      }
    }
  }

  /** A result list below a child is one of the root if the child is a DIV. */
  lemma QualifiesBelow(root: Node, i: nat, q: Path)
    requires i < |root.childNodes|
    ensures IsResultList(root, [i] + q) <==>
            root.childNodes[i].nodeName == "DIV" &&
            if q == [] then root.childNodes[i].className == "SRChildren" else IsResultList(root.childNodes[i], q)
  {
    var p, child := [i] + q, root.childNodes[i];
    NodeBelow(root, i, q);
    forall k | 1 <= k <= |p| ensures NodeAt(root, p[..k]) == NodeAt(child, q[..k - 1]) {
      assert p[..k] == [i] + q[..k - 1];
      NodeBelow(root, i, q[..k - 1]);
    }
    assert NodeAt(root, p[..1]) == NodeAt(child, q[..0]) == Some(child);
    if IsResultList(root, p) {
      forall k | 1 <= k <= |q| ensures NodeAt(child, q[..k]).Some? && NodeAt(child, q[..k]).value.nodeName == "DIV" {
        assert NodeAt(root, p[..k + 1]) == NodeAt(child, q[..k + 1 - 1]);
      }
    }
  }

  /** The walk finds the first result list in document order, or nothing if there is none. */
  method FindFirstResultList(parentElement: Node) returns (found: Option<Path>)
    ensures found.None? ==> forall r :: !IsResultList(parentElement, r)
    ensures found.Some? ==> IsResultList(parentElement, found.value)
    ensures found.Some? ==> forall r :: IsResultList(parentElement, r) && r != found.value ==> Before(found.value, r)
  {
    found := FindChildElement(parentElement);
    FindInIsFirst(parentElement.childNodes, 0);
    forall r ensures Qualifies(parentElement.childNodes, 0, r) <==> IsResultList(parentElement, r) {
      QualifiesExactly(parentElement, r);
    }
  }
}

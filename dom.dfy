/**
 * The part of the browser document object model that the two components use:
 * a tree of text, element and other nodes, addressed by paths of child
 * indices, with the `querySelector` / `querySelectorAll` lookups and the
 * child-list edits the components perform.
 */
module Dom {
  import opened Wrappers

  /** One attribute of an element, in the order it was set. */
  datatype Attr = Attr(name: string, value: string)

  /**
   * A DOM node. `CData` is a CDATA section: its `nodeType` is not
   * `TEXT_NODE`, but its text is part of `textContent`. `Other` stands for
   * comments and processing instructions, which contribute nothing to
   * `textContent`.
   */
  datatype Node =
    | Text(data: string)
    | CData(data: string)
    | Element(tag: string, attrs: seq<Attr>, children: seq<Node>)
    | Other

  /** The child indices leading from a node down to one of its descendants. */
  type Path = seq<nat>

  /** `childNodes`: empty for anything but an element. */
  function Children(n: Node): seq<Node> {
    if n.Element? then n.children else []
  }

  /** `getAttribute(name)`: the value of the first attribute so named, or null. */
  function GetAttribute(attrs: seq<Attr>, name: string): Option<string> {
    if attrs == [] then None
    else if attrs[0].name == name then Some(attrs[0].value)
    else GetAttribute(attrs[1..], name)
  }

  /** `getAttribute` finds the first attribute with the name, wherever it is. */
  lemma {:induction false} GetAttributeAt(attrs: seq<Attr>, name: string, i: nat)
    requires i < |attrs| && attrs[i].name == name
    requires forall j :: 0 <= j < i ==> attrs[j].name != name
    ensures GetAttribute(attrs, name) == Some(attrs[i].value)
    decreases i
  {
    if i > 0 {
      GetAttributeAt(attrs[1..], name, i - 1);
    }
  }

  /** `getAttribute` gives null exactly when no attribute has the name, and otherwise the value of one that has. */
  lemma {:induction false} GetAttributeCases(attrs: seq<Attr>, name: string)
    ensures GetAttribute(attrs, name).None? <==> forall j :: 0 <= j < |attrs| ==> attrs[j].name != name
    ensures GetAttribute(attrs, name).Some? ==> Attr(name, GetAttribute(attrs, name).value) in attrs
    decreases |attrs|
  {
    if attrs != [] && attrs[0].name != name {
      GetAttributeCases(attrs[1..], name);
      assert attrs == [attrs[0]] + attrs[1..];
    }
  }

  // ---------------------------------------------------------------------------
  // Paths
  // ---------------------------------------------------------------------------

  predicate ValidPath(n: Node, p: Path)
    decreases p
  {
    p == [] || (n.Element? && p[0] < |n.children| && ValidPath(n.children[p[0]], p[1..]))
  }

  /** The node at the end of `p`. */
  function Get(n: Node, p: Path): Node
    requires ValidPath(n, p)
    decreases p
  {
    if p == [] then n else Get(n.children[p[0]], p[1..])
  }

  /** `p` leads to an element, whose children can be edited. */
  predicate IsElementAt(n: Node, p: Path) {
    ValidPath(n, p) && Get(n, p).Element?
  }

  /** The tree with the children of the element at `p` replaced by `kids`; everything else as it was. */
  function WithChildren(n: Node, p: Path, kids: seq<Node>): Node
    requires IsElementAt(n, p)
    decreases p
  {
    if p == [] then n.(children := kids)
    else n.(children := n.children[p[0] := WithChildren(n.children[p[0]], p[1..], kids)])
  }

  /** Following `a + b` is following `a`, then `b`. */
  lemma {:induction false} GetAppend(n: Node, a: Path, b: Path)
    ensures ValidPath(n, a + b) <==> ValidPath(n, a) && ValidPath(Get(n, a), b)
    ensures ValidPath(n, a + b) ==> Get(n, a + b) == Get(Get(n, a), b)
    decreases a
  {
    if a != [] {
      assert (a + b)[0] == a[0] && (a + b)[1..] == a[1..] + b;
      if n.Element? && a[0] < |n.children| {
        GetAppend(n.children[a[0]], a[1..], b);
      }
    } else {
      assert a + b == b;
    }
  }

  /** Replacing the children at `p` leaves `p` valid and changes only that element's children. */
  lemma {:induction false} GetWithChildren(n: Node, p: Path, kids: seq<Node>)
    requires IsElementAt(n, p)
    ensures ValidPath(WithChildren(n, p, kids), p)
    ensures Get(WithChildren(n, p, kids), p) == Get(n, p).(children := kids)
    decreases p
  {
    if p != [] {
      GetWithChildren(n.children[p[0]], p[1..], kids);
    }
  }

  /** Putting an element's own children back changes nothing. */
  lemma {:induction false} WithOwnChildren(n: Node, p: Path)
    requires IsElementAt(n, p)
    ensures WithChildren(n, p, Get(n, p).children) == n
    decreases p
  {
    if p != [] {
      WithOwnChildren(n.children[p[0]], p[1..]);
      assert n.children[p[0] := n.children[p[0]]] == n.children;
    }
  }

  /** A second replacement at the same place overrides the first. */
  lemma {:induction false} WithChildrenTwice(n: Node, p: Path, k1: seq<Node>, k2: seq<Node>)
    requires IsElementAt(n, p)
    ensures IsElementAt(WithChildren(n, p, k1), p)
    ensures WithChildren(WithChildren(n, p, k1), p, k2) == WithChildren(n, p, k2)
    decreases p
  {
    GetWithChildren(n, p, k1);
    if p != [] {
      WithChildrenTwice(n.children[p[0]], p[1..], k1, k2);
    }
  }

  // ---------------------------------------------------------------------------
  // Selectors and document order
  // ---------------------------------------------------------------------------

  /**
   * The two CSS selector shapes the components use: a type selector
   * (`manifest`) and a type selector with an attribute-equals test
   * (`item[id="..."]`).
   */
  datatype Selector = Tag(name: string) | TagAttr(name: string, attr: string, value: string)

  predicate Matches(s: Selector, n: Node) {
    n.Element? && n.tag == s.name
    && (s.TagAttr? ==> GetAttribute(n.attrs, s.attr) == Some(s.value))
  }

  /** `n` or one of its descendants matches `s`. */
  predicate Contains(n: Node, s: Selector)
    decreases n
  {
    Matches(s, n) || (n.Element? && exists j :: 0 <= j < |n.children| && Contains(n.children[j], s))
  }

  /** Path `q` comes strictly before path `p` in document (pre-)order. */
  predicate Before(q: Path, p: Path)
    decreases p
  {
    |p| > 0 && (q == [] || q[0] < p[0] || (q[0] == p[0] && Before(q[1..], p[1..])))
  }

  /**
   * The first node in document order, `n` itself included, that matches `s`:
   * `document.querySelector(s)` when `n` is the document element.
   */
  function Find(n: Node, s: Selector): (r: Option<Path>)
    ensures r.Some? ==> ValidPath(n, r.value) && Matches(s, Get(n, r.value))
    ensures r.None? <==> !Contains(n, s)
    decreases n, 1
  {
    if Matches(s, n) then Some([])
    else match n
      case Element(_, _, kids) =>
        var r := FindIn(kids, s, 0);
        if r.Some? then Some(r.value) else None
      case _ => None
  }

  /** The first match inside `kids[i..]`, as a path whose first step is a child index. */
  function FindIn(kids: seq<Node>, s: Selector, i: nat): (r: Option<Path>)
    ensures r.Some? ==> |r.value| > 0 && i <= r.value[0] < |kids|
    ensures r.Some? ==> ValidPath(kids[r.value[0]], r.value[1..]) && Matches(s, Get(kids[r.value[0]], r.value[1..]))
    ensures r.None? <==> forall j :: i <= j < |kids| ==> !Contains(kids[j], s)
    decreases kids, |kids| - i
  {
    if i >= |kids| then None
    else match Find(kids[i], s)
      case Some(p) => Some([i] + p)
      case None => FindIn(kids, s, i + 1)
  }

  /** `element.querySelector(s)`: the first matching descendant, the element itself excluded. */
  function QuerySelector(n: Node, s: Selector): (r: Option<Path>)
    ensures r.Some? ==> r.value != [] && ValidPath(n, r.value) && Matches(s, Get(n, r.value))
    ensures r.None? <==> forall j :: 0 <= j < |Children(n)| ==> !Contains(Children(n)[j], s)
  {
    if n.Element? then
      assert Children(n) == n.children;
      FindIn(n.children, s, 0)
    else None
  }

  /** A node matched at a valid path shows in `Contains`. */
  lemma {:induction false} MatchIsContained(n: Node, q: Path, s: Selector)
    requires ValidPath(n, q) && Matches(s, Get(n, q))
    ensures Contains(n, s)
    decreases q
  {
    if q != [] {
      MatchIsContained(n.children[q[0]], q[1..], s);
    }
  }

  /** `Find` returns the first match in document order: no node before it matches. */
  lemma {:induction false} FindIsFirst(n: Node, s: Selector, q: Path)
    requires Find(n, s).Some? && ValidPath(n, q) && Before(q, Find(n, s).value)
    ensures !Matches(s, Get(n, q))
    decreases n, 1
  {
    assert !Matches(s, n);
    if q != [] {
      FindInIsFirst(n.children, s, 0, q);
    }
  }

  lemma {:induction false} FindInIsFirst(kids: seq<Node>, s: Selector, i: nat, q: Path)
    requires FindIn(kids, s, i).Some?
    requires q != [] && i <= q[0] < |kids| && ValidPath(kids[q[0]], q[1..])
    requires Before(q, FindIn(kids, s, i).value)
    ensures !Matches(s, Get(kids[q[0]], q[1..]))
    decreases kids, |kids| - i
  {
    var p := FindIn(kids, s, i).value;
    match Find(kids[i], s)
    case Some(p0) =>
      assert p == [i] + p0;
      if q[0] == i {
        assert Before(q[1..], p0);
        FindIsFirst(kids[i], s, q[1..]);
      }
    case None =>
      if q[0] == i {
        if Matches(s, Get(kids[i], q[1..])) {
          MatchIsContained(kids[i], q[1..], s);
          assert false;
        }
      } else {
        FindInIsFirst(kids, s, i + 1, q);
      }
  }

  /** `QuerySelector` returns the first match below `n` in document order: no descendant before it matches. */
  lemma QuerySelectorIsFirst(n: Node, s: Selector, q: Path)
    requires QuerySelector(n, s).Some? && q != [] && ValidPath(n, q)
    requires Before(q, QuerySelector(n, s).value)
    ensures !Matches(s, Get(n, q))
  {
    FindInIsFirst(n.children, s, 0, q);
  }

  /** `querySelectorAll(s)` from `n` itself: every match, `n` included, in document order. */
  function All(n: Node, s: Selector): (r: seq<Node>)
    ensures r == [] <==> !Contains(n, s)
    decreases n, 1
  {
    (if Matches(s, n) then [n] else []) + (if n.Element? then AllIn(n.children, s) else [])
  }

  /** Every match inside `kids`, in document order: `element.querySelectorAll(s)` on their parent. */
  function AllIn(kids: seq<Node>, s: Selector): (r: seq<Node>)
    ensures r == [] <==> forall j :: 0 <= j < |kids| ==> !Contains(kids[j], s)
    decreases kids, 0
  {
    if kids == [] then [] else All(kids[0], s) + AllIn(kids[1..], s)
  }

  /** `querySelectorAll` lists matching nodes only. */
  lemma {:induction false} AllMatches(n: Node, s: Selector)
    ensures forall i :: 0 <= i < |All(n, s)| ==> Matches(s, All(n, s)[i])
    decreases n, 1
  {
    if n.Element? {
      AllInMatches(n.children, s);
    }
  }

  lemma {:induction false} AllInMatches(kids: seq<Node>, s: Selector)
    ensures forall i :: 0 <= i < |AllIn(kids, s)| ==> Matches(s, AllIn(kids, s)[i])
    decreases kids, 0
  {
    if kids != [] {
      AllMatches(kids[0], s);
      AllInMatches(kids[1..], s);
    }
  }

  /** `querySelector` returns the first node `querySelectorAll` lists, and null exactly when the list is empty. */
  lemma {:induction false} FindIsFirstOfAll(n: Node, s: Selector)
    ensures Find(n, s).None? <==> All(n, s) == []
    ensures Find(n, s).Some? ==> All(n, s)[0] == Get(n, Find(n, s).value)
    decreases n, 2
  {
    if !Matches(s, n) && n.Element? {
      FindInIsFirstOfAll(n.children, s, 0);
      assert n.children[0..] == n.children;
    }
  }

  lemma {:induction false} FindInIsFirstOfAll(kids: seq<Node>, s: Selector, i: nat)
    requires i <= |kids|
    ensures FindIn(kids, s, i).None? <==> AllIn(kids[i..], s) == []
    ensures FindIn(kids, s, i).Some? ==>
      var p := FindIn(kids, s, i).value;
      AllIn(kids[i..], s)[0] == Get(kids[p[0]], p[1..])
    decreases kids, |kids| - i
  {
    if i < |kids| {
      assert AllIn(kids[i..], s) == All(kids[i], s) + AllIn(kids[i + 1..], s) by {
        assert kids[i..][0] == kids[i] && kids[i..][1..] == kids[i + 1..];
      }
      FindIsFirstOfAll(kids[i], s);
      FindInIsFirstOfAll(kids, s, i + 1);
      match Find(kids[i], s)
      case Some(p0) =>
        var p := [i] + p0;
        assert FindIn(kids, s, i) == Some(p);
        assert p[0] == i && p[1..] == p0;
      case None =>
        assert AllIn(kids[i..], s) == AllIn(kids[i + 1..], s);
    }
  }

  /** `querySelector` from an element is the first of its `querySelectorAll`. */
  lemma QuerySelectorIsFirstOfAll(n: Node, s: Selector)
    ensures QuerySelector(n, s).None? <==> AllIn(Children(n), s) == []
    ensures QuerySelector(n, s).Some? ==> AllIn(Children(n), s)[0] == Get(n, QuerySelector(n, s).value)
  {
    if n.Element? {
      FindInIsFirstOfAll(n.children, s, 0);
      assert n.children[0..] == n.children;
    }
  }

  // ---------------------------------------------------------------------------
  // Inserting siblings after a node
  // ---------------------------------------------------------------------------

  /** The parent path of a non-empty path leads to an element that has the child. */
  lemma ParentOf(n: Node, p: Path)
    requires ValidPath(n, p) && p != []
    ensures IsElementAt(n, p[..|p| - 1])
    ensures p[|p| - 1] < |Get(n, p[..|p| - 1]).children|
    ensures Get(n, p) == Get(n, p[..|p| - 1]).children[p[|p| - 1]]
  {
    var a, b := p[..|p| - 1], [p[|p| - 1]];
    assert a + b == p;
    GetAppend(n, a, b);
  }

  /**
   * The tree with `nodes` placed, in order, directly after the node at `p`
   * among its siblings: `parent.insertBefore(x, cursor.nextSibling)` with
   * the cursor moved onto each inserted node.
   */
  function InsertAfter(n: Node, p: Path, nodes: seq<Node>): (r: Node)
    requires ValidPath(n, p) && p != []
    ensures IsElementAt(r, p[..|p| - 1])
    ensures ValidPath(n, p[..|p| - 1]) && |Get(r, p[..|p| - 1]).children| == |Children(Get(n, p[..|p| - 1]))| + |nodes|
  {
    ParentOf(n, p);
    var parent, k := p[..|p| - 1], p[|p| - 1];
    var kids := Get(n, parent).children;
    GetWithChildren(n, parent, kids[..k + 1] + nodes + kids[k + 1..]);
    WithChildren(n, parent, kids[..k + 1] + nodes + kids[k + 1..])
  }

  /** `InsertAfter` replaces the children of the node's parent by the spliced sequence `kids`. */
  lemma InsertAfterSplice(n: Node, p: Path, nodes: seq<Node>, kids: seq<Node>)
    requires ValidPath(n, p) && p != []
    requires IsElementAt(n, p[..|p| - 1]) && p[|p| - 1] < |Get(n, p[..|p| - 1]).children|
    requires var k, siblings := p[|p| - 1], Get(n, p[..|p| - 1]).children;
      kids == siblings[..k + 1] + nodes + siblings[k + 1..]
    ensures InsertAfter(n, p, nodes) == WithChildren(n, p[..|p| - 1], kids)
  {
  }

  /**
   * After `InsertAfter`, the anchor keeps its path; its parent's children are
   * the old ones up to the anchor, then `nodes` in order, then the rest of the
   * old ones; and removing the inserted run gives back the original tree.
   */
  lemma InsertAfterShape(n: Node, p: Path, nodes: seq<Node>)
    requires ValidPath(n, p) && p != []
    ensures IsElementAt(n, p[..|p| - 1]) && p[|p| - 1] < |Get(n, p[..|p| - 1]).children|
    ensures var r, parent, k := InsertAfter(n, p, nodes), p[..|p| - 1], p[|p| - 1];
      var old_ := Get(n, parent).children;
      && IsElementAt(r, parent)
      && var new_ := Get(r, parent).children;
      && |new_| == |old_| + |nodes|
      && new_[..k + 1] == old_[..k + 1]
      && new_[k + 1..k + 1 + |nodes|] == nodes
      && new_[k + 1 + |nodes|..] == old_[k + 1..]
      && ValidPath(r, p) && Get(r, p) == Get(n, p)
      && WithChildren(r, parent, new_[..k + 1] + new_[k + 1 + |nodes|..]) == n
  {
    ParentOf(n, p);
    var parent, k := p[..|p| - 1], p[|p| - 1];
    var old_ := Get(n, parent).children;
    var spliced := old_[..k + 1] + nodes + old_[k + 1..];
    var r := InsertAfter(n, p, nodes);
    GetWithChildren(n, parent, spliced);
    var new_ := Get(r, parent).children;
    assert new_ == spliced;
    assert new_[..k + 1] == old_[..k + 1];
    assert new_[k + 1..k + 1 + |nodes|] == nodes;
    assert new_[k + 1 + |nodes|..] == old_[k + 1..];
    assert new_[..k + 1] + new_[k + 1 + |nodes|..] == old_;
    WithChildrenTwice(n, parent, spliced, old_);
    WithOwnChildren(n, parent);
    GetAppend(r, parent, [k]);
    assert parent + [k] == p;
    assert new_[k] == old_[k];
  }

  /** Inserting siblings never removes a match: what the tree contained, it still contains. */
  lemma {:induction false} WithMoreChildrenContains(n: Node, p: Path, kids: seq<Node>, s: Selector)
    requires IsElementAt(n, p)
    requires forall c :: c in Get(n, p).children ==> c in kids
    requires Contains(n, s)
    ensures Contains(WithChildren(n, p, kids), s)
    decreases p
  {
    var r := WithChildren(n, p, kids);
    if p == [] {
      if !Matches(s, n) {
        var j :| 0 <= j < |n.children| && Contains(n.children[j], s);
        var c := n.children[j];
        assert c in kids;
        var j' :| 0 <= j' < |kids| && kids[j'] == c;
        assert r.children[j'] == c;
      }
    } else {
      var i := p[0];
      if !Matches(s, n) {
        var j :| 0 <= j < |n.children| && Contains(n.children[j], s);
        if j == i {
          WithMoreChildrenContains(n.children[i], p[1..], kids, s);
          assert r.children[i] == WithChildren(n.children[i], p[1..], kids);
        } else {
          assert r.children[j] == n.children[j];
        }
      }
    }
  }

  lemma InsertAfterContains(n: Node, p: Path, nodes: seq<Node>, s: Selector)
    requires ValidPath(n, p) && p != []
    requires Contains(n, s)
    ensures Contains(InsertAfter(n, p, nodes), s)
  {
    ParentOf(n, p);
    var parent, k := p[..|p| - 1], p[|p| - 1];
    var kids := Get(n, parent).children;
    var spliced := kids[..k + 1] + nodes + kids[k + 1..];
    forall c | c in kids ensures c in spliced {
      var j :| 0 <= j < |kids| && kids[j] == c;
      if j <= k { assert spliced[j] == c; } else { assert spliced[j + |nodes|] == c; }
    }
    WithMoreChildrenContains(n, parent, spliced, s);
  }

  /** Replacing children by nodes that were children already or contain no match adds no match. */
  lemma {:induction false} WithChildrenNoNewMatch(n: Node, p: Path, kids: seq<Node>, s: Selector)
    requires IsElementAt(n, p)
    requires !Contains(n, s)
    requires forall j :: 0 <= j < |kids| ==> kids[j] in Get(n, p).children || !Contains(kids[j], s)
    ensures !Contains(WithChildren(n, p, kids), s)
    decreases p
  {
    var r := WithChildren(n, p, kids);
    if p == [] {
      forall j | 0 <= j < |kids| ensures !Contains(kids[j], s) {
        if kids[j] in n.children {
          var i :| 0 <= i < |n.children| && n.children[i] == kids[j];
        }
      }
    } else {
      var i := p[0];
      WithChildrenNoNewMatch(n.children[i], p[1..], kids, s);
      forall j | 0 <= j < |r.children| ensures !Contains(r.children[j], s) {
        if j != i { assert r.children[j] == n.children[j]; }
      }
    }
  }

  /** Inserting siblings that contain no match adds no match. */
  lemma InsertAfterNoNewMatch(n: Node, p: Path, nodes: seq<Node>, s: Selector)
    requires ValidPath(n, p) && p != []
    requires !Contains(n, s)
    requires forall j :: 0 <= j < |nodes| ==> !Contains(nodes[j], s)
    ensures !Contains(InsertAfter(n, p, nodes), s)
  {
    ParentOf(n, p);
    var parent, k := p[..|p| - 1], p[|p| - 1];
    var kids := Get(n, parent).children;
    var spliced := kids[..k + 1] + nodes + kids[k + 1..];
    forall j | 0 <= j < |spliced| ensures spliced[j] in kids || !Contains(spliced[j], s) {
      if j <= k { assert spliced[j] == kids[j]; }
      else if j < k + 1 + |nodes| { assert spliced[j] == nodes[j - k - 1]; }
      else { assert spliced[j] == kids[j - |nodes|]; }
    }
    WithChildrenNoNewMatch(n, parent, spliced, s);
  }
}

/** Filters are the folders of the project's Files tree. A filter path such as
    `Network\XBOX` names a chain of nested elements, each found by its `Name`
    attribute (VSProjectFixer/Program.cs:145-170, 174-182, 250-257). */
module Filters {
  import opened Results
  import opened Text
  import opened Xml

  /** `filterPath.Split("\\", RemoveEmptyEntries)`: the names along the chain. */
  function Segments(filterPath: string): (segs: seq<string>)
    ensures forall i :: 0 <= i < |segs| ==> segs[i] != "" && '\\' !in segs[i]
  {
    var segs := RemoveEmpty(Split(filterPath, '\\'));
    assert forall i :: 0 <= i < |segs| ==> segs[i] in Split(filterPath, '\\');
    segs
  }

  /** A filter path written as its segments splits back into them; doubled or
      leading backslashes only add empty entries, which are dropped. */
  lemma {:induction false} SegmentsOfJoin(segs: seq<string>)
    requires |segs| > 0 && forall i :: 0 <= i < |segs| ==> segs[i] != "" && '\\' !in segs[i]
    ensures Segments(Join(segs, '\\')) == segs
  {
    SplitJoin(segs, '\\');
  }

  /** The element FindFilterNode creates: `<Filter Name="path" Filter="">`. */
  function NewFilter(path: string): (n: Node)
    ensures n.tag == "Filter" && NameOf(n) == Some(path) && n.children == []
    ensures WellFormed(n)
  {
    Node("Filter", [Attr("Name", path), Attr("Filter", "")], [])
  }

  /** The parent after the search, and the position of the child found or created. */
  datatype Found = Found(parent: Node, child: Option<nat>)

  /** FindFilterNode: the first child whose `Name` is `path` (children without a
      `Name` do not match); when there is none and `create` is set, a new filter
      is appended and returned. */
  function FindFilterNode(parent: Node, path: string, create: bool): (r: Found)
    ensures r.parent.tag == parent.tag && r.parent.attrs == parent.attrs
    ensures r.child.Some? ==> r.child.value < |r.parent.children|
                              && NameOf(r.parent.children[r.child.value]) == Some(path)
                              && forall j :: 0 <= j < r.child.value ==> NameOf(r.parent.children[j]) != Some(path)
    ensures r.child.None? <==> !create && forall j :: 0 <= j < |parent.children| ==> NameOf(parent.children[j]) != Some(path)
    ensures r.parent.children == parent.children
            || (create && r.parent.children == parent.children + [NewFilter(path)]
                && forall j :: 0 <= j < |parent.children| ==> NameOf(parent.children[j]) != Some(path))
  {
    match FindChildByName(parent.children, path)
    case Some(k) => Found(parent, Some(k))
    case None =>
      if create then
        var r := Found(parent.(children := parent.children + [NewFilter(path)]), Some(|parent.children|));
        assert forall j :: 0 <= j < |parent.children| ==> r.parent.children[j] == parent.children[j];
        r
      else Found(parent, None)
  }

  /** Searching again for a name just found or created finds the same child and
      changes nothing. */
  lemma {:induction false} FindFilterNodeStable(parent: Node, path: string, create: bool)
    requires FindFilterNode(parent, path, create).child.Some?
    ensures var f := FindFilterNode(parent, path, create);
            FindFilterNode(f.parent, path, true) == Found(f.parent, f.child)
  {
    var f := FindFilterNode(parent, path, create);
    var k := f.child.value;
    assert FindChildByName(f.parent.children, path) == Some(k) by {
      FirstNamed(f.parent.children, path, k);
    }
  }

  /** The child at `k` is the first one named `name`. */
  lemma {:induction false} FirstNamed(cs: seq<Node>, name: string, k: nat)
    requires k < |cs| && NameOf(cs[k]) == Some(name)
    requires forall j :: 0 <= j < k ==> NameOf(cs[j]) != Some(name)
    ensures FindChildByName(cs, name) == Some(k)
  {
    var r := FindChildByName(cs, name);
    assert NameOf(cs[k]) == Some(name);
  }

  /** The element a chain of names leads to, following the first match at every
      level, or None when some name along the chain is missing. */
  function Reach(n: Node, segs: seq<string>): Option<Node>
    decreases |segs|
  {
    if |segs| == 0 then Some(n)
    else match FindChildByName(n.children, segs[0])
      case None => None
      case Some(k) => Reach(n.children[k], segs[1..])
  }

  /** The element a chain of names leads to once every missing name has been
      created as a new, empty filter. */
  function ReachOrNew(n: Node, segs: seq<string>): Node
    decreases |segs|
  {
    if |segs| == 0 then n
    else match FindChildByName(n.children, segs[0])
      case None => ReachOrNew(NewFilter(segs[0]), segs[1..])
      case Some(k) => ReachOrNew(n.children[k], segs[1..])
  }

  /** The tree `n` with the element at the end of a chain of names replaced by
      `x`, and nothing else changed: at every level only the first child with
      the next name is replaced, or, when there is none, one new filter holding
      the rest of the chain is appended. */
  function GraftAt(n: Node, segs: seq<string>, x: Node): Node
    decreases |segs|
  {
    if |segs| == 0 then x
    else match FindChildByName(n.children, segs[0])
      case None => n.(children := n.children + [GraftAt(NewFilter(segs[0]), segs[1..], x)])
      case Some(k) => n.(children := n.children[k := GraftAt(n.children[k], segs[1..], x)])
  }

  /** One level of a walk that creates missing filters: the child it descends
      into leads on to the same element, and putting the grafted child back in
      place grafts the parent. */
  lemma {:induction false} GraftStep(n: Node, segs: seq<string>, x: Node)
    requires |segs| > 0
    ensures var f := FindFilterNode(n, segs[0], true);
      var k := f.child.value;
      && ReachOrNew(f.parent.children[k], segs[1..]) == ReachOrNew(n, segs)
      && f.parent.(children := f.parent.children[k := GraftAt(f.parent.children[k], segs[1..], x)]) == GraftAt(n, segs, x)
  {
    var f := FindFilterNode(n, segs[0], true);
    var k := f.child.value;
    if FindChildByName(n.children, segs[0]).None? {
      var g := GraftAt(NewFilter(segs[0]), segs[1..], x);
      assert f.parent.children[k := g] == n.children + [g];
    }
  }

  /** Grafting below `n` keeps the element itself and every child of it off the
      chain; at most one child is added. */
  lemma {:induction false} GraftAtFrame(n: Node, segs: seq<string>, x: Node)
    requires |segs| > 0
    ensures var g := GraftAt(n, segs, x);
      && g.tag == n.tag && g.attrs == n.attrs
      && |n.children| <= |g.children| <= |n.children| + 1
      && forall j :: 0 <= j < |n.children| && FindChildByName(n.children, segs[0]) != Some(j) ==>
           g.children[j] == n.children[j]
  {
    var g := GraftAt(n, segs, x);
    match FindChildByName(n.children, segs[0])
    case None =>
      assert forall j :: 0 <= j < |n.children| ==> g.children[j] == n.children[j];
    case Some(k) =>
  }

  // ---------------------------------------------------------------------------
  // Counting filters
  // ---------------------------------------------------------------------------

  /** How many `Filter` elements a tree holds. */
  function FilterCount(n: Node): nat {
    (if n.tag == "Filter" then 1 else 0) + FilterCountAll(n.children)
  }

  function FilterCountAll(cs: seq<Node>): nat {
    if |cs| == 0 then 0 else FilterCount(cs[0]) + FilterCountAll(cs[1..])
  }

  /** Replacing one child changes the count by the difference of the two subtrees. */
  lemma {:induction false} FilterCountReplace(cs: seq<Node>, i: nat, x: Node)
    requires i < |cs|
    ensures FilterCountAll(cs[i := x]) + FilterCount(cs[i]) == FilterCountAll(cs) + FilterCount(x)
    decreases |cs|
  {
    if i > 0 {
      assert cs[i := x][1..] == cs[1..][i - 1 := x];
      FilterCountReplace(cs[1..], i - 1, x);
    } else {
      assert cs[i := x][1..] == cs[1..];
    }
  }

  /** Appending a subtree adds its count. */
  lemma {:induction false} FilterCountAppend(cs: seq<Node>, x: Node)
    ensures FilterCountAll(cs + [x]) == FilterCountAll(cs) + FilterCount(x)
    decreases |cs|
  {
    if |cs| > 0 {
      assert (cs + [x])[1..] == cs[1..] + [x];
      FilterCountAppend(cs[1..], x);
    } else {
      assert (cs + [x])[1..] == [];
    }
  }

  /** Two lists whose children pairwise hold as many filters hold as many in all. */
  lemma {:induction false} FilterCountPointwise(a: seq<Node>, b: seq<Node>)
    requires |a| == |b| && forall j :: 0 <= j < |a| ==> FilterCount(a[j]) == FilterCount(b[j])
    ensures FilterCountAll(a) == FilterCountAll(b)
    decreases |a|
  {
    if |a| > 0 {
      FilterCountPointwise(a[1..], b[1..]);
    }
  }

  // ---------------------------------------------------------------------------
  // Editing the element a chain of names reaches
  // ---------------------------------------------------------------------------

  /** Apply `edit` to the element the chain of names reaches below `n`, without
      creating anything on the way, and put the edited element back in place.
      A missing name leaves a null filter, and using it throws. */
  function EditAt(n: Node, segs: seq<string>, edit: Node -> Result<Node>): (r: Result<Node>)
    requires forall m :: edit(m).Success? ==> edit(m).value.tag == m.tag && edit(m).value.attrs == m.attrs
    ensures Reach(n, segs).None? ==> r == Failure(NullReference)
    ensures Reach(n, segs).Some? ==>
      var e := edit(Reach(n, segs).value);
      && (r.Failure? <==> e.Failure?)
      && (r.Failure? ==> r.fault == e.fault)
      && (r.Success? ==> r.value == GraftAt(n, segs, e.value))
    ensures r.Success? ==> r.value.tag == n.tag && r.value.attrs == n.attrs
    decreases |segs|
  {
    if |segs| == 0 then edit(n)
    else match FindChildByName(n.children, segs[0])
      case None => Failure(NullReference)
      case Some(k) =>
        var child :- EditAt(n.children[k], segs[1..], edit);
        Success(n.(children := n.children[k := child]))
  }

  /** An element put back where the chain of names reached it, with the same
      attributes, is reached by the same chain; the tree keeps its attributes. */
  lemma {:induction false} GraftAtReach(n: Node, segs: seq<string>, x: Node)
    requires Reach(n, segs).Some? && x.attrs == Reach(n, segs).value.attrs
    ensures Reach(GraftAt(n, segs, x), segs) == Some(x)
    ensures GraftAt(n, segs, x).attrs == n.attrs
    decreases |segs|
  {
    if |segs| > 0 {
      var k := FindChildByName(n.children, segs[0]).value;
      var g := GraftAt(n.children[k], segs[1..], x);
      GraftAtReach(n.children[k], segs[1..], x);
      var r := GraftAt(n, segs, x);
      assert r.children == n.children[k := g];
      assert forall j :: 0 <= j < k ==> r.children[j] == n.children[j];
      FirstNamed(r.children, segs[0], k);
    }
  }

  /** Replacing the element a chain of names reaches changes the number of
      filters by the difference of the two elements. */
  lemma {:induction false} GraftAtFilterCount(n: Node, segs: seq<string>, x: Node)
    requires Reach(n, segs).Some?
    ensures FilterCount(GraftAt(n, segs, x)) + FilterCount(Reach(n, segs).value) == FilterCount(n) + FilterCount(x)
    decreases |segs|
  {
    if |segs| > 0 {
      var k := FindChildByName(n.children, segs[0]).value;
      var g := GraftAt(n.children[k], segs[1..], x);
      GraftAtFilterCount(n.children[k], segs[1..], x);
      FilterCountReplace(n.children, k, g);
    }
  }
}

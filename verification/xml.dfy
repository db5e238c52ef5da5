/** The project document as an immutable element tree: a tag, an ordered
    attribute list and an ordered list of child elements. Only elements are
    modelled (no text, comment or whitespace nodes). */
module Xml {
  import opened Results

  datatype Attr = Attr(name: string, value: string)

  datatype Node = Node(tag: string, attrs: seq<Attr>, children: seq<Node>)

  /** Position of the first attribute called `name`. */
  function AttrIndex(attrs: seq<Attr>, name: string): (k: Option<nat>)
    ensures k.Some? ==> k.value < |attrs| && attrs[k.value].name == name
                        && forall j :: 0 <= j < k.value ==> attrs[j].name != name
    ensures k.None? ==> forall j :: 0 <= j < |attrs| ==> attrs[j].name != name
  {
    if |attrs| == 0 then None
    else if attrs[0].name == name then Some(0)
    else match AttrIndex(attrs[1..], name)
      case None => None
      case Some(k) => Some(k + 1)
  }

  /** `node.Attributes[name]?.Value`: the value of the first attribute called `name`. */
  function GetAttr(attrs: seq<Attr>, name: string): (v: Option<string>)
    ensures v.Some? <==> AttrIndex(attrs, name).Some?
    ensures v.Some? ==> v.value == attrs[AttrIndex(attrs, name).value].value
  {
    if |attrs| == 0 then None
    else if attrs[0].name == name then Some(attrs[0].value)
    else GetAttr(attrs[1..], name)
  }

  function NameOf(n: Node): Option<string> {
    GetAttr(n.attrs, "Name")
  }

  /** An XML element never carries two attributes with the same name. */
  predicate UniqueNames(attrs: seq<Attr>) {
    forall i, j :: 0 <= i < j < |attrs| ==> attrs[i].name != attrs[j].name
  }

  /** Every element of the tree has unique attribute names. */
  ghost predicate WellFormed(n: Node) {
    UniqueNames(n.attrs) && forall c :: c in n.children ==> WellFormed(c)
  }

  /** Well-formedness checked child by child. */
  lemma {:induction false} WellFormedByIndex(n: Node)
    requires UniqueNames(n.attrs) && forall i :: 0 <= i < |n.children| ==> WellFormed(n.children[i])
    ensures WellFormed(n)
  {
    forall c | c in n.children ensures WellFormed(c) {
      var i :| 0 <= i < |n.children| && n.children[i] == c;
    }
  }

  // ---------------------------------------------------------------------------
  // Attribute edits (VSProjectFixer/Program.cs:12-40 and XmlAttributeCollection.Append)
  // ---------------------------------------------------------------------------

  /** The first attribute called `name` is the one at `k`. */
  lemma {:induction false} AttrIndexIs(attrs: seq<Attr>, name: string, k: nat)
    requires k < |attrs| && attrs[k].name == name
    requires forall j :: 0 <= j < k ==> attrs[j].name != name
    ensures AttrIndex(attrs, name) == Some(k)
  {
    var r := AttrIndex(attrs, name);
    assert attrs[k].name == name;
  }

  /** Cutting out an entry not called `other` does not change the lookup of `other`. */
  lemma {:induction false} LookupSkipsRemoved(attrs: seq<Attr>, k: nat, other: string)
    requires k < |attrs| && attrs[k].name != other
    ensures GetAttr(attrs[..k] + attrs[k + 1..], other) == GetAttr(attrs, other)
    decreases k
  {
    var r := attrs[..k] + attrs[k + 1..];
    if k == 0 {
      assert r == attrs[1..];
    } else {
      assert r == [attrs[0]] + (attrs[1..][..k - 1] + attrs[1..][k..]);
      LookupSkipsRemoved(attrs[1..], k - 1, other);
    }
  }

  /** Cutting out the only entry called `name` leaves a well-formed list without it. */
  lemma {:induction false} RemovalKeepsUnique(attrs: seq<Attr>, k: nat)
    requires k < |attrs| && UniqueNames(attrs)
    ensures UniqueNames(attrs[..k] + attrs[k + 1..])
    ensures GetAttr(attrs[..k] + attrs[k + 1..], attrs[k].name).None?
  {
    var r := attrs[..k] + attrs[k + 1..];
    assert forall i :: 0 <= i < |r| ==> r[i] == if i < k then attrs[i] else attrs[i + 1];
    assert forall i :: 0 <= i < |r| ==> r[i].name != attrs[k].name;
  }

  /** RemoveAttributeIfFound: drop the first attribute called `name`, keep the
      order of the rest; no attribute of that name leaves the list unchanged. */
  function RemoveAttributeIfFound(attrs: seq<Attr>, name: string): (r: seq<Attr>)
    ensures GetAttr(attrs, name).None? ==> r == attrs
    ensures GetAttr(attrs, name).Some? ==>
      |r| == |attrs| - 1 && exists k :: 0 <= k < |attrs| && attrs[k].name == name
                                         && (forall j :: 0 <= j < k ==> attrs[j].name != name)
                                         && r == attrs[..k] + attrs[k + 1..]
    ensures forall other :: other != name ==> GetAttr(r, other) == GetAttr(attrs, other)
    ensures UniqueNames(attrs) ==> UniqueNames(r) && GetAttr(r, name).None?
  {
    match AttrIndex(attrs, name)
    case None => attrs
    case Some(k) =>
      var r := attrs[..k] + attrs[k + 1..];
      assert forall other :: other != name ==> GetAttr(r, other) == GetAttr(attrs, other) by {
        forall other | other != name
          ensures GetAttr(r, other) == GetAttr(attrs, other)
        {
          LookupSkipsRemoved(attrs, k, other);
        }
      }
      assert UniqueNames(attrs) ==> UniqueNames(r) && GetAttr(r, name).None? by {
        if UniqueNames(attrs) {
          RemovalKeepsUnique(attrs, k);
        }
      }
      r
  }

  /** CreateOrUpdateAttribute: overwrite the value of the first attribute called
      `name` in place, or append the attribute when there is none. */
  function CreateOrUpdateAttribute(attrs: seq<Attr>, name: string, value: string): (r: seq<Attr>)
    ensures GetAttr(r, name) == Some(value)
    ensures forall other :: other != name ==> GetAttr(r, other) == GetAttr(attrs, other)
    ensures AttrIndex(attrs, name).None? ==> r == attrs + [Attr(name, value)]
    ensures AttrIndex(attrs, name).Some? ==>
      var k := AttrIndex(attrs, name).value; r == attrs[k := Attr(name, value)]
    ensures UniqueNames(attrs) ==> UniqueNames(r)
  {
    match AttrIndex(attrs, name)
    case Some(k) =>
      var r := attrs[k := Attr(name, value)];
      AttrIndexIs(r, name, k);
      assert forall other :: other != name ==> GetAttr(r, other) == GetAttr(attrs, other) by {
        forall other | other != name
          ensures GetAttr(r, other) == GetAttr(attrs, other)
        {
          SameNamesSameLookup(attrs, r, other);
        }
      }
      r
    case None =>
      var r := attrs + [Attr(name, value)];
      AttrIndexIs(r, name, |attrs|);
      assert forall other :: other != name ==> GetAttr(r, other) == GetAttr(attrs, other) by {
        forall other | other != name
          ensures GetAttr(r, other) == GetAttr(attrs, other)
        {
          LookupPastEnd(attrs, Attr(name, value), other);
        }
      }
      r
  }

  /** Two lists that differ only in entries not called `other` agree on `other`. */
  lemma {:induction false} SameNamesSameLookup(a: seq<Attr>, b: seq<Attr>, other: string)
    requires |a| == |b|
    requires forall j :: 0 <= j < |a| ==> a[j].name == b[j].name
    requires forall j :: 0 <= j < |a| && a[j].name == other ==> a[j] == b[j]
    ensures GetAttr(a, other) == GetAttr(b, other)
  {
    if |a| > 0 {
      SameNamesSameLookup(a[1..], b[1..], other);
    }
  }

  lemma {:induction false} LookupPastEnd(a: seq<Attr>, extra: Attr, other: string)
    requires extra.name != other
    ensures GetAttr(a + [extra], other) == GetAttr(a, other)
  {
    if |a| > 0 {
      assert (a + [extra])[1..] == a[1..] + [extra];
      LookupPastEnd(a[1..], extra, other);
    }
  }

  /** XmlAttributeCollection.Append: an attribute of the same name is removed
      first, and the new one always goes to the end. */
  function AppendAttribute(attrs: seq<Attr>, name: string, value: string): (r: seq<Attr>)
    ensures |r| > 0 && r[|r| - 1] == Attr(name, value)
    ensures r[..|r| - 1] == RemoveAttributeIfFound(attrs, name)
    ensures forall other :: other != name ==> GetAttr(r, other) == GetAttr(attrs, other)
    ensures UniqueNames(attrs) ==> UniqueNames(r) && GetAttr(r, name) == Some(value)
  {
    var kept := RemoveAttributeIfFound(attrs, name);
    var r := kept + [Attr(name, value)];
    assert forall other :: other != name ==> GetAttr(r, other) == GetAttr(attrs, other) by {
      forall other | other != name
        ensures GetAttr(r, other) == GetAttr(attrs, other)
      {
        LookupPastEnd(kept, Attr(name, value), other);
      }
    }
    assert UniqueNames(attrs) ==> GetAttr(r, name) == Some(value) by {
      if UniqueNames(attrs) {
        AttrIndexIs(r, name, |kept|);
      }
    }
    assert r[..|r| - 1] == kept;
    r
  }

  /** Removing twice removes no more than removing once, on a well-formed list. */
  lemma {:induction false} RemoveAttributeIdempotent(attrs: seq<Attr>, name: string)
    requires UniqueNames(attrs)
    ensures RemoveAttributeIfFound(RemoveAttributeIfFound(attrs, name), name)
            == RemoveAttributeIfFound(attrs, name)
  {
  }

  /** Re-appending the value just appended changes nothing, on a well-formed list. */
  lemma {:induction false} AppendAttributeIdempotent(attrs: seq<Attr>, name: string, value: string)
    requires UniqueNames(attrs)
    ensures AppendAttribute(AppendAttribute(attrs, name, value), name, value)
            == AppendAttribute(attrs, name, value)
  {
    var once := AppendAttribute(attrs, name, value);
    var kept := RemoveAttributeIfFound(attrs, name);
    assert once == kept + [Attr(name, value)];
    AttrIndexIs(once, name, |kept|);
    assert once[..|kept|] == kept;
    assert RemoveAttributeIfFound(once, name) == kept;
  }

  // ---------------------------------------------------------------------------
  // Looking children up
  // ---------------------------------------------------------------------------

  /** The first child whose `Name` attribute equals `name`; children without a
      `Name` attribute simply do not match (`GetNamedItem("Name")?.InnerText`). */
  function FindChildByName(cs: seq<Node>, name: string): (k: Option<nat>)
    ensures k.Some? ==> k.value < |cs| && NameOf(cs[k.value]) == Some(name)
                        && forall j :: 0 <= j < k.value ==> NameOf(cs[j]) != Some(name)
    ensures k.None? ==> forall j :: 0 <= j < |cs| ==> NameOf(cs[j]) != Some(name)
  {
    First(cs, (n: Node) => NameOf(n) == Some(name))
  }

  /** The first child with tag `tag` (an XPath child step followed by `[0]`). */
  function FirstTagged(cs: seq<Node>, tag: string): (k: Option<nat>)
    ensures k.Some? ==> k.value < |cs| && cs[k.value].tag == tag
                        && forall j :: 0 <= j < k.value ==> cs[j].tag != tag
    ensures k.None? ==> forall j :: 0 <= j < |cs| ==> cs[j].tag != tag
  {
    First(cs, (n: Node) => n.tag == tag)
  }

  /** The position of the first element satisfying `p`, the shape of every
      search loop that stops at its first hit. */
  function First<T>(xs: seq<T>, p: T -> bool): (k: Option<nat>)
    ensures k.Some? ==> k.value < |xs| && p(xs[k.value]) && forall j :: 0 <= j < k.value ==> !p(xs[j])
    ensures k.None? ==> forall j :: 0 <= j < |xs| ==> !p(xs[j])
  {
    if |xs| == 0 then None
    else if p(xs[0]) then Some(0)
    else match First(xs[1..], p)
      case None => None
      case Some(k) => Some(k + 1)
  }

  /** Whether a scan restricted to tag `onlyTag` (or to every child) looks at `c`. */
  predicate Examined(c: Node, onlyTag: Option<string>) {
    onlyTag.None? || c.tag == onlyTag.value
  }

  /** The source's search loops `for (...) if (child.Attributes[key].Value == value) break;`:
      the first examined child whose `key` attribute equals `value`. Reading
      `.Value` of an attribute an examined child lacks throws, so such a child
      before the match aborts the scan. */
  function Lookup(cs: seq<Node>, key: string, value: string, onlyTag: Option<string>): (r: Result<Option<nat>>)
    ensures r.Success? && r.value.Some? ==>
      var k := r.value.value;
      && k < |cs| && Examined(cs[k], onlyTag) && GetAttr(cs[k].attrs, key) == Some(value)
      && forall j :: 0 <= j < k && Examined(cs[j], onlyTag) ==>
           GetAttr(cs[j].attrs, key).Some? && GetAttr(cs[j].attrs, key) != Some(value)
    ensures r.Success? && r.value.None? ==>
      forall j :: 0 <= j < |cs| && Examined(cs[j], onlyTag) ==>
        GetAttr(cs[j].attrs, key).Some? && GetAttr(cs[j].attrs, key) != Some(value)
    ensures r.Failure? ==>
      r.fault == NullReference &&
      exists j :: 0 <= j < |cs| && Examined(cs[j], onlyTag) && GetAttr(cs[j].attrs, key).None?
                  && forall i :: 0 <= i < j && Examined(cs[i], onlyTag) ==> GetAttr(cs[i].attrs, key) != Some(value)
  {
    if |cs| == 0 then Success(None)
    else if Examined(cs[0], onlyTag) && GetAttr(cs[0].attrs, key).None? then Failure(NullReference)
    else if Examined(cs[0], onlyTag) && GetAttr(cs[0].attrs, key) == Some(value) then Success(Some(0))
    else
      assert forall i :: 1 <= i < |cs| ==> cs[i] == cs[1..][i - 1];
      match Lookup(cs[1..], key, value, onlyTag)
      case Failure(f) => LookupFailsLater(cs, key, value, onlyTag); Failure(f)
      case Success(None) => Success(None)
      case Success(Some(k)) => Success(Some(k + 1))
  }

  /** A child that throws past a first child that does not match throws for
      the whole list too. */
  lemma {:induction false} LookupFailsLater(cs: seq<Node>, key: string, value: string, onlyTag: Option<string>)
    requires |cs| > 0 && !(Examined(cs[0], onlyTag) && GetAttr(cs[0].attrs, key) == Some(value))
    requires exists j :: 0 <= j < |cs[1..]| && Examined(cs[1..][j], onlyTag) && GetAttr(cs[1..][j].attrs, key).None?
               && forall i :: 0 <= i < j && Examined(cs[1..][i], onlyTag) ==> GetAttr(cs[1..][i].attrs, key) != Some(value)
    ensures exists j :: 0 <= j < |cs| && Examined(cs[j], onlyTag) && GetAttr(cs[j].attrs, key).None?
              && forall i :: 0 <= i < j && Examined(cs[i], onlyTag) ==> GetAttr(cs[i].attrs, key) != Some(value)
  {
    var j :| 0 <= j < |cs[1..]| && Examined(cs[1..][j], onlyTag) && GetAttr(cs[1..][j].attrs, key).None?
             && forall i :: 0 <= i < j && Examined(cs[1..][i], onlyTag) ==> GetAttr(cs[1..][i].attrs, key) != Some(value);
    assert forall i :: 1 <= i <= j + 1 ==> cs[i] == cs[1..][i - 1];
    assert Examined(cs[j + 1], onlyTag) && GetAttr(cs[j + 1].attrs, key).None?;
  }

  /** The child at `k` is what Lookup finds when every examined child before it
      carries the key with another value. */
  lemma {:induction false} LookupIs(cs: seq<Node>, key: string, value: string, onlyTag: Option<string>, k: nat)
    requires k < |cs| && Examined(cs[k], onlyTag) && GetAttr(cs[k].attrs, key) == Some(value)
    requires forall j :: 0 <= j < k && Examined(cs[j], onlyTag) ==>
               GetAttr(cs[j].attrs, key).Some? && GetAttr(cs[j].attrs, key) != Some(value)
    ensures Lookup(cs, key, value, onlyTag) == Success(Some(k))
  {
    var r := Lookup(cs, key, value, onlyTag);
    assert GetAttr(cs[k].attrs, key) == Some(value);
  }
}

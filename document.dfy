/**
 * Object trees as values: a node's kind, name, texts, attribute list and
 * child list, with the children in sibling order.  The reader builds these,
 * the writers, the selector and text extraction walk them, and the deep copy
 * maps one to another.
 */
module Document {
  import opened Wrappers
  import opened Defines
  import opened Chars
  import opened Attributes

  datatype Tree = Tree(
    kind: Kind,
    name: Option<string>,
    innerText: Option<string>,
    afterText: Option<string>,
    attrs: seq<Attr>,
    children: seq<Tree>)

  /** A fresh object as the constructors leave it: no texts, no attributes, no children. */
  function Blank(kind: Kind, name: Option<string>): (r: Tree)
    ensures r.kind == kind && r.name == name && r.children == [] && r.attrs == []
    ensures r.innerText.None? && r.afterText.None?
  {
    Tree(kind, name, None, None, [], [])
  }

  /** A tree with one more child at the tail. */
  function AppendChild(t: Tree, c: Tree): (r: Tree)
    ensures r.children == t.children + [c]
    ensures r.kind == t.kind && r.name == t.name && r.attrs == t.attrs
    ensures r.innerText == t.innerText && r.afterText == t.afterText
  {
    t.(children := t.children + [c])
  }

  /** Every string the tree holds is a C string of bytes, as the C structures hold them. */
  predicate CTree(t: Tree)
    decreases t
  {
    (t.name.Some? ==> CBytes(t.name.value))
    && (t.innerText.Some? ==> CBytes(t.innerText.value))
    && (t.afterText.Some? ==> CBytes(t.afterText.value))
    && (forall i | 0 <= i < |t.attrs| :: CBytes(t.attrs[i].name) && (t.attrs[i].value.Some? ==> CBytes(t.attrs[i].value.value)))
    && (forall i | 0 <= i < |t.children| :: CTree(t.children[i]))
  }

  /** Every node's attribute names are pairwise distinct. */
  predicate AllDistinct(t: Tree)
    decreases t
  {
    DistinctNames(t.attrs) && forall i | 0 <= i < |t.children| :: AllDistinct(t.children[i])
  }

  /**
   * HtmlCopyObject: a fresh object takes the texts (HtmlSetText), then each
   * attribute through HtmlSetObjectAttrValue in list order, then a copy of each
   * child appended in order.  As written, kind and name stay as calloc left
   * them, although the code means to give the copy "the same type and name";
   * corrected, the copy takes both.
   */
  function Copy(t: Tree, e: Edition): (r: Tree)
    decreases t, 1
  {
    Tree(if e == AsWritten then NoType else t.kind, if e == AsWritten then None else t.name,
      t.innerText, t.afterText, CopyAttributes([], t.attrs), CopyChildren(t.children, e))
  }

  function CopyChildren(cs: seq<Tree>, e: Edition): (r: seq<Tree>)
    decreases cs, 0
    ensures |r| == |cs|
    ensures forall i | 0 <= i < |cs| :: r[i] == Copy(cs[i], e)
  {
    if cs == [] then [] else [Copy(cs[0], e)] + CopyChildren(cs[1..], e)
  }

  /** A copy's fields: as written no kind and no name, corrected the original's; the same texts and as many children, each a copy. */
  lemma CopyFields(t: Tree, e: Edition)
    ensures e == AsWritten ==> Copy(t, e).kind == NoType && Copy(t, e).name == None
    ensures e == Intended ==> Copy(t, e).kind == t.kind && Copy(t, e).name == t.name
    ensures Copy(t, e).innerText == t.innerText && Copy(t, e).afterText == t.afterText
    ensures |Copy(t, e).children| == |t.children|
    ensures forall i | 0 <= i < |t.children| :: Copy(t, e).children[i] == Copy(t.children[i], e)
  {
  }

  /**
   * What a copy is meant to hold, defined without the attribute loop: the
   * same shape with kind and name erased and every "" attribute value NULL.
   */
  function Stripped(t: Tree): (r: Tree)
    decreases t
    ensures r.kind == NoType && r.name == None
    ensures |r.children| == |t.children|
  {
    Tree(NoType, None, t.innerText, t.afterText, Normalized(t.attrs),
      seq(|t.children|, i requires 0 <= i < |t.children| => Stripped(t.children[i])))
  }

  /** With distinct attribute names everywhere, a deep copy is exactly the stripped tree. */
  lemma {:induction false} CopyIsStripped(t: Tree)
    requires AllDistinct(t)
    ensures Copy(t, AsWritten) == Stripped(t)
    decreases t
  {
    CopyAttributesDistinct([], t.attrs);
    var cs := CopyChildren(t.children, AsWritten);
    var ss := Stripped(t).children;
    forall i | 0 <= i < |t.children|
      ensures cs[i] == ss[i]
    {
      CopyIsStripped(t.children[i]);
    }
  }

  lemma {:induction false} NormalizedIdempotent(a: seq<Attr>)
    ensures Normalized(Normalized(a)) == Normalized(a)
  {
    if a != [] {
      NormalizedIdempotent(a[1..]);
    }
  }

  lemma {:induction false} NormalizedDistinct(a: seq<Attr>)
    requires DistinctNames(a)
    ensures DistinctNames(Normalized(a))
  {
  }

  lemma {:induction false} StrippedDistinct(t: Tree)
    requires AllDistinct(t)
    ensures AllDistinct(Stripped(t))
    decreases t
  {
    NormalizedDistinct(t.attrs);
    forall i | 0 <= i < |t.children|
      ensures AllDistinct(Stripped(t).children[i])
    {
      StrippedDistinct(t.children[i]);
    }
  }

  /**
   * Every copy is free of repeated attribute names, whatever the original
   * repeats: the attributes are set one by one with create-or-update.
   */
  lemma {:induction false} CopyDistinct(t: Tree, e: Edition)
    ensures AllDistinct(Copy(t, e))
    decreases t
  {
    CopyAttributesKeepsDistinct([], t.attrs);
    var cs := Copy(t, e).children;
    forall i | 0 <= i < |cs|
      ensures AllDistinct(cs[i])
    {
      CopyDistinct(t.children[i], e);
    }
  }

  lemma {:induction false} StrippedIdempotent(t: Tree)
    ensures Stripped(Stripped(t)) == Stripped(t)
    decreases t
  {
    NormalizedIdempotent(t.attrs);
    forall i | 0 <= i < |t.children|
      ensures Stripped(Stripped(t)).children[i] == Stripped(t).children[i]
    {
      StrippedIdempotent(t.children[i]);
    }
  }

  /** Copying a copy changes nothing more, as long as no node repeats an attribute name. */
  lemma CopyIdempotent(t: Tree)
    requires AllDistinct(t)
    ensures Copy(Copy(t, AsWritten), AsWritten) == Copy(t, AsWritten)
  {
    CopyIsStripped(t);
    StrippedDistinct(t);
    CopyIsStripped(Stripped(t));
    StrippedIdempotent(t);
  }

  /** Whatever the original, copying settles after two rounds: the copy of a copy is copied unchanged. */
  lemma CopySettles(t: Tree)
    ensures Copy(Copy(Copy(t, AsWritten), AsWritten), AsWritten) == Copy(Copy(t, AsWritten), AsWritten)
  {
    CopyDistinct(t, AsWritten);
    CopyIdempotent(Copy(t, AsWritten));
  }

  /** No attribute anywhere in the tree holds an empty value. */
  predicate NoEmptyValues(t: Tree)
    decreases t
  {
    (forall i | 0 <= i < |t.attrs| :: t.attrs[i].value != Some(""))
    && forall i | 0 <= i < |t.children| :: NoEmptyValues(t.children[i])
  }

  lemma {:induction false} NormalizedKeeps(a: seq<Attr>)
    requires forall i | 0 <= i < |a| :: a[i].value != Some("")
    ensures Normalized(a) == a
  {
    if a != [] {
      NormalizedKeeps(a[1..]);
    }
  }

  /**
   * Corrected, a copy is the original itself, as long as no node repeats an
   * attribute name or holds an empty value (create-or-update would merge the
   * one and turn the other into NULL).
   */
  lemma {:induction false} CopyIntendedIsIdentity(t: Tree)
    requires AllDistinct(t) && NoEmptyValues(t)
    ensures Copy(t, Intended) == t
    decreases t
  {
    CopyAttributesDistinct([], t.attrs);
    NormalizedKeeps(t.attrs);
    assert [] + t.attrs == t.attrs;
    var cs := CopyChildren(t.children, Intended);
    forall i | 0 <= i < |t.children|
      ensures cs[i] == t.children[i]
    {
      CopyIntendedIsIdentity(t.children[i]);
    }
  }

  /**
   * A repeated attribute name breaks that: the later "" value updates the
   * single copied attribute and is kept as "", which the next copy turns
   * into NULL.
   */
  lemma CopyOfRepeatedName()
    ensures var t := Tree(Tag, Some("p"), None, None, [Attr("a", Some("x")), Attr("a", Some(""))], []);
      Copy(t, AsWritten).attrs == [Attr("a", Some(""))] &&
      Copy(Copy(t, AsWritten), AsWritten).attrs == [Attr("a", None)]
  {
    var a := [Attr("a", Some("x")), Attr("a", Some(""))];
    assert SetValue([], "a", Some("x")) == [Attr("a", Some("x"))];
    assert Find([Attr("a", Some("x"))], "a") == Some(0);
    assert SetValue([Attr("a", Some("x"))], "a", Some("")) == [Attr("a", Some(""))];
    assert a[1..][1..] == [];
    assert CopyAttributes([], a) == [Attr("a", Some(""))];
    var once := [Attr("a", Some(""))];
    assert once[1..] == [];
    assert SetValue([], "a", Some("")) == [Attr("a", None)];
    assert CopyAttributes([], once) == [Attr("a", None)];
  }
}

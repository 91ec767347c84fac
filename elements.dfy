/**
 * The v1 element operations (MyHtml/MyHtml_methods.h) on the object arena.
 * An HTML_Element's owner, back and front links are an object's parent,
 * prev and next; its text and interval are innerText and afterText.
 * Allocation is assumed to succeed.
 */
module Elements {
  import opened Wrappers
  import opened Defines
  import opened Chars
  import opened Attributes
  import opened ObjectTree
  import Document
  import WriterV1

  /** HTML_CopyString: NULL for NULL, otherwise a fresh byte-for-byte copy. */
  method CopyString(str: Option<string>) returns (r: Option<string>)
    ensures r == str
  {
    if str.None? {
      return None;
    }
    var text := str.value;
    var dest := new char[|text|];
    var i := 0;
    while i < |text|
      invariant 0 <= i <= |text|
      invariant dest[..i] == text[..i]
    {
      dest[i] := text[i];
      i := i + 1;
    }
    assert dest[..] == dest[..i] && text[..i] == text;
    return Some(dest[..]);
  }

  /** HTML_CopyLoweredString: NULL for NULL, otherwise a same-length copy with A-Z lowered and every other byte kept. */
  method CopyLoweredString(str: Option<string>) returns (r: Option<string>)
    ensures r.None? <==> str.None?
    ensures r.Some? ==> r.value == Lowered(str.value)
  {
    if str.None? {
      return None;
    }
    var l := CopyLowered(str.value);
    return Some(l);
  }

  /** HTML_GetElementTagName: the name, "" when it is NULL. */
  function GetElementTagName(o: Obj): (r: string)
    ensures o.name.Some? ==> r == o.name.value
    ensures r == [] <==> o.name.None? || o.name.value == []
  {
    o.name.GetOr("")
  }

  /** HTML_GetElementString: the text, "" when it is NULL. */
  function GetElementString(o: Obj): (r: string)
    ensures o.innerText.Some? ==> r == o.innerText.value
    ensures r == [] <==> o.innerText.None? || o.innerText.value == []
  {
    o.innerText.GetOr("")
  }

  /** HTML_GetElementInterval: the interval, "" when it is NULL. */
  function GetElementInterval(o: Obj): (r: string)
    ensures o.afterText.Some? ==> r == o.afterText.value
    ensures r == [] <==> o.afterText.None? || o.afterText.value == []
  {
    o.afterText.GetOr("")
  }

  /**
   * HTML_CreateTag: a new TAG with the lowered name, and a copy of the text
   * when one is given.
   */
  method CreateTag(d: Dom, tagName: Option<string>, text: Option<string>) returns (e: nat)
    requires d.Valid()
    modifies d
    ensures d.Valid() && e == |old(d.objs)| && |d.objs| == e + 1 && d.kids == old(d.kids) + [[]]
    ensures d.objs[e].kind == Tag && d.objs[e].parent.None?
    ensures GetElementTagName(d.objs[e]) == (if tagName.Some? then Lowered(tagName.value) else "")
    ensures d.objs[e].innerText == text && d.objs[e].afterText.None? && d.objs[e].attrs == []
    ensures GetElementString(d.objs[e]) == text.GetOr("") && GetElementInterval(d.objs[e]) == ""
    ensures forall n | 0 <= n < e :: SameData(d.objs[n], old(d.objs[n]))
  {
    e := d.CreateObject(Tag, tagName, None);
    if text.Some? {
      SetElementString(d, e, text);
    }
  }

  /**
   * HTML_CreateSingle: a new element with the lowered name and no text.  As
   * written it is given type TAG, as HTML_CreateTag is; the evident intent
   * is SINGLE.
   */
  method CreateSingle(d: Dom, tagName: Option<string>, e: Edition) returns (o: nat)
    requires d.Valid()
    modifies d
    ensures d.Valid() && o == |old(d.objs)| && |d.objs| == o + 1 && d.kids == old(d.kids) + [[]]
    ensures d.objs[o].kind == (if e == AsWritten then Tag else Single)
    ensures GetElementTagName(d.objs[o]) == (if tagName.Some? then Lowered(tagName.value) else "")
    ensures d.objs[o].innerText.None? && d.objs[o].afterText.None? && d.objs[o].attrs == [] && d.objs[o].parent.None?
    ensures GetElementString(d.objs[o]) == "" && GetElementInterval(d.objs[o]) == ""
    ensures forall n | 0 <= n < o :: SameData(d.objs[n], old(d.objs[n]))
  {
    o := d.CreateObject(if e == AsWritten then Tag else Single, tagName, None);
  }

  /** HTML_CreateComment: a new COMMENT holding a copy of the text. */
  method CreateComment(d: Dom, comment: Option<string>) returns (e: nat)
    requires d.Valid()
    modifies d
    ensures d.Valid() && e == |old(d.objs)| && |d.objs| == e + 1 && d.kids == old(d.kids) + [[]]
    ensures d.objs[e].kind == Comment && d.objs[e].name.None? && d.objs[e].innerText == comment
    ensures d.objs[e].afterText.None? && d.objs[e].attrs == [] && d.objs[e].parent.None?
    ensures forall n | 0 <= n < e :: SameData(d.objs[n], old(d.objs[n]))
  {
    e := d.CreateObject(Comment, None, None);
    SetElementString(d, e, comment);
  }

  /** HTML_CreateDocument: a new, empty DOCUMENT. */
  method CreateDocument(d: Dom) returns (e: nat)
    requires d.Valid()
    modifies d
    ensures d.Valid() && e == |old(d.objs)| && |d.objs| == e + 1 && d.kids == old(d.kids) + [[]]
    ensures SameData(d.objs[e], Blank(Document, None)) && d.objs[e].parent.None?
    ensures forall n | 0 <= n < e :: SameData(d.objs[n], old(d.objs[n]))
  {
    e := d.CreateObject(Document, None, None);
  }

  /** HTML_SetElementTagName: the old name is freed and replaced by a lowered copy, or by NULL. */
  method SetElementTagName(d: Dom, e: nat, tagName: Option<string>)
    requires d.Valid() && e < |d.objs|
    modifies d
    ensures d.Valid() && d.kids == old(d.kids)
    ensures d.objs == old(d.objs)[e := old(d.objs[e]).(name := d.objs[e].name)]
    ensures GetElementTagName(d.objs[e]) == (if tagName.Some? then Lowered(tagName.value) else "")
    ensures d.objs[e].name.Some? <==> tagName.Some?
    ensures GetElementString(d.objs[e]) == GetElementString(old(d.objs[e]))
    ensures GetElementInterval(d.objs[e]) == GetElementInterval(old(d.objs[e]))
  {
    var name := CopyLoweredString(tagName);
    LinkedDataChange(d.objs, d.kids, e, d.objs[e].(name := name));
    d.objs := d.objs[e := d.objs[e].(name := name)];
  }

  /** HTML_SetElementString: the old text is freed and replaced by a copy, or by NULL. */
  method SetElementString(d: Dom, e: nat, text: Option<string>)
    requires d.Valid() && e < |d.objs|
    modifies d
    ensures d.Valid() && d.kids == old(d.kids)
    ensures d.objs == old(d.objs)[e := old(d.objs[e]).(innerText := text)]
    ensures GetElementString(d.objs[e]) == text.GetOr("")
    ensures GetElementTagName(d.objs[e]) == GetElementTagName(old(d.objs[e]))
    ensures GetElementInterval(d.objs[e]) == GetElementInterval(old(d.objs[e]))
  {
    var copy := CopyString(text);
    LinkedDataChange(d.objs, d.kids, e, d.objs[e].(innerText := copy));
    d.objs := d.objs[e := d.objs[e].(innerText := copy)];
  }

  /**
   * HTML_SetElementAttribute: walk the attributes for an exact name match
   * and give it a copy of the value, or append a new attribute under the
   * lowered name.
   */
  method SetElementAttribute(d: Dom, e: nat, attrName: string, attrValue: Option<string>)
    requires d.Valid() && e < |d.objs|
    modifies d
    ensures d.Valid() && d.kids == old(d.kids)
    ensures d.objs == old(d.objs)[e := old(d.objs[e]).(attrs := Attributes.SetElementAttribute(old(d.objs[e].attrs), attrName, attrValue))]
  {
    var attrs := d.objs[e].attrs;
    var value := CopyString(attrValue);
    var i := 0;
    while i < |attrs|
      invariant 0 <= i <= |attrs|
      invariant forall j | 0 <= j < i :: attrs[j].name != attrName
    {
      if attrs[i].name == attrName {
        assert Find(attrs, attrName) == Some(i);
        LinkedDataChange(d.objs, d.kids, e, d.objs[e].(attrs := attrs[i := Attr(attrs[i].name, value)]));
        d.objs := d.objs[e := d.objs[e].(attrs := attrs[i := Attr(attrs[i].name, value)])];
        return;
      }
      i := i + 1;
    }
    var name := CopyLowered(attrName);
    LinkedDataChange(d.objs, d.kids, e, d.objs[e].(attrs := attrs + [Attr(name, value)]));
    d.objs := d.objs[e := d.objs[e].(attrs := attrs + [Attr(name, value)])];
  }

  /** HTML_RemoveElementAttribute: unlink the first attribute with exactly that name; nothing when there is none. */
  method RemoveElementAttribute(d: Dom, e: nat, attrName: string)
    requires d.Valid() && e < |d.objs|
    modifies d
    ensures d.Valid() && d.kids == old(d.kids)
    ensures d.objs == old(d.objs)[e := old(d.objs[e]).(attrs := Remove(old(d.objs[e].attrs), attrName))]
  {
    var attrs := d.objs[e].attrs;
    var i := 0;
    while i < |attrs|
      invariant 0 <= i <= |attrs|
      invariant forall j | 0 <= j < i :: attrs[j].name != attrName
    {
      if attrs[i].name == attrName {
        assert Find(attrs, attrName) == Some(i);
        LinkedDataChange(d.objs, d.kids, e, d.objs[e].(attrs := attrs[..i] + attrs[i + 1..]));
        d.objs := d.objs[e := d.objs[e].(attrs := attrs[..i] + attrs[i + 1..])];
        return;
      }
      i := i + 1;
    }
    assert Find(attrs, attrName).None?;
  }

  /**
   * HTML_AddElementChild: the child becomes the element's last child with
   * the element as owner; a NULL element gives the child back untouched, a
   * NULL child gives NULL.  It does not detach the child first, so the
   * child must have no owner (see MoveBreaksOldOwner for what happens
   * otherwise).
   */
  method AddElementChild(d: Dom, element: Ref, child: Ref) returns (r: Ref)
    requires d.Valid() && (element.Some? ==> element.value < |d.objs|) && (child.Some? ==> child.value < |d.objs|)
    requires element.Some? && child.Some? ==> d.objs[child.value].parent.None?
    modifies d
    ensures d.Valid() && |d.objs| == |old(d.objs)|
    ensures element.None? ==> r == child && d.objs == old(d.objs) && d.kids == old(d.kids)
    ensures element.Some? && child.None? ==> r.None? && d.objs == old(d.objs) && d.kids == old(d.kids)
    ensures element.Some? && child.Some? ==>
      r == child
      && d.kids == old(d.kids)[element.value := old(d.kids[element.value]) + [child.value]]
      && d.objs[child.value].parent == element
    ensures forall n | 0 <= n < |d.objs| :: SameData(d.objs[n], old(d.objs[n]))
  {
    if element.None? {
      return child;
    }
    if child.None? {
      return None;
    }
    d.LibAddObjectChild(element.value, child.value);
    return child;
  }

  /**
   * What HTML_AddElementChild does to a child that already has an owner:
   * A (object 0) owns c (1) and x (2); adding c to B (3) leaves A's first
   * link on c, which now names B as owner, so no child lists match the links.
   */
  lemma MoveBreaksOldOwner()
    ensures var objs := MoveExample();
      Linked(objs, [[1, 2], [], [], []])
      && var after := AppendWrites(objs, 3, 1);
      after[0].firstChild == Some(1) && after[1].parent == Some(3)
      && forall kids: seq<seq<nat>> :: !Linked(after, kids)
  {
    MoveExampleLinked();
    var after := AppendWrites(MoveExample(), 3, 1);
    assert after[0].firstChild == Some(1) && after[1].parent == Some(3);
    forall k: seq<seq<nat>> ensures !Linked(after, k) {
      if |k| == |after| {
        FirstChildOwnedElsewhere(after, 0, k[0], 1);
      }
    }
  }

  /** A (object 0) owning c (1) and x (2), and B (3) on its own. */
  function MoveExample(): (r: seq<Obj>)
    ensures |r| == 4
  {
    [ Obj(Tag, Some("a"), None, None, [], None, None, None, Some(1), Some(2)),
      Obj(Tag, Some("c"), None, None, [], Some(0), None, Some(2), None, None),
      Obj(Tag, Some("x"), None, None, [], Some(0), Some(1), None, None, None),
      Obj(Tag, Some("b"), None, None, [], None, None, None, None, None)]
  }

  lemma MoveExampleLinked()
    ensures Linked(MoveExample(), [[1, 2], [], [], []])
  {
    var objs := MoveExample();
    var kids: seq<seq<nat>> := [[1, 2], [], [], []];
    assert ListLinked(objs, 0, kids[0]);
    assert forall p | 1 <= p < 4 :: ListLinked(objs, p, kids[p]);
    assert forall n | 0 <= n < 4 :: Listed(objs, kids, n);
  }

  /** A first link to an object whose owner is someone else spells out no child list. */
  lemma FirstChildOwnedElsewhere(objs: seq<Obj>, p: nat, L: seq<nat>, c: nat)
    requires p < |objs| && c < |objs| && objs[p].firstChild == Some(c) && objs[c].parent != Some(p)
    ensures !ListLinked(objs, p, L)
  {
  }

  /**
   * The element HTML_CreateSingle makes is written as a TAG, with a closing
   * tag; as a SINGLE it would be written as `<name>` alone.
   */
  lemma CreateSingleWritesCloseTag(name: string)
    requires name != []
    ensures var asWritten := Document.Tree(Tag, Some(name), None, None, [], []);
      WriterV1.Element(asWritten) == "<" + name + "></" + name + ">"
      && WriterV1.Element(asWritten.(kind := Single)) == "<" + name + ">"
  {
    var t := Document.Tree(Tag, Some(name), None, None, [], []);
    assert WriterV1.Writable(t);
    WriterV1.TagWritesAll(t);
    assert WriterV1.Writable(t.(kind := Single));
    WriterV1.SingleWritesNoClose(t.(kind := Single), None, []);
  }
}

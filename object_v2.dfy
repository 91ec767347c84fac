/**
 * The older v2 object layer (myhtml2/myhtml_object.h) where it differs from
 * the root header: its own append, the attribute lookup that answers "" for
 * a missing name, the remove that reports what it did, and text extraction.
 * Creation, the attribute setter and the counters are the root header's
 * code again and come from ObjectTree.  The root header's
 * HtmlGetObjectTextEx, which wraps the same text extraction behind a
 * writability gate, is here too.
 */
module ObjectV2 {
  import opened Wrappers
  import opened Defines
  import opened Attributes
  import opened ObjectTree
  import opened Document
  import opened Stream

  /**
   * The writes of the v2 HtmlAddObjectChild's unlink: both neighbours are
   * dereferenced without a test, and c's own parent link is left for the
   * append to overwrite.
   */
  function UnlinkBetween(objs: seq<Obj>, c: nat): (r: seq<Obj>)
    requires c < |objs| && objs[c].prev.Some? && objs[c].next.Some?
    requires objs[c].prev.value < |objs| && objs[c].next.value < |objs|
    ensures |r| == |objs|
  {
    var o := objs[c];
    var s1 := objs[o.prev.value := objs[o.prev.value].(next := o.next)];
    s1[o.next.value := s1[o.next.value].(prev := o.prev)]
  }

  /** For a child in the middle of a linked list, those writes are the full unlink but for c's parent link. */
  lemma UnlinkBetweenIsUnlinked(objs: seq<Obj>, kids: seq<seq<nat>>, c: nat) returns (i: nat)
    requires Linked(objs, kids) && c < |objs| && objs[c].parent.Some?
    requires objs[c].prev.Some? && objs[c].next.Some?
    ensures objs[c].prev.value < |objs| && objs[c].next.value < |objs|
    ensures var p := objs[c].parent.value;
      (p < |objs| && i < |kids[p]| && kids[p][i] == c
       && objs[c].prev == Before(kids[p], i) && objs[c].next == After(kids[p], i)
       && objs[p].firstChild != Some(c) && objs[p].lastChild != Some(c)
       && UnlinkBetween(objs, c)[c := UnlinkBetween(objs, c)[c].(parent := None)] == Unlinked(objs, p, c))
  {
    i := ChildPosition(objs, kids, c);
    var p := objs[c].parent.value;
    var L := kids[p];
    assert ListLinked(objs, p, L);
    assert objs[p].firstChild == Some(L[0]) && L[0] != c;
    assert objs[p].lastChild == Some(L[|L| - 1]) && L[|L| - 1] != c;
    var r := UnlinkBetween(objs, c);
    var r' := r[c := r[c].(parent := None)];
    forall n | 0 <= n < |objs| ensures r'[n] == Unlinked(objs, p, c)[n] { }
  }

  /** Appending overwrites the three links of c that the v2 unlink leaves stale. */
  lemma AppendOverwritesParent(objs: seq<Obj>, p: nat, c: nat, v: Ref)
    requires p < |objs| && c < |objs|
    requires objs[p].lastChild.Some? ==> objs[p].lastChild.value < |objs|
    ensures AppendWrites(objs[c := objs[c].(parent := v)], p, c) == AppendWrites(objs, p, c)
  {
  }

  /** The parent's end links the v2 unlink rewrites when they still name c. */
  function FixEnds(objs: seq<Obj>, op: nat, c: nat, o: Obj): (r: seq<Obj>)
    requires op < |objs|
    ensures |r| == |objs|
    ensures forall n | 0 <= n < |objs| && n != op :: r[n] == objs[n]
    ensures r[op].firstChild == (if objs[op].firstChild == Some(c) then o.next else objs[op].firstChild)
    ensures r[op].lastChild == (if objs[op].lastChild == Some(c) then o.prev else objs[op].lastChild)
    ensures r[op].prev == objs[op].prev && r[op].next == objs[op].next && r[op].parent == objs[op].parent
    ensures SameData(r[op], objs[op])
  {
    var s2 := if objs[op].firstChild == Some(c) then objs[op := objs[op].(firstChild := o.next)] else objs;
    if s2[op].lastChild == Some(c) then s2[op := s2[op].(lastChild := o.prev)] else s2
  }

  /** When neither end link names c, the end fix writes nothing. */
  lemma FixEndsUnchanged(objs: seq<Obj>, op: nat, c: nat, o: Obj)
    requires op < |objs| && objs[op].firstChild != Some(c) && objs[op].lastChild != Some(c)
    ensures FixEnds(objs, op, c, o) == objs
  {
  }

  /** The arena the v2 unlink leaves: untouched for a parentless c. */
  function V2Unlinked(objs: seq<Obj>, c: nat): (r: seq<Obj>)
    requires c < |objs|
    requires objs[c].parent.Some? ==> (objs[c].prev.Some? && objs[c].next.Some?
      && objs[c].prev.value < |objs| && objs[c].next.value < |objs| && objs[c].parent.value < |objs|)
    ensures |r| == |objs|
  {
    if objs[c].parent.Some? then FixEnds(UnlinkBetween(objs, c), objs[c].parent.value, c, objs[c]) else objs
  }

  /** For a linked arena, the v2 unlink is the full unlink but for c's stale parent link. */
  lemma V2UnlinkedBase(objs: seq<Obj>, kids: seq<seq<nat>>, c: nat) returns (base: seq<Obj>, baseKids: seq<seq<nat>>)
    requires Linked(objs, kids) && c < |objs|
    requires objs[c].parent.Some? ==> objs[c].prev.Some? && objs[c].next.Some?
    ensures objs[c].parent.Some? ==> (objs[c].prev.value < |objs| && objs[c].next.value < |objs|
      && objs[c].parent.value < |objs| && objs[objs[c].parent.value].firstChild != Some(c)
      && objs[objs[c].parent.value].lastChild != Some(c))
    ensures Linked(base, baseKids) && |base| == |objs| && base[c].parent.None?
    ensures baseKids == Detach(kids, objs[c].parent, c)
    ensures V2Unlinked(objs, c) == base[c := base[c].(parent := objs[c].parent)]
    ensures forall n | 0 <= n < |objs| :: SameData(base[n], objs[n])
    ensures forall n | 0 <= n < |objs| && n != c :: base[n].parent == objs[n].parent
  {
    base, baseKids := objs, kids;
    if objs[c].parent.Some? {
      var op := objs[c].parent.value;
      var i := UnlinkBetweenIsUnlinked(objs, kids, c);
      var u := UnlinkBetween(objs, c);
      assert u[op].firstChild == objs[op].firstChild && u[op].lastChild == objs[op].lastChild;
      FixEndsUnchanged(u, op, c, objs[c]);
      assert V2Unlinked(objs, c) == u;
      UnlinkedLinked(objs, kids, op, c, i);
      DetachCut(kids, op, c, i);
      base := Unlinked(objs, op, c);
      baseKids := Detach(kids, objs[c].parent, c);
    } else {
      assert base[c := base[c].(parent := objs[c].parent)] == objs;
    }
  }

  /** The v2 unlink followed by the append keeps the arena linked, with c moved to the end of p's list. */
  lemma V2AddLinked(objs: seq<Obj>, kids: seq<seq<nat>>, p: nat, c: nat)
    requires Linked(objs, kids) && p < |objs| && c < |objs|
    requires objs[c].parent.Some? ==> objs[c].prev.Some? && objs[c].next.Some?
    ensures objs[c].parent.Some? ==> (objs[c].prev.value < |objs| && objs[c].next.value < |objs|
      && objs[c].parent.value < |objs| && objs[objs[c].parent.value].firstChild != Some(c)
      && objs[objs[c].parent.value].lastChild != Some(c))
    ensures V2Unlinked(objs, c)[p].lastChild.Some? ==> V2Unlinked(objs, c)[p].lastChild.value < |objs|
    ensures var k := Detach(kids, objs[c].parent, c);
      Linked(AppendWrites(V2Unlinked(objs, c), p, c), k[p := k[p] + [c]])
    ensures var r := AppendWrites(V2Unlinked(objs, c), p, c);
      r[c].parent == Some(p)
      && (forall n | 0 <= n < |objs| :: SameData(r[n], objs[n]))
      && (forall n | 0 <= n < |objs| && n != c :: r[n].parent == objs[n].parent)
  {
    var base, baseKids := V2UnlinkedBase(objs, kids, c);
    AppendWritesSplice(base, baseKids, p, c);
    AppendOverwritesParent(base, p, c, objs[c].parent);
    SplicedLinked(base, baseKids, p, c, |baseKids[p]|);
    var r := AppendWrites(base, p, c);
    assert AppendWrites(V2Unlinked(objs, c), p, c) == r;
    forall n | 0 <= n < |objs|
      ensures SameData(r[n], objs[n]) && (n != c ==> r[n].parent == objs[n].parent)
    {
      assert SameData(r[n], base[n]);
    }
  }

  /**
   * HtmlAddObjectChild (v2): unlink c from an old parent by rewiring its two
   * neighbours, then append it to p.  The unlink dereferences prev and next
   * without a test, so a child with a parent must have both; the source's
   * first/last tests never fire for such a child.
   */
  method AddObjectChild(d: Dom, parent: Ref, child: Ref) returns (r: Ref)
    requires d.Valid() && (parent.Some? ==> parent.value < |d.objs|) && (child.Some? ==> child.value < |d.objs|)
    requires parent.Some? && child.Some? && d.objs[child.value].parent.Some? ==>
      d.objs[child.value].prev.Some? && d.objs[child.value].next.Some?
    modifies d
    ensures d.Valid() && |d.objs| == |old(d.objs)|
    ensures parent.None? || child.None? ==> r.None? && d.objs == old(d.objs) && d.kids == old(d.kids)
    ensures parent.Some? && child.Some? ==> r == child
    ensures parent.Some? && child.Some? ==> var p, c := parent.value, child.value;
      var k := Detach(old(d.kids), old(d.objs[c].parent), c);
      d.kids == k[p := k[p] + [c]] && d.objs[c].parent == Some(p)
      && (forall n | 0 <= n < |d.objs| && n != c :: d.objs[n].parent == old(d.objs[n].parent))
    ensures forall n | 0 <= n < |d.objs| :: SameData(d.objs[n], old(d.objs[n]))
  {
    if parent.None? || child.None? {
      return None;
    }
    var p, c := parent.value, child.value;
    ghost var a := d.objs;
    V2AddLinked(d.objs, d.kids, p, c);
    UnlinkNeighbours(d, c);
    AppendLinks(d, p, c);
    d.kids := Detach(d.kids, a[c].parent, c);
    d.kids := d.kids[p := d.kids[p] + [c]];
    return child;
  }

  /** The unlinking half of the v2 HtmlAddObjectChild. */
  method UnlinkNeighbours(d: Dom, c: nat)
    requires c < |d.objs|
    requires d.objs[c].parent.Some? ==> (d.objs[c].prev.Some? && d.objs[c].next.Some?
      && d.objs[c].prev.value < |d.objs| && d.objs[c].next.value < |d.objs| && d.objs[c].parent.value < |d.objs|)
    modifies d
    ensures d.objs == V2Unlinked(old(d.objs), c) && d.kids == old(d.kids)
  {
    var o := d.objs[c];
    if o.parent.Some? {
      var op := o.parent.value;
      d.objs := d.objs[o.prev.value := d.objs[o.prev.value].(next := o.next)];
      d.objs := d.objs[o.next.value := d.objs[o.next.value].(prev := o.prev)];
      if d.objs[op].firstChild == Some(c) {
        d.objs := d.objs[op := d.objs[op].(firstChild := o.next)];
      }
      if d.objs[op].lastChild == Some(c) {
        d.objs := d.objs[op := d.objs[op].(lastChild := o.prev)];
      }
    }
  }

  /** The appending half of the v2 HtmlAddObjectChild, the same writes as HtmlLibAddObjectChild. */
  method AppendLinks(d: Dom, p: nat, c: nat)
    requires p < |d.objs| && c < |d.objs|
    requires d.objs[p].lastChild.Some? ==> d.objs[p].lastChild.value < |d.objs|
    modifies d
    ensures d.objs == AppendWrites(old(d.objs), p, c) && d.kids == old(d.kids)
  {
    var last := d.objs[p].lastChild;
    d.objs := d.objs[c := d.objs[c].(parent := Some(p), prev := last, next := None)];
    if last.Some? {
      d.objs := d.objs[last.value := d.objs[last.value].(next := Some(c))];
    }
    if d.objs[p].firstChild.None? {
      d.objs := d.objs[p := d.objs[p].(firstChild := Some(c))];
    }
    d.objs := d.objs[p := d.objs[p].(lastChild := Some(c))];
  }

  /**
   * What HtmlGetObjectAttributeValue answers: NULL for a NULL object or
   * name, the first match's value, or "" when no attribute has the name.
   * The empty-string guard it calls only tests for NULL, so "" is looked up
   * like any other name.
   */
  function AttributeValue(attrs: seq<Attr>, name: Option<string>): (r: Option<string>)
    ensures name.None? ==> r.None?
    ensures name.Some? && Find(attrs, name.value).None? ==> r == Some("")
    ensures name.Some? && Find(attrs, name.value).Some? ==> r == attrs[Find(attrs, name.value).value].value
  {
    if name.None? then None else GetValueOrEmpty(attrs, name.value)
  }

  /** The lookup as the guard's name promises it: "" is refused like NULL. */
  function AttributeValueIntended(attrs: seq<Attr>, name: Option<string>): (r: Option<string>)
    ensures name.None? || name == Some("") ==> r.None?
    ensures name.Some? && name != Some("") ==> r == AttributeValue(attrs, name)
  {
    if name.None? || name == Some("") then None else GetValueOrEmpty(attrs, name.value)
  }

  /** An attribute with an empty name, which the reader creates for a stray "=", is found by "". */
  lemma EmptyNameAccepted()
    ensures AttributeValue([Attr("", Some("x"))], Some("")) == Some("x")
    ensures AttributeValueIntended([Attr("", Some("x"))], Some("")) == None
  {
  }

  /** HtmlGetObjectAttributeValue: walk the attributes for an exact match. */
  method GetObjectAttributeValue(d: Dom, o: Ref, name: Option<string>) returns (r: Option<string>)
    requires o.Some? ==> o.value < |d.objs|
    ensures o.None? ==> r.None?
    ensures o.Some? ==> r == AttributeValue(d.objs[o.value].attrs, name)
  {
    if o.None? || name.None? {
      return None;
    }
    var attrs := d.objs[o.value].attrs;
    var i := 0;
    while i < |attrs|
      invariant 0 <= i <= |attrs|
      invariant forall j | 0 <= j < i :: attrs[j].name != name.value
    {
      if attrs[i].name == name.value {
        assert Find(attrs, name.value) == Some(i);
        return attrs[i].value;
      }
      i := i + 1;
    }
    return Some("");
  }

  /**
   * HtmlRemoveObjectAttribute (v2): unlink the first attribute with exactly
   * that name and answer Ok, or answer ItemNotFound and change nothing.
   */
  method RemoveObjectAttribute(d: Dom, o: Ref, name: Option<string>) returns (code: Code)
    requires d.Valid() && (o.Some? ==> o.value < |d.objs|)
    modifies d
    ensures d.Valid() && d.kids == old(d.kids)
    ensures o.None? || name.None? ==> code == NullPointer && d.objs == old(d.objs)
    ensures o.Some? && name.Some? && Find(old(d.objs[o.value].attrs), name.value).None? ==>
      code == ItemNotFound && d.objs == old(d.objs)
    ensures o.Some? && name.Some? && Find(old(d.objs[o.value].attrs), name.value).Some? ==>
      code == Ok && d.objs == old(d.objs)[o.value := old(d.objs[o.value]).(attrs := Remove(old(d.objs[o.value].attrs), name.value))]
  {
    if o.None? || name.None? {
      return NullPointer;
    }
    var n := o.value;
    var attrs := d.objs[n].attrs;
    var i := 0;
    while i < |attrs|
      invariant 0 <= i <= |attrs|
      invariant forall j | 0 <= j < i :: attrs[j].name != name.value
    {
      if attrs[i].name == name.value {
        assert Find(attrs, name.value) == Some(i);
        LinkedDataChange(d.objs, d.kids, n, d.objs[n].(attrs := attrs[..i] + attrs[i + 1..]));
        d.objs := d.objs[n := d.objs[n].(attrs := attrs[..i] + attrs[i + 1..])];
        return Ok;
      }
      i := i + 1;
    }
    return ItemNotFound;
  }

  /** The child kinds whose text HtmlLibGetObjectText skips. */
  predicate Skipped(k: Kind)
  {
    k == Comment || k == Doctype || k == Script
  }

  /** What a text extraction wrote and the code it answers. */
  datatype TextResult = TextResult(out: string, code: Code)

  /**
   * The calls HtmlLibGetObjectText makes on a tree: strcmp on every
   * non-skipped child's name, recursing into those that are neither SINGLE
   * nor br/hr.  A NULL name there would be dereferenced.
   */
  predicate TextReady(t: Tree)
    decreases t, 0
  {
    forall i | 0 <= i < |t.children| :: ChildReady(t.children[i])
  }

  predicate ChildReady(c: Tree)
    decreases c, 1
  {
    Skipped(c.kind) ||
    (c.name.Some? && (c.name == Some("br") || c.name == Some("hr") || c.kind == Single || TextReady(c)))
  }

  /**
   * HtmlLibGetObjectText as a value: the innerText, then what each child
   * contributes, stopping at the first child whose code is not Ok.
   */
  function TextOf(t: Tree, e: Edition): (r: TextResult)
    decreases t, 1
  {
    var rest := ChildrenText(t.children, e);
    TextResult(t.innerText.GetOr("") + rest.out, rest.code)
  }

  function ChildrenText(cs: seq<Tree>, e: Edition): (r: TextResult)
    decreases cs, 0
  {
    if cs == [] then TextResult("", Ok)
    else
      var v := Visit(cs[0], e);
      if v.code != Ok then v else Then(v.out, ChildrenText(cs[1..], e))
  }

  /**
   * One child of the walk: nothing for a comment, doctype or script; "\n"
   * for a br, where putchar answers '\n', which is non-zero and so read as
   * OutOfMemory as written (corrected, only EOF would be a failure);
   * "\n\n" for an hr; otherwise the child's own text (not
   * for a SINGLE) and then its afterText.
   */
  function Visit(c: Tree, e: Edition): (r: TextResult)
    decreases c, 2
  {
    if Skipped(c.kind) then TextResult("", Ok)
    else if c.name == Some("br") then TextResult("\n", if e == AsWritten then OutOfMemory else Ok)
    else if c.name == Some("hr") then TextResult("\n\n", Ok)
    else if c.kind == Single then TextResult(c.afterText.GetOr(""), Ok)
    else
      var inner := TextOf(c, e);
      if inner.code != Ok then inner else TextResult(inner.out + c.afterText.GetOr(""), Ok)
  }

  /** Text written ahead of what a later part of the walk produces. */
  function Then(prefix: string, r: TextResult): (q: TextResult)
    ensures q.code == r.code && q.out == prefix + r.out
  {
    TextResult(prefix + r.out, r.code)
  }

  /** A tree reaches a br: some child the walk visits is a br, or holds one the walk reaches. */
  predicate HasBr(t: Tree)
    decreases t, 0
  {
    exists i | 0 <= i < |t.children| :: BrAt(t.children[i])
  }

  predicate BrAt(c: Tree)
    decreases c, 1
  {
    !Skipped(c.kind) &&
    (c.name == Some("br") || (c.name != Some("hr") && c.kind != Single && HasBr(c)))
  }

  /** The extraction answers OutOfMemory exactly when the walk reaches a br, and Ok otherwise. */
  lemma {:induction false} TextCode(t: Tree)
    ensures TextOf(t, AsWritten).code == (if HasBr(t) then OutOfMemory else Ok)
    decreases t, 1
  {
    ChildrenCode(t.children);
  }

  lemma {:induction false} ChildrenCode(cs: seq<Tree>)
    ensures ChildrenText(cs, AsWritten).code == (if exists i | 0 <= i < |cs| :: BrAt(cs[i]) then OutOfMemory else Ok)
    decreases cs, 0
  {
    if cs != [] {
      var c := cs[0];
      ChildrenCode(cs[1..]);
      assert (exists i | 0 <= i < |cs| :: BrAt(cs[i])) <==>
        BrAt(c) || exists i | 0 <= i < |cs[1..]| :: BrAt(cs[1..][i]) by {
        forall i | 0 < i < |cs| ensures cs[i] == cs[1..][i - 1] { }
      }
      if !Skipped(c.kind) && c.name != Some("br") && c.name != Some("hr") && c.kind != Single {
        TextCode(c);
      }
    }
  }

  /** Corrected, the putchar for a br is not taken for a failure, and the extraction answers Ok for every tree. */
  lemma {:induction false} TextCodeIntended(t: Tree)
    ensures TextOf(t, Intended).code == Ok
    decreases t, 1
  {
    ChildrenCodeIntended(t.children);
  }

  lemma {:induction false} ChildrenCodeIntended(cs: seq<Tree>)
    ensures ChildrenText(cs, Intended).code == Ok
    decreases cs, 0
  {
    if cs != [] {
      var c := cs[0];
      if !Skipped(c.kind) && c.name != Some("br") && c.name != Some("hr") && c.kind != Single {
        TextCodeIntended(c);
      }
      ChildrenCodeIntended(cs[1..]);
    }
  }

  /** A br stops the text as written: `<br><p>x</p>` gives "\n" and OutOfMemory, corrected "\nx" and Ok. */
  lemma BrStopsText()
    ensures var t := Tree(Document, None, None, None, [], [Document.Blank(Single, Some("br")), Document.Blank(Tag, Some("p")).(innerText := Some("x"))]);
      TextOf(t, AsWritten) == TextResult("\n", OutOfMemory) && TextOf(t, Intended) == TextResult("\nx", Ok)
  {
    var br, p := Document.Blank(Single, Some("br")), Document.Blank(Tag, Some("p")).(innerText := Some("x"));
    var t := Tree(Document, None, None, None, [], [br, p]);
    assert [br, p][1..] == [p] && [p][1..] == [];
    assert TextOf(p, Intended) == TextResult("x", Ok);
    assert ChildrenText([p], Intended) == TextResult("x", Ok);
    assert ChildrenText([br, p], Intended) == TextResult("\nx", Ok);
    assert ChildrenText([br, p], AsWritten) == TextResult("\n", OutOfMemory);
    assert "" + "\n" == "\n" && "" + "\nx" == "\nx";
  }

  /** A comment, doctype or script child adds nothing, wherever it is inserted. */
  lemma {:induction false} SkippedChildInvisible(cs: seq<Tree>, i: nat, x: Tree, e: Edition)
    requires i <= |cs| && Skipped(x.kind)
    ensures ChildrenText(cs[..i] + [x] + cs[i..], e) == ChildrenText(cs, e)
  {
    if i == 0 {
      assert (cs[..0] + [x] + cs[0..])[1..] == cs;
    } else {
      var l := cs[..i] + [x] + cs[i..];
      assert l[0] == cs[0];
      assert l[1..] == cs[1..][..i - 1] + [x] + cs[1..][i - 1..];
      SkippedChildInvisible(cs[1..], i - 1, x, e);
    }
  }

  /** Inserting a comment under a node leaves its text as it was. */
  lemma CommentChildInvisible(t: Tree, i: nat, text: Option<string>, e: Edition)
    requires i <= |t.children|
    ensures TextOf(t.(children := t.children[..i] + [Tree(Comment, None, text, None, [], [])] + t.children[i..]), e) == TextOf(t, e)
  {
    SkippedChildInvisible(t.children, i, Tree(Comment, None, text, None, [], []), e);
  }

  /** The walk over a concatenation: the first part's text, then the second's, unless the first part stopped. */
  lemma {:induction false} ChildrenTextAppend(a: seq<Tree>, b: seq<Tree>, e: Edition)
    ensures ChildrenText(a, e).code != Ok ==> ChildrenText(a + b, e) == ChildrenText(a, e)
    ensures ChildrenText(a, e).code == Ok ==> ChildrenText(a + b, e) == Then(ChildrenText(a, e).out, ChildrenText(b, e))
  {
    if a != [] {
      assert (a + b)[0] == a[0];
      assert (a + b)[1..] == a[1..] + b;
      ChildrenTextAppend(a[1..], b, e);
    } else {
      assert a + b == b;
    }
  }

  /** One step of the child walk. */
  lemma ChildStep(cs: seq<Tree>, i: nat, e: Edition)
    requires i < |cs|
    ensures Visit(cs[i], e).code != Ok ==> ChildrenText(cs[i..], e) == Visit(cs[i], e)
    ensures Visit(cs[i], e).code == Ok ==> ChildrenText(cs[i..], e) == Then(Visit(cs[i], e).out, ChildrenText(cs[i + 1..], e))
    ensures |Visit(cs[i], e).out| <= |ChildrenText(cs[i..], e).out|
  {
    assert cs[i..][0] == cs[i] && cs[i..][1..] == cs[i + 1..];
  }

  /**
   * HtmlLibGetObjectText: write the innerText, then walk the children,
   * recursing into each child that contributes its own text.
   */
  method LibGetObjectText(t: Tree, s: StreamString) returns (code: Code)
    requires s.Valid() && TextReady(t) && s.length + |TextOf(t, AsWritten).out| <= LONG_MAX
    modifies s, s.buffer
    ensures s.Valid() && s.position == old(s.position)
    ensures s.Contents() == old(s.Contents()) + TextOf(t, AsWritten).out
    ensures code == TextOf(t, AsWritten).code
    ensures s.buffer == old(s.buffer) || fresh(s.buffer)
    decreases t, 1
  {
    if t.innerText.Some? {
      var len := |t.innerText.value|;
      var _ := s.Write(t.innerText.value, 1, len);
    }
    var cs := t.children;
    var i := 0;
    while i < |cs|
      invariant 0 <= i <= |cs|
      invariant s.Valid() && s.position == old(s.position)
      invariant s.buffer == old(s.buffer) || fresh(s.buffer)
      invariant s.Contents() + ChildrenText(cs[i..], AsWritten).out == old(s.Contents()) + TextOf(t, AsWritten).out
      invariant ChildrenText(cs[i..], AsWritten).code == TextOf(t, AsWritten).code
    {
      ChildStep(cs, i, AsWritten);
      ghost var before := s.Contents();
      var r := VisitChild(cs[i], s);
      if r != Ok {
        return r;
      }
      assert s.Contents() == before + Visit(cs[i], AsWritten).out;
      ConcatAssoc(before, Visit(cs[i], AsWritten).out, ChildrenText(cs[i + 1..], AsWritten).out);
      i := i + 1;
    }
    assert cs[i..] == [];
    return Ok;
  }

  /** The loop body of HtmlLibGetObjectText for one child. */
  method VisitChild(c: Tree, s: StreamString) returns (code: Code)
    requires s.Valid() && ChildReady(c) && s.length + |Visit(c, AsWritten).out| <= LONG_MAX
    modifies s, s.buffer
    ensures s.Valid() && s.position == old(s.position)
    ensures s.Contents() == old(s.Contents()) + Visit(c, AsWritten).out
    ensures code == Visit(c, AsWritten).code
    ensures s.buffer == old(s.buffer) || fresh(s.buffer)
    decreases c, 2
  {
    if Skipped(c.kind) {
      return Ok;
    }
    if c.name.value == "br" {
      // putchar answers the character written, which the test reads as a failure
      var _ := s.Putchar(10);
      return OutOfMemory;
    }
    if c.name.value == "hr" {
      var _ := s.Write("\n\n", 2, 1);
      return Ok;
    }
    if c.kind != Single {
      code := LibGetObjectText(c, s);
      if code != Ok {
        return code;
      }
    }
    if c.afterText.Some? {
      var len := |c.afterText.value|;
      var _ := s.Write(c.afterText.value, 1, len);
    }
    return Ok;
  }

  /**
   * HtmlGetObjectText: NullPointer for a NULL object or stream; only a
   * DOCUMENT or a TAG has text to write, any other kind answers Ok at once.
   * A string stream always has its write callback, so the writability test
   * passes.
   */
  method GetObjectText(t: Option<Tree>, s: Option<StreamString>) returns (code: Code)
    requires s.Some? ==> s.value.Valid()
    requires t.Some? && s.Some? && (t.value.kind == Document || t.value.kind == Tag) ==>
      TextReady(t.value) && s.value.length + |TextOf(t.value, AsWritten).out| <= LONG_MAX
    modifies if s.Some? then {s.value, s.value.buffer} else {}
    ensures t.None? || s.None? ==> code == NullPointer
    ensures s.Some? ==> s.value.Valid() && s.value.position == old(s.value.position)
    ensures t.Some? && s.Some? && t.value.kind != Document && t.value.kind != Tag ==>
      code == Ok && s.value.Contents() == old(s.value.Contents())
    ensures t.Some? && s.Some? && (t.value.kind == Document || t.value.kind == Tag) ==>
      code == TextOf(t.value, AsWritten).code && s.value.Contents() == old(s.value.Contents()) + TextOf(t.value, AsWritten).out
  {
    if t.None? || s.None? {
      return NullPointer;
    }
    if t.value.kind != Document && t.value.kind != Tag {
      return Ok;
    }
    code := LibGetObjectText(t.value, s.value);
  }

  /**
   * The gates of the root header's HtmlGetObjectTextEx once the object and
   * the stream are non-NULL: Some(code) when it returns before writing,
   * None when it goes on to HtmlLibGetObjectText.  As written the
   * writability test is the wrong way round (the error is returned when
   * HtmlIsStreamWritable holds); Intended is the test the message describes.
   */
  function TextExGate(kind: Kind, writable: bool, e: Edition): (r: Option<Code>)
  {
    if kind != Document && kind != Tag then Some(Ok)
    else if (if e == AsWritten then writable else !writable) then Some(StreamNotWriteable)
    else None
  }

  /** As written, a writable stream is refused and an unwritable one is written to. */
  lemma TextExRefusesWritable(kind: Kind)
    requires kind == Document || kind == Tag
    ensures TextExGate(kind, true, AsWritten) == Some(StreamNotWriteable)
    ensures TextExGate(kind, false, AsWritten).None?
  {
  }

  /** Corrected, the text is written exactly when the stream can be written, and other kinds answer Ok. */
  lemma TextExIntendedWrites(kind: Kind, writable: bool)
    ensures TextExGate(kind, writable, Intended).None? <==> (kind == Document || kind == Tag) && writable
    ensures TextExGate(kind, writable, Intended) == Some(StreamNotWriteable) <==> (kind == Document || kind == Tag) && !writable
    ensures kind != Document && kind != Tag ==> TextExGate(kind, writable, Intended) == Some(Ok)
  {
  }

  /**
   * HtmlGetObjectTextEx (the root header): NullPointer for a NULL object or
   * stream, then the gates, then the text.  A string stream has both its
   * putchar and its write callbacks, so it is writable: as written a
   * DOCUMENT or a TAG is refused with StreamNotWriteable and nothing is
   * written.
   */
  method GetObjectTextEx(t: Option<Tree>, s: Option<StreamString>, e: Edition) returns (code: Code)
    requires s.Some? ==> s.value.Valid()
    requires t.Some? && s.Some? && TextExGate(t.value.kind, true, e).None? ==>
      TextReady(t.value) && s.value.length + |TextOf(t.value, AsWritten).out| <= LONG_MAX
    modifies if s.Some? then {s.value, s.value.buffer} else {}
    ensures t.None? || s.None? ==> code == NullPointer
    ensures s.Some? ==> s.value.Valid() && s.value.position == old(s.value.position)
    ensures t.Some? && s.Some? && TextExGate(t.value.kind, true, e).Some? ==>
      code == TextExGate(t.value.kind, true, e).value && s.value.Contents() == old(s.value.Contents())
    ensures t.Some? && s.Some? && TextExGate(t.value.kind, true, e).None? ==>
      code == TextOf(t.value, AsWritten).code && s.value.Contents() == old(s.value.Contents()) + TextOf(t.value, AsWritten).out
  {
    if t.None? || s.None? {
      return NullPointer;
    }
    var gate := TextExGate(t.value.kind, true, e);
    if gate.Some? {
      return gate.value;
    }
    code := LibGetObjectText(t.value, s.value);
  }
}

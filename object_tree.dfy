/**
 * The v2 object tree of the root header: objects linked to their parent,
 * their siblings and their first and last child.  Objects live in an arena
 * (a sequence indexed by object number); every link is an index.  The ghost
 * field `kids` is the child list the links spell out, and `Valid` says the
 * links and the lists agree.
 */
module ObjectTree {
  import opened Wrappers
  import opened Defines
  import opened Chars
  import opened Attributes

  /** A link: the index of an object, or NULL. */
  type Ref = Option<nat>

  datatype Obj = Obj(
    kind: Kind,
    name: Option<string>,
    innerText: Option<string>,
    afterText: Option<string>,
    attrs: seq<Attr>,
    parent: Ref,
    prev: Ref,
    next: Ref,
    firstChild: Ref,
    lastChild: Ref)

  /** A calloc'ed object of a kind: every link and text NULL. */
  function Blank(kind: Kind, name: Option<string>): Obj
  {
    Obj(kind, name, None, None, [], None, None, None, None, None)
  }

  /** Two objects hold the same data (everything but the tree links). */
  predicate SameData(a: Obj, b: Obj)
  {
    a.kind == b.kind && a.name == b.name && a.innerText == b.innerText
    && a.afterText == b.afterText && a.attrs == b.attrs
  }

  function Head(s: seq<nat>): Ref
  {
    if s == [] then None else Some(s[0])
  }

  function Last(s: seq<nat>): Ref
  {
    if s == [] then None else Some(s[|s| - 1])
  }

  /** The link to the element before position j. */
  function Before(s: seq<nat>, j: nat): Ref
    requires j < |s|
  {
    if j == 0 then None else Some(s[j - 1])
  }

  /** The link to the element after position j. */
  function After(s: seq<nat>, j: nat): Ref
    requires j < |s|
  {
    if j + 1 == |s| then None else Some(s[j + 1])
  }

  predicate Distinct(s: seq<nat>)
  {
    forall i, j | 0 <= i < j < |s| :: s[i] != s[j]
  }

  /** p's first/last links and its children's parent/prev/next links spell out the list L. */
  ghost predicate ListLinked(objs: seq<Obj>, p: nat, L: seq<nat>)
    requires p < |objs|
  {
    objs[p].firstChild == Head(L) && objs[p].lastChild == Last(L) && Distinct(L)
    && (forall j | 0 <= j < |L| :: L[j] < |objs|)
    && forall j {:trigger objs[L[j]]} | 0 <= j < |L| ::
         L[j] < |objs| && objs[L[j]].parent == Some(p)
         && objs[L[j]].prev == Before(L, j) && objs[L[j]].next == After(L, j)
  }

  /** Every object's links agree with the child lists, and whoever has a parent is in its list. */
  ghost predicate Linked(objs: seq<Obj>, kids: seq<seq<nat>>)
  {
    |kids| == |objs|
    && (forall p | 0 <= p < |objs| :: ListLinked(objs, p, kids[p]))
    && (forall n | 0 <= n < |objs| :: Listed(objs, kids, n))
  }

  /** An object with a parent is in range of the arena and in that parent's list. */
  ghost predicate Listed(objs: seq<Obj>, kids: seq<seq<nat>>, n: nat)
    requires n < |objs| && |kids| == |objs|
  {
    objs[n].parent.Some? ==> objs[n].parent.value < |objs| && n in kids[objs[n].parent.value]
  }

  /** The first position of x in s. */
  function IndexOf(s: seq<nat>, x: nat): (r: nat)
    requires x in s
    ensures r < |s| && s[r] == x
    ensures forall j | 0 <= j < r :: s[j] != x
  {
    if s[0] == x then 0 else 1 + IndexOf(s[1..], x)
  }

  /** s without x. */
  function Without(s: seq<nat>, x: nat): (r: seq<nat>)
    ensures forall y :: y in r <==> y in s && y != x
    ensures |r| <= |s|
  {
    if s == [] then [] else if s[0] == x then Without(s[1..], x) else [s[0]] + Without(s[1..], x)
  }

  function InsertAt(s: seq<nat>, i: nat, x: nat): (r: seq<nat>)
    requires i <= |s|
    ensures |r| == |s| + 1 && r[i] == x
    ensures forall j | 0 <= j < i :: r[j] == s[j]
    ensures forall j | i < j <= |s| :: r[j] == s[j - 1]
  {
    s[..i] + [x] + s[i..]
  }

  /** In a list without repeats, dropping x is cutting out its one position. */
  lemma {:induction false} WithoutDistinct(s: seq<nat>, i: nat)
    requires Distinct(s) && i < |s|
    ensures Without(s, s[i]) == s[..i] + s[i + 1..]
  {
    if i == 0 {
      WithoutAbsent(s[1..], s[0]);
      assert s[..0] + s[1..] == s[1..];
    } else {
      assert Distinct(s[1..]);
      WithoutDistinct(s[1..], i - 1);
      assert s[1..][i - 1] == s[i];
      assert [s[0]] + (s[1..][..i - 1] + s[1..][i..]) == s[..i] + s[i + 1..];
    }
  }

  lemma {:induction false} WithoutAbsent(s: seq<nat>, x: nat)
    requires x !in s
    ensures Without(s, x) == s
  {
    if s != [] {
      WithoutAbsent(s[1..], x);
    }
  }

  /** HtmlLibClearObjectRelationship on the child lists: c leaves its parent's list. */
  function Detach(kids: seq<seq<nat>>, parent: Ref, c: nat): (r: seq<seq<nat>>)
    ensures |r| == |kids|
  {
    if parent.Some? && parent.value < |kids| then kids[parent.value := Without(kids[parent.value], c)] else kids
  }

  /** The list after putting x just before t, or at the front when t is NULL. */
  function InsertedBefore(s: seq<nat>, t: Ref, x: nat): (r: seq<nat>)
  {
    if t.Some? && t.value in s then InsertAt(s, IndexOf(s, t.value), x) else [x] + s
  }

  /** The list after putting x just after t, or at the back when t is NULL. */
  function InsertedAfter(s: seq<nat>, t: Ref, x: nat): (r: seq<nat>)
  {
    if t.Some? && t.value in s then InsertAt(s, IndexOf(s, t.value) + 1, x) else s + [x]
  }

  /** Inserting x and then dropping it gives the list back. */
  lemma {:induction false} WithoutInsertAt(s: seq<nat>, i: nat, x: nat)
    requires i <= |s| && x !in s
    ensures Without(InsertAt(s, i, x), x) == s
  {
    if i == 0 {
      assert InsertAt(s, 0, x) == [x] + s;
      assert ([x] + s)[1..] == s;
      WithoutAbsent(s, x);
    } else {
      assert InsertAt(s, i, x)[1..] == InsertAt(s[1..], i - 1, x);
      WithoutInsertAt(s[1..], i - 1, x);
      assert s == [s[0]] + s[1..];
    }
  }

  /**
   * x lands immediately before the target, or at the head when there is no
   * target in the list; taking x out again leaves the old order.
   */
  lemma InsertedBeforeOrder(s: seq<nat>, t: Ref, x: nat)
    requires x !in s
    ensures var r := InsertedBefore(s, t, x);
      |r| == |s| + 1 && Without(r, x) == s
      && (t.Some? && t.value in s ==> r[IndexOf(s, t.value)] == x && r[IndexOf(s, t.value) + 1] == t.value)
      && (t.None? || t.value !in s ==> r[0] == x)
  {
    if t.Some? && t.value in s {
      WithoutInsertAt(s, IndexOf(s, t.value), x);
    } else {
      WithoutInsertAt(s, 0, x);
      assert InsertAt(s, 0, x) == [x] + s;
    }
  }

  /**
   * x lands immediately after the target, or at the tail when there is no
   * target in the list; taking x out again leaves the old order.
   */
  lemma InsertedAfterOrder(s: seq<nat>, t: Ref, x: nat)
    requires x !in s
    ensures var r := InsertedAfter(s, t, x);
      |r| == |s| + 1 && Without(r, x) == s
      && (t.Some? && t.value in s ==> r[IndexOf(s, t.value)] == t.value && r[IndexOf(s, t.value) + 1] == x)
      && (t.None? || t.value !in s ==> r[|s|] == x)
  {
    if t.Some? && t.value in s {
      WithoutInsertAt(s, IndexOf(s, t.value) + 1, x);
    } else {
      WithoutInsertAt(s, |s|, x);
      assert InsertAt(s, |s|, x) == s + [x];
    }
  }

  /** Child lists of a linked arena: each without repeats, no object in two of them. */
  ghost predicate Forest(kids: seq<seq<nat>>)
  {
    (forall p | 0 <= p < |kids| :: Distinct(kids[p]))
    && (forall p, q, x | 0 <= p < |kids| && 0 <= q < |kids| && x in kids[p] && x in kids[q] :: p == q)
  }

  lemma LinkedForest(objs: seq<Obj>, kids: seq<seq<nat>>)
    requires Linked(objs, kids)
    ensures Forest(kids)
  {
    forall p, q, x | 0 <= p < |kids| && 0 <= q < |kids| && x in kids[p] && x in kids[q]
      ensures p == q
    {
      assert ListLinked(objs, p, kids[p]) && ListLinked(objs, q, kids[q]);
      var i :| 0 <= i < |kids[p]| && kids[p][i] == x;
      var j :| 0 <= j < |kids[q]| && kids[q][j] == x;
      assert objs[kids[p][i]].parent == Some(p) && objs[kids[q][j]].parent == Some(q);
    }
  }

  /** Whatever list c was in, after detaching it and appending it to p it is the last of p's children and in no other list. */
  lemma AddChildPlacesOnce(kids: seq<seq<nat>>, parent: Ref, p: nat, c: nat)
    requires Forest(kids) && p < |kids|
    requires parent.Some? ==> parent.value < |kids|
    requires forall q | 0 <= q < |kids| && c in kids[q] :: parent == Some(q)
    ensures var d := Detach(kids, parent, c); var r := d[p := d[p] + [c]];
      Forest(r) && Last(r[p]) == Some(c) && r[p][..|r[p]| - 1] == (if parent == Some(p) then Without(kids[p], c) else kids[p])
      && forall q | 0 <= q < |r| && q != p :: c !in r[q] && (forall y :: y in r[q] <==> y in kids[q] && y != c)
  {
    var d := Detach(kids, parent, c);
    var r := d[p := d[p] + [c]];
    forall q | 0 <= q < |r|
      ensures Distinct(r[q])
    {
      if q == p {
        if parent == Some(p) { WithoutKeepsDistinct(kids[p], c); AppendFresh(d[p], c); }
        else { assert c !in kids[p]; AppendFresh(d[p], c); }
      } else if parent == Some(q) {
        WithoutKeepsDistinct(kids[q], c);
      }
    }
    assert r[p][..|r[p]| - 1] == d[p];
  }

  lemma AppendFresh(s: seq<nat>, x: nat)
    requires Distinct(s) && x !in s
    ensures Distinct(s + [x])
  {
    var r := s + [x];
    forall i, j | 0 <= i < j < |r|
      ensures r[i] != r[j]
    {
      if j == |s| { assert r[i] == s[i]; }
    }
  }

  lemma {:induction false} WithoutKeepsDistinct(s: seq<nat>, x: nat)
    requires Distinct(s)
    ensures Distinct(Without(s, x))
  {
    if s != [] {
      assert Distinct(s[1..]);
      WithoutKeepsDistinct(s[1..], x);
      if s[0] != x {
        var w := Without(s[1..], x);
        var r := [s[0]] + w;
        assert s[0] !in w;
        forall i, j | 0 <= i < j < |r|
          ensures r[i] != r[j]
        {
          if i == 0 { assert r[j] == w[j - 1]; assert w[j - 1] in w; }
          else { assert r[i] == w[i - 1] && r[j] == w[j - 1]; }
        }
      }
    }
  }

  /** The tree links of an object: what ListLinked reads of it as a child. */
  predicate SameLinks(a: Obj, b: Obj)
  {
    a.parent == b.parent && a.prev == b.prev && a.next == b.next
  }

  /** A list stays linked when neither its owner's ends nor its members' links change. */
  lemma ListLinkedFrame(a: seq<Obj>, b: seq<Obj>, q: nat, L: seq<nat>)
    requires q < |a| == |b| && ListLinked(a, q, L)
    requires a[q].firstChild == b[q].firstChild && a[q].lastChild == b[q].lastChild
    requires forall j | 0 <= j < |L| :: SameLinks(a[L[j]], b[L[j]])
    ensures ListLinked(b, q, L)
  {
  }

  /** s with position i cut out, element by element. */
  function Cut(s: seq<nat>, i: nat): (r: seq<nat>)
    requires i < |s|
    ensures |r| == |s| - 1
    ensures forall j | 0 <= j < i :: r[j] == s[j]
    ensures forall j {:trigger r[j]} | i <= j < |r| :: r[j] == s[j + 1]
  {
    s[..i] + s[i + 1..]
  }

  /** Cutting position i out of a linked list, with the neighbours' links rewired as the unlink does. */
  lemma UnlinkList(a: seq<Obj>, b: seq<Obj>, p: nat, L: seq<nat>, i: nat)
    requires p < |a| == |b| && ListLinked(a, p, L) && i < |L|
    requires b[p].firstChild == (if i == 0 then After(L, i) else a[p].firstChild)
    requires b[p].lastChild == (if i + 1 == |L| then Before(L, i) else a[p].lastChild)
    requires forall j {:trigger b[L[j]]} | 0 <= j < |L| && j != i ::
      b[L[j]].parent == a[L[j]].parent
      && b[L[j]].prev == (if j == i + 1 then Before(L, i) else a[L[j]].prev)
      && b[L[j]].next == (if j + 1 == i then After(L, i) else a[L[j]].next)
    ensures ListLinked(b, p, Cut(L, i))
  {
    var L' := Cut(L, i);
    forall j | 0 <= j < |L'|
      ensures L'[j] < |b| && b[L'[j]].parent == Some(p)
        && b[L'[j]].prev == Before(L', j) && b[L'[j]].next == After(L', j)
    {
      var k := if j < i then j else j + 1;
      assert L'[j] == L[k] && k != i;
      assert a[L[k]].parent == Some(p) && a[L[k]].prev == Before(L, k) && a[L[k]].next == After(L, k);
    }
    forall x, y | 0 <= x < y < |L'|
      ensures L'[x] != L'[y]
    {
      var x' := if x < i then x else x + 1;
      var y' := if y < i then y else y + 1;
      assert L'[x] == L[x'] && L'[y] == L[y'];
    }
    assert b[p].firstChild == Head(L') by {
      if i == 0 { if |L| > 1 { assert L'[0] == L[1]; } } else { assert L'[0] == L[0]; }
    }
    assert b[p].lastChild == Last(L') by {
      if i + 1 == |L| { if i > 0 { assert L'[i - 1] == L[i - 1]; } }
      else { assert L'[|L'| - 1] == L[|L| - 1]; }
    }
  }

  /** Entry n of the arena after HtmlLibClearObjectRelationship unlinks c from parent p. */
  function UnlinkEntry(objs: seq<Obj>, p: nat, c: nat, n: nat): (r: Obj)
    requires c < |objs| && n < |objs|
    ensures SameData(r, objs[n])
  {
    var o := objs[c];
    var x := objs[n];
    x.(parent := if n == c then None else x.parent,
       prev := if o.next == Some(n) then o.prev else x.prev,
       next := if o.prev == Some(n) then o.next else x.next,
       firstChild := if n == p && o.prev.None? then o.next else x.firstChild,
       lastChild := if n == p && o.next.None? then o.prev else x.lastChild)
  }

  /** The arena after HtmlLibClearObjectRelationship unlinks c from parent p. */
  function Unlinked(objs: seq<Obj>, p: nat, c: nat): (r: seq<Obj>)
    requires c < |objs|
    ensures |r| == |objs| && forall n | 0 <= n < |objs| :: r[n] == UnlinkEntry(objs, p, c, n)
  {
    seq(|objs|, n requires 0 <= n < |objs| => UnlinkEntry(objs, p, c, n))
  }

  /** The three writes of HtmlLibClearObjectRelationship, in the source's order. */
  function UnlinkWrites(objs: seq<Obj>, p: nat, c: nat): (r: seq<Obj>)
    requires c < |objs| && p < |objs|
    requires objs[c].prev.Some? ==> objs[c].prev.value < |objs|
    requires objs[c].next.Some? ==> objs[c].next.value < |objs|
    ensures |r| == |objs|
  {
    var o := objs[c];
    var s1 := if o.next.Some? then objs[o.next.value := objs[o.next.value].(prev := o.prev)]
              else objs[p := objs[p].(lastChild := o.prev)];
    var s2 := if o.prev.Some? then s1[o.prev.value := s1[o.prev.value].(next := o.next)]
              else s1[p := s1[p].(firstChild := o.next)];
    s2[c := s2[c].(parent := None)]
  }

  /** When c's neighbours are distinct from it and from each other, the writes land entry by entry. */
  lemma UnlinkWritesEntries(objs: seq<Obj>, p: nat, c: nat)
    requires c < |objs| && p < |objs|
    requires objs[c].prev.Some? ==> objs[c].prev.value < |objs|
    requires objs[c].next.Some? ==> objs[c].next.value < |objs|
    requires objs[c].next != Some(c) && objs[c].prev != Some(c) && (objs[c].prev.Some? ==> objs[c].prev != objs[c].next)
    ensures UnlinkWrites(objs, p, c) == Unlinked(objs, p, c)
  {
    var r := UnlinkWrites(objs, p, c);
    forall n | 0 <= n < |objs| ensures r[n] == Unlinked(objs, p, c)[n] { }
  }

  /** In a linked arena an object's parent is in range and the object sits at one position of its parent's list. */
  lemma ChildPosition(objs: seq<Obj>, kids: seq<seq<nat>>, c: nat) returns (i: nat)
    requires Linked(objs, kids) && c < |objs| && objs[c].parent.Some?
    ensures objs[c].parent.value < |objs| && i < |kids[objs[c].parent.value]| && kids[objs[c].parent.value][i] == c
    ensures objs[c].prev == Before(kids[objs[c].parent.value], i) && objs[c].next == After(kids[objs[c].parent.value], i)
    ensures objs[c].next != Some(c) && objs[c].prev != Some(c) && (objs[c].prev.Some? ==> objs[c].prev != objs[c].next)
    ensures Distinct(kids[objs[c].parent.value])
  {
    var p := objs[c].parent.value;
    assert Listed(objs, kids, c) && ListLinked(objs, p, kids[p]);
    i := IndexOf(kids[p], c);
    assert objs[kids[p][i]].parent == Some(p);
  }

  /** Lists other than p's stay linked when only p's ends and the links of p's children change. */
  lemma OtherListsLinked(a: seq<Obj>, b: seq<Obj>, kids: seq<seq<nat>>, p: nat)
    requires |a| == |b| == |kids| && p < |a|
    requires forall q | 0 <= q < |a| :: ListLinked(a, q, kids[q])
    requires forall q | 0 <= q < |a| && q != p :: a[q].firstChild == b[q].firstChild && a[q].lastChild == b[q].lastChild
    requires forall n | 0 <= n < |a| && a[n].parent.Some? && a[n].parent != Some(p) :: SameLinks(a[n], b[n])
    ensures forall q | 0 <= q < |a| && q != p :: ListLinked(b, q, kids[q])
  {
    forall q | 0 <= q < |a| && q != p
      ensures ListLinked(b, q, kids[q])
    {
      assert ListLinked(a, q, kids[q]);
      forall j | 0 <= j < |kids[q]|
        ensures SameLinks(a[kids[q][j]], b[kids[q][j]])
      {
        assert a[kids[q][j]].parent == Some(q);
      }
      ListLinkedFrame(a, b, q, kids[q]);
    }
  }

  /** Detaching the child at position i of p's list without repeats cuts out that position. */
  lemma DetachCut(kids: seq<seq<nat>>, p: nat, c: nat, i: nat)
    requires p < |kids| && Distinct(kids[p]) && i < |kids[p]| && kids[p][i] == c
    ensures Detach(kids, Some(p), c) == kids[p := Cut(kids[p], i)]
  {
    WithoutDistinct(kids[p], i);
  }

  /** Unlinking does not touch the links of the children of other parents. */
  lemma UnlinkedOthers(objs: seq<Obj>, p: nat, L: seq<nat>, c: nat, i: nat)
    requires p < |objs| && ListLinked(objs, p, L) && i < |L| && L[i] == c
    requires objs[c].prev == Before(L, i) && objs[c].next == After(L, i)
    ensures forall n | 0 <= n < |objs| && objs[n].parent != Some(p) :: SameLinks(objs[n], Unlinked(objs, p, c)[n])
    ensures forall q | 0 <= q < |objs| && q != p ::
      (objs[q].firstChild == Unlinked(objs, p, c)[q].firstChild && objs[q].lastChild == Unlinked(objs, p, c)[q].lastChild)
  {
    assert i > 0 ==> objs[L[i - 1]].parent == Some(p);
    assert i + 1 < |L| ==> objs[L[i + 1]].parent == Some(p);
  }

  /** Unlinking rewires exactly the neighbours of c in p's list. */
  lemma UnlinkedNeighbours(objs: seq<Obj>, p: nat, L: seq<nat>, c: nat, i: nat)
    requires p < |objs| && ListLinked(objs, p, L) && i < |L| && L[i] == c
    requires objs[c].prev == Before(L, i) && objs[c].next == After(L, i)
    ensures ListLinked(Unlinked(objs, p, c), p, Cut(L, i))
  {
    var b := Unlinked(objs, p, c);
    forall j | 0 <= j < |L| && j != i
      ensures b[L[j]].parent == objs[L[j]].parent
        && b[L[j]].prev == (if j == i + 1 then Before(L, i) else objs[L[j]].prev)
        && b[L[j]].next == (if j + 1 == i then After(L, i) else objs[L[j]].next)
    {
      assert L[j] != c;
    }
    UnlinkList(objs, b, p, L, i);
  }

  /** Unlinking a child keeps the arena linked; p's list loses exactly that child. */
  lemma UnlinkedLinked(objs: seq<Obj>, kids: seq<seq<nat>>, p: nat, c: nat, i: nat)
    requires Linked(objs, kids) && c < |objs| && objs[c].parent == Some(p) && p < |objs|
    requires i < |kids[p]| && kids[p][i] == c
    requires objs[c].prev == Before(kids[p], i) && objs[c].next == After(kids[p], i)
    ensures Linked(Unlinked(objs, p, c), kids[p := Cut(kids[p], i)])
  {
    var b := Unlinked(objs, p, c);
    var k := kids[p := Cut(kids[p], i)];
    UnlinkedListsLinked(objs, kids, p, c, i, b, k);
    UnlinkedAllListed(objs, kids, p, c, i, b, k);
  }

  /** After unlinking every parent's links spell its list, p's without c. */
  lemma UnlinkedListsLinked(objs: seq<Obj>, kids: seq<seq<nat>>, p: nat, c: nat, i: nat, b: seq<Obj>, k: seq<seq<nat>>)
    requires Linked(objs, kids) && c < |objs| && objs[c].parent == Some(p) && p < |objs|
    requires i < |kids[p]| && kids[p][i] == c
    requires objs[c].prev == Before(kids[p], i) && objs[c].next == After(kids[p], i)
    requires b == Unlinked(objs, p, c) && k == kids[p := Cut(kids[p], i)]
    ensures |k| == |b|
    ensures forall q | 0 <= q < |b| :: ListLinked(b, q, k[q])
  {
    var L := kids[p];
    assert ListLinked(objs, p, L);
    UnlinkedNeighbours(objs, p, L, c, i);
    UnlinkedOthers(objs, p, L, c, i);
    OtherListsLinked(objs, b, kids, p);
    forall q | 0 <= q < |b|
      ensures ListLinked(b, q, k[q])
    {
      if q != p { assert k[q] == kids[q]; }
    }
  }

  /** After unlinking every owned object is still in its owner's list. */
  lemma UnlinkedAllListed(objs: seq<Obj>, kids: seq<seq<nat>>, p: nat, c: nat, i: nat, b: seq<Obj>, k: seq<seq<nat>>)
    requires Linked(objs, kids) && c < |objs| && objs[c].parent == Some(p) && p < |objs|
    requires i < |kids[p]| && kids[p][i] == c
    requires objs[c].prev == Before(kids[p], i) && objs[c].next == After(kids[p], i)
    requires b == Unlinked(objs, p, c) && k == kids[p := Cut(kids[p], i)]
    ensures |k| == |b|
    ensures forall n | 0 <= n < |b| :: Listed(b, k, n)
  {
    var L := kids[p];
    forall n | 0 <= n < |b|
      ensures Listed(b, k, n)
    {
      assert b[n].parent == if n == c then None else objs[n].parent;
      if n != c && objs[n].parent.Some? {
        assert Listed(objs, kids, n);
        if objs[n].parent == Some(p) {
          CutKeeps(L, i, n);
        } else {
          assert k[objs[n].parent.value] == kids[objs[n].parent.value];
        }
      }
    }
  }

  /** Cutting position i keeps every other entry. */
  lemma CutKeeps(s: seq<nat>, i: nat, n: nat)
    requires i < |s| && n in s && n != s[i]
    ensures n in Cut(s, i)
  {
    var j :| 0 <= j < |s| && s[j] == n;
    assert Cut(s, i)[if j < i then j else j - 1] == n;
  }

  /** Putting a fresh x at position k of a linked list, with its neighbours linked to it. */
  lemma InsertList(a: seq<Obj>, b: seq<Obj>, p: nat, L: seq<nat>, k: nat, x: nat)
    requires p < |a| == |b| && x < |b| && ListLinked(a, p, L) && x !in L && k <= |L|
    requires b[p].firstChild == Head(InsertAt(L, k, x)) && b[p].lastChild == Last(InsertAt(L, k, x))
    requires b[x].parent == Some(p)
    requires b[x].prev == (if k == 0 then None else Some(L[k - 1]))
    requires b[x].next == (if k == |L| then None else Some(L[k]))
    requires forall j {:trigger b[L[j]]} | 0 <= j < |L| ::
      b[L[j]].parent == a[L[j]].parent
      && b[L[j]].prev == (if j == k then Some(x) else a[L[j]].prev)
      && b[L[j]].next == (if j + 1 == k then Some(x) else a[L[j]].next)
    ensures ListLinked(b, p, InsertAt(L, k, x))
  {
    var L' := InsertAt(L, k, x);
    forall j | 0 <= j < |L'|
      ensures L'[j] < |b| && b[L'[j]].parent == Some(p)
        && b[L'[j]].prev == Before(L', j) && b[L'[j]].next == After(L', j)
    {
      if j < k {
        assert L'[j] == L[j];
        assert a[L[j]].parent == Some(p) && a[L[j]].prev == Before(L, j) && a[L[j]].next == After(L, j);
      } else if j > k {
        assert L'[j] == L[j - 1];
        assert a[L[j - 1]].parent == Some(p) && a[L[j - 1]].prev == Before(L, j - 1) && a[L[j - 1]].next == After(L, j - 1);
      }
    }
    InsertAtDistinct(L, k, x);
  }

  lemma InsertAtDistinct(L: seq<nat>, k: nat, x: nat)
    requires Distinct(L) && x !in L && k <= |L|
    ensures Distinct(InsertAt(L, k, x))
  {
    var L' := InsertAt(L, k, x);
    forall i, j | 0 <= i < j < |L'|
      ensures L'[i] != L'[j]
    {
      if i != k && j != k {
        var i' := if i < k then i else i - 1;
        var j' := if j < k then j else j - 1;
        assert L'[i] == L[i'] && L'[j] == L[j'];
      } else if i == k {
        assert L'[j] == L[j - 1];
      } else {
        assert L'[i] == L[i];
      }
    }
  }

  /**
   * Entry n of the arena after x is spliced into p's list between pv and nx
   * (either may be NULL): x takes both links, pv and nx point at x, and p's
   * first or last link moves to x where x has no neighbour.
   */
  function SpliceEntry(objs: seq<Obj>, p: nat, x: nat, pv: Ref, nx: Ref, n: nat): (r: Obj)
    requires n < |objs|
    ensures SameData(r, objs[n])
  {
    var o := objs[n];
    o.(parent := if n == x then Some(p) else o.parent,
       prev := if n == x then pv else if nx == Some(n) then Some(x) else o.prev,
       next := if n == x then nx else if pv == Some(n) then Some(x) else o.next,
       firstChild := if n == p && pv.None? then Some(x) else o.firstChild,
       lastChild := if n == p && nx.None? then Some(x) else o.lastChild)
  }

  /** The arena after x is spliced into p's list between pv and nx. */
  function Spliced(objs: seq<Obj>, p: nat, x: nat, pv: Ref, nx: Ref): (r: seq<Obj>)
    ensures |r| == |objs| && forall n | 0 <= n < |objs| :: r[n] == SpliceEntry(objs, p, x, pv, nx, n)
  {
    seq(|objs|, n requires 0 <= n < |objs| => SpliceEntry(objs, p, x, pv, nx, n))
  }

  /** The neighbours of position k of L: the element before it and the element at it. */
  function PrevAt(L: seq<nat>, k: nat): Ref
    requires k <= |L|
  {
    if k == 0 then None else Some(L[k - 1])
  }

  function NextAt(L: seq<nat>, k: nat): Ref
    requires k <= |L|
  {
    if k == |L| then None else Some(L[k])
  }

  /** Splicing does not touch the links of the children of other parents, nor other parents' ends. */
  lemma SplicedOthers(objs: seq<Obj>, p: nat, L: seq<nat>, x: nat, k: nat)
    requires p < |objs| && x < |objs| && ListLinked(objs, p, L) && k <= |L| && objs[x].parent.None?
    ensures forall n | 0 <= n < |objs| && objs[n].parent.Some? && objs[n].parent != Some(p) ::
      SameLinks(objs[n], Spliced(objs, p, x, PrevAt(L, k), NextAt(L, k))[n])
    ensures forall q | 0 <= q < |objs| && q != p ::
      (objs[q].firstChild == Spliced(objs, p, x, PrevAt(L, k), NextAt(L, k))[q].firstChild
       && objs[q].lastChild == Spliced(objs, p, x, PrevAt(L, k), NextAt(L, k))[q].lastChild)
  {
    assert k > 0 ==> objs[L[k - 1]].parent == Some(p);
    assert k < |L| ==> objs[L[k]].parent == Some(p);
  }

  /** The ends of a list after an insertion at position k. */
  lemma InsertAtEnds(L: seq<nat>, k: nat, x: nat)
    requires k <= |L|
    ensures Head(InsertAt(L, k, x)) == if k == 0 then Some(x) else Head(L)
    ensures Last(InsertAt(L, k, x)) == if k == |L| then Some(x) else Last(L)
  {
    var L' := InsertAt(L, k, x);
    if k < |L| {
      assert |L'| - 1 == |L| && L'[|L|] == L[|L| - 1];
    }
  }

  /** Splicing at position k puts x at position k of p's list. */
  lemma SplicedNeighbours(objs: seq<Obj>, p: nat, L: seq<nat>, x: nat, k: nat)
    requires p < |objs| && x < |objs| && ListLinked(objs, p, L) && k <= |L| && objs[x].parent.None?
    ensures x !in L
    ensures ListLinked(Spliced(objs, p, x, PrevAt(L, k), NextAt(L, k)), p, InsertAt(L, k, x))
  {
    var b := Spliced(objs, p, x, PrevAt(L, k), NextAt(L, k));
    forall j | 0 <= j < |L|
      ensures b[L[j]].parent == objs[L[j]].parent
        && b[L[j]].prev == (if j == k then Some(x) else objs[L[j]].prev)
        && b[L[j]].next == (if j + 1 == k then Some(x) else objs[L[j]].next)
    {
      assert L[j] != x;
    }
    var L' := InsertAt(L, k, x);
    var e := SpliceEntry(objs, p, x, PrevAt(L, k), NextAt(L, k), p);
    assert b[p] == e;
    assert objs[p].firstChild == Head(L) && objs[p].lastChild == Last(L);
    InsertAtEnds(L, k, x);
    assert PrevAt(L, k).None? <==> k == 0;
    assert NextAt(L, k).None? <==> k == |L|;
    InsertList(objs, b, p, L, k, x);
  }

  /** Splicing a parentless x at position k of p's list keeps the arena linked. */
  lemma SplicedLinked(objs: seq<Obj>, kids: seq<seq<nat>>, p: nat, x: nat, k: nat)
    requires Linked(objs, kids) && p < |objs| && x < |objs| && objs[x].parent.None? && k <= |kids[p]|
    ensures x !in kids[p]
    ensures Linked(Spliced(objs, p, x, PrevAt(kids[p], k), NextAt(kids[p], k)), kids[p := InsertAt(kids[p], k, x)])
  {
    var b := Spliced(objs, p, x, PrevAt(kids[p], k), NextAt(kids[p], k));
    var kk := kids[p := InsertAt(kids[p], k, x)];
    SplicedListsLinked(objs, kids, p, x, k, b, kk);
    SplicedAllListed(objs, kids, p, x, k, b, kk);
  }

  /** After the splice every parent's links spell its list, p's with x in it. */
  lemma SplicedListsLinked(objs: seq<Obj>, kids: seq<seq<nat>>, p: nat, x: nat, k: nat, b: seq<Obj>, kk: seq<seq<nat>>)
    requires Linked(objs, kids) && p < |objs| && x < |objs| && objs[x].parent.None? && k <= |kids[p]|
    requires b == Spliced(objs, p, x, PrevAt(kids[p], k), NextAt(kids[p], k))
    requires kk == kids[p := InsertAt(kids[p], k, x)]
    ensures x !in kids[p] && |kk| == |b|
    ensures forall q | 0 <= q < |b| :: ListLinked(b, q, kk[q])
  {
    var L := kids[p];
    assert ListLinked(objs, p, L);
    SplicedNeighbours(objs, p, L, x, k);
    SplicedOthers(objs, p, L, x, k);
    OtherListsLinked(objs, b, kids, p);
    forall q | 0 <= q < |b|
      ensures ListLinked(b, q, kk[q])
    {
      if q != p { assert kk[q] == kids[q]; }
    }
  }

  /** After the splice every owned object is in its owner's list: x at position k of p's. */
  lemma SplicedAllListed(objs: seq<Obj>, kids: seq<seq<nat>>, p: nat, x: nat, k: nat, b: seq<Obj>, kk: seq<seq<nat>>)
    requires Linked(objs, kids) && p < |objs| && x < |objs| && objs[x].parent.None? && k <= |kids[p]|
    requires b == Spliced(objs, p, x, PrevAt(kids[p], k), NextAt(kids[p], k))
    requires kk == kids[p := InsertAt(kids[p], k, x)]
    ensures |kk| == |b|
    ensures forall n | 0 <= n < |b| :: Listed(b, kk, n)
  {
    var L := kids[p];
    forall n | 0 <= n < |b|
      ensures Listed(b, kk, n)
    {
      assert Listed(objs, kids, n);
      if n == x { assert kk[p][k] == x; }
      else if b[n].parent == Some(p) {
        var j :| 0 <= j < |L| && L[j] == n;
        assert kk[p][if j < k then j else j + 1] == n;
      }
    }
  }

  /** The writes of HtmlLibAddObjectChild, in the source's order. */
  function AppendWrites(objs: seq<Obj>, p: nat, c: nat): (r: seq<Obj>)
    requires p < |objs| && c < |objs|
    requires objs[p].lastChild.Some? ==> objs[p].lastChild.value < |objs|
    ensures |r| == |objs|
  {
    var last := objs[p].lastChild;
    var s1 := objs[c := objs[c].(parent := Some(p), prev := last, next := None)];
    var s2 := if last.Some? then s1[last.value := s1[last.value].(next := Some(c))] else s1;
    var s3 := if s2[p].firstChild.None? then s2[p := s2[p].(firstChild := Some(c))] else s2;
    s3[p := s3[p].(lastChild := Some(c))]
  }

  /** In a linked arena appending is splicing at the end of the list. */
  lemma AppendWritesSplice(objs: seq<Obj>, kids: seq<seq<nat>>, p: nat, c: nat)
    requires Linked(objs, kids) && p < |objs| && c < |objs| && objs[c].parent.None?
    ensures objs[p].lastChild.Some? ==> objs[p].lastChild.value < |objs|
    ensures AppendWrites(objs, p, c) == Spliced(objs, p, c, PrevAt(kids[p], |kids[p]|), NextAt(kids[p], |kids[p]|))
    ensures InsertAt(kids[p], |kids[p]|, c) == kids[p] + [c]
  {
    var L := kids[p];
    assert ListLinked(objs, p, L);
    assert L != [] ==> objs[L[|L| - 1]].parent == Some(p);
    var r := AppendWrites(objs, p, c);
    var t := Spliced(objs, p, c, PrevAt(L, |L|), NextAt(L, |L|));
    forall n | 0 <= n < |objs| ensures r[n] == t[n] { }
  }

  /** The writes of HtmlInsertObjectChildBefore once x is detached and the target t resolved. */
  function InsertBeforeWrites(objs: seq<Obj>, p: nat, t: Ref, x: nat): (r: seq<Obj>)
    requires p < |objs| && x < |objs|
    requires t.Some? ==> t.value < |objs| && (objs[t.value].prev.Some? ==> objs[t.value].prev.value < |objs|)
    ensures |r| == |objs|
  {
    if t.Some? then
      var tv := t.value;
      var s1 := objs[x := objs[x].(parent := Some(p), next := t)];
      var tp := s1[tv].prev;
      var s2 := if tp.Some? then s1[tp.value := s1[tp.value].(next := Some(x))] else s1[p := s1[p].(firstChild := Some(x))];
      var s3 := s2[x := s2[x].(prev := s2[tv].prev)];
      s3[tv := s3[tv].(prev := Some(x))]
    else
      var s1 := objs[x := objs[x].(parent := Some(p), next := None)];
      var s2 := s1[p := s1[p].(firstChild := Some(x))];
      var s3 := s2[p := s2[p].(lastChild := Some(x))];
      s3[x := s3[x].(prev := None)]
  }

  /** Where HtmlInsertObjectChildBefore puts x: at t's position, or at the front of an empty list. */
  function BeforePosition(L: seq<nat>, t: Ref): (k: nat)
    ensures k <= |L|
  {
    if t.Some? && t.value in L then IndexOf(L, t.value) else 0
  }

  /** Where HtmlInsertObjectChildAfter puts x: just after t, or at the back. */
  function AfterPosition(L: seq<nat>, t: Ref): (k: nat)
    ensures k <= |L|
  {
    if t.Some? && t.value in L then IndexOf(L, t.value) + 1 else |L|
  }

  /** In a linked arena inserting before a child t of p, or into an empty p, is splicing at t's position. */
  lemma InsertBeforeSplice(objs: seq<Obj>, kids: seq<seq<nat>>, p: nat, t: Ref, x: nat)
    requires Linked(objs, kids) && p < |objs| && x < |objs| && objs[x].parent.None?
    requires t.Some? ==> t.value < |objs| && objs[t.value].parent == Some(p)
    requires t.None? ==> objs[p].firstChild.None?
    ensures t.Some? ==> t.value in kids[p] && (objs[t.value].prev.Some? ==> objs[t.value].prev.value < |objs|)
    ensures InsertBeforeWrites(objs, p, t, x)
         == Spliced(objs, p, x, PrevAt(kids[p], BeforePosition(kids[p], t)), NextAt(kids[p], BeforePosition(kids[p], t)))
    ensures InsertAt(kids[p], BeforePosition(kids[p], t), x) == InsertedBefore(kids[p], t, x)
  {
    if t.Some? {
      BeforeChildSplice(objs, kids, p, t, x);
    } else {
      EmptySplice(objs, kids, p, x);
    }
  }

  /** Inserting before the child t is splicing between t's predecessor and t. */
  lemma BeforeChildSplice(objs: seq<Obj>, kids: seq<seq<nat>>, p: nat, t: Ref, x: nat)
    requires Linked(objs, kids) && p < |objs| && x < |objs| && objs[x].parent.None?
    requires t.Some? && t.value < |objs| && objs[t.value].parent == Some(p)
    ensures t.value in kids[p] && (objs[t.value].prev.Some? ==> objs[t.value].prev.value < |objs|)
    ensures InsertBeforeWrites(objs, p, t, x)
         == Spliced(objs, p, x, PrevAt(kids[p], BeforePosition(kids[p], t)), NextAt(kids[p], BeforePosition(kids[p], t)))
  {
    var L := kids[p];
    assert ListLinked(objs, p, L);
    assert Listed(objs, kids, t.value);
    var k := IndexOf(L, t.value);
    assert objs[L[k]].parent == Some(p);
    assert k > 0 ==> objs[L[k - 1]].parent == Some(p);
    var r := InsertBeforeWrites(objs, p, t, x);
    var s := Spliced(objs, p, x, PrevAt(L, k), NextAt(L, k));
    forall n | 0 <= n < |objs| ensures r[n] == s[n] { }
  }

  /** A parent without children has an empty list; putting x in is splicing it in alone, either way. */
  lemma EmptySplice(objs: seq<Obj>, kids: seq<seq<nat>>, p: nat, x: nat)
    requires Linked(objs, kids) && p < |objs| && x < |objs| && objs[x].parent.None?
    requires objs[p].firstChild.None? || objs[p].lastChild.None?
    ensures kids[p] == []
    ensures InsertBeforeWrites(objs, p, None, x) == Spliced(objs, p, x, None, None)
    ensures InsertAfterWrites(objs, p, None, x) == Spliced(objs, p, x, None, None)
  {
    assert ListLinked(objs, p, kids[p]);
    var s := Spliced(objs, p, x, None, None);
    var r := InsertBeforeWrites(objs, p, None, x);
    forall n | 0 <= n < |objs| ensures r[n] == s[n] { }
    var r' := InsertAfterWrites(objs, p, None, x);
    forall n | 0 <= n < |objs| ensures r'[n] == s[n] { }
  }

  /** The writes of HtmlInsertObjectChildAfter once x is detached and the target t resolved. */
  function InsertAfterWrites(objs: seq<Obj>, p: nat, t: Ref, x: nat): (r: seq<Obj>)
    requires p < |objs| && x < |objs|
    requires t.Some? ==> t.value < |objs| && (objs[t.value].next.Some? ==> objs[t.value].next.value < |objs|)
    ensures |r| == |objs|
  {
    if t.Some? then
      var tv := t.value;
      var s1 := objs[x := objs[x].(parent := Some(p), prev := t)];
      var tn := s1[tv].next;
      var s2 := if tn.Some? then s1[tn.value := s1[tn.value].(prev := Some(x))] else s1[p := s1[p].(lastChild := Some(x))];
      var s3 := s2[x := s2[x].(next := s2[tv].next)];
      s3[tv := s3[tv].(next := Some(x))]
    else
      var s1 := objs[x := objs[x].(parent := Some(p), prev := None)];
      var s2 := s1[p := s1[p].(firstChild := Some(x))];
      var s3 := s2[p := s2[p].(lastChild := Some(x))];
      s3[x := s3[x].(next := None)]
  }

  /** In a linked arena inserting after a child t of p, or into an empty p, is splicing just after t. */
  lemma InsertAfterSplice(objs: seq<Obj>, kids: seq<seq<nat>>, p: nat, t: Ref, x: nat)
    requires Linked(objs, kids) && p < |objs| && x < |objs| && objs[x].parent.None?
    requires t.Some? ==> t.value < |objs| && objs[t.value].parent == Some(p)
    requires t.None? ==> objs[p].lastChild.None?
    ensures t.Some? ==> t.value in kids[p] && (objs[t.value].next.Some? ==> objs[t.value].next.value < |objs|)
    ensures InsertAfterWrites(objs, p, t, x)
         == Spliced(objs, p, x, PrevAt(kids[p], AfterPosition(kids[p], t)), NextAt(kids[p], AfterPosition(kids[p], t)))
    ensures InsertAt(kids[p], AfterPosition(kids[p], t), x) == InsertedAfter(kids[p], t, x)
  {
    if t.Some? {
      AfterChildSplice(objs, kids, p, t, x);
    } else {
      EmptySplice(objs, kids, p, x);
    }
  }

  /** Inserting after the child t is splicing between t and its successor. */
  lemma AfterChildSplice(objs: seq<Obj>, kids: seq<seq<nat>>, p: nat, t: Ref, x: nat)
    requires Linked(objs, kids) && p < |objs| && x < |objs| && objs[x].parent.None?
    requires t.Some? && t.value < |objs| && objs[t.value].parent == Some(p)
    ensures t.value in kids[p] && (objs[t.value].next.Some? ==> objs[t.value].next.value < |objs|)
    ensures InsertAfterWrites(objs, p, t, x)
         == Spliced(objs, p, x, PrevAt(kids[p], AfterPosition(kids[p], t)), NextAt(kids[p], AfterPosition(kids[p], t)))
  {
    var L := kids[p];
    assert ListLinked(objs, p, L);
    assert Listed(objs, kids, t.value);
    var k := IndexOf(L, t.value);
    assert objs[L[k]].parent == Some(p);
    assert k + 1 < |L| ==> objs[L[k + 1]].parent == Some(p);
    var r := InsertAfterWrites(objs, p, t, x);
    var s := Spliced(objs, p, x, PrevAt(L, k + 1), NextAt(L, k + 1));
    forall n | 0 <= n < |objs| ensures r[n] == s[n] { }
  }

  /** The arena after HtmlInsertObjectChildBefore's writes: linked with x in p's list, data and other owners kept. */
  lemma InsertBeforeLinked(objs: seq<Obj>, kids: seq<seq<nat>>, p: nat, t: Ref, x: nat)
    requires Linked(objs, kids) && p < |objs| && x < |objs| && objs[x].parent.None?
    requires t.Some? ==> t.value < |objs| && objs[t.value].parent == Some(p)
    requires t.None? ==> objs[p].firstChild.None?
    ensures t.Some? ==> objs[t.value].prev.Some? ==> objs[t.value].prev.value < |objs|
    ensures var r := InsertBeforeWrites(objs, p, t, x);
      Linked(r, kids[p := InsertedBefore(kids[p], t, x)]) && r[x].parent == Some(p)
      && (forall n | 0 <= n < |objs| :: SameData(r[n], objs[n]))
      && (forall n | 0 <= n < |objs| && n != x :: r[n].parent == objs[n].parent)
  {
    InsertBeforeSplice(objs, kids, p, t, x);
    SplicedLinked(objs, kids, p, x, BeforePosition(kids[p], t));
  }

  /** The arena after HtmlInsertObjectChildAfter's writes: linked with x in p's list, data and other owners kept. */
  lemma InsertAfterLinked(objs: seq<Obj>, kids: seq<seq<nat>>, p: nat, t: Ref, x: nat)
    requires Linked(objs, kids) && p < |objs| && x < |objs| && objs[x].parent.None?
    requires t.Some? ==> t.value < |objs| && objs[t.value].parent == Some(p)
    requires t.None? ==> objs[p].lastChild.None?
    ensures t.Some? ==> objs[t.value].next.Some? ==> objs[t.value].next.value < |objs|
    ensures var r := InsertAfterWrites(objs, p, t, x);
      Linked(r, kids[p := InsertedAfter(kids[p], t, x)]) && r[x].parent == Some(p)
      && (forall n | 0 <= n < |objs| :: SameData(r[n], objs[n]))
      && (forall n | 0 <= n < |objs| && n != x :: r[n].parent == objs[n].parent)
  {
    InsertAfterSplice(objs, kids, p, t, x);
    SplicedLinked(objs, kids, p, x, AfterPosition(kids[p], t));
  }

  /** Changing an object's data but not its links keeps the arena linked. */
  lemma LinkedDataChange(objs: seq<Obj>, kids: seq<seq<nat>>, n: nat, v: Obj)
    requires Linked(objs, kids) && n < |objs|
    requires SameLinks(objs[n], v) && v.firstChild == objs[n].firstChild && v.lastChild == objs[n].lastChild
    ensures Linked(objs[n := v], kids)
  {
    var b := objs[n := v];
    forall q | 0 <= q < |b|
      ensures ListLinked(b, q, kids[q])
    {
      assert ListLinked(objs, q, kids[q]);
      ListLinkedFrame(objs, b, q, kids[q]);
    }
    forall m | 0 <= m < |b|
      ensures Listed(b, kids, m)
    {
      assert Listed(objs, kids, m);
    }
  }

  /** A new object joins the arena with no links and an empty child list. */
  lemma LinkedExtend(objs: seq<Obj>, kids: seq<seq<nat>>, o: Obj)
    requires Linked(objs, kids)
    requires o.parent.None? && o.prev.None? && o.next.None? && o.firstChild.None? && o.lastChild.None?
    ensures Linked(objs + [o], kids + [[]])
  {
    var b := objs + [o];
    var k := kids + [[]];
    forall q | 0 <= q < |b|
      ensures ListLinked(b, q, k[q])
    {
      if q < |objs| {
        assert ListLinked(objs, q, kids[q]);
        assert k[q] == kids[q];
        forall j | 0 <= j < |kids[q]| ensures b[kids[q][j]] == objs[kids[q][j]] { }
      }
    }
    forall m | 0 <= m < |b|
      ensures Listed(b, k, m)
    {
      if m < |objs| { assert Listed(objs, kids, m); }
    }
  }

  class Dom {
    var objs: seq<Obj>
    ghost var kids: seq<seq<nat>>

    ghost predicate Valid()
      reads this
    {
      Linked(objs, kids)
    }

    /** An empty arena. */
    constructor ()
      ensures Valid() && objs == []
    {
      objs := [];
      kids := [];
    }

    /** HtmlLibClearObjectRelationship: unlink c from its parent's list; a parentless c is left alone. */
    method ClearObjectRelationship(c: nat)
      requires Valid() && c < |objs|
      modifies this
      ensures Valid() && |objs| == |old(objs)|
      ensures kids == Detach(old(kids), old(objs[c].parent), c)
      ensures objs[c].parent == None
      ensures old(objs[c].parent).None? ==> objs == old(objs)
      ensures forall n | 0 <= n < |objs| :: SameData(objs[n], old(objs[n]))
      ensures forall n | 0 <= n < |objs| && n != c :: objs[n].parent == old(objs[n].parent)
    {
      var o := objs[c];
      if o.parent.None? {
        return;
      }
      var p := o.parent.value;
      ghost var a := objs;
      ghost var i := ChildPosition(objs, kids, c);
      if o.next.Some? {
        var nx := o.next.value;
        objs := objs[nx := objs[nx].(prev := o.prev)];
      } else {
        objs := objs[p := objs[p].(lastChild := o.prev)];
      }
      if o.prev.Some? {
        var pv := o.prev.value;
        objs := objs[pv := objs[pv].(next := o.next)];
      } else {
        objs := objs[p := objs[p].(firstChild := o.next)];
      }
      objs := objs[c := objs[c].(parent := None)];
      assert objs == UnlinkWrites(a, p, c);
      UnlinkWritesEntries(a, p, c);
      UnlinkedLinked(a, kids, p, c, i);
      DetachCut(kids, p, c, i);
      kids := Detach(kids, o.parent, c);
    }

    /** HtmlLibAddObjectChild: append a parentless c as p's last child. */
    method LibAddObjectChild(p: nat, c: nat)
      requires Valid() && p < |objs| && c < |objs|
      requires objs[c].parent.None?
      modifies this
      ensures Valid() && |objs| == |old(objs)|
      ensures kids == old(kids)[p := old(kids[p]) + [c]]
      ensures objs[c].parent == Some(p)
      ensures forall n | 0 <= n < |objs| :: SameData(objs[n], old(objs[n]))
      ensures forall n | 0 <= n < |objs| && n != c :: objs[n].parent == old(objs[n].parent)
    {
      ghost var a := objs;
      AppendWritesSplice(objs, kids, p, c);
      var last := objs[p].lastChild;
      objs := objs[c := objs[c].(parent := Some(p), prev := last, next := None)];
      if last.Some? {
        objs := objs[last.value := objs[last.value].(next := Some(c))];
      }
      if objs[p].firstChild.None? {
        objs := objs[p := objs[p].(firstChild := Some(c))];
      }
      objs := objs[p := objs[p].(lastChild := Some(c))];
      assert objs == AppendWrites(a, p, c);
      SplicedLinked(a, kids, p, c, |kids[p]|);
      kids := kids[p := kids[p] + [c]];
    }

    /** HtmlAddObjectChild: NULL for a NULL argument; otherwise detach c from any old parent, then append it to p. */
    method AddObjectChild(parent: Ref, child: Ref) returns (r: Ref)
      requires Valid() && (parent.Some? ==> parent.value < |objs|) && (child.Some? ==> child.value < |objs|)
      modifies this
      ensures Valid() && |objs| == |old(objs)|
      ensures parent.None? || child.None? ==> r.None? && objs == old(objs) && kids == old(kids)
      ensures parent.Some? && child.Some? ==> r == child
      ensures parent.Some? && child.Some? ==> var p, c := parent.value, child.value;
        var d := Detach(old(kids), old(objs[c].parent), c);
        kids == d[p := d[p] + [c]] && objs[c].parent == Some(p)
        && (forall n | 0 <= n < |objs| && n != c :: objs[n].parent == old(objs[n].parent))
      ensures forall n | 0 <= n < |objs| :: SameData(objs[n], old(objs[n]))
    {
      if parent.None? || child.None? {
        return None;
      }
      ClearObjectRelationship(child.value);
      LibAddObjectChild(parent.value, child.value);
      return child;
    }

    /**
     * HtmlInsertObjectChildBefore: NULL for a NULL parent or object; otherwise
     * detach x, then put it just before target among p's children; a NULL target means p's first child at the time
     * of the call.  The source resolves that target before detaching x, so
     * it may not be x itself.
     */
    method InsertObjectChildBefore(parent: Ref, target: Ref, obj: Ref) returns (r: Ref)
      requires Valid() && (parent.Some? ==> parent.value < |objs|) && (obj.Some? ==> obj.value < |objs|)
      requires parent.Some? && obj.Some? && target.Some? ==>
        target.value < |objs| && target.value != obj.value && objs[target.value].parent == parent
      requires parent.Some? && obj.Some? && target.None? ==> objs[parent.value].firstChild != obj
      modifies this
      ensures Valid() && |objs| == |old(objs)|
      ensures parent.None? || obj.None? ==> r.None? && objs == old(objs) && kids == old(kids)
      ensures parent.Some? && obj.Some? ==> r == obj
      ensures parent.Some? && obj.Some? ==> var p, x := parent.value, obj.value;
        var d := Detach(old(kids), old(objs[x].parent), x);
        kids == d[p := InsertedBefore(d[p], if target.Some? then target else old(objs[p].firstChild), x)]
        && objs[x].parent == Some(p)
        && (forall n | 0 <= n < |objs| && n != x :: objs[n].parent == old(objs[n].parent))
      ensures forall n | 0 <= n < |objs| :: SameData(objs[n], old(objs[n]))
    {
      if parent.None? || obj.None? {
        return None;
      }
      var p, x := parent.value, obj.value;
      var t := target;
      if t.None? {
        t := objs[p].firstChild;
        if t.Some? {
          assert ListLinked(objs, p, kids[p]);
          assert objs[kids[p][0]].parent == Some(p);
        }
      }
      ghost var kids0 := kids;
      ClearObjectRelationship(x);
      assert t.None? ==> objs[p].firstChild.None? by {
        if t.None? {
          assert kids0[p] == [] by { assert ListLinked(old(objs), p, kids0[p]); }
          assert kids[p] == [];
          assert ListLinked(objs, p, kids[p]);
        }
      }
      SpliceBefore(p, t, x);
      return obj;
    }

    /** The second half of HtmlInsertObjectChildBefore: link the detached x in next to the resolved target t. */
    method SpliceBefore(p: nat, t: Ref, x: nat)
      requires Valid() && p < |objs| && x < |objs| && objs[x].parent.None?
      requires t.Some? ==> t.value < |objs| && objs[t.value].parent == Some(p)
      requires t.None? ==> objs[p].firstChild.None?
      modifies this
      ensures Valid() && |objs| == |old(objs)|
      ensures kids == old(kids)[p := InsertedBefore(old(kids[p]), t, x)]
      ensures objs[x].parent == Some(p)
      ensures forall n | 0 <= n < |objs| :: SameData(objs[n], old(objs[n]))
      ensures forall n | 0 <= n < |objs| && n != x :: objs[n].parent == old(objs[n].parent)
    {
      ghost var a := objs;
      InsertBeforeLinked(objs, kids, p, t, x);
      if t.Some? {
        var tv := t.value;
        objs := objs[x := objs[x].(parent := Some(p), next := t)];
        var tp := objs[tv].prev;
        if tp.Some? {
          objs := objs[tp.value := objs[tp.value].(next := Some(x))];
        } else {
          objs := objs[p := objs[p].(firstChild := Some(x))];
        }
        objs := objs[x := objs[x].(prev := objs[tv].prev)];
        objs := objs[tv := objs[tv].(prev := Some(x))];
      } else {
        objs := objs[x := objs[x].(parent := Some(p), next := None)];
        objs := objs[p := objs[p].(firstChild := Some(x))];
        objs := objs[p := objs[p].(lastChild := Some(x))];
        objs := objs[x := objs[x].(prev := None)];
      }
      assert objs == InsertBeforeWrites(a, p, t, x);
      kids := kids[p := InsertedBefore(kids[p], t, x)];
    }

    /**
     * HtmlInsertObjectChildAfter: NULL for a NULL parent or object; otherwise
     * detach x, then put it just after target among p's children; a NULL target means p's last child at the time of
     * the call, which may not be x itself.
     */
    method InsertObjectChildAfter(parent: Ref, target: Ref, obj: Ref) returns (r: Ref)
      requires Valid() && (parent.Some? ==> parent.value < |objs|) && (obj.Some? ==> obj.value < |objs|)
      requires parent.Some? && obj.Some? && target.Some? ==>
        target.value < |objs| && target.value != obj.value && objs[target.value].parent == parent
      requires parent.Some? && obj.Some? && target.None? ==> objs[parent.value].lastChild != obj
      modifies this
      ensures Valid() && |objs| == |old(objs)|
      ensures parent.None? || obj.None? ==> r.None? && objs == old(objs) && kids == old(kids)
      ensures parent.Some? && obj.Some? ==> r == obj
      ensures parent.Some? && obj.Some? ==> var p, x := parent.value, obj.value;
        var d := Detach(old(kids), old(objs[x].parent), x);
        kids == d[p := InsertedAfter(d[p], if target.Some? then target else old(objs[p].lastChild), x)]
        && objs[x].parent == Some(p)
        && (forall n | 0 <= n < |objs| && n != x :: objs[n].parent == old(objs[n].parent))
      ensures forall n | 0 <= n < |objs| :: SameData(objs[n], old(objs[n]))
    {
      if parent.None? || obj.None? {
        return None;
      }
      var p, x := parent.value, obj.value;
      var t := target;
      if t.None? {
        t := objs[p].lastChild;
        if t.Some? {
          assert ListLinked(objs, p, kids[p]);
          assert objs[kids[p][|kids[p]| - 1]].parent == Some(p);
        }
      }
      ghost var kids0 := kids;
      assert t == if target.Some? then target else objs[p].lastChild;
      assert t.Some? ==> t.value < |objs| && t.value != x && objs[t.value].parent == Some(p);
      assert t.None? ==> kids0[p] == [] by {
        assert ListLinked(objs, p, kids0[p]);
      }
      ClearObjectRelationship(x);
      ghost var kids1 := kids;
      assert t.Some? ==> objs[t.value].parent == Some(p);
      assert t.None? ==> objs[p].lastChild.None? by {
        if t.None? {
          assert kids1[p] == [];
          assert ListLinked(objs, p, kids1[p]);
        }
      }
      SpliceAfter(p, t, x);
      assert kids == kids1[p := InsertedAfter(kids1[p], t, x)];
      return obj;
    }

    /** The second half of HtmlInsertObjectChildAfter: link the detached x in next to the resolved target t. */
    method SpliceAfter(p: nat, t: Ref, x: nat)
      requires Valid() && p < |objs| && x < |objs| && objs[x].parent.None?
      requires t.Some? ==> t.value < |objs| && objs[t.value].parent == Some(p)
      requires t.None? ==> objs[p].lastChild.None?
      modifies this
      ensures Valid() && |objs| == |old(objs)|
      ensures kids == old(kids)[p := InsertedAfter(old(kids[p]), t, x)]
      ensures objs[x].parent == Some(p)
      ensures forall n | 0 <= n < |objs| :: SameData(objs[n], old(objs[n]))
      ensures forall n | 0 <= n < |objs| && n != x :: objs[n].parent == old(objs[n].parent)
    {
      ghost var a := objs;
      InsertAfterLinked(objs, kids, p, t, x);
      if t.Some? {
        var tv := t.value;
        objs := objs[x := objs[x].(parent := Some(p), prev := t)];
        var tn := objs[tv].next;
        if tn.Some? {
          objs := objs[tn.value := objs[tn.value].(prev := Some(x))];
        } else {
          objs := objs[p := objs[p].(lastChild := Some(x))];
        }
        objs := objs[x := objs[x].(next := objs[tv].next)];
        objs := objs[tv := objs[tv].(next := Some(x))];
      } else {
        objs := objs[x := objs[x].(parent := Some(p), prev := None)];
        objs := objs[p := objs[p].(firstChild := Some(x))];
        objs := objs[p := objs[p].(lastChild := Some(x))];
        objs := objs[x := objs[x].(next := None)];
      }
      assert objs == InsertAfterWrites(a, p, t, x);
      kids := kids[p := InsertedAfter(kids[p], t, x)];
    }

    /** HtmlLibCreateObject: a fresh object of the kind with its name lowered, appended to parent when given. */
    method CreateObject(kind: Kind, name: Option<string>, parent: Ref) returns (o: nat)
      requires Valid()
      requires parent.Some? ==> parent.value < |objs|
      modifies this
      ensures Valid() && o == |old(objs)| && |objs| == o + 1
      ensures objs[o].kind == kind && objs[o].name == (if name.Some? then Some(Lowered(name.value)) else None)
      ensures objs[o].innerText.None? && objs[o].afterText.None? && objs[o].attrs == []
      ensures objs[o].parent == parent
      ensures parent.None? ==> kids == old(kids) + [[]]
      ensures parent.Some? ==> kids == (old(kids) + [[]])[parent.value := old(kids[parent.value]) + [o]]
      ensures forall n | 0 <= n < o :: SameData(objs[n], old(objs[n]))
    {
      var lowered := None;
      if name.Some? {
        var l := CopyLowered(name.value);
        lowered := Some(l);
      }
      LinkedExtend(objs, kids, Blank(kind, lowered));
      objs := objs + [Blank(kind, lowered)];
      kids := kids + [[]];
      o := |objs| - 1;
      if parent.Some? {
        LibAddObjectChild(parent.value, o);
      }
    }

    /**
     * HtmlSetObjectAttrValue: walk the attribute list for an exact name
     * match and replace its value, or append a new attribute.
     */
    method SetObjectAttrValue(o: Ref, name: Option<string>, value: Option<string>) returns (code: Code)
      requires Valid() && (o.Some? ==> o.value < |objs|)
      modifies this
      ensures Valid() && kids == old(kids)
      ensures o.None? || name.None? ==> code == NullPointer && objs == old(objs)
      ensures o.Some? && name.Some? ==>
        (code == Ok && objs == old(objs)[o.value := old(objs[o.value]).(attrs := SetValue(old(objs[o.value].attrs), name.value, value))])
    {
      if o.None? || name.None? {
        return NullPointer;
      }
      var n := o.value;
      var attrs := objs[n].attrs;
      var i := 0;
      while i < |attrs|
        invariant 0 <= i <= |attrs|
        invariant forall j | 0 <= j < i :: attrs[j].name != name.value
      {
        if attrs[i].name == name.value {
          assert Find(attrs, name.value) == Some(i);
          LinkedDataChange(objs, kids, n, objs[n].(attrs := attrs[i := Attr(name.value, value)]));
          objs := objs[n := objs[n].(attrs := attrs[i := Attr(name.value, value)])];
          return Ok;
        }
        i := i + 1;
      }
      var stored := if value.Some? && value.value != "" then value else None;
      LinkedDataChange(objs, kids, n, objs[n].(attrs := attrs + [Attr(name.value, stored)]));
      objs := objs[n := objs[n].(attrs := attrs + [Attr(name.value, stored)])];
      return Ok;
    }

    /**
     * HtmlGetObjectAttrValue: the value of the first attribute with exactly
     * that name, NULL when there is none.  The empty-string guard tests only
     * for NULL, so an empty name is searched for like any other.
     */
    method GetObjectAttrValue(o: Ref, name: Option<string>) returns (r: Option<string>)
      requires o.Some? ==> o.value < |objs|
      ensures r == (if o.None? || name.None? then None else GetValue(objs[o.value].attrs, name.value))
    {
      if o.None? || name.None? {
        return None;
      }
      var attrs := objs[o.value].attrs;
      var i := 0;
      while i < |attrs|
        invariant 0 <= i <= |attrs|
        invariant forall j | 0 <= j < i :: attrs[j].name != name.value
      {
        if attrs[i].name == name.value {
          assert Find(attrs, name.value) == Some(i);
          return attrs[i].value;
        }
        i := i + 1;
      }
      return None;
    }

    /** HtmlRemoveObjectAttribute: unlink the first attribute with exactly that name, if any. */
    method RemoveObjectAttribute(o: Ref, name: Option<string>)
      requires Valid() && (o.Some? ==> o.value < |objs|)
      modifies this
      ensures Valid() && kids == old(kids)
      ensures o.None? || name.None? ==> objs == old(objs)
      ensures o.Some? && name.Some? ==>
        objs == old(objs)[o.value := old(objs[o.value]).(attrs := Remove(old(objs[o.value].attrs), name.value))]
    {
      if o.None? || name.None? {
        return;
      }
      var n := o.value;
      var attrs := objs[n].attrs;
      var i := 0;
      while i < |attrs|
        invariant 0 <= i <= |attrs|
        invariant forall j | 0 <= j < i :: attrs[j].name != name.value
      {
        if attrs[i].name == name.value {
          assert Find(attrs, name.value) == Some(i);
          LinkedDataChange(objs, kids, n, objs[n].(attrs := attrs[..i] + attrs[i + 1..]));
          objs := objs[n := objs[n].(attrs := attrs[..i] + attrs[i + 1..])];
          return;
        }
        i := i + 1;
      }
      assert Find(attrs, name.value).None?;
    }

    /** HtmlCountObjectChildren: follow the next links from the first child; 0 for NULL. */
    method CountObjectChildren(o: Ref) returns (count: nat)
      requires Valid() && (o.Some? ==> o.value < |objs|)
      ensures count == (if o.None? then 0 else |kids[o.value]|)
    {
      if o.None? {
        return 0;
      }
      var p := o.value;
      ghost var L := kids[p];
      assert ListLinked(objs, p, L);
      var child := objs[p].firstChild;
      count := 0;
      while child.Some?
        invariant count <= |L|
        invariant child == NextAt(L, count)
        decreases |L| - count
      {
        assert objs[L[count]].next == After(L, count);
        child := objs[child.value].next;
        count := count + 1;
      }
    }

    /** HtmlCountObjectAttributes: the length of the attribute list; 0 for NULL. */
    method CountObjectAttributes(o: Ref) returns (count: nat)
      requires o.Some? ==> o.value < |objs|
      ensures count == (if o.None? then 0 else |objs[o.value].attrs|)
    {
      if o.None? {
        return 0;
      }
      // the attribute iterator follows the list one attribute at a time
      var attrs := objs[o.value].attrs;
      var rest := attrs;
      count := 0;
      while rest != []
        invariant count <= |attrs| && rest == attrs[count..]
        decreases |rest|
      {
        rest := rest[1..];
        count := count + 1;
      }
    }
  }
}

/**
 * Attribute lists, as the sequences their linked lists spell out.  The three
 * library generations look attributes up by exact name and differ in how
 * they set one.
 */
module Attributes {
  import opened Wrappers
  import opened Chars

  /** An attribute: a name and a value that may be NULL. */
  datatype Attr = Attr(name: string, value: Option<string>)

  /** The position of the first attribute called name: what every lookup loop stops at. */
  function Find(attrs: seq<Attr>, name: string): (r: Option<nat>)
    ensures r.Some? ==> r.value < |attrs| && attrs[r.value].name == name
    ensures r.Some? ==> forall j | 0 <= j < r.value :: attrs[j].name != name
    ensures r.None? ==> forall j | 0 <= j < |attrs| :: attrs[j].name != name
  {
    if attrs == [] then None
    else if attrs[0].name == name then Some(0)
    else match Find(attrs[1..], name)
      case None => None
      case Some(k) => Some(k + 1)
  }

  /** The names in a list are pairwise distinct. */
  predicate DistinctNames(attrs: seq<Attr>)
  {
    forall i, j | 0 <= i < j < |attrs| :: attrs[i].name != attrs[j].name
  }

  /** HtmlGetObjectAttrValue (v2: root header): the first match's value; NULL when absent or valueless. */
  function GetValue(attrs: seq<Attr>, name: string): (r: Option<string>)
    ensures r.Some? ==> Find(attrs, name).Some?
  {
    match Find(attrs, name)
    case None => None
    case Some(i) => attrs[i].value
  }

  /**
   * HtmlGetObjectAttributeValue (v2: myhtml2 header): like GetValue, but an
   * absent attribute reads as "" rather than NULL.
   */
  function GetValueOrEmpty(attrs: seq<Attr>, name: string): (r: Option<string>)
    ensures Find(attrs, name).None? ==> r == Some("")
    ensures Find(attrs, name).Some? ==> r == GetValue(attrs, name)
  {
    match Find(attrs, name)
    case None => Some("")
    case Some(i) => attrs[i].value
  }

  /**
   * HtmlSetObjectAttrValue: an existing attribute takes the new value as
   * given (NULL and "" included); a new one is appended, and stores NULL
   * for a NULL or empty value.
   */
  function SetValue(attrs: seq<Attr>, name: string, value: Option<string>): (r: seq<Attr>)
  {
    match Find(attrs, name)
    case Some(i) => attrs[i := Attr(name, value)]
    case None => attrs + [Attr(name, if value == Some("") then None else value)]
  }

  /** Setting an attribute changes only that attribute's slot, or appends one slot. */
  lemma SetValueShape(attrs: seq<Attr>, name: string, value: Option<string>)
    ensures var r := SetValue(attrs, name, value);
      (Find(attrs, name).Some? ==> |r| == |attrs|) &&
      (Find(attrs, name).None? ==> |r| == |attrs| + 1 && r[..|attrs|] == attrs && r[|attrs|].name == name) &&
      (forall j | 0 <= j < |attrs| && attrs[j].name != name :: r[j] == attrs[j])
  {
  }

  /** Reading back a set value: a new attribute with value "" reads as NULL. */
  lemma GetAfterSet(attrs: seq<Attr>, name: string, value: Option<string>)
    ensures GetValue(SetValue(attrs, name, value), name)
         == if Find(attrs, name).None? && value == Some("") then None else value
  {
    var r := SetValue(attrs, name, value);
    match Find(attrs, name)
    case Some(i) =>
      assert Find(r, name) == Some(i) by { FindAfterUpdate(attrs, i, name, value); }
    case None =>
      assert Find(r, name) == Some(|attrs|) by { FindAfterAppend(attrs, name, Attr(name, if value == Some("") then None else value)); }
  }

  lemma {:induction false} FindAfterUpdate(attrs: seq<Attr>, i: nat, name: string, value: Option<string>)
    requires Find(attrs, name) == Some(i)
    ensures Find(attrs[i := Attr(name, value)], name) == Some(i)
  {
    if i > 0 {
      assert attrs[i := Attr(name, value)][1..] == attrs[1..][i - 1 := Attr(name, value)];
      FindAfterUpdate(attrs[1..], i - 1, name, value);
    }
  }

  lemma {:induction false} FindAfterAppend(attrs: seq<Attr>, name: string, a: Attr)
    requires Find(attrs, name).None? && a.name == name
    ensures Find(attrs + [a], name) == Some(|attrs|)
  {
    if attrs != [] {
      assert (attrs + [a])[1..] == attrs[1..] + [a];
      FindAfterAppend(attrs[1..], name, a);
    }
  }

  /** Setting one attribute leaves every other name's lookup alone. */
  lemma {:induction false} FindOtherAfterSet(attrs: seq<Attr>, name: string, other: string, value: Option<string>)
    requires other != name
    ensures Find(SetValue(attrs, name, value), other) == Find(attrs, other)
    ensures GetValue(SetValue(attrs, name, value), other) == GetValue(attrs, other)
  {
    FindOtherUnchanged(attrs, SetValue(attrs, name, value), name, other);
  }

  /** Two lists that agree everywhere except in slots named name answer other lookups alike. */
  lemma {:induction false} FindOtherUnchanged(a: seq<Attr>, b: seq<Attr>, name: string, other: string)
    requires other != name && |a| <= |b|
    requires forall j | 0 <= j < |a| :: a[j] == b[j] || (a[j].name == name && b[j].name == name)
    requires forall j | |a| <= j < |b| :: b[j].name == name
    ensures Find(b, other) == Find(a, other)
  {
    if a == [] {
      assert Find(b, other).None?;
    } else if a[0].name == other {
    } else {
      FindOtherUnchanged(a[1..], b[1..], name, other);
    }
  }

  /** Setting an empty value twice on a fresh name: the first stores NULL, the second "". */
  lemma EmptyValueAsymmetry(attrs: seq<Attr>, name: string)
    requires Find(attrs, name).None?
    ensures GetValue(SetValue(attrs, name, Some("")), name) == None
    ensures GetValue(SetValue(SetValue(attrs, name, Some("")), name, Some("")), name) == Some("")
  {
    GetAfterSet(attrs, name, Some(""));
    FindAfterAppend(attrs, name, Attr(name, None));
    GetAfterSet(SetValue(attrs, name, Some("")), name, Some(""));
  }

  /** All three generations' remove: unlink the first attribute called name, if any. */
  function Remove(attrs: seq<Attr>, name: string): (r: seq<Attr>)
    ensures Find(attrs, name).None? ==> r == attrs
    ensures Find(attrs, name).Some? ==> |r| == |attrs| - 1
  {
    match Find(attrs, name)
    case None => attrs
    case Some(i) => attrs[..i] + attrs[i + 1..]
  }

  /** Removing keeps the order of the rest, and a later duplicate becomes the one found. */
  lemma RemoveKeepsOrder(attrs: seq<Attr>, name: string)
    requires Find(attrs, name).Some?
    ensures var i := Find(attrs, name).value; var r := Remove(attrs, name);
      (forall j | 0 <= j < i :: r[j] == attrs[j]) &&
      (forall j | i <= j < |r| :: r[j] == attrs[j + 1]) &&
      (Find(r, name).Some? ==> Find(r, name).value >= i && attrs[Find(r, name).value + 1].name == name)
  {
  }

  /** After removing, a name with no duplicate is gone. */
  lemma RemoveDistinct(attrs: seq<Attr>, name: string)
    requires DistinctNames(attrs)
    ensures Find(Remove(attrs, name), name).None?
    ensures DistinctNames(Remove(attrs, name))
  {
    match Find(attrs, name)
    case None =>
    case Some(i) =>
      var r := Remove(attrs, name);
      forall j | 0 <= j < |r|
        ensures r[j].name != name
      {
        if j < i { assert r[j] == attrs[j]; } else { assert r[j] == attrs[j + 1]; }
      }
  }

  /** HtmlCopyObject's attribute loop: each source attribute is set onto the copy in turn. */
  function CopyAttributes(acc: seq<Attr>, src: seq<Attr>): (r: seq<Attr>)
    decreases |src|
  {
    if src == [] then acc else CopyAttributes(SetValue(acc, src[0].name, src[0].value), src[1..])
  }

  /** What a freshly created attribute stores: an empty value becomes NULL. */
  function Normalized(a: seq<Attr>): (r: seq<Attr>)
    ensures |r| == |a|
    ensures forall j | 0 <= j < |a| :: r[j].name == a[j].name
  {
    if a == [] then []
    else [Attr(a[0].name, if a[0].value == Some("") then None else a[0].value)] + Normalized(a[1..])
  }

  /** Create-or-update never makes a name appear twice. */
  lemma SetValueDistinct(attrs: seq<Attr>, name: string, value: Option<string>)
    requires DistinctNames(attrs)
    ensures DistinctNames(SetValue(attrs, name, value))
  {
    var r := SetValue(attrs, name, value);
    forall i, j | 0 <= i < j < |r|
      ensures r[i].name != r[j].name
    {
      if Find(attrs, name).None? && j == |attrs| {
        assert r[i] == attrs[i];
      }
    }
  }

  /** The copy loop onto a list with distinct names leaves them distinct, whatever the source repeats. */
  lemma {:induction false} CopyAttributesKeepsDistinct(acc: seq<Attr>, src: seq<Attr>)
    requires DistinctNames(acc)
    ensures DistinctNames(CopyAttributes(acc, src))
    decreases |src|
  {
    if src != [] {
      SetValueDistinct(acc, src[0].name, src[0].value);
      CopyAttributesKeepsDistinct(SetValue(acc, src[0].name, src[0].value), src[1..]);
    }
  }

  /** Copying a list with distinct names reproduces it, except that "" values turn into NULL. */
  lemma {:induction false} CopyAttributesDistinct(acc: seq<Attr>, src: seq<Attr>)
    requires DistinctNames(src)
    requires forall i, j | 0 <= i < |acc| && 0 <= j < |src| :: acc[i].name != src[j].name
    ensures CopyAttributes(acc, src) == acc + Normalized(src)
    decreases |src|
  {
    if src != [] {
      var entry, rest := CopyStep(acc, src);
      CopyAttributesDistinct(acc + [entry], rest);
      ConcatAssoc(acc, [entry], Normalized(rest));
    } else {
      assert Normalized(src) == [] && acc + [] == acc;
    }
  }

  /** One round of the copy loop appends the normalized head, and the rest keeps the loop's precondition. */
  lemma CopyStep(acc: seq<Attr>, src: seq<Attr>) returns (entry: Attr, rest: seq<Attr>)
    requires src != [] && DistinctNames(src)
    requires forall i, j | 0 <= i < |acc| && 0 <= j < |src| :: acc[i].name != src[j].name
    ensures rest == src[1..] && Normalized(src) == [entry] + Normalized(rest)
    ensures CopyAttributes(acc, src) == CopyAttributes(acc + [entry], rest)
    ensures DistinctNames(rest)
    ensures forall i, j | 0 <= i < |acc + [entry]| && 0 <= j < |rest| :: (acc + [entry])[i].name != rest[j].name
  {
    var a := src[0];
    rest := src[1..];
    assert Find(acc, a.name).None? by {
      forall i | 0 <= i < |acc| ensures acc[i].name != a.name { }
    }
    entry := Attr(a.name, if a.value == Some("") then None else a.value);
    var acc' := acc + [entry];
    assert SetValue(acc, a.name, a.value) == acc';
    assert DistinctNames(rest) by {
      forall i, j | 0 <= i < j < |rest| ensures rest[i].name != rest[j].name {
        assert rest[i] == src[i + 1] && rest[j] == src[j + 1];
      }
    }
    forall i, j | 0 <= i < |acc'| && 0 <= j < |rest|
      ensures acc'[i].name != rest[j].name
    {
      assert rest[j] == src[j + 1];
      if i == |acc| { assert acc'[i].name == src[0].name; }
    }
  }

  /** HTML_GetElementAttribute (v1): the first attribute called name. */
  function GetElementAttribute(attrs: seq<Attr>, name: string): (r: Option<Attr>)
    ensures r.Some? <==> Find(attrs, name).Some?
    ensures r.Some? ==> r.value.name == name && r.value == attrs[Find(attrs, name).value]
  {
    match Find(attrs, name)
    case None => None
    case Some(i) => Some(attrs[i])
  }

  /**
   * HTML_SetElementAttribute (v1): an attribute found by exact name takes a
   * copy of the value; otherwise one is appended under the LOWERED name.
   */
  function SetElementAttribute(attrs: seq<Attr>, name: string, value: Option<string>): (r: seq<Attr>)
  {
    match Find(attrs, name)
    case Some(i) => attrs[i := Attr(attrs[i].name, value)]
    case None => attrs + [Attr(Lowered(name), value)]
  }

  /** v1 stores what it is given, "" included, and finds it again under a lower-case name. */
  lemma GetAfterSetElement(attrs: seq<Attr>, name: string, value: Option<string>)
    requires Lowered(name) == name
    ensures GetElementAttribute(SetElementAttribute(attrs, name, value), name) == Some(Attr(name, value))
  {
    match Find(attrs, name)
    case Some(i) => FindAfterUpdate(attrs, i, name, value);
    case None => FindAfterAppend(attrs, name, Attr(name, value));
  }

  /**
   * A name with an upper-case letter is stored lowered, so the next set by
   * the same name misses it and appends again.
   */
  lemma SetElementUppercaseAppends(attrs: seq<Attr>, name: string, value: Option<string>)
    requires Lowered(name) != name && Find(attrs, name).None?
    ensures |SetElementAttribute(SetElementAttribute(attrs, name, value), name, value)| == |attrs| + 2
  {
    var once := SetElementAttribute(attrs, name, value);
    assert once == attrs + [Attr(Lowered(name), value)];
    assert Find(once, name).None?;
  }
}

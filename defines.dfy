/**
 * Object kinds, their type bytes and the result codes of both library
 * generations.  A type byte is a kind id in the low nibble, or'ed with
 * capability flags in the high nibble.
 */
module Defines {
  import opened Wrappers

  /** Result codes of the v2 library (HtmlCode). */
  datatype Code =
    | Ok
    | Failed
    | OutOfMemory
    | NullPointer
    | ItemNotFound
    | EmptyString
    | StreamNotWriteable
    | StreamNotReadable
    | StreamNotSeekable
    | FileNotWritable
    | FileNotReadable

  /** The library as written, or with a defect corrected as its authors evidently meant. */
  datatype Edition = AsWritten | Intended

  /** The numeric value of a result code in the C enum. */
  function CodeValue(c: Code): (r: nat)
    ensures r <= 10
    ensures r == 0 <==> c == Ok
  {
    match c
    case Ok => 0
    case Failed => 1
    case OutOfMemory => 2
    case NullPointer => 3
    case ItemNotFound => 4
    case EmptyString => 5
    case StreamNotWriteable => 6
    case StreamNotReadable => 7
    case StreamNotSeekable => 8
    case FileNotWritable => 9
    case FileNotReadable => 10
  }

  /** Object kinds.  Xml exists only in the v1 library. */
  datatype Kind = NoType | Single | Script | Tag | Document | Comment | Doctype | Xml

  const HAS_NAME: bv8 := 0x10
  const HAS_ATTR: bv8 := 0x20
  const HAS_TEXT: bv8 := 0x40
  const HAS_CHILD: bv8 := 0x80

  /** The kind id kept in the low nibble of a type byte. */
  function Id(k: Kind): (r: bv8)
    ensures r < 8
  {
    match k
    case NoType => 0
    case Single => 1
    case Script => 2
    case Tag => 3
    case Document => 4
    case Comment => 5
    case Doctype => 6
    case Xml => 7
  }

  /** The type byte of a kind: its id or'ed with the flags the kind carries. */
  function TypeValue(k: Kind): (r: bv8)
    ensures r & 0x0F == Id(k)
  {
    match k
    case NoType => 0x00
    case Single => Id(Single) | HAS_NAME | HAS_ATTR
    case Script => Id(Script) | HAS_NAME | HAS_ATTR | HAS_TEXT
    case Tag => Id(Tag) | HAS_NAME | HAS_ATTR | HAS_TEXT | HAS_CHILD
    case Document => Id(Document) | HAS_TEXT
    case Comment => Id(Comment) | HAS_TEXT
    case Doctype => Id(Doctype)
    case Xml => Id(Xml)
  }

  const Masks: seq<bv8> := [0x01, 0x02, 0x04, 0x08, 0x10, 0x20, 0x40, 0x80]

  /** Bit i of x is set. */
  predicate Bit(x: bv8, i: nat)
    requires i < 8
  {
    x & Masks[i] != 0
  }

  /** HTML_Type_HasFlags: every bit of flags is set in type. */
  function HasFlags(t: bv8, flags: bv8): (r: bool)
    ensures r <==> (forall i: nat | i < 8 :: Bit(flags, i) ==> Bit(t, i))
  {
    if t & flags == flags then
      AllBitsOfSubset(t, flags);
      true
    else
      MissingBit(t, flags);
      false
  }

  /** A bit of flags that type lacks, when the and-test fails. */
  lemma MissingBit(t: bv8, flags: bv8)
    requires t & flags != flags
    ensures exists i: nat | i < 8 :: Bit(flags, i) && !Bit(t, i)
  {
    var m := flags & !t;
    assert m != 0;
    if m & 0x01 != 0 { assert Bit(flags, 0) && !Bit(t, 0); }
    else if m & 0x02 != 0 { assert Bit(flags, 1) && !Bit(t, 1); }
    else if m & 0x04 != 0 { assert Bit(flags, 2) && !Bit(t, 2); }
    else if m & 0x08 != 0 { assert Bit(flags, 3) && !Bit(t, 3); }
    else if m & 0x10 != 0 { assert Bit(flags, 4) && !Bit(t, 4); }
    else if m & 0x20 != 0 { assert Bit(flags, 5) && !Bit(t, 5); }
    else if m & 0x40 != 0 { assert Bit(flags, 6) && !Bit(t, 6); }
    else { assert Bit(flags, 7) && !Bit(t, 7); }
  }

  lemma AllBitsOfSubset(t: bv8, flags: bv8)
    requires t & flags == flags
    ensures forall i: nat | i < 8 :: Bit(flags, i) ==> Bit(t, i)
  {
    forall i: nat | i < 8
      ensures Bit(flags, i) ==> Bit(t, i)
    {
      assert (t & flags) & Masks[i] == t & (flags & Masks[i]);
    }
  }

  /** The kind a type byte stands for, if any. */
  function KindOf(t: bv8): (r: Option<Kind>)
    ensures r.Some? ==> TypeValue(r.value) == t
  {
    if t == TypeValue(NoType) then Some(NoType)
    else if t == TypeValue(Single) then Some(Single)
    else if t == TypeValue(Script) then Some(Script)
    else if t == TypeValue(Tag) then Some(Tag)
    else if t == TypeValue(Document) then Some(Document)
    else if t == TypeValue(Comment) then Some(Comment)
    else if t == TypeValue(Doctype) then Some(Doctype)
    else if t == TypeValue(Xml) then Some(Xml)
    else None
  }

  /** Type bytes are distinct: decoding a kind's type byte gives the kind back. */
  lemma KindOfTypeValue(k: Kind)
    ensures KindOf(TypeValue(k)) == Some(k)
  {
  }

  /** Which kinds carry which capability flag. */
  lemma Capabilities(k: Kind)
    ensures HasFlags(TypeValue(k), HAS_NAME) <==> k == Single || k == Script || k == Tag
    ensures HasFlags(TypeValue(k), HAS_ATTR) <==> k == Single || k == Script || k == Tag
    ensures HasFlags(TypeValue(k), HAS_TEXT) <==> k == Script || k == Tag || k == Document || k == Comment
    ensures HasFlags(TypeValue(k), HAS_CHILD) <==> k == Tag
  {
  }

  lemma SubsetUnion(t: bv8, f: bv8, g: bv8)
    ensures (t & (f | g) == f | g) <==> (t & f == f) && (t & g == g)
  {
  }

  /** Testing a union of flags is testing each of them. */
  lemma HasFlagsUnion(t: bv8, f: bv8, g: bv8)
    ensures HasFlags(t, f | g) <==> HasFlags(t, f) && HasFlags(t, g)
  {
    SubsetUnion(t, f, g);
    assert HasFlags(t, f | g) == (t & (f | g) == f | g);
    assert HasFlags(t, f) == (t & f == f) && HasFlags(t, g) == (t & g == g);
  }
}

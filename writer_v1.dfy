/**
 * The v1 writer (MyHtml/MyHtml_writer.h): an element tree serialised into an
 * HTML_String.  Which parts of an element are written is decided by the
 * capability flags of its type; attribute values go through a table of
 * backslash escapes.  The output is a function of the tree; the stream
 * methods append exactly that output.
 *
 * Elements are the value trees of Document: `text` is innerText and
 * `interval` is afterText.
 */
module WriterV1 {
  import opened Wrappers
  import opened Defines
  import opened Chars
  import opened Attributes
  import opened Document
  import opened MyHtmlStream
  import Writer
  import Reader

  /** The escape table once filled: a two-byte entry for seven characters, empty for every other. */
  function Converts(c: char): (r: string)
    ensures r == [] <==> !Writer.IsEscaped(c)
    ensures r != [] ==> |r| == 2 && r[0] == '\\' && c as int < 93
    ensures CString(r)
  {
    if c == '\\' then ['\\', '\\']
    else if c == '"' then ['\\', '"']
    else if c == '\'' then ['\\', '\'']
    else if c == '\t' then ['\\', 't']
    else if c == '\r' then ['\\', 'r']
    else if c == '\n' then ['\\', 'n']
    else if c == 7 as char then ['\\', 'a']
    else []
  }

  /**
   * One character of a value: its table entry when it is below 93 and has
   * one, the character itself otherwise.  A signed char of 128 or more would
   * index the table below its start, so only 1..127 are taken.  The table is
   * exactly the escaping the v2 writer meant (its `\\` written in full).
   */
  function EscapeByte(c: char): (r: string)
    requires c as int < 128
    ensures r == Writer.EscapeChar(c, Intended)
  {
    if c as int < 93 && Converts(c) != [] then Converts(c) else [c]
  }

  /** A value with every character escaped. */
  function EscapeValue(v: string): (r: string)
    requires Ascii(v)
    ensures r == Writer.EscapeText(v, Intended)
  {
    if v == [] then [] else EscapeByte(v[0]) + EscapeValue(v[1..])
  }

  /** Attribute values the table can escape: 1..127. */
  predicate AsciiValues(attrs: seq<Attr>)
  {
    forall i | 0 <= i < |attrs| :: attrs[i].value.Some? ==> Ascii(attrs[i].value.value)
  }

  /** One attribute: a space and the name, then `="`, the escaped value and `"` unless the value is NULL. */
  function AttributeText(a: Attr): (r: string)
    requires a.value.Some? ==> Ascii(a.value.value)
    ensures r == Writer.AttributeText(a, Intended)
  {
    [' '] + a.name + (if a.value.Some? then "=\"" + EscapeValue(a.value.value) + "\"" else [])
  }

  /** HTML_WriteAttributesToStream's output: the attributes in list order. */
  function AttributesText(attrs: seq<Attr>): (r: string)
    requires AsciiValues(attrs)
    ensures r == Writer.AttributesText(attrs, Intended)
  {
    if attrs == [] then [] else AttributeText(attrs[0]) + AttributesText(attrs[1..])
  }

  /** The kinds written the "normal way", as `<name ...>`: all but the four handled first. */
  predicate Named(k: Kind)
  {
    k != Comment && k != Doctype && k != Xml && k != Document
  }

  /**
   * What the writer needs of a tree: every element written the normal way
   * has a name (the writer hands it to puts unchecked) and every attribute
   * value indexes the escape table inside its bounds.
   */
  predicate Writable(t: Tree)
    decreases t
  {
    (Named(t.kind) ==> t.name.Some?) && AsciiValues(t.attrs)
    && forall i | 0 <= i < |t.children| :: Writable(t.children[i])
  }

  const XmlPlaceholder: string := "<!-- XML no supported -->"

  /**
   * HTML_WriteElementToStream's output.  A comment is `<!--`, its text and
   * `-->`; a doctype is `<!DOCTYPE `, its text and `>`; XML is a placeholder;
   * a document is its children.  None of these writes its interval.  Every
   * other kind is written by its flags, then followed by its interval.
   */
  function Element(t: Tree): string
    requires Writable(t)
    decreases t, 2
  {
    if t.kind == Comment then "<!--" + t.innerText.GetOr("") + "-->"
    else if t.kind == Doctype then "<!DOCTYPE " + t.innerText.GetOr("") + ">"
    else if t.kind == Xml then XmlPlaceholder
    else if t.kind == Document then Children(t.children)
    else Tagged(t) + t.afterText.GetOr("")
  }

  /** The normal way: the open tag, then the body, as the type's flags decide. */
  function Tagged(t: Tree): string
    requires Writable(t) && Named(t.kind)
    decreases t, 1
  {
    OpenTag(t) + Body(t)
  }

  /** `<name`, the attributes when the type has HAS_ATTR, `>`. */
  function OpenTag(t: Tree): string
    requires Writable(t) && Named(t.kind)
  {
    "<" + t.name.value + (if HasFlags(TypeValue(t.kind), HAS_ATTR) then AttributesText(t.attrs) else []) + ">"
  }

  /** When the type has HAS_TEXT: the text, the children when it also has HAS_CHILD, and `</name>`. */
  function Body(t: Tree): string
    requires Writable(t) && Named(t.kind)
    decreases t, 0
  {
    var ty := TypeValue(t.kind);
    if HasFlags(ty, HAS_TEXT) then
      t.innerText.GetOr("") + (if HasFlags(ty, HAS_CHILD) then Children(t.children) else []) + ("</" + t.name.value + ">")
    else []
  }

  /** The children, in order. */
  function Children(cs: seq<Tree>): string
    requires forall i | 0 <= i < |cs| :: Writable(cs[i])
    decreases cs
  {
    if cs == [] then [] else Element(cs[0]) + Children(cs[1..])
  }

  lemma ChildrenAt(cs: seq<Tree>, i: nat)
    requires i < |cs| && forall j | 0 <= j < |cs| :: Writable(cs[j])
    ensures Children(cs[i..]) == Element(cs[i]) + Children(cs[i + 1..])
  {
    assert cs[i..][0] == cs[i] && cs[i..][1..] == cs[i + 1..];
  }

  lemma AttributesTextAt(attrs: seq<Attr>, i: nat)
    requires i < |attrs| && AsciiValues(attrs)
    ensures AsciiValues(attrs[i..]) && AsciiValues(attrs[i + 1..])
    ensures AttributesText(attrs[i..]) == AttributeText(attrs[i]) + AttributesText(attrs[i + 1..])
  {
    assert attrs[i..][0] == attrs[i] && attrs[i..][1..] == attrs[i + 1..];
  }

  lemma EscapeValueAt(v: string, i: nat)
    requires i < |v| && Ascii(v)
    ensures Ascii(v[i..]) && Ascii(v[i + 1..])
    ensures EscapeValue(v[i..]) == EscapeByte(v[i]) + EscapeValue(v[i + 1..])
  {
    assert v[i..][0] == v[i] && v[i..][1..] == v[i + 1..];
  }

  // ---------------------------------------------------------------------
  // What each kind writes

  /** A SINGLE has no HAS_TEXT: its text, its children and its close tag are never written. */
  lemma SingleWritesNoClose(t: Tree, text: Option<string>, cs: seq<Tree>)
    requires t.kind == Single && Writable(t) && forall i | 0 <= i < |cs| :: Writable(cs[i])
    ensures Writable(t.(innerText := text, children := cs))
    ensures Element(t.(innerText := text, children := cs)) == Element(t)
    ensures Element(t) == "<" + t.name.value + AttributesText(t.attrs) + ">" + t.afterText.GetOr("")
  {
    Capabilities(Single);
    var u := t.(innerText := text, children := cs);
    assert Body(t) == [] && Body(u) == [];
    assert OpenTag(u) == OpenTag(t);
    assert Element(u) == Tagged(u) + u.afterText.GetOr("");
  }

  /** A SCRIPT has HAS_TEXT but not HAS_CHILD: text and close tag are written, children never. */
  lemma ScriptWritesNoChildren(t: Tree, cs: seq<Tree>)
    requires t.kind == Script && Writable(t) && forall i | 0 <= i < |cs| :: Writable(cs[i])
    ensures Writable(t.(children := cs))
    ensures Element(t.(children := cs)) == Element(t)
    ensures Element(t) == "<" + t.name.value + AttributesText(t.attrs) + ">" + t.innerText.GetOr("")
      + "</" + t.name.value + ">" + t.afterText.GetOr("")
  {
    Capabilities(Script);
    var u := t.(children := cs);
    assert Body(t) == t.innerText.GetOr("") + [] + ("</" + t.name.value + ">") == Body(u);
    assert OpenTag(u) == OpenTag(t);
    assert Element(u) == Tagged(u) + u.afterText.GetOr("");
  }

  /** A TAG has every flag: attributes, text, children and close tag, then its interval. */
  lemma TagWritesAll(t: Tree)
    requires t.kind == Tag && Writable(t)
    ensures Element(t) == "<" + t.name.value + AttributesText(t.attrs) + ">" + t.innerText.GetOr("")
      + Children(t.children) + "</" + t.name.value + ">" + t.afterText.GetOr("")
  {
    Capabilities(Tag);
    assert Body(t) == t.innerText.GetOr("") + Children(t.children) + ("</" + t.name.value + ">");
    assert Element(t) == Tagged(t) + t.afterText.GetOr("");
    TagPieces(t.name.value, AttributesText(t.attrs), t.innerText.GetOr(""), Children(t.children), t.afterText.GetOr(""));
  }

  /** The pieces of a written TAG, regrouped. */
  lemma TagPieces(name: string, attrs: string, inner: string, kids: string, after: string)
    ensures ("<" + name + attrs + ">") + (inner + kids + ("</" + name + ">")) + after
      == "<" + name + attrs + ">" + inner + kids + "</" + name + ">" + after
  {
  }

  /** An object of no type has no flags: only `<name>` and its interval, whatever attributes it holds. */
  lemma NoTypeWritesBareTag(t: Tree)
    requires t.kind == NoType && Writable(t)
    ensures Element(t) == "<" + t.name.value + ">" + t.afterText.GetOr("")
  {
    Capabilities(NoType);
    assert Body(t) == [] && OpenTag(t) == "<" + t.name.value + [] + ">";
    assert Element(t) == Tagged(t) + t.afterText.GetOr("");
  }

  /** Comments, doctypes and XML depend on nothing but their kind and text: the interval is dropped. */
  lemma UnnamedDropInterval(t: Tree, after: Option<string>, attrs: seq<Attr>, cs: seq<Tree>)
    requires t.kind == Comment || t.kind == Doctype || t.kind == Xml
    requires Writable(t) && AsciiValues(attrs) && forall i | 0 <= i < |cs| :: Writable(cs[i])
    ensures Writable(t.(afterText := after, attrs := attrs, children := cs))
    ensures Element(t.(afterText := after, attrs := attrs, children := cs)) == Element(t)
    ensures t.kind == Xml ==> Element(t) == XmlPlaceholder
  {
  }

  /** A document is its children's output, concatenated. */
  lemma {:induction false} ChildrenAppend(a: seq<Tree>, b: seq<Tree>)
    requires forall i | 0 <= i < |a| :: Writable(a[i])
    requires forall i | 0 <= i < |b| :: Writable(b[i])
    ensures forall i | 0 <= i < |a + b| :: Writable((a + b)[i])
    ensures Children(a + b) == Children(a) + Children(b)
  {
    assert forall i | 0 <= i < |a + b| :: (a + b)[i] == if i < |a| then a[i] else b[i - |a|];
    if a == [] {
      assert a + b == b;
    } else {
      assert (a + b)[0] == a[0] && (a + b)[1..] == a[1..] + b;
      ChildrenAppend(a[1..], b);
    }
  }

  // ---------------------------------------------------------------------
  // The two generations' writers

  /** Trees whose every node is a named TAG, a comment, a doctype or a document. */
  predicate Plain(t: Tree)
    decreases t
  {
    (t.kind == Tag || t.kind == Comment || t.kind == Doctype || t.kind == Document)
    && (t.kind == Tag ==> t.name.Some?) && AsciiValues(t.attrs)
    && forall i | 0 <= i < |t.children| :: Plain(t.children[i])
  }

  lemma {:induction false} PlainWritable(t: Tree)
    requires Plain(t)
    ensures Writable(t)
    decreases t
  {
    forall i | 0 <= i < |t.children| ensures Writable(t.children[i]) {
      PlainWritable(t.children[i]);
    }
  }

  /**
   * On such trees the v1 writer and the corrected v2 writer agree byte for
   * byte (the v2 writer as written differs in its backslash escape and its
   * doctype opener).
   */
  lemma {:induction false} SameAsCorrectedV2(t: Tree)
    requires Plain(t)
    ensures Writable(t) && Element(t) == Writer.Serialize(t, Intended)
    decreases t, 1
  {
    PlainWritable(t);
    if t.kind == Document {
      ChildrenSameAsCorrectedV2(t.children);
    } else if t.kind == Tag {
      ChildrenSameAsCorrectedV2(t.children);
      TagSameAsCorrectedV2(t);
    }
  }

  lemma TagSameAsCorrectedV2(t: Tree)
    requires t.kind == Tag && Writable(t) && t.name.Some?
    requires Children(t.children) == Writer.SerializeChildren(t.children, Intended)
    ensures Element(t) == Writer.Serialize(t, Intended)
  {
    Capabilities(Tag);
    var o := OpenTag(t);
    var i := t.innerText.GetOr("");
    var k := Children(t.children);
    var c := "</" + t.name.value + ">";
    var a := t.afterText.GetOr("");
    assert Writer.ObjectName(t) == t.name.value;
    assert o == Writer.OpenTag(t, Intended);
    assert c == Writer.CloseTag(t);
    assert Body(t) == i + k + c;
    assert Element(t) == o + (i + k + c) + a;
    assert Writer.Serialize(t, Intended) == o + i + k + c + a;
    ConcatAssoc(o, i + k, c);
    ConcatAssoc(o, i, k);
  }

  lemma {:induction false} ChildrenSameAsCorrectedV2(cs: seq<Tree>)
    requires forall i | 0 <= i < |cs| :: Plain(cs[i])
    ensures forall i | 0 <= i < |cs| :: Writable(cs[i])
    ensures Children(cs) == Writer.SerializeChildren(cs, Intended)
    decreases cs, 0
  {
    forall i | 0 <= i < |cs| ensures Writable(cs[i]) { PlainWritable(cs[i]); }
    if cs != [] {
      SameAsCorrectedV2(cs[0]);
      assert forall i | 0 <= i < |cs[1..]| :: cs[1..][i] == cs[i + 1];
      ChildrenSameAsCorrectedV2(cs[1..]);
    }
  }

  // ---------------------------------------------------------------------
  // Reading a written value back with the v1 reader

  /** The characters the v1 writer and reader agree on: all but the two quotes. */
  predicate Survives(c: char)
  {
    c != '"' && c != '\''
  }

  /** One written character read back by _HTML_ParseFormatedString. */
  lemma DecodeByte(s: string, p: nat, c: char)
    requires 0 < c as int < 128 && Survives(c)
    requires Writer.At(s, p, EscapeByte(c)) && p + |EscapeByte(c)| < |s|
    ensures Reader.Formatted(s, p, '"' as int) == Reader.Prepend(c, Reader.Formatted(s, p + |EscapeByte(c)|, '"' as int))
  {
    var a := EscapeByte(c);
    assert s[p] == a[0];
    if Writer.IsEscaped(c) {
      assert s[p + 1] == a[1];
    }
  }

  /** An escaped body followed by its closing quote reads back as the value. */
  lemma DecodeValue(s: string, p: nat, v: string)
    requires Ascii(v) && forall i | 0 <= i < |v| :: Survives(v[i])
    requires Writer.At(s, p, EscapeValue(v)) && p + |EscapeValue(v)| < |s| && s[p + |EscapeValue(v)|] == '"'
    ensures Reader.Formatted(s, p, '"' as int) == Reader.Scan(v, p + |EscapeValue(v)| + 1)
  {
    Writer.BodyWrites(s, p, v, Intended);
    AllQuoteless(v);
    DecodeWritten(s, p, v);
  }

  /** No quote anywhere in v, one character at a time. */
  predicate Quoteless(v: string)
    decreases |v|
  {
    v == [] || (Survives(v[0]) && Quoteless(v[1..]))
  }

  lemma {:induction false} AllQuoteless(v: string)
    requires forall i | 0 <= i < |v| :: Survives(v[i])
    ensures Quoteless(v)
    decreases |v|
  {
    if v != [] {
      assert forall i | 0 <= i < |v[1..]| :: v[1..][i] == v[i + 1];
      AllQuoteless(v[1..]);
    }
  }

  /** The body as the corrected writer lays it out, read by the v1 reader, which agrees on every character but the quotes. */
  lemma {:induction false} DecodeWritten(s: string, p: nat, v: string)
    requires Writer.Writes(s, p, v, Intended) && Quoteless(v)
    ensures p + |Writer.EscapeText(v, Intended)| < |s|
    ensures Reader.Formatted(s, p, '"' as int) == Reader.Scan(v, p + |Writer.EscapeText(v, Intended)| + 1)
    decreases |v|
  {
    if v != [] {
      var n := |EscapeByte(v[0])|;
      DecodeByte(s, p, v[0]);
      DecodeWritten(s, p + n, v[1..]);
      assert |Writer.EscapeText(v, Intended)| == n + |Writer.EscapeText(v[1..], Intended)|;
      Writer.PrependScan(v, p + |Writer.EscapeText(v, Intended)| + 1);
    }
  }

  /**
   * The v1 writer and reader agree on every value without quotes: a
   * backslash written as `\\` reads back as one backslash, because the
   * reader's fallback puts the backslash it saw.
   */
  lemma RoundTrip(v: string, rest: string)
    requires Ascii(v) && forall i | 0 <= i < |v| :: Survives(v[i])
    ensures var w := "\"" + EscapeValue(v) + "\"";
      Reader.Formatted(w + rest, 1, '"' as int) == Reader.Scan(v, |w|)
  {
    Writer.QuotedBody(v, rest, Intended);
    DecodeValue(Writer.Quoted(v, Intended) + rest, 1, v);
  }

  /** A quote is written as `\"` and read back as a lone backslash; the string closes at the next quote. */
  lemma QuoteReadsAsBackslash()
    ensures EscapeValue("\"") == ['\\', '"'] && EscapeValue("'") == ['\\', '\'']
    ensures Reader.Formatted("\"" + EscapeValue("\"") + "\"", 1, '"' as int).text == "\\"
    ensures Reader.Formatted("\"" + EscapeValue("'") + "\"", 1, '"' as int).text == "\\"
  {
    Writer.QuoteReadsAsBackslash();
    assert EscapeValue("\"") == Writer.EscapeText("\"", Intended) == Writer.EscapeText("\"", AsWritten);
    assert EscapeValue("'") == Writer.EscapeText("'", Intended) == Writer.EscapeText("'", AsWritten);
  }

  // ---------------------------------------------------------------------
  // The output is a C string

  lemma {:induction false} ElementBytes(t: Tree)
    requires Writable(t) && CTree(t)
    ensures CBytes(Element(t))
    decreases t, 2
  {
    var inner := t.innerText.GetOr("");
    if t.kind == Comment {
      Writer.CBytesConcat("<!--", inner);
      Writer.CBytesConcat("<!--" + inner, "-->");
    } else if t.kind == Doctype {
      Writer.CBytesConcat("<!DOCTYPE ", inner);
      Writer.CBytesConcat("<!DOCTYPE " + inner, ">");
    } else if t.kind == Xml {
    } else if t.kind == Document {
      ChildrenBytes(t.children);
    } else {
      OpenTagBytes(t);
      BodyBytes(t);
      Writer.CBytesConcat(OpenTag(t), Body(t));
      Writer.CBytesConcat(Tagged(t), t.afterText.GetOr(""));
    }
  }

  lemma OpenTagBytes(t: Tree)
    requires Writable(t) && CTree(t) && Named(t.kind)
    ensures CBytes(OpenTag(t))
  {
    var name := t.name.value;
    var attrs := if HasFlags(TypeValue(t.kind), HAS_ATTR) then AttributesText(t.attrs) else [];
    Writer.AttributesBytes(t.attrs);
    Writer.CBytesConcat("<", name);
    Writer.CBytesConcat("<" + name, attrs);
    Writer.CBytesConcat("<" + name + attrs, ">");
  }

  lemma {:induction false} BodyBytes(t: Tree)
    requires Writable(t) && CTree(t) && Named(t.kind)
    ensures CBytes(Body(t))
    decreases t, 1
  {
    var ty := TypeValue(t.kind);
    if HasFlags(ty, HAS_TEXT) {
      var name := t.name.value;
      var inner := t.innerText.GetOr("");
      var kids := if HasFlags(ty, HAS_CHILD) then Children(t.children) else [];
      ChildrenBytes(t.children);
      Writer.CBytesConcat(inner, kids);
      Writer.CBytesConcat("</", name);
      Writer.CBytesConcat("</" + name, ">");
      Writer.CBytesConcat(inner + kids, "</" + name + ">");
    }
  }

  lemma {:induction false} ChildrenBytes(cs: seq<Tree>)
    requires forall i | 0 <= i < |cs| :: Writable(cs[i]) && CTree(cs[i])
    ensures CBytes(Children(cs))
    decreases cs, 0
  {
    if cs != [] {
      ElementBytes(cs[0]);
      assert forall i | 0 <= i < |cs[1..]| :: cs[1..][i] == cs[i + 1];
      ChildrenBytes(cs[1..]);
      Writer.CBytesConcat(Element(cs[0]), Children(cs[1..]));
    }
  }

  /** So the buffer HTML_WriteElementToString hands out reads as the whole output. */
  lemma WholeOutput(t: Tree)
    requires Writable(t) && CTree(t)
    ensures CPrefix(Element(t)) == Element(t)
  {
    ElementBytes(t);
    CPrefixOfCString(Element(t));
  }

  // ---------------------------------------------------------------------
  // Writing to an HTML_String

  /** One character of the value loop: the table entry through puts, or the character through putc. */
  method PutValueChar(c: char, s: HtmlString)
    requires s.Valid() && 0 < c as int < 128
    modifies s, s.buffer
    ensures s.Valid() && s.Contents() == old(s.Contents()) + EscapeByte(c)
    ensures s.buffer == old(s.buffer) || fresh(s.buffer)
  {
    if c as int < 93 {
      var ret := Converts(c);
      if ret != [] {
        var _ := s.PutCString(ret);
        return;
      }
    }
    var _ := s.PutChar(c as int);
  }

  /** A C string through puts. */
  method PutText(text: string, s: HtmlString)
    requires s.Valid() && CBytes(text)
    modifies s, s.buffer
    ensures s.Valid() && s.Contents() == old(s.Contents()) + text
    ensures s.buffer == old(s.buffer) || fresh(s.buffer)
  {
    assert CString(text) by {
      forall i | 0 <= i < |text| ensures text[i] != '\0' { assert 0 < text[i] as int; }
    }
    var _ := s.PutCString(text);
  }

  /** The value loop of HTML_WriteAttributesToStream, between its quotes. */
  method PutValue(v: string, s: HtmlString)
    requires s.Valid() && Ascii(v)
    modifies s, s.buffer
    ensures s.Valid() && s.Contents() == old(s.Contents()) + EscapeValue(v)
    ensures s.buffer == old(s.buffer) || fresh(s.buffer)
  {
    var i := 0;
    assert v[0..] == v;
    while i < |v|
      invariant 0 <= i <= |v|
      invariant s.Valid() && (s.buffer == old(s.buffer) || fresh(s.buffer))
      invariant s.Contents() + EscapeValue(v[i..]) == old(s.Contents()) + EscapeValue(v)
    {
      ghost var before := s.Contents();
      EscapeValueAt(v, i);
      PutValueChar(v[i], s);
      ConcatAssoc(before, EscapeByte(v[i]), EscapeValue(v[i + 1..]));
      i := i + 1;
    }
  }

  /** One attribute of HTML_WriteAttributesToStream. */
  method PutAttribute(a: Attr, s: HtmlString)
    requires s.Valid() && CBytes(a.name) && (a.value.Some? ==> Ascii(a.value.value))
    modifies s, s.buffer
    ensures s.Valid() && s.Contents() == old(s.Contents()) + AttributeText(a)
    ensures s.buffer == old(s.buffer) || fresh(s.buffer)
  {
    ghost var start := s.Contents();
    var _ := s.PutChar(' ' as int);
    PutText(a.name, s);
    ConcatAssoc(start, [' '], a.name);
    if a.value.Some? {
      ghost var named := s.Contents();
      var v := a.value.value;
      PutText("=\"", s);
      PutValue(v, s);
      ConcatAssoc(named, "=\"", EscapeValue(v));
      var _ := s.PutChar('"' as int);
      ConcatAssoc(named, "=\"" + EscapeValue(v), "\"");
      ConcatAssoc(start, [' '] + a.name, "=\"" + EscapeValue(v) + "\"");
    }
  }

  /** HTML_WriteAttributesToStream: each attribute in list order; always 0. */
  method WriteAttributesToStream(attrs: seq<Attr>, s: HtmlString) returns (r: int)
    requires s.Valid() && AsciiValues(attrs)
    requires forall i | 0 <= i < |attrs| :: CBytes(attrs[i].name)
    modifies s, s.buffer
    ensures s.Valid() && s.Contents() == old(s.Contents()) + AttributesText(attrs)
    ensures s.buffer == old(s.buffer) || fresh(s.buffer)
    ensures r == 0
  {
    var i := 0;
    assert attrs[0..] == attrs;
    while i < |attrs|
      invariant 0 <= i <= |attrs|
      invariant s.Valid() && (s.buffer == old(s.buffer) || fresh(s.buffer))
      invariant s.Contents() + AttributesText(attrs[i..]) == old(s.Contents()) + AttributesText(attrs)
    {
      ghost var before := s.Contents();
      AttributesTextAt(attrs, i);
      PutAttribute(attrs[i], s);
      ConcatAssoc(before, AttributeText(attrs[i]), AttributesText(attrs[i + 1..]));
      i := i + 1;
    }
    return 0;
  }

  /**
   * HTML_WriteElementToStream: append the element's output; -1 for XML, 0
   * otherwise (a document ignores what its children return).
   */
  method WriteElementToStream(t: Tree, s: HtmlString) returns (r: int)
    requires s.Valid() && Writable(t) && CTree(t)
    modifies s, s.buffer
    ensures s.Valid() && s.Contents() == old(s.Contents()) + Element(t)
    ensures s.buffer == old(s.buffer) || fresh(s.buffer)
    ensures r == if t.kind == Xml then -1 else 0
    decreases t, 4
  {
    if t.kind == Comment || t.kind == Doctype {
      WriteTextual(t, s);
      return 0;
    }
    if t.kind == Xml {
      PutText(XmlPlaceholder, s);
      return -1;
    }
    if t.kind == Document {
      WriteChildren(t, s);
      return 0;
    }
    ghost var start := s.Contents();
    WriteOpenTag(t, s);
    WriteBody(t, s);
    ConcatAssoc(start, OpenTag(t), Body(t));
    if t.afterText.Some? {
      PutText(t.afterText.value, s);
    }
    ConcatAssoc(start, Tagged(t), t.afterText.GetOr(""));
    return 0;
  }

  /** The comment and doctype branches: opener, text unless NULL, closer. */
  method WriteTextual(t: Tree, s: HtmlString)
    requires t.kind == Comment || t.kind == Doctype
    requires s.Valid() && Writable(t) && CTree(t)
    modifies s, s.buffer
    ensures s.Valid() && s.Contents() == old(s.Contents()) + Element(t)
    ensures s.buffer == old(s.buffer) || fresh(s.buffer)
  {
    ghost var start := s.Contents();
    var inner := t.innerText.GetOr("");
    var opener := if t.kind == Comment then "<!--" else "<!DOCTYPE ";
    var closer := if t.kind == Comment then "-->" else ">";
    PutText(opener, s);
    if t.innerText.Some? {
      PutText(t.innerText.value, s);
    }
    ConcatAssoc(start, opener, inner);
    if t.kind == Comment {
      PutText(closer, s);
    } else {
      var _ := s.PutChar('>' as int);
    }
    ConcatAssoc(start, opener + inner, closer);
  }

  /** `<`, the name, the attributes when the type has HAS_ATTR, `>`. */
  method WriteOpenTag(t: Tree, s: HtmlString)
    requires s.Valid() && Writable(t) && CTree(t) && Named(t.kind)
    modifies s, s.buffer
    ensures s.Valid() && s.Contents() == old(s.Contents()) + OpenTag(t)
    ensures s.buffer == old(s.buffer) || fresh(s.buffer)
  {
    ghost var start := s.Contents();
    var name := t.name.value;
    var attrs := if HasFlags(TypeValue(t.kind), HAS_ATTR) then AttributesText(t.attrs) else [];
    var _ := s.PutChar('<' as int);
    PutText(name, s);
    ConcatAssoc(start, "<", name);
    if HasFlags(TypeValue(t.kind), HAS_ATTR) {
      var _ := WriteAttributesToStream(t.attrs, s);
    }
    ConcatAssoc(start, "<" + name, attrs);
    var _ := s.PutChar('>' as int);
    ConcatAssoc(start, "<" + name + attrs, ">");
  }

  /** When the type has HAS_TEXT: the text unless NULL, the children when it has HAS_CHILD, `</name>`. */
  method WriteBody(t: Tree, s: HtmlString)
    requires s.Valid() && Writable(t) && CTree(t) && Named(t.kind)
    modifies s, s.buffer
    ensures s.Valid() && s.Contents() == old(s.Contents()) + Body(t)
    ensures s.buffer == old(s.buffer) || fresh(s.buffer)
    decreases t, 3
  {
    var ty := TypeValue(t.kind);
    if HasFlags(ty, HAS_TEXT) {
      ghost var start := s.Contents();
      var withChildren := HasFlags(ty, HAS_CHILD);
      WriteContent(t, withChildren, s);
      PutCloseTag(t.name.value, s);
      ConcatAssoc(start, t.innerText.GetOr("") + (if withChildren then Children(t.children) else []), "</" + t.name.value + ">");
    }
  }

  /** The text unless NULL, then the children when the type has HAS_CHILD. */
  method WriteContent(t: Tree, withChildren: bool, s: HtmlString)
    requires s.Valid() && Writable(t) && CTree(t)
    modifies s, s.buffer
    ensures s.Valid() && s.Contents() == old(s.Contents()) + (t.innerText.GetOr("") + (if withChildren then Children(t.children) else []))
    ensures s.buffer == old(s.buffer) || fresh(s.buffer)
    decreases t, 2
  {
    ghost var start := s.Contents();
    ghost var kids := if withChildren then Children(t.children) else [];
    if t.innerText.Some? {
      PutText(t.innerText.value, s);
    }
    if withChildren {
      WriteChildren(t, s);
    }
    ConcatAssoc(start, t.innerText.GetOr(""), kids);
  }

  /** `</`, the name, `>`. */
  method PutCloseTag(name: string, s: HtmlString)
    requires s.Valid() && CBytes(name)
    modifies s, s.buffer
    ensures s.Valid() && s.Contents() == old(s.Contents()) + ("</" + name + ">")
    ensures s.buffer == old(s.buffer) || fresh(s.buffer)
  {
    ghost var start := s.Contents();
    PutText("</", s);
    PutText(name, s);
    var _ := s.PutChar('>' as int);
    ConcatAssoc(start, "</", name);
    ConcatAssoc(start, "</" + name, ">");
  }

  /** The child loop: each child written in order. */
  method WriteChildren(t: Tree, s: HtmlString)
    requires s.Valid() && Writable(t) && CTree(t)
    modifies s, s.buffer
    ensures s.Valid() && s.Contents() == old(s.Contents()) + Children(t.children)
    ensures s.buffer == old(s.buffer) || fresh(s.buffer)
    decreases t, 1
  {
    var cs := t.children;
    var i := 0;
    assert cs[0..] == cs;
    while i < |cs|
      invariant 0 <= i <= |cs|
      invariant s.Valid() && (s.buffer == old(s.buffer) || fresh(s.buffer))
      invariant s.Contents() + Children(cs[i..]) == old(s.Contents()) + Children(cs)
    {
      ghost var before := s.Contents();
      ChildrenAt(cs, i);
      var _ := WriteElementToStream(cs[i], s);
      ConcatAssoc(before, Element(cs[i]), Children(cs[i + 1..]));
      i := i + 1;
    }
  }

  /**
   * HTML_WriteElementToString: NULL for a NULL element; otherwise the
   * element written into a fresh 256-byte HTML_String, NUL-terminated, with
   * its length for *lpSize.
   */
  method WriteElementToString(t: Option<Tree>) returns (r: Option<string>, lpSize: nat)
    requires t.Some? ==> Writable(t.value) && CTree(t.value)
    ensures t.None? ==> r.None?
    ensures t.Some? ==> r == Some(Element(t.value)) && lpSize == |Element(t.value)|
  {
    if t.None? {
      return None, 0;
    }
    var str := new HtmlString.Create(256);
    var _ := WriteElementToStream(t.value, str);
    assert str.Contents() == Element(t.value);
    var text := str.ConvertStringToCString();
    assert str.Contents() == Element(t.value) && |str.Contents()| == str.length;
    WholeOutput(t.value);
    return Some(text), str.length;
  }
}

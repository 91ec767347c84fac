/**
 * The v2 writer (myhtml2/myhtml_writer.h): an object tree serialised to a
 * stream, attribute values quoted with backslash escapes.  The output is a
 * function of the tree; the stream methods append exactly that output.
 *
 * Two literals in the writer carry one byte more than their text: the
 * backslash escape writes 2 bytes of the 1-character literal "\\", and the
 * doctype opener writes 11 bytes of the 10-character "<!DOCTYPE ".  Both
 * extra bytes are the literal's NUL.  The functions take an Edition so that
 * the output as written and the output evidently meant sit side by side.
 */
module Writer {
  import opened Wrappers
  import opened Defines
  import opened Chars
  import opened Attributes
  import opened Document
  import opened Stream
  import Reader

  /** The characters the value writer escapes. */
  predicate IsEscaped(c: char)
  {
    c == '\\' || c == '"' || c == '\'' || c == '\t' || c == '\r' || c == '\n' || c == 7 as char
  }

  /** The bytes one character of a value is written as: a two-byte escape, or the character itself. */
  function EscapeChar(c: char, e: Edition): (r: string)
    ensures IsEscaped(c) ==> |r| == 2 && r[0] == '\\'
    ensures !IsEscaped(c) ==> r == [c]
  {
    if c == '\\' then (if e == AsWritten then ['\\', '\0'] else ['\\', '\\'])
    else if c == '"' then ['\\', '"']
    else if c == '\'' then ['\\', '\'']
    else if c == '\t' then ['\\', 't']
    else if c == '\r' then ['\\', 'r']
    else if c == '\n' then ['\\', 'n']
    else if c == 7 as char then ['\\', 'a']
    else [c]
  }

  /** A value with every character escaped. */
  function EscapeText(v: string, e: Edition): (r: string)
    ensures |v| <= |r| <= 2 * |v|
  {
    if v == [] then [] else EscapeChar(v[0], e) + EscapeText(v[1..], e)
  }

  lemma EscapeTextAt(v: string, i: nat, e: Edition)
    requires i < |v|
    ensures EscapeText(v[i..], e) == EscapeChar(v[i], e) + EscapeText(v[i + 1..], e)
  {
    assert v[i..][0] == v[i] && v[i..][1..] == v[i + 1..];
  }

  /** HtmlLibWriteFormattedStringToStream's output: the escaped value between double quotes. */
  function Quoted(v: string, e: Edition): (r: string)
    ensures |r| == |EscapeText(v, e)| + 2 && r[0] == '"' && r[|r| - 1] == '"'
  {
    ['"'] + EscapeText(v, e) + ['"']
  }

  /** One attribute: a space and the name, then `=` and the quoted value unless the value is NULL. */
  function AttributeText(a: Attr, e: Edition): string
  {
    [' '] + a.name + (if a.value.Some? then ['='] + Quoted(a.value.value, e) else [])
  }

  /** HtmlLibWriteAttributesToStream's output: the attributes in list order. */
  function AttributesText(attrs: seq<Attr>, e: Edition): string
  {
    if attrs == [] then [] else AttributeText(attrs[0], e) + AttributesText(attrs[1..], e)
  }

  lemma AttributesTextAt(attrs: seq<Attr>, i: nat, e: Edition)
    requires i < |attrs|
    ensures AttributesText(attrs[i..], e) == AttributeText(attrs[i], e) + AttributesText(attrs[i + 1..], e)
  {
    assert attrs[i..][0] == attrs[i] && attrs[i..][1..] == attrs[i + 1..];
  }

  /** A name the getter makes up: text between parentheses. */
  predicate Placeholder(s: string)
  {
    |s| >= 2 && s[0] == '(' && s[|s| - 1] == ')'
  }

  /** HtmlGetObjectName on an object: a placeholder for the unnamed kinds, "(unknown)" for a missing name. */
  function ObjectName(t: Tree): (r: string)
    ensures t.kind in {NoType, Document, Doctype, Comment} || t.name.None? ==> Placeholder(r)
    ensures t.kind !in {NoType, Document, Doctype, Comment} && t.name.Some? ==> r == t.name.value
  {
    match t.kind
    case NoType => "(none)"
    case Document => "(document)"
    case Doctype => "(doctype)"
    case Comment => "(comment)"
    case _ => t.name.GetOr("(unknown)")
  }

  /** HtmlGetObjectName, NULL pointer included. */
  function GetObjectName(t: Option<Tree>): (r: string)
    ensures t.None? ==> r == "(null pointer)"
    ensures t.Some? && (t.value.kind in {NoType, Document, Doctype, Comment} || t.value.name.None?) ==> Placeholder(r)
    ensures t.Some? && t.value.kind !in {NoType, Document, Doctype, Comment} && t.value.name.Some? ==> r == t.value.name.value
  {
    if t.None? then "(null pointer)" else ObjectName(t.value)
  }

  /** The placeholders of the four unnamed kinds differ, so the name tells those kinds apart. */
  lemma UnnamedKindsDistinct(t: Tree, u: Tree)
    requires t.kind in {NoType, Document, Doctype, Comment}
    requires u.kind in {NoType, Document, Doctype, Comment}
    ensures ObjectName(t) == ObjectName(u) <==> t.kind == u.kind
  {
    if t.kind != u.kind {
      var a, b := ObjectName(t), ObjectName(u);
      assert a[1] != b[1] || a[2] != b[2] || |a| != |b|;
    }
  }

  /** The bytes the doctype branch opens with. */
  function DoctypeOpen(e: Edition): string
  {
    if e == AsWritten then "<!DOCTYPE " + ['\0'] else "<!DOCTYPE "
  }

  /**
   * HtmlLibWriteObjectToStream's output.  A comment is `<!--`, its text and
   * `-->`, and its afterText is dropped; a doctype is the opener, its text
   * and `>`; a document is its children; every other kind is the open tag
   * with the attributes, the innerText, the children, the close tag unless
   * SINGLE, and the afterText.
   */
  function Serialize(t: Tree, e: Edition): string
    decreases t, 1
  {
    if t.kind == Comment then "<!--" + t.innerText.GetOr("") + "-->"
    else if t.kind == Doctype then DoctypeOpen(e) + t.innerText.GetOr("") + ">"
    else if t.kind == Document then SerializeChildren(t.children, e)
    else
      OpenTag(t, e) + t.innerText.GetOr("") + SerializeChildren(t.children, e) + CloseTag(t) + t.afterText.GetOr("")
  }

  /** `<`, the name, the attributes, `>`. */
  function OpenTag(t: Tree, e: Edition): string
  {
    "<" + ObjectName(t) + AttributesText(t.attrs, e) + ">"
  }

  /** `</`, the name, `>`; nothing for a SINGLE. */
  function CloseTag(t: Tree): string
  {
    if t.kind != Single then "</" + ObjectName(t) + ">" else ""
  }

  /** The children, in order. */
  function SerializeChildren(cs: seq<Tree>, e: Edition): string
    decreases cs, 0
  {
    if cs == [] then [] else Serialize(cs[0], e) + SerializeChildren(cs[1..], e)
  }

  lemma SerializeChildrenAt(cs: seq<Tree>, i: nat, e: Edition)
    requires i < |cs|
    ensures SerializeChildren(cs[i..], e) == Serialize(cs[i], e) + SerializeChildren(cs[i + 1..], e)
  {
    assert cs[i..][0] == cs[i] && cs[i..][1..] == cs[i + 1..];
  }

  // ---------------------------------------------------------------------
  // Properties of the output

  /** A document's output is the concatenation of its parts' outputs. */
  lemma {:induction false} SerializeChildrenAppend(a: seq<Tree>, b: seq<Tree>, e: Edition)
    ensures SerializeChildren(a + b, e) == SerializeChildren(a, e) + SerializeChildren(b, e)
  {
    if a == [] {
      assert a + b == b;
    } else {
      assert (a + b)[0] == a[0] && (a + b)[1..] == a[1..] + b;
      SerializeChildrenAppend(a[1..], b, e);
    }
  }

  /** A comment's output depends on its text alone: afterText, attributes and children are never written. */
  lemma CommentIgnoresRest(t: Tree, after: Option<string>, attrs: seq<Attr>, cs: seq<Tree>, e: Edition)
    requires t.kind == Comment
    ensures Serialize(t.(afterText := after, attrs := attrs, children := cs), e) == Serialize(t, e)
    ensures Serialize(t, e) == "<!--" + t.innerText.GetOr("") + "-->"
  {
  }

  /** A TAG written as a SINGLE loses only its close tag. */
  lemma SingleDropsClose(t: Tree, e: Edition)
    requires t.kind == Tag && t.name.Some?
    ensures Serialize(t, e) ==
      Serialize(t.(kind := Single, afterText := None), e) + "</" + t.name.value + ">" + t.afterText.GetOr("")
  {
  }

  /** A deep copy has no kind and no name, so its tags are written as "(none)". */
  lemma CopyWritesNone(t: Tree, e: Edition)
    requires t.kind == Tag
    ensures Serialize(Copy(t, AsWritten), e)[..7] == "<(none)"
  {
    CopyFields(t, AsWritten);
    var c := Copy(t, AsWritten);
    var w := "<" + ObjectName(c) + AttributesText(c.attrs, e);
    assert ObjectName(c) == "(none)";
    assert Serialize(c, e)[..7] == w[..7];
  }

  // ---------------------------------------------------------------------
  // Reading a written value back

  /** The decoding the reader evidently meant: an unknown escape puts the escaped byte itself. */
  function UnescapeIntended(c: int): (r: char)
    ensures 0 <= c < 256 && c != 'a' as int && c != 'r' as int && c != 'n' as int && c != 't' as int ==> r as int == c
  {
    if c == 'a' as int then 7 as char
    else if c == 'r' as int then '\r'
    else if c == 'n' as int then '\n'
    else if c == 't' as int then '\t'
    else if 0 <= c < 256 then c as char
    else '\\'
  }

  /** The escape after a backslash with the meant decoding; \xHH as the reader has it. */
  function EscapeIntended(s: string, p: nat): (r: Reader.Decoded)
    requires p <= |s|
    ensures p <= r.next <= |s| && (p < |s| ==> p < r.next)
  {
    var p1 := Reader.Next(s, p);
    if Reader.Get(s, p) == 'x' as int then
      Reader.Decoded(ByteChar(Reader.HexToInt(Reader.Get(s, p1)) * 16 + Reader.HexToInt(Reader.Get(s, Reader.Next(s, p1)))), Reader.Next(s, Reader.Next(s, p1)))
    else Reader.Decoded(UnescapeIntended(Reader.Get(s, p)), p1)
  }

  /** HtmlLibParseFormatedString with the meant decoding of unknown escapes. */
  function FormattedIntended(s: string, p: nat, symbol: int): (r: Reader.Scan)
    requires p <= |s|
    ensures p <= r.next <= |s|
    decreases |s| - p
  {
    var c := Reader.Get(s, p);
    if c == symbol || c == EOF then Reader.Scan([], Reader.Next(s, p))
    else if c != '\\' as int then Reader.Prepend(s[p], FormattedIntended(s, p + 1, symbol))
    else
      var x := EscapeIntended(s, p + 1);
      Reader.Prepend(x.ch, FormattedIntended(s, x.next, symbol))
  }

  /** The reader of an edition: the library's own, or the meant one. */
  function Decode(s: string, p: nat, e: Edition): (r: Reader.Scan)
    requires p <= |s|
  {
    if e == AsWritten then Reader.Formatted(s, p, '"' as int) else FormattedIntended(s, p, '"' as int)
  }

  /** The characters an edition's writer and reader agree on: all of them once corrected. */
  predicate RoundTrips(c: char, e: Edition)
  {
    e == Intended || (c != '"' && c != '\'' && c != '\\')
  }

  /** s holds x from position p on. */
  predicate At(s: string, p: nat, x: string)
  {
    p + |x| <= |s| && forall i | 0 <= i < |x| :: s[p + i] == x[i]
  }

  lemma AtSplit(s: string, p: nat, a: string, b: string)
    requires At(s, p, a + b)
    ensures At(s, p, a) && At(s, p + |a|, b)
  {
    forall i | 0 <= i < |a| ensures s[p + i] == a[i] { assert (a + b)[i] == a[i]; }
    forall i | 0 <= i < |b| ensures s[p + |a| + i] == b[i] { assert (a + b)[|a| + i] == b[i]; }
  }

  /** One written character read back. */
  lemma DecodeChar(s: string, p: nat, c: char, e: Edition)
    requires 0 < c as int < 128 && RoundTrips(c, e)
    requires At(s, p, EscapeChar(c, e)) && p + |EscapeChar(c, e)| < |s|
    ensures Decode(s, p, e) == Reader.Prepend(c, Decode(s, p + |EscapeChar(c, e)|, e))
  {
    var a := EscapeChar(c, e);
    assert s[p] == a[0];
    if IsEscaped(c) {
      assert s[p + 1] == a[1];
    }
  }

  /** s holds, from position p on, the escaped v (each character one the edition round-trips) and then a closing quote. */
  predicate Writes(s: string, p: nat, v: string, e: Edition)
    decreases |v|
  {
    if v == [] then p < |s| && s[p] == '"'
    else
      var n := |EscapeChar(v[0], e)|;
      0 < v[0] as int < 128 && RoundTrips(v[0], e) && At(s, p, EscapeChar(v[0], e)) && p + n < |s| &&
      Writes(s, p + n, v[1..], e)
  }

  /** An escaped body followed by its closing quote reads back as the value. */
  lemma DecodeBody(s: string, p: nat, v: string, e: Edition)
    requires Ascii(v) && forall i | 0 <= i < |v| :: RoundTrips(v[i], e)
    requires At(s, p, EscapeText(v, e)) && p + |EscapeText(v, e)| < |s| && s[p + |EscapeText(v, e)|] == '"'
    ensures Decode(s, p, e) == Reader.Scan(v, p + |EscapeText(v, e)| + 1)
  {
    BodyWrites(s, p, v, e);
    DecodeWrites(s, p, v, e);
  }

  lemma {:induction false} BodyWrites(s: string, p: nat, v: string, e: Edition)
    requires Ascii(v) && forall i | 0 <= i < |v| :: RoundTrips(v[i], e)
    requires At(s, p, EscapeText(v, e)) && p + |EscapeText(v, e)| < |s| && s[p + |EscapeText(v, e)|] == '"'
    ensures Writes(s, p, v, e)
    decreases |v|
  {
    if v != [] {
      var a := EscapeChar(v[0], e);
      var b := EscapeText(v[1..], e);
      assert EscapeText(v, e) == a + b;
      AtSplit(s, p, a, b);
      TailRoundTrips(v, e);
      BodyWrites(s, p + |a|, v[1..], e);
    }
  }

  lemma {:induction false} DecodeWrites(s: string, p: nat, v: string, e: Edition)
    requires Writes(s, p, v, e)
    ensures p + |EscapeText(v, e)| < |s|
    ensures Decode(s, p, e) == Reader.Scan(v, p + |EscapeText(v, e)| + 1)
    decreases |v|
  {
    if v != [] {
      var n := |EscapeChar(v[0], e)|;
      DecodeChar(s, p, v[0], e);
      DecodeWrites(s, p + n, v[1..], e);
      assert |EscapeText(v, e)| == n + |EscapeText(v[1..], e)|;
      PrependScan(v, p + |EscapeText(v, e)| + 1);
    }
  }

  lemma PrependScan(v: string, n: nat)
    requires v != []
    ensures Reader.Prepend(v[0], Reader.Scan(v[1..], n)) == Reader.Scan(v, n)
  {
    assert [v[0]] + v[1..] == v;
  }

  lemma TailRoundTrips(v: string, e: Edition)
    requires v != [] && Ascii(v) && forall i | 0 <= i < |v| :: RoundTrips(v[i], e)
    ensures Ascii(v[1..]) && forall i | 0 <= i < |v[1..]| :: RoundTrips(v[1..][i], e)
    ensures 0 < v[0] as int < 128 && RoundTrips(v[0], e)
  {
    forall i | 0 <= i < |v[1..]| ensures RoundTrips(v[1..][i], e) && 0 < v[1..][i] as int < 128 { assert v[1..][i] == v[i + 1]; }
  }

  /** A quoted value followed by anything: the body sits between the quotes. */
  lemma QuotedBody(v: string, rest: string, e: Edition)
    ensures var s := Quoted(v, e) + rest; var n := |EscapeText(v, e)|;
      At(s, 1, EscapeText(v, e)) && 1 + n < |s| && s[1 + n] == '"'
  {
    var s := Quoted(v, e) + rest;
    var x := EscapeText(v, e);
    forall i | 0 <= i < |x| ensures s[1 + i] == x[i] {
      assert s[1 + i] == Quoted(v, e)[1 + i];
    }
    assert s[1 + |x|] == Quoted(v, e)[1 + |x|];
  }

  /** With the meant escapes on both sides, every quoted value reads back as itself. */
  lemma IntendedRoundTrip(v: string, rest: string)
    requires Ascii(v)
    ensures FormattedIntended(Quoted(v, Intended) + rest, 1, '"' as int) == Reader.Scan(v, |Quoted(v, Intended)|)
  {
    QuotedBody(v, rest, Intended);
    DecodeBody(Quoted(v, Intended) + rest, 1, v, Intended);
  }

  /** As written, a value without quotes or backslashes reads back as itself. */
  lemma AsWrittenRoundTrip(v: string, rest: string)
    requires Ascii(v) && forall i | 0 <= i < |v| :: v[i] != '"' && v[i] != '\'' && v[i] != '\\'
    ensures Reader.Formatted(Quoted(v, AsWritten) + rest, 1, '"' as int) == Reader.Scan(v, |Quoted(v, AsWritten)|)
  {
    QuotedBody(v, rest, AsWritten);
    DecodeBody(Quoted(v, AsWritten) + rest, 1, v, AsWritten);
  }

  /** As written, a double quote is written as \" and read back as a lone backslash; a single quote likewise. */
  lemma QuoteReadsAsBackslash()
    ensures Quoted("\"", AsWritten) == ['"', '\\', '"', '"']
    ensures Reader.Formatted(Quoted("\"", AsWritten), 1, '"' as int).text == "\\"
    ensures Reader.Formatted(Quoted("'", AsWritten), 1, '"' as int).text == "\\"
  {
    var w := Quoted("\"", AsWritten);
    assert EscapeText("\"", AsWritten) == ['\\', '"'];
    assert w[1] == '\\' && w[2] == '"' && w[3] == '"';
    assert Reader.Formatted(w, 3, '"' as int) == Reader.Scan([], 4);
    var q := Quoted("'", AsWritten);
    assert EscapeText("'", AsWritten) == ['\\', '\''];
    assert q[1] == '\\' && q[2] == '\'' && q[3] == '"';
    assert Reader.Formatted(q, 3, '"' as int) == Reader.Scan([], 4);
  }

  // ---------------------------------------------------------------------
  // NUL bytes in the output

  /** A buffer whose first NUL is at n reads as its first n bytes. */
  lemma {:induction false} CPrefixAt(s: string, n: nat)
    requires n < |s| && s[n] == '\0' && CString(s[..n])
    ensures CPrefix(s) == s[..n]
  {
    if n > 0 {
      assert s[0] == s[..n][0];
      assert s[1..][..n - 1] == s[..n][1..];
      CPrefixAt(s[1..], n - 1);
    }
  }

  /** As written, a backslash in a value puts a NUL into the output. */
  lemma BackslashWritesNul()
    ensures Quoted("\\", AsWritten) == ['"', '\\', '\0', '"']
    ensures Quoted("\\", Intended) == ['"', '\\', '\\', '"']
  {
    assert EscapeText("\\", AsWritten) == ['\\', '\0'];
    assert EscapeText("\\", Intended) == ['\\', '\\'];
  }

  /** As written, a doctype's opener is followed by a NUL, so the written C string ends there. */
  lemma DoctypeWritesNul(t: Tree)
    requires t.kind == Doctype
    ensures Serialize(t, AsWritten)[10] == '\0'
    ensures Serialize(t, AsWritten)[..10] == "<!DOCTYPE "
    ensures CPrefix(Serialize(t, AsWritten)) == "<!DOCTYPE "
  {
    var w := Serialize(t, AsWritten);
    assert w == DoctypeOpen(AsWritten) + (t.innerText.GetOr("") + ">");
    assert w[..10] == "<!DOCTYPE ";
    CPrefixAt(w, 10);
  }

  /** So a document that starts with a doctype comes out of HtmlWriteObjectToString as "<!DOCTYPE " alone. */
  lemma DoctypeCutsString(t: Tree)
    requires t.kind == Document && |t.children| > 0 && t.children[0].kind == Doctype
    ensures CPrefix(Serialize(t, AsWritten)) == "<!DOCTYPE "
  {
    var d := Serialize(t.children[0], AsWritten);
    var w := Serialize(t, AsWritten);
    DoctypeWritesNul(t.children[0]);
    assert w == SerializeChildren(t.children, AsWritten);
    assert w == d + SerializeChildren(t.children[1..], AsWritten);
    assert w[10] == d[10] && w[..10] == d[..10];
    CPrefixAt(w, 10);
  }

  lemma CBytesConcat(a: string, b: string)
    requires CBytes(a) && CBytes(b)
    ensures CBytes(a + b)
  {
    forall i | 0 <= i < |a + b|
      ensures 0 < (a + b)[i] as int < 256
    {
      if i < |a| { assert (a + b)[i] == a[i]; } else { assert (a + b)[i] == b[i - |a|]; }
    }
  }

  lemma {:induction false} EscapeTextBytes(v: string)
    requires CBytes(v)
    ensures CBytes(EscapeText(v, Intended))
  {
    if v != [] {
      assert CBytes(v[1..]) by { forall i | 0 <= i < |v[1..]| ensures 0 < v[1..][i] as int < 256 { assert v[1..][i] == v[i + 1]; } }
      EscapeTextBytes(v[1..]);
      assert 0 < v[0] as int < 256;
      CBytesConcat(EscapeChar(v[0], Intended), EscapeText(v[1..], Intended));
    }
  }

  lemma AttributeBytes(a: Attr)
    requires CBytes(a.name) && (a.value.Some? ==> CBytes(a.value.value))
    ensures CBytes(AttributeText(a, Intended))
  {
    CBytesConcat([' '], a.name);
    if a.value.Some? {
      EscapeTextBytes(a.value.value);
      CBytesConcat(['"'], EscapeText(a.value.value, Intended));
      CBytesConcat(['"'] + EscapeText(a.value.value, Intended), ['"']);
      CBytesConcat(['='], Quoted(a.value.value, Intended));
      CBytesConcat([' '] + a.name, ['='] + Quoted(a.value.value, Intended));
    } else {
      assert AttributeText(a, Intended) == [' '] + a.name;
    }
  }

  lemma {:induction false} AttributesBytes(attrs: seq<Attr>)
    requires forall i | 0 <= i < |attrs| :: CBytes(attrs[i].name) && (attrs[i].value.Some? ==> CBytes(attrs[i].value.value))
    ensures CBytes(AttributesText(attrs, Intended))
  {
    if attrs != [] {
      AttributeBytes(attrs[0]);
      assert forall i | 0 <= i < |attrs[1..]| :: attrs[1..][i] == attrs[i + 1];
      AttributesBytes(attrs[1..]);
      CBytesConcat(AttributeText(attrs[0], Intended), AttributesText(attrs[1..], Intended));
    }
  }

  /** Once the literals are corrected, a tree of C strings is written as a C string: no NUL anywhere. */
  lemma {:induction false} IntendedIsCString(t: Tree)
    requires CTree(t)
    ensures CBytes(Serialize(t, Intended))
    decreases t, 1
  {
    var inner := t.innerText.GetOr("");
    if t.kind == Comment {
      CBytesConcat("<!--", inner);
      CBytesConcat("<!--" + inner, "-->");
    } else if t.kind == Doctype {
      CBytesConcat("<!DOCTYPE ", inner);
      CBytesConcat("<!DOCTYPE " + inner, ">");
    } else if t.kind == Document {
      ChildrenIsCString(t.children);
    } else {
      ChildrenIsCString(t.children);
      ElementIsCString(t);
    }
  }

  /** An element whose children are written without a NUL is written without one. */
  lemma ElementIsCString(t: Tree)
    requires CTree(t) && t.kind != Comment && t.kind != Doctype && t.kind != Document
    requires CBytes(SerializeChildren(t.children, Intended))
    ensures CBytes(Serialize(t, Intended))
  {
    var inner := t.innerText.GetOr("");
    TagsAreCStrings(t);
    var o := OpenTag(t, Intended);
    CBytesConcat(o, inner);
    CBytesConcat(o + inner, SerializeChildren(t.children, Intended));
    CBytesConcat(o + inner + SerializeChildren(t.children, Intended), CloseTag(t));
    CBytesConcat(o + inner + SerializeChildren(t.children, Intended) + CloseTag(t), t.afterText.GetOr(""));
  }

  /** The open and close tags of an element of C strings hold no NUL. */
  lemma TagsAreCStrings(t: Tree)
    requires CTree(t) && t.kind != Comment && t.kind != Doctype && t.kind != Document
    ensures CBytes(OpenTag(t, Intended)) && CBytes(CloseTag(t))
  {
    var name := ObjectName(t);
    AttributesBytes(t.attrs);
    CBytesConcat("<", name);
    CBytesConcat("<" + name, AttributesText(t.attrs, Intended));
    CBytesConcat("<" + name + AttributesText(t.attrs, Intended), ">");
    if t.kind != Single {
      CBytesConcat("</", name);
      CBytesConcat("</" + name, ">");
    }
  }

  lemma {:induction false} ChildrenIsCString(cs: seq<Tree>)
    requires forall i | 0 <= i < |cs| :: CTree(cs[i])
    ensures CBytes(SerializeChildren(cs, Intended))
    decreases cs, 0
  {
    if cs != [] {
      IntendedIsCString(cs[0]);
      assert forall i | 0 <= i < |cs[1..]| :: cs[1..][i] == cs[i + 1];
      ChildrenIsCString(cs[1..]);
      CBytesConcat(Serialize(cs[0], Intended), SerializeChildren(cs[1..], Intended));
    }
  }

  /** And so, corrected, HtmlWriteObjectToString would hand out the whole output. */
  lemma IntendedStringIsWhole(t: Tree)
    requires CTree(t)
    ensures CPrefix(Serialize(t, Intended)) == Serialize(t, Intended)
  {
    IntendedIsCString(t);
    CPrefixOfCString(Serialize(t, Intended));
  }

  // ---------------------------------------------------------------------
  // Writing to a stream

  /** The switch of HtmlLibWriteFormattedStringToStream for one character. */
  method PutEscaped(c: char, s: StreamString)
    requires s.Valid() && 0 < c as int < 256 && s.length + 2 <= LONG_MAX
    modifies s, s.buffer
    ensures s.Valid() && s.position == old(s.position)
    ensures s.Contents() == old(s.Contents()) + EscapeChar(c, AsWritten)
    ensures s.buffer == old(s.buffer) || fresh(s.buffer)
  {
    if c == '\\' {
      // two bytes of the one-character literal: the backslash and its NUL
      var _ := s.Write(['\\', '\0'], 2, 1);
    } else if c == '"' {
      var _ := s.Write(['\\', '"'], 2, 1);
    } else if c == '\'' {
      var _ := s.Write(['\\', '\''], 2, 1);
    } else if c == '\t' {
      var _ := s.Write(['\\', 't'], 2, 1);
    } else if c == '\r' {
      var _ := s.Write(['\\', 'r'], 2, 1);
    } else if c == '\n' {
      var _ := s.Write(['\\', 'n'], 2, 1);
    } else if c == 7 as char {
      var _ := s.Write(['\\', 'a'], 2, 1);
    } else {
      var _ := s.Putchar(c as int);
    }
  }

  /** HtmlLibWriteFormattedStringToStream: a quote, each character or its escape, a quote. */
  method WriteFormattedString(v: string, s: StreamString) returns (code: Code)
    requires s.Valid() && CBytes(v) && s.length + |Quoted(v, AsWritten)| <= LONG_MAX
    modifies s, s.buffer
    ensures s.Valid() && s.position == old(s.position)
    ensures s.Contents() == old(s.Contents()) + Quoted(v, AsWritten)
    ensures s.buffer == old(s.buffer) || fresh(s.buffer)
    ensures code == Ok
  {
    ghost var goal := s.Contents() + Quoted(v, AsWritten);
    ghost var start := s.Contents();
    var _ := s.Putchar('"' as int);
    assert s.Contents() + EscapeText(v, AsWritten) + ['"'] == goal by {
      assert v[0..] == v;
      ConcatAssoc(start, ['"'], EscapeText(v, AsWritten));
      ConcatAssoc(start, ['"'] + EscapeText(v, AsWritten), ['"']);
    }
    var i := 0;
    while i < |v|
      invariant 0 <= i <= |v|
      invariant s.Valid() && s.position == old(s.position)
      invariant s.buffer == old(s.buffer) || fresh(s.buffer)
      invariant s.Contents() + EscapeText(v[i..], AsWritten) + ['"'] == goal
      invariant s.length + |EscapeText(v[i..], AsWritten)| + 1 <= LONG_MAX
    {
      ghost var before := s.Contents();
      EscapeTextAt(v, i, AsWritten);
      PutEscaped(v[i], s);
      ConcatAssoc(before, EscapeChar(v[i], AsWritten), EscapeText(v[i + 1..], AsWritten));
      i := i + 1;
    }
    assert v[i..] == [];
    var _ := s.Putchar('"' as int);
    return Ok;
  }

  /** The strings written raw, as strlen measures them. */
  method WriteText(text: string, s: StreamString)
    requires s.Valid() && s.length + |text| <= LONG_MAX
    modifies s, s.buffer
    ensures s.Valid() && s.position == old(s.position)
    ensures s.Contents() == old(s.Contents()) + text
    ensures s.buffer == old(s.buffer) || fresh(s.buffer)
  {
    var _ := s.Write(text, |text|, 1);
    assert text[..|text|] == text;
  }

  /** One attribute of HtmlLibWriteAttributesToStream. */
  method WriteAttribute(a: Attr, s: StreamString)
    requires s.Valid() && s.length + |AttributeText(a, AsWritten)| <= LONG_MAX
    requires a.value.Some? ==> CBytes(a.value.value)
    modifies s, s.buffer
    ensures s.Valid() && s.position == old(s.position)
    ensures s.Contents() == old(s.Contents()) + AttributeText(a, AsWritten)
    ensures s.buffer == old(s.buffer) || fresh(s.buffer)
  {
    ghost var start := s.Contents();
    var _ := s.Putchar(' ' as int);
    WriteText(a.name, s);
    ConcatAssoc(start, [' '], a.name);
    if a.value.Some? {
      ghost var named := s.Contents();
      var _ := s.Putchar('=' as int);
      var _ := WriteFormattedString(a.value.value, s);
      ConcatAssoc(named, ['='], Quoted(a.value.value, AsWritten));
      ConcatAssoc(start, [' '] + a.name, ['='] + Quoted(a.value.value, AsWritten));
    }
  }

  /** HtmlLibWriteAttributesToStream: the attributes in list order. */
  method WriteAttributes(attrs: seq<Attr>, s: StreamString) returns (code: Code)
    requires s.Valid() && s.length + |AttributesText(attrs, AsWritten)| <= LONG_MAX
    requires forall i | 0 <= i < |attrs| :: attrs[i].value.Some? ==> CBytes(attrs[i].value.value)
    modifies s, s.buffer
    ensures s.Valid() && s.position == old(s.position)
    ensures s.Contents() == old(s.Contents()) + AttributesText(attrs, AsWritten)
    ensures s.buffer == old(s.buffer) || fresh(s.buffer)
    ensures code == Ok
  {
    var i := 0;
    while i < |attrs|
      invariant 0 <= i <= |attrs|
      invariant s.Valid() && s.position == old(s.position)
      invariant s.buffer == old(s.buffer) || fresh(s.buffer)
      invariant s.Contents() + AttributesText(attrs[i..], AsWritten) == old(s.Contents()) + AttributesText(attrs, AsWritten)
    {
      ghost var before := s.Contents();
      AttributesTextAt(attrs, i, AsWritten);
      WriteAttribute(attrs[i], s);
      ConcatAssoc(before, AttributeText(attrs[i], AsWritten), AttributesText(attrs[i + 1..], AsWritten));
      i := i + 1;
    }
    return Ok;
  }

  /** HtmlLibWriteObjectToStream: append the object's serialisation; always Ok. */
  method LibWriteObject(t: Tree, s: StreamString) returns (code: Code)
    requires s.Valid() && CTree(t) && s.length + |Serialize(t, AsWritten)| <= LONG_MAX
    modifies s, s.buffer
    ensures s.Valid() && s.position == old(s.position)
    ensures s.Contents() == old(s.Contents()) + Serialize(t, AsWritten)
    ensures s.buffer == old(s.buffer) || fresh(s.buffer)
    ensures code == Ok
    decreases t, 2
  {
    var inner := t.innerText.GetOr("");
    if t.kind == Comment {
      WriteComment(t, s);
    } else if t.kind == Doctype {
      WriteDoctype(t, s);
    } else if t.kind == Document {
      WriteChildren(t, s);
    } else {
      WriteElement(t, s);
    }
    return Ok;
  }

  /** The COMMENT branch of HtmlLibWriteObjectToStream. */
  method WriteComment(t: Tree, s: StreamString)
    requires t.kind == Comment
    requires s.Valid() && s.length + |Serialize(t, AsWritten)| <= LONG_MAX
    modifies s, s.buffer
    ensures s.Valid() && s.position == old(s.position)
    ensures s.Contents() == old(s.Contents()) + Serialize(t, AsWritten)
    ensures s.buffer == old(s.buffer) || fresh(s.buffer)
  {
    ghost var start := s.Contents();
    var inner := t.innerText.GetOr("");
    WriteText("<!--", s);
    WriteText(inner, s);
    ConcatAssoc(start, "<!--", inner);
    WriteText("-->", s);
    ConcatAssoc(start, "<!--" + inner, "-->");
  }

  /** The DOCTYPE branch of HtmlLibWriteObjectToStream. */
  method WriteDoctype(t: Tree, s: StreamString)
    requires t.kind == Doctype
    requires s.Valid() && s.length + |Serialize(t, AsWritten)| <= LONG_MAX
    modifies s, s.buffer
    ensures s.Valid() && s.position == old(s.position)
    ensures s.Contents() == old(s.Contents()) + Serialize(t, AsWritten)
    ensures s.buffer == old(s.buffer) || fresh(s.buffer)
  {
    ghost var start := s.Contents();
    var inner := t.innerText.GetOr("");
    // eleven bytes of the ten-character literal: the opener and its NUL
    var opener := "<!DOCTYPE " + ['\0'];
    var _ := s.Write(opener, 11, 1);
    assert opener[..11] == DoctypeOpen(AsWritten);
    WriteText(inner, s);
    ConcatAssoc(start, DoctypeOpen(AsWritten), inner);
    var _ := s.Putchar('>' as int);
    ConcatAssoc(start, DoctypeOpen(AsWritten) + inner, ">");
  }

  /** The open tag of HtmlLibWriteObjectToStream. */
  method WriteOpenTag(t: Tree, s: StreamString)
    requires s.Valid() && CTree(t) && s.length + |OpenTag(t, AsWritten)| <= LONG_MAX
    modifies s, s.buffer
    ensures s.Valid() && s.position == old(s.position)
    ensures s.Contents() == old(s.Contents()) + OpenTag(t, AsWritten)
    ensures s.buffer == old(s.buffer) || fresh(s.buffer)
  {
    ghost var start := s.Contents();
    var _ := s.Putchar('<' as int);
    WriteText(ObjectName(t), s);
    ConcatAssoc(start, "<", ObjectName(t));
    var _ := WriteAttributes(t.attrs, s);
    ConcatAssoc(start, "<" + ObjectName(t), AttributesText(t.attrs, AsWritten));
    var _ := s.Putchar('>' as int);
    ConcatAssoc(start, "<" + ObjectName(t) + AttributesText(t.attrs, AsWritten), ">");
  }

  /** The close tag of HtmlLibWriteObjectToStream; none for a SINGLE. */
  method WriteCloseTag(t: Tree, s: StreamString)
    requires s.Valid() && s.length + |CloseTag(t)| <= LONG_MAX
    modifies s, s.buffer
    ensures s.Valid() && s.position == old(s.position)
    ensures s.Contents() == old(s.Contents()) + CloseTag(t)
    ensures s.buffer == old(s.buffer) || fresh(s.buffer)
  {
    if t.kind != Single {
      WriteText("</", s);
      WriteText(ObjectName(t), s);
      var _ := s.Putchar('>' as int);
    }
  }

  /** An element of HtmlLibWriteObjectToStream: open tag, text, children, close tag, afterText. */
  method WriteElement(t: Tree, s: StreamString)
    requires t.kind != Comment && t.kind != Doctype && t.kind != Document
    requires s.Valid() && CTree(t) && s.length + |Serialize(t, AsWritten)| <= LONG_MAX
    modifies s, s.buffer
    ensures s.Valid() && s.position == old(s.position)
    ensures s.Contents() == old(s.Contents()) + Serialize(t, AsWritten)
    ensures s.buffer == old(s.buffer) || fresh(s.buffer)
    decreases t, 1
  {
    ghost var start := s.Contents();
    ghost var open := OpenTag(t, AsWritten);
    ghost var inner := t.innerText.GetOr("");
    ghost var children := SerializeChildren(t.children, AsWritten);
    ghost var body := open + inner + children;
    assert Serialize(t, AsWritten) == body + CloseTag(t) + t.afterText.GetOr("");
    WriteOpenTag(t, s);
    WriteText(t.innerText.GetOr(""), s);
    ConcatAssoc(start, open, inner);
    WriteChildren(t, s);
    ConcatAssoc(start, open + inner, children);
    WriteCloseTag(t, s);
    ConcatAssoc(start, body, CloseTag(t));
    if t.afterText.Some? {
      WriteText(t.afterText.value, s);
    }
    ConcatAssoc(start, body + CloseTag(t), t.afterText.GetOr(""));
  }

  /** The child loop of HtmlLibWriteObjectToStream. */
  method WriteChildren(t: Tree, s: StreamString)
    requires s.Valid() && CTree(t) && s.length + |SerializeChildren(t.children, AsWritten)| <= LONG_MAX
    modifies s, s.buffer
    ensures s.Valid() && s.position == old(s.position)
    ensures s.Contents() == old(s.Contents()) + SerializeChildren(t.children, AsWritten)
    ensures s.buffer == old(s.buffer) || fresh(s.buffer)
    decreases t, 0
  {
    var cs := t.children;
    var i := 0;
    while i < |cs|
      invariant 0 <= i <= |cs|
      invariant s.Valid() && s.position == old(s.position)
      invariant s.buffer == old(s.buffer) || fresh(s.buffer)
      invariant s.Contents() + SerializeChildren(cs[i..], AsWritten) == old(s.Contents()) + SerializeChildren(cs, AsWritten)
    {
      ghost var before := s.Contents();
      SerializeChildrenAt(cs, i, AsWritten);
      var _ := LibWriteObject(cs[i], s);
      ConcatAssoc(before, Serialize(cs[i], AsWritten), SerializeChildren(cs[i + 1..], AsWritten));
      i := i + 1;
    }
  }

  /** HtmlWriteObjectToStream: NullPointer for a NULL object or stream, otherwise the object written and Ok. */
  method WriteObjectToStream(t: Option<Tree>, s: Option<StreamString>) returns (code: Code)
    requires s.Some? ==> s.value.Valid()
    requires t.Some? && s.Some? ==> CTree(t.value) && s.value.length + |Serialize(t.value, AsWritten)| <= LONG_MAX
    modifies if s.Some? then {s.value, s.value.buffer} else {}
    ensures code == NullPointer <==> t.None? || s.None?
    ensures code == Ok || code == NullPointer
    ensures s.Some? ==> s.value.Valid()
    ensures t.None? && s.Some? ==> s.value.Contents() == old(s.value.Contents())
    ensures t.Some? && s.Some? ==> s.value.Contents() == old(s.value.Contents()) + Serialize(t.value, AsWritten)
  {
    if t.None? || s.None? {
      return NullPointer;
    }
    code := LibWriteObject(t.value, s.value);
  }

  /** HtmlWriteObjectToString: the output read back as a C string, so it ends at the first NUL written. */
  method WriteObjectToString(t: Option<Tree>) returns (r: Option<string>)
    requires t.Some? ==> CTree(t.value) && |Serialize(t.value, AsWritten)| <= LONG_MAX
    ensures t.None? ==> r.None?
    ensures t.Some? ==> r == Some(CPrefix(Serialize(t.value, AsWritten)))
  {
    if t.None? {
      return None;
    }
    var s := new StreamString.CreateBuffer(4096);
    var _ := LibWriteObject(t.value, s);
    assert s.Contents() == Serialize(t.value, AsWritten);
    var text := s.GetStreamString();
    return Some(text);
  }
}

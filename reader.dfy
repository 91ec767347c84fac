/**
 * The HTML reader of both generations (myhtml2/myhtml_reader.h and
 * MyHtml/MyHtml_parser.h): one state machine over a character stream.  The
 * two differ only in the single-tag list (v1 has no "hr") and in the "/>"
 * test of the attribute loop, so the engine takes a Dialect.
 *
 * A position k in the input s is a lookahead index: the last character
 * getchar returned is Get(s, k), and the stream now stands at Next(s, k).
 */
module Reader {
  import opened Wrappers
  import opened Defines
  import opened Chars
  import opened Attributes
  import opened Document
  import opened Stream

  datatype Dialect = V1 | V2

  /** getchar at index k: the byte, or EOF past the end. */
  function Get(s: string, k: nat): int
  {
    if k < |s| then s[k] as int else EOF
  }

  /** Where the stream stands after getchar returned Get(s, k): EOF does not advance. */
  function Next(s: string, k: nat): nat
    requires k <= |s|
  {
    if k < |s| then k + 1 else |s|
  }

  /** HtmlLibIsStringIn / CompareStrings: is str one of the listed strings. */
  method IsStringIn(str: string, list: seq<string>) returns (r: bool)
    ensures r <==> str in list
  {
    var i := 0;
    while i < |list|
      invariant 0 <= i <= |list|
      invariant forall j | 0 <= j < i :: list[j] != str
    {
      if list[i] == str {
        return true;
      }
      i := i + 1;
    }
    return false;
  }

  /** The names read as tags without a body: v1 lacks "hr". */
  function SingleNames(d: Dialect): (r: seq<string>)
    ensures "hr" in r <==> d == V2
  {
    if d == V2 then ["meta", "link", "img", "input", "br", "hr"] else ["meta", "link", "img", "input", "br"]
  }

  /** HtmlLibDetactObjectType / HTML_DetactElementType. */
  function DetectObjectType(name: string, d: Dialect): (r: Kind)
    ensures r == Single || r == Script || r == Tag
    ensures r == Single <==> name in SingleNames(d)
    ensures r == Script <==> name !in SingleNames(d) && (name == "script" || name == "style")
  {
    if name in SingleNames(d) then Single
    else if name == "script" || name == "style" then Script
    else Tag
  }

  /** The only name the two generations classify differently. */
  lemma DetectDialects(name: string)
    ensures DetectObjectType(name, V1) != DetectObjectType(name, V2) <==> name == "hr"
    ensures DetectObjectType("hr", V1) == Tag && DetectObjectType("hr", V2) == Single
  {
  }

  /** HtmlLibHexToInt / _HTML_Hex: digits, then letters a-z and A-Z counting on from 10. */
  function HexToInt(c: int): (r: int)
    ensures 0 <= r <= 35
    ensures IsDigit(c) ==> r == c - 48
    ensures IsLower(c) ==> r == c - 97 + 10
    ensures IsUpper(c) ==> r == c - 65 + 10
    ensures !IsAlnum(c) ==> r == 0
  {
    if 48 <= c <= 57 then c - 48
    else if 97 <= c <= 122 then c - 97 + 10
    else if 65 <= c <= 90 then c - 65 + 10
    else 0
  }

  /** The hex digit a writer would use for n, in either case. */
  function HexDigit(n: int, upper: bool): (c: char)
    requires 0 <= n < 16
  {
    if n < 10 then (48 + n) as char else if upper then (65 + n - 10) as char else (97 + n - 10) as char
  }

  /** Every hex digit reads back as its value, and \xHH yields the byte HH. */
  lemma HexRoundTrip(hi: int, lo: int, u1: bool, u2: bool)
    requires 0 <= hi < 16 && 0 <= lo < 16
    ensures HexToInt(HexDigit(hi, u1) as int) == hi && HexToInt(HexDigit(lo, u2) as int) == lo
    ensures ByteChar(HexToInt(HexDigit(hi, u1) as int) * 16 + HexToInt(HexDigit(lo, u2) as int)) as int == hi * 16 + lo
  {
  }

  // ---------------------------------------------------------------------
  // Runs of characters

  /** The character classes the loops test. */
  datatype Class = Space | Alnum | NameChar | NotLt | NotGt

  predicate InClass(c: int, cl: Class)
  {
    match cl
    case Space => IsSpace(c)
    case Alnum => IsAlnum(c)
    case NameChar => IsAlnum(c) || c == '-' as int || c == '_' as int
    case NotLt => c != '<' as int && c != EOF
    case NotGt => c != '>' as int && c != EOF
  }

  /** The end of the run of class cl starting at k: a `while (test(c)) c = getchar();` loop. */
  function RunEnd(s: string, k: nat, cl: Class): (r: nat)
    requires k <= |s|
    ensures k <= r <= |s|
    ensures forall i | k <= i < r :: InClass(s[i] as int, cl)
    ensures !InClass(Get(s, r), cl)
    decreases |s| - k
  {
    if k < |s| && InClass(s[k] as int, cl) then RunEnd(s, k + 1, cl) else k
  }

  /** pattern ends exactly at index j of s, compared byte by byte as memcmp does. */
  predicate EndsAt(s: string, pat: string, j: nat)
  {
    |pat| <= j <= |s| && forall i | 0 <= i < |pat| :: s[j - |pat| + i] == pat[i]
  }

  /** The first index j' >= j at which pat ends, if any: a scan that tests its buffer's tail after each byte. */
  function Search(s: string, pat: string, j: nat): (r: Option<nat>)
    ensures r.Some? ==> j <= r.value <= |s|
    decreases |s| + 1 - j
  {
    if j > |s| then None
    else if EndsAt(s, pat, j) then Some(j)
    else Search(s, pat, j + 1)
  }

  // ---------------------------------------------------------------------
  // Reading from the stream

  /** The shared stream state: s is the stream's data and c what getchar last returned at lookahead index k. */
  ghost predicate Looking(input: StreamString, s: string, k: nat, c: int)
    reads input, input.buffer
  {
    input.Valid() && input.Contents() == s && Ascii(s) && k <= |s| && c == Get(s, k) && input.position == Next(s, k)
  }

  /** getchar on a stream of ASCII bytes: the byte as an int, or EOF at the end. */
  method ReadChar(input: StreamString, ghost s: string) returns (c: int)
    requires input.Valid() && input.Contents() == s && Ascii(s)
    modifies input`position
    ensures input.Valid() && input.Contents() == s
    ensures c == Get(s, old(input.position)) && input.position == Next(s, old(input.position))
  {
    c := input.Getchar();
  }

  /** Lowering a slice one byte longer appends that byte lowered. */
  lemma LoweredSliceSnoc(s: string, a: nat, b: nat)
    requires a <= b < |s|
    ensures Lowered(s[a..b + 1]) == Lowered(s[a..b]) + [LowerChar(s[b])]
  {
    SliceSnoc(s, a, b);
    LoweredSnoc(s[a..b], s[b]);
  }

  lemma LoweredSnoc(a: string, x: char)
    ensures Lowered(a + [x]) == Lowered(a) + [LowerChar(x)]
  {
    assert |Lowered(a + [x])| == |Lowered(a) + [LowerChar(x)]|;
    forall i | 0 <= i < |a| + 1
      ensures Lowered(a + [x])[i] == (Lowered(a) + [LowerChar(x)])[i]
    {
      if i < |a| {
        assert (a + [x])[i] == a[i];
      }
    }
  }

  /** `while (isspace(c)) c = getchar();` */
  method SkipSpaces(input: StreamString, ghost s: string, c: int, ghost k: nat) returns (c2: int, ghost k2: nat)
    requires Looking(input, s, k, c)
    modifies input`position
    ensures Looking(input, s, k2, c2) && k2 == RunEnd(s, k, Space)
  {
    c2, k2 := c, k;
    while IsSpace(c2)
      invariant Looking(input, s, k2, c2) && k <= k2 && RunEnd(s, k2, Space) == RunEnd(s, k, Space)
      decreases |s| - k2
    {
      c2 := ReadChar(input, s);
      k2 := k2 + 1;
    }
  }

  /** A lowering read loop: `while (test(c)) { put(lower(c)); c = getchar(); }`. */
  method ReadRun(input: StreamString, ghost s: string, c: int, ghost k: nat, cl: Class) returns (run: string, c2: int, ghost k2: nat)
    requires Looking(input, s, k, c)
    modifies input`position
    ensures Looking(input, s, k2, c2) && k2 == RunEnd(s, k, cl) && run == Lowered(s[k..k2])
  {
    run, c2, k2 := [], c, k;
    while InClass(c2, cl)
      invariant Looking(input, s, k2, c2) && k <= k2 && RunEnd(s, k2, cl) == RunEnd(s, k, cl)
      invariant run == Lowered(s[k..k2])
      decreases |s| - k2
    {
      LoweredSliceSnoc(s, k, k2);
      run := run + [LowerChar(c2 as char)];
      c2 := ReadChar(input, s);
      k2 := k2 + 1;
    }
  }

  /** What the search returns is the first match at or after j; no result means no match up to the end. */
  lemma {:induction false} SearchSound(s: string, pat: string, j: nat)
    ensures Search(s, pat, j).Some? ==> EndsAt(s, pat, Search(s, pat, j).value)
    ensures Search(s, pat, j).Some? ==> forall i | j <= i < Search(s, pat, j).value :: !EndsAt(s, pat, i)
    ensures Search(s, pat, j).None? ==> forall i | j <= i <= |s| :: !EndsAt(s, pat, i)
    decreases |s| + 1 - j
  {
    if j <= |s| && !EndsAt(s, pat, j) {
      SearchSound(s, pat, j + 1);
    }
  }

  /** The first match at or after j is v when nothing in between matches. */
  lemma {:induction false} SearchFinds(s: string, pat: string, j: nat, v: nat)
    requires j <= v && EndsAt(s, pat, v)
    requires forall i | j <= i < v :: !EndsAt(s, pat, i)
    ensures Search(s, pat, j) == Some(v)
    decreases v - j
  {
    if j < v {
      SearchFinds(s, pat, j + 1, v);
    }
  }

  /** No match from j to the end: the search fails. */
  lemma {:induction false} SearchFails(s: string, pat: string, j: nat)
    requires forall i | j <= i <= |s| :: !EndsAt(s, pat, i)
    ensures Search(s, pat, j) == None
    decreases |s| + 1 - j
  {
    if j <= |s| {
      SearchFails(s, pat, j + 1);
    }
  }

  // ---------------------------------------------------------------------
  // Quoted strings

  /** What a scan produced and where the stream stands after it. */
  datatype Scan = Scan(text: string, next: nat)

  function Prepend(x: char, r: Scan): Scan
  {
    Scan([x] + r.text, r.next)
  }

  /** The byte an escape \e puts: \a \r \n \t decode, any other escape puts the backslash itself. */
  function Unescape(e: int): (r: char)
    ensures e != 'a' as int && e != 'r' as int && e != 'n' as int && e != 't' as int ==> r == '\\'
  {
    if e == 'a' as int then 7 as char
    else if e == 'r' as int then '\r'
    else if e == 'n' as int then '\n'
    else if e == 't' as int then '\t'
    else '\\'
  }

  /** A decoded escape and the stream position after it. */
  datatype Decoded = Decoded(ch: char, next: nat)

  /** The escape after a backslash, read from stream position p: \xHH takes two more bytes. */
  function Escape(s: string, p: nat): (r: Decoded)
    requires p <= |s|
    ensures p <= r.next <= |s| && (p < |s| ==> p < r.next)
  {
    var p1 := Next(s, p);
    if Get(s, p) == 'x' as int then
      Decoded(ByteChar(HexToInt(Get(s, p1)) * 16 + HexToInt(Get(s, Next(s, p1)))), Next(s, Next(s, p1)))
    else Decoded(Unescape(Get(s, p)), p1)
  }

  /**
   * HtmlLibParseFormatedString / _HTML_ParseFormatedString from stream
   * position p: the bytes put up to the closing symbol (consumed) or EOF.
   */
  function Formatted(s: string, p: nat, symbol: int): (r: Scan)
    requires p <= |s|
    ensures p <= r.next <= |s|
    decreases |s| - p
  {
    var c := Get(s, p);
    if c == symbol || c == EOF then Scan([], Next(s, p))
    else if c != '\\' as int then Prepend(s[p], Formatted(s, p + 1, symbol))
    else
      var x := Escape(s, p + 1);
      Prepend(x.ch, Formatted(s, x.next, symbol))
  }

  /** Plain text up to the quote is taken verbatim, and the quote is consumed but not kept. */
  lemma {:induction false} FormattedPlain(s: string, p: nat, body: string, symbol: int)
    requires p + |body| < |s| && s[p..p + |body|] == body && s[p + |body|] as int == symbol
    requires forall i | 0 <= i < |body| :: body[i] as int != symbol && body[i] != '\\'
    ensures Formatted(s, p, symbol) == Scan(body, p + |body| + 1)
    decreases |body|
  {
    if body != [] {
      assert s[p] == body[0];
      assert s[p + 1..p + 1 + |body[1..]|] == body[1..];
      FormattedPlain(s, p + 1, body[1..], symbol);
    }
  }

  /** An unknown escape puts a backslash and eats the escaped byte, which then ends nothing. */
  lemma FormattedOtherEscape(s: string, p: nat, symbol: int)
    requires p + 1 < |s| && s[p] == '\\' && symbol != '\\' as int
    requires s[p + 1] != 'a' && s[p + 1] != 'r' && s[p + 1] != 'n' && s[p + 1] != 't' && s[p + 1] != 'x'
    ensures Formatted(s, p, symbol) == Prepend('\\', Formatted(s, p + 2, symbol))
  {
  }

  /** The four named escapes decode to their control bytes. */
  lemma FormattedNamedEscape(s: string, p: nat, symbol: int)
    requires p + 1 < |s| && s[p] == '\\' && symbol != '\\' as int
    ensures s[p + 1] == 'a' ==> Formatted(s, p, symbol) == Prepend(7 as char, Formatted(s, p + 2, symbol))
    ensures s[p + 1] == 'r' ==> Formatted(s, p, symbol) == Prepend('\r', Formatted(s, p + 2, symbol))
    ensures s[p + 1] == 'n' ==> Formatted(s, p, symbol) == Prepend('\n', Formatted(s, p + 2, symbol))
    ensures s[p + 1] == 't' ==> Formatted(s, p, symbol) == Prepend('\t', Formatted(s, p + 2, symbol))
  {
  }

  /** At EOF the text read so far is the result. */
  lemma {:induction false} FormattedEof(s: string, p: nat, symbol: int)
    requires p <= |s| && symbol != EOF
    requires forall i | p <= i < |s| :: s[i] as int != symbol && s[i] != '\\'
    ensures Formatted(s, p, symbol) == Scan(s[p..], |s|)
    decreases |s| - p
  {
    if p < |s| {
      FormattedEof(s, p + 1, symbol);
      assert s[p..] == [s[p]] + s[p + 1..];
    }
  }

  /** The switch after a backslash: one getchar, two more for \x. */
  method ReadEscape(input: StreamString, ghost s: string) returns (ch: char)
    requires input.Valid() && input.Contents() == s && Ascii(s)
    modifies input`position
    ensures input.Valid() && input.Contents() == s
    ensures Escape(s, old(input.position)) == Decoded(ch, input.position)
  {
    var c := ReadChar(input, s);
    if c == 'a' as int {
      ch := 7 as char;
    } else if c == 'r' as int {
      ch := '\r';
    } else if c == 'n' as int {
      ch := '\n';
    } else if c == 't' as int {
      ch := '\t';
    } else if c == 'x' as int {
      var c1 := ReadChar(input, s);
      var c2 := ReadChar(input, s);
      ch := ByteChar(HexToInt(c1) * 16 + HexToInt(c2));
    } else {
      // the switch's default puts the backslash
      ch := '\\';
    }
  }

  /** One turn of the formatted-string loop: a plain byte, or an escape, is put in front of the rest. */
  lemma FormattedStep(s: string, p: nat, symbol: int, x: char, q: nat)
    requires p < |s| && s[p] as int != symbol
    requires s[p] != '\\' ==> x == s[p] && q == p + 1
    requires s[p] == '\\' ==> Escape(s, p + 1) == Decoded(x, q)
    ensures q <= |s| && Formatted(s, p, symbol) == Prepend(x, Formatted(s, q, symbol))
  {
  }

  /**
   * HtmlLibParseFormatedString: getchar until the quote symbol or EOF,
   * putting plain bytes as read and decoding escapes.  The result is the
   * NUL-terminated buffer, read as a C string.
   */
  method ParseFormattedString(input: StreamString, ghost s: string, symbol: int) returns (r: string)
    requires input.Valid() && input.Contents() == s && Ascii(s)
    modifies input`position
    ensures input.Valid() && input.Contents() == s
    ensures r == CPrefix(Formatted(s, old(input.position), symbol).text)
    ensures input.position == Formatted(s, old(input.position), symbol).next
  {
    ghost var f := Formatted(s, input.position, symbol);
    var out: string := [];
    while true
      invariant input.Valid() && input.Contents() == s
      invariant out + Formatted(s, input.position, symbol).text == f.text
      invariant Formatted(s, input.position, symbol).next == f.next
      decreases |s| - input.position
    {
      ghost var p := input.position;
      var c := ReadChar(input, s);
      if c == symbol || c == EOF {
        assert Formatted(s, p, symbol).text == [];
        assert out == f.text;
        return CPrefix(out);
      }
      var x := c as char;
      if c == '\\' as int {
        x := ReadEscape(input, s);
      }
      FormattedStep(s, p, symbol, x, input.position);
      ConcatAssoc(out, [x], Formatted(s, input.position, symbol).text);
      out := out + [x];
    }
  }

  // ---------------------------------------------------------------------
  // Attributes

  /** One attribute read and the lookahead index after it. */
  datatype AttrRead = AttrRead(attr: Attr, k: nat)

  /** One attribute from lookahead index k: a lowered name, then "=" and a quoted or bare value, or no value. */
  function OneAttribute(s: string, k: nat): (r: AttrRead)
    requires k <= |s|
    ensures k <= r.k <= |s|
  {
    var nEnd := RunEnd(s, k, NameChar);
    var name := Lowered(s[k..nEnd]);
    if Get(s, nEnd) != '=' as int then AttrRead(Attr(name, None), nEnd)
    else
      var k3 := Next(s, nEnd);
      var q := Get(s, k3);
      if q == '\'' as int || q == '"' as int then
        var f := Formatted(s, Next(s, k3), q);
        AttrRead(Attr(name, Some(CPrefix(f.text))), f.next)
      else
        var vEnd := RunEnd(s, k3, NameChar);
        AttrRead(Attr(name, Some(Lowered(s[k3..vEnd]))), vEnd)
  }

  /** An attribute's name is stored lowered. */
  lemma OneAttributeLowered(s: string, k: nat)
    requires k <= |s|
    ensures Lowered(OneAttribute(s, k).attr.name) == OneAttribute(s, k).attr.name
  {
    LoweredIdempotent(s[k..RunEnd(s, k, NameChar)]);
  }

  /** What the attribute loop built, the character it returns and the lookahead index it stops at. */
  datatype AttrScan = AttrScan(attrs: seq<Attr>, c: int, k: nat)

  /**
   * HtmlLibParseAttributes / _HTML_ParseAttributes from lookahead index k,
   * appending to acc: while the lookahead is a space, skip the spaces, stop
   * at "/>" (v2 only), then read one attribute.
   */
  function ScanAttributes(s: string, k: nat, d: Dialect, acc: seq<Attr>): (r: AttrScan)
    requires k <= |s|
    ensures k <= r.k <= |s|
    decreases |s| - k + (if IsSpace(Get(s, k)) then 1 else 0)
  {
    if !IsSpace(Get(s, k)) then AttrScan(acc, Get(s, k), k)
    else
      var k1 := RunEnd(s, k, Space);
      if d == V2 && Get(s, k1) == '/' as int && Get(s, k1 + 1) == '>' as int then
        AttrScan(acc, EOF, k1 + 1)
      else
        var a := OneAttribute(s, if d == V2 && Get(s, k1) == '/' as int then k1 + 1 else k1);
        ScanAttributes(s, a.k, d, acc + [a.attr])
  }

  /**
   * One round of the attribute loop: either the loop ends here with the list
   * as it was, or it reads one attribute, with a lowered name, and goes on
   * from further along.
   */
  lemma ScanAttributesRound(s: string, k: nat, d: Dialect, acc: seq<Attr>) returns (more: bool, k2: nat, x: Attr)
    requires k <= |s|
    ensures !more ==> ScanAttributes(s, k, d, acc).attrs == acc
    ensures more ==> IsSpace(Get(s, k)) && k < k2 <= |s| && Lowered(x.name) == x.name
    ensures more ==> ScanAttributes(s, k, d, acc) == ScanAttributes(s, k2, d, acc + [x])
  {
    more, k2, x := false, k, Attr([], None);
    if IsSpace(Get(s, k)) {
      var k1 := RunEnd(s, k, Space);
      if !(d == V2 && Get(s, k1) == '/' as int && Get(s, k1 + 1) == '>' as int) {
        var start := if d == V2 && Get(s, k1) == '/' as int then k1 + 1 else k1;
        ScanAttributesGoesOn(s, k, d, acc);
        OneAttributeLowered(s, start);
        more, k2, x := true, OneAttribute(s, start).k, OneAttribute(s, start).attr;
        return;
      }
    }
    ScanAttributesStops(s, k, d, acc);
  }

  lemma ScanAttributesStops(s: string, k: nat, d: Dialect, acc: seq<Attr>)
    requires k <= |s|
    requires !IsSpace(Get(s, k)) ||
      (d == V2 && Get(s, RunEnd(s, k, Space)) == '/' as int && Get(s, RunEnd(s, k, Space) + 1) == '>' as int)
    ensures ScanAttributes(s, k, d, acc).attrs == acc
  {
  }

  lemma ScanAttributesGoesOn(s: string, k: nat, d: Dialect, acc: seq<Attr>)
    requires k <= |s| && IsSpace(Get(s, k))
    requires !(d == V2 && Get(s, RunEnd(s, k, Space)) == '/' as int && Get(s, RunEnd(s, k, Space) + 1) == '>' as int)
    ensures var k1 := RunEnd(s, k, Space);
      var a := OneAttribute(s, if d == V2 && Get(s, k1) == '/' as int then k1 + 1 else k1);
      k < a.k && ScanAttributes(s, k, d, acc) == ScanAttributes(s, a.k, d, acc + [a.attr])
  {
  }

  /** The loop only appends: the list it started with is a prefix of the result. */
  lemma {:induction false} ScanAttributesExtends(s: string, k: nat, d: Dialect, acc: seq<Attr>)
    requires k <= |s|
    ensures acc <= ScanAttributes(s, k, d, acc).attrs
    decreases |s| - k + (if IsSpace(Get(s, k)) then 1 else 0)
  {
    var more, k2, x := ScanAttributesRound(s, k, d, acc);
    if more {
      ScanAttributesExtends(s, k2, d, acc + [x]);
      assert acc <= acc + [x];
    }
  }

  /** Every name the loop adds is lowered. */
  lemma {:induction false} ScanAttributesLowered(s: string, k: nat, d: Dialect, acc: seq<Attr>)
    requires k <= |s| && NamesLowered(acc)
    ensures NamesLowered(ScanAttributes(s, k, d, acc).attrs)
    decreases |s| - k + (if IsSpace(Get(s, k)) then 1 else 0)
  {
    var more, k2, x := ScanAttributesRound(s, k, d, acc);
    if more {
      NamesLoweredSnoc(acc, x);
      ScanAttributesLowered(s, k2, d, acc + [x]);
    }
  }

  /** Every attribute name in the list is lower-case. */
  predicate NamesLowered(attrs: seq<Attr>)
  {
    forall i | 0 <= i < |attrs| :: Lowered(attrs[i].name) == attrs[i].name
  }

  lemma NamesLoweredSnoc(attrs: seq<Attr>, a: Attr)
    requires Lowered(a.name) == a.name
    ensures NamesLowered(attrs) ==> NamesLowered(attrs + [a])
  {
    if NamesLowered(attrs) {
      forall i | 0 <= i < |attrs| + 1
        ensures Lowered((attrs + [a])[i].name) == (attrs + [a])[i].name
      {
        if i < |attrs| {
          assert (attrs + [a])[i] == attrs[i];
        }
      }
    }
  }

  /** In v2, " />" ends the tag: the loop returns -1 with the '>' consumed and adds nothing. */
  lemma SelfCloseV2(s: string, k: nat, acc: seq<Attr>)
    requires k + 2 < |s| && s[k] == ' ' && s[k + 1] == '/' && s[k + 2] == '>'
    ensures ScanAttributes(s, k, V2, acc) == AttrScan(acc, EOF, k + 2)
  {
    assert RunEnd(s, k + 1, Space) == k + 1;
  }

  /** v1 has no such test: " />" adds an attribute with an empty name and no value, and returns the '/'. */
  lemma SelfCloseV1(s: string, k: nat, acc: seq<Attr>)
    requires k + 2 < |s| && s[k] == ' ' && s[k + 1] == '/' && s[k + 2] == '>'
    ensures ScanAttributes(s, k, V1, acc) == AttrScan(acc + [Attr("", None)], '/' as int, k + 1)
  {
    assert RunEnd(s, k + 1, Space) == k + 1;
    assert RunEnd(s, k + 1, NameChar) == k + 1;
  }

  /** A repeated name is appended again: the loop never looks back. */
  lemma DuplicatesKept(s: string, k: nat, d: Dialect)
    requires k + 5 <= |s| && s[k..k + 5] == " a a>"
    ensures ScanAttributes(s, k, d, []) == AttrScan([Attr("a", None), Attr("a", None)], '>' as int, k + 4)
  {
    var w := s[k..k + 5];
    assert s[k] == w[0] == ' ' && s[k + 1] == w[1] == 'a' && s[k + 2] == w[2] == ' ';
    assert s[k + 3] == w[3] == 'a' && s[k + 4] == w[4] == '>';
    assert s[k + 1..k + 2] == [s[k + 1]] == "a";
    assert s[k + 3..k + 4] == [s[k + 3]] == "a";
    assert Lowered("a") == "a";
    assert RunEnd(s, k + 2, NameChar) == k + 2;
    assert RunEnd(s, k + 1, NameChar) == k + 2;
    assert RunEnd(s, k + 4, NameChar) == k + 4;
    assert RunEnd(s, k + 3, NameChar) == k + 4;
    var a := Attr("a", None);
    assert OneAttribute(s, k + 1) == AttrRead(a, k + 2);
    assert OneAttribute(s, k + 3) == AttrRead(a, k + 4);
    assert RunEnd(s, k + 1, Space) == k + 1;
    assert RunEnd(s, k, Space) == k + 1;
    assert RunEnd(s, k + 3, Space) == k + 3;
    assert RunEnd(s, k + 2, Space) == k + 3;
    assert ScanAttributes(s, k + 4, d, [a, a]) == AttrScan([a, a], '>' as int, k + 4);
    assert ScanAttributes(s, k + 2, d, [a]) == ScanAttributes(s, k + 4, d, [a] + [a]);
    assert ScanAttributes(s, k, d, []) == ScanAttributes(s, k + 2, d, [] + [a]);
  }

  /** The loop's "/>" exit in v2, as one unfolding of ScanAttributes. */
  lemma ScanSelfClose(s: string, k0: nat, acc: seq<Attr>)
    requires k0 <= |s| && IsSpace(Get(s, k0))
    requires Get(s, RunEnd(s, k0, Space)) == '/' as int && Get(s, RunEnd(s, k0, Space) + 1) == '>' as int
    ensures ScanAttributes(s, k0, V2, acc) == AttrScan(acc, EOF, RunEnd(s, k0, Space) + 1)
  {
  }

  /** One pass of the loop that reads an attribute, as one unfolding of ScanAttributes. */
  lemma ScanOne(s: string, k0: nat, d: Dialect, acc: seq<Attr>, k1: nat, ks: nat, a: Attr, k2: nat)
    requires k0 <= |s| && IsSpace(Get(s, k0)) && k1 == RunEnd(s, k0, Space)
    requires !(d == V2 && Get(s, k1) == '/' as int && Get(s, k1 + 1) == '>' as int)
    requires ks == (if d == V2 && Get(s, k1) == '/' as int then k1 + 1 else k1)
    requires ks <= |s| && OneAttribute(s, ks) == AttrRead(a, k2)
    ensures ScanAttributes(s, k0, d, acc) == ScanAttributes(s, k2, d, acc + [a])
  {
  }

  /** One attribute, as the body of the attribute loop reads it. */
  method ReadAttribute(input: StreamString, ghost s: string, c: int, ghost k: nat) returns (a: Attr, c2: int, ghost k2: nat)
    requires Looking(input, s, k, c)
    modifies input`position
    ensures Looking(input, s, k2, c2) && OneAttribute(s, k) == AttrRead(a, k2)
  {
    var name;
    name, c2, k2 := ReadRun(input, s, c, k, NameChar);
    if c2 != '=' as int {
      return Attr(name, None), c2, k2;
    }
    c2 := ReadChar(input, s);
    k2 := Next(s, k2);
    if c2 == '\'' as int || c2 == '"' as int {
      var value := ParseFormattedString(input, s, c2);
      k2 := input.position;
      c2 := ReadChar(input, s);
      return Attr(name, Some(value)), c2, k2;
    }
    var value;
    value, c2, k2 := ReadRun(input, s, c2, k2, NameChar);
    return Attr(name, Some(value)), c2, k2;
  }

  /**
   * HtmlLibParseAttributes: appends to the object's list and returns the
   * lookahead character, or -1 after "/>" in v2.
   */
  method ParseAttributes(input: StreamString, ghost s: string, acc: seq<Attr>, c: int, ghost k: nat, d: Dialect)
    returns (attrs: seq<Attr>, c2: int, ghost k2: nat)
    requires Looking(input, s, k, c)
    modifies input`position
    ensures k2 <= |s| && input.Valid() && input.Contents() == s && input.position == Next(s, k2)
    ensures ScanAttributes(s, k, d, acc) == AttrScan(attrs, c2, k2)
  {
    attrs, c2, k2 := acc, c, k;
    while IsSpace(c2)
      invariant Looking(input, s, k2, c2) && k <= k2
      invariant ScanAttributes(s, k2, d, attrs) == ScanAttributes(s, k, d, acc)
      decreases |s| - k2
    {
      ghost var k0 := k2;
      c2, k2 := SkipSpaces(input, s, c2, k2);
      ghost var k1 := k2;
      assert k0 < k1;
      if d == V2 && c2 == '/' as int {
        c2 := ReadChar(input, s);
        k2 := k2 + 1;
        if c2 == '>' as int {
          ScanSelfClose(s, k0, attrs);
          return attrs, EOF, k2;
        }
      }
      ghost var ks := k2;
      assert ks == (if d == V2 && Get(s, k1) == '/' as int then k1 + 1 else k1);
      var a;
      a, c2, k2 := ReadAttribute(input, s, c2, k2);
      ScanOne(s, k0, d, attrs, k1, ks, a, k2);
      attrs := attrs + [a];
    }
  }

  // ---------------------------------------------------------------------
  // The open objects

  /*
   * The reader keeps `current` and reaches the open ancestors through parent
   * pointers.  The model keeps them as a stack of frames, outermost first:
   * frame 0 is the document, and each later frame is the open child of the
   * one below it.  A frame holds its closed children; an open child is
   * appended to its parent when it is left.  Nothing reads a parent's child
   * list while a child is open, so the finished trees agree.
   */

  function Top(st: seq<Tree>): Tree
    requires |st| > 0
  {
    st[|st| - 1]
  }

  /** HtmlAddObjectChild(current, ...) for an object that is never current: it goes after current's children. */
  function AddChild(st: seq<Tree>, c: Tree): (r: seq<Tree>)
    requires |st| > 0
    ensures |r| == |st| && r[..|st| - 1] == st[..|st| - 1]
    ensures Top(r) == AppendChild(Top(st), c)
  {
    st[|st| - 1 := AppendChild(Top(st), c)]
  }

  /** `current = current->parent`: the top frame becomes its parent's last child. */
  function Pop(st: seq<Tree>): (r: seq<Tree>)
    requires |st| >= 2
    ensures |r| == |st| - 1 && r[..|st| - 2] == st[..|st| - 2]
    ensures Top(r) == AppendChild(st[|st| - 2], Top(st))
  {
    st[..|st| - 2] + [AppendChild(st[|st| - 2], Top(st))]
  }

  /** The document the frames stand for: every open object closed in turn. */
  function Build(st: seq<Tree>): Tree
    requires |st| >= 1
    decreases |st|
  {
    if |st| == 1 then st[0] else Build(Pop(st))
  }

  /** `current = backTag->parent` for the frame at index i: frames i and above are closed. */
  function PopTo(st: seq<Tree>, i: nat): (r: seq<Tree>)
    requires 1 <= i < |st|
    ensures |r| == i && r[..i - 1] == st[..i - 1]
    decreases |st|
  {
    if |st| == i + 1 then Pop(st) else PopTo(Pop(st), i)
  }

  /** Closing objects changes where later content goes, never the document built so far. */
  lemma {:induction false} BuildPopTo(st: seq<Tree>, i: nat)
    requires 1 <= i < |st|
    ensures Build(PopTo(st, i)) == Build(st)
    decreases |st|
  {
    if |st| != i + 1 {
      BuildPopTo(Pop(st), i);
    }
  }

  /** The walk `backTag = backTag->parent` from frame i down to the document, stopping at the name. */
  function Walk(st: seq<Tree>, name: string, i: nat): (r: Option<nat>)
    requires i < |st|
    ensures r.Some? ==> 1 <= r.value <= i && st[r.value].name == Some(name)
    ensures r.Some? ==> forall j | r.value < j <= i :: st[j].name != Some(name)
    ensures r.None? ==> forall j | 1 <= j <= i :: st[j].name != Some(name)
    decreases i
  {
    if i == 0 then None
    else if st[i].name == Some(name) then Some(i)
    else Walk(st, name, i - 1)
  }

  /** A close tag: the innermost open object of that name and everything inside it are left; with none, nothing changes. */
  function CloseTag(st: seq<Tree>, name: string): (r: seq<Tree>)
    requires |st| >= 1
    ensures |r| >= 1
  {
    match Walk(st, name, |st| - 1)
    case None => st
    case Some(i) => PopTo(st, i)
  }

  /** Where HtmlLibReadObjectFromStream's InsertText puts text: after current's last child, or into current. */
  function PutText(st: seq<Tree>, text: string): (r: seq<Tree>)
    requires |st| > 0
    ensures |r| == |st| && r[..|st| - 1] == st[..|st| - 1]
  {
    var t := Top(st);
    if |t.children| > 0 then
      var last := t.children[|t.children| - 1];
      st[|st| - 1 := t.(children := t.children[|t.children| - 1 := last.(afterText := Some(last.afterText.GetOr("") + text))])]
    else
      st[|st| - 1 := t.(innerText := Some(t.innerText.GetOr("") + text))]
  }

  /** Text goes after the last child when there is one: into its afterText, extending what was there. */
  lemma PutTextPlace(st: seq<Tree>, text: string)
    requires |st| > 0
    ensures var t := Top(st); var r := Top(PutText(st, text));
      r.kind == t.kind && r.name == t.name && r.attrs == t.attrs && r.afterText == t.afterText &&
      (if |t.children| > 0 then
        |r.children| == |t.children| && r.innerText == t.innerText &&
        r.children[..|t.children| - 1] == t.children[..|t.children| - 1] &&
        r.children[|t.children| - 1] == t.children[|t.children| - 1].(afterText := Some(t.children[|t.children| - 1].afterText.GetOr("") + text))
      else
        r.children == [] && r.innerText == Some(t.innerText.GetOr("") + text))
  {
  }

  // ---------------------------------------------------------------------
  // One round of the main loop

  /** How one round of the loop ends: at the loop's head again, with the document returned, or in undefined behaviour. */
  datatype StepResult =
    | Continue(k: nat, stack: seq<Tree>)
    | Finished(stack: seq<Tree>)
    | Underflow

  /** A well-formed round: the lookahead moves forward and the frames keep the document at the bottom. */
  predicate Advances(s: string, k: nat, r: StepResult)
  {
    match r
    case Continue(k2, st) => k < k2 <= |s| && |st| >= 1
    case Finished(st) => |st| >= 1
    case Underflow => true
  }

  /**
   * InsertText: the seek back to start, then every byte up to the old
   * position tell and on to the next '<' or EOF, appended at the insert
   * place; the loop resumes at SkipLoopGetChar with the byte that stopped it.
   */
  function InsertText(s: string, start: nat, tell: nat, st: seq<Tree>): (r: StepResult)
    requires start <= tell <= |s| && |st| >= 1
    ensures r.Continue? && tell <= r.k <= |s| && |r.stack| >= 1
  {
    var e := RunEnd(s, tell, NotLt);
    Continue(e, PutText(st, s[start..e]))
  }

  /** A comment node: calloc'd, so no name, no attributes; its text in innerText. */
  function CommentNode(text: string): Tree
  {
    Tree(Comment, None, Some(text), None, [], [])
  }

  function DoctypeNode(text: string): Tree
  {
    Tree(Doctype, None, Some(text), None, [], [])
  }

  /**
   * A comment's text after "<!--" at index p: lowered, up to the first
   * "-->" (which is consumed); None when EOF comes first.
   */
  function CommentText(s: string, p: nat): (r: Option<Scan>)
    ensures r.Some? ==> p + 3 <= r.value.next <= |s|
  {
    match Search(s, "-->", p + 3)
    case None => None
    case Some(j) => Some(Scan(Lowered(s[p..j - 3]), j))
  }

  /**
   * After "<!", with the stream at p2: two bytes are read for "--"; failing
   * that six more for "doctype " (in any case); failing that the bytes are
   * text.  Both tests take the byte after the short read as NUL.
   */
  function Bang(s: string, start: nat, p2: nat, st: seq<Tree>): (r: StepResult)
    requires start < p2 <= |s| && |st| >= 1
    ensures Advances(s, p2 - 1, r)
  {
    var r1 := Min(2, |s| - p2);
    var p3 := p2 + r1;
    if r1 == 2 && s[p2..p3] == "--" then
      match CommentText(s, p3)
      case None => Finished(st)
      case Some(t) => Continue(t.next, AddChild(st, CommentNode(t.text)))
    else
      var r2 := Min(6, |s| - p3);
      var p4 := p3 + r2;
      if r1 == 2 && r2 == 6 && Lowered(s[p2..p4]) == "doctype " then
        var e := RunEnd(s, p4, NotGt);
        Continue(Next(s, e), AddChild(st, DoctypeNode(Lowered(s[p4..e]))))
      else InsertText(s, start, p4, st)
  }

  /** "<!--": a comment, or the document as it stands when the comment never ends. */
  lemma BangComment(s: string, start: nat, p2: nat, st: seq<Tree>)
    requires start < p2 && p2 + 2 <= |s| && |st| >= 1 && s[p2..p2 + 2] == "--"
    ensures Bang(s, start, p2, st) ==
      match CommentText(s, p2 + 2)
      case None => Finished(st)
      case Some(t) => Continue(t.next, AddChild(st, CommentNode(t.text)))
  {
  }

  /** "<!doctype " in any case: a doctype node with the lowered text up to '>', which is consumed. */
  lemma BangDoctype(s: string, start: nat, p2: nat, st: seq<Tree>)
    requires start < p2 && p2 + 8 <= |s| && |st| >= 1
    requires s[p2..p2 + 2] != "--" && Lowered(s[p2..p2 + 8]) == "doctype "
    ensures var e := RunEnd(s, p2 + 8, NotGt);
      Bang(s, start, p2, st) == Continue(Next(s, e), AddChild(st, DoctypeNode(Lowered(s[p2 + 8..e]))))
  {
  }

  /** Neither: the eight bytes (or fewer, at the end) are text from start on. */
  lemma BangText(s: string, start: nat, p2: nat, st: seq<Tree>)
    requires start < p2 <= |s| && |st| >= 1
    requires !(p2 + 2 <= |s| && s[p2..p2 + 2] == "--")
    requires !(p2 + 8 <= |s| && Lowered(s[p2..p2 + 8]) == "doctype ")
    ensures Bang(s, start, p2, st) == InsertText(s, start, Min(p2 + 8, |s|), st)
  {
  }

  /** After "</", from lookahead index k2: the alphanumeric run is the name and the byte after it is consumed. */
  function Close(s: string, k2: nat, st: seq<Tree>): (r: StepResult)
    requires k2 <= |s| && |st| >= 1
    ensures Advances(s, k2, r)
  {
    var nEnd := RunEnd(s, k2, Alnum);
    if nEnd == |s| then Finished(st)
    else Continue(nEnd + 1, CloseTag(st, Lowered(s[k2..nEnd])))
  }

  /** The terminator a script body is read up to: "</name>". */
  function CloseOf(name: string): (r: string)
    ensures |r| == |name| + 3 && r[..2] == "</" && r[2..|r| - 1] == name && r[|r| - 1] == '>'
  {
    "</" + name + ">"
  }

  /**
   * The text of a script or style element: up to the first occurrence of the
   * terminator close, which is consumed.  At EOF the buffered length is cut
   * by the terminator's length all the same; shorter than that is the size_t
   * underflow, None here.
   */
  function ScriptText(s: string, pos: nat, close: string): (r: Option<Scan>)
    requires pos <= |s|
    ensures r.Some? ==> pos <= r.value.next <= |s|
  {
    match Search(s, close, pos + |close|)
    case Some(j) => Some(Scan(s[pos..j - |close|], j))
    case None =>
      if |s| - pos >= |close| then Some(Scan(s[pos..|s| - |close|], |s|)) else None
  }

  /** After '<' with lookahead index k1: a start tag, its attributes, and for a script its raw text. */
  function Open(s: string, k1: nat, st: seq<Tree>, d: Dialect): (r: StepResult)
    requires 1 <= k1 <= |s| && |st| >= 1
    ensures Advances(s, k1 - 1, r)
  {
    var nEnd := RunEnd(s, k1, Alnum);
    var name := Lowered(s[k1..nEnd]);
    var kind := DetectObjectType(name, d);
    var a := ScanAttributes(s, nEnd, d, []);
    var pos := Next(s, a.k);
    var frame := Tree(kind, Some(name), None, None, a.attrs, []);
    if kind == Single then Continue(pos, AddChild(st, frame))
    else if kind == Script then
      match ScriptText(s, pos, CloseOf(name))
      case Some(t) => Continue(t.next, AddChild(st, frame.(innerText := Some(t.text))))
      case None => Underflow
    else Continue(pos, st + [frame])
  }

  /** A run of one class reaches at least as far as the bytes known to be in it. */
  lemma {:induction false} RunEndPast(s: string, a: nat, b: nat, cl: Class)
    requires a <= b <= |s| && forall i | a <= i < b :: InClass(s[i] as int, cl)
    ensures RunEnd(s, a, cl) >= b
    decreases b - a
  {
    if a < b {
      RunEndPast(s, a + 1, b, cl);
    }
  }

  /**
   * One round from SkipLoopGetChar, the lookahead index k being where the
   * round's text starts.  (After InsertText the source sets start to one
   * before the stream position: the stopping '<', or the last byte at EOF,
   * where start is never read again.)
   */
  function Step(s: string, k: nat, st: seq<Tree>, d: Dialect): (r: StepResult)
    requires k <= |s| && |st| >= 1
    ensures Advances(s, k, r)
  {
    var q := RunEnd(s, k, Space);
    if q == |s| then Finished(st)
    else if s[q] != '<' then
      RunEndPast(s, k, q + 1, NotLt);
      InsertText(s, k, k, st)
    else Markup(s, k, q, st, d)
  }

  /** After the '<' at index q, by the byte that follows it; start is where the round's text begins. */
  function Markup(s: string, start: nat, q: nat, st: seq<Tree>, d: Dialect): (r: StepResult)
    requires start <= q < |s| && |st| >= 1
    ensures Advances(s, q, r)
  {
    if Get(s, q + 1) == '!' as int then Bang(s, start, q + 2, st)
    else if Get(s, q + 1) == '/' as int then Close(s, q + 2, st)
    else Open(s, q + 1, st, d)
  }

  // The cases of a round, by the first byte after the spaces.

  lemma StepAtEnd(s: string, k: nat, st: seq<Tree>, d: Dialect)
    requires k <= |s| && |st| >= 1 && RunEnd(s, k, Space) == |s|
    ensures Step(s, k, st, d) == Finished(st)
  {
  }

  lemma StepIsText(s: string, k: nat, st: seq<Tree>, d: Dialect)
    requires k <= |s| && |st| >= 1
    requires var q := RunEnd(s, k, Space); q < |s| && s[q] != '<'
    ensures Step(s, k, st, d) == InsertText(s, k, k, st)
  {
  }

  lemma StepIsMarkup(s: string, k: nat, st: seq<Tree>, d: Dialect)
    requires k <= |s| && |st| >= 1
    requires var q := RunEnd(s, k, Space); q < |s| && s[q] == '<'
    ensures Step(s, k, st, d) == Markup(s, k, RunEnd(s, k, Space), st, d)
  {
  }

  /** The document the loop returns, or undefined behaviour on the way. */
  datatype Outcome = Parsed(doc: Tree) | Invalid

  /** The main loop from SkipLoopGetChar with lookahead index k and frames st. */
  function Run(s: string, k: nat, st: seq<Tree>, d: Dialect): Outcome
    requires k <= |s| && |st| >= 1
    decreases |s| - k
  {
    match Step(s, k, st, d)
    case Finished(st2) => Parsed(Build(st2))
    case Underflow => Invalid
    case Continue(k2, st2) => Run(s, k2, st2, d)
  }

  /** A fresh document with the loop run over s from its start. */
  function Parse(s: string, d: Dialect): Outcome
  {
    Run(s, 0, [Blank(Document, None)], d)
  }

  /** The bottom frame is the document HtmlCreateObjectDocument made. */
  predicate RootIsDocument(st: seq<Tree>)
  {
    |st| >= 1 && st[0].kind == Document && st[0].name == None
  }

  /** A round that goes on or finishes leaves the document at the bottom of the frames. */
  predicate KeepsRoot(r: StepResult)
  {
    (r.Continue? || r.Finished?) ==> RootIsDocument(r.stack)
  }

  lemma {:induction false} PopToRoot(st: seq<Tree>, i: nat)
    requires 1 <= i < |st| && RootIsDocument(st)
    ensures RootIsDocument(PopTo(st, i))
    decreases |st|
  {
    if |st| != i + 1 {
      PopToRoot(Pop(st), i);
    }
  }

  /** Adding a child under any frame leaves the bottom frame's kind and name. */
  lemma AddChildRoot(st: seq<Tree>, c: Tree)
    requires RootIsDocument(st)
    ensures RootIsDocument(AddChild(st, c))
  {
  }

  lemma PutTextRoot(st: seq<Tree>, text: string)
    requires RootIsDocument(st)
    ensures RootIsDocument(PutText(st, text))
  {
  }

  lemma BangRoot(s: string, start: nat, p2: nat, st: seq<Tree>)
    requires start < p2 <= |s| && RootIsDocument(st)
    ensures KeepsRoot(Bang(s, start, p2, st))
  {
    if p2 + 2 <= |s| && s[p2..p2 + 2] == "--" {
      BangComment(s, start, p2, st);
      match CommentText(s, p2 + 2)
      case None =>
      case Some(t) => AddChildRoot(st, CommentNode(t.text));
    } else if p2 + 8 <= |s| && Lowered(s[p2..p2 + 8]) == "doctype " {
      BangDoctype(s, start, p2, st);
      var e := RunEnd(s, p2 + 8, NotGt);
      AddChildRoot(st, DoctypeNode(Lowered(s[p2 + 8..e])));
    } else {
      BangText(s, start, p2, st);
      PutTextRoot(st, s[start..RunEnd(s, Min(p2 + 8, |s|), NotLt)]);
    }
  }

  lemma CloseRoot(s: string, k2: nat, st: seq<Tree>)
    requires k2 <= |s| && RootIsDocument(st)
    ensures KeepsRoot(Close(s, k2, st))
  {
    var nEnd := RunEnd(s, k2, Alnum);
    if nEnd < |s| {
      var w := Walk(st, Lowered(s[k2..nEnd]), |st| - 1);
      if w.Some? {
        PopToRoot(st, w.value);
      }
    }
  }

  lemma OpenRoot(s: string, k1: nat, st: seq<Tree>, d: Dialect)
    requires 1 <= k1 <= |s| && RootIsDocument(st)
    ensures KeepsRoot(Open(s, k1, st, d))
  {
  }

  lemma MarkupRoot(s: string, start: nat, q: nat, st: seq<Tree>, d: Dialect)
    requires start <= q < |s| && RootIsDocument(st)
    ensures KeepsRoot(Markup(s, start, q, st, d))
  {
    if Get(s, q + 1) == '!' as int {
      MarkupBangRoot(s, start, q, st, d);
    } else if Get(s, q + 1) == '/' as int {
      MarkupCloseRoot(s, start, q, st, d);
    } else {
      MarkupOpenRoot(s, start, q, st, d);
    }
  }

  lemma MarkupBangRoot(s: string, start: nat, q: nat, st: seq<Tree>, d: Dialect)
    requires start <= q < |s| && RootIsDocument(st) && Get(s, q + 1) == '!' as int
    ensures KeepsRoot(Markup(s, start, q, st, d))
  {
    assert Markup(s, start, q, st, d) == Bang(s, start, q + 2, st);
    BangRoot(s, start, q + 2, st);
  }

  lemma MarkupCloseRoot(s: string, start: nat, q: nat, st: seq<Tree>, d: Dialect)
    requires start <= q < |s| && RootIsDocument(st) && Get(s, q + 1) == '/' as int
    ensures KeepsRoot(Markup(s, start, q, st, d))
  {
    assert Markup(s, start, q, st, d) == Close(s, q + 2, st);
    CloseRoot(s, q + 2, st);
  }

  lemma MarkupOpenRoot(s: string, start: nat, q: nat, st: seq<Tree>, d: Dialect)
    requires start <= q < |s| && RootIsDocument(st) && Get(s, q + 1) != '!' as int && Get(s, q + 1) != '/' as int
    ensures KeepsRoot(Markup(s, start, q, st, d))
  {
    MarkupIsOpen(s, start, q, st, d);
    OpenRoot(s, q + 1, st, d);
  }

  lemma MarkupIsOpen(s: string, start: nat, q: nat, st: seq<Tree>, d: Dialect)
    requires start <= q < |s| && |st| >= 1 && Get(s, q + 1) != '!' as int && Get(s, q + 1) != '/' as int
    ensures Markup(s, start, q, st, d) == Open(s, q + 1, st, d)
  {
  }

  /** Every way a round changes the frames keeps the document at the bottom. */
  lemma StepRoot(s: string, k: nat, st: seq<Tree>, d: Dialect)
    requires k <= |s| && RootIsDocument(st)
    ensures KeepsRoot(Step(s, k, st, d))
  {
    var q := RunEnd(s, k, Space);
    if q == |s| {
      StepAtEnd(s, k, st, d);
    } else if s[q] != '<' {
      StepIsText(s, k, st, d);
      PutTextRoot(st, s[k..RunEnd(s, k, NotLt)]);
    } else {
      StepIsMarkup(s, k, st, d);
      MarkupRoot(s, k, q, st, d);
    }
  }

  /** Closing what is still open keeps the bottom frame's kind and name. */
  lemma {:induction false} BuildRoot(st: seq<Tree>)
    requires RootIsDocument(st)
    ensures Build(st).kind == Document && Build(st).name == None
    decreases |st|
  {
    if |st| > 1 {
      BuildRoot(Pop(st));
    }
  }

  /** Whatever the loop returns is a document. */
  lemma {:induction false} RunRoot(s: string, k: nat, st: seq<Tree>, d: Dialect)
    requires k <= |s| && RootIsDocument(st)
    ensures Run(s, k, st, d).Parsed? ==> Run(s, k, st, d).doc.kind == Document && Run(s, k, st, d).doc.name == None
    decreases |s| - k
  {
    StepRoot(s, k, st, d);
    match Step(s, k, st, d)
    case Finished(st2) => BuildRoot(st2);
    case Underflow =>
    case Continue(k2, st2) => RunRoot(s, k2, st2, d);
  }

  /** The root of a parsed document is the document object: no name, type DOCUMENT. */
  lemma ParseRoot(s: string, d: Dialect)
    ensures Parse(s, d).Parsed? ==> Parse(s, d).doc.kind == Document && Parse(s, d).doc.name == None
  {
    RunRoot(s, 0, [Blank(Document, None)], d);
  }

  /** Input of spaces only, the empty input among it, is the empty document. */
  lemma ParseBlank(s: string, d: Dialect)
    requires forall i | 0 <= i < |s| :: IsSpace(s[i] as int)
    ensures Parse(s, d) == Parsed(Blank(Document, None))
  {
    RunEndPast(s, 0, |s|, Space);
    StepAtEnd(s, 0, [Blank(Document, None)], d);
  }

  /**
   * Spaces in front of a tag other than "<!" are skipped as if absent; in
   * front of "<!" they stay part of the text the round may fall back to.
   */
  lemma SpacesBeforeTag(s: string, k: nat, st: seq<Tree>, d: Dialect)
    requires k <= |s| && |st| >= 1
    requires var q := RunEnd(s, k, Space); q < |s| && s[q] == '<' && Get(s, q + 1) != '!' as int
    ensures Step(s, k, st, d) == Step(s, RunEnd(s, k, Space), st, d)
  {
    var q := RunEnd(s, k, Space);
    assert RunEnd(s, q, Space) == q;
    StepIsMarkup(s, k, st, d);
    StepIsMarkup(s, q, st, d);
  }

  /**
   * Text: when the first byte after the spaces is not '<', everything from
   * the round's start, the spaces included, up to the next '<' or EOF goes to
   * the insert place, and the '<' is the next round's first byte.
   */
  lemma StepText(s: string, k: nat, st: seq<Tree>, d: Dialect)
    requires k <= |s| && |st| >= 1
    requires var q := RunEnd(s, k, Space); q < |s| && s[q] != '<'
    ensures var e := RunEnd(s, k, NotLt);
      k < e && (forall i | k <= i < e :: s[i] != '<') && (e < |s| ==> s[e] == '<') &&
      Step(s, k, st, d) == Continue(e, PutText(st, s[k..e]))
  {
    var q := RunEnd(s, k, Space);
    StepIsText(s, k, st, d);
    RunEndPast(s, k, q + 1, NotLt);
  }

  // ---------------------------------------------------------------------
  // The loop's pieces over the stream

  lemma LowerKeeps(c: char)
    ensures LowerChar(c) == '-' <==> c == '-'
    ensures LowerChar(c) == '>' <==> c == '>'
  {
  }

  /** The lowered buffer ends in "-->" exactly when the input does. */
  lemma LoweredTail(s: string, a: nat, b: nat)
    requires a + 3 <= b <= |s|
    ensures TailIs(Lowered(s[a..b]), "-->") <==> EndsAt(s, "-->", b)
  {
    var t := Lowered(s[a..b]);
    var u := s[a..b];
    assert u[|t| - 3] == s[b - 3] && u[|t| - 2] == s[b - 2] && u[|t| - 1] == s[b - 1];
    assert t[|t| - 3] == LowerChar(s[b - 3]) && t[|t| - 2] == LowerChar(s[b - 2]) && t[|t| - 1] == LowerChar(s[b - 1]);
    LowerKeeps(s[b - 3]);
    LowerKeeps(s[b - 2]);
    LowerKeeps(s[b - 1]);
    CloseAtTail(t);
    CloseAtEnd(s, b);
  }

  /** "-->" ends at j: its three bytes one by one. */
  predicate CloseAt(x: string, j: nat)
    requires 3 <= j <= |x|
  {
    x[j - 3] == '-' && x[j - 2] == '-' && x[j - 1] == '>'
  }

  lemma CloseAtTail(t: string)
    requires 3 <= |t|
    ensures TailIs(t, "-->") <==> CloseAt(t, |t|)
  {
    var p := "-->";
    assert p[0] == '-' && p[1] == '-' && p[2] == '>';
    if TailIs(t, p) {
      assert t[|t| - 3 + 0] == p[0] && t[|t| - 3 + 1] == p[1] && t[|t| - 3 + 2] == p[2];
    }
    if CloseAt(t, |t|) {
      forall i | 0 <= i < |p| ensures t[|t| - |p| + i] == p[i] {
        assert i == 0 || i == 1 || i == 2;
      }
    }
  }

  lemma CloseAtEnd(s: string, b: nat)
    requires 3 <= b <= |s|
    ensures EndsAt(s, "-->", b) <==> CloseAt(s, b)
  {
    var p := "-->";
    assert p[0] == '-' && p[1] == '-' && p[2] == '>';
    if EndsAt(s, p, b) {
      assert s[b - 3 + 0] == p[0] && s[b - 3 + 1] == p[1] && s[b - 3 + 2] == p[2];
    }
    if CloseAt(s, b) {
      forall i | 0 <= i < |p| ensures s[b - |p| + i] == p[i] {
        assert i == 0 || i == 1 || i == 2;
      }
    }
  }

  /**
   * The comment loop itself, with buf already buffered and getchar's last
   * byte at index n: EOF gives up, otherwise the byte goes in lowered and
   * the buffer's tail is compared with "-->".
   */
  function CommentLoop(s: string, buf: string, n: nat): (r: Option<Scan>)
    requires n <= |s|
    decreases |s| - n
  {
    if n == |s| then None
    else
      var b := buf + [LowerChar(s[n])];
      if TailIs(b, "-->") then Some(Scan(b[..|b| - 3], n + 1))
      else CommentLoop(s, b, n + 1)
  }

  /**
   * One byte more of a comment: either "-->" ends right at the new position
   * n, or the search moves on past it.
   */
  lemma CommentStep(s: string, p: nat, buf: string, n: nat, goal: Option<nat>)
    requires p < n <= |s| && buf == Lowered(s[p..n])
    requires goal == Search(s, "-->", p + 3)
    requires n >= p + 3 ==> goal == Search(s, "-->", n)
    ensures TailIs(buf, "-->") ==> goal == Some(n)
    ensures !TailIs(buf, "-->") ==> (n + 1 >= p + 3 ==> goal == Search(s, "-->", n + 1))
  {
    if n >= p + 3 {
      LoweredTail(s, p, n);
    }
  }

  /** At EOF the loop and the first-occurrence definition agree. */
  lemma CommentAtEof(s: string, p: nat)
    requires p <= |s|
    requires |s| + 1 >= p + 3 ==> Search(s, "-->", p + 3) == Search(s, "-->", |s| + 1)
    ensures CommentLoop(s, Lowered(s[p..|s|]), |s|) == CommentText(s, p)
  {
    assert Search(s, "-->", |s| + 1) == None;
    assert Search(s, "-->", p + 3) == None;
  }

  /** The terminator ending at n + 1 ends the loop there, with the lowered text before it. */
  lemma CommentAtHit(s: string, p: nat, b: string, n: nat)
    requires p <= n < |s| && b == Lowered(s[p..n + 1]) && 3 <= |b|
    requires Search(s, "-->", p + 3) == Some(n + 1)
    ensures CommentText(s, p) == Some(Scan(b[..|b| - 3], n + 1))
  {
    assert b[..|b| - 3] == Lowered(s[p..n + 1 - 3]);
  }

  /** One turn of the comment loop, over the lowered prefix of the input. */
  lemma CommentLoopUnroll(s: string, p: nat, n: nat)
    requires p <= n < |s|
    ensures var b := Lowered(s[p..n + 1]);
      CommentLoop(s, Lowered(s[p..n]), n)
      == if TailIs(b, "-->") then Some(Scan(b[..|b| - 3], n + 1)) else CommentLoop(s, b, n + 1)
  {
    assert s[p..n + 1] == s[p..n] + [s[n]];
    LoweredSnoc(s[p..n], s[n]);
  }

  /** A turn whose buffer ends on "-->" is where the first occurrence ends. */
  lemma CommentHitSearch(s: string, p: nat, n: nat)
    requires p <= n < |s|
    requires n + 1 >= p + 3 ==> Search(s, "-->", p + 3) == Search(s, "-->", n + 1)
    requires TailIs(Lowered(s[p..n + 1]), "-->")
    ensures Search(s, "-->", p + 3) == Some(n + 1)
  {
    assert n + 1 >= p + 3;
    LoweredTail(s, p, n + 1);
    assert EndsAt(s, "-->", n + 1);
  }

  /** A turn that ends on "-->" ends where the first-occurrence definition says. */
  lemma CommentHitTurn(s: string, p: nat, n: nat)
    requires p <= n < |s|
    requires Search(s, "-->", p + 3) == Some(n + 1)
    requires TailIs(Lowered(s[p..n + 1]), "-->")
    ensures CommentLoop(s, Lowered(s[p..n]), n) == CommentText(s, p)
  {
    var b := Lowered(s[p..n + 1]);
    CommentLoopUnroll(s, p, n);
    CommentAtHit(s, p, b, n);
  }

  /** A turn that does not end on "-->" goes on with the next byte. */
  lemma CommentMissLoop(s: string, p: nat, n: nat)
    requires p <= n < |s|
    requires !TailIs(Lowered(s[p..n + 1]), "-->")
    ensures CommentLoop(s, Lowered(s[p..n]), n) == CommentLoop(s, Lowered(s[p..n + 1]), n + 1)
  {
    CommentLoopUnroll(s, p, n);
  }

  /** A turn that does not end on "-->" hands the same search on to the next byte. */
  lemma CommentMissSearch(s: string, p: nat, n: nat)
    requires p <= n < |s|
    requires n + 1 >= p + 3 ==> Search(s, "-->", p + 3) == Search(s, "-->", n + 1)
    requires !TailIs(Lowered(s[p..n + 1]), "-->")
    ensures n + 2 >= p + 3 ==> Search(s, "-->", p + 3) == Search(s, "-->", n + 2)
  {
    CommentStep(s, p, Lowered(s[p..n + 1]), n + 1, Search(s, "-->", p + 3));
  }

  /** From any point of the scan, the loop ends where the first-occurrence definition says. */
  lemma {:induction false} CommentLoopFinds(s: string, p: nat, n: nat)
    requires p <= n <= |s|
    requires n + 1 >= p + 3 ==> Search(s, "-->", p + 3) == Search(s, "-->", n + 1)
    ensures CommentLoop(s, Lowered(s[p..n]), n) == CommentText(s, p)
    decreases |s| - n
  {
    if n == |s| {
      CommentAtEof(s, p);
    } else if TailIs(Lowered(s[p..n + 1]), "-->") {
      CommentHitSearch(s, p, n);
      CommentHitTurn(s, p, n);
    } else {
      CommentMissLoop(s, p, n);
      CommentMissSearch(s, p, n);
      CommentLoopFinds(s, p, n + 1);
    }
  }

  /**
   * The comment loop after "<!--": lowered bytes until the buffer ends in
   * "-->", which is cut off; EOF first gives None.
   */
  method ReadComment(input: StreamString, ghost s: string) returns (text: Option<string>)
    requires input.Valid() && input.Contents() == s && Ascii(s)
    modifies input`position
    ensures input.Valid() && input.Contents() == s
    ensures text.None? <==> CommentText(s, old(input.position)).None?
    ensures text.Some? ==> CommentText(s, old(input.position)) == Some(Scan(text.value, input.position))
  {
    ghost var p := input.position;
    assert s[p..p] == [];
    CommentLoopFinds(s, p, p);
    ghost var goal := CommentLoop(s, [], p);
    var buf: string := [];
    ghost var n := p;
    var c := ReadChar(input, s);
    while true
      invariant input.Valid() && input.Contents() == s && n <= |s|
      invariant c == Get(s, n) && input.position == Next(s, n)
      invariant CommentLoop(s, buf, n) == goal
      decreases |s| - n
    {
      if c == EOF {
        return None;
      }
      buf := buf + [LowerChar(c as char)];
      if TailIs(buf, "-->") {
        return Some(buf[..|buf| - 3]);
      }
      n := n + 1;
      c := ReadChar(input, s);
    }
  }

  /** A slice grows by the byte at its end. */
  lemma SliceSnoc(s: string, a: nat, b: nat)
    requires a <= b < |s|
    ensures s[a..b + 1] == s[a..b] + [s[b]]
  {
  }

  /** The buffer ends in the pattern: the memcmp of its last |pat| bytes with pat. */
  predicate TailIs(buf: string, pat: string)
  {
    |pat| <= |buf| && forall i | 0 <= i < |pat| :: buf[|buf| - |pat| + i] == pat[i]
  }

  /**
   * One byte more of a script body: either the terminator ends right at the
   * new position n, or the search moves on past it.
   */
  lemma ScriptStep(s: string, pos: nat, close: string, buf: string, n: nat, goal: Option<nat>)
    requires pos < n <= |s| && buf == s[pos..n]
    requires goal == Search(s, close, pos + |close|)
    requires n >= pos + |close| ==> goal == Search(s, close, n)
    ensures TailIs(buf, close) ==> goal == Some(n)
    ensures !TailIs(buf, close) ==> (n + 1 >= pos + |close| ==> goal == Search(s, close, n + 1))
  {
    if n >= pos + |close| {
      SliceTail(s, pos, n, close);
      if TailIs(buf, close) {
        assert Search(s, close, n) == Some(n);
      } else {
        assert Search(s, close, n) == Search(s, close, n + 1);
      }
    } else {
      assert !TailIs(buf, close);
    }
  }

  /** The tail of a slice ending at n is the terminator exactly when the terminator ends at n. */
  lemma SliceTail(s: string, pos: nat, n: nat, close: string)
    requires pos + |close| <= n <= |s|
    ensures TailIs(s[pos..n], close) <==> EndsAt(s, close, n)
  {
    var buf := s[pos..n];
    forall i | 0 <= i < |close|
      ensures buf[|buf| - |close| + i] == close[i] <==> s[n - |close| + i] == close[i]
    {
      assert buf[|buf| - |close| + i] == s[n - |close| + i];
    }
  }

  /**
   * The script loop itself, with buf already buffered and the next byte at
   * index n: getchar, append, compare the buffer's tail with the terminator;
   * at EOF the terminator's length is cut off whatever was buffered, and a
   * shorter buffer is the size_t underflow.
   */
  function ScriptLoop(s: string, close: string, buf: string, n: nat): (r: Option<Scan>)
    requires n <= |s|
    decreases |s| - n
  {
    if n == |s| then
      if |buf| >= |close| then Some(Scan(buf[..|buf| - |close|], n)) else None
    else
      var b := buf + [s[n]];
      if TailIs(b, close) then Some(Scan(b[..|b| - |close|], n + 1))
      else ScriptLoop(s, close, b, n + 1)
  }

  /** At EOF the loop and the first-occurrence definition agree. */
  lemma ScriptAtEof(s: string, pos: nat, close: string)
    requires pos <= |s| && |close| >= 1
    requires |s| + 1 >= pos + |close| ==> Search(s, close, pos + |close|) == Search(s, close, |s| + 1)
    ensures ScriptLoop(s, close, s[pos..|s|], |s|) == ScriptText(s, pos, close)
  {
    assert Search(s, close, |s| + 1) == None;
    assert Search(s, close, pos + |close|) == None;
    if |s| - pos >= |close| {
      assert s[pos..|s|][..|s| - pos - |close|] == s[pos..|s| - |close|];
    }
  }

  /** The terminator ending at n + 1 ends the loop there, with the text before it. */
  lemma ScriptAtHit(s: string, pos: nat, close: string, b: string, n: nat)
    requires pos <= n < |s| && b == s[pos..n + 1] && |close| <= |b|
    requires Search(s, close, pos + |close|) == Some(n + 1)
    ensures ScriptText(s, pos, close) == Some(Scan(b[..|b| - |close|], n + 1))
  {
    assert b[..|b| - |close|] == s[pos..n + 1 - |close|];
  }

  /** One turn of the script loop, over the prefix of the input. */
  lemma ScriptLoopUnroll(s: string, pos: nat, close: string, n: nat)
    requires pos <= n < |s|
    ensures var b := s[pos..n + 1];
      ScriptLoop(s, close, s[pos..n], n)
      == if TailIs(b, close) then Some(Scan(b[..|b| - |close|], n + 1)) else ScriptLoop(s, close, b, n + 1)
  {
    assert s[pos..n + 1] == s[pos..n] + [s[n]];
  }

  /** From any point of the scan, the loop ends where the first-occurrence definition says. */
  lemma {:induction false} ScriptLoopFinds(s: string, pos: nat, close: string, n: nat)
    requires pos <= n <= |s| && |close| >= 1
    requires n + 1 >= pos + |close| ==> Search(s, close, pos + |close|) == Search(s, close, n + 1)
    ensures ScriptLoop(s, close, s[pos..n], n) == ScriptText(s, pos, close)
    decreases |s| - n
  {
    if n == |s| {
      ScriptAtEof(s, pos, close);
    } else {
      var b := s[pos..n + 1];
      ScriptLoopUnroll(s, pos, close, n);
      ScriptStep(s, pos, close, b, n + 1, Search(s, close, pos + |close|));
      if TailIs(b, close) {
        assert ScriptLoop(s, close, s[pos..n], n) == Some(Scan(b[..|b| - |close|], n + 1));
        ScriptAtHit(s, pos, close, b, n);
      } else {
        assert ScriptLoop(s, close, s[pos..n], n) == ScriptLoop(s, close, b, n + 1);
        ScriptLoopFinds(s, pos, close, n + 1);
      }
    }
  }


  /**
   * The script loop after a script start tag: bytes are buffered until the
   * buffer ends in close, which is cut off; at EOF the buffer is cut by the
   * terminator's length all the same.
   */
  method ReadScriptText(input: StreamString, ghost s: string, close: string) returns (text: Option<string>)
    requires input.Valid() && input.Contents() == s && Ascii(s) && |close| >= 1
    modifies input`position
    ensures input.Valid() && input.Contents() == s
    ensures text.None? <==> ScriptText(s, old(input.position), close).None?
    ensures text.Some? ==> ScriptText(s, old(input.position), close) == Some(Scan(text.value, input.position))
  {
    ghost var pos := input.position;
    assert s[pos..pos] == [];
    ScriptLoopFinds(s, pos, close, pos);
    ghost var goal := ScriptLoop(s, close, [], pos);
    ghost var n := pos;
    var buf: string := [];
    while true
      invariant input.Valid() && input.Contents() == s && input.position == n && n <= |s|
      invariant ScriptLoop(s, close, buf, n) == goal
      decreases |s| - n
    {
      var c := ReadChar(input, s);
      if c == EOF {
        break;
      }
      buf := buf + [c as char];
      n := n + 1;
      if TailIs(buf, close) {
        return Some(buf[..|buf| - |close|]);
      }
    }
    if |buf| < |close| {
      // `length -= endLength` wraps around: undefined from here on
      return None;
    }
    text := Some(buf[..|buf| - |close|]);
  }

  /** The walk from current towards the document for a close tag's name. */
  method FindOpenObject(stack: seq<Tree>, name: string) returns (found: Option<nat>)
    requires |stack| >= 1
    ensures found == Walk(stack, name, |stack| - 1)
  {
    var i := |stack| - 1;
    while i != 0 && stack[i].name != Some(name)
      invariant 0 <= i < |stack|
      invariant Walk(stack, name, i) == Walk(stack, name, |stack| - 1)
    {
      i := i - 1;
    }
    if i == 0 {
      return None;
    }
    return Some(i);
  }

  /** After "</": read the name; EOF returns the document, otherwise the walk decides. */
  method ReadCloseTag(input: StreamString, ghost s: string, stack: seq<Tree>) returns (r: StepResult)
    requires input.Valid() && input.Contents() == s && Ascii(s) && |stack| >= 1
    modifies input`position
    ensures input.Valid() && input.Contents() == s
    ensures Close(s, old(input.position), stack) == r
    ensures r.Continue? ==> input.position == r.k
  {
    ghost var k2 := input.position;
    var c := ReadChar(input, s);
    var name, c2, nEnd := ReadRun(input, s, c, k2, Alnum);
    if c2 == EOF {
      return Finished(stack);
    }
    var found := FindOpenObject(stack, name);
    if found.None? {
      // the source logs a warning and leaves current where it is
      return Continue(input.position, stack);
    }
    return Continue(input.position, PopTo(stack, found.value));
  }

  /** After '<': the name, the new object, its attributes, and for a script its text. */
  method ReadOpenTag(input: StreamString, ghost s: string, c: int, ghost k1: nat, stack: seq<Tree>, d: Dialect)
    returns (r: StepResult)
    requires Looking(input, s, k1, c) && 1 <= k1 && |stack| >= 1
    modifies input`position
    ensures input.Valid() && input.Contents() == s
    ensures Open(s, k1, stack, d) == r
    ensures r.Continue? ==> input.position == r.k
  {
    var name, c2, k2 := ReadRun(input, s, c, k1, Alnum);
    var kind := DetectObjectType(name, d);
    var attrs, c3, k3 := ParseAttributes(input, s, [], c2, k2, d);
    var frame := Tree(kind, Some(name), None, None, attrs, []);
    if kind == Single {
      // left at once: current = current->parent
      return Continue(input.position, AddChild(stack, frame));
    }
    if kind == Script {
      var close := CloseOf(name);
      var text := ReadScriptText(input, s, close);
      if text.None? {
        return Underflow;
      }
      return Continue(input.position, AddChild(stack, frame.(innerText := Some(text.value))));
    }
    return Continue(input.position, stack + [frame]);
  }

  /**
   * InsertText: standardRead = tell - start, the seek back to start, then
   * getchar, stopping at '<' or EOF only once the standard read is spent.
   */
  method InsertTextAt(input: StreamString, ghost s: string, start: nat, stack: seq<Tree>)
    returns (stack2: seq<Tree>, c: int, e: nat)
    requires input.Valid() && input.Contents() == s && Ascii(s) && start <= input.position && |stack| >= 1
    modifies input`position
    ensures Looking(input, s, e, c)
    ensures InsertText(s, start, old(input.position), stack) == Continue(e, stack2)
  {
    var tell := input.Tell();
    var _ := input.Seek(start, SEEK_SET);
    var buf;
    buf, c, e := ReadTextUntil(input, s, tell);
    stack2 := PutText(stack, buf);
  }

  /**
   * InsertText's getchar loop, from the position the seek left: the
   * standard read (tell minus that position) is taken whatever the bytes
   * are, then the bytes up to '<' or EOF; e is where the stopping byte was.
   */
  method ReadTextUntil(input: StreamString, ghost s: string, tell: nat) returns (buf: string, c: int, e: nat)
    requires input.Valid() && input.Contents() == s && Ascii(s) && input.position <= tell <= |s|
    modifies input`position
    ensures Looking(input, s, e, c)
    ensures e == RunEnd(s, tell, NotLt) && buf == s[old(input.position)..e]
  {
    ghost var start := input.position;
    var standardRead: int := tell - input.position;
    buf := [];
    while true
      invariant input.Valid() && input.Contents() == s && start <= input.position <= |s|
      invariant buf == s[start..input.position] && standardRead == tell - input.position
      invariant input.position <= tell || RunEnd(s, input.position, NotLt) == RunEnd(s, tell, NotLt)
      decreases |s| - input.position
    {
      var i := input.position;
      c := ReadChar(input, s);
      if standardRead <= 0 && (c == EOF || c == '<' as int) {
        e := i;
        break;
      }
      standardRead := standardRead - 1;
      SliceSnoc(s, start, i);
      buf := buf + [c as char];
    }
  }

  /** A doctype's text: lowered bytes up to '>' or EOF; the byte that stops it is consumed. */
  method ReadDoctype(input: StreamString, ghost s: string) returns (text: string)
    requires input.Valid() && input.Contents() == s && Ascii(s)
    modifies input`position
    ensures input.Valid() && input.Contents() == s
    ensures var e := RunEnd(s, old(input.position), NotGt); text == Lowered(s[old(input.position)..e]) && input.position == Next(s, e)
  {
    ghost var p := input.position;
    var c := ReadChar(input, s);
    var c2;
    ghost var e;
    text, c2, e := ReadRun(input, s, c, p, NotGt);
  }

  /** The comment branch: the comment read and added to the current object, or on EOF the document as it stands. */
  method ReadCommentNode(input: StreamString, ghost s: string, ghost p: nat, stack: seq<Tree>) returns (r: StepResult)
    requires input.Valid() && input.Contents() == s && Ascii(s) && input.position == p && |stack| >= 1
    modifies input`position
    ensures input.Valid() && input.Contents() == s
    ensures r == match CommentText(s, p)
      case None => Finished(stack)
      case Some(t) => Continue(t.next, AddChild(stack, CommentNode(t.text)))
    ensures r.Continue? ==> input.position == r.k
  {
    var text := ReadComment(input, s);
    if text.None? {
      // HtmlHandleError: the document as it stands
      return Finished(stack);
    }
    return Continue(input.position, AddChild(stack, CommentNode(text.value)));
  }

  /** The doctype branch: its text read and a doctype node added to the current object. */
  method ReadDoctypeNode(input: StreamString, ghost s: string, ghost p: nat, stack: seq<Tree>) returns (r: StepResult)
    requires input.Valid() && input.Contents() == s && Ascii(s) && input.position == p && |stack| >= 1
    modifies input`position
    ensures input.Valid() && input.Contents() == s
    ensures var e := RunEnd(s, p, NotGt);
      r == Continue(Next(s, e), AddChild(stack, DoctypeNode(Lowered(s[p..e])))) && input.position == r.k
  {
    var text := ReadDoctype(input, s);
    r := Continue(input.position, AddChild(stack, DoctypeNode(text)));
  }

  /**
   * After "<!": two bytes for "--" and a comment; six more for "doctype "
   * and its text up to '>'; otherwise the bytes go in as text.  resume says
   * the round ended in InsertText, with getchar's last byte at k2; otherwise
   * the stream stands at k2.
   */
  method ReadBang(input: StreamString, ghost s: string, start: nat, stack: seq<Tree>)
    returns (r: StepResult, resume: bool, c: int)
    requires input.Valid() && input.Contents() == s && Ascii(s) && start < input.position && |stack| >= 1
    modifies input`position
    ensures input.Valid() && input.Contents() == s
    ensures Bang(s, start, old(input.position), stack) == r
    ensures r.Continue? && resume ==> Looking(input, s, r.k, c)
    ensures r.Continue? && !resume ==> input.position == r.k
  {
    ghost var p2 := input.position;
    var head, r1 := input.Read(2, 1);
    assert head == s[p2..p2 + r1];
    if r1 == 2 && head == "--" {
      BangComment(s, start, p2, stack);
      r := ReadCommentNode(input, s, p2 + 2, stack);
      return r, false, EOF;
    }
    r, resume, c := ReadBangWord(input, s, start, p2, head, stack);
  }

  /** After "<!" that does not open a comment: six more bytes tell a doctype from text. */
  method ReadBangWord(input: StreamString, ghost s: string, start: nat, ghost p2: nat, head: string, stack: seq<Tree>)
    returns (r: StepResult, resume: bool, c: int)
    requires input.Valid() && input.Contents() == s && Ascii(s) && start < p2 <= |s| && |stack| >= 1
    requires input.position == p2 + Min(2, |s| - p2) && head == s[p2..input.position]
    requires !(|head| == 2 && head == "--")
    modifies input`position
    ensures input.Valid() && input.Contents() == s
    ensures Bang(s, start, p2, stack) == r
    ensures r.Continue? && resume ==> Looking(input, s, r.k, c)
    ensures r.Continue? && !resume ==> input.position == r.k
  {
    var r1 := |head|;
    var tail, r2 := input.Read(6, 1);
    var word := head + tail;
    assert word == s[p2..p2 + r1 + r2] by {
      assert tail == s[p2 + r1..p2 + r1 + r2];
    }
    if r1 == 2 && r2 == 6 && Lowered(word) == "doctype " {
      assert input.position == p2 + 8;
      BangDoctype(s, start, p2, stack);
      r := ReadDoctypeNode(input, s, p2 + 8, stack);
      return r, false, EOF;
    }
    // "<!" followed by anything else is text
    ghost var p4 := input.position;
    assert p4 == Min(p2 + 8, |s|);
    BangText(s, start, p2, stack);
    var stack2, e;
    stack2, c, e := InsertTextAt(input, s, start, stack);
    assert Bang(s, start, p2, stack) == Continue(e, stack2);
    return Continue(e, stack2), true, c;
  }

  /**
   * One round of HtmlLibReadObjectFromStream from SkipLoopGetChar: c is
   * getchar's byte at k, and start is where the round's text begins.
   */
  method Round(input: StreamString, ghost s: string, c: int, ghost k: nat, start: nat, stack: seq<Tree>, d: Dialect)
    returns (r: StepResult, resume: bool, c2: int)
    requires Looking(input, s, k, c) && |stack| >= 1 && (start == k || c == EOF)
    modifies input`position
    ensures input.Valid() && input.Contents() == s
    ensures Step(s, k, stack, d) == r
    ensures r.Continue? && resume ==> Looking(input, s, r.k, c2)
    ensures r.Continue? && !resume ==> input.position == r.k
  {
    var c1;
    ghost var q;
    c1, q := SkipSpaces(input, s, c, k);
    if c1 == EOF {
      StepAtEnd(s, k, stack, d);
      return Finished(stack), false, EOF;
    }
    if c1 != '<' as int {
      StepIsText(s, k, stack, d);
      RunEndPast(s, k, q + 1, NotLt);
      var _ := input.Seek(start, SEEK_SET);
      var stack2, e;
      stack2, c2, e := InsertTextAt(input, s, start, stack);
      return Continue(e, stack2), true, c2;
    }
    StepIsMarkup(s, k, stack, d);
    r, resume, c2 := ReadMarkup(input, s, start, q, stack, d);
  }

  /** After '<': getchar tells a declaration or comment, a close tag and an open tag apart. */
  method ReadMarkup(input: StreamString, ghost s: string, start: nat, ghost q: nat, stack: seq<Tree>, d: Dialect)
    returns (r: StepResult, resume: bool, c2: int)
    requires input.Valid() && input.Contents() == s && Ascii(s)
    requires start <= q < |s| && input.position == q + 1 && |stack| >= 1
    modifies input`position
    ensures input.Valid() && input.Contents() == s
    ensures Markup(s, start, q, stack, d) == r
    ensures r.Continue? && resume ==> Looking(input, s, r.k, c2)
    ensures r.Continue? && !resume ==> input.position == r.k
  {
    var c1 := ReadChar(input, s);
    if c1 == '!' as int {
      r, resume, c2 := ReadBang(input, s, start, stack);
      return;
    }
    if c1 == '/' as int {
      r := ReadCloseTag(input, s, stack);
      return r, false, EOF;
    }
    r := ReadOpenTag(input, s, c1, q + 1, stack, d);
    return r, false, EOF;
  }

  /**
   * HtmlLibReadObjectFromStream: rounds from the stream's position until
   * EOF, with the open objects as frames over a fresh document.
   */
  method LibReadObjectFromStream(input: StreamString, ghost s: string, d: Dialect) returns (doc: Tree)
    requires input.Valid() && input.Contents() == s && Ascii(s)
    requires Run(s, input.position, [Blank(Document, None)], d).Parsed?
    modifies input`position
    ensures input.Valid() && input.Contents() == s
    ensures doc == Run(s, old(input.position), [Blank(Document, None)], d).doc
  {
    var stack := [Blank(Document, None)];
    ghost var goal := Run(s, input.position, stack, d);
    var start := input.Tell();
    var c := ReadChar(input, s);
    ghost var k := start;
    while true
      invariant Looking(input, s, k, c) && |stack| >= 1 && (start == k || c == EOF)
      invariant Run(s, k, stack, d) == goal
      decreases |s| - k
    {
      var r, resume, c2 := Round(input, s, c, k, start, stack, d);
      if r.Finished? {
        return Build(r.stack);
      }
      if r.Underflow? {
        assert false;
      }
      stack, k := r.stack, r.k;
      if resume {
        // goto SkipLoopGetChar, with start one before the stream
        var tell := input.Tell();
        start, c := tell - 1, c2;
      } else {
        start := input.Tell();
        c := ReadChar(input, s);
      }
    }
  }

  /** HtmlReadObjectFromString: NULL gives NULL; any other string, "" included, is read from its start. */
  method ReadObjectFromString(str: Option<string>) returns (doc: Option<Tree>)
    requires str.Some? ==> Ascii(str.value) && |str.value| <= LONG_MAX && Parse(str.value, V2).Parsed?
    ensures doc.None? <==> str.None?
    ensures doc.Some? ==> doc.value == Parse(str.value, V2).doc
  {
    if str.None? {
      return None;
    }
    var input := new StreamString.CreateString(str.value);
    var tree := LibReadObjectFromStream(input, str.value, V2);
    return Some(tree);
  }

  /** HtmlReadObjectFromStream: an unreadable (here: absent) stream gives NULL. */
  method ReadObjectFromStream(input: StreamString?, ghost s: string) returns (doc: Option<Tree>)
    requires input != null ==> input.Valid() && input.Contents() == s && Ascii(s) && Run(s, input.position, [Blank(Document, None)], V2).Parsed?
    modifies if input != null then {input} else {}
    ensures doc.None? <==> input == null
    ensures doc.Some? ==> doc.value == Run(s, old(input.position), [Blank(Document, None)], V2).doc
  {
    if input == null {
      return None;
    }
    var tree := LibReadObjectFromStream(input, s, V2);
    return Some(tree);
  }
}

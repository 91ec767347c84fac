/**
 * The v2 selector (myhtml2/myhtml_select.h): a pattern of whitespace
 * separated segments `name.class#id[n]` compiled to a chain of selects, and
 * the first-match search that walks an object tree with it.
 *
 * The chain is a sequence, each select's next being the one after it.  A
 * found object is named by its path of child positions from the object
 * searched.
 */
module Selector {
  import opened Wrappers
  import opened Defines
  import opened Chars
  import opened Attributes
  import opened Document

  /** One compiled segment; targetIndex is 0 unless the segment gives `[n]`. */
  datatype Select = Select(name: Option<string>, className: Option<string>, id: Option<string>, targetIndex: int)

  /** What HtmlCreateSelect hands back, or Undefined where it writes through a NULL pointer. */
  datatype Compiled = Compiled(chain: seq<Select>) | Undefined

  /** The field the compiler is writing characters to. */
  datatype Target = NoTarget | NameField | ClassField | IdField

  const Empty := Select(None, None, None, 0)

  // ---------------------------------------------------------------------
  // The compiler

  /** Position of the first non-space at or after p. */
  function SkipSpaces(pat: string, p: nat): (r: nat)
    requires p <= |pat|
    ensures p <= r <= |pat|
    ensures forall i | p <= i < r :: IsSpace(pat[i] as int)
    ensures r < |pat| ==> !IsSpace(pat[r] as int)
    decreases |pat| - p
  {
    if p < |pat| && IsSpace(pat[p] as int) then SkipSpaces(pat, p + 1) else p
  }

  /** The characters the loop after `[` steps over: spaces, digits, `]` and `-`. */
  predicate IndexChar(c: char)
  {
    IsSpace(c as int) || IsDigit(c as int) || c == ']' || c == '-'
  }

  function SkipIndex(pat: string, p: nat): (r: nat)
    requires p <= |pat|
    ensures p <= r <= |pat|
    ensures r < |pat| ==> !IndexChar(pat[r])
    decreases |pat| - p
  {
    if p < |pat| && IndexChar(pat[p]) then SkipIndex(pat, p + 1) else p
  }

  /** End of the run of decimal digits starting at p. */
  function DigitsEnd(pat: string, p: nat): (r: nat)
    requires p <= |pat|
    ensures p <= r <= |pat|
    ensures forall i | p <= i < r :: IsDigit(pat[i] as int)
    ensures r < |pat| ==> !IsDigit(pat[r] as int)
    decreases |pat| - p
  {
    if p < |pat| && IsDigit(pat[p] as int) then DigitsEnd(pat, p + 1) else p
  }

  /** The decimal value of a run of digits. */
  function DecimalValue(ds: string): (r: nat)
  {
    if ds == [] then 0 else DecimalValue(ds[..|ds| - 1]) * 10 + (ds[|ds| - 1] as int - '0' as int) % 10
  }

  /**
   * sscanf("%d"): after white space, an optional sign and at least one
   * digit; None when there is no digit, and then the target is not stored.
   */
  function ScanInt(pat: string, p: nat): (r: Option<int>)
    requires p <= |pat|
  {
    var q := SkipSpaces(pat, p);
    var signed := q < |pat| && (pat[q] == '-' || pat[q] == '+');
    var d := if signed then q + 1 else q;
    var e := DigitsEnd(pat, d);
    if e == d then None
    else
      var v: int := DecimalValue(pat[d..e]);
      if signed && pat[q] == '-' then Some(-v) else Some(v)
  }

  /** Terminate the text being written into its field. */
  function Commit(sel: Select, w: Target, buf: string): (r: Select)
    ensures r.targetIndex == sel.targetIndex
  {
    match w
    case NoTarget => sel
    case NameField => sel.(name := Some(buf))
    case ClassField => sel.(className := Some(buf))
    case IdField => sel.(id := Some(buf))
  }

  /** Where a segment ended, and the select it made (None when no field was ever chosen). */
  datatype SegmentEnd = SegmentEnd(sel: Option<Select>, next: nat)

  function Finish(sel: Select, w: Target, buf: string, p: nat): SegmentEnd
  {
    SegmentEnd(if w == NoTarget then None else Some(Commit(sel, w, buf)), p)
  }

  /**
   * The inner loop of HtmlCreateSelect from position p, with the select
   * built so far, the field being written and its text.  `[` reads the
   * index and ends the segment; `.` and `#` terminate the current text and
   * switch to the class or id; the first other character only chooses the
   * name, and as written it is not stored; every later one is stored
   * lowered.
   */
  function ReadSegment(pat: string, p: nat, sel: Select, w: Target, buf: string, e: Edition): (r: SegmentEnd)
    requires p <= |pat|
    ensures p <= r.next <= |pat|
    ensures p < |pat| && !IsSpace(pat[p] as int) ==> p < r.next
    decreases |pat| - p
  {
    if p == |pat| || IsSpace(pat[p] as int) then Finish(sel, w, buf, p)
    else
      var c := pat[p];
      if c == '[' then
        var n := ScanInt(pat, p + 1);
        Finish(if n.Some? then sel.(targetIndex := n.value) else sel, w, buf, SkipIndex(pat, p + 1))
      else if c == '.' then ReadSegment(pat, p + 1, Commit(sel, w, buf), ClassField, "", e)
      else if c == '#' then ReadSegment(pat, p + 1, Commit(sel, w, buf), IdField, "", e)
      else if w == NoTarget then
        ReadSegment(pat, p + 1, sel, NameField, if e == AsWritten then "" else [LowerChar(c)], e)
      else ReadSegment(pat, p + 1, sel, w, buf + [LowerChar(c)], e)
  }

  /** The outer loop of HtmlCreateSelect from position p, with the chain built so far. */
  function CompileFrom(pat: string, p: nat, acc: seq<Select>, e: Edition): (r: Compiled)
    requires p <= |pat|
    decreases |pat| - p
  {
    var q := SkipSpaces(pat, p);
    if q == |pat| then Compiled(acc)
    else
      var seg := ReadSegment(pat, q, Empty, NoTarget, "", e);
      if seg.sel.None? then Undefined else CompileFrom(pat, seg.next, acc + [seg.sel.value], e)
  }

  /** HtmlCreateSelect as a value: the chain of a whole pattern. */
  function Compile(pat: string, e: Edition): Compiled
  {
    CompileFrom(pat, 0, [], e)
  }

  /**
   * HtmlCreateSelect: walk the pattern, one select per segment, linked in
   * order.
   */
  method CreateSelect(pattern: string) returns (r: Compiled)
    requires CString(pattern)
    ensures r == Compile(pattern, AsWritten)
  {
    var chain: seq<Select> := [];
    var p := 0;
    while p < |pattern|
      invariant p <= |pattern|
      invariant CompileFrom(pattern, p, chain, AsWritten) == Compile(pattern, AsWritten)
      decreases |pattern| - p
    {
      // removes spaces
      while IsSpace(pattern[p] as int)
        invariant p < |pattern|
        invariant CompileFrom(pattern, p, chain, AsWritten) == Compile(pattern, AsWritten)
        decreases |pattern| - p
      {
        CompileSkipsSpace(pattern, p, chain, AsWritten);
        p := p + 1;
        if p == |pattern| {
          return Compiled(chain);
        }
      }
      var seg := ReadPattern(pattern, p);
      CompileReadsSegment(pattern, p, chain, AsWritten);
      if seg.sel.None? {
        return Undefined;
      }
      chain := chain + [seg.sel.value];
      p := seg.next;
    }
    return Compiled(chain);
  }

  lemma CompileSkipsSpace(pat: string, p: nat, acc: seq<Select>, e: Edition)
    requires p < |pat| && IsSpace(pat[p] as int)
    ensures CompileFrom(pat, p + 1, acc, e) == CompileFrom(pat, p, acc, e)
    ensures p + 1 == |pat| ==> CompileFrom(pat, p, acc, e) == Compiled(acc)
  {
  }

  lemma CompileReadsSegment(pat: string, p: nat, acc: seq<Select>, e: Edition)
    requires p < |pat| && !IsSpace(pat[p] as int)
    ensures var seg := ReadSegment(pat, p, Empty, NoTarget, "", e);
      CompileFrom(pat, p, acc, e) == if seg.sel.None? then Undefined else CompileFrom(pat, seg.next, acc + [seg.sel.value], e)
  {
  }

  /** HtmlCreateSelect's skip over an index: its spaces, digits, `-` and `]`. */
  method SkipIndexChars(pattern: string, from: nat) returns (p: nat)
    requires from <= |pattern|
    ensures p == SkipIndex(pattern, from)
  {
    p := from;
    while p < |pattern| && IndexChar(pattern[p])
      invariant from <= p <= |pattern|
      invariant SkipIndex(pattern, p) == SkipIndex(pattern, from)
      decreases |pattern| - p
    {
      p := p + 1;
    }
  }

  /**
   * One segment of HtmlCreateSelect, from its first character.  The text
   * written last is terminated through the field pointer, which is still
   * NULL when the segment starts with `[`.
   */
  method ReadPattern(pattern: string, start: nat) returns (r: SegmentEnd)
    requires start < |pattern| && !IsSpace(pattern[start] as int)
    ensures r == ReadSegment(pattern, start, Empty, NoTarget, "", AsWritten)
  {
    var p := start;
    var sel := Empty;
    var write := NoTarget;
    var buf := "";
    while p < |pattern| && !IsSpace(pattern[p] as int)
      invariant start <= p <= |pattern|
      invariant ReadSegment(pattern, p, sel, write, buf, AsWritten) == ReadSegment(pattern, start, Empty, NoTarget, "", AsWritten)
      decreases |pattern| - p
    {
      var c := pattern[p];
      if c == '[' {
        p := p + 1;
        var index := ScanInt(pattern, p);
        if index.Some? {
          sel := sel.(targetIndex := index.value);
        }
        p := SkipIndexChars(pattern, p);
        break;
      }
      if c == '.' {
        sel := Commit(sel, write, buf);
        write := ClassField;
        buf := "";
      } else if c == '#' {
        sel := Commit(sel, write, buf);
        write := IdField;
        buf := "";
      } else if write == NoTarget {
        write := NameField;
        buf := "";
      } else {
        buf := buf + [LowerChar(c)];
      }
      p := p + 1;
    }
    assert Finish(sel, write, buf, p) == ReadSegment(pattern, start, Empty, NoTarget, "", AsWritten);
    if write == NoTarget {
      return SegmentEnd(None, p);
    }
    return SegmentEnd(Some(Commit(sel, write, buf)), p);
  }

  // ---------------------------------------------------------------------
  // What a pattern compiles to

  /** A character that is stored as it comes: not a separator and not one of `.`, `#`, `[`. */
  predicate Plain(c: char)
  {
    !IsSpace(c as int) && c != '.' && c != '#' && c != '['
  }

  /** End of the run of plain characters from p. */
  function WordEnd(pat: string, p: nat): (r: nat)
    requires p <= |pat|
    ensures p <= r <= |pat|
    ensures forall i | p <= i < r :: Plain(pat[i])
    ensures r < |pat| ==> !Plain(pat[r])
    decreases |pat| - p
  {
    if p < |pat| && Plain(pat[p]) then WordEnd(pat, p + 1) else p
  }

  /** The words of a pattern from p on: its runs of non-space characters. */
  function Words(pat: string, p: nat): (r: seq<string>)
    requires p <= |pat|
    decreases |pat| - p
  {
    var q := SkipSpaces(pat, p);
    if q == |pat| then []
    else
      var e := WordEnd(pat, q);
      if e == q then [] else [pat[q..e]] + Words(pat, e)
  }

  /** The select a plain word makes: only a name, the word lowered, and as written its first character lost. */
  function WordSelect(w: string, e: Edition): (r: Select)
    requires w != []
  {
    Empty.(name := Some(if e == AsWritten then Lowered(w[1..]) else Lowered(w)))
  }

  function WordSelects(ws: seq<string>, e: Edition): (r: seq<Select>)
    requires forall i | 0 <= i < |ws| :: ws[i] != []
    ensures |r| == |ws|
    ensures forall i | 0 <= i < |ws| :: r[i] == WordSelect(ws[i], e)
  {
    if ws == [] then [] else [WordSelect(ws[0], e)] + WordSelects(ws[1..], e)
  }

  /** Words are never empty. */
  lemma {:induction false} WordsNonEmpty(pat: string, p: nat)
    requires p <= |pat|
    ensures forall i | 0 <= i < |Words(pat, p)| :: Words(pat, p)[i] != []
    decreases |pat| - p
  {
    var q := SkipSpaces(pat, p);
    if q < |pat| {
      var e := WordEnd(pat, q);
      if e > q {
        WordsNonEmpty(pat, e);
      }
    }
  }

  /** A pattern of plain words and spaces. */
  predicate PlainPattern(pat: string)
  {
    forall i | 0 <= i < |pat| :: Plain(pat[i]) || IsSpace(pat[i] as int)
  }

  /** The name run: plain characters are stored lowered until a space or the end. */
  lemma {:induction false} NameRun(pat: string, p: nat, sel: Select, buf: string, e: Edition)
    requires p <= |pat|
    ensures var q := WordEnd(pat, p);
      (q == |pat| || IsSpace(pat[q] as int)) ==>
      ReadSegment(pat, p, sel, NameField, buf, e) == Finish(sel, NameField, buf + Lowered(pat[p..q]), q)
    decreases |pat| - p
  {
    var q := WordEnd(pat, p);
    if p < |pat| && Plain(pat[p]) {
      assert WordEnd(pat, p + 1) == q;
      assert ReadSegment(pat, p, sel, NameField, buf, e) == ReadSegment(pat, p + 1, sel, NameField, buf + [LowerChar(pat[p])], e);
      NameRun(pat, p + 1, sel, buf + [LowerChar(pat[p])], e);
      assert pat[p..q] == [pat[p]] + pat[p + 1..q];
      assert Lowered(pat[p..q]) == [LowerChar(pat[p])] + Lowered(pat[p + 1..q]);
      ConcatAssoc(buf, [LowerChar(pat[p])], Lowered(pat[p + 1..q]));
    } else {
      assert pat[p..q] == [];
      assert buf + Lowered(pat[p..q]) == buf;
    }
  }

  /** One word of a plain pattern makes one select. */
  lemma WordSegment(pat: string, q: nat, e: Edition)
    requires PlainPattern(pat) && q < |pat| && Plain(pat[q])
    ensures var end := WordEnd(pat, q);
      ReadSegment(pat, q, Empty, NoTarget, "", e) == SegmentEnd(Some(WordSelect(pat[q..end], e)), end)
  {
    var end := WordEnd(pat, q);
    var first: string := if e == AsWritten then "" else [LowerChar(pat[q])];
    assert ReadSegment(pat, q, Empty, NoTarget, "", e) == ReadSegment(pat, q + 1, Empty, NameField, first, e);
    NameRun(pat, q + 1, Empty, first, e);
    assert WordEnd(pat, q + 1) == end;
    assert end < |pat| ==> IsSpace(pat[end] as int);
    var w := pat[q..end];
    assert w[1..] == pat[q + 1..end];
    if e == AsWritten {
      assert first + Lowered(w[1..]) == Lowered(w[1..]);
    } else {
      LoweredFirst(w);
    }
  }

  /** Lowering a word lowers its first letter and then the rest. */
  lemma LoweredFirst(w: string)
    requires w != []
    ensures Lowered(w) == [LowerChar(w[0])] + Lowered(w[1..])
  {
  }

  /** A plain pattern compiles to one select per word. */
  lemma {:induction false} CompileWords(pat: string, p: nat, acc: seq<Select>, e: Edition)
    requires PlainPattern(pat) && p <= |pat|
    ensures WordsNonEmptyFact(pat, p)
    ensures CompileFrom(pat, p, acc, e) == Compiled(acc + WordSelects(Words(pat, p), e))
    decreases |pat| - p
  {
    WordsNonEmpty(pat, p);
    var q := SkipSpaces(pat, p);
    if q == |pat| {
      assert acc + [] == acc;
    } else {
      var end := WordEnd(pat, q);
      WordSegment(pat, q, e);
      var w := pat[q..end];
      CompileWords(pat, end, acc + [WordSelect(w, e)], e);
      assert Words(pat, p) == [w] + Words(pat, end);
      assert WordSelects([w] + Words(pat, end), e) == [WordSelect(w, e)] + WordSelects(Words(pat, end), e);
      ConcatAssoc(acc, [WordSelect(w, e)], WordSelects(Words(pat, end), e));
    }
  }

  predicate WordsNonEmptyFact(pat: string, p: nat)
    requires p <= |pat|
  {
    forall i | 0 <= i < |Words(pat, p)| :: Words(pat, p)[i] != []
  }

  /**
   * A pattern of plain words: one select per word, by name only.  As
   * written each name has lost its word's first character, so "title"
   * looks for the name "itle"; corrected, it is the word lowered.
   */
  lemma PlainPatternCompiles(pat: string, e: Edition)
    requires PlainPattern(pat)
    ensures WordsNonEmptyFact(pat, 0)
    ensures Compile(pat, e) == Compiled(WordSelects(Words(pat, 0), e))
    ensures e == AsWritten ==> forall i | 0 <= i < |Words(pat, 0)| ::
      Compile(pat, e).chain[i].name == Some(Lowered(Words(pat, 0)[i][1..]))
  {
    CompileWords(pat, 0, [], e);
    assert [] + WordSelects(Words(pat, 0), e) == WordSelects(Words(pat, 0), e);
  }

  /** The finding in one example: the selector "title" looks for objects named "itle". */
  lemma TitleLosesItsT()
    ensures Compile("title", AsWritten) == Compiled([Empty.(name := Some("itle"))])
    ensures Compile("title", Intended) == Compiled([Empty.(name := Some("title"))])
  {
    TitleIsOneWord();
    OneWordCompiles("title", AsWritten);
    OneWordCompiles("title", Intended);
    TitleLowered();
  }

  lemma TitleLowered()
    ensures WordSelect("title", AsWritten) == Empty.(name := Some("itle"))
    ensures WordSelect("title", Intended) == Empty.(name := Some("title"))
  {
    assert "title"[1..] == "itle";
    assert Lowered("itle") == "itle";
    assert Lowered("title") == "title";
  }

  /** A pattern that is a single plain word compiles to the one select that word makes. */
  lemma OneWordCompiles(pat: string, e: Edition)
    requires PlainPattern(pat) && Words(pat, 0) == [pat] && pat != []
    ensures Compile(pat, e) == Compiled([WordSelect(pat, e)])
  {
    PlainPatternCompiles(pat, e);
    assert WordSelects([pat], e) == [WordSelect(pat, e)];
  }

  lemma TitleIsOneWord()
    ensures PlainPattern("title") && Words("title", 0) == ["title"]
  {
    var pat := "title";
    assert SkipSpaces(pat, 0) == 0;
    assert WordEnd(pat, 0) == 5 by {
      assert WordEnd(pat, 4) == 5;
      assert WordEnd(pat, 3) == 5;
      assert WordEnd(pat, 2) == 5;
      assert WordEnd(pat, 1) == 5;
    }
    assert Words(pat, 5) == [];
    assert pat[0..5] == pat;
  }

  /** A bracketed index: "ul[-2]" selects the second UL from the last (as written, named "l"). */
  lemma IndexedPattern(e: Edition)
    ensures Compile("ul[-2]", e)
      == Compiled([Empty.(name := Some(if e == AsWritten then "l" else "ul"), targetIndex := -2)])
  {
    var pat := "ul[-2]";
    var b0: string := if e == AsWritten then "" else "u";
    assert SkipSpaces(pat, 0) == 0;
    assert SkipSpaces(pat, 3) == 3;
    assert DigitsEnd(pat, 5) == 5;
    assert DigitsEnd(pat, 4) == 5;
    assert pat[4..5] == "2";
    assert DecimalValue("2") == 2;
    assert ScanInt(pat, 3) == Some(-2);
    assert SkipIndex(pat, 3) == 6 by {
      assert SkipIndex(pat, 5) == 6;
      assert SkipIndex(pat, 4) == 6;
    }
    var sel := Empty.(name := Some(b0 + "l"), targetIndex := -2);
    assert ReadSegment(pat, 2, Empty, NameField, b0 + "l", e) == SegmentEnd(Some(sel), 6);
    assert ReadSegment(pat, 1, Empty, NameField, b0, e) == SegmentEnd(Some(sel), 6);
    assert ReadSegment(pat, 0, Empty, NoTarget, "", e) == SegmentEnd(Some(sel), 6);
    assert SkipSpaces(pat, 6) == 6;
    assert CompileFrom(pat, 6, [sel], e) == Compiled([sel]);
    assert [] + [sel] == [sel];
    assert CompileFrom(pat, 0, [], e) == CompileFrom(pat, 6, [sel], e);
    assert b0 + "l" == if e == AsWritten then "l" else "ul";
  }

  /** A nonempty word of plain characters. */
  predicate PlainWord(w: string)
  {
    w != [] && forall i | 0 <= i < |w| :: Plain(w[i])
  }

  /** The name a word stores: lowered, and as written without its first character. */
  function NameOf(w: string, e: Edition): (r: string)
    requires w != []
    ensures |r| == (if e == AsWritten then |w| - 1 else |w|)
  {
    if e == AsWritten then Lowered(w[1..]) else Lowered(w)
  }

  /** WordEnd stops at the first character that is not plain. */
  lemma {:induction false} WordEndAt(pat: string, p: nat, q: nat)
    requires p <= q <= |pat|
    requires forall k | p <= k < q :: Plain(pat[k])
    requires q == |pat| || !Plain(pat[q])
    ensures WordEnd(pat, p) == q
    decreases q - p
  {
    if p < q {
      WordEndAt(pat, p + 1, q);
    }
  }

  /** DigitsEnd stops at the first character that is not a digit. */
  lemma {:induction false} DigitsEndAt(pat: string, p: nat, q: nat)
    requires p <= q <= |pat|
    requires forall k | p <= k < q :: IsDigit(pat[k] as int)
    requires q == |pat| || !IsDigit(pat[q] as int)
    ensures DigitsEnd(pat, p) == q
    decreases q - p
  {
    if p < q {
      DigitsEndAt(pat, p + 1, q);
    }
  }

  /** SkipIndex stops at the first character the index loop does not step over. */
  lemma {:induction false} SkipIndexAt(pat: string, p: nat, q: nat)
    requires p <= q <= |pat|
    requires forall k | p <= k < q :: IndexChar(pat[k])
    requires q == |pat| || !IndexChar(pat[q])
    ensures SkipIndex(pat, p) == q
    decreases q - p
  {
    if p < q {
      SkipIndexAt(pat, p + 1, q);
    }
  }

  /** Once a field is chosen, a run of plain characters is stored lowered and the reading goes on after it. */
  lemma {:induction false} FieldRun(pat: string, p: nat, sel: Select, w: Target, buf: string, e: Edition)
    requires p <= |pat| && w != NoTarget
    ensures var q := WordEnd(pat, p);
      ReadSegment(pat, p, sel, w, buf, e) == ReadSegment(pat, q, sel, w, buf + Lowered(pat[p..q]), e)
    decreases |pat| - p
  {
    var q := WordEnd(pat, p);
    if p < |pat| && Plain(pat[p]) {
      assert WordEnd(pat, p + 1) == q;
      FieldRun(pat, p + 1, sel, w, buf + [LowerChar(pat[p])], e);
      assert pat[p..q] == [pat[p]] + pat[p + 1..q];
      assert Lowered(pat[p..q]) == [LowerChar(pat[p])] + Lowered(pat[p + 1..q]);
      ConcatAssoc(buf, [LowerChar(pat[p])], Lowered(pat[p + 1..q]));
    } else {
      assert pat[p..q] == [];
      assert buf + Lowered(pat[p..q]) == buf;
    }
  }

  /**
   * A word at p that ends at q: its first character chooses the name, and
   * the name stored is NameOf the word.
   */
  lemma NameWord(pat: string, p: nat, q: nat, e: Edition)
    requires p < q <= |pat|
    requires forall k | p <= k < q :: Plain(pat[k])
    requires q == |pat| || !Plain(pat[q])
    ensures ReadSegment(pat, p, Empty, NoTarget, "", e) == ReadSegment(pat, q, Empty, NameField, NameOf(pat[p..q], e), e)
  {
    var first: string := if e == AsWritten then "" else [LowerChar(pat[p])];
    assert ReadSegment(pat, p, Empty, NoTarget, "", e) == ReadSegment(pat, p + 1, Empty, NameField, first, e);
    WordEndAt(pat, p + 1, q);
    FieldRun(pat, p + 1, Empty, NameField, first, e);
    var w := pat[p..q];
    assert w[1..] == pat[p + 1..q];
    if e == AsWritten {
      assert first + Lowered(w[1..]) == Lowered(w[1..]);
    } else {
      LoweredFirst(w);
    }
  }

  /** After a `.` or `#` at p, the text so far is committed and a word ending at q is stored lowered in the field chosen. */
  lemma FieldWord(pat: string, p: nat, q: nat, sel: Select, w: Target, buf: string, e: Edition)
    requires p < q <= |pat| && (pat[p] == '.' || pat[p] == '#')
    requires forall k | p < k < q :: Plain(pat[k])
    requires q == |pat| || !Plain(pat[q])
    ensures ReadSegment(pat, p, sel, w, buf, e)
      == ReadSegment(pat, q, Commit(sel, w, buf), if pat[p] == '.' then ClassField else IdField, Lowered(pat[p + 1..q]), e)
  {
    var f := if pat[p] == '.' then ClassField else IdField;
    assert ReadSegment(pat, p, sel, w, buf, e) == ReadSegment(pat, p + 1, Commit(sel, w, buf), f, "", e);
    WordEndAt(pat, p + 1, q);
    FieldRun(pat, p + 1, Commit(sel, w, buf), f, "", e);
    assert "" + Lowered(pat[p + 1..q]) == Lowered(pat[p + 1..q]);
  }

  /** A pattern of one segment compiles to the select that segment makes. */
  lemma OneSegmentCompiles(pat: string, s: Select, e: Edition)
    requires pat != [] && !IsSpace(pat[0] as int)
    requires ReadSegment(pat, 0, Empty, NoTarget, "", e) == SegmentEnd(Some(s), |pat|)
    ensures Compile(pat, e) == Compiled([s])
  {
    assert SkipSpaces(pat, 0) == 0;
    assert SkipSpaces(pat, |pat|) == |pat|;
    assert [] + [s] == [s];
    assert CompileFrom(pat, |pat|, [s], e) == Compiled([s]);
    assert CompileFrom(pat, 0, [], e) == CompileFrom(pat, |pat|, [s], e);
  }

  /** The select of a segment `w.c#i`. */
  function DottedSelect(w: string, c: string, i: string, e: Edition): (r: Select)
    requires w != []
    ensures r.name == Some(NameOf(w, e)) && r.className == Some(Lowered(c)) && r.id == Some(Lowered(i))
    ensures r.targetIndex == 0
  {
    Empty.(name := Some(NameOf(w, e)), className := Some(Lowered(c)), id := Some(Lowered(i)))
  }

  /** A `w.c#i` segment read where its pieces lie: w before a, c between a and b, i between b and z. */
  lemma DottedAt(pat: string, a: nat, b: nat, z: nat, e: Edition)
    requires 0 < a < b < z <= |pat| && pat[a] == '.' && pat[b] == '#'
    requires forall k | 0 <= k < a :: Plain(pat[k])
    requires forall k | a < k < b :: Plain(pat[k])
    requires forall k | b < k < z :: Plain(pat[k])
    requires z == |pat| || IsSpace(pat[z] as int)
    ensures ReadSegment(pat, 0, Empty, NoTarget, "", e)
      == SegmentEnd(Some(DottedSelect(pat[..a], pat[a + 1..b], pat[b + 1..z], e)), z)
  {
    NameWord(pat, 0, a, e);
    assert pat[0..a] == pat[..a];
    var name := NameOf(pat[..a], e);
    FieldWord(pat, a, b, Empty, NameField, name, e);
    FieldWord(pat, b, z, Empty.(name := Some(name)), ClassField, Lowered(pat[a + 1..b]), e);
  }

  /**
   * A segment `w.c#i`: `.` switches the writing to the class and `#` to
   * the id, each storing the next word lowered; the name is NameOf w.  The
   * segment ends at the space or end after i.
   */
  lemma DottedSegment(w: string, c: string, i: string, tail: string, e: Edition)
    requires PlainWord(w) && PlainWord(c) && PlainWord(i)
    requires tail == [] || IsSpace(tail[0] as int)
    ensures ReadSegment(w + "." + c + "#" + i + tail, 0, Empty, NoTarget, "", e)
      == SegmentEnd(Some(DottedSelect(w, c, i, e)), |w| + |c| + |i| + 2)
    ensures tail == [] ==>
      Compile(w + "." + c + "#" + i, e) == Compiled([DottedSelect(w, c, i, e)])
  {
    var pat := w + "." + c + "#" + i + tail;
    var a, b, z := |w|, |w| + 1 + |c|, |w| + |c| + |i| + 2;
    assert |pat| == z + |tail|;
    assert pat[..a] == w && pat[a] == '.' && pat[a + 1..b] == c && pat[b] == '#' && pat[b + 1..z] == i;
    assert forall k | 0 <= k < a :: pat[k] == w[k];
    assert forall k | a < k < b :: pat[k] == c[k - a - 1];
    assert forall k | b < k < z :: pat[k] == i[k - b - 1];
    assert z < |pat| ==> pat[z] == tail[0];
    DottedAt(pat, a, b, z, e);
    if tail == [] {
      assert pat == w + "." + c + "#" + i;
      OneSegmentCompiles(pat, DottedSelect(w, c, i, e), e);
    }
  }

  /** The index literal of a segment: an optional minus and decimal digits. */
  function IndexLiteral(negative: bool, ds: string): (r: string)
    ensures |r| == |ds| + (if negative then 1 else 0)
    ensures negative ==> r[0] == '-' && r[1..] == ds
    ensures !negative ==> r == ds
  {
    (if negative then "-" else "") + ds
  }

  /** The value sscanf reads from an index literal. */
  function IndexValue(negative: bool, ds: string): int
  {
    var v: int := DecimalValue(ds);
    if negative then -v else v
  }

  /** The select of a segment `w[n]`. */
  function IndexedSelect(w: string, n: int, e: Edition): (r: Select)
    requires w != []
    ensures r.name == Some(NameOf(w, e)) && r.className.None? && r.id.None? && r.targetIndex == n
  {
    Empty.(name := Some(NameOf(w, e)), targetIndex := n)
  }

  /** sscanf("%d") on an index literal that starts at d (after the minus when there is one) and ends at z. */
  lemma ScanIndexAt(pat: string, p: nat, negative: bool, z: nat)
    requires p < z <= |pat|
    requires negative ==> p + 1 < z && pat[p] == '-'
    requires forall k | (if negative then p + 1 else p) <= k < z :: IsDigit(pat[k] as int)
    requires z == |pat| || !IsDigit(pat[z] as int)
    ensures ScanInt(pat, p) == Some(IndexValue(negative, pat[(if negative then p + 1 else p)..z]))
  {
    assert SkipSpaces(pat, p) == p;
    DigitsEndAt(pat, if negative then p + 1 else p, z);
  }

  /** A `w[n]` segment read where its pieces lie: w before a, `[` at a, the digits from d, `]` at z - 1. */
  lemma IndexedAt(pat: string, a: nat, negative: bool, d: nat, z: nat, e: Edition)
    requires d == a + 1 + (if negative then 1 else 0)
    requires 0 < a && d < z - 1 && z <= |pat|
    requires forall k | 0 <= k < a :: Plain(pat[k])
    requires pat[a] == '[' && pat[z - 1] == ']' && (negative ==> pat[a + 1] == '-')
    requires forall k | d <= k < z - 1 :: IsDigit(pat[k] as int)
    requires z == |pat| || !IndexChar(pat[z])
    ensures ReadSegment(pat, 0, Empty, NoTarget, "", e)
      == SegmentEnd(Some(IndexedSelect(pat[..a], IndexValue(negative, pat[d..z - 1]), e)), z)
  {
    NameWord(pat, 0, a, e);
    assert pat[0..a] == pat[..a];
    var name := NameOf(pat[..a], e);
    ScanIndexAt(pat, a + 1, negative, z - 1);
    IndexSkipped(pat, a, negative, d, z);
    BracketEnds(pat, a, Empty, NameField, name, e);
  }

  /** The index loop steps over the minus, the digits and the `]`. */
  lemma IndexSkipped(pat: string, a: nat, negative: bool, d: nat, z: nat)
    requires d == a + 1 + (if negative then 1 else 0)
    requires d < z - 1 && z <= |pat|
    requires pat[z - 1] == ']' && (negative ==> pat[a + 1] == '-')
    requires forall k | d <= k < z - 1 :: IsDigit(pat[k] as int)
    requires z == |pat| || !IndexChar(pat[z])
    ensures SkipIndex(pat, a + 1) == z
  {
    forall k | a + 1 <= k < z
      ensures IndexChar(pat[k])
    {
      if k < d {
        assert k == a + 1;
      } else if k < z - 1 {
        assert IsDigit(pat[k] as int);
      }
    }
    SkipIndexAt(pat, a + 1, z);
  }

  /** A `[` ends the segment: the index is stored when sscanf reads one, and reading resumes where the index loop stops. */
  lemma BracketEnds(pat: string, a: nat, sel: Select, w: Target, buf: string, e: Edition)
    requires a < |pat| && pat[a] == '['
    ensures ReadSegment(pat, a, sel, w, buf, e)
      == Finish(if ScanInt(pat, a + 1).Some? then sel.(targetIndex := ScanInt(pat, a + 1).value) else sel, w, buf, SkipIndex(pat, a + 1))
  {
  }

  /** Where the pieces of `w[n]` followed by tail lie in the pattern. */
  lemma IndexPieces(w: string, negative: bool, ds: string, tail: string, pat: string, d: nat, z: nat)
    requires PlainWord(w)
    requires ds != [] && forall k | 0 <= k < |ds| :: IsDigit(ds[k] as int)
    requires tail == [] || !IndexChar(tail[0])
    requires pat == w + "[" + IndexLiteral(negative, ds) + "]" + tail
    requires d == |w| + 1 + (if negative then 1 else 0) && z == d + |ds| + 1
    ensures |pat| == z + |tail| && pat[..|w|] == w && pat[d..z - 1] == ds
    ensures forall k | 0 <= k < |w| :: Plain(pat[k])
    ensures pat[|w|] == '[' && pat[z - 1] == ']' && (negative ==> pat[|w| + 1] == '-')
    ensures forall k | d <= k < z - 1 :: IsDigit(pat[k] as int)
    ensures z == |pat| || !IndexChar(pat[z])
  {
    var a := |w|;
    assert forall k | 0 <= k < a :: pat[k] == w[k];
    assert forall k | d <= k < z - 1 :: pat[k] == ds[k - d];
    assert z < |pat| ==> pat[z] == tail[0];
  }

  /**
   * A segment `w[n]`: `[` reads the signed index and ends the segment; the
   * name is NameOf w.  The segment ends where the index loop stops, after
   * the `]`.
   */
  lemma IndexSegment(w: string, negative: bool, ds: string, tail: string, e: Edition)
    requires PlainWord(w)
    requires ds != [] && forall k | 0 <= k < |ds| :: IsDigit(ds[k] as int)
    requires tail == [] || !IndexChar(tail[0])
    ensures ReadSegment(w + "[" + IndexLiteral(negative, ds) + "]" + tail, 0, Empty, NoTarget, "", e)
      == SegmentEnd(Some(IndexedSelect(w, IndexValue(negative, ds), e)), |w| + |IndexLiteral(negative, ds)| + 2)
    ensures tail == [] ==>
      Compile(w + "[" + IndexLiteral(negative, ds) + "]", e) == Compiled([IndexedSelect(w, IndexValue(negative, ds), e)])
  {
    var pat := w + "[" + IndexLiteral(negative, ds) + "]" + tail;
    var d := |w| + 1 + (if negative then 1 else 0);
    var z := d + |ds| + 1;
    IndexPieces(w, negative, ds, tail, pat, d, z);
    IndexedAt(pat, |w|, negative, d, z, e);
    if tail == [] {
      assert pat == w + "[" + IndexLiteral(negative, ds) + "]";
      OneSegmentCompiles(pat, IndexedSelect(w, IndexValue(negative, ds), e), e);
    }
  }

  /** Texts the compiler stores: plain characters, none of them upper case. */
  predicate Stored(x: string)
  {
    forall i | 0 <= i < |x| :: Plain(x[i]) && !IsUpper(x[i] as int)
  }

  predicate SelectStored(s: Select)
  {
    (s.name.Some? ==> Stored(s.name.value))
    && (s.className.Some? ==> Stored(s.className.value))
    && (s.id.Some? ==> Stored(s.id.value))
  }

  lemma CommitStored(sel: Select, w: Target, buf: string)
    requires SelectStored(sel) && Stored(buf)
    ensures SelectStored(Commit(sel, w, buf))
  {
  }

  lemma StoredAppend(buf: string, c: char)
    requires Stored(buf) && Plain(c)
    ensures Stored(buf + [LowerChar(c)])
  {
    var x := buf + [LowerChar(c)];
    forall i | 0 <= i < |x| ensures Plain(x[i]) && !IsUpper(x[i] as int) {
      if i < |buf| {
        assert x[i] == buf[i];
      }
    }
  }

  lemma {:induction false} SegmentStored(pat: string, p: nat, sel: Select, w: Target, buf: string, e: Edition)
    requires p <= |pat| && SelectStored(sel) && Stored(buf)
    ensures var r := ReadSegment(pat, p, sel, w, buf, e); r.sel.Some? ==> SelectStored(r.sel.value)
    decreases |pat| - p
  {
    if p == |pat| || IsSpace(pat[p] as int) {
      CommitStored(sel, w, buf);
    } else {
      var c := pat[p];
      if c == '[' {
        var n := ScanInt(pat, p + 1);
        CommitStored(if n.Some? then sel.(targetIndex := n.value) else sel, w, buf);
      } else if c == '.' {
        CommitStored(sel, w, buf);
        SegmentStored(pat, p + 1, Commit(sel, w, buf), ClassField, "", e);
      } else if c == '#' {
        CommitStored(sel, w, buf);
        SegmentStored(pat, p + 1, Commit(sel, w, buf), IdField, "", e);
      } else {
        StoredAppend(buf, c);
        StoredAppend("", c);
        if w == NoTarget {
          SegmentStored(pat, p + 1, sel, NameField, if e == AsWritten then "" else [LowerChar(c)], e);
        } else {
          SegmentStored(pat, p + 1, sel, w, buf + [LowerChar(c)], e);
        }
      }
    }
  }

  /** Every text a compiled chain holds is lower case and free of separators and of `.`, `#`, `[`. */
  lemma {:induction false} CompileStored(pat: string, p: nat, acc: seq<Select>, e: Edition)
    requires p <= |pat| && forall i | 0 <= i < |acc| :: SelectStored(acc[i])
    ensures var r := CompileFrom(pat, p, acc, e); r.Compiled? ==> forall i | 0 <= i < |r.chain| :: SelectStored(r.chain[i])
    decreases |pat| - p
  {
    var q := SkipSpaces(pat, p);
    if q < |pat| {
      var seg := ReadSegment(pat, q, Empty, NoTarget, "", e);
      SegmentStored(pat, q, Empty, NoTarget, "", e);
      if seg.sel.Some? {
        CompileStored(pat, seg.next, acc + [seg.sel.value], e);
      }
    }
  }

  // ---------------------------------------------------------------------
  // Matching

  /** strcmp(a, b) == 0, with None where b is NULL and strcmp's behaviour is undefined. */
  function SameText(a: string, b: Option<string>): (r: Option<bool>)
    ensures r.None? <==> b.None?
    ensures r == Some(true) <==> b == Some(a)
  {
    if b.None? then None else Some(a == b.value)
  }

  /** The text HtmlIsObjectPatterns compares with the id attribute: the class as written, the id once corrected. */
  function IdTest(s: Select, e: Edition): Option<string>
  {
    if e == AsWritten then s.className else s.id
  }

  /** The object fits the select: each text the test consults equals the object's. */
  predicate Fits(o: Tree, s: Select, e: Edition)
  {
    (s.name.None? || o.name == s.name)
    && (s.className.None? || GetValueOrEmpty(o.attrs, "class") == s.className)
    && (IdTest(s, e).None? || GetValueOrEmpty(o.attrs, "id") == IdTest(s, e))
  }

  /**
   * HtmlIsObjectPatterns: reject on a set name that differs from the
   * object's, then on a set class that differs from the class attribute's
   * value, then on the id test.  An absent attribute reads as "".  None
   * where strcmp is handed NULL: a nameless object, or a valueless
   * attribute.
   */
  function Matches(o: Tree, s: Select, e: Edition): (r: Option<bool>)
    ensures r == Some(true) <==> Fits(o, s, e)
    ensures r.None? ==> o.name.None? || GetValueOrEmpty(o.attrs, "class").None? || GetValueOrEmpty(o.attrs, "id").None?
  {
    var nameTest := if s.name.Some? then SameText(s.name.value, o.name) else Some(true);
    if nameTest != Some(true) then nameTest
    else
      var classTest := if s.className.Some? then SameText(s.className.value, GetValueOrEmpty(o.attrs, "class")) else Some(true);
      if classTest != Some(true) then classTest
      else
        var idTest := IdTest(s, e);
        if idTest.Some? then SameText(idTest.value, GetValueOrEmpty(o.attrs, "id")) else Some(true)
  }

  /** As written the id of a select is never consulted. */
  lemma IdNeverConsulted(o: Tree, s: Select, id: Option<string>)
    ensures Matches(o, s.(id := id), AsWritten) == Matches(o, s, AsWritten)
  {
  }

  /** An object with class "a" and id "z": as written ".a" rejects it and "#b" accepts it; corrected, the reverse. */
  lemma ClassTestedAgainstId(o: Tree)
    requires o.attrs == [Attr("class", Some("a")), Attr("id", Some("z"))]
    ensures Matches(o, Empty.(className := Some("a")), AsWritten) == Some(false)
    ensures Matches(o, Empty.(className := Some("a")), Intended) == Some(true)
    ensures Matches(o, Empty.(id := Some("b")), AsWritten) == Some(true)
    ensures Matches(o, Empty.(id := Some("b")), Intended) == Some(false)
  {
    assert Find(o.attrs, "class") == Some(0);
    assert Find(o.attrs, "id") == Some(1);
  }

  // ---------------------------------------------------------------------
  // The search

  /** What a search answers: nothing, the path of child positions to the object found, or undefined behaviour. */
  datatype Found = NotFound | FoundAt(path: seq<nat>) | Crash

  /** A result found below child ci, seen from its parent. */
  function Within(ci: nat, r: Found): (q: Found)
    ensures q.NotFound? <==> r.NotFound?
    ensures q.Crash? <==> r.Crash?
    ensures r.FoundAt? ==> q == FoundAt([ci] + r.path)
  {
    if r.FoundAt? then FoundAt([ci] + r.path) else r
  }

  /** The j-th child the loop visits: first to last for a non-negative index, last to first otherwise. */
  function Position(t: Tree, s: Select, j: nat): (ci: nat)
    requires j < |t.children|
    ensures ci < |t.children|
  {
    if s.targetIndex >= 0 then j else |t.children| - 1 - j
  }

  /** The counter's first value and its step. */
  function StartIndex(s: Select): int
  {
    if s.targetIndex >= 0 then 0 else -1
  }

  function Step(s: Select): int
  {
    if s.targetIndex >= 0 then 1 else -1
  }

  /** HtmlLibFindObject: search the children of t for segment k of the chain. */
  function Search(t: Tree, chain: seq<Select>, k: nat, e: Edition): (r: Found)
    requires k < |chain|
    decreases t, 1, 0
  {
    ScanChildren(t, chain, k, e, 0, StartIndex(chain[k]))
  }

  /**
   * The loop of HtmlLibFindObject from its j-th child with the counter at
   * index.  A match that is not the index-th steps the counter and is not
   * searched inside.  With segments left, only a TAG can match, and a match
   * at the index is searched for the rest of the chain before the same
   * segment is searched deeper; a DOCUMENT is searched through.  On the last
   * segment a TAG, SINGLE or SCRIPT can match, and a TAG or DOCUMENT that
   * gives no match is searched deeper.
   */
  function ScanChildren(t: Tree, chain: seq<Select>, k: nat, e: Edition, j: nat, index: int): (r: Found)
    requires k < |chain| && j <= |t.children|
    decreases t, 0, |t.children| - j
  {
    if j == |t.children| then NotFound
    else
      var sel := chain[k];
      var ci := Position(t, sel, j);
      var c := t.children[ci];
      if k + 1 < |chain| then
        if c.kind == Tag then
          var m := Matches(c, sel, e);
          if m.None? then Crash
          else if m == Some(true) && index != sel.targetIndex then ScanChildren(t, chain, k, e, j + 1, index + Step(sel))
          else
            var deeper := if m == Some(true) then Search(c, chain, k + 1, e) else NotFound;
            if !deeper.NotFound? then Within(ci, deeper)
            else
              var same := Search(c, chain, k, e);
              if !same.NotFound? then Within(ci, same) else ScanChildren(t, chain, k, e, j + 1, index)
        else if c.kind == Document then
          var same := Search(c, chain, k, e);
          if !same.NotFound? then Within(ci, same) else ScanChildren(t, chain, k, e, j + 1, index)
        else ScanChildren(t, chain, k, e, j + 1, index)
      else
        var m := if c.kind == Tag || c.kind == Single || c.kind == Script then Matches(c, sel, e) else Some(false);
        if m.None? then Crash
        else if m == Some(true) && index != sel.targetIndex then ScanChildren(t, chain, k, e, j + 1, index + Step(sel))
        else if m == Some(true) then FoundAt([ci])
        else if c.kind == Tag || c.kind == Document then
          var same := Search(c, chain, k, e);
          if !same.NotFound? then Within(ci, same) else ScanChildren(t, chain, k, e, j + 1, index)
        else ScanChildren(t, chain, k, e, j + 1, index)
  }

  /**
   * HtmlLibFindObject: the loop over the children in the select's order,
   * with the index counter, recursing into a child for the next select or
   * for the same one.
   */
  method LibFindObject(t: Tree, chain: seq<Select>, k: nat) returns (r: Found)
    requires k < |chain|
    ensures r == Search(t, chain, k, AsWritten)
    decreases t, 1
  {
    var sel := chain[k];
    var index, step;
    if sel.targetIndex >= 0 {
      index, step := 0, 1;
    } else {
      index, step := -1, -1;
    }
    var j := 0;
    while j < |t.children|
      invariant 0 <= j <= |t.children|
      invariant step == Step(sel)
      invariant ScanChildren(t, chain, k, AsWritten, j, index) == Search(t, chain, k, AsWritten)
      decreases |t.children| - j
    {
      var ci := if sel.targetIndex >= 0 then j else |t.children| - 1 - j;
      var child := t.children[ci];
      if k + 1 < |chain| {
        // with a next select: only a TAG can match, a DOCUMENT is searched through
        if child.kind == Tag {
          var m := Matches(child, sel, AsWritten);
          if m.None? {
            return Crash;
          }
          if m == Some(true) {
            if index != sel.targetIndex {
              index := index + step;
              j := j + 1;
              continue;
            }
            r := LibFindObject(child, chain, k + 1);
            if !r.NotFound? {
              return Within(ci, r);
            }
          }
          r := LibFindObject(child, chain, k);
          if !r.NotFound? {
            return Within(ci, r);
          }
        } else if child.kind == Document {
          r := LibFindObject(child, chain, k);
          if !r.NotFound? {
            return Within(ci, r);
          }
        }
        j := j + 1;
        continue;
      }
      // the last select: a TAG, SINGLE or SCRIPT can match
      if child.kind == Tag || child.kind == Single || child.kind == Script {
        var m := Matches(child, sel, AsWritten);
        if m.None? {
          return Crash;
        }
        if m == Some(true) {
          if index != sel.targetIndex {
            index := index + step;
            j := j + 1;
            continue;
          }
          return FoundAt([ci]);
        }
      }
      if child.kind == Tag || child.kind == Document {
        r := LibFindObject(child, chain, k);
        if !r.NotFound? {
          return Within(ci, r);
        }
      }
      j := j + 1;
    }
    return NotFound;
  }

  /** HtmlFindObject as a value: NULL arguments find nothing, then compile and search. */
  function Locate(t: Option<Tree>, pattern: Option<string>, e: Edition): Found
  {
    if t.None? || pattern.None? then NotFound
    else match Compile(pattern.value, e)
      case Undefined => Crash
      // an empty or blank pattern compiles to NULL, which the search dereferences
      case Compiled(chain) => if chain == [] then (if e == AsWritten then Crash else NotFound) else Search(t.value, chain, 0, e)
  }

  /** HtmlFindObject: compile the pattern, search with it, and free it. */
  method FindObject(t: Option<Tree>, pattern: Option<string>) returns (r: Found)
    requires pattern.Some? ==> CString(pattern.value)
    ensures r == Locate(t, pattern, AsWritten)
  {
    if t.None? || pattern.None? {
      return NotFound;
    }
    var compiled := CreateSelect(pattern.value);
    if compiled.Undefined? {
      return Crash;
    }
    if compiled.chain == [] {
      return Crash;
    }
    r := LibFindObject(t.value, compiled.chain, 0);
  }

  // ---------------------------------------------------------------------
  // Properties of the search

  /** A path of child positions that exists in t. */
  predicate IsPath(t: Tree, path: seq<nat>)
    decreases path
  {
    path == [] || (path[0] < |t.children| && IsPath(t.children[path[0]], path[1..]))
  }

  /** The object a path leads to. */
  function ObjectAt(t: Tree, path: seq<nat>): Tree
    requires IsPath(t, path)
    decreases path
  {
    if path == [] then t else ObjectAt(t.children[path[0]], path[1..])
  }

  /** What a search promises of an object it returns. */
  predicate Answers(t: Tree, path: seq<nat>, last: Select, e: Edition)
  {
    path != [] && IsPath(t, path)
    && var o := ObjectAt(t, path);
    (o.kind == Tag || o.kind == Single || o.kind == Script) && Fits(o, last, e)
  }

  lemma AnswersWithin(t: Tree, ci: nat, r: Found, last: Select, e: Edition)
    requires ci < |t.children| && r.FoundAt? && Answers(t.children[ci], r.path, last, e)
    ensures Answers(t, Within(ci, r).path, last, e)
  {
    var p := [ci] + r.path;
    assert p[0] == ci && p[1..] == r.path;
  }

  /** Soundness: an object the search returns is a TAG, SINGLE or SCRIPT below t that fits the last select. */
  lemma {:induction false} SearchSound(t: Tree, chain: seq<Select>, k: nat, e: Edition)
    requires k < |chain|
    ensures var r := Search(t, chain, k, e); r.FoundAt? ==> Answers(t, r.path, chain[|chain| - 1], e)
    decreases t, 1, 0
  {
    ScanSound(t, chain, k, e, 0, StartIndex(chain[k]));
  }

  lemma {:induction false} ScanSound(t: Tree, chain: seq<Select>, k: nat, e: Edition, j: nat, index: int)
    requires k < |chain| && j <= |t.children|
    ensures var r := ScanChildren(t, chain, k, e, j, index); r.FoundAt? ==> Answers(t, r.path, chain[|chain| - 1], e)
    decreases t, 0, |t.children| - j
  {
    if j < |t.children| {
      var sel := chain[k];
      var ci := Position(t, sel, j);
      var c := t.children[ci];
      if k + 1 < |chain| {
        if c.kind == Tag {
          var m := Matches(c, sel, e);
          if m.None? {
          } else if m == Some(true) && index != sel.targetIndex {
            ScanSound(t, chain, k, e, j + 1, index + Step(sel));
          } else if m == Some(true) && !Search(c, chain, k + 1, e).NotFound? {
            FoundWithin(t, ci, chain, k + 1, e);
          } else if !Search(c, chain, k, e).NotFound? {
            FoundWithin(t, ci, chain, k, e);
          } else {
            ScanSound(t, chain, k, e, j + 1, index);
          }
        } else if c.kind == Document && !Search(c, chain, k, e).NotFound? {
          FoundWithin(t, ci, chain, k, e);
        } else {
          ScanSound(t, chain, k, e, j + 1, index);
        }
      } else {
        var m := if c.kind == Tag || c.kind == Single || c.kind == Script then Matches(c, sel, e) else Some(false);
        if m.None? {
        } else if m == Some(true) && index != sel.targetIndex {
          ScanSound(t, chain, k, e, j + 1, index + Step(sel));
        } else if m == Some(true) {
          assert [ci][0] == ci && [ci][1..] == [];
        } else if (c.kind == Tag || c.kind == Document) && !Search(c, chain, k, e).NotFound? {
          FoundWithin(t, ci, chain, k, e);
        } else {
          ScanSound(t, chain, k, e, j + 1, index);
        }
      }
    }
  }

  /** What a search below child ci finds answers the chain from t as well. */
  lemma {:induction false} FoundWithin(t: Tree, ci: nat, chain: seq<Select>, k: nat, e: Edition)
    requires ci < |t.children| && k < |chain|
    ensures var r := Within(ci, Search(t.children[ci], chain, k, e)); r.FoundAt? ==> Answers(t, r.path, chain[|chain| - 1], e)
    decreases t, 0, 0
  {
    var r := Search(t.children[ci], chain, k, e);
    SearchSound(t.children[ci], chain, k, e);
    if r.FoundAt? {
      AnswersWithin(t, ci, r, chain[|chain| - 1], e);
    }
  }

  /** Children that are all SINGLE objects with the same name. */
  predicate Flat(t: Tree, name: string)
  {
    forall i | 0 <= i < |t.children| :: t.children[i].kind == Single && t.children[i].name == Some(name)
  }

  /** The counter as the loop holds it before its j-th child, when every child matches. */
  function CounterAt(s: Select, j: nat): int
  {
    if s.targetIndex >= 0 then j else -1 - j
  }

  lemma {:induction false} FlatScan(t: Tree, name: string, x: int, j: nat, e: Edition)
    requires Flat(t, name) && j <= |t.children|
    ensures var sel := Empty.(name := Some(name), targetIndex := x);
      var n := |t.children|;
      ScanChildren(t, [sel], 0, e, j, CounterAt(sel, j))
      == if x >= 0 then (if j <= x < n then FoundAt([x]) else NotFound)
         else (if -n <= x <= -1 - j then FoundAt([n + x]) else NotFound)
    decreases |t.children| - j
  {
    var sel := Empty.(name := Some(name), targetIndex := x);
    if j < |t.children| {
      var ci := Position(t, sel, j);
      assert Matches(t.children[ci], sel, e) == Some(true);
      FlatScan(t, name, x, j + 1, e);
    }
  }

  /**
   * The index of a segment counts the matching children in order: n >= 0
   * finds the n-th from the first, -m the m-th from the last.
   */
  lemma FlatIndex(t: Tree, name: string, x: int, e: Edition)
    requires Flat(t, name)
    ensures var n := |t.children|;
      Search(t, [Empty.(name := Some(name), targetIndex := x)], 0, e)
      == if 0 <= x < n then FoundAt([x]) else if -n <= x < 0 then FoundAt([n + x]) else NotFound
  {
    FlatScan(t, name, x, 0, e);
  }

  /** A child a last segment can answer with. */
  predicate Hit(c: Tree, s: Select, e: Edition)
  {
    (c.kind == Tag || c.kind == Single || c.kind == Script) && Fits(c, s, e)
  }

  /** The positions in [lo, hi) of the children that answer s, in order. */
  function HitsIn(t: Tree, s: Select, e: Edition, lo: nat, hi: nat): (h: seq<nat>)
    requires lo <= hi <= |t.children|
    decreases hi - lo
  {
    if lo == hi then []
    else (if Hit(t.children[lo], s, e) then [lo] else []) + HitsIn(t, s, e, lo + 1, hi)
  }

  /** Every position HitsIn lists lies in [lo, hi) and holds a child a last segment answers with. */
  lemma {:induction false} HitsInSound(t: Tree, s: Select, e: Edition, lo: nat, hi: nat)
    requires lo <= hi <= |t.children|
    ensures forall p | p in HitsIn(t, s, e, lo, hi) :: lo <= p < hi && Hit(t.children[p], s, e)
    decreases hi - lo
  {
    if lo < hi {
      HitsInSound(t, s, e, lo + 1, hi);
    }
  }

  /** Every such position in [lo, hi) is listed. */
  lemma {:induction false} HitsInComplete(t: Tree, s: Select, e: Edition, lo: nat, hi: nat)
    requires lo <= hi <= |t.children|
    ensures forall p | lo <= p < hi && Hit(t.children[p], s, e) :: p in HitsIn(t, s, e, lo, hi)
    decreases hi - lo
  {
    if lo < hi {
      HitsInComplete(t, s, e, lo + 1, hi);
    }
  }

  /** The positions are listed in increasing order, so h[x] is the x-th such child from the first. */
  lemma {:induction false} HitsInIncreasing(t: Tree, s: Select, e: Edition, lo: nat, hi: nat)
    requires lo <= hi <= |t.children|
    ensures forall i, k | 0 <= i < k < |HitsIn(t, s, e, lo, hi)| :: HitsIn(t, s, e, lo, hi)[i] < HitsIn(t, s, e, lo, hi)[k]
    decreases hi - lo
  {
    if lo < hi {
      var h := HitsIn(t, s, e, lo, hi);
      var rest := HitsIn(t, s, e, lo + 1, hi);
      HitsInIncreasing(t, s, e, lo + 1, hi);
      HitsInSound(t, s, e, lo + 1, hi);
      forall i, k | 0 <= i < k < |h|
        ensures h[i] < h[k]
      {
        if !Hit(t.children[lo], s, e) {
          assert h[i] == rest[i] && h[k] == rest[k];
        } else if i == 0 {
          assert h[i] == lo && h[k] == rest[k - 1] && rest[k - 1] in rest;
        } else {
          assert h[i] == rest[i - 1] && h[k] == rest[k - 1];
        }
      }
    }
  }

  lemma {:induction false} HitsInSnoc(t: Tree, s: Select, e: Edition, lo: nat, hi: nat)
    requires lo <= hi < |t.children|
    ensures HitsIn(t, s, e, lo, hi + 1) == HitsIn(t, s, e, lo, hi) + (if Hit(t.children[hi], s, e) then [hi] else [])
    decreases hi - lo
  {
    if lo < hi {
      HitsInSnoc(t, s, e, lo + 1, hi);
    }
  }

  /**
   * Children the loop answers from directly: testing a TAG, SINGLE or
   * SCRIPT child hands strcmp no NULL, and a TAG or DOCUMENT child, which
   * the loop would search inside, has no children.
   */
  predicate Shallow(t: Tree, s: Select, e: Edition)
  {
    forall i | 0 <= i < |t.children| :: Direct(t.children[i], s, e)
  }

  predicate Direct(c: Tree, s: Select, e: Edition)
  {
    ((c.kind == Tag || c.kind == Single || c.kind == Script) ==> Matches(c, s, e).Some?)
    && ((c.kind == Tag || c.kind == Document) ==> c.children == [])
  }

  /** One child of a shallow list: a hit is a match, and any other child leaves the counter and goes on to the next. */
  lemma ChildStepsScan(t: Tree, s: Select, e: Edition, j: nat, ci: nat, index: int)
    requires Shallow(t, s, e) && j < |t.children| && ci == Position(t, s, j)
    ensures ScanChildren(t, [s], 0, e, j, index)
      == if Hit(t.children[ci], s, e) then
           (if index != s.targetIndex then ScanChildren(t, [s], 0, e, j + 1, index + Step(s)) else FoundAt([ci]))
         else ScanChildren(t, [s], 0, e, j + 1, index)
  {
    var c := t.children[ci];
    if c.kind == Tag || c.kind == Document {
      assert c.children == [];
      assert Search(c, [s], 0, e) == NotFound;
    }
  }

  lemma {:induction false} ScanForward(t: Tree, s: Select, e: Edition, j: nat, index: int)
    requires Shallow(t, s, e) && j <= |t.children| && 0 <= index <= s.targetIndex
    ensures var h := HitsIn(t, s, e, j, |t.children|);
      var d := s.targetIndex - index;
      ScanChildren(t, [s], 0, e, j, index) == if d < |h| then FoundAt([h[d]]) else NotFound
    decreases |t.children| - j
  {
    if j < |t.children| {
      var c := t.children[j];
      var rest := HitsIn(t, s, e, j + 1, |t.children|);
      ChildStepsScan(t, s, e, j, j, index);
      if Hit(c, s, e) {
        assert HitsIn(t, s, e, j, |t.children|) == [j] + rest;
        if index != s.targetIndex {
          ScanForward(t, s, e, j + 1, index + 1);
        }
      } else {
        ScanForward(t, s, e, j + 1, index);
      }
    }
  }

  /** The d-th of the positions h counted from the last, as a find. */
  function FromLast(h: seq<nat>, d: nat): (r: Found)
    ensures r.FoundAt? <==> d < |h|
  {
    if d < |h| then FoundAt([h[|h| - 1 - d]]) else NotFound
  }

  lemma FromLastSnoc(h: seq<nat>, ci: nat, d: nat)
    ensures FromLast(h + [ci], d) == if d == 0 then FoundAt([ci]) else FromLast(h, d - 1)
  {
    if 0 < d <= |h| {
      assert (h + [ci])[|h| - d] == h[|h| - 1 - (d - 1)];
    }
  }

  lemma {:induction false} ScanBackward(t: Tree, s: Select, e: Edition, j: nat, index: int)
    requires Shallow(t, s, e) && j <= |t.children| && s.targetIndex <= index <= -1
    ensures ScanChildren(t, [s], 0, e, j, index) == FromLast(HitsIn(t, s, e, 0, |t.children| - j), index - s.targetIndex)
    decreases |t.children| - j
  {
    if j < |t.children| {
      var ci := |t.children| - 1 - j;
      if !Hit(t.children[ci], s, e) {
        ScanBackward(t, s, e, j + 1, index);
      } else if index != s.targetIndex {
        ScanBackward(t, s, e, j + 1, index - 1);
      }
      BackStep(t, s, e, j, index);
    }
  }

  /** One turn of the backward loop, given what the rest of the loop finds. */
  lemma BackStep(t: Tree, s: Select, e: Edition, j: nat, index: int)
    requires Shallow(t, s, e) && j < |t.children| && s.targetIndex <= index <= -1
    requires var ci := |t.children| - 1 - j;
      var before := HitsIn(t, s, e, 0, ci);
      var d := index - s.targetIndex;
      (!Hit(t.children[ci], s, e) ==> ScanChildren(t, [s], 0, e, j + 1, index) == FromLast(before, d))
      && (Hit(t.children[ci], s, e) && d > 0 ==> ScanChildren(t, [s], 0, e, j + 1, index - 1) == FromLast(before, d - 1))
    ensures ScanChildren(t, [s], 0, e, j, index) == FromLast(HitsIn(t, s, e, 0, |t.children| - j), index - s.targetIndex)
  {
    var ci := |t.children| - 1 - j;
    HitsInSnoc(t, s, e, 0, ci);
    ChildStepsScan(t, s, e, j, ci, index);
    if Hit(t.children[ci], s, e) {
      FromLastSnoc(HitsIn(t, s, e, 0, ci), ci, index - s.targetIndex);
    }
  }

  /**
   * The index of a last segment counts, among one parent's children, only
   * those it can answer with: x >= 0 finds the x-th of them from the first,
   * x < 0 the -x-th from the last, and an index past either end finds
   * nothing.
   */
  lemma IndexCounts(t: Tree, s: Select, e: Edition)
    requires Shallow(t, s, e)
    ensures var h := HitsIn(t, s, e, 0, |t.children|);
      var x := s.targetIndex;
      Search(t, [s], 0, e)
      == if 0 <= x < |h| then FoundAt([h[x]]) else if -|h| <= x < 0 then FoundAt([h[|h| + x]]) else NotFound
  {
    if s.targetIndex >= 0 {
      ScanForward(t, s, e, 0, 0);
    } else {
      ScanBackward(t, s, e, 0, -1);
      var h := HitsIn(t, s, e, 0, |t.children|);
      assert FromLast(h, -1 - s.targetIndex) == if -|h| <= s.targetIndex then FoundAt([h[|h| + s.targetIndex]]) else NotFound;
    }
  }

  /** A path on which every object before the last is a TAG or a DOCUMENT, the kinds a last segment's search looks inside. */
  predicate Reachable(t: Tree, path: seq<nat>)
    decreases path
  {
    |path| > 0 && path[0] < |t.children|
    && (|path| == 1
        || ((t.children[path[0]].kind == Tag || t.children[path[0]].kind == Document)
            && Reachable(t.children[path[0]], path[1..])))
  }

  /** How many children the loop visits before child ci. */
  function VisitedBefore(t: Tree, s: Select, ci: nat): nat
    requires ci < |t.children|
  {
    if s.targetIndex >= 0 then ci else |t.children| - 1 - ci
  }

  /**
   * Completeness of a one-segment search for the first or last match: when
   * an answer lies below t along TAG and DOCUMENT objects, the search does
   * not come back empty; it finds an object (an answer, by SearchSound), or
   * meets a NULL name or value on the way.
   */
  lemma {:induction false} SearchComplete(t: Tree, s: Select, path: seq<nat>, e: Edition)
    requires s.targetIndex == 0 || s.targetIndex == -1
    requires Reachable(t, path) && Answers(t, path, s, e)
    ensures Search(t, [s], 0, e) != NotFound
    decreases t, 1
  {
    ScanComplete(t, s, path, e, 0);
  }

  lemma {:induction false} ScanComplete(t: Tree, s: Select, path: seq<nat>, e: Edition, j: nat)
    requires s.targetIndex == 0 || s.targetIndex == -1
    requires Reachable(t, path) && Answers(t, path, s, e)
    requires j <= VisitedBefore(t, s, path[0])
    ensures ScanChildren(t, [s], 0, e, j, s.targetIndex) != NotFound
    decreases t, 0, |t.children| - j
  {
    if j < VisitedBefore(t, s, path[0]) {
      ScanComplete(t, s, path, e, j + 1);
    } else {
      var c := t.children[path[0]];
      assert Position(t, s, j) == path[0];
      if |path| == 1 {
        assert ObjectAt(t, path) == ObjectAt(c, path[1..]) == c;
      } else {
        var rest := path[1..];
        assert ObjectAt(t, path) == ObjectAt(c, rest);
        SearchComplete(c, s, rest, e);
      }
    }
  }

  /** HtmlFindObject with a one-segment pattern for the first or last match finds every answer that lies along TAG and DOCUMENT objects. */
  lemma LocateComplete(t: Tree, pattern: string, s: Select, path: seq<nat>, e: Edition)
    requires Compile(pattern, e) == Compiled([s])
    requires s.targetIndex == 0 || s.targetIndex == -1
    requires Reachable(t, path) && Answers(t, path, s, e)
    ensures Locate(Some(t), Some(pattern), e) != NotFound
  {
    SearchComplete(t, s, path, e);
  }

  /** Everything HtmlFindObject returns is an answer to the last segment of its compiled pattern. */
  lemma LocateSound(t: Tree, pattern: string, e: Edition)
    ensures var r := Locate(Some(t), Some(pattern), e);
      r.FoundAt? ==>
        (Compile(pattern, e).Compiled? && |Compile(pattern, e).chain| > 0
         && Answers(t, r.path, Compile(pattern, e).chain[|Compile(pattern, e).chain| - 1], e))
  {
    var c := Compile(pattern, e);
    if c.Compiled? && c.chain != [] {
      SearchSound(t, c.chain, 0, e);
    }
  }

  /** A pattern of blanks only. */
  predicate BlankPattern(pattern: string)
  {
    forall i | 0 <= i < |pattern| :: IsSpace(pattern[i] as int)
  }

  lemma {:induction false} BlankSkipped(pattern: string, p: nat)
    requires BlankPattern(pattern) && p <= |pattern|
    ensures SkipSpaces(pattern, p) == |pattern|
    decreases |pattern| - p
  {
    if p < |pattern| {
      BlankSkipped(pattern, p + 1);
    }
  }

  /** As written a blank pattern compiles to no select at all, which the search then dereferences. */
  lemma BlankPatternCrashes(t: Tree, pattern: string)
    requires BlankPattern(pattern)
    ensures Locate(Some(t), Some(pattern), AsWritten) == Crash
  {
    BlankSkipped(pattern, 0);
  }

  /** Corrected, a blank pattern finds nothing. */
  lemma BlankPatternFindsNothing(t: Tree, pattern: string)
    requires BlankPattern(pattern)
    ensures Locate(Some(t), Some(pattern), Intended) == NotFound
  {
    BlankSkipped(pattern, 0);
  }

  /**
   * The index counts within one parent only: in a document of two DIVs
   * holding one P each, "p[1]" finds nothing, although the document holds
   * two P objects.
   */
  lemma IndexIsPerParent(e: Edition)
    ensures var p := Tree(Single, Some("p"), None, None, [], []);
      var div := Tree(Tag, Some("div"), None, None, [], [p]);
      var doc := Tree(Document, None, None, None, [], [div, div]);
      Search(doc, [Empty.(name := Some("p"), targetIndex := 1)], 0, e) == NotFound
  {
    var p := Tree(Single, Some("p"), None, None, [], []);
    var div := Tree(Tag, Some("div"), None, None, [], [p]);
    var doc := Tree(Document, None, None, None, [], [div, div]);
    var sel := Empty.(name := Some("p"), targetIndex := 1);
    assert Flat(div, "p");
    FlatIndex(div, "p", 1, e);
    assert Matches(div, sel, e) == Some(false);
    assert ScanChildren(doc, [sel], 0, e, 2, 0) == NotFound;
    assert ScanChildren(doc, [sel], 0, e, 1, 0) == NotFound;
  }
}

/**
 * The v1 string reader (HTML_StrReader, MyHtml/MyHtml_parser.h): a C string
 * read through a cursor `now` that stops at `limit`, the string's length.
 * HTML_ParseString hands one to the v1 parser as its stream.  The cursor is
 * a size_t: a seek stores `where` modulo 2^64.
 */
module StrReader {
  import opened Wrappers
  import opened Chars
  import opened Defines
  import Stream
  import Document
  import Reader

  /** Where HTML_SeekStrReader leaves the cursor: `where` as a size_t, whatever the seek mode. */
  function SeekedTo(where: int): (r: nat)
    requires Stream.LONG_MIN <= where <= Stream.LONG_MAX
    ensures r < Stream.SIZE_T
    ensures 0 <= where ==> r == where
    ensures where < 0 ==> r == Stream.SIZE_T + where && r > Stream.LONG_MAX
  {
    where % Stream.SIZE_T
  }

  /**
   * The seeks the parser makes (SEEK_SET, back to a position inside the
   * string) land where the growable string stream's seek lands.
   */
  lemma SeekAgreesOnSet(position: nat, length: nat, where: int)
    requires position <= length <= Stream.LONG_MAX && 0 <= where <= length
    ensures SeekedTo(where) == Stream.SeekTarget(position, length, where, Stream.SEEK_SET)
  {
  }

  /** A relative seek is taken as absolute: from a cursor away from 0, SEEK_CUR lands elsewhere than the stream's. */
  lemma SeekIgnoresMode(position: nat, length: nat, move: int)
    requires 0 < position <= length <= Stream.LONG_MAX && 0 <= move && position + move <= length
    ensures SeekedTo(move) != Stream.SeekTarget(position, length, move, Stream.SEEK_CUR)
  {
  }

  /** A negative seek leaves the cursor past any string, so the next get reads EOF. */
  lemma NegativeSeekIsPastEnd(where: int, limit: nat)
    requires Stream.LONG_MIN <= where < 0 && limit <= Stream.LONG_MAX
    ensures SeekedTo(where) >= limit
  {
  }

  class StrReader {
    const buffer: string
    const limit: nat
    var now: nat

    ghost predicate Valid()
      reads this
    {
      limit == |buffer| <= Stream.LONG_MAX && now < Stream.SIZE_T
    }

    /** The reader HTML_ParseString sets up: the whole string, limit its strlen, cursor 0. */
    constructor (text: string)
      requires CString(text) && |text| <= Stream.LONG_MAX
      ensures Valid() && buffer == text && limit == |text| && now == 0
    {
      buffer := text;
      limit := |text|;
      now := 0;
    }

    /** HTML_GetCharFromStrReader: the byte at the cursor as a signed char, advancing; -1 once now reaches limit. */
    method GetChar() returns (c: int)
      requires Valid()
      modifies this
      ensures Valid()
      ensures old(now) < limit ==> c == Stream.SignedByte(buffer[old(now)]) && now == old(now) + 1
      ensures old(now) >= limit ==> c == -1 && now == old(now)
    {
      if now < limit {
        c := Stream.SignedByte(buffer[now]);
        now := now + 1;
        return;
      }
      return -1;
    }

    /**
     * HTML_ReadStrReader: copy min(n, limit - now) bytes into buf and put a
     * NUL after them, advancing the cursor by the count (`size` is not
     * used).  `limit - now` is taken as a signed long: a cursor past the end
     * makes it negative, and then nothing is copied, not even the NUL.
     * `written` is what lands in buf.
     */
    method Read(size: nat, n: nat) returns (written: string, r: nat)
      requires Valid()
      requires now > limit ==> now - limit <= Stream.LONG_MAX + 1
      modifies this
      ensures Valid()
      ensures old(now) > limit ==> r == 0 && written == [] && now == old(now)
      ensures old(now) <= limit ==>
        r == Stream.Min(n, limit - old(now)) && now == old(now) + r && written == buffer[old(now)..now] + ['\0']
    {
      var diff := (limit - now) % Stream.SIZE_T;
      var less := if diff > Stream.LONG_MAX then diff - Stream.SIZE_T else diff;
      if less < 0 {
        return [], 0;
      }
      var count := n;
      if count > less {
        count := less;
      }
      written := buffer[now..now + count] + ['\0'];
      now := now + count;
      r := count;
    }

    /** HTML_SeekStrReader: the cursor becomes `where`; the mode is not looked at. */
    method Seek(where: int, mode: int)
      requires Valid() && Stream.LONG_MIN <= where <= Stream.LONG_MAX
      modifies this
      ensures Valid() && now == SeekedTo(where)
    {
      now := where % Stream.SIZE_T;
    }

    /** HTML_GetStrReaderPosition: the cursor. */
    method Position() returns (p: nat)
      requires Valid()
      ensures p == now
    {
      return now;
    }
  }

  /**
   * HTML_ParseString: NULL gives NULL; any other string is parsed by the v1
   * engine from its start.  The engine is run over the growable string
   * stream: on the calls it makes (getchar, a two- or six-byte read, tell,
   * and a SEEK_SET back into the string, see SeekAgreesOnSet and
   * ReadsAgree) that stream answers as a StrReader over the same string does.
   */
  method ParseString(htmlString: Option<string>) returns (doc: Option<Document.Tree>)
    requires htmlString.Some? ==>
      Ascii(htmlString.value) && |htmlString.value| <= Stream.LONG_MAX && Reader.Parse(htmlString.value, Reader.V1).Parsed?
    ensures doc.None? <==> htmlString.None?
    ensures doc.Some? ==> doc.value == Reader.Parse(htmlString.value, Reader.V1).doc
  {
    if htmlString.None? {
      return None;
    }
    var input := new Stream.StreamString.CreateString(htmlString.value);
    var tree := Reader.LibReadObjectFromStream(input, htmlString.value, Reader.V1);
    return Some(tree);
  }

  /**
   * A read of n bytes from position p copies the same bytes from either
   * stream.  The StrReader also puts a NUL after them: that is the byte the
   * engine's strcmp after a two-byte read (MyHtml/MyHtml_parser.h:231) looks
   * at next, and the engine's model takes the byte after what was read to be
   * NUL, so on this stream the model's comparisons are exactly the code's.
   */
  method ReadsAgree(text: string, p: nat, n: nat) returns (fromStream: string, fromReader: string)
    requires CString(text) && |text| <= Stream.LONG_MAX && p <= |text|
    ensures fromStream == text[p..p + Stream.Min(n, |text| - p)]
    ensures fromReader == fromStream + ['\0']
  {
    var st := new Stream.StreamString.CreateString(text);
    var skipped, k := st.Read(p, 1);
    fromStream, k := st.Read(n, 1);
    var r := new StrReader(text);
    r.Seek(p, Stream.SEEK_SET);
    fromReader, k := r.Read(1, n);
  }
}

/**
 * The v1 growable string (HTML_String) that the v1 parser and writer put
 * their output into.  Allocation is assumed to succeed.
 */
module MyHtmlStream {
  import opened Chars
  import Stream

  /** strcpy's byte loop: src lands in b from index at on; the bytes before at are kept. */
  method CopyAt(b: array<char>, at: nat, src: string)
    requires at + |src| <= b.Length
    modifies b
    ensures b[..at + |src|] == old(b[..at]) + src
    ensures b[at + |src|..] == old(b[at + |src|..])
  {
    ghost var before := b[..at];
    var i := 0;
    while i < |src|
      invariant 0 <= i <= |src|
      invariant b[..at + i] == before + src[..i]
      invariant b[at + |src|..] == old(b[at + |src|..])
    {
      b[at + i] := src[i];
      i := i + 1;
      assert b[..at + i] == b[..at + i - 1] + [src[i - 1]];
      assert src[..i] == src[..i - 1] + [src[i - 1]];
    }
  }

  class HtmlString {
    var buffer: array<char>
    var length: nat
    var memsize: nat

    ghost predicate Valid()
      reads this
    {
      buffer.Length == memsize && 0 < memsize && length <= memsize
    }

    /** The bytes held. */
    ghost function Contents(): string
      reads this, buffer
      requires Valid()
    {
      buffer[..length]
    }

    /** _HTML_CreateString: an empty string of memsize bytes. */
    constructor Create(memsize: nat)
      requires 0 < memsize
      ensures Valid() && fresh(buffer) && Contents() == [] && this.memsize == memsize
    {
      buffer := new char[memsize](_ => '\0');
      length := 0;
      this.memsize := memsize;
    }

    /** HTML_ExpandString: once length + expand reaches memsize, grow to memsize * 2 + expand. */
    method Expand(expand: nat)
      requires Valid()
      modifies this
      ensures Valid() && Contents() == old(Contents())
      ensures old(length) + expand >= old(memsize) ==> memsize == old(memsize) * 2 + expand && fresh(buffer)
      ensures old(length) + expand < old(memsize) ==> memsize == old(memsize) && buffer == old(buffer)
      ensures length + expand < memsize
    {
      if length + expand >= memsize {
        var newSize := memsize * 2 + expand;
        var newBuffer := new char[newSize](_ => '\0');
        var old_ := buffer;
        var i := 0;
        while i < memsize
          invariant 0 <= i <= memsize < newSize
          invariant newBuffer[..i] == old_[..i]
          modifies newBuffer
        {
          newBuffer[i] := old_[i];
          i := i + 1;
        }
        assert newBuffer[..length] == newBuffer[..i][..length];
        buffer := newBuffer;
        memsize := newSize;
      }
    }

    /** HTML_PutCharToString: append `(char)c`; always returns 0. */
    method PutChar(c: int) returns (r: int)
      requires Valid()
      modifies this, buffer
      ensures Valid()
      ensures Contents() == old(Contents()) + [Stream.ByteChar(c)]
      ensures buffer == old(buffer) || fresh(buffer)
      ensures r == 0
    {
      Expand(1);
      buffer[length] := Stream.ByteChar(c);
      length := length + 1;
      r := 0;
    }

    /** HTML_PutCStringToString: append a C string (strcpy also writes a NUL just past the data); returns 0. */
    method PutCString(putstr: string) returns (r: int)
      requires Valid() && CString(putstr)
      modifies this, buffer
      ensures Valid()
      ensures Contents() == old(Contents()) + putstr
      ensures length < memsize && buffer[length] == '\0'
      ensures buffer == old(buffer) || fresh(buffer)
      ensures r == 0
    {
      Expand(|putstr|);
      var b := buffer;
      CopyAt(b, length, putstr);
      b[length + |putstr|] := '\0';
      assert b[..length + |putstr|] == old(Contents()) + putstr;
      length := length + |putstr|;
      r := 0;
    }

    /** HTML_ConvertStringToCString: NUL-terminate the data and hand it out as a C string. */
    method ConvertStringToCString() returns (s: string)
      requires Valid()
      modifies this, buffer
      ensures Valid() && Contents() == old(Contents())
      ensures length < memsize && buffer[length] == '\0'
      ensures buffer == old(buffer) || fresh(buffer)
      ensures s == CPrefix(Contents())
    {
      Expand(1);
      buffer[length] := '\0';
      s := CPrefix(buffer[..length]);
    }
  }
}

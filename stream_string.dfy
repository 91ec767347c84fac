/**
 * The v2 in-memory stream (HtmlStreamString): a growable byte buffer with a
 * read position.  Both v2 headers carry the same code.  Allocation is
 * assumed to succeed.
 */
module Stream {
  import opened Defines
  import opened Chars

  /** 2^64: size_t arithmetic wraps modulo this. */
  const SIZE_T: int := 0x1_0000_0000_0000_0000
  const LONG_MIN: int := -0x8000_0000_0000_0000
  const LONG_MAX: int := 0x7FFF_FFFF_FFFF_FFFF

  const SEEK_SET: int := 0
  const SEEK_CUR: int := 1
  const SEEK_END: int := 2

  /** The int a stored byte reads back as: C `char` is signed. */
  function SignedByte(c: char): (r: int)
    ensures -128 <= r < 128
    ensures (r - c as int) % 256 == 0
    ensures 0 <= c as int < 128 ==> r == c as int
  {
    var b := c as int % 256;
    if b >= 128 then b - 256 else b
  }

  /** The byte `(char)c` stores for an int c. */
  function ByteChar(c: int): (r: char)
    ensures 0 <= r as int < 256
    ensures (r as int - c) % 256 == 0
    ensures 0 <= c < 256 ==> r as int == c
  {
    (c % 256) as char
  }

  /** A byte stored and read back gives the int it was stored from, for -128..127 and EOF aside. */
  lemma SignedByteOfByteChar(c: int)
    requires -128 <= c < 128
    ensures SignedByte(ByteChar(c)) == c
  {
  }

  /**
   * The position HtmlLibSeekStreamString leaves.  SEEK_SET counts from 0;
   * SEEK_CUR and SEEK_END both count from the current position; any other
   * mode keeps it.  The size_t result wraps, so the `< 0` test never fires
   * and every target beyond the data (a negative one included) lands on the
   * end of the data.
   */
  function SeekTarget(position: nat, length: nat, move: int, whence: int): (r: nat)
    requires position <= length <= LONG_MAX
    requires LONG_MIN <= move <= LONG_MAX
    ensures r <= length
    ensures whence == SEEK_SET && 0 <= move <= length ==> r == move
    ensures (whence == SEEK_CUR || whence == SEEK_END) && 0 <= position + move <= length ==> r == position + move
    ensures whence == SEEK_SET && move < 0 ==> r == length
    ensures (whence == SEEK_CUR || whence == SEEK_END) && position + move < 0 ==> r == length
    ensures whence != SEEK_SET && whence != SEEK_CUR && whence != SEEK_END ==> r == position
  {
    var target :=
      if whence == SEEK_SET then move % SIZE_T
      else if whence == SEEK_CUR || whence == SEEK_END then (position + move) % SIZE_T
      else position;
    if target > length then length else target
  }

  /** What the seek was evidently meant to do: SEEK_END counts from the end, and the result is clamped to 0..length. */
  function SeekTargetIntended(position: nat, length: nat, move: int, whence: int): (r: nat)
    ensures r <= length
    ensures whence == SEEK_SET || whence == SEEK_CUR || whence == SEEK_END ==>
      var base := if whence == SEEK_SET then 0 else if whence == SEEK_CUR then position else length;
      (base + move < 0 ==> r == 0) && (0 <= base + move <= length ==> r == base + move) && (base + move > length ==> r == length)
  {
    var base := if whence == SEEK_SET then 0 else if whence == SEEK_CUR then position else length;
    var target := if whence == SEEK_SET || whence == SEEK_CUR || whence == SEEK_END then base + move else position;
    if target < 0 then 0 else if target > length then length else target
  }

  /** Where the two seeks part: a negative target and a SEEK_END. */
  lemma SeekTargetDiffers()
    ensures SeekTarget(3, 10, -1, SEEK_SET) == 10 && SeekTargetIntended(3, 10, -1, SEEK_SET) == 0
    ensures SeekTarget(3, 10, 0, SEEK_END) == 3 && SeekTargetIntended(3, 10, 0, SEEK_END) == 10
  {
  }

  function Min(a: int, b: int): int
  {
    if a < b then a else b
  }

  class StreamString {
    var buffer: array<char>
    var position: nat
    var length: nat
    var capacity: nat

    /** There is always room for the terminating NUL, and reading never runs past the data. */
    ghost predicate Valid()
      reads this
    {
      buffer.Length == capacity && length < capacity && position <= length && length <= LONG_MAX
    }

    /** The bytes held. */
    ghost function Contents(): string
      reads this, buffer
      requires Valid()
    {
      buffer[..length]
    }

    /** HtmlCreateStreamBuffer: an empty stream of blockSize bytes. */
    constructor CreateBuffer(blockSize: nat)
      requires 0 < blockSize
      ensures Valid() && fresh(buffer)
      ensures Contents() == [] && position == 0 && capacity == blockSize
      ensures buffer[0] == '\0'
    {
      buffer := new char[blockSize](_ => '\0');
      position := 0;
      length := 0;
      capacity := blockSize;
    }

    /** HtmlCreateStreamString: a stream over a C string, read from its start. */
    constructor CreateString(str: string)
      requires CString(str) && |str| <= LONG_MAX
      ensures Valid() && fresh(buffer)
      ensures Contents() == str && position == 0 && capacity == |str| + 1
    {
      buffer := new char[|str| + 1](i requires 0 <= i <= |str| => if i < |str| then str[i] else '\0');
      position := 0;
      length := |str|;
      capacity := |str| + 1;
    }

    /** HtmlLibExpandStreamString: make room for expandSize more bytes and the NUL after them. */
    method Expand(expandSize: nat) returns (code: Code)
      requires Valid()
      requires length + expandSize <= LONG_MAX
      modifies this
      ensures Valid() && Contents() == old(Contents()) && position == old(position)
      ensures old(length) + expandSize >= old(capacity) ==> capacity == (old(capacity) + expandSize) * 2 && fresh(buffer)
      ensures old(length) + expandSize < old(capacity) ==> capacity == old(capacity) && buffer == old(buffer)
      ensures length + expandSize < capacity
      ensures code == Ok
    {
      if length + expandSize >= capacity {
        var newCapacity := (capacity + expandSize) * 2;
        var newBuffer := new char[newCapacity](_ => '\0');
        var old_ := buffer;
        var i := 0;
        while i < capacity
          invariant 0 <= i <= capacity < newCapacity
          invariant newBuffer[..i] == old_[..i]
          modifies newBuffer
        {
          newBuffer[i] := old_[i];
          i := i + 1;
        }
        assert newBuffer[..length] == newBuffer[..i][..length];
        buffer := newBuffer;
        capacity := newCapacity;
      }
      code := Ok;
    }

    /** HtmlLibGetcharFromStreamString: the next byte as a signed char, or EOF at the end. */
    method Getchar() returns (c: int)
      requires Valid()
      modifies this`position
      ensures Valid()
      ensures old(position) < length ==> c == SignedByte(Contents()[old(position)]) && position == old(position) + 1
      ensures old(position) >= length ==> c == EOF && position == old(position)
    {
      if position >= length {
        return EOF;
      }
      c := SignedByte(buffer[position]);
      position := position + 1;
    }

    /** HtmlLibReadFromStreamString: copy out up to n * size bytes from the position. */
    method Read(n: nat, size: nat) returns (content: string, total: nat)
      requires Valid()
      modifies this`position
      ensures Valid()
      ensures total == Min(n * size, length - old(position))
      ensures content == Contents()[old(position)..old(position) + total]
      ensures position == old(position) + total
    {
      total := Min(n * size, length - position);
      content := buffer[position..position + total];
      position := position + total;
    }

    /** HtmlLibPutcharToStreamString: append `(char)c`; returns c. */
    method Putchar(c: int) returns (r: int)
      requires Valid() && length + 1 <= LONG_MAX
      modifies this, buffer
      ensures Valid() && position == old(position)
      ensures Contents() == old(Contents()) + [ByteChar(c)]
      ensures buffer == old(buffer) || fresh(buffer)
      ensures r == c
    {
      var _ := Expand(1);
      buffer[length] := ByteChar(c);
      length := length + 1;
      r := c;
    }

    /** HtmlLibWriteStreamString: append the first n * size bytes of content; returns their count. */
    method Write(content: string, size: nat, n: nat) returns (total: nat)
      requires Valid() && n * size <= |content| && length + n * size <= LONG_MAX
      modifies this, buffer
      ensures Valid() && position == old(position)
      ensures total == n * size
      ensures Contents() == old(Contents()) + content[..total]
      ensures buffer == old(buffer) || fresh(buffer)
    {
      total := n * size;
      var _ := Expand(total);
      var b := buffer;
      ghost var before := b[..length];
      var i := 0;
      while i < total
        invariant 0 <= i <= total && length + total < b.Length
        invariant b[..length + i] == before + content[..i]
        modifies b
      {
        b[length + i] := content[i];
        i := i + 1;
        assert b[..length + i] == b[..length + i - 1] + [content[i - 1]];
        assert content[..i] == content[..i - 1] + [content[i - 1]];
      }
      length := length + total;
    }

    /** HtmlLibSeekStreamString. */
    method Seek(move: int, whence: int) returns (code: Code)
      requires Valid()
      requires LONG_MIN <= move <= LONG_MAX
      modifies this`position
      ensures Valid()
      ensures position == SeekTarget(old(position), length, move, whence)
      ensures code == Ok
    {
      var target := position;
      if whence == SEEK_SET {
        target := move % SIZE_T;
      } else if whence == SEEK_CUR {
        target := (position + move) % SIZE_T;
      } else if whence == SEEK_END {
        target := (position + move) % SIZE_T;
      }
      if target > length {
        target := length;
      }
      position := target;
      code := Ok;
    }

    /** HtmlLibTellStreamString. */
    method Tell() returns (p: nat)
      requires Valid()
      ensures p == position
    {
      p := position;
    }

    /** HtmlGetStreamString: terminate the data with NUL and hand it out as a C string. */
    method GetStreamString() returns (s: string)
      requires Valid()
      modifies buffer
      ensures Valid() && Contents() == old(Contents())
      ensures buffer[length] == '\0'
      ensures s == CPrefix(Contents())
    {
      buffer[length] := '\0';
      s := CPrefix(buffer[..length]);
    }
  }
}

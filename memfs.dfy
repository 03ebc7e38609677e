/** The contents buffer of an in-memory (MEMFS) regular file.

    A file node keeps a byte array whose length is its capacity and a count
    of the bytes in use; only the first `usedBytes` bytes are the file.
    The source keeps `null` for a file without storage; here that is an
    array of length 0, which every operation below treats the same way.
    Every operation keeps the bytes past `usedBytes` zero (`Valid`), which is
    why growing a file always exposes zero bytes. */
module MemFs {
  import opened Base

  /** `whence` values of llseek. */
  const SeekSet: int := 0
  const SeekCur: int := 1
  const SeekEnd: int := 2

  /** Below this capacity a growing buffer doubles, above it grows by 1/8. */
  const MiB: nat := 0x10_0000

  const TwoTo32: nat := 0x1_0000_0000

  /** The growth target `c * (c < 1 MiB ? 2 : 1.125) >>> 0`: the product is
      exact in binary floating point, `>>> 0` floors it and wraps it to 32 bits. */
  function Growth(c: nat): (g: nat)
    ensures g < TwoTo32
  {
    (if c < MiB then 2 * c else 9 * c / 8) % TwoTo32
  }

  /** The capacity expandFileStorage allocates when a buffer of capacity
      `c` must hold `request` bytes. */
  function NewCapacity(c: nat, request: int): (n: nat)
    ensures n >= request
    ensures c != 0 ==> n >= 256
    ensures c < MiB ==> n >= 2 * c
    ensures MiB <= c && 9 * c / 8 < TwoTo32 ==> n >= 9 * c / 8
  {
    var b := Max(request, Growth(c));
    if c != 0 then Max(b, 256) else b
  }

  /** The file after resizeFileStorage to `n` bytes: a prefix when it
      shrinks, zero bytes appended when it grows. */
  function Resized(d: seq<Byte>, n: nat): (r: seq<Byte>)
    ensures |r| == n
    ensures forall i :: 0 <= i < n ==> r[i] == if i < |d| then d[i] else 0
  {
    if n <= |d| then d[..n] else d + Zeros(n - |d|)
  }

  /** What a read of at most `len` bytes at `pos` returns. */
  function ReadBytes(d: seq<Byte>, pos: nat, len: nat): (r: seq<Byte>)
    ensures |r| <= len
    ensures pos >= |d| ==> r == []
    ensures pos < |d| ==> |r| == Min(|d| - pos, len) && pos + |r| <= |d|
    ensures forall i :: 0 <= i < |r| ==> r[i] == d[pos + i]
  {
    if pos >= |d| then [] else d[pos..pos + Min(|d| - pos, len)]
  }

  /** The file after writing `src` at `pos`: nothing changes for an empty
      write; otherwise the bytes before `pos` (zero-padded up to `pos`),
      then `src`, then whatever of the old file lies past the write. */
  function Written(d: seq<Byte>, pos: nat, src: seq<Byte>): seq<Byte>
  {
    if src == [] then d
    else
      var front := if pos <= |d| then d[..pos] else d + Zeros(pos - |d|);
      var back := if pos + |src| < |d| then d[pos + |src|..] else [];
      front + src + back
  }

  /** Byte by byte: a non-empty write makes the file `max(old, pos+len)`
      bytes long, stores `src` at [pos, pos+len), keeps every other old byte
      and zero-fills the gap between the old end and `pos`. */
  lemma WrittenAt(d: seq<Byte>, pos: nat, src: seq<Byte>)
    requires src != []
    ensures |Written(d, pos, src)| == Max(|d|, pos + |src|)
    ensures forall i :: 0 <= i < |Written(d, pos, src)| ==>
      Written(d, pos, src)[i] ==
        if pos <= i < pos + |src| then src[i - pos] else if i < |d| then d[i] else 0
  {
    var front := if pos <= |d| then d[..pos] else d + Zeros(pos - |d|);
    var back := if pos + |src| < |d| then d[pos + |src|..] else [];
    var w := Written(d, pos, src);
    assert w == front + src + back;
    assert |front| == pos;
    forall i | 0 <= i < |w|
      ensures w[i] == if pos <= i < pos + |src| then src[i - pos] else if i < |d| then d[i] else 0
    {
      if i < pos {
        assert w[i] == front[i];
      } else if i < pos + |src| {
        assert w[i] == src[i - pos];
      } else {
        assert w[i] == back[i - pos - |src|];
      }
    }
  }

  /** Writing at 0 into an empty file gives the written bytes. */
  lemma WrittenEmpty(d: seq<Byte>, src: seq<Byte>)
    requires d == []
    ensures Written(d, 0, src) == src
  {
    if src != [] {
      assert Written(d, 0, src) == [] + src + [];
    }
  }

  /** Reading back what was just written returns exactly the written bytes. */
  lemma ReadAfterWrite(d: seq<Byte>, pos: nat, src: seq<Byte>)
    ensures ReadBytes(Written(d, pos, src), pos, |src|) == src
  {
    if src != [] {
      WrittenAt(d, pos, src);
      var r := ReadBytes(Written(d, pos, src), pos, |src|);
      assert |r| == |src|;
      forall i | 0 <= i < |src| ensures r[i] == src[i] {
        assert r[i] == Written(d, pos, src)[pos + i];
      }
    }
  }

  /** A write leaves every old byte outside [pos, pos+len) where it was. */
  lemma WriteKeepsOthers(d: seq<Byte>, pos: nat, src: seq<Byte>, i: nat)
    requires i < |d| && !(pos <= i < pos + |src|)
    ensures i < |Written(d, pos, src)| && Written(d, pos, src)[i] == d[i]
  {
    if src != [] {
      WrittenAt(d, pos, src);
    }
  }

  /** Resizing to the current size changes nothing, and shrinking first
      does not matter when the final size is smaller still. */
  lemma ResizedSame(d: seq<Byte>)
    ensures Resized(d, |d|) == d
  {
  }

  lemma ResizedTwice(d: seq<Byte>, m: nat, n: nat)
    requires n <= m
    ensures Resized(Resized(d, m), n) == Resized(d, n)
  {
    var r := Resized(Resized(d, m), n);
    forall i | 0 <= i < n ensures r[i] == Resized(d, n)[i] {
    }
  }

  /** The new position of an llseek: relative to the stream position for
      SEEK_CUR, to the used size for SEEK_END on a regular file, and to 0
      for every other `whence` (SEEK_END on a non-file included). */
  function SeekTarget(position: int, size: nat, isFile: bool, offset: int, whence: int): int
  {
    if whence == SeekCur then offset + position
    else if whence == SeekEnd && isFile then offset + size
    else offset
  }

  /** MEMFS llseek: the target position, or EINVAL when it is negative. */
  function Llseek(position: int, size: nat, isFile: bool, offset: int, whence: int): (r: Result<nat, int>)
    ensures r.Ok? <==> SeekTarget(position, size, isFile, offset, whence) >= 0
    ensures r.Ok? ==> r.value == SeekTarget(position, size, isFile, offset, whence)
    ensures r.Err? ==> r.error == EINVAL
    ensures whence == SeekEnd && isFile && offset == 0 ==> r == Ok(size)
    ensures whence == SeekCur && offset == 0 && position >= 0 ==> r == Ok(position)
  {
    var b := SeekTarget(position, size, isFile, offset, whence);
    if b < 0 then Err(EINVAL) else Ok(b)
  }

  /** `dst.set(src.subarray(from, from + len), at)` on two distinct arrays. */
  method CopyRange(dst: array<Byte>, at: nat, src: array<Byte>, from: nat, len: nat)
    requires dst != src
    requires at + len <= dst.Length && from + len <= src.Length
    modifies dst
    ensures forall k :: 0 <= k < dst.Length ==>
      dst[k] == if at <= k < at + len then src[from + (k - at)] else old(dst[k])
  {
    for i := 0 to len
      invariant forall k :: 0 <= k < dst.Length ==>
        dst[k] == if at <= k < at + i then src[from + (k - at)] else old(dst[k])
    {
      dst[at + i] := src[from + i];
    }
  }

  /** A MEMFS regular file's storage: `contents` is the buffer, whose length
      is the capacity, and `usedBytes` the file size. */
  class MemFile {
    var contents: array<Byte>
    var usedBytes: nat

    /** The size fits the buffer and the spare capacity is all zeros. */
    ghost predicate Valid()
      reads this, contents
    {
      usedBytes <= contents.Length &&
      forall i :: usedBytes <= i < contents.Length ==> contents[i] == 0
    }

    /** The file's bytes (getFileDataAsTypedArray). */
    function Data(): seq<Byte>
      reads this, contents
      requires usedBytes <= contents.Length
    {
      contents[..usedBytes]
    }

    /** A new regular file: no storage and size 0. */
    constructor ()
      ensures Valid() && usedBytes == 0 && contents.Length == 0
    {
      contents := new Byte[0];
      usedBytes := 0;
    }

    /** expandFileStorage: make room for `request` bytes. Nothing happens
        when the capacity already suffices; otherwise a new zeroed buffer
        of `NewCapacity` bytes receives the used bytes. */
    method Expand(request: int)
      requires Valid()
      modifies this
      ensures Valid() && usedBytes == old(usedBytes)
      ensures Data() == old(Data())
      ensures old(contents.Length) >= request ==> contents == old(contents)
      ensures old(contents.Length) < request ==>
        fresh(contents) && contents.Length == NewCapacity(old(contents.Length), request)
    {
      var c := contents.Length;
      if c < request {
        var grown := new Byte[NewCapacity(c, request)](_ => 0);
        if 0 < usedBytes {
          CopyRange(grown, 0, contents, 0, usedBytes);
        }
        contents := grown;
      }
    }

    /** resizeFileStorage: set the size to `n`, keeping the first
        min(n, size) bytes and zero-filling the rest; size 0 drops the
        storage, and asking for the current size changes nothing. */
    method Resize(n: nat)
      requires Valid()
      modifies this
      ensures Valid() && usedBytes == n
      ensures Data() == Resized(old(Data()), n)
      ensures old(usedBytes) == n ==> contents == old(contents)
      ensures old(usedBytes) != n ==> fresh(contents) && contents.Length == n
    {
      if usedBytes != n {
        if n == 0 {
          contents := new Byte[0];
          usedBytes := 0;
        } else {
          var resized := new Byte[n](_ => 0);
          CopyRange(resized, 0, contents, 0, Min(n, usedBytes));
          contents := resized;
          usedBytes := n;
        }
      }
    }

    /** MEMFS read into `buffer` at `offset`: at most `length` bytes from
        `position`, none when `position` is at or past the end. */
    method Read(buffer: array<Byte>, offset: nat, length: nat, position: nat) returns (n: nat)
      requires Valid() && buffer != contents
      requires offset + |ReadBytes(Data(), position, length)| <= buffer.Length
      modifies buffer
      ensures n == |ReadBytes(Data(), position, length)|
      ensures n == if position >= usedBytes then 0 else Min(usedBytes - position, length)
      ensures buffer[offset..offset + n] == ReadBytes(Data(), position, length)
      ensures buffer[..offset] == old(buffer[..offset])
      ensures buffer[offset + n..] == old(buffer[offset + n..])
    {
      if position >= usedBytes {
        return 0;
      }
      n := Min(usedBytes - position, length);
      CopyRange(buffer, offset, contents, position, n);
      assert buffer[offset..offset + n] == contents[position..position + n];
    }

    /** MEMFS write of `length` bytes of `buffer` from `offset`, at
        `position`, without handing the buffer over to the file. */
    method Write(buffer: array<Byte>, offset: nat, length: nat, position: nat) returns (n: nat)
      requires Valid() && buffer != contents
      requires offset + length <= buffer.Length
      modifies this, contents
      ensures Valid() && n == length
      ensures usedBytes == if length == 0 then old(usedBytes) else Max(old(usedBytes), position + length)
      ensures Data() == Written(old(Data()), position, old(buffer[offset..offset + length]))
    {
      if length == 0 {
        return 0;
      }
      ghost var src := buffer[offset..offset + length];
      if usedBytes == 0 && position == 0 {
        Replace(buffer, offset, length);
        WrittenEmpty(old(Data()), src);
        return length;
      }
      if position + length <= usedBytes {
        Store(buffer, offset, length, position);
        return length;
      }
      Expand(position + length);
      assert buffer[offset..offset + length] == src;
      Store(buffer, offset, length, position);
      usedBytes := Max(usedBytes, position + length);
      return length;
    }

    /** The branch of Write for an empty file written from position 0:
        the file becomes a copy of the source bytes. */
    method Replace(buffer: array<Byte>, offset: nat, length: nat)
      requires offset + length <= buffer.Length
      modifies this
      ensures Valid() && usedBytes == length && fresh(contents)
      ensures Data() == buffer[offset..offset + length]
    {
      var copy := new Byte[length](_ => 0);
      CopyRange(copy, 0, buffer, offset, length);
      contents := copy;
      usedBytes := length;
      assert Data() == buffer[offset..offset + length];
    }

    /** The copy both remaining branches of Write end with: the bytes go
        to [position, position+length) of a buffer with room for them. */
    method Store(buffer: array<Byte>, offset: nat, length: nat, position: nat)
      requires Valid() && buffer != contents && 0 < length
      requires offset + length <= buffer.Length && position + length <= contents.Length
      modifies contents
      ensures contents[..Max(usedBytes, position + length)] ==
        Written(old(Data()), position, buffer[offset..offset + length])
      ensures forall i :: Max(usedBytes, position + length) <= i < contents.Length ==> contents[i] == 0
    {
      ghost var d := Data();
      ghost var src := buffer[offset..offset + length];
      WrittenAt(d, position, src);
      CopyRange(contents, position, buffer, offset, length);
    }

    /** MEMFS allocate: make the file at least `offset + length` bytes
        long; the new bytes are zero. */
    method Allocate(offset: nat, length: nat)
      requires Valid()
      modifies this
      ensures Valid() && usedBytes == Max(old(usedBytes), offset + length)
      ensures Data() == Resized(old(Data()), Max(old(usedBytes), offset + length))
    {
      Expand(offset + length);
      usedBytes := Max(usedBytes, offset + length);
    }
  }
}

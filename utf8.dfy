/** The UTF-8 codec of the Emscripten runtime (section 3 of RFC 3629), working
    on JavaScript strings, that is on UTF-16 code units:
    stringToUTF8Array, lengthBytesUTF8, UTF8ArrayToString, intArrayFromString
    and UTF8ToString. */
module Utf8 {
  import opened Base

  /** The code points the encoder can produce (the largest is 0x10FFFF). */
  type CodePoint = x: int | 0 <= x <= 0x10FFFF

  predicate IsSurrogate(u: int) { 0xD800 <= u <= 0xDFFF }
  predicate IsHighSurrogate(u: int) { 0xD800 <= u <= 0xDBFF }
  predicate IsLowSurrogate(u: int) { 0xDC00 <= u <= 0xDFFF }

  // ---------------------------------------------------------------------------
  // What the encoder reads from the string
  // ---------------------------------------------------------------------------

  /** The code point the encoder reads at unit index h. Any unit in
      0xD800-0xDFFF, high or low, is taken as the first half of a pair and
      combined with the low ten bits of the next unit; past the end of the
      string charCodeAt gives NaN, whose low bits are 0. The source writes
      `65536 + ((n & 1023) << 10) | t & 1023`; the low ten bits of the left
      operand are zero, so the `|` is an addition. */
  function PointAt(s: JsString, h: nat): CodePoint
    requires h < |s|
  {
    var n: int := s[h];
    if IsSurrogate(n) then
      0x1_0000 + (n % 0x400) * 0x400 + (if h + 1 < |s| then s[h + 1] as int % 0x400 else 0)
    else
      n
  }

  /** The unit index after the code point read at h (a pair consumes two
      units, also when the second one is missing). */
  function NextIndex(s: JsString, h: nat): nat
    requires h < |s|
  {
    if IsSurrogate(s[h]) then h + 2 else h + 1
  }

  /** The bytes for one code point: one byte up to 0x7F, two up to 0x7FF,
      three up to 0xFFFF, four above (x >> k is x / 2^k, x & 63 is x % 64,
      and every `|` in the source combines disjoint bits, so it is `+`). */
  function EncodePoint(cp: CodePoint): (e: seq<Byte>)
    ensures |e| == Width(cp)
  {
    if cp <= 0x7F then [cp]
    else if cp <= 0x7FF then [0xC0 + cp / 0x40, 0x80 + cp % 0x40]
    else if cp <= 0xFFFF then [0xE0 + cp / 0x1000, 0x80 + cp / 0x40 % 0x40, 0x80 + cp % 0x40]
    else [0xF0 + cp / 0x4_0000, 0x80 + cp / 0x1000 % 0x40, 0x80 + cp / 0x40 % 0x40, 0x80 + cp % 0x40]
  }

  /** The number of bytes of the encoding of cp. */
  function Width(cp: CodePoint): nat
  {
    if cp <= 0x7F then 1 else if cp <= 0x7FF then 2 else if cp <= 0xFFFF then 3 else 4
  }

  /** The UTF-8 encoding of s from unit index h on, without terminator. */
  function EncodingFrom(s: JsString, h: nat): seq<Byte>
    decreases |s| - h
  {
    if h >= |s| then [] else EncodePoint(PointAt(s, h)) + EncodingFrom(s, NextIndex(s, h))
  }

  /** The UTF-8 encoding of a JavaScript string, without terminator. */
  function Encoding(s: JsString): seq<Byte>
  {
    EncodingFrom(s, 0)
  }

  /** The bytes the encoder writes from unit index h on when `room` bytes
      are left before the terminator: whole code points, as long as the
      next one fits. */
  function Fit(s: JsString, h: nat, room: int): (r: seq<Byte>)
    ensures |r| <= Max(room, 0)
    decreases |s| - h
  {
    if h >= |s| then []
    else
      var cp := PointAt(s, h);
      if Width(cp) > room then [] else EncodePoint(cp) + Fit(s, NextIndex(s, h), room - Width(cp))
  }

  /** The unit index at which the encoder stops when room bytes are left
      from unit index h on: the end of s, or the first code point that does
      not fit. */
  function FitEnd(s: JsString, h: nat, room: int): nat
    decreases |s| - h
  {
    if h >= |s| then h
    else
      var cp := PointAt(s, h);
      if Width(cp) > room then h else FitEnd(s, NextIndex(s, h), room - Width(cp))
  }

  // ---------------------------------------------------------------------------
  // The encoder: stringToUTF8Array (k) and lengthBytesUTF8 (ba)
  // ---------------------------------------------------------------------------

  /** stringToUTF8Array(str, heap, outIdx, maxBytesToWrite): writes the
      encoding of whole code points of s from outIdx on, as many as fit in
      maxBytes - 1 bytes, then a 0 byte, and returns the number of bytes
      written before the 0. With maxBytes <= 0 it writes nothing. */
  method StringToUtf8Array(s: JsString, buf: array<Byte>, outIdx: nat, maxBytes: int)
      returns (written: int)
    requires maxBytes > 0 ==> outIdx + maxBytes <= buf.Length
    modifies buf
    ensures maxBytes <= 0 ==> written == 0 && buf[..] == old(buf[..])
    ensures maxBytes > 0 ==>
      && written == |Fit(s, 0, maxBytes - 1)|
      && buf[outIdx..outIdx + written] == Fit(s, 0, maxBytes - 1)
      && buf[outIdx + written] == 0
      && forall i :: 0 <= i < buf.Length && !(outIdx <= i <= outIdx + written) ==> buf[i] == old(buf[i])
  {
    if !(0 < maxBytes) {
      return 0;
    }
    var d := outIdx + maxBytes - 1;
    var c := EncodeWhole(s, buf, outIdx, d);
    ghost var encoded := buf[outIdx..c];
    buf[c] := 0;
    assert buf[outIdx..c] == encoded;
    written := c - outIdx;
  }

  /** The loop of stringToUTF8Array: writes from `start` on the bytes of the
      code points of s while they fit before the terminator's slot d, and
      returns the index after the last byte written. */
  method EncodeWhole(s: JsString, buf: array<Byte>, start: nat, d: nat) returns (c: nat)
    requires start <= d <= buf.Length
    modifies buf
    ensures start <= c <= d
    ensures buf[start..c] == Fit(s, 0, d - start)
    ensures forall i :: 0 <= i < buf.Length && !(start <= i < c) ==> buf[i] == old(buf[i])
  {
    c := start;
    var h := 0;
    ghost var w: seq<Byte> := [];
    ghost var rest := Fit(s, 0, d - start);
    while h < |s|
      invariant start <= c <= d
      invariant buf[start..c] == w
      invariant rest == Fit(s, h, d - c)
      invariant w + rest == Fit(s, 0, d - start)
      invariant forall i :: 0 <= i < buf.Length && !(start <= i < c) ==> buf[i] == old(buf[i])
      decreases |s| - h
    {
      // The source reads the unit at h and, for a surrogate, the next one.
      var n := PointAt(s, h);
      // The source has one branch per encoded length L (1 to 4); each stops
      // the loop when c + L - 1 >= d, that is when the L bytes would reach
      // the terminator's slot, and otherwise writes the bytes of EncodePoint.
      var e := EncodePoint(n);
      if c + |e| > d {
        FitStop(s, h, d - c);
        break;
      }
      Store(buf, start, c, e, w);
      ghost var c0, h0 := c, h;
      c := c + |e|;
      h := NextIndex(s, h);
      FitStep(s, h0, d - c0, d - c);
      AppendAssoc(w, e, Fit(s, h, d - c));
      w := w + e;
      rest := Fit(s, h, d - c);
    }
    FitStop(s, h, d - c);
  }

  /** The encoder's loop ends: at the end of s, or at a code point that does
      not fit in room bytes, nothing more is written. */
  lemma FitStop(s: JsString, h: nat, room: int)
    requires h < |s| ==> Width(PointAt(s, h)) > room
    ensures Fit(s, h, room) == []
  {
  }

  /** One step of the encoder's loop: when the code point at h fits in room
      bytes, its bytes come first in what is still to write. */
  lemma FitStep(s: JsString, h: nat, room: int, room': int)
    requires h < |s| && Width(PointAt(s, h)) <= room
    requires room' == room - Width(PointAt(s, h))
    ensures Fit(s, h, room) == EncodePoint(PointAt(s, h)) + Fit(s, NextIndex(s, h), room')
  {
  }

  /** Writes the bytes e at positions at, at + 1, ... of buf, after the
      bytes w already written from `from` on. */
  method Store(buf: array<Byte>, from: nat, at: nat, e: seq<Byte>, ghost w: seq<Byte>)
    requires from <= at && at + |e| <= buf.Length
    requires buf[from..at] == w
    modifies buf
    ensures buf[from..at + |e|] == w + e
    ensures forall i :: 0 <= i < buf.Length && !(at <= i < at + |e|) ==> buf[i] == old(buf[i])
  {
    forall i | 0 <= i < |e| {
      buf[at + i] := e[i];
    }
    assert buf[from..at + |e|] == buf[from..at] + buf[at..at + |e|];
  }

  // ---------------------------------------------------------------------------
  // What the encoder's output is
  // ---------------------------------------------------------------------------

  /** With room for the whole encoding, the encoder writes all of it. */
  lemma {:induction false} FitWhole(s: JsString, h: nat, room: int)
    requires room >= |EncodingFrom(s, h)|
    ensures Fit(s, h, room) == EncodingFrom(s, h)
    decreases |s| - h
  {
    if h < |s| {
      FitWhole(s, NextIndex(s, h), room - Width(PointAt(s, h)));
    }
  }

  /** The encoder never splits a code point: what it writes is the encoding
      of the code points before FitEnd, the rest of the encoding starts at
      FitEnd, and the code point there (if any) did not fit. */
  lemma {:induction false} FitSplit(s: JsString, h: nat, room: int)
    ensures Fit(s, h, room) + EncodingFrom(s, FitEnd(s, h, room)) == EncodingFrom(s, h)
    ensures FitEnd(s, h, room) < |s| ==> |Fit(s, h, room)| + Width(PointAt(s, FitEnd(s, h, room))) > room
    decreases |s| - h
  {
    if h < |s| {
      var cp, next := PointAt(s, h), NextIndex(s, h);
      if Width(cp) <= room {
        var room' := room - Width(cp);
        FitSplit(s, next, room');
        var f, t := Fit(s, next, room'), EncodingFrom(s, FitEnd(s, next, room'));
        assert Fit(s, h, room) == EncodePoint(cp) + f;
        assert FitEnd(s, h, room) == FitEnd(s, next, room');
        AppendAssoc(EncodePoint(cp), f, t);
      }
    }
  }

  /** A code point other than 0 encodes to bytes that are all nonzero. */
  lemma EncodePointNonzero(cp: CodePoint)
    requires cp != 0
    ensures forall k :: 0 <= k < |EncodePoint(cp)| ==> EncodePoint(cp)[k] != 0
  {
  }

  /** A string without a 0 unit encodes to bytes without a 0, so the
      terminator the encoder adds is the first 0 a decoder meets. */
  lemma {:induction false} EncodingNonzero(s: JsString, h: nat)
    requires forall i :: 0 <= i < |s| ==> s[i] != 0
    ensures forall k :: 0 <= k < |EncodingFrom(s, h)| ==> EncodingFrom(s, h)[k] != 0
    decreases |s| - h
  {
    if h < |s| {
      var cp := PointAt(s, h);
      EncodePointNonzero(cp);
      EncodingNonzero(s, NextIndex(s, h));
      var e, rest := EncodePoint(cp), EncodingFrom(s, NextIndex(s, h));
      assert EncodingFrom(s, h) == e + rest;
      forall k | 0 <= k < |e + rest| ensures (e + rest)[k] != 0 {
        if k >= |e| { assert (e + rest)[k] == rest[k - |e|]; }
      }
    }
  }

  /** lengthBytesUTF8(str): the number of bytes of the encoding of str,
      without terminator, reading surrogates as the encoder does. */
  method LengthBytesUtf8(s: JsString) returns (b: nat)
    ensures b == |Encoding(s)|
  {
    b := 0;
    var c := 0;
    while c < |s|
      invariant b + |EncodingFrom(s, c)| == |Encoding(s)|
      decreases |s| - c
    {
      ghost var c0 := c;
      var d: int := s[c];
      if IsSurrogate(d) {
        c := c + 1;
        var t := if c < |s| then s[c] % 0x400 else 0;
        d := 0x1_0000 + (d % 0x400) * 0x400 + t;
      }
      assert d == PointAt(s, c0);
      if d <= 127 {
        b := b + 1;
      } else if d <= 2047 {
        b := b + 2;
      } else if d <= 65535 {
        b := b + 3;
      } else {
        b := b + 4;
      }
      c := c + 1;
      assert c == NextIndex(s, c0);
    }
  }

  // ---------------------------------------------------------------------------
  // The decoder: UTF8ArrayToString (Va) and UTF8ToString (B)
  // ---------------------------------------------------------------------------

  /** What the decoder reads at index j: past the end of the array (or of
      the heap) the read is undefined, and undefined & 63 is 0. */
  function ByteAt(a: seq<Byte>, j: int): Byte
  {
    if 0 <= j < |a| then a[j] else 0
  }

  /** The end of the scan for the terminator: the first index from c on that
      holds a 0 (or is past the end), or the limit d, whichever comes first.
      Without a limit (maxBytesToRead undefined) only a 0 stops it. */
  function ScanEnd(a: seq<Byte>, c: nat, d: Option<int>): (r: nat)
    ensures c <= r
    ensures ByteAt(a, r) == 0 || (d.Some? && r >= d.value)
    ensures forall j :: c <= j < r ==> ByteAt(a, j) != 0 && !(d.Some? && j >= d.value)
    decreases |a| - c
  {
    if ByteAt(a, c) == 0 || (d.Some? && c >= d.value) then c else ScanEnd(a, c + 1, d)
  }

  /** The units for one decoded value: itself below 0x10000, otherwise a
      surrogate pair (55296 | f >> 10 and 56320 | f & 1023 combine disjoint
      bits, since f - 65536 < 0x200000 - 65536). */
  function UnitsOf(f: nat): seq<Unit>
    requires f < 0x20_0000
  {
    if f < 0x1_0000 then [f]
    else [0xD800 + (f - 0x1_0000) / 0x400, 0xDC00 + (f - 0x1_0000) % 0x400]
  }

  /** The number of bytes the decoder consumes for lead byte f: one below
      0x80; two for 0xC0-0xDF; three for 0xE0-0xEF; four for every other byte
      with the top bit set (0x80-0xBF and 0xF0-0xFF). */
  function LeadWidth(f: Byte): (w: nat)
    ensures 1 <= w <= 4
  {
    if f < 0x80 then 1 else if 0xC0 <= f < 0xE0 then 2 else if 0xE0 <= f < 0xF0 then 3 else 4
  }

  /** The units the decoder appends for the sequence starting at b. Only the
      low six bits of the bytes after the lead byte are used, whatever they
      are. */
  function DecodeOne(a: seq<Byte>, b: nat): (u: seq<Unit>)
    ensures 1 <= |u| <= 2
  {
    var f := ByteAt(a, b);
    if f < 0x80 then [f]
    else
      var h := ByteAt(a, b + 1) % 0x40;
      if 0xC0 <= f < 0xE0 then UnitsOf((f % 0x20) * 0x40 + h)
      else
        var n := ByteAt(a, b + 2) % 0x40;
        if 0xE0 <= f < 0xF0 then UnitsOf((f % 0x10) * 0x1000 + h * 0x40 + n)
        else UnitsOf((f % 8) * 0x4_0000 + h * 0x1000 + n * 0x40 + ByteAt(a, b + 3) % 0x40)
  }

  /** The string the decoder builds from the bytes at b up to c (a last
      multi-byte sequence may read past c). */
  function DecodeFrom(a: seq<Byte>, b: nat, c: nat): JsString
    decreases c - b
  {
    if b >= c then [] else DecodeOne(a, b) + DecodeFrom(a, b + LeadWidth(ByteAt(a, b)), c)
  }

  /** The end of the scan that maxBytesToRead gives, if any. */
  function Limit(idx: nat, maxBytes: Option<int>): Option<int>
  {
    if maxBytes.Some? then Some(idx + maxBytes.value) else None
  }

  /** The string UTF8ArrayToString reads from a at idx. */
  function ReadString(a: seq<Byte>, idx: nat, maxBytes: Option<int>): JsString
  {
    DecodeFrom(a, idx, ScanEnd(a, idx, Limit(idx, maxBytes)))
  }

  /** UTF8ArrayToString(heap, idx, maxBytesToRead): scans for the terminator
      from idx, stopping at the limit idx + maxBytes when one is given, then
      decodes the bytes before it. */
  method Utf8ArrayToString(heap: array<Byte>, idx: nat, maxBytes: Option<int>) returns (str: JsString)
    ensures str == ReadString(heap[..], idx, maxBytes)
  {
    ghost var a := heap[..];
    var d := Limit(idx, maxBytes);
    var c := idx;
    while c < heap.Length && heap[c] != 0 && !(d.Some? && c >= d.value)
      invariant idx <= c && ScanEnd(a, idx, d) == ScanEnd(a, c, d)
      decreases heap.Length - c
    {
      c := c + 1;
    }
    str := DecodeRange(heap, idx, c);
  }

  /** The decoding loop of UTF8ArrayToString, over the bytes from b to c. A
      read past the end of the heap is undefined, and undefined & 63 is 0. */
  method DecodeRange(heap: array<Byte>, idx: nat, c: nat) returns (str: JsString)
    ensures str == DecodeFrom(heap[..], idx, c)
  {
    ghost var a := heap[..];
    var b := idx;
    str := [];
    while b < c
      invariant str + DecodeFrom(a, b, c) == DecodeFrom(a, idx, c)
      decreases c - b
    {
      ghost var b0 := b;
      var u;
      u, b := DecodeStep(heap, b);
      DecodeFromStep(a, b0, c);
      AppendAssoc(str, u, DecodeFrom(a, b, c));
      str := str + u;
    }
  }

  /** One pass of the decoding loop: reads the lead byte at b and the
      continuation bytes it calls for, and returns the units to append and
      the index after them. */
  method DecodeStep(heap: array<Byte>, b: nat) returns (u: seq<Unit>, next: nat)
    ensures u == DecodeOne(heap[..], b) && next == b + LeadWidth(ByteAt(heap[..], b))
  {
    next := b;
    var f: int := if next < heap.Length then heap[next] else 0;
    next := next + 1;
    if f >= 0x80 {
      var h: int := (if next < heap.Length then heap[next] else 0) % 0x40;
      next := next + 1;
      if 0xC0 <= f < 0xE0 {
        u := UnitsOf((f % 0x20) * 0x40 + h);
      } else {
        var n: int := (if next < heap.Length then heap[next] else 0) % 0x40;
        next := next + 1;
        var cp: int;
        if 0xE0 <= f < 0xF0 {
          cp := (f % 0x10) * 0x1000 + h * 0x40 + n;
        } else {
          cp := (f % 8) * 0x4_0000 + h * 0x1000 + n * 0x40 + (if next < heap.Length then heap[next] else 0) % 0x40;
          next := next + 1;
        }
        u := UnitsOf(cp);
      }
    } else {
      u := [f];
    }
  }

  /** UTF8ToString(ptr, maxBytesToRead): the empty string for the null
      pointer, otherwise the string decoded from the heap at ptr. */
  method Utf8ToString(heap: array<Byte>, ptr: nat, maxBytes: Option<int>) returns (str: JsString)
    ensures ptr == 0 ==> str == []
    ensures ptr != 0 ==> str == ReadString(heap[..], ptr, maxBytes)
  {
    if ptr == 0 {
      return [];
    }
    str := Utf8ArrayToString(heap, ptr, maxBytes);
  }

  /** intArrayFromString(str, dontAddNull): the encoding of str in an array
      of lengthBytesUTF8(str) + 1 bytes, terminated by 0 unless dontAddNull,
      in which case the array is cut to the bytes written. */
  method IntArrayFromString(s: JsString, dontAddNull: bool) returns (r: seq<Byte>)
    ensures r == if dontAddNull then Encoding(s) else Encoding(s) + [0]
  {
    var n := LengthBytesUtf8(s);
    var arr := new Byte[n + 1];
    var written := StringToUtf8Array(s, arr, 0, arr.Length);
    FitWhole(s, 0, n);
    assert arr[..] == arr[0..n + 1];
    r := if dontAddNull then arr[..written] else arr[..];
  }

  // ---------------------------------------------------------------------------
  // Round trip
  // ---------------------------------------------------------------------------

  /** A well-formed UTF-16 string: every high surrogate is followed by a low
      one and every low surrogate follows a high one. */
  predicate WellFormed(s: JsString)
  {
    forall i :: 0 <= i < |s| ==> PairedAt(s, i)
  }

  /** The unit at i is not half of a broken surrogate pair. */
  predicate PairedAt(s: JsString, i: nat)
    requires i < |s|
  {
    && (IsHighSurrogate(s[i]) ==> i + 1 < |s| && IsLowSurrogate(s[i + 1]))
    && (IsLowSurrogate(s[i]) ==> 0 < i && IsHighSurrogate(s[i - 1]))
  }

  /** Decoding the encoding of one code point gives back its units. */
  lemma DecodePoint(a: seq<Byte>, b: nat, cp: CodePoint)
    requires b + |EncodePoint(cp)| <= |a| && a[b..b + |EncodePoint(cp)|] == EncodePoint(cp)
    ensures DecodeOne(a, b) == UnitsOf(cp) && LeadWidth(ByteAt(a, b)) == |EncodePoint(cp)|
  {
    var e := EncodePoint(cp);
    BytesAt(a, b, e);
    if cp <= 0x7F {
      assert ByteAt(a, b) == e[0];
    } else if cp <= 0x7FF {
      assert ByteAt(a, b) == e[0] && ByteAt(a, b + 1) == e[1];
      Decode2(a, b, cp);
    } else if cp <= 0xFFFF {
      assert ByteAt(a, b) == e[0] && ByteAt(a, b + 1) == e[1] && ByteAt(a, b + 2) == e[2];
      Decode3(a, b, cp);
    } else {
      assert ByteAt(a, b) == e[0] && ByteAt(a, b + 1) == e[1] && ByteAt(a, b + 2) == e[2];
      assert ByteAt(a, b + 3) == e[3];
      Decode4(a, b, cp);
    }
  }

  /** The bytes e at b of a, read one by one. */
  lemma BytesAt(a: seq<Byte>, b: nat, e: seq<Byte>)
    requires b + |e| <= |a| && a[b..b + |e|] == e
    ensures forall k :: 0 <= k < |e| ==> ByteAt(a, b + k) == e[k]
  {
    forall k | 0 <= k < |e| ensures ByteAt(a, b + k) == e[k] {
      assert a[b..b + |e|][k] == a[b + k];
    }
  }

  /** The two-byte form gives back its code point. */
  lemma Decode2(a: seq<Byte>, b: nat, cp: CodePoint)
    requires 0x80 <= cp <= 0x7FF
    requires ByteAt(a, b) == 0xC0 + cp / 0x40 && ByteAt(a, b + 1) == 0x80 + cp % 0x40
    ensures DecodeOne(a, b) == UnitsOf(cp) && LeadWidth(ByteAt(a, b)) == 2
  {
    var x1, r1 := cp / 0x40, cp % 0x40;
    DivMod(cp, 0x40);
    assert (0xC0 + x1) % 0x20 == x1;
    assert (0x80 + r1) % 0x40 == r1;
  }

  /** The three-byte form gives back its code point. */
  lemma Decode3(a: seq<Byte>, b: nat, cp: CodePoint)
    requires 0x800 <= cp <= 0xFFFF
    requires ByteAt(a, b) == 0xE0 + cp / 0x1000 && ByteAt(a, b + 1) == 0x80 + cp / 0x40 % 0x40
    requires ByteAt(a, b + 2) == 0x80 + cp % 0x40
    ensures DecodeOne(a, b) == UnitsOf(cp) && LeadWidth(ByteAt(a, b)) == 3
  {
    var x1, r1 := cp / 0x40, cp % 0x40;
    var x2, r2 := x1 / 0x40, x1 % 0x40;
    DivMod(cp, 0x40);
    DivMod(x1, 0x40);
    assert cp / 0x1000 == x2;
    assert (0xE0 + x2) % 0x10 == x2;
    assert (0x80 + r2) % 0x40 == r2;
    assert (0x80 + r1) % 0x40 == r1;
  }

  /** The four-byte form gives back its code point. */
  lemma Decode4(a: seq<Byte>, b: nat, cp: CodePoint)
    requires 0x1_0000 <= cp
    requires ByteAt(a, b) == 0xF0 + cp / 0x4_0000 && ByteAt(a, b + 1) == 0x80 + cp / 0x1000 % 0x40
    requires ByteAt(a, b + 2) == 0x80 + cp / 0x40 % 0x40 && ByteAt(a, b + 3) == 0x80 + cp % 0x40
    ensures DecodeOne(a, b) == UnitsOf(cp) && LeadWidth(ByteAt(a, b)) == 4
  {
    var x1, r1 := cp / 0x40, cp % 0x40;
    var x2, r2 := x1 / 0x40, x1 % 0x40;
    var q, r3 := x2 / 0x40, x2 % 0x40;
    DivMod(cp, 0x40);
    DivMod(x1, 0x40);
    DivMod(x2, 0x40);
    assert cp / 0x1000 == x2;
    assert cp / 0x4_0000 == q;
    assert (0xF0 + q) % 8 == q;
    assert (0x80 + r3) % 0x40 == r3;
    assert (0x80 + r2) % 0x40 == r2;
    assert (0x80 + r1) % 0x40 == r1;
  }

  /** x is q * m + r with r = x % m and q = x / m. */
  lemma DivMod(x: nat, m: nat)
    requires m > 0
    ensures x == (x / m) * m + x % m && 0 <= x % m < m
  {
  }

  /** At a code point boundary of a well-formed string (a unit that is not
      a low surrogate), the units of the code point the encoder reads are
      exactly the units it consumes. */
  lemma UnitsOfPoint(s: JsString, h: nat)
    requires WellFormed(s) && h < |s| && !IsLowSurrogate(s[h])
    ensures NextIndex(s, h) <= |s|
    ensures UnitsOf(PointAt(s, h)) == s[h..NextIndex(s, h)]
    ensures NextIndex(s, h) < |s| ==> !IsLowSurrogate(s[NextIndex(s, h)])
  {
    assert PairedAt(s, h);
    if NextIndex(s, h) < |s| {
      assert PairedAt(s, NextIndex(s, h));
    }
    if IsSurrogate(s[h]) {
      assert PairedAt(s, h);
      var hi, lo := s[h] as int, s[h + 1] as int;
      var cp := PointAt(s, h);
      assert cp - 0x1_0000 == (hi % 0x400) * 0x400 + lo % 0x400;
      assert (cp - 0x1_0000) / 0x400 == hi % 0x400;
      assert (cp - 0x1_0000) % 0x400 == lo % 0x400;
    }
  }

  /** The code points the encoder reads from unit index h on. */
  function Points(s: JsString, h: nat): seq<CodePoint>
    decreases |s| - h
  {
    if h >= |s| then [] else [PointAt(s, h)] + Points(s, NextIndex(s, h))
  }

  /** The concatenated encodings of a sequence of code points. */
  function Flat(ps: seq<CodePoint>): seq<Byte>
  {
    if ps == [] then [] else EncodePoint(ps[0]) + Flat(ps[1..])
  }

  /** The concatenated UTF-16 units of a sequence of code points. */
  function Utf16(ps: seq<CodePoint>): JsString
  {
    if ps == [] then [] else UnitsOf(ps[0]) + Utf16(ps[1..])
  }

  /** The encoding of s is the encoding of its code points, one by one. */
  lemma {:induction false} EncodingPoints(s: JsString, h: nat)
    ensures EncodingFrom(s, h) == Flat(Points(s, h))
    decreases |s| - h
  {
    if h < |s| {
      var ps := Points(s, h);
      EncodingPoints(s, NextIndex(s, h));
      assert ps[0] == PointAt(s, h) && ps[1..] == Points(s, NextIndex(s, h));
    }
  }

  /** From a boundary h of a well-formed string, the units of the code
      points the encoder reads are the units of the string. */
  lemma {:induction false} Utf16Points(s: JsString, h: nat)
    requires WellFormed(s) && h <= |s| && (h < |s| ==> !IsLowSurrogate(s[h]))
    ensures Utf16(Points(s, h)) == s[h..]
    decreases |s| - h
  {
    if h < |s| {
      var ps, next := Points(s, h), NextIndex(s, h);
      UnitsOfPoint(s, h);
      Utf16Points(s, next);
      assert ps[0] == PointAt(s, h) && ps[1..] == Points(s, next);
      assert s[h..] == s[h..next] + s[next..];
    }
  }

  /** Decoding the bytes of the encodings of ps gives back their units. */
  lemma {:induction false} DecodeFlat(a: seq<Byte>, b: nat, ps: seq<CodePoint>, end: nat)
    requires end == b + |Flat(ps)| <= |a| && a[b..end] == Flat(ps)
    ensures DecodeFrom(a, b, end) == Utf16(ps)
    decreases |ps|
  {
    if ps != [] {
      var e, rest := EncodePoint(ps[0]), Flat(ps[1..]);
      assert Flat(ps) == e + rest;
      SliceSplit(a, b, e, rest);
      DecodeFromPoint(a, b, end, ps[0]);
      DecodeFlat(a, b + |e|, ps[1..], end);
      assert Utf16(ps) == UnitsOf(ps[0]) + Utf16(ps[1..]);
    }
  }

  /** Where the encoding of cp sits, decoding yields its units and goes on
      right after it. */
  lemma DecodeFromPoint(a: seq<Byte>, b: nat, end: nat, cp: CodePoint)
    requires b + |EncodePoint(cp)| <= end && b + |EncodePoint(cp)| <= |a|
    requires a[b..b + |EncodePoint(cp)|] == EncodePoint(cp)
    ensures DecodeFrom(a, b, end) == UnitsOf(cp) + DecodeFrom(a, b + |EncodePoint(cp)|, end)
  {
    DecodePoint(a, b, cp);
    DecodeFromStepAt(a, b, end, UnitsOf(cp), b + |EncodePoint(cp)|);
  }

  /** One unfolding of DecodeFrom. */
  lemma DecodeFromStep(a: seq<Byte>, b: nat, c: nat)
    requires b < c
    ensures DecodeFrom(a, b, c) == DecodeOne(a, b) + DecodeFrom(a, b + LeadWidth(ByteAt(a, b)), c)
  {
  }

  /** DecodeFromStep with the units and the next index named. */
  lemma DecodeFromStepAt(a: seq<Byte>, b: nat, c: nat, u: seq<Unit>, next: nat)
    requires b < c && DecodeOne(a, b) == u && b + LeadWidth(ByteAt(a, b)) == next
    ensures DecodeFrom(a, b, c) == u + DecodeFrom(a, next, c)
  {
    DecodeFromStep(a, b, c);
  }

  /** Bytes e + r at b of a are e at b and r after it. */
  lemma SliceSplit(a: seq<Byte>, b: nat, e: seq<Byte>, r: seq<Byte>)
    requires b + |e + r| <= |a| && a[b..b + |e + r|] == e + r
    ensures a[b..b + |e|] == e && a[b + |e|..b + |e| + |r|] == r
  {
    assert a[b..b + |e|] == a[b..b + |e + r|][..|e|];
    assert a[b + |e|..b + |e| + |r|] == a[b..b + |e + r|][|e|..];
  }

  /** The round trip: a well-formed string without 0 units, encoded with its
      terminator anywhere in memory, decodes back to itself, with no limit or
      with a limit that leaves room for the whole encoding. */
  lemma RoundTrip(pre: seq<Byte>, s: JsString, post: seq<Byte>, maxBytes: Option<int>)
    requires WellFormed(s) && forall i :: 0 <= i < |s| ==> s[i] != 0
    requires maxBytes.Some? ==> maxBytes.value >= |Encoding(s)|
    ensures ReadString(pre + Encoding(s) + [0] + post, |pre|, maxBytes) == s
  {
    var e := Encoding(s);
    var a := pre + e + [0] + post;
    EncodingNonzero(s, 0);
    ReadUpToTerminator(pre, e, post, maxBytes);
    Layout(pre, e, post);
    DecodeEncoding(a, |pre|, s);
  }

  /** The scan of a nonzero encoding stops at the 0 right after it. */
  lemma ReadUpToTerminator(pre: seq<Byte>, e: seq<Byte>, post: seq<Byte>, maxBytes: Option<int>)
    requires forall k :: 0 <= k < |e| ==> e[k] != 0
    requires maxBytes.Some? ==> maxBytes.value >= |e|
    ensures ReadString(pre + e + [0] + post, |pre|, maxBytes) == DecodeFrom(pre + e + [0] + post, |pre|, |pre| + |e|)
  {
    var a := pre + e + [0] + post;
    Layout(pre, e, post);
    ScanStops(a, |pre|, |pre| + |e|, Limit(|pre|, maxBytes));
  }

  /** The bytes of a well-formed string's encoding decode back to it. */
  lemma DecodeEncoding(a: seq<Byte>, b: nat, s: JsString)
    requires WellFormed(s)
    requires b + |Encoding(s)| <= |a| && a[b..b + |Encoding(s)|] == Encoding(s)
    ensures DecodeFrom(a, b, b + |Encoding(s)|) == s
  {
    assert |s| > 0 ==> PairedAt(s, 0);
    EncodingPoints(s, 0);
    DecodeFlat(a, b, Points(s, 0), b + |Encoding(s)|);
    Utf16Points(s, 0);
    assert s[0..] == s;
  }

  /** Where the parts of pre + e + [0] + post are. */
  lemma Layout(pre: seq<Byte>, e: seq<Byte>, post: seq<Byte>)
    requires forall k :: 0 <= k < |e| ==> e[k] != 0
    ensures var a := pre + e + [0] + post;
      && a[|pre|..|pre| + |e|] == e
      && ByteAt(a, |pre| + |e|) == 0
      && forall j :: |pre| <= j < |pre| + |e| ==> ByteAt(a, j) != 0
  {
    var a := pre + e + [0] + post;
    forall j | |pre| <= j < |pre| + |e| ensures ByteAt(a, j) != 0 {
      assert a[j] == e[j - |pre|];
    }
    assert a[|pre|..|pre| + |e|] == e;
  }

  /** A scan from c over nonzero bytes, with a limit not before the 0 at z,
      ends at z. */
  lemma {:induction false} ScanStops(a: seq<Byte>, c: nat, z: nat, d: Option<int>)
    requires c <= z && ByteAt(a, z) == 0
    requires forall j :: c <= j < z ==> ByteAt(a, j) != 0
    requires d.Some? ==> d.value >= z
    ensures ScanEnd(a, c, d) == z
    decreases z - c
  {
    if c < z {
      ScanStops(a, c + 1, z, d);
    }
  }
}

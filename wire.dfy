/** The primitive field codec of WebsocketMessage (SerializeByte/Bool/Int/String and
    their Deserialize counterparts) as functions on a buffer's contents. A serializer
    writes at the `ref int offset` and advances it; a deserializer reads at the offset
    and returns the value with the advanced offset. A .NET exception is an `Err`. */
module Wire {
  import opened Runtime
  import opened Utf8

  /** A buffer's contents together with the serializer's `ref int offset`. */
  datatype Cursor = Cursor(bytes: seq<byte>, offset: int)

  /** A value read from a buffer and the offset just after it. */
  datatype Read<+T> = Read(value: T, next: int)

  /** `w` stands in `bytes` from index `at` on. */
  predicate Holds(bytes: seq<byte>, at: int, w: seq<byte>)
    decreases |w|
  {
    if w == [] then 0 <= at <= |bytes|
    else 0 <= at < |bytes| && bytes[at] == w[0] && Holds(bytes, at + 1, w[1..])
  }

  /** Holds, as a slice of the buffer. */
  lemma {:induction false} HoldsSlice(bytes: seq<byte>, at: int, w: seq<byte>)
    ensures Holds(bytes, at, w) <==> 0 <= at && at + |w| <= |bytes| && bytes[at..at + |w|] == w
    decreases |w|
  {
    if w != [] {
      HoldsSlice(bytes, at + 1, w[1..]);
      if 0 <= at && at + |w| <= |bytes| {
        assert bytes[at..at + |w|] == [bytes[at]] + bytes[at + 1..at + 1 + |w[1..]|];
        assert w == [w[0]] + w[1..];
      }
    }
  }

  /** A buffer whose end is `w1 + w2` has `w1` at the start of that end and `w2` after it. */
  lemma SliceSplit(bytes: seq<byte>, at: int, w1: seq<byte>, w2: seq<byte>)
    requires 0 <= at <= |bytes| && bytes[at..] == w1 + w2
    ensures at + |w1| <= |bytes| && bytes[at..at + |w1|] == w1 && bytes[at + |w1|..] == w2
  {
    assert bytes[at..at + |w1|] == (w1 + w2)[..|w1|];
    assert bytes[at + |w1|..] == (w1 + w2)[|w1|..];
  }

  /** Whether `w` fits into the buffer at the cursor. */
  predicate Fits(c: Cursor, w: seq<byte>) {
    0 <= c.offset && c.offset + |w| <= |c.bytes|
  }

  /** The cursor after `w` has been laid down at it. */
  function Write(c: Cursor, w: seq<byte>): (d: Cursor)
    requires Fits(c, w)
    ensures |d.bytes| == |c.bytes| && d.offset == c.offset + |w|
  {
    Cursor(Splice(c.bytes, c.offset, w), c.offset + |w|)
  }

  /** `bytes` with the window starting at `at` overwritten by `w`. */
  function Splice(bytes: seq<byte>, at: int, w: seq<byte>): (r: seq<byte>)
    requires 0 <= at && at + |w| <= |bytes|
    ensures |r| == |bytes|
  {
    bytes[..at] + w + bytes[at + |w|..]
  }

  /** A window as long as the buffer replaces all of it. */
  lemma SpliceWhole(bytes: seq<byte>, w: seq<byte>)
    requires |w| == |bytes|
    ensures Splice(bytes, 0, w) == w
  {
    assert bytes[..0] + w + bytes[|w|..] == w;
  }

  /** After a write, `w` stands where the cursor was. */
  lemma WriteHolds(c: Cursor, w: seq<byte>)
    requires Fits(c, w)
    ensures Holds(Write(c, w).bytes, c.offset, w)
  {
    SpliceHolds(c.bytes, c.offset, w);
  }

  /** After splicing, `w` stands where it was spliced in. */
  lemma SpliceHolds(bytes: seq<byte>, at: int, w: seq<byte>)
    requires 0 <= at && at + |w| <= |bytes|
    ensures Holds(Splice(bytes, at, w), at, w)
  {
    var r := Splice(bytes, at, w);
    assert r[at..at + |w|] == w;
    HoldsSlice(r, at, w);
  }

  /** Splicing leaves every byte outside the window as it was. */
  lemma SpliceOutside(bytes: seq<byte>, at: int, w: seq<byte>, i: int)
    requires 0 <= at && at + |w| <= |bytes|
    requires 0 <= i < |bytes| && !(at <= i < at + |w|)
    ensures Splice(bytes, at, w)[i] == bytes[i]
  {
  }

  /** The state after a write, as the method that performs it reports it:
      the new offset and contents on success, the exception otherwise. */
  predicate Performed(w: Result<Cursor>, r: Result<int>, after: seq<byte>) {
    match w
    case Ok(c) => r == Ok(c.offset) && after == c.bytes
    case Err(f) => r == Err(f)
  }

  // ------------------------------------------------------------------ byte

  /** SerializeByte: `buffer[offset] = b; offset++`. */
  function PutByte(c: Cursor, b: byte): Result<Cursor> {
    if 0 <= c.offset < |c.bytes| then Ok(Cursor(c.bytes[c.offset := b], c.offset + 1))
    else Err(IndexOutOfRange)
  }

  /** DeserializeByte */
  function GetByte(bytes: seq<byte>, offset: int): Result<Read<byte>> {
    if 0 <= offset < |bytes| then Ok(Read(bytes[offset], offset + 1))
    else Err(IndexOutOfRange)
  }

  // ------------------------------------------------------------------ bool

  /** The one byte a .NET bool occupies in memory. */
  function BoolByte(b: bool): byte {
    if b then 1 else 0
  }

  /** SerializeBool: CopyBytes stores the bool as raw memory, with no bounds
      check, so the caller has to leave room for it. */
  function PutBool(c: Cursor, b: bool): Cursor
    requires 0 <= c.offset < |c.bytes|
  {
    Cursor(c.bytes[c.offset := BoolByte(b)], c.offset + 1)
  }

  /** DeserializeBool: BitConverter.ToBoolean, true for every non-zero byte. */
  function GetBool(bytes: seq<byte>, offset: int): Result<Read<bool>> {
    if 0 <= offset < |bytes| then Ok(Read(bytes[offset] != 0, offset + 1))
    else Err(ArgumentOutOfRange)
  }

  // ------------------------------------------------------------------ int

  /** The four bytes of an int in memory: two's complement, little-endian. */
  function IntBytes(i: int32): (w: seq<byte>)
    ensures |w| == 4
  {
    var u := i as int % 0x1_0000_0000;
    [(u % 0x100) as byte, (u / 0x100 % 0x100) as byte,
     (u / 0x1_0000 % 0x100) as byte, (u / 0x100_0000) as byte]
  }

  /** BitConverter.ToUInt32 on four bytes (little-endian). */
  function UInt(w: seq<byte>): uint32
    requires |w| == 4
  {
    (w[0] as int + w[1] as int * 0x100 + w[2] as int * 0x1_0000 + w[3] as int * 0x100_0000) as uint32
  }

  /** BitConverter.ToInt32 on four bytes. */
  function Int(w: seq<byte>): int32
    requires |w| == 4
  {
    var u := UInt(w) as int;
    if u < 0x8000_0000 then u as int32 else (u - 0x1_0000_0000) as int32
  }

  /** SerializeInt: CopyBytes again, unchecked, so four bytes of room are required. */
  function PutInt(c: Cursor, i: int32): Cursor
    requires 0 <= c.offset && c.offset + 4 <= |c.bytes|
  {
    Cursor(Splice(c.bytes, c.offset, IntBytes(i)), c.offset + 4)
  }

  /** DeserializeInt: BitConverter.ToInt32. */
  function GetInt(bytes: seq<byte>, offset: int): Result<Read<int32>> {
    if !(0 <= offset < |bytes|) then Err(ArgumentOutOfRange)
    else if offset + 4 > |bytes| then Err(Argument)
    else Ok(Read(Int(bytes[offset..offset + 4]), offset + 4))
  }

  // ------------------------------------------------------------------ string

  /** What SerializeString lays down: `(byte)s.Length`, then Encoding.UTF8.GetBytes(s). */
  function StringBytes(s: string): seq<byte> {
    [ToByte(CsLength(s))] + Encode(s)
  }

  /** SerializeString: the length byte at `offset` (IndexOutOfRange if there is no
      room for it), the UTF-8 bytes after it (ArgumentException if they do not fit),
      then the offset advances by 1 + s.Length: by characters, not by bytes. */
  function PutString(c: Cursor, s: string): Result<Cursor> {
    if !(0 <= c.offset < |c.bytes|) then Err(IndexOutOfRange)
    else if c.offset + 1 + |Encode(s)| > |c.bytes| then Err(Argument)
    else Ok(Cursor(Splice(c.bytes, c.offset, StringBytes(s)), c.offset + 1 + CsLength(s)))
  }

  /** DeserializeString: a length byte, then that many bytes decoded as UTF-8
      (Encoding.GetString throws ArgumentOutOfRange if they run past the end). */
  function GetString(bytes: seq<byte>, offset: int): Result<Read<string>> {
    if !(0 <= offset < |bytes|) then Err(IndexOutOfRange)
    else
      var n := bytes[offset] as int;
      if offset + 1 + n > |bytes| then Err(ArgumentOutOfRange)
      else Ok(Read(Decode(bytes[offset + 1..offset + 1 + n]), offset + 1 + n))
  }

  /** Several SerializeString calls in a row. */
  function PutStrings(c: Cursor, ss: seq<string>): Result<Cursor>
    decreases |ss|
  {
    if ss == [] then Ok(c)
    else
      var c1 :- PutString(c, ss[0]);
      PutStrings(c1, ss[1..])
  }

  /** The bytes of a finished buffer, or the exception that stopped it. */
  function Written(r: Result<Cursor>): Result<seq<byte>> {
    match r
    case Ok(c) => Ok(c.bytes)
    case Err(f) => Err(f)
  }

  /** What PutStrings lays down when every string fits. */
  function StringsBytes(ss: seq<string>): seq<byte>
    decreases |ss|
  {
    if ss == [] then [] else StringBytes(ss[0]) + StringsBytes(ss[1..])
  }

  /** A string the codec carries faithfully: ASCII, at most 255 characters. */
  predicate Carried(s: string) {
    IsAscii(s) && |s| <= 0xFF
  }

  // ------------------------------------------------------------------ windows

  lemma HoldsConcat(bytes: seq<byte>, at: int, w1: seq<byte>, w2: seq<byte>)
    ensures Holds(bytes, at, w1 + w2) <==> Holds(bytes, at, w1) && Holds(bytes, at + |w1|, w2)
  {
    HoldsSlice(bytes, at, w1 + w2);
    HoldsSlice(bytes, at, w1);
    HoldsSlice(bytes, at + |w1|, w2);
    if Holds(bytes, at, w1) && Holds(bytes, at + |w1|, w2) {
      assert bytes[at..at + |w1 + w2|] == bytes[at..at + |w1|] + bytes[at + |w1|..at + |w1| + |w2|];
    }
    if Holds(bytes, at, w1 + w2) {
      assert bytes[at..at + |w1|] == (w1 + w2)[..|w1|];
      assert bytes[at + |w1|..at + |w1| + |w2|] == (w1 + w2)[|w1|..];
    }
  }

  /** Overwriting a window leaves a window that ends before it in place. */
  lemma HoldsAfterSplice(bytes: seq<byte>, at: int, w: seq<byte>, at0: int, w0: seq<byte>)
    requires 0 <= at && at + |w| <= |bytes|
    requires Holds(bytes, at0, w0) && at0 + |w0| <= at
    ensures Holds(Splice(bytes, at, w), at0, w0)
  {
    var r := Splice(bytes, at, w);
    HoldsSlice(bytes, at0, w0);
    HoldsSlice(r, at0, w0);
    assert r[at0..at0 + |w0|] == bytes[at0..at0 + |w0|];
  }

  /** Writing one byte and then a window just after it is splicing both at once. */
  lemma SpliceAfterByte(bytes: seq<byte>, at: int, b: byte, w: seq<byte>)
    requires 0 <= at && at + 1 + |w| <= |bytes|
    ensures Splice(bytes[at := b], at + 1, w) == Splice(bytes, at, [b] + w)
  {
    var left := Splice(bytes[at := b], at + 1, w);
    var right := Splice(bytes, at, [b] + w);
    assert forall i :: 0 <= i < |bytes| ==> left[i] == right[i];
  }

  /** A zero-filled buffer of n bytes, as `new byte[n]` allocates it. */
  function Zeros(n: nat): (z: seq<byte>)
    ensures |z| == n
  {
    seq(n, _ => 0)
  }

  /** A buffer filled from the front: a written prefix, then zeros. Writing a byte
      or a window at the end of the prefix extends the prefix. */
  lemma UpdateZeros(prefix: seq<byte>, m: nat, b: byte)
    requires 1 <= m
    ensures (prefix + Zeros(m))[|prefix| := b] == (prefix + [b]) + Zeros(m - 1)
  {
    var left := (prefix + Zeros(m))[|prefix| := b];
    var right := (prefix + [b]) + Zeros(m - 1);
    assert forall i :: 0 <= i < |left| ==> left[i] == right[i];
  }

  lemma SpliceZeros(prefix: seq<byte>, m: nat, w: seq<byte>)
    requires |w| <= m
    ensures Splice(prefix + Zeros(m), |prefix|, w) == (prefix + w) + Zeros(m - |w|)
  {
    var left := Splice(prefix + Zeros(m), |prefix|, w);
    var right := (prefix + w) + Zeros(m - |w|);
    assert forall i :: 0 <= i < |left| ==> left[i] == right[i];
  }

  /** Filling a zeroed buffer from the front, one field at a time. */
  lemma PutByteStep(prefix: seq<byte>, m: nat, b: byte)
    requires 1 <= m
    ensures PutByte(Cursor(prefix + Zeros(m), |prefix|), b) == Ok(Cursor(prefix + [b] + Zeros(m - 1), |prefix| + 1))
  {
    UpdateZeros(prefix, m, b);
  }

  lemma PutStringStep(prefix: seq<byte>, m: nat, s: string)
    requires IsAscii(s) && |StringBytes(s)| <= m
    ensures |StringBytes(s)| == 1 + |s|
    ensures PutString(Cursor(prefix + Zeros(m), |prefix|), s)
         == Ok(Cursor(prefix + StringBytes(s) + Zeros(m - |StringBytes(s)|), |prefix| + |StringBytes(s)|))
  {
    EncodeAscii(s);
    PutStringAscii(Cursor(prefix + Zeros(m), |prefix|), s);
    SpliceZeros(prefix, m, StringBytes(s));
  }

  lemma HoldsPrefix(w: seq<byte>, rest: seq<byte>)
    ensures Holds(w + rest, 0, w)
  {
    HoldsSlice(w + rest, 0, w);
    assert (w + rest)[..|w|] == w;
  }

  lemma HoldsMiddle(before: seq<byte>, w: seq<byte>, after: seq<byte>)
    ensures Holds(before + w + after, |before|, w)
  {
    HoldsSlice(before + w + after, |before|, w);
    assert (before + w + after)[|before|..|before| + |w|] == w;
  }

  // ------------------------------------------------------------------ properties

  /** SerializeByte then DeserializeByte gives the byte back; one byte is written
      and the offset moves by one. */
  lemma ByteRoundTrip(c: Cursor, b: byte)
    requires PutByte(c, b).Ok?
    ensures var d := PutByte(c, b).value;
      && d.offset == c.offset + 1
      && d.bytes == Splice(c.bytes, c.offset, [b])
      && GetByte(d.bytes, c.offset) == Ok(Read(b, d.offset))
  {
  }

  lemma BoolRoundTrip(c: Cursor, b: bool)
    requires 0 <= c.offset < |c.bytes|
    ensures var d := PutBool(c, b);
      && d.offset == c.offset + 1
      && d.bytes == Splice(c.bytes, c.offset, [BoolByte(b)])
      && GetBool(d.bytes, c.offset) == Ok(Read(b, d.offset))
  {
  }

  /** SerializeInt then DeserializeInt gives the int back, for every int. */
  lemma IntRoundTrip(c: Cursor, i: int32)
    requires 0 <= c.offset && c.offset + 4 <= |c.bytes|
    ensures var d := PutInt(c, i);
      && d.offset == c.offset + 4
      && GetInt(d.bytes, c.offset) == Ok(Read(i, d.offset))
  {
    var d := PutInt(c, i);
    assert d.bytes[c.offset..c.offset + 4] == IntBytes(i);
    IntBytesInverse(i);
  }

  lemma IntBytesInverse(i: int32)
    ensures Int(IntBytes(i)) == i
  {
    var u := i as int % 0x1_0000_0000;
    Split256(u);
    Split256(u / 0x100);
    Split256(u / 0x100 / 0x100);
    assert u / 0x100 / 0x100 == u / 0x1_0000;
    assert u / 0x1_0000 / 0x100 == u / 0x100_0000;
    var w := IntBytes(i);
    assert UInt(w) as int == u;
  }

  lemma Split256(v: int)
    requires 0 <= v
    ensures v == v / 0x100 * 0x100 + v % 0x100 && 0 <= v % 0x100 < 0x100
  {
  }

  /** What DeserializeString returns after SerializeString, for every string: the
      length byte says s.Length mod 256, so the first (s.Length mod 256) bytes of the
      UTF-8 form are decoded, and the offset moves by the same amount plus one. */
  lemma {:induction false} StringAsWritten(c: Cursor, s: string)
    requires PutString(c, s).Ok?
    ensures var d := PutString(c, s).value;
      && d.offset == c.offset + 1 + CsLength(s)
      && GetString(d.bytes, c.offset)
         == Ok(Read(Decode(Encode(s)[..CsLength(s) % 0x100]), c.offset + 1 + CsLength(s) % 0x100))
  {
    var d := PutString(c, s).value;
    var e := Encode(s);
    var n := CsLength(s) % 0x100;
    var at := c.offset;
    assert d.bytes == c.bytes[..at] + ([ToByte(CsLength(s))] + e) + c.bytes[at + 1 + |e|..];
    assert d.bytes[at] as int == n;
    assert n <= |e| by {
      CsLengthBelowEncode(s);
    }
    assert d.bytes[at + 1..at + 1 + n] == e[..n];
  }

  /** For an ASCII string the round trip returns the string cut to its length
      mod 256: whole strings of up to 255 characters, silently truncated beyond. */
  lemma {:induction false} StringRoundTripAscii(c: Cursor, s: string)
    requires IsAscii(s) && PutString(c, s).Ok?
    ensures var d := PutString(c, s).value;
      GetString(d.bytes, c.offset) == Ok(Read(s[..|s| % 0x100], c.offset + 1 + |s| % 0x100))
  {
    StringAsWritten(c, s);
    EncodeAscii(s);
    var n := |s| % 0x100;
    var e := Encode(s)[..n];
    assert forall i :: 0 <= i < |e| ==> e[i] < 0x80 by {
      forall i | 0 <= i < |e| ensures e[i] < 0x80 { assert e[i] as int == s[i] as int; }
    }
    DecodeAscii(e);
    assert Decode(e) == s[..n];
  }

  /** SerializeString then DeserializeString gives the string back and ends at the
      same offset, for ASCII strings of at most 255 characters. */
  lemma StringRoundTrip(c: Cursor, s: string)
    requires IsAscii(s) && |s| <= 0xFF && PutString(c, s).Ok?
    ensures var d := PutString(c, s).value;
      GetString(d.bytes, c.offset) == Ok(Read(s, d.offset))
  {
    StringRoundTripAscii(c, s);
    EncodeAscii(s);
    assert s[..|s| % 0x100] == s;
  }

  /** DeserializeString reads an ASCII string of at most 255 characters back from
      between any bytes before and after it. */
  lemma GetStringIn(before: seq<byte>, s: string, after: seq<byte>)
    requires IsAscii(s) && |s| <= 0xFF
    ensures |StringBytes(s)| == 1 + |s|
    ensures GetString(before + (StringBytes(s) + after), |before|) == Ok(Read(s, |before| + 1 + |s|))
  {
    EncodeAscii(s);
    HoldsMiddle(before, StringBytes(s), after);
    assert before + StringBytes(s) + after == before + (StringBytes(s) + after);
    GetStringAt(before + (StringBytes(s) + after), |before|, s);
  }

  /** Carried strings written one after the other into a zeroed tail fill it
      from the front with their StringBytes, each one byte longer than the string. */
  lemma {:induction false} PutStringsZeros(prefix: seq<byte>, m: nat, ss: seq<string>)
    requires forall s :: s in ss ==> Carried(s)
    requires |StringsBytes(ss)| <= m
    ensures PutStrings(Cursor(prefix + Zeros(m), |prefix|), ss)
         == Ok(Cursor(prefix + StringsBytes(ss) + Zeros(m - |StringsBytes(ss)|), |prefix| + |StringsBytes(ss)|))
    decreases |ss|
  {
    if ss == [] {
      assert prefix + [] == prefix;
    } else {
      var w := StringBytes(ss[0]);
      var rest := StringsBytes(ss[1..]);
      assert StringsBytes(ss) == w + rest;
      var c1 := Cursor(prefix + w + Zeros(m - |w|), |prefix| + |w|);
      assert PutString(Cursor(prefix + Zeros(m), |prefix|), ss[0]) == Ok(c1) by {
        assert Carried(ss[0]);
        PutStringStep(prefix, m, ss[0]);
      }
      var tail := prefix + w;
      assert forall s :: s in ss[1..] ==> s in ss;
      PutStringsZeros(tail, m - |w|, ss[1..]);
      assert c1 == Cursor(tail + Zeros(m - |w|), |tail|);
      assert tail + rest == prefix + StringsBytes(ss);
      assert m - |w| - |rest| == m - |StringsBytes(ss)|;
    }
  }

  lemma ConcatAssoc(a: seq<byte>, b: seq<byte>, c: seq<byte>)
    ensures a + (b + c) == (a + b) + c
  {
  }

  /** Two windows laid down one after the other are one window. */
  lemma WriteWrite(c: Cursor, w1: seq<byte>, w2: seq<byte>)
    requires Fits(c, w1 + w2)
    ensures Fits(c, w1) && Fits(Write(c, w1), w2)
    ensures Write(Write(c, w1), w2) == Write(c, w1 + w2)
  {
    var left := Splice(Splice(c.bytes, c.offset, w1), c.offset + |w1|, w2);
    var right := Splice(c.bytes, c.offset, w1 + w2);
    forall i | 0 <= i < |left| ensures left[i] == right[i] {
      if c.offset <= i < c.offset + |w1| + |w2| {
        assert (w1 + w2)[i - c.offset] == if i < c.offset + |w1| then w1[i - c.offset] else w2[i - c.offset - |w1|];
      }
    }
    assert left == right;
  }

  /** Laying down w and reading back: everything before the cursor is untouched. */
  lemma WriteKeeps(c: Cursor, w: seq<byte>, at0: int, w0: seq<byte>)
    requires Fits(c, w) && Holds(c.bytes, at0, w0) && at0 + |w0| <= c.offset
    ensures Holds(Write(c, w).bytes, at0, w0)
  {
    HoldsAfterSplice(c.bytes, c.offset, w, at0, w0);
  }

  lemma PutByteWrite(c: Cursor, b: byte)
    requires Fits(c, [b])
    ensures PutByte(c, b) == Ok(Write(c, [b]))
  {
    assert c.bytes[c.offset := b] == Splice(c.bytes, c.offset, [b]);
  }

  lemma PutStringsOne(c: Cursor, s: string)
    ensures PutStrings(c, [s]) == PutString(c, s)
  {
    assert [s][1..] == [];
  }

  lemma StringsBytesTwo(a: string, b: string)
    ensures StringsBytes([a, b]) == StringBytes(a) + StringBytes(b)
  {
    assert [a, b][1..] == [b];
    assert [b][1..] == [];
    assert StringsBytes([b]) == StringBytes(b) + StringsBytes([]);
  }

  lemma StringsBytesThree(a: string, b: string, c: string)
    ensures StringsBytes([a, b, c]) == StringBytes(a) + StringBytes(b) + StringBytes(c)
  {
    assert [a, b, c][1..] == [b, c];
    StringsBytesTwo(b, c);
  }

  /** A 256-character string is written with length byte 0 and reads back empty. */
  lemma LongStringReadsEmpty(c: Cursor, s: string)
    requires IsAscii(s) && |s| == 0x100 && PutString(c, s).Ok?
    ensures GetString(PutString(c, s).value.bytes, c.offset) == Ok(Read("", c.offset + 1))
    ensures PutString(c, s).value.offset == c.offset + 0x101
  {
    StringRoundTripAscii(c, s);
    EncodeAscii(s);
  }

  /** "é" is one character but two UTF-8 bytes: the offset advances by 2 while 3
      bytes are written, and the value read back is U+FFFD, not "é". */
  lemma NonAsciiStringBreaks()
    ensures var c := Cursor([0, 0, 0], 0);
      && PutString(c, "é") == Ok(Cursor([1, 0xC3, 0xA9], 2))
      && GetString([1, 0xC3, 0xA9], 0) == Ok(Read([Replacement], 2))
  {
    var c := Cursor([0, 0, 0], 0);
    assert EncodeChar('é') == [0xC3, 0xA9];
    assert Encode("é") == EncodeChar('é') + Encode("");
    assert CsLength("é") == 1;
    assert StringBytes("é") == [1, 0xC3, 0xA9];
    var b: seq<byte> := [1, 0xC3, 0xA9];
    assert Splice(c.bytes, 0, b) == [] + b + [];
    assert |Encode("é")| == 2;
    assert PutString(c, "é").Ok?;
    assert PutString(c, "é").value.offset == 2;
    assert PutString(c, "é").value.bytes == b;
    assert b[1..2] == [0xC3];
    var w: seq<byte> := [0xC3];
    assert ValidPrefix(w, 2, 1) == 1;
    assert w[1..] == [];
    assert Decode(w) == [Replacement];
  }

  /** For an ASCII string that fits, SerializeString lays down exactly StringBytes(s)
      and the offset moves past them. */
  lemma PutStringAscii(c: Cursor, s: string)
    requires IsAscii(s) && 0 <= c.offset && c.offset + |StringBytes(s)| <= |c.bytes|
    ensures PutString(c, s)
         == Ok(Cursor(Splice(c.bytes, c.offset, StringBytes(s)), c.offset + |StringBytes(s)|))
    ensures PutString(c, s) == Ok(Write(c, StringBytes(s)))
  {
    EncodeAscii(s);
  }

  /** DeserializeString reads an ASCII string of at most 255 characters from
      wherever its StringBytes stand. */
  lemma GetStringAt(bytes: seq<byte>, at: int, s: string)
    requires IsAscii(s) && |s| <= 0xFF && Holds(bytes, at, StringBytes(s))
    ensures GetString(bytes, at) == Ok(Read(s, at + |StringBytes(s)|))
  {
    EncodeAscii(s);
    var w := StringBytes(s);
    HoldsSlice(bytes, at, w);
    assert bytes[at] == w[0];
    assert bytes[at + 1..at + 1 + |s|] == w[1..] == Encode(s);
    DecodeEncode(s);
  }
}

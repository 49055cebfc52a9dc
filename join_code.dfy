/** Join codes: Lobby.GetUniqueKey draws `size` characters from a fixed alphabet,
    each from four random bytes read as a little-endian unsigned integer. The
    cryptographic random source is a parameter: `random(k)` is the k-th byte
    crypto.GetBytes writes into the buffer. */
module JoinCodes {
  import opened Runtime
  import opened Wire

  /** The alphabet of join codes: the 26 capital letters, then the digits 1-9 and 0. */
  const Chars: string := "ABCDEFGHIJKLMNOPQRSTUVWXYZ1234567890"

  /** C#'s unchecked 32-bit `int` arithmetic: `n` wrapped into the int32 range. */
  function Wrap32(n: int): (r: int)
    ensures -0x8000_0000 <= r < 0x8000_0000
    ensures (r - n) % 0x1_0000_0000 == 0
    ensures -0x8000_0000 <= n < 0x8000_0000 ==> r == n
  {
    (n + 0x8000_0000) % 0x1_0000_0000 - 0x8000_0000
  }

  /** The buffer crypto.GetBytes fills: `n` random bytes. */
  function Data(random: nat -> byte, n: nat): (data: seq<byte>)
    ensures |data| == n && forall k :: 0 <= k < n ==> data[k] == random(k)
  {
    if n == 0 then [] else Data(random, n - 1) + [random(n - 1)]
  }

  /** BitConverter.ToUInt32(data, start): ArgumentOutOfRange for a start outside
      the array, Argument when fewer than four bytes follow it. */
  function GetUInt(data: seq<byte>, start: int): Result<uint32> {
    if !(0 <= start < |data|) then Err(ArgumentOutOfRange)
    else if start > |data| - 4 then Err(Argument)
    else Ok(UInt(data[start..start + 4]))
  }

  /** The character a 32-bit random word selects: `chars[rnd % chars.Length]`, the
      length being 36. */
  function Pick(rnd: uint32): char {
    Chars[rnd as int % 36]
  }

  /** Every word selects a character of the alphabet. */
  lemma PickIn(rnd: uint32)
    ensures Pick(rnd) in Chars
  {
  }

  /** The `for` loop from index `i` on: the characters it appends, or the fault of
      the first word it cannot read. */
  function KeyFrom(data: seq<byte>, size: int, i: nat): Result<string>
    decreases size - i
  {
    if i >= size then Ok([])
    else
      var rnd :- GetUInt(data, Wrap32(i * 4));
      var rest :- KeyFrom(data, size, i + 1);
      Ok([Pick(rnd)] + rest)
  }

  /** GetUniqueKey(size): `new byte[4 * size]` throws Overflow when the wrapped
      product is negative, `new StringBuilder(size)` throws ArgumentOutOfRange for a
      negative size, then the loop. */
  function UniqueKey(size: int32, random: nat -> byte): Result<string> {
    var n := Wrap32(4 * size as int);
    if n < 0 then Err(Overflow)
    else if size < 0 then Err(ArgumentOutOfRange)
    else KeyFrom(Data(random, n), size as int, 0)
  }

  /** The characters appended so far in front of what the rest of the loop appends. */
  function Prefixed(done: string, rest: Result<string>): Result<string> {
    if rest.Ok? then Ok(done + rest.value) else rest
  }

  // ------------------------------------------------------------------ properties

  /** Every key is `size` characters long, and character `i` is the one the i-th
      four-byte word of the random data selects. */
  lemma {:induction false} KeyFromChars(data: seq<byte>, size: int, i: nat)
    requires size <= 0x2000_0000 && KeyFrom(data, size, i).Ok?
    ensures var key := KeyFrom(data, size, i).value;
      && |key| == (if i <= size then size - i else 0)
      && forall j :: i <= j < size ==>
           0 <= 4 * j && 4 * j + 4 <= |data| && key[j - i] == Pick(UInt(data[4 * j..4 * j + 4]))
    decreases size - i
  {
    if i < size {
      KeyFromChars(data, size, i + 1);
      var key, rest := KeyFrom(data, size, i).value, KeyFrom(data, size, i + 1).value;
      assert Wrap32(i * 4) == 4 * i;
      assert key == [Pick(GetUInt(data, 4 * i).value)] + rest;
      forall j | i <= j < size
        ensures 0 <= 4 * j && 4 * j + 4 <= |data| && key[j - i] == Pick(UInt(data[4 * j..4 * j + 4]))
      {
        if j > i {
          assert key[j - i] == rest[j - (i + 1)];
        }
      }
    }
  }

  /** With room for `size` words and no wrap-around, the loop never throws. */
  lemma {:induction false} KeyFromSucceeds(data: seq<byte>, size: int, i: nat)
    requires size < 0x2000_0000 && 4 * size <= |data|
    ensures KeyFrom(data, size, i).Ok?
    decreases size - i
  {
    if i < size {
      KeyFromSucceeds(data, size, i + 1);
    }
  }

  /** A word the loop cannot read before `size` makes the whole loop throw. */
  lemma {:induction false} KeyFromFails(data: seq<byte>, size: int, i: nat, j: nat)
    requires i <= j < size && GetUInt(data, Wrap32(j * 4)).Err?
    ensures KeyFrom(data, size, i).Err?
    decreases j - i
  {
    if i < j {
      KeyFromFails(data, size, i + 1, j);
    }
  }

  /** GetUniqueKey succeeds exactly for the sizes 0 <= size < 2^29, where 4 * size
      does not wrap around; then the key has `size` characters of the alphabet. */
  lemma UniqueKeySucceeds(size: int32, random: nat -> byte)
    ensures UniqueKey(size, random).Ok? <==> 0 <= size < 0x2000_0000
    ensures UniqueKey(size, random).Ok? ==>
      |UniqueKey(size, random).value| == size as int && forall c :: c in UniqueKey(size, random).value ==> c in Chars
  {
    var n := Wrap32(4 * size as int);
    if 0 <= size < 0x2000_0000 {
      KeyFromSucceeds(Data(random, n), size as int, 0);
      KeyFromChars(Data(random, n), size as int, 0);
      var key := UniqueKey(size, random).value;
      forall c | c in key
        ensures c in Chars
      {
        var j :| 0 <= j < |key| && key[j] == c;
        assert key[j] == Pick(UInt(Data(random, n)[4 * j..4 * j + 4]));
        PickIn(UInt(Data(random, n)[4 * j..4 * j + 4]));
      }
    } else if 0x2000_0000 <= size && n >= 0 {
      // 4 * size wrapped past 2^32: the buffer is 2^32 bytes short, and the word at
      // index size - 2^30 starts at its end.
      assert n == 4 * size as int - 0x1_0000_0000;
      var j := size as int - 0x4000_0000;
      KeyFromFails(Data(random, n), size as int, 0, j);
    }
  }

  /** Every string of the alphabet can come out: some random data yields it. */
  lemma EveryKeyPossible(size: int32, key: string)
    requires |key| == size as int < 0x2000_0000 && forall c :: c in key ==> c in Chars
    ensures exists random: nat -> byte :: UniqueKey(size, random) == Ok(key)
  {
    var idx := seq(|key|, j requires 0 <= j < |key| => IndexOf(Chars, key[j]) as byte);
    var random := Source(idx);
    var data := Data(random, 4 * |key|);
    KeyFromSucceeds(data, |key|, 0);
    KeyFromChars(data, |key|, 0);
    var got := KeyFrom(data, |key|, 0).value;
    forall j | 0 <= j < |key|
      ensures got[j] == key[j]
    {
      SourceWord(idx, j, data);
    }
    assert got == key;
    assert UniqueKey(size, random) == Ok(key);
  }

  /** Random data that selects the characters at positions `idx`: each position as
      the low byte of its word. */
  function Source(idx: seq<byte>): nat -> byte {
    (k: nat) => if k % 4 == 0 && k / 4 < |idx| then idx[k / 4] else 0
  }

  /** The j-th word of Source(idx) selects the character at position idx[j]. */
  lemma SourceWord(idx: seq<byte>, j: nat, data: seq<byte>)
    requires j < |idx| && (idx[j] as int) < |Chars| && |data| == 4 * |idx|
    requires forall k :: 0 <= k < |data| ==> data[k] == Source(idx)(k)
    ensures Pick(UInt(data[4 * j..4 * j + 4])) == Chars[idx[j]]
  {
    var w := data[4 * j..4 * j + 4];
    SourceByte(idx, j, 0);
    SourceByte(idx, j, 1);
    SourceByte(idx, j, 2);
    SourceByte(idx, j, 3);
    UIntLow(w);
    PickSmall(UInt(w));
  }

  /** Byte r of the j-th word of Source(idx): idx[j] for r = 0, else 0. */
  lemma SourceByte(idx: seq<byte>, j: nat, r: nat)
    requires j < |idx| && r < 4
    ensures Source(idx)(4 * j + r) == if r == 0 then idx[j] else 0
  {
    assert (4 * j + r) % 4 == r && (4 * j + r) / 4 == j;
  }

  /** A word whose three high bytes are zero is its low byte. */
  lemma UIntLow(w: seq<byte>)
    requires |w| == 4 && w[1] == 0 && w[2] == 0 && w[3] == 0
    ensures UInt(w) as int == w[0] as int
  {
  }

  /** A word below the alphabet's size selects the character at that position. */
  lemma PickSmall(rnd: uint32)
    requires (rnd as int) < |Chars|
    ensures Pick(rnd) == Chars[rnd]
  {
    assert rnd as int % 36 == rnd as int;
  }

  /** The first position of `c` in `s`. */
  function IndexOf(s: string, c: char): (k: nat)
    requires c in s
    ensures k < |s| && s[k] == c
  {
    if s[0] == c then 0 else 1 + IndexOf(s[1..], c)
  }

  // ------------------------------------------------------------------ methods

  /** BitConverter.ToUInt32(data, start) */
  method ToUInt32(data: array<byte>, start: int) returns (r: Result<uint32>)
    ensures r == GetUInt(data[..], start)
  {
    if !(0 <= start < data.Length) {
      return Err(ArgumentOutOfRange);
    }
    if start > data.Length - 4 {
      return Err(Argument);
    }
    r := Ok(UInt(data[start..start + 4]));
  }

  /** Lobby.GetUniqueKey(size) */
  method GetUniqueKey(size: int32, random: nat -> byte) returns (r: Result<string>)
    ensures r == UniqueKey(size, random)
  {
    var n := Wrap32(4 * size as int);
    UniqueKeyAllocs(size, random, n);
    if n < 0 {
      return Err(Overflow);
    }
    var data := new byte[n](k => random(k));
    if size < 0 {
      return Err(ArgumentOutOfRange);
    }
    DataIs(random, n, data[..]);
    UniqueKeyIsLoop(size, random, n, data[..]);
    r := KeyLoop(data, size as int);
  }

  /** The `for` loop of GetUniqueKey over the filled buffer. */
  method KeyLoop(data: array<byte>, size: int) returns (r: Result<string>)
    ensures r == KeyFrom(data[..], size, 0)
  {
    ghost var bytes := data[..];
    var result: string := [];
    var i: nat := 0;
    PrefixedEmpty(KeyFrom(bytes, size, 0));
    while i < size
      invariant (size < 0 || i <= size) && data[..] == bytes
      invariant Prefixed(result, KeyFrom(bytes, size, i)) == KeyFrom(bytes, size, 0)
    {
      var start := Wrap32(i * 4);
      var rnd := ToUInt32(data, start);
      KeyFromStep(bytes, size, i, result);
      if rnd.Err? {
        return Err(rnd.fault);
      }
      result := result + [Pick(rnd.value)];
      i := i + 1;
    }
    assert result + [] == result;
    r := Ok(result);
  }

  /** The two allocations' faults, ahead of the loop. */
  lemma UniqueKeyAllocs(size: int32, random: nat -> byte, n: int)
    requires n == Wrap32(4 * size as int)
    ensures n < 0 ==> UniqueKey(size, random) == Err(Overflow)
    ensures n >= 0 && size < 0 ==> UniqueKey(size, random) == Err(ArgumentOutOfRange)
  {
  }

  /** The buffer the generator fills is Data(random, n). */
  lemma DataIs(random: nat -> byte, n: nat, bytes: seq<byte>)
    requires |bytes| == n && forall k :: 0 <= k < n ==> bytes[k] == random(k)
    ensures bytes == Data(random, n)
  {
  }

  /** GetUniqueKey past its two allocations is the loop over Data(random, n). */
  lemma UniqueKeyIsLoop(size: int32, random: nat -> byte, n: int, bytes: seq<byte>)
    requires n == Wrap32(4 * size as int) && n >= 0 && size >= 0 && bytes == Data(random, n)
    ensures UniqueKey(size, random) == KeyFrom(bytes, size as int, 0)
  {
  }

  lemma PrefixedEmpty(rest: Result<string>)
    ensures Prefixed([], rest) == rest
  {
    if rest.Ok? {
      assert [] + rest.value == rest.value;
    }
  }

  /** One turn of the loop, in terms of the characters appended before it. */
  lemma KeyFromStep(data: seq<byte>, size: int, i: nat, done: string)
    requires i < size
    ensures match GetUInt(data, Wrap32(i * 4))
      case Ok(rnd) => Prefixed(done, KeyFrom(data, size, i)) == Prefixed(done + [Pick(rnd)], KeyFrom(data, size, i + 1))
      case Err(f) => Prefixed(done, KeyFrom(data, size, i)) == Err(f)
  {
    if GetUInt(data, Wrap32(i * 4)).Ok? && KeyFrom(data, size, i + 1).Ok? {
      var rnd, rest := GetUInt(data, Wrap32(i * 4)).value, KeyFrom(data, size, i + 1).value;
      assert done + ([Pick(rnd)] + rest) == done + [Pick(rnd)] + rest;
    }
  }

  /** Lobby.RandomJoinCode(): a key of four characters, which never throws. */
  method RandomJoinCode(random: nat -> byte) returns (r: Result<string>)
    ensures r.Ok? && |r.value| == 4 && forall c :: c in r.value ==> c in Chars
  {
    r := GetUniqueKey(4, random);
    UniqueKeySucceeds(4, random);
  }
}

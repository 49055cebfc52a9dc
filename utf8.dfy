/** C# strings and System.Text.Encoding.UTF8 as far as the wire codec uses them.
    A string is a sequence of Unicode scalar values; `string.Length` counts its
    UTF-16 code units, which is what the codec writes as a length. */
module Utf8 {
  import opened Runtime

  const Replacement: char := 0xFFFD as char

  predicate IsAscii(s: string) {
    forall i :: 0 <= i < |s| ==> s[i] < 0x80 as char
  }

  /** C#'s `s.Length`: one UTF-16 unit per character, two for one beyond the BMP. */
  function CsLength(s: string): (n: nat)
    ensures |s| <= n <= 2 * |s|
  {
    if s == [] then 0 else Units(s[0]) + CsLength(s[1..])
  }

  function Units(c: char): nat {
    if c as int < 0x10000 then 1 else 2
  }

  // ---------------------------------------------------------------- encoding

  /** The UTF-8 form of one scalar value (Unicode Standard, Table 3-6). */
  function EncodeChar(c: char): (r: seq<byte>)
    ensures |r| == Width(c)
  {
    var v := c as int;
    if v < 0x80 then [v as byte]
    else if v < 0x800 then [(0xC0 + v / 64) as byte, (0x80 + v % 64) as byte]
    else if v < 0x10000 then
      [(0xE0 + v / 4096) as byte, (0x80 + v / 64 % 64) as byte, (0x80 + v % 64) as byte]
    else
      [(0xF0 + v / 262144) as byte, (0x80 + v / 4096 % 64) as byte,
       (0x80 + v / 64 % 64) as byte, (0x80 + v % 64) as byte]
  }

  function Width(c: char): nat {
    var v := c as int;
    if v < 0x80 then 1 else if v < 0x800 then 2 else if v < 0x10000 then 3 else 4
  }

  /** Encoding.UTF8.GetBytes(s) */
  function Encode(s: string): (r: seq<byte>)
    ensures CsLength(s) <= |r|
    decreases |s|, 1
  {
    if s == [] then [] else EncodeFirst(s)
  }

  function EncodeFirst(s: string): (r: seq<byte>)
    requires s != []
    ensures CsLength(s) <= |r|
    decreases |s|, 0
  {
    EncodeChar(s[0]) + Encode(s[1..])
  }

  // ---------------------------------------------------------------- decoding

  /** Length of the well-formed sequence that `lead` starts; 0 if it starts none. */
  function SeqLength(lead: byte): nat {
    if lead < 0x80 then 1
    else if 0xC2 <= lead <= 0xDF then 2
    else if 0xE0 <= lead <= 0xEF then 3
    else if 0xF0 <= lead <= 0xF4 then 4
    else 0
  }

  /** Whether `b` may stand at position k (1..3) of a sequence led by `lead`
      (Unicode Standard, Table 3-7). */
  predicate TrailOk(lead: byte, k: nat, b: byte) {
    if k == 1 && lead == 0xE0 then 0xA0 <= b <= 0xBF
    else if k == 1 && lead == 0xED then 0x80 <= b <= 0x9F
    else if k == 1 && lead == 0xF0 then 0x90 <= b <= 0xBF
    else if k == 1 && lead == 0xF4 then 0x80 <= b <= 0x8F
    else 0x80 <= b <= 0xBF
  }

  /** A complete well-formed UTF-8 sequence of one scalar value. */
  predicate WellFormed(w: seq<byte>) {
    && 1 <= |w|
    && |w| == SeqLength(w[0])
    && forall k :: 1 <= k < |w| ==> TrailOk(w[0], k, w[k])
  }

  /** The longest prefix of b, at most n bytes, that starts a well-formed sequence;
      a shorter one is the "maximal subpart" replaced by one U+FFFD. */
  function ValidPrefix(b: seq<byte>, n: nat, k: nat): (r: nat)
    requires 1 <= k <= n <= |b| || (1 <= k <= |b| && k <= n)
    ensures k <= r <= n && r <= |b|
    ensures forall j :: 1 <= j < r ==> j < k || TrailOk(b[0], j, b[j])
    ensures r < n && r < |b| ==> !TrailOk(b[0], r, b[r])
    decreases n - k
  {
    if k < n && k < |b| && TrailOk(b[0], k, b[k]) then ValidPrefix(b, n, k + 1) else k
  }

  /** The scalar value a well-formed sequence encodes. */
  function CodePoint(w: seq<byte>): char
    requires WellFormed(w)
  {
    var b0 := w[0] as int;
    if |w| == 1 then b0 as char
    else if |w| == 2 then ((b0 - 0xC0) * 64 + (w[1] as int - 0x80)) as char
    else if |w| == 3 then
      var v := (b0 - 0xE0) * 4096 + (w[1] as int - 0x80) * 64 + (w[2] as int - 0x80);
      assert b0 == 0xE0 ==> 0x800 <= v;
      assert b0 == 0xED ==> v < 0xD800;
      assert b0 != 0xED ==> v < 0xD800 || 0xE000 <= v;
      v as char
    else
      var v := (b0 - 0xF0) * 262144 + (w[1] as int - 0x80) * 4096
               + (w[2] as int - 0x80) * 64 + (w[3] as int - 0x80);
      assert b0 == 0xF4 ==> v < 0x11_0000;
      v as char
  }

  /** Encoding.UTF8.GetString(b): well-formed sequences become their scalar
      values; every maximal ill-formed subpart becomes one U+FFFD. */
  function Decode(b: seq<byte>): string
    decreases |b|, 1
  {
    if b == [] then [] else DecodeFirst(b)
  }

  function DecodeFirst(b: seq<byte>): string
    requires b != []
    decreases |b|, 0
  {
      var n := SeqLength(b[0]);
      if n == 0 then [Replacement] + Decode(b[1..])
      else
        var k := ValidPrefix(b, n, 1);
        if k == n then [CodePoint(b[..n])] + Decode(b[n..])
        else [Replacement] + Decode(b[k..])
  }

  // ---------------------------------------------------------------- properties

  /** Decoding undoes encoding, for every string. */
  lemma {:induction false} DecodeEncode(s: string)
    ensures Decode(Encode(s)) == s
  {
    if s != [] {
      DecodeEncodeChar(s[0], Encode(s[1..]));
      DecodeEncode(s[1..]);
    }
  }

  lemma DecodeEncodeChar(c: char, rest: seq<byte>)
    ensures Decode(EncodeChar(c) + rest) == [c] + Decode(rest)
  {
    var w := EncodeChar(c);
    var b := w + rest;
    EncodeCharWellFormed(c);
    var n := |w|;
    assert b[..n] == w;
    assert b[n..] == rest;
    ValidPrefixWellFormed(b, n, 1);
  }

  /** A complete well-formed sequence at the start of b is its own maximal prefix. */
  lemma {:induction false} ValidPrefixWellFormed(b: seq<byte>, n: nat, k: nat)
    requires 1 <= k <= n <= |b| && WellFormed(b[..n])
    ensures ValidPrefix(b, n, k) == n
    decreases n - k
  {
    if k < n {
      assert b[..n][k] == b[k] && b[..n][0] == b[0];
      ValidPrefixWellFormed(b, n, k + 1);
    }
  }

  lemma EncodeCharWellFormed(c: char)
    ensures WellFormed(EncodeChar(c)) && CodePoint(EncodeChar(c)) == c
  {
    var v := c as int;
    if v < 0x80 {
    } else if v < 0x800 {
      Split64(v);
    } else if v < 0x10000 {
      Split64(v);
      Split64(v / 64);
      assert v / 4096 == v / 64 / 64;
    } else {
      Split64(v);
      Split64(v / 64);
      Split64(v / 4096);
      assert v / 4096 == v / 64 / 64;
      assert v / 262144 == v / 4096 / 64;
    }
  }

  lemma Split64(v: int)
    requires 0 <= v
    ensures v == v / 64 * 64 + v % 64 && 0 <= v % 64 < 64
  {
  }

  /** An ASCII string encodes to its own characters, one byte each. */
  lemma {:induction false} EncodeAscii(s: string)
    requires IsAscii(s)
    ensures |Encode(s)| == |s| == CsLength(s)
    ensures forall i :: 0 <= i < |s| ==> Encode(s)[i] as int == s[i] as int
  {
    if s != [] {
      assert IsAscii(s[1..]) by {
        forall i | 0 <= i < |s[1..]| ensures s[1..][i] < 0x80 as char { assert s[1..][i] == s[i + 1]; }
      }
      EncodeAscii(s[1..]);
      assert s[0] < 0x80 as char;
    }
  }

  /** C#'s length never exceeds the UTF-8 byte count, and equals it exactly for
      ASCII: for any other string the codec's offset falls short of the bytes written. */
  lemma {:induction false} CsLengthBelowEncode(s: string)
    ensures CsLength(s) <= |Encode(s)|
    ensures CsLength(s) == |Encode(s)| <==> IsAscii(s)
  {
    if s != [] {
      CsLengthBelowEncode(s[1..]);
      if IsAscii(s[1..]) && s[0] < 0x80 as char {
        forall i | 0 <= i < |s| ensures s[i] < 0x80 as char {
          if i > 0 { assert s[i] == s[1..][i - 1]; }
        }
      }
      if IsAscii(s) {
        assert IsAscii(s[1..]) by {
          forall i | 0 <= i < |s[1..]| ensures s[1..][i] < 0x80 as char { assert s[1..][i] == s[i + 1]; }
        }
      }
    }
  }

  /** Decoding an ASCII byte sequence gives the same characters. */
  lemma {:induction false} DecodeAscii(b: seq<byte>)
    requires forall i :: 0 <= i < |b| ==> b[i] < 0x80
    ensures |Decode(b)| == |b|
    ensures forall i :: 0 <= i < |b| ==> Decode(b)[i] as int == b[i] as int
  {
    if b != [] {
      assert b[..1] == [b[0]];
      DecodeAscii(b[1..]);
      assert Decode(b) == [b[0] as char] + Decode(b[1..]);
      forall i | 0 <= i < |b| ensures Decode(b)[i] as int == b[i] as int {
        if i > 0 { assert b[1..][i - 1] == b[i]; }
      }
    }
  }
}

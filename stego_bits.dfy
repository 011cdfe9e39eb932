/**
 * The bit strings of pkg/stego/meta.go: Go's `%b` / `%0Nb` formatting, base-2 parsing,
 * and the header-plus-body stream that the encoder writes.
 */
module StegoBits {
  import opened IntUtil

  type Bit = b: int | 0 <= b < 2

  /** A Unicode scalar value: what `for _, c := range s` yields for a valid UTF-8 Go string. */
  type Rune = c: int | 0 <= c < 0x11_0000 && !(0xD800 <= c < 0xE000)

  function Pow2(n: nat): (p: nat)
    ensures p >= 1
  {
    if n == 0 then 1 else 2 * Pow2(n - 1)
  }

  /** Go's `%b` of a non-negative value: its shortest binary numeral ("0" for zero), most significant digit first. */
  function Digits(n: nat): (d: seq<Bit>)
    ensures |d| >= 1
  {
    if n < 2 then [n] else Digits(n / 2) + [n % 2]
  }

  function Zeros(n: nat): (z: seq<Bit>)
    ensures |z| == n && forall i :: 0 <= i < n ==> z[i] == 0
  {
    seq(n, _ => 0)
  }

  /** Go's `%0<width>b`: the numeral left-padded with zeros to `width` digits; a wider numeral is kept whole. */
  function Padded(n: nat, width: nat): (d: seq<Bit>)
    ensures |d| == Max(width, |Digits(n)|)
  {
    var ds := Digits(n);
    if |ds| >= width then ds else Zeros(width - |ds|) + ds
  }

  /** The `width`-bit big-endian representation of n modulo 2^width. */
  function BigEndian(n: nat, width: nat): (d: seq<Bit>)
    ensures |d| == width
  {
    if width == 0 then [] else BigEndian(n / 2, width - 1) + [n % 2]
  }

  /** The value of a base-2 numeral, most significant bit first (`strconv.ParseUint(s, 2, ...)` without range limits). */
  function Value(bits: seq<Bit>): nat
  {
    if bits == [] then 0 else 2 * Value(bits[..|bits| - 1]) + bits[|bits| - 1]
  }

  /** Number of bytes of the UTF-8 encoding of one scalar value. */
  function Utf8Width(c: Rune): (n: nat)
    ensures 1 <= n <= 4
    ensures n == 1 <==> c < 0x80
  {
    if c < 0x80 then 1 else if c < 0x800 then 2 else if c < 0x1_0000 then 3 else 4
  }

  /** `len(meta)`: the byte length of the UTF-8 string whose scalar values are `meta`. */
  function Utf8Len(meta: seq<Rune>): (n: nat)
    ensures n >= |meta|
  {
    if meta == [] then 0 else Utf8Len(meta[..|meta| - 1]) + Utf8Width(meta[|meta| - 1])
  }

  predicate IsAscii(meta: seq<Rune>)
  {
    forall i :: 0 <= i < |meta| ==> meta[i] < 0x80
  }

  /** The body of the stream: `%08b` of every scalar value of `meta`, in order. */
  function MsgBits(meta: seq<Rune>): seq<Bit>
  {
    if meta == [] then [] else MsgBits(meta[..|meta| - 1]) + Padded(meta[|meta| - 1], 8)
  }

  /** The whole stream the encoder writes: `%032b` of the byte length, then the body. */
  function FullBits(meta: seq<Rune>): seq<Bit>
  {
    Padded(Utf8Len(meta), 32) + MsgBits(meta)
  }

  // ---- properties of the formatting ----

  lemma Utf8LenOne(c: Rune)
    ensures Utf8Len([c]) == Utf8Width(c)
  {
    assert [c][..0] == [];
  }

  lemma MsgBitsOne(c: Rune)
    ensures MsgBits([c]) == Padded(c, 8)
  {
    assert [c][..0] == [];
  }

  /** The two parts of a concatenation are found again by slicing at the first one's length. */
  lemma SplitAt(a: seq<Bit>, b: seq<Bit>, s: seq<Bit>)
    requires s == a + b
    ensures s[0 .. |a|] == a && s[|a| .. |a| + |b|] == b
  {
  }

  lemma PrefixSlice(a: seq<Bit>, b: seq<Bit>, lo: nat, hi: nat)
    requires lo <= hi <= |a|
    ensures (a + b)[lo .. hi] == a[lo .. hi]
  {
  }

  lemma {:induction false} ValueBigEndian(n: nat, width: nat)
    requires n < Pow2(width)
    ensures Value(BigEndian(n, width)) == n
  {
    if width > 0 {
      var d := BigEndian(n, width);
      assert d[..width - 1] == BigEndian(n / 2, width - 1);
      ValueBigEndian(n / 2, width - 1);
    }
  }

  lemma {:induction false} ValueBound(bits: seq<Bit>)
    ensures Value(bits) < Pow2(|bits|)
  {
    if bits != [] {
      ValueBound(bits[..|bits| - 1]);
    }
  }

  lemma {:induction false} DigitsAreBigEndian(n: nat)
    ensures n < Pow2(|Digits(n)|)
    ensures Digits(n) == BigEndian(n, |Digits(n)|)
  {
    if n >= 2 {
      DigitsAreBigEndian(n / 2);
    }
  }

  lemma {:induction false} DigitsFit(n: nat, width: nat)
    requires 1 <= width && n < Pow2(width)
    ensures |Digits(n)| <= width
  {
    if n >= 2 {
      DigitsFit(n / 2, width - 1);
    }
  }

  lemma {:induction false} BigEndianWiden(n: nat, m: nat, width: nat)
    requires m <= width && n < Pow2(m)
    ensures BigEndian(n, width) == Zeros(width - m) + BigEndian(n, m)
  {
    if width > m {
      BigEndianWiden(n, m, width - 1);
      Pow2Grows(m, width - 1);
      BigEndianZero(n, width);
    }
  }

  lemma {:induction false} Pow2Grows(m: nat, k: nat)
    requires m <= k
    ensures Pow2(m) <= Pow2(k)
  {
    if m < k {
      Pow2Grows(m, k - 1);
    }
  }

  /** A value below 2^(width-1) has a leading zero in its width-bit representation. */
  lemma {:induction false} BigEndianZero(n: nat, width: nat)
    requires 0 < width && n < Pow2(width - 1)
    ensures BigEndian(n, width) == [0] + BigEndian(n, width - 1)
  {
    if width > 1 {
      BigEndianZero(n / 2, width - 1);
    }
  }

  /** For a value that fits, `%0<width>b` is the exact width-bit big-endian representation. */
  lemma PaddedFits(n: nat, width: nat)
    requires 1 <= width && n < Pow2(width)
    ensures Padded(n, width) == BigEndian(n, width)
  {
    DigitsFit(n, width);
    DigitsAreBigEndian(n);
    BigEndianWiden(n, |Digits(n)|, width);
  }

  lemma {:induction false} Pow2Add(a: nat, b: nat)
    ensures Pow2(a + b) == Pow2(a) * Pow2(b)
  {
    if a > 0 {
      Pow2Add(a - 1, b);
    }
  }

  lemma Pow2Of32()
    ensures Pow2(8) == 256 && Pow2(32) == 0x1_0000_0000
  {
    assert Pow2(8) == 256;
    Pow2Add(8, 8);
    Pow2Add(16, 16);
  }

  /** `%08b` of a scalar value of 256 or more has more than 8 digits, so it takes more than one stream byte. */
  lemma WideRuneMoreThanEightBits(c: Rune)
    requires c >= 256
    ensures |Padded(c, 8)| > 8
  {
    assert Pow2(8) == 256;
    if |Digits(c)| <= 8 {
      DigitsAreBigEndian(c);
      Pow2Grows(|Digits(c)|, 8);
    }
  }

  lemma {:induction false} AsciiUtf8Len(meta: seq<Rune>)
    requires IsAscii(meta)
    ensures Utf8Len(meta) == |meta|
  {
    if meta != [] {
      AsciiUtf8Len(meta[..|meta| - 1]);
    }
  }

  /** For an ASCII payload the body is exactly 8 bits per character, each the character's big-endian byte. */
  lemma {:induction false} AsciiMsgBits(meta: seq<Rune>)
    requires IsAscii(meta)
    ensures |MsgBits(meta)| == 8 * |meta|
    ensures forall g :: 0 <= g < |meta| ==> MsgBits(meta)[8 * g .. 8 * g + 8] == BigEndian(meta[g], 8)
  {
    if meta != [] {
      var init, last := meta[..|meta| - 1], meta[|meta| - 1];
      assert IsAscii(init) by {
        forall i | 0 <= i < |init|
          ensures init[i] < 0x80
        {
          assert init[i] == meta[i];
        }
      }
      AsciiMsgBits(init);
      AsciiByte(last);
      var a, b, m := MsgBits(init), Padded(last, 8), MsgBits(meta);
      assert m == a + b;
      forall g | 0 <= g < |meta|
        ensures m[8 * g .. 8 * g + 8] == BigEndian(meta[g], 8)
      {
        if g < |init| {
          PrefixSlice(a, b, 8 * g, 8 * g + 8);
          assert meta[g] == init[g];
        } else {
          SplitAt(a, b, m);
        }
      }
    }
  }

  /** `%08b` of an ASCII value is its 8-bit big-endian form. */
  lemma AsciiByte(c: Rune)
    requires c < 0x80
    ensures Padded(c, 8) == BigEndian(c, 8) && |Padded(c, 8)| == 8
  {
    Pow2Of32();
    PaddedFits(c, 8);
  }

  /** The scalar values `string(byte(v))` appends for each complete 8-bit group; a trailing partial group is dropped. */
  function Bytes(bits: seq<Bit>): (r: seq<Rune>)
    ensures |r| == |bits| / 8
    ensures forall g :: 0 <= g < |r| ==> r[g] == Group(bits, g)
  {
    seq(|bits| / 8, g requires 0 <= g < |bits| / 8 => Group(bits, g))
  }

  /** The value of the g-th complete 8-bit group. */
  function Group(bits: seq<Bit>, g: nat): (v: Rune)
    requires g < |bits| / 8
    ensures 8 * g + 8 <= |bits| && v == Value(bits[8 * g .. 8 * g + 8]) < 256
  {
    assert 8 * g + 8 <= 8 * (|bits| / 8) <= |bits|;
    ByteValue(bits[8 * g .. 8 * g + 8])
  }

  /** Regrouping one more complete group appends its value. */
  lemma BytesSnoc(bits: seq<Bit>, i: nat)
    requires i % 8 == 0 && i + 8 <= |bits|
    ensures Bytes(bits[..i + 8]) == Bytes(bits[..i]) + [ByteValue(bits[i .. i + 8])]
  {
    var a, b := Bytes(bits[..i + 8]), Bytes(bits[..i]) + [ByteValue(bits[i .. i + 8])];
    assert |a| == |b|;
    forall g | 0 <= g < |a|
      ensures a[g] == b[g]
    {
      if g < i / 8 {
        assert bits[..i + 8][8 * g .. 8 * g + 8] == bits[8 * g .. 8 * g + 8] == bits[..i][8 * g .. 8 * g + 8];
      } else {
        assert bits[..i + 8][8 * g .. 8 * g + 8] == bits[i .. i + 8];
      }
    }
  }

  /** `strconv.ParseUint(s, 2, 8)` of an 8-digit numeral, as the scalar value `string(byte(v))` denotes. */
  function ByteValue(bits: seq<Bit>): (v: Rune)
    requires |bits| == 8
    ensures v == Value(bits) < 256
  {
    ValueBound(bits);
    assert Pow2(8) == 256;
    Value(bits)
  }

  /** Regrouping any prefix of the body of an ASCII payload gives back the characters it holds completely. */
  lemma BytesOfAsciiPrefix(meta: seq<Rune>, len: nat)
    requires IsAscii(meta) && len <= 8 * |meta|
    ensures |MsgBits(meta)| == 8 * |meta|
    ensures Bytes(MsgBits(meta)[..len]) == meta[..len / 8]
  {
    AsciiMsgBits(meta);
    var bits := MsgBits(meta)[..len];
    forall g | 0 <= g < len / 8
      ensures Bytes(bits)[g] == meta[g]
    {
      assert bits[8 * g .. 8 * g + 8] == MsgBits(meta)[8 * g .. 8 * g + 8];
      assert Pow2(8) == 256;
      ValueBigEndian(meta[g], 8);
    }
  }
}

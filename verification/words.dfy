/** 32-bit words of the sector buffer and the bytes the loader derives from them. */
module Words {

  /** The C `int` the loader reads from the sector buffer: 32-bit two's complement. */
  type int32 = x: int | -0x8000_0000 <= x < 0x8000_0000

  /** One value written to the BOOTDATA port. */
  type byte = x: int | 0 <= x < 0x100

  const TwoTo32: int := 0x1_0000_0000

  function Pow2(k: nat): (r: nat)
    ensures r >= 1
  {
    if k == 0 then 1 else 2 * Pow2(k - 1)
  }

  /** The unsigned bit pattern of a word, `t mod 2^32`. */
  function Unsigned(t: int32): (u: nat)
    ensures u < TwoTo32
    ensures u == t || u == t + TwoTo32
  {
    if t < 0 then t + TwoTo32 else t
  }

  /** The four bytes the loader writes for word `t`, in write order: the signed
      word shifted right by 24, 16, 8 and 0 bits, each masked to its low 8 bits.
      For a positive divisor Dafny's `/` is floor division, which is what an
      arithmetic shift right computes, and `% 256` is the non-negative residue,
      which is what masking with 255 keeps; so these are exact for negative `t` too. */
  function WordBytes(t: int32): (bs: seq<byte>)
    ensures |bs| == 4
  {
    [(t / 0x100_0000) % 0x100, (t / 0x1_0000) % 0x100, (t / 0x100) % 0x100, t % 0x100]
  }

  /** Reference encoding: the base-256 digits of an unsigned 32-bit value,
      most significant first. */
  function Digits(u: nat): (bs: seq<byte>)
    requires u < TwoTo32
    ensures |bs| == 4
  {
    [u / 0x100_0000, (u / 0x1_0000) % 0x100, (u / 0x100) % 0x100, u % 0x100]
  }

  /** Reassembles four bytes, most significant first, into an unsigned value. */
  function Pack(bs: seq<byte>): (u: nat)
    requires |bs| == 4
    ensures u < TwoTo32
  {
    var b0: int, b1: int, b2: int, b3: int := bs[0], bs[1], bs[2], bs[3];
    ((b0 * 0x100 + b1) * 0x100 + b2) * 0x100 + b3
  }

  /** Euclidean division is determined by any decomposition with an in-range remainder. */
  lemma DivModUnique(t: int, m: int, q: int, r: int)
    requires m > 0 && 0 <= r < m && t == m * q + r
    ensures t / m == q && t % m == r
  {
    var q', r' := t / m, t % m;
    assert m * q' + r' == m * q + r;
    MulDistinct(m, q', q, r' , r);
  }

  lemma MulDistinct(m: int, a: int, b: int, ra: int, rb: int)
    requires m > 0 && 0 <= ra < m && 0 <= rb < m
    requires m * a + ra == m * b + rb
    ensures a == b && ra == rb
  {
    assert m * (a - b) == rb - ra;
    if a > b {
      MulAtLeast(m, a - b);
    } else if a < b {
      MulAtLeast(m, b - a);
    }
  }

  lemma MulAtLeast(m: int, d: int)
    requires m > 0 && d >= 1
    ensures m * d >= m
  {
  }

  /** Dividing by 256 twice divides by the product: shifts compose. */
  lemma DivDiv256(t: int, d: int)
    requires d > 0
    ensures t / d / 0x100 == t / (d * 0x100)
    ensures (t / d) % 0x100 == (t / d) - 0x100 * (t / (d * 0x100))
  {
    var q := t / d;
    var r := t % d;
    var q2 := q / 0x100;
    var r2 := q % 0x100;
    assert t == d * q + r;
    assert q == 0x100 * q2 + r2;
    assert d * q == (d * 0x100) * q2 + d * r2 by {
      MulRegroup(d, q2, r2);
    }
    assert 0 <= d * r2 <= d * 0xFF by {
      MulMono(d, r2, 0xFF);
    }
    DivModUnique(t, d * 0x100, q2, d * r2 + r);
  }

  lemma MulRegroup(d: int, q2: int, r2: int)
    ensures d * (0x100 * q2 + r2) == (d * 0x100) * q2 + d * r2
  {
  }

  lemma MulMono(d: int, a: int, b: int)
    requires d > 0 && 0 <= a <= b
    ensures 0 <= d * a <= d * b
  {
  }

  /** The bytes written for `t` reassemble into its bit pattern. */
  lemma PackWordBytes(t: int32)
    ensures Pack(WordBytes(t)) == Unsigned(t)
  {
    var q1, b3 := t / 0x100, t % 0x100;
    DivDiv256(t, 0x100);
    DivDiv256(t, 0x1_0000);
    DivDiv256(t, 0x100_0000);
    var q2, b2 := t / 0x1_0000, (t / 0x100) % 0x100;
    var q3, b1 := t / 0x100_0000, (t / 0x1_0000) % 0x100;
    var q4, b0 := t / TwoTo32, (t / 0x100_0000) % 0x100;
    assert q1 == 0x100 * q2 + b2;
    assert q2 == 0x100 * q3 + b1;
    assert q3 == 0x100 * q4 + b0;
    assert t == TwoTo32 * q4 + (((b0 * 0x100 + b1) * 0x100 + b2) * 0x100 + b3);
    DivModUnique(t, TwoTo32, q4, Pack(WordBytes(t)));
    assert Unsigned(t) == t % TwoTo32;
  }

  /** Reading the digits of a packed value gives back the bytes. */
  lemma {:induction false} DigitsPack(bs: seq<byte>)
    requires |bs| == 4
    ensures Digits(Pack(bs)) == bs
  {
    var u := Pack(bs);
    var b0: int, b1: int, b2: int, b3: int := bs[0], bs[1], bs[2], bs[3];
    var h1 := b0 * 0x100 + b1;
    var h2 := h1 * 0x100 + b2;
    DivModUnique(u, 0x100, h2, b3);
    DivModUnique(u, 0x1_0000, h1, b2 * 0x100 + b3);
    DivModUnique(h2, 0x100, h1, b2);
    DivModUnique(u, 0x100_0000, b0, (b1 * 0x100 + b2) * 0x100 + b3);
    DivModUnique(h1, 0x100, b0, b1);
  }

  /** Packing the digits of a value gives back the value. */
  lemma PackDigits(u: nat)
    requires u < TwoTo32
    ensures Pack(Digits(u)) == u
  {
    var t: int32 := if u < 0x8000_0000 then u else u - TwoTo32;
    PackWordBytes(t);
    DivDiv256(u, 0x100);
    DivDiv256(u, 0x1_0000);
    DivDiv256(u, 0x100_0000);
    DivDiv256(t, 0x100);
    DivDiv256(t, 0x1_0000);
    DivDiv256(t, 0x100_0000);
    assert WordBytes(t) == Digits(u) by {
      if t != u {
        assert u == t + TwoTo32;
        DivModUnique(u, 0x100_0000, t / 0x100_0000 + 0x100, t % 0x100_0000);
        DivModUnique(u, 0x1_0000, t / 0x1_0000 + 0x1_0000, t % 0x1_0000);
        DivModUnique(u, 0x100, t / 0x100 + 0x100_0000, t % 0x100);
      }
    }
  }

  /** Byte order of the port stream relative to the word value: the loader
      writes the big-endian digits of the word's bit pattern. */
  lemma WordBytesAreDigits(t: int32)
    ensures WordBytes(t) == Digits(Unsigned(t))
  {
    PackWordBytes(t);
    DigitsPack(WordBytes(t));
  }

  /** Two words give the same four bytes only if they are the same word. */
  lemma WordBytesInjective(s: int32, t: int32)
    requires WordBytes(s) == WordBytes(t)
    ensures s == t
  {
    PackWordBytes(s);
    PackWordBytes(t);
  }

  /** The byte extraction of boot.c:84-88 on one word: `t1` is the lowest byte,
      `t4` the highest. Written t4 first, the bytes are the word's base-256
      digits, and they reassemble into its bit pattern. */
  method SplitWord(t: int32) returns (t1: byte, t2: byte, t3: byte, t4: byte)
    ensures [t4, t3, t2, t1] == Digits(Unsigned(t))
    ensures Pack([t4, t3, t2, t1]) == Unsigned(t)
  {
    t1 := t % 0x100;
    t2 := (t / 0x100) % 0x100;
    t3 := (t / 0x1_0000) % 0x100;
    t4 := (t / 0x100_0000) % 0x100;
    assert [t4, t3, t2, t1] == WordBytes(t);
    WordBytesAreDigits(t);
    PackWordBytes(t);
  }

  /** Byte order of the memory a word is loaded from. */
  datatype Endianness = BigEndian | LittleEndian

  /** The signed word a 4-byte group of the buffer reads as through an `int*`.
      On a big-endian target the group goes to the port in buffer order; on a
      little-endian target it goes reversed. */
  function LoadWord(group: seq<byte>, e: Endianness): (t: int32)
    requires |group| == 4
    ensures e.BigEndian? ==> WordBytes(t) == group
    ensures e.LittleEndian? ==> WordBytes(t) == [group[3], group[2], group[1], group[0]]
  {
    var msbFirst := if e.BigEndian? then group else [group[3], group[2], group[1], group[0]];
    var u := Pack(msbFirst);
    var t: int32 := if u < 0x8000_0000 then u else u - TwoTo32;
    assert Unsigned(t) == u;
    WordBytesAreDigits(t);
    DigitsPack(msbFirst);
    t
  }
}

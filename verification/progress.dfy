/** The progress-bar scale `bits` computed once per attempt
    (rtl/loader/firmware/boot.c:64-74). */
module Progress {
  import opened Words
  import Storage

  /** Number of significant bits of `n`; 0 for 0. */
  function BitLength(n: nat): (r: nat)
    ensures r == 0 <==> n == 0
  {
    if n == 0 then 0 else 1 + BitLength(n / 2)
  }

  /** The highest set bit of a positive `n` is bit BitLength(n) - 1. */
  lemma {:induction false} BitLengthBounds(n: nat)
    requires n > 0
    ensures Pow2(BitLength(n) - 1) <= n < Pow2(BitLength(n))
  {
    if n > 1 {
      BitLengthBounds(n / 2);
    }
  }

  lemma {:induction false} Pow2Mono(a: nat, b: nat)
    requires a <= b
    ensures Pow2(a) <= Pow2(b)
    decreases b
  {
    if a < b {
      Pow2Mono(a, b - 1);
    }
  }

  /** The bounds determine the bit length. */
  lemma BitLengthUnique(n: nat, k: nat)
    requires k >= 1 && Pow2(k - 1) <= n < Pow2(k)
    ensures BitLength(n) == k
  {
    BitLengthBounds(n);
    var b := BitLength(n);
    if b < k {
      Pow2Mono(b, k - 1);
    } else if b > k {
      Pow2Mono(k, b - 1);
    }
  }

  lemma {:induction false} BitLengthMono(a: nat, b: nat)
    requires a <= b
    ensures BitLength(a) <= BitLength(b)
    decreases b
  {
    if a > 0 {
      BitLengthMono(a / 2, b / 2);
    }
  }

  /** The scale the loader passes to every progress-bar call. */
  function Scale(size: Storage.FileSize): int {
    BitLength(size) - 9
  }

  /** The loop of boot.c:68-74: count the shifts until `c` is 0, then subtract 9.
      It leaves `c` at 0, which is the counter of the first progress-bar call. */
  method ComputeScale(filesize: Storage.FileSize) returns (bits: int, c: nat)
    ensures c == 0
    ensures bits == Scale(filesize)
    ensures filesize == 0 ==> bits == -9
    ensures filesize > 0 ==> bits >= -8 && Pow2(bits + 8) <= filesize < Pow2(bits + 9)
  {
    bits := 0;
    c := filesize;
    while c != 0
      invariant bits >= 0
      invariant bits + BitLength(c) == BitLength(filesize)
      decreases c
    {
      bits := bits + 1;
      c := c / 2;
    }
    bits := bits - 9;
    if filesize > 0 {
      BitLengthBounds(filesize);
    }
  }

  /** A larger file never gets a smaller scale. */
  lemma ScaleMonotonic(a: Storage.FileSize, b: Storage.FileSize)
    requires a <= b
    ensures Scale(a) <= Scale(b)
  {
    BitLengthMono(a, b);
  }

  /** The values for the sizes an image of 512 or 1024 bytes has: bits is the
      bit length minus 9, so a one-sector file already gets 1. */
  lemma ScaleExamples()
    ensures Scale(0) == -9
    ensures Scale(511) == 0
    ensures Scale(512) == 1
    ensures Scale(1023) == 1
    ensures Scale(1024) == 2
  {
    Pow2Small();
    BitLengthUnique(511, 9);
    BitLengthUnique(512, 10);
    BitLengthUnique(1023, 10);
    BitLengthUnique(1024, 11);
  }

  lemma Pow2Small()
    ensures Pow2(8) == 256 && Pow2(9) == 512 && Pow2(10) == 1024 && Pow2(11) == 2048
  {
    assert Pow2(2) == 4;
    assert Pow2(4) == 16;
    assert Pow2(6) == 64;
    assert Pow2(8) == 256;
  }

  lemma {:induction false} Pow2Plus9(k: nat)
    ensures Pow2(k + 9) == 512 * Pow2(k)
  {
    if k > 0 {
      Pow2Plus9(k - 1);
    } else {
      Pow2Small();
    }
  }

  /** For a file of at least one sector, the number of sectors, which is the
      count of progress-bar calls, lies between 2^(bits-1) and 2^bits. */
  lemma SectorCountFitsScale(size: Storage.FileSize)
    requires size >= Storage.SectorSize
    ensures Scale(size) >= 1
    ensures Pow2(Scale(size) - 1) <= Storage.SectorCount(size) <= Pow2(Scale(size))
  {
    BitLengthBounds(size);
    BitLengthMono(512, size);
    BitLengthUnique(512, 10);
    var bits := Scale(size);
    var n := Storage.SectorCount(size);
    var p := Pow2(bits - 1);
    Pow2Plus9(bits);
    Pow2Plus9(bits - 1);
    assert Pow2(bits) == 2 * p;
    assert 256 * Pow2(bits) <= size < 512 * Pow2(bits);
    assert 512 * p <= 512 * n;
    assert 512 * (n - 1) < 512 * Pow2(bits);
  }
}

/** trunczerotail.cpp: a file is cut off behind the last block that holds data. */
module TruncZeroTail {
  import opened Common
  import opened Win32File
  import opened Euclid

  // ----- the block size

  function Pow2(k: nat): (p: nat)
    ensures p > 0
  {
    if k == 0 then 1 else 2 * Pow2(k - 1)
  }

  /** (bufsiz & ~0x1FF) | 0x200 */
  function Masked(bufsiz: nat): nat {
    var q := bufsiz / 512;
    512 * (if q % 2 == 0 then q + 1 else q)
  }

  function Max(a: nat, b: nat): nat { if a < b then b else a }

  lemma {:induction false} Pow2Steps(k: nat, j: nat)
    requires j <= k
    ensures Pow2(k) == Pow2(j) * Pow2(k - j)
    decreases j
  {
    if j > 0 {
      Pow2Steps(k, j - 1);
      Regroup(2, Pow2(j - 1), Pow2(k - j));
      Regroup(Pow2(j - 1), 2, Pow2(k - j));
    }
  }

  lemma {:induction false} Pow2Grows(j: nat, k: nat)
    requires j < k
    ensures 2 * Pow2(j) <= Pow2(k)
    decreases k
  {
    if j + 1 < k {
      Pow2Grows(j, k - 1);
    }
  }

  lemma Pow2Is512()
    ensures Pow2(9) == 512
  {
    assert Pow2(3) == 8 && Pow2(6) == 64;
  }

  /** The masked size is an odd number of sectors: those the size fills, or one more. */
  lemma MaskedIsOdd(bufsiz: nat) returns (q: nat, h: nat)
    ensures 512 * q <= bufsiz < 512 * q + 512
    ensures Masked(bufsiz) == 512 * (2 * h + 1)
    ensures 2 * h <= q <= 2 * h + 1
  {
    q, h := bufsiz / 512, bufsiz / 512 / 2;
  }

  /** No power of two above 1 is odd, so an odd number and the number below it, if that is not
      zero, lie between the same powers of two. */
  lemma OddIsClose(d: nat, k: nat, h: nat, q: nat, bufsiz: nat)
    requires d == Pow2(k) && d <= 2 * h + 1 < 2 * d
    requires 2 * h <= q <= 2 * h + 1 && 512 * q <= bufsiz < 512 * q + 512
    ensures 512 <= 512 * d <= Max(bufsiz, 512) < 1024 * d
  {
    if k > 0 {
      assert d == 2 * Pow2(k - 1);
      assert d <= 2 * h;
    }
  }

  /** The masked size has the same highest bit as the size itself, if that is at least 512. */
  lemma MaskedIsClose(bufsiz: nat, k: nat)
    requires Pow2(k) <= Masked(bufsiz) < 2 * Pow2(k)
    ensures 512 <= Pow2(k) <= Max(bufsiz, 512) < 2 * Pow2(k)
  {
    var q, h := MaskedIsOdd(bufsiz);
    Pow2Is512();
    if k < 9 {
      Pow2Grows(k, 9);
    }
    assert Pow2(k) == 512 * Pow2(k - 9) by {
      Pow2Steps(k, 9);
    }
    OddIsClose(Pow2(k - 9), k - 9, h, q, bufsiz);
  }

  /** The loop that counts the bits: the size becomes the largest power of two that is not
      above the given size, or 512. */
  method BlockSize(given: nat) returns (bufsiz: nat, ghost bits: nat)
    ensures bufsiz == Pow2(bits) && 512 <= bufsiz <= Max(given, 512)
    ensures forall k: nat :: Pow2(k) <= Max(given, 512) ==> Pow2(k) <= bufsiz
    ensures bufsiz % 8 == 0
    ensures given < 512 ==> bufsiz == 512
    ensures given >= 512 ==> bufsiz <= given < 2 * bufsiz
  {
    var bufsizbits, rembufsiz := 0, Masked(given);
    while rembufsiz > 1
      invariant rembufsiz >= 1
      invariant Pow2(bufsizbits) * rembufsiz <= Masked(given) < Pow2(bufsizbits) * (rembufsiz + 1)
    {
      Halve(Pow2(bufsizbits), rembufsiz, Masked(given));
      rembufsiz := rembufsiz / 2;
      bufsizbits := bufsizbits + 1;
    }
    MaskedIsClose(given, bufsizbits);
    bits := bufsizbits;
    bufsiz := Pow2(bufsizbits);
    forall k: nat | Pow2(k) <= Max(given, 512)
      ensures Pow2(k) <= bufsiz
    {
      if k > bits {
        Pow2Grows(bits, k);
      } else if k < bits {
        Pow2Grows(k, bits);
      }
    }
    EightDivides(bits);
  }

  lemma Halve(p: nat, r: nat, m: nat)
    requires p * r <= m < p * (r + 1)
    ensures 2 * p * (r / 2) <= m < 2 * p * (r / 2 + 1)
  {
    var h := r / 2;
    assert 2 * p * h == p * (2 * h) && 2 * p * (h + 1) == p * (2 * h + 2);
    assert p * (2 * h) <= p * r && p * (r + 1) <= p * (2 * h + 2);
  }

  lemma EightDivides(bits: nat)
    requires Pow2(bits) >= 512
    ensures Pow2(bits) % 8 == 0
  {
    Pow2Is512();
    if bits < 9 {
      Pow2Grows(bits, 9);
    }
    Pow2Steps(bits, 3);
  }

  // ----- what truncating means

  ghost predicate ZeroBetween(data: seq<byte>, a: nat, c: nat)
    requires c <= |data|
  {
    forall i :: a <= i < c ==> data[i] == 0
  }

  /** Cutting a file to n bytes: only zeros go, and either a block with data becomes the last
      one, or nothing is left of a file of more than one block, or nothing happens because the
      last block, which may be partial, holds data or is the only one. */
  ghost predicate IsTruncation(data: seq<byte>, b: nat, n: nat)
    requires b > 0
  {
    && n <= |data| && ZeroBetween(data, n, |data|)
    && (n < |data| ==> Divides(b, n) && |data| > b && (n > 0 ==> n >= b && !ZeroBetween(data, n - b, n)))
    && (n == |data| ==> |data| <= b || !ZeroBetween(data, LastBlock(data, b), |data|))
  }

  /** Where the last block of a file begins. */
  function LastBlock(data: seq<byte>, b: nat): (p: nat)
    requires b > 0
    ensures p <= |data|
  {
    if data == [] then 0 else (|data| - 1) - (|data| - 1) % b
  }

  lemma MultipleBelow(m: nat, n: nat, b: nat)
    requires b > 0 && Divides(b, m) && Divides(b, n) && m < n
    ensures m + b <= n
  {
    var k := n / b - m / b;
    DivisibleIsMultiple(m, b);
    DivisibleIsMultiple(n, b);
    Distribute(n / b, m / b, b);
    assert n - m == k * b;
    if k <= 0 {
      NotPositive(k, b);
    } else {
      MulAtLeast(k, b);
    }
  }

  lemma NotPositive(k: int, b: nat)
    requires k <= 0
    ensures k * b <= 0
  {
  }

  /** The size a file is cut to is determined. */
  lemma TruncationIsUnique(data: seq<byte>, b: nat, m: nat, n: nat)
    requires b > 0 && IsTruncation(data, b, m) && IsTruncation(data, b, n)
    ensures m == n
  {
    if m < n {
      SmallerTruncation(data, b, m, n);
    } else if n < m {
      SmallerTruncation(data, b, n, m);
    }
  }

  lemma SmallerTruncation(data: seq<byte>, b: nat, m: nat, n: nat)
    requires b > 0 && IsTruncation(data, b, m) && IsTruncation(data, b, n)
    ensures m >= n
  {
    if m < n < |data| {
      MultipleBelow(m, n, b);
    } else if m < n {
      LastBlockIs(data, b);
      BlocksApart(LastBlock(data, b), m, b);
    }
  }

  /** Block boundaries are equal or a block apart. */
  lemma BlocksApart(p: nat, m: nat, b: nat)
    requires b > 0 && Divides(b, p) && Divides(b, m)
    ensures p < m ==> p + b <= m
    ensures m < p ==> m + b <= p
  {
    if p < m {
      MultipleBelow(p, m, b);
    } else if m < p {
      MultipleBelow(m, p, b);
    }
  }

  lemma LastBlockIs(data: seq<byte>, b: nat)
    requires b > 0 && data != []
    ensures Divides(b, LastBlock(data, b)) && LastBlock(data, b) < |data| <= LastBlock(data, b) + b
  {
    var q := (|data| - 1) / b;
    assert LastBlock(data, b) == q * b;
    MultipleIsDivisible(q, b);
  }

  // ----- the program

  /** Where the scan begins: at the end, rounded up to whole blocks. */
  function RoundUp(size: nat, b: nat): nat
    requires b > 0
  {
    var last := size % b;
    if last != 0 then size + (b - last) else size
  }

  lemma RoundedUp(size: nat, b: nat)
    requires b > 0
    ensures Divides(b, RoundUp(size, b)) && size <= RoundUp(size, b) < size + b
  {
    var q := size / b;
    assert size == q * b + size % b;
    MultipleIsDivisible(q, b);
    MultipleIsDivisible(q + 1, b);
    Distribute(q, 1, b);
  }

  lemma BlockBefore(m: nat, b: nat)
    requires b > 0 && Divides(b, m) && m >= b
    ensures Divides(b, m - b)
  {
    DivisibleIsMultiple(m, b);
    Distribute(m / b, 1, b);
    MultipleIsDivisible(m / b - 1, b);
  }

  /** Reading a block and testing it for zeros. Only the last block may be partial, and then
      the buffer must not hold anything else. */
  method ReadZeros(h: FileHandle, bufptr: array<byte>, bufsiz: nat) returns (dwReadSize: nat, zero: bool)
    requires bufsiz % 8 == 0 && bufptr.Length == bufsiz && h.pos <= |h.data|
    requires h.pos + bufsiz > |h.data| ==> bufptr[..] == Zeros(bufsiz)
    modifies h`pos, bufptr
    ensures dwReadSize == Min(bufsiz, |h.data| - old(h.pos)) && h.pos == old(h.pos) + dwReadSize
    ensures zero <==> ZeroBetween(h.data, old(h.pos), h.pos)
  {
    ghost var before, data, p := bufptr[..], h.data, h.pos;
    dwReadSize := h.Read(bufptr, bufsiz);
    zero := AllZeroWords(bufptr, dwReadSize);
    BlockInBuffer(data, p, before, bufptr[..], dwReadSize);
  }

  /** What the buffer holds from the start of the block to the end of its last word. */
  lemma BlockInBuffer(data: seq<byte>, p: nat, before: seq<byte>, buf: seq<byte>, n: nat)
    requires p + n <= |data| && RoundUp8(n) <= |buf| == |before|
    requires buf[..n] == From(data, p)[..n] && buf[n..] == before[n..]
    requires n == |buf| || before == Zeros(|before|)
    ensures buf[..RoundUp8(n)] == Zeros(RoundUp8(n)) <==> ZeroBetween(data, p, p + n)
  {
    var r := RoundUp8(n);
    assert forall i {:trigger buf[i]} :: n <= i < r ==> buf[i] == before[n..][i - n] == 0;
    forall i | p <= i < p + n
      ensures buf[i - p] == data[i]
    {
      assert buf[..n][i - p] == From(data, p)[..n][i - p];
    }
    if ZeroBetween(data, p, p + n) {
      assert forall i :: 0 <= i < n ==> buf[i] == data[p + i];
    } else {
      var i :| p <= i < p + n && data[i] != 0;
      assert buf[..r][i - p] != Zeros(r)[i - p];
    }
  }

  /** The backward scan, as far as a block with data or the beginning of the file. The buffer
      is zero at first, so what is behind a partial last block in it is zero. */
  method ScanBack(h: FileHandle, bufptr: array<byte>, bufsiz: nat) returns (current: nat, found: bool)
    requires bufsiz > 0 && bufsiz % 8 == 0 && bufptr.Length == bufsiz && bufptr[..] == Zeros(bufsiz)
    modifies h`pos, bufptr
    ensures Divides(bufsiz, current) && current <= |h.data|
    ensures found ==> current < |h.data| && h.pos == Min(current + bufsiz, |h.data|)
    ensures found ==> !ZeroBetween(h.data, current, h.pos) && ZeroBetween(h.data, h.pos, |h.data|)
    ensures !found ==> current == h.pos == 0 && ZeroBetween(h.data, 0, |h.data|)
  {
    var size := |h.data|;
    found := false;
    h.pos := RoundUp(size, bufsiz);
    RoundedUp(size, bufsiz);
    current := h.pos;
    while current >= bufsiz
      invariant Divides(bufsiz, current) && h.pos == current && current < size + bufsiz
      invariant forall i :: current <= i < size ==> h.data[i] == 0
      invariant current <= size || bufptr[..] == Zeros(bufsiz)
    {
      BlockBefore(current, bufsiz);
      current := current - bufsiz;
      h.pos := current;
      var dwReadSize, zero := ReadZeros(h, bufptr, bufsiz);
      if !zero {
        found := true;
        return;
      }
      h.pos := current;
    }
    SmallMultiple(current, bufsiz);
  }

  lemma SmallMultiple(m: nat, b: nat)
    requires m < b && Divides(b, m)
    ensures m == 0
  {
  }

  /** What the scan has found decides the size. */
  lemma ScanEnds(data: seq<byte>, b: nat, current: nat, found: bool)
    requires b > 0 && Divides(b, current) && current <= |data|
    requires found ==> current < |data| && !ZeroBetween(data, current, Min(current + b, |data|))
    requires found ==> ZeroBetween(data, Min(current + b, |data|), |data|)
    requires !found ==> current == 0 && ZeroBetween(data, 0, |data|)
    ensures IsTruncation(data, b, if current + b >= |data| then |data| else if found then current + b else 0)
  {
    if !found {
      MultipleIsDivisible(0, b);
    } else if current + b < |data| {
      DivisibleIsMultiple(current, b);
      Distribute(current / b, 1, b);
      MultipleIsDivisible(current / b + 1, b);
    } else {
      LastBlockIs(data, b);
      BlocksApart(LastBlock(data, b), current, b);
    }
  }

  /** The program: the file is cut off behind the block that the scan has found, if that is
      not the last one. */
  method Truncate(h: FileHandle, bufptr: array<byte>, bufsiz: nat) returns (truncated: bool)
    requires bufsiz > 0 && bufsiz % 8 == 0 && bufptr.Length == bufsiz && bufptr[..] == Zeros(bufsiz)
    modifies h, bufptr
    ensures h.data <= old(h.data) && IsTruncation(old(h.data), bufsiz, |h.data|)
    ensures truncated <==> |h.data| < |old(h.data)|
  {
    var size := |h.data|;
    var current, found := ScanBack(h, bufptr, bufsiz);
    ScanEnds(h.data, bufsiz, current, found);
    if current + bufsiz >= size {
      return false;
    }
    h.SetEnd();
    return true;
  }

  /** The whole program, for any requested buffer size. */
  method TruncateTail(h: FileHandle, given: nat) returns (truncated: bool, bufsiz: nat)
    modifies h
    ensures 512 <= bufsiz <= Max(given, 512) && exists bits: nat :: bufsiz == Pow2(bits)
    ensures h.data <= old(h.data) && IsTruncation(old(h.data), bufsiz, |h.data|)
    ensures truncated <==> |h.data| < |old(h.data)|
  {
    ghost var bits;
    bufsiz, bits := BlockSize(given);
    var bufptr := new byte[bufsiz](_ => 0);
    assert bufptr[..] == Zeros(bufsiz);
    truncated := Truncate(h, bufptr, bufsiz);
  }
}

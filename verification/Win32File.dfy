/** Files as byte sequences with a position: the part of the Win32 file functions that the
    programs rely on. Transfers are complete except at the end of the file. */
module Win32File {
  import opened Common

  function Zeros(n: nat): (z: seq<byte>)
    ensures |z| == n && forall i :: 0 <= i < n ==> z[i] == 0
  {
    seq(n, _ => 0)
  }

  /** The bytes from a position on; none beyond the end. */
  function From(data: seq<byte>, pos: nat): seq<byte> {
    if pos <= |data| then data[pos..] else []
  }

  /** Writing at a position: a gap beyond the old end is filled with zeros. */
  function Overlay(data: seq<byte>, pos: nat, bytes: seq<byte>): seq<byte> {
    if bytes == [] then data
    else
      var end := pos + |bytes|;
      seq(if end > |data| then end else |data|, i requires 0 <= i => ByteAfter(data, pos, bytes, i))
  }

  function ByteAfter(data: seq<byte>, pos: nat, bytes: seq<byte>, i: nat): byte {
    if pos <= i < pos + |bytes| then bytes[i - pos]
    else if i < |data| then data[i]
    else 0
  }

  /** Ending the file at a position, which may lie beyond the old end. */
  function Resize(data: seq<byte>, n: nat): seq<byte> {
    if n <= |data| then data[..n] else data + Zeros(n - |data|)
  }

  // ----- what the functions mean, byte by byte

  lemma FromAt(data: seq<byte>, pos: nat)
    ensures |From(data, pos)| == if pos <= |data| then |data| - pos else 0
    ensures forall i :: 0 <= i < |From(data, pos)| ==> From(data, pos)[i] == data[pos + i]
  {
  }

  /** Writing replaces the bytes that are there, keeps all others, and fills a gap with zeros. */
  lemma OverlayAt(data: seq<byte>, pos: nat, bytes: seq<byte>)
    ensures var r := Overlay(data, pos, bytes);
      && |r| == (if bytes != [] && pos + |bytes| > |data| then pos + |bytes| else |data|)
      && forall i :: 0 <= i < |r| ==>
           r[i] == if pos <= i < pos + |bytes| then bytes[i - pos] else if i < |data| then data[i] else 0
  {
  }

  lemma ResizeAt(data: seq<byte>, n: nat)
    ensures |Resize(data, n)| == n
    ensures forall i :: 0 <= i < n ==> Resize(data, n)[i] == if i < |data| then data[i] else 0
  {
  }

  // ----- laws of writing

  /** Writing a block after the bytes before it is writing both. */
  lemma OverlayConcat(data: seq<byte>, pos: nat, x: seq<byte>, y: seq<byte>)
    ensures Overlay(Overlay(data, pos, x), pos + |x|, y) == Overlay(data, pos, x + y)
  {
    if x == [] {
      assert x + y == y;
    } else if y == [] {
      assert x + y == x;
    } else {
      OverlayBoth(data, pos, x, y);
    }
  }

  lemma OverlayBoth(data: seq<byte>, pos: nat, x: seq<byte>, y: seq<byte>)
    requires x != [] && y != []
    ensures Overlay(Overlay(data, pos, x), pos + |x|, y) == Overlay(data, pos, x + y)
  {
    var d := Overlay(data, pos, x);
    OverlayPointwise(data, d, pos, x, y, Overlay(d, pos + |x|, y), Overlay(data, pos, x + y));
  }

  lemma OverlayPointwise(data: seq<byte>, d: seq<byte>, pos: nat, x: seq<byte>, y: seq<byte>,
                         l: seq<byte>, r: seq<byte>)
    requires x != [] && y != [] && d == Overlay(data, pos, x)
    requires l == Overlay(d, pos + |x|, y) && r == Overlay(data, pos, x + y)
    ensures l == r
  {
    assert |l| == |r|;
    forall i | 0 <= i < |l|
      ensures l[i] == r[i]
    {
      assert i < |d| ==> d[i] == ByteAfter(data, pos, x, i);
      ByteAfterBoth(data, d, pos, x, y, i);
    }
  }

  lemma ByteAfterBoth(data: seq<byte>, d: seq<byte>, pos: nat, x: seq<byte>, y: seq<byte>, i: nat)
    requires |d| == (if pos + |x| > |data| then pos + |x| else |data|)
    requires i < |d| ==> d[i] == ByteAfter(data, pos, x, i)
    ensures ByteAfter(d, pos + |x|, y, i) == ByteAfter(data, pos, x + y, i)
  {
    if pos <= i < pos + |x| {
      assert (x + y)[i - pos] == x[i - pos];
    } else if pos + |x| <= i < pos + |x| + |y| {
      assert (x + y)[i - pos] == y[i - (pos + |x|)];
    }
  }

  /** Extending a file by zeros is writing zeros at its end. */
  lemma ExtendingWritesZeros(data: seq<byte>, pos: nat, n: nat)
    requires pos >= |data| && n > 0
    ensures Resize(data, pos + n) == Overlay(data, pos, Zeros(n))
  {
    var z := Zeros(n);
    forall i | 0 <= i < pos + n
      ensures Resize(data, pos + n)[i] == ByteAfter(data, pos, z, i)
    {
    }
  }

  /** Writing what is there changes nothing. */
  lemma RewritingIsNothing(data: seq<byte>, pos: nat, x: seq<byte>)
    requires |x| <= |From(data, pos)| && From(data, pos)[..|x|] == x
    ensures Overlay(data, pos, x) == data
  {
    if x != [] {
      forall i | 0 <= i < |data|
        ensures ByteAfter(data, pos, x, i) == data[i]
      {
        if pos <= i < pos + |x| {
          assert From(data, pos)[..|x|][i - pos] == data[i];
        }
      }
    }
  }

  // ----- zero blocks

  function RoundUp8(n: nat): (r: nat)
    ensures n <= r < n + 8 && r % 8 == 0
  {
    (n + 7) / 8 * 8
  }

  /** The test for a block of zeros, by whole words: up to seven bytes behind the block, left
      over from earlier reads, are looked at as well. */
  method AllZeroWords(buf: array<byte>, n: nat) returns (zero: bool)
    requires RoundUp8(n) <= buf.Length
    ensures zero <==> buf[..RoundUp8(n)] == Zeros(RoundUp8(n))
    ensures zero ==> buf[..n] == Zeros(n)
  {
    var p := 0;
    while p < n
      invariant 0 <= p <= RoundUp8(n) && p % 8 == 0
      invariant buf[..p] == Zeros(p)
    {
      if buf[p..p + 8] != Zeros(8) {
        assert buf[..RoundUp8(n)][p..p + 8] == buf[p..p + 8];
        assert Zeros(RoundUp8(n))[p..p + 8] == Zeros(8);
        return false;
      }
      assert buf[..p + 8] == buf[..p] + buf[p..p + 8];
      p := p + 8;
    }
    assert buf[..n] == buf[..p][..n];
    return true;
  }

  class FileHandle {
    var data: seq<byte>
    var pos: nat

    constructor (data: seq<byte>)
      ensures this.data == data && pos == 0
    {
      this.data := data;
      pos := 0;
    }

    /** ReadFile */
    method Read(buf: array<byte>, n: nat) returns (k: nat)
      requires n <= buf.Length
      modifies `pos, buf
      ensures k == Min(n, |From(data, old(pos))|) && pos == old(pos) + k
      ensures buf[..k] == From(data, old(pos))[..k]
      ensures buf[k..] == old(buf[..])[k..]
    {
      k := Min(n, |From(data, pos)|);
      var i := 0;
      while i < k
        invariant 0 <= i <= k
        invariant k == Min(n, |From(data, pos)|) && pos == old(pos)
        invariant buf[..i] == From(data, pos)[..i]
        invariant buf[k..] == old(buf[..])[k..]
      {
        buf[i] := data[pos + i];
        i := i + 1;
      }
      pos := pos + k;
    }

    /** ReadFile on a pipe or a device, which may deliver less than it is asked for. */
    method ReadSome(buf: array<byte>, n: nat) returns (k: nat)
      requires n <= buf.Length
      modifies `pos, buf
      ensures k <= n && k <= |From(data, old(pos))| && pos == old(pos) + k
      ensures k == 0 ==> n == 0 || From(data, old(pos)) == []
      ensures buf[..k] == From(data, old(pos))[..k]
      ensures From(data, pos) == From(data, old(pos))[k..]
    {
      if n == 0 {
        return 0;
      }
      var limit: nat :| 1 <= limit <= n;
      k := Read(buf, limit);
    }

    /** WriteFile */
    method Write(buf: array<byte>, n: nat)
      requires n <= buf.Length
      modifies this
      ensures data == Overlay(old(data), old(pos), buf[..n]) && pos == old(pos) + n
    {
      data := Overlay(data, pos, buf[..n]);
      pos := pos + n;
    }

    /** SetEndOfFile */
    method SetEnd()
      modifies `data
      ensures data == Resize(old(data), pos)
    {
      data := Resize(data, pos);
    }
  }
}

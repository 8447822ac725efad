/** The copy loop of rawcopy.cpp: sparse and differential modes avoid writing blocks, but
    leave the same output as a plain copy. */
module RawCopy {
  import opened Common
  import opened Win32File

  /** The number of bytes to copy: all that are available, or a given number of them. */
  function CopySize(available: nat, copylength: nat): nat {
    if copylength == 0 then available else Min(copylength, available)
  }

  /** A skipped block is left as a plain copy would leave it. */
  lemma SkippedZeros(data: seq<byte>, pos: nat, block: seq<byte>)
    requires block != [] && pos >= |data| && block == Zeros(|block|)
    ensures Resize(data, pos + |block|) == Overlay(data, pos, block)
  {
    ExtendingWritesZeros(data, pos, |block|);
  }

  /** Why a block may be skipped: it is past the old end and zero, or it is there already. */
  ghost predicate Skippable(data: seq<byte>, pos: nat, block: seq<byte>, read: nat, existing: int) {
    || (read - |block| >= existing && block == Zeros(|block|))
    || (read <= existing && |block| <= |From(data, pos)| && From(data, pos)[..|block|] == block)
  }

  /** The output never shrinks, and ends at the current position once the old end is passed. */
  lemma EndOfOutput(out0: seq<byte>, start: nat, x: seq<byte>)
    ensures |Overlay(out0, start, x)| >= |out0|
    ensures |out0| <= start + |x| ==> |Overlay(out0, start, x)| <= start + |x|
  {
  }

  /** The output of a plain copy of r bytes of the input. */
  ghost predicate IsCopy(data: seq<byte>, out0: seq<byte>, start: nat, input: seq<byte>, r: nat) {
    r <= |input| && data == Overlay(out0, start, input[..r])
  }

  /** The output byte by byte: the copied bytes of the input from the start on, all other bytes as
      before, zeros in a gap. */
  lemma CopyAt(data: seq<byte>, out0: seq<byte>, start: nat, input: seq<byte>, r: nat)
    requires IsCopy(data, out0, start, input, r)
    ensures |data| == if r > 0 && start + r > |out0| then start + r else |out0|
    ensures forall k :: 0 <= k < r ==> start + k < |data| && data[start + k] == input[k]
    ensures forall i :: 0 <= i < |data| && !(start <= i < start + r) ==> data[i] == if i < |out0| then out0[i] else 0
  {
    OverlayAt(out0, start, input[..r]);
    forall k | 0 <= k < r
      ensures data[start + k] == input[k]
    {
      assert input[..r][k] == input[k];
    }
  }

  /** What writing or skipping a block makes of the output. */
  ghost predicate IsPut(data: seq<byte>, data': seq<byte>, pos: nat, block: seq<byte>, skip: bool,
                        read: nat, existing: int)
  {
    && (!skip ==> data' == Overlay(data, pos, block))
    && (skip ==> data' == if read > existing then Resize(data, pos + |block|) else data)
  }

  /** A block goes beyond the end of the output exactly if it went beyond the old end. */
  lemma RoomForBlock(data: seq<byte>, out0: seq<byte>, start: nat, input: seq<byte>, r: nat, n: nat)
    requires n > 0 && IsCopy(data, out0, start, input, r)
    ensures start + r + n > |data| <==> start + r + n > |out0|
  {
    EndOfOutput(out0, start, input[..r]);
  }

  /** Whether a block was skipped or not, the output is as if it had been written. */
  lemma SkippedIsWritten(data: seq<byte>, data': seq<byte>, pos: nat, block: seq<byte>, read: nat, existing: int)
    requires block != [] && Skippable(data, pos, block, read, existing)
    requires read > existing ==> |data| <= pos
    requires data' == if read > existing then Resize(data, pos + |block|) else data
    ensures data' == Overlay(data, pos, block)
  {
    if read > existing {
      SkippedZeros(data, pos, block);
    } else {
      RewritingIsNothing(data, pos, block);
    }
  }

  lemma NextPart(input: seq<byte>, r: nat, n: nat)
    requires r + n <= |input|
    ensures input[..r] + input[r..][..n] == input[..r + n]
    ensures input[r..][n..] == input[r + n..]
  {
  }

  /** One pass of the loop extends the copy by one block. */
  lemma BlockDone(input: seq<byte>, start: nat, out0: seq<byte>, r: nat, n: nat)
    requires r + n <= |input|
    ensures Overlay(Overlay(out0, start, input[..r]), start + r, input[r..][..n])
            == Overlay(out0, start, input[..r + n])
  {
    var x, y := input[..r], input[r..][..n];
    NextPart(input, r, n);
    OverlayConcat(out0, start, x, y);
  }

  /** A block that has been skipped or written has reached the output. */
  lemma BlockPut(input: seq<byte>, start: nat, out0: seq<byte>, r: nat, n: nat, existing: int,
                 skip: bool, data: seq<byte>, data': seq<byte>)
    requires 0 < n && r + n <= |input| && |out0| - existing <= start
    requires IsCopy(data, out0, start, input, r)
    requires skip ==> Skippable(data, start + r, input[r..][..n], r + n, existing)
    requires IsPut(data, data', start + r, input[r..][..n], skip, r + n, existing)
    ensures IsCopy(data', out0, start, input, r + n)
  {
    if skip {
      EndOfOutput(out0, start, input[..r]);
      SkippedIsWritten(data, data', start + r, input[r..][..n], r + n, existing);
    }
    BlockDone(input, start, out0, r, n);
  }

  // ----- the blocks of a copy

  /** Where the first i of the blocks end. */
  ghost function EndOf(ends: seq<nat>, i: nat): nat
    requires i <= |ends|
  {
    if i == 0 then 0 else ends[i - 1]
  }

  /** The ends of blocks of at most b bytes each, counted from the start of the copy. */
  ghost predicate BlockEnds(ends: seq<nat>, b: nat) {
    forall i {:trigger EndOf(ends, i)} :: 0 <= i < |ends| ==> EndOf(ends, i) < ends[i] <= EndOf(ends, i) + b
  }

  /** The end of a block that the output has room for behind the position before the offset,
      `existing` bytes, but not behind the position after the offset. */
  predicate Beyond(end: nat, existing: int, writeOffset: nat) {
    existing - writeOffset < end <= existing
  }

  ghost predicate NoneBeyond(ends: seq<nat>, existing: int, writeOffset: nat) {
    forall i {:trigger Beyond(ends[i], existing, writeOffset)} :: 0 <= i < |ends| ==>
      !Beyond(ends[i], existing, writeOffset)
  }

  lemma NoneBeyondMeans(ends: seq<nat>, existing: int, writeOffset: nat)
    ensures NoneBeyond(ends, existing, writeOffset)
            <==> forall e | e in ends :: !(existing - writeOffset < e <= existing)
  {
    if forall e | e in ends :: !(existing - writeOffset < e <= existing) {
      forall i | 0 <= i < |ends|
        ensures !Beyond(ends[i], existing, writeOffset)
      {
        assert ends[i] in ends;
      }
    } else {
      var e :| e in ends && existing - writeOffset < e <= existing;
      var i :| 0 <= i < |ends| && ends[i] == e;
      assert Beyond(ends[i], existing, writeOffset);
    }
  }

  lemma OneMoreEnd(ends: seq<nat>, b: nat, end: nat)
    requires BlockEnds(ends, b) && EndOf(ends, |ends|) < end <= EndOf(ends, |ends|) + b
    ensures BlockEnds(ends + [end], b)
    ensures EndOf(ends + [end], |ends| + 1) == end && EndOf(ends + [end], |ends|) == EndOf(ends, |ends|)
  {
    var ends' := ends + [end];
    forall i {:trigger EndOf(ends', i)} | 0 <= i < |ends'|
      ensures EndOf(ends', i) < ends'[i] <= EndOf(ends', i) + b
    {
      if i < |ends| {
        assert EndOf(ends', i) == EndOf(ends, i);
      }
    }
  }

  lemma OneMoreBeyond(ends: seq<nat>, end: nat, existing: int, writeOffset: nat)
    ensures NoneBeyond(ends + [end], existing, writeOffset)
            <==> NoneBeyond(ends, existing, writeOffset) && !Beyond(end, existing, writeOffset)
  {
    var ends' := ends + [end];
    assert ends'[|ends|] == end;
    forall i | 0 <= i < |ends|
      ensures ends'[i] == ends[i]
    {
    }
    if NoneBeyond(ends', existing, writeOffset) {
      forall i | 0 <= i < |ends|
        ensures !Beyond(ends[i], existing, writeOffset)
      {
        assert !Beyond(ends'[i], existing, writeOffset);
      }
      assert !Beyond(ends'[|ends|], existing, writeOffset);
    }
  }

  /** Blocks of b bytes, but for the last one of a copy of `total` bytes. */
  ghost predicate FullBlocks(ends: seq<nat>, b: nat, total: nat) {
    forall i :: 0 <= i < |ends| ==> ends[i] == Min((i + 1) * b, total)
  }

  /** The end of the last full block inside `existing` bytes, or of all blocks. */
  function LastInside(b: nat, existing: nat, total: nat): (last: nat)
    requires b > 0
    ensures last <= existing
  {
    if total <= existing then total else existing / b * b
  }

  lemma MoreBlocks(m: nat, n: nat, b: nat)
    requires m <= n
    ensures m * b <= n * b
  {
    assert n * b == m * b + (n - m) * b;
  }

  lemma FewerBlocks(q: nat, n: nat, b: nat)
    requires q * b < n * b
    ensures q < n
  {
    if n <= q {
      MoreBlocks(n, q, b);
    }
  }

  lemma LastIsGreatest(m: nat, b: nat, existing: nat, total: nat)
    requires m > 0 && b > 0 && total > 0 && Min(m * b, total) <= existing
    ensures 0 < Min(m * b, total) <= LastInside(b, existing, total)
  {
    MoreBlocks(1, m, b);
    if total > existing {
      FewerBlocks(m, existing / b + 1, b);
      MoreBlocks(m, existing / b, b);
    }
  }

  lemma LastIsEnd(ends: seq<nat>, b: nat, total: nat, existing: nat)
    requires b > 0 && total > 0 && FullBlocks(ends, b, total) && EndOf(ends, |ends|) == total
    requires LastInside(b, existing, total) > 0
    ensures exists i :: 0 <= i < |ends| && ends[i] == LastInside(b, existing, total)
  {
    if total <= existing {
      assert total == ends[|ends| - 1];
    } else {
      var q := existing / b;
      FewerBlocks(q, |ends|, b);
      FewerBlocks(0, q, b);
      assert ends[q - 1] == Min(q * b, total);
    }
  }

  lemma NoneIsBeyond(ends: seq<nat>, last: nat, existing: nat, writeOffset: nat)
    requires NoneBeyond(ends, existing, writeOffset) && last <= existing
    requires exists i :: 0 <= i < |ends| && ends[i] == last
    ensures last <= existing - writeOffset
  {
    var i :| 0 <= i < |ends| && ends[i] == last;
    assert !Beyond(ends[i], existing, writeOffset);
  }

  lemma SomeIsBeyond(ends: seq<nat>, b: nat, total: nat, existing: nat, writeOffset: nat) returns (e: nat)
    requires b > 0 && total > 0 && FullBlocks(ends, b, total) && !NoneBeyond(ends, existing, writeOffset)
    ensures existing - writeOffset < e && 0 < e <= LastInside(b, existing, total)
  {
    var i :| 0 <= i < |ends| && Beyond(ends[i], existing, writeOffset);
    e := ends[i];
    LastIsGreatest(i + 1, b, existing, total);
  }

  /** Among full blocks there is one beyond the output exactly if the last block that ends
      inside the old output does not end inside what is left of it behind the offset. */
  lemma LastBeyond(ends: seq<nat>, b: nat, total: nat, existing: nat, writeOffset: nat)
    requires b > 0 && total > 0 && FullBlocks(ends, b, total)
    requires NoneBeyond(ends, existing, writeOffset) ==> EndOf(ends, |ends|) == total
    ensures NoneBeyond(ends, existing, writeOffset)
            <==> LastInside(b, existing, total) == 0 || LastInside(b, existing, total) <= existing - writeOffset
  {
    if !NoneBeyond(ends, existing, writeOffset) {
      var e := SomeIsBeyond(ends, b, total, existing, writeOffset);
    } else if LastInside(b, existing, total) > 0 {
      LastIsEnd(ends, b, total, existing);
      NoneIsBeyond(ends, LastInside(b, existing, total), existing, writeOffset);
    }
  }

  /** A copy of one block to an output of one block, with an offset of one byte. */
  lemma OneBlockIsBeyond()
    ensures FullBlocks([512], 512, 512) && !NoneBeyond([512], 512, 1)
  {
    var ends: seq<nat> := [512];
    assert Beyond(ends[0], 512, 1);
  }

  class Copier {
    const bufsiz: nat
    const copylength: nat
    const bCreateSparse: bool
    const bDifferential: bool
    var readbytes: nat
    var writtenblocks: nat
    var skippedwritebytes: nat

    constructor (bufsiz: nat, copylength: nat, bCreateSparse: bool, bDifferential: bool)
      ensures this.bufsiz == bufsiz && this.copylength == copylength
      ensures this.bCreateSparse == bCreateSparse && this.bDifferential == bDifferential
      ensures readbytes == writtenblocks == skippedwritebytes == 0
    {
      this.bufsiz, this.copylength := bufsiz, copylength;
      this.bCreateSparse, this.bDifferential := bCreateSparse, bDifferential;
      readbytes, writtenblocks, skippedwritebytes := 0, 0, 0;
    }

    /** When a block of n bytes, just read, is not written: in sparse mode, if it is past the old
        end and all its words are zero; in differential mode, if the output holds it already. */
    ghost predicate MustSkip(words: seq<byte>, n: nat, data: seq<byte>, pos: nat, existing: int)
      requires n <= |words| && n <= readbytes
      reads this
    {
      || (bCreateSparse && readbytes - n >= existing && words == Zeros(|words|))
      || (bDifferential && readbytes <= existing && pos + n <= |data| && data[pos..pos + n] == words[..n])
    }

    /** The comparison with the old block, after which the position is restored. */
    method SameAsOutput(buf: array<byte>, diffbuf: array<byte>, n: nat, hOut: FileHandle) returns (ok: bool, same: bool)
      requires n <= buf.Length && n <= diffbuf.Length && buf != diffbuf && n > 0
      modifies hOut`pos, diffbuf
      ensures !ok <==> old(hOut.pos) + n > |hOut.data|
      ensures ok ==> hOut.pos == old(hOut.pos) && (same <==> hOut.data[hOut.pos..hOut.pos + n] == buf[..n])
    {
      var size := hOut.Read(diffbuf, n);
      if size != n {
        return false, false;
      }
      hOut.pos := hOut.pos - size;
      assert diffbuf[..n] == hOut.data[hOut.pos..hOut.pos + n];
      return true, buf[..n] == diffbuf[..n];
    }

    /** The part of the loop that decides whether a block needs to be written. `existing` is
        the number of bytes of the output behind the start. */
    method MaySkip(buf: array<byte>, diffbuf: array<byte>, n: nat, existing: int, hOut: FileHandle)
      returns (ok: bool, skip: bool)
      requires 0 < n <= bufsiz && RoundUp8(bufsiz) <= buf.Length && n <= diffbuf.Length && buf != diffbuf
      modifies `readbytes, hOut`pos, diffbuf
      ensures readbytes == old(readbytes) + n
      ensures !ok <==> bDifferential && readbytes <= existing && old(hOut.pos) + n > |hOut.data|
      ensures ok ==> hOut.pos == old(hOut.pos)
      ensures ok && skip ==> Skippable(hOut.data, hOut.pos, buf[..n], readbytes, existing)
      ensures ok ==> (skip <==> MustSkip(buf[..RoundUp8(n)], n, hOut.data, hOut.pos, existing))
    {
      ok, skip := true, false;
      ghost var words := buf[..RoundUp8(n)];
      assert words[..n] == buf[..n];
      if bCreateSparse && readbytes >= existing {
        skip := AllZeroWords(buf, n);
      }
      readbytes := readbytes + n;
      if bDifferential && readbytes <= existing {
        var same;
        ok, same := SameAsOutput(buf, diffbuf, n, hOut);
        skip := skip || same;
      }
    }

    /** The part of the loop that writes or skips a block. */
    method PutBlock(buf: array<byte>, n: nat, existing: int, hOut: FileHandle, skip: bool)
      requires n <= buf.Length
      modifies `skippedwritebytes, hOut
      ensures hOut.pos == old(hOut.pos) + n
      ensures IsPut(old(hOut.data), hOut.data, old(hOut.pos), buf[..n], skip, readbytes, existing)
      ensures skippedwritebytes == old(skippedwritebytes) + if skip then n else 0
    {
      if skip {
        hOut.pos := hOut.pos + n;
        if readbytes > existing {
          hOut.SetEnd();
        }
        skippedwritebytes := skippedwritebytes + n;
      } else {
        hOut.Write(buf, n);
      }
    }

    /** What has been read so far has reached the output. */
    ghost predicate Copied(input: seq<byte>, start: nat, out0: seq<byte>, hIn: FileHandle, hOut: FileHandle)
      reads this, hIn, hOut
    {
      && readbytes <= |input| && (copylength != 0 ==> readbytes <= copylength)
      && From(hIn.data, hIn.pos) == input[readbytes..]
      && hOut.pos == start + readbytes
      && IsCopy(hOut.data, out0, start, input, readbytes)
      && writtenblocks <= readbytes && skippedwritebytes <= readbytes
    }

    /** The size of the next block: what is left to copy, if that is less than the buffer. */
    method NextBlockSize() returns (dwBlockSize: nat)
      requires bufsiz > 0
      ensures dwBlockSize <= bufsiz
      ensures dwBlockSize == 0 <==> copylength != 0 && readbytes >= copylength
      ensures copylength != 0 ==> dwBlockSize == 0 || readbytes + dwBlockSize <= copylength
    {
      dwBlockSize := bufsiz;
      if copylength != 0 {
        if readbytes >= copylength {
          return 0;
        } else if dwBlockSize + readbytes >= copylength {
          dwBlockSize := copylength - readbytes;
        }
      }
    }

    /** The part of the loop behind the decision: the block reaches the output. */
    method PutNext(buf: array<byte>, n: nat, existing: int, hOut: FileHandle, skip: bool,
                   ghost input: seq<byte>, ghost start: nat, ghost out0: seq<byte>)
      requires 0 < n <= buf.Length && n <= readbytes <= |input| && buf[..n] == input[readbytes - n..][..n]
      requires hOut.pos == start + readbytes - n && IsCopy(hOut.data, out0, start, input, readbytes - n)
      requires skip ==> Skippable(hOut.data, hOut.pos, buf[..n], readbytes, existing)
      requires |out0| - existing <= start
      modifies `writtenblocks, `skippedwritebytes, hOut
      ensures hOut.pos == start + readbytes && IsCopy(hOut.data, out0, start, input, readbytes)
      ensures writtenblocks == old(writtenblocks) + 1
      ensures skippedwritebytes == old(skippedwritebytes) + if skip then n else 0
    {
      PutBlock(buf, n, existing, hOut, skip);
      BlockPut(input, start, out0, readbytes - n, n, existing, skip, old(hOut.data), hOut.data);
      writtenblocks := writtenblocks + 1;
    }

    /** One pass of the loop, for a block that has been read. */
    method CopyBlock(buf: array<byte>, diffbuf: array<byte>, n: nat, existing: int, hOut: FileHandle,
                     ghost input: seq<byte>, ghost start: nat, ghost out0: seq<byte>, ghost writeOffset: nat)
      returns (ok: bool)
      requires 0 < n <= bufsiz && RoundUp8(bufsiz) <= buf.Length && n <= diffbuf.Length && buf != diffbuf
      requires readbytes + n <= |input| && buf[..n] == input[readbytes..][..n]
      requires hOut.pos == start + readbytes && IsCopy(hOut.data, out0, start, input, readbytes)
      requires start + existing == |out0| + writeOffset && skippedwritebytes <= readbytes
      modifies `readbytes, `writtenblocks, `skippedwritebytes, hOut, diffbuf
      ensures readbytes == old(readbytes) + n && skippedwritebytes <= readbytes
      ensures ok ==>
        skippedwritebytes == old(skippedwritebytes)
                             + if MustSkip(buf[..RoundUp8(n)], n, old(hOut.data), old(hOut.pos), existing) then n else 0
      ensures ok ==>
        && hOut.pos == start + readbytes && IsCopy(hOut.data, out0, start, input, readbytes)
        && writtenblocks == old(writtenblocks) + 1
      ensures !ok ==> hOut.data == old(hOut.data)
      ensures !ok <==> bDifferential && Beyond(readbytes, existing, writeOffset)
    {
      RoomForBlock(hOut.data, out0, start, input, readbytes, n);
      var skip;
      ok, skip := MaySkip(buf, diffbuf, n, existing, hOut);
      if !ok {
        return false;
      }
      PutNext(buf, n, existing, hOut, skip, input, start, out0);
    }

    /** One pass of the loop from the reading on; 0 bytes are read at the end of the input. */
    method CopyNext(buf: array<byte>, diffbuf: array<byte>, dwBlockSize: nat, existing: int,
                    hIn: FileHandle, hOut: FileHandle,
                    ghost input: seq<byte>, ghost start: nat, ghost out0: seq<byte>, ghost writeOffset: nat)
      returns (ok: bool, n: nat)
      requires 0 < dwBlockSize <= bufsiz && (copylength != 0 ==> readbytes + dwBlockSize <= copylength)
      requires RoundUp8(bufsiz) <= buf.Length && bufsiz <= diffbuf.Length && buf != diffbuf
      requires hIn != hOut && start + existing == |out0| + writeOffset
      requires Copied(input, start, out0, hIn, hOut)
      modifies `readbytes, `writtenblocks, `skippedwritebytes, hIn`pos, hOut, buf, diffbuf
      ensures n <= dwBlockSize && readbytes == old(readbytes) + n <= |input|
      ensures n == 0 ==> ok && readbytes == |input|
      ensures ok ==> Copied(input, start, out0, hIn, hOut)
      ensures ok <==> n == 0 || !(bDifferential && Beyond(readbytes, existing, writeOffset))
      ensures !ok ==> hOut.data == old(hOut.data)
    {
      n := hIn.ReadSome(buf, dwBlockSize);
      if n == 0 {
        return true, n;
      }
      NextPart(input, readbytes, n);
      ok := CopyBlock(buf, diffbuf, n, existing, hOut, input, start, out0, writeOffset);
    }

    /** The blocks read so far, none of which has made the copy give up. */
    ghost predicate Fine(ends: seq<nat>, existing: int, writeOffset: nat) {
      BlockEnds(ends, bufsiz) && (!bDifferential || NoneBeyond(ends, existing, writeOffset))
    }

    /** The copy loop, for an input and an output that are set up. */
    method CopyLoop(hIn: FileHandle, hOut: FileHandle, existing: int,
                    ghost input: seq<byte>, ghost start: nat, ghost out0: seq<byte>, ghost writeOffset: nat)
      returns (ok: bool, ghost ends: seq<nat>, ghost copied: nat)
      requires hIn != hOut && bufsiz > 0 && readbytes == 0 && start + existing == |out0| + writeOffset
      requires Copied(input, start, out0, hIn, hOut)
      modifies this, hIn`pos, hOut
      ensures IsCopy(hOut.data, out0, start, input, copied)
      ensures BlockEnds(ends, bufsiz) && readbytes == EndOf(ends, |ends|) <= CopySize(|input|, copylength)
      ensures ok <==> Fine(ends, existing, writeOffset)
      ensures ok ==>
        && copied == readbytes == CopySize(|input|, copylength) && hOut.pos == start + copied
        && writtenblocks <= copied && skippedwritebytes <= copied
      ensures !ok ==> |ends| > 0 && copied == EndOf(ends, |ends| - 1) && Beyond(readbytes, existing, writeOffset)
    {
      var buf := new byte[RoundUp8(bufsiz)](_ => 0);
      var diffbuf := new byte[bufsiz](_ => 0);
      ends, copied := [], 0;
      ok := true;
      while true
        invariant Copied(input, start, out0, hIn, hOut) && copied == readbytes && ok
        invariant Fine(ends, existing, writeOffset) && readbytes == EndOf(ends, |ends|)
        decreases |input| - readbytes
      {
        var dwBlockSize := NextBlockSize();
        if dwBlockSize == 0 {
          break;
        }
        var dwReadSize;
        ok, dwReadSize := CopyNext(buf, diffbuf, dwBlockSize, existing, hIn, hOut,
                                   input, start, out0, writeOffset);
        if dwReadSize == 0 {
          break;
        }
        OneMoreEnd(ends, bufsiz, readbytes);
        OneMoreBeyond(ends, readbytes, existing, writeOffset);
        ends := ends + [readbytes];
        if !ok {
          return;
        }
        copied := readbytes;
        if copylength != 0 && writtenblocks >= copylength {
          break;
        }
      }
    }

    /** The copy. Reads may be short; writes are complete. Whatever the modes, the output is
        that of a plain copy of `copied` bytes. These are all bytes available, or copylength, unless
        in differential mode the end of a block that has been read lies inside the old output, but
        not inside what is left of it behind the offset. */
    method Copy(hIn: FileHandle, hOut: FileHandle, writeOffset: nat)
      returns (ok: bool, ghost ends: seq<nat>, ghost copied: nat)
      requires hIn != hOut && bufsiz > 0
      requires readbytes == writtenblocks == skippedwritebytes == 0
      modifies this, hIn`pos, hOut
      ensures var input, out0, start := From(hIn.data, old(hIn.pos)), old(hOut.data), old(hOut.pos) + writeOffset;
        && copied <= |input|
        && |hOut.data| == (if copied > 0 && start + copied > |out0| then start + copied else |out0|)
        && (forall k :: 0 <= k < copied ==> hOut.data[start + k] == input[k])
        && (forall i :: 0 <= i < |hOut.data| && !(start <= i < start + copied) ==>
              hOut.data[i] == if i < |out0| then out0[i] else 0)
      ensures var available := |From(hIn.data, old(hIn.pos))|;
        var size := if copylength == 0 || available < copylength then available else copylength;
        && readbytes == EndOf(ends, |ends|) <= size
        && (ok ==> copied == readbytes == size)
      ensures BlockEnds(ends, bufsiz)
      ensures var existing := old(|hOut.data| - hOut.pos);
        && (ok <==> !bDifferential || forall e | e in ends :: !(existing - writeOffset < e <= existing))
        && (!ok ==> existing - writeOffset < readbytes <= existing)
      ensures ok ==>
        && hOut.pos == old(hOut.pos) + writeOffset + copied
        && writtenblocks <= copied && skippedwritebytes <= copied
      ensures !ok ==> |ends| > 0 && copied == EndOf(ends, |ends| - 1)
    {
      var existing: int := |hOut.data| - hOut.pos;
      hOut.pos := hOut.pos + writeOffset;
      ghost var input, out0, start := From(hIn.data, hIn.pos), hOut.data, hOut.pos;
      assert input[0..] == input && input[..0] == [];
      ok, ends, copied := CopyLoop(hIn, hOut, existing, input, start, out0, writeOffset);
      CopyAt(hOut.data, out0, start, input, copied);
      NoneBeyondMeans(ends, existing, writeOffset);
    }
  }
}

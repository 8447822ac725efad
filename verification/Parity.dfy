/** cxrbackup.cpp and cxrrestore.cpp: a parity stream over any number of files, from which each
    of them is to be recovered with the help of all the others. */
module Parity {
  import opened Common

  /** A file as the block loops see it: followed by zeros. */
  function Padded(f: seq<byte>, i: nat): byte {
    if i < |f| then f[i] else 0
  }

  /** The exclusive or of the i-th bytes of the first n streams. */
  function XorOf(streams: seq<seq<byte>>, n: nat, i: nat): byte
    requires n <= |streams|
  {
    if n == 0 then 0 else XorOf(streams, n - 1, i) ^ Padded(streams[n - 1], i)
  }

  function BlocksOf(size: nat): (k: nat)
    ensures 4096 * k >= size && (k > 0 ==> 4096 * (k - 1) < size)
  {
    (size + 4095) / 4096
  }

  /** The number of blocks until the longest of the first n streams has ended. */
  function Blocks(streams: seq<seq<byte>>, n: nat): nat
    requires n <= |streams|
  {
    if n == 0 then 0
    else
      var k, last := Blocks(streams, n - 1), BlocksOf(|streams[n - 1]|);
      if k < last then last else k
  }

  /** The first `size` bytes of the exclusive or of the first n streams. */
  function XorStream(streams: seq<seq<byte>>, n: nat, size: nat): (x: seq<byte>)
    requires n <= |streams|
    ensures |x| == size
  {
    seq(size, i requires 0 <= i => XorOf(streams, n, i))
  }

  /** What cxrbackup writes behind its header. */
  function ParityOf(files: seq<seq<byte>>): seq<byte> {
    XorStream(files, |files|, 4096 * Blocks(files, |files|))
  }

  // ----- what the parity is

  /** The exclusive or of no stream is zero; another stream changes it by its own bytes. */
  lemma {:induction false} XorOfPrefix(streams: seq<seq<byte>>, more: seq<seq<byte>>, n: nat, i: nat)
    requires n <= |streams|
    ensures XorOf(streams + more, n, i) == XorOf(streams, n, i)
  {
    if n > 0 {
      XorOfPrefix(streams, more, n - 1, i);
    }
  }

  lemma {:induction false} BlocksOfPrefix(streams: seq<seq<byte>>, more: seq<seq<byte>>, n: nat)
    requires n <= |streams|
    ensures Blocks(streams + more, n) == Blocks(streams, n)
  {
    if n > 0 {
      BlocksOfPrefix(streams, more, n - 1);
    }
  }

  /** The parity of no file is empty. */
  lemma ParityOfNone()
    ensures ParityOf([]) == []
  {
  }

  lemma OneStream(f: seq<byte>, i: nat)
    ensures Blocks([f], 1) == BlocksOf(|f|) && XorOf([f], 1, i) == Padded(f, i)
  {
    assert Blocks([f], 0) == 0 && XorOf([f], 0, i) == 0;
    XorCancels(0, Padded(f, i));
  }

  lemma BlockEnd(size: nat)
    ensures size <= 4096 * BlocksOf(size) < size + 4096 && 4096 * BlocksOf(size) % 4096 == 0
  {
  }

  /** The parity of one file is the file, with zeros up to the next multiple of 4096. */
  lemma ParityOfOne(f: seq<byte>)
    ensures var p := ParityOf([f]);
      && |p| % 4096 == 0 && |f| <= |p| < |f| + 4096
      && forall i :: 0 <= i < |p| ==> p[i] == if i < |f| then f[i] else 0
  {
    var p := ParityOf([f]);
    OneStream(f, 0);
    BlockEnd(|f|);
    forall i | 0 <= i < |p|
      ensures p[i] == if i < |f| then f[i] else 0
    {
      OneStream(f, i);
    }
  }

  /** Behind the end of the longest stream the exclusive or is zero. */
  lemma {:induction false} XorBehindEnd(streams: seq<seq<byte>>, n: nat, i: nat)
    requires n <= |streams| && i >= 4096 * Blocks(streams, n)
    ensures XorOf(streams, n, i) == 0
  {
    if n > 0 {
      XorBehindEnd(streams, n - 1, i);
      LongEnough(streams, n, n - 1);
    }
  }

  /** One more file: the parity is as long as the longer one, and changes by the bytes of the file. */
  lemma ParityOfMore(files: seq<seq<byte>>, f: seq<byte>)
    ensures var p, q, one := ParityOf(files), ParityOf(files + [f]), ParityOf([f]);
      && |q| == (if |p| < |one| then |one| else |p|)
      && forall i :: 0 <= i < |q| ==>
           q[i] == (if i < |p| then p[i] else 0) ^ (if i < |f| then f[i] else 0)
  {
    var p, q := ParityOf(files), ParityOf(files + [f]);
    BlocksOfPrefix(files, [f], |files|);
    OneStream(f, 0);
    forall i | 0 <= i < |q|
      ensures q[i] == (if i < |p| then p[i] else 0) ^ Padded(f, i)
    {
      XorOfPrefix(files, [f], |files|, i);
      if i >= |p| {
        XorBehindEnd(files, |files|, i);
      }
    }
  }

  // ----- recovery

  lemma XorSwap(a: byte, b: byte, c: byte)
    ensures (a ^ b) ^ c == (a ^ c) ^ b
  {
  }

  lemma XorCancels(a: byte, b: byte)
    ensures (a ^ b) ^ a == b && (a ^ b) ^ b == a && a ^ b == b ^ a && a ^ a == 0 && a ^ 0 == a
  {
  }

  /** Replacing one stream changes the exclusive or by the old and the new bytes. */
  lemma {:induction false} XorReplaced(streams: seq<seq<byte>>, n: nat, t: nat, s: seq<byte>, i: nat)
    requires n <= |streams| && t < |streams|
    ensures XorOf(streams[t := s], n, i)
            == if t < n then (XorOf(streams, n, i) ^ Padded(streams[t], i)) ^ Padded(s, i) else XorOf(streams, n, i)
  {
    if n > 0 {
      XorReplaced(streams, n - 1, t, s, i);
      var x, before, after := XorOf(streams, n - 1, i), Padded(streams[t], i), Padded(s, i);
      if t == n - 1 {
        XorCancels(x, before);
      } else if t < n {
        var b := Padded(streams[n - 1], i);
        XorSwap(x ^ before, after, b);
        XorSwap(x, before, b);
      }
    }
  }

  lemma {:induction false} LongEnough(streams: seq<seq<byte>>, n: nat, t: nat)
    requires t < n <= |streams|
    ensures |streams[t]| <= 4096 * Blocks(streams, n)
  {
    if t < n - 1 {
      LongEnough(streams, n - 1, t);
    }
  }

  /** With the parity in the place of one file, the exclusive or of all is that file. */
  lemma RecoveredByte(files: seq<seq<byte>>, t: nat, i: nat)
    requires t < |files| && i < |files[t]|
    ensures XorOf(files[t := ParityOf(files)], |files|, i) == files[t][i]
  {
    LongEnough(files, |files|, t);
    XorReplaced(files, |files|, t, ParityOf(files), i);
    var x, b := XorOf(files, |files|, i), files[t][i];
    assert Padded(ParityOf(files), i) == x;
    XorSwap(x, b, x);
    XorCancels(x, b);
  }

  /** Any one file is recovered exactly from the parity and all the other files. */
  lemma AnyFileIsRecovered(files: seq<seq<byte>>, t: nat)
    requires t < |files|
    ensures XorStream(files[t := ParityOf(files)], |files|, |files[t]|) == files[t]
  {
    forall i | 0 <= i < |files[t]|
      ensures XorOf(files[t := ParityOf(files)], |files|, i) == files[t][i]
    {
      RecoveredByte(files, t, i);
    }
  }

  ghost predicate ZeroFor(s: seq<byte>, size: nat) {
    forall i :: 0 <= i < |s| && i < size ==> s[i] == 0
  }

  /** The loop of cxrrestore leaves the last stream out. It restores a file exactly if that
      stream is zero as far as the file goes: the last file, or, when the last file is to be
      restored, the parity. */
  lemma RestoredIffLastIsZero(files: seq<seq<byte>>, t: nat)
    requires t < |files|
    ensures var streams := files[t := ParityOf(files)];
            XorStream(streams, |files| - 1, |files[t]|) == files[t]
            <==> ZeroFor(streams[|files| - 1], |files[t]|)
  {
    var streams, n := files[t := ParityOf(files)], |files|;
    var restored, last := XorStream(streams, n - 1, |files[t]|), streams[n - 1];
    forall i | 0 <= i < |files[t]|
      ensures restored[i] == files[t][i] <==> i >= |last| || last[i] == 0
    {
      RecoveredByte(files, t, i);
      var x, b := XorOf(streams, n - 1, i), Padded(last, i);
      XorCancels(x, b);
      assert x ^ b == files[t][i];
    }
    if !ZeroFor(last, |files[t]|) {
      var i :| 0 <= i < |last| && i < |files[t]| && last[i] != 0;
      assert restored[i] != files[t][i];
    }
  }

  /** Two files, of which the first is not restored. */
  lemma RestoreMayFail(a: byte, b: byte)
    requires b != 0
    ensures var files := [[a], [b]]; XorStream(files[0 := ParityOf(files)], 1, 1) != files[0]
  {
    var files := [[a], [b]];
    var streams := files[0 := ParityOf(files)];
    assert streams[1][0] == b;
    RestoredIffLastIsZero(files, 0);
  }

  /** The parity has as many blocks as the longest file. */
  lemma {:induction false} BlocksIsLongest(streams: seq<seq<byte>>, n: nat)
    requires n <= |streams|
    ensures forall s | s in streams[..n] :: BlocksOf(|s|) <= Blocks(streams, n)
    ensures n > 0 ==> exists s :: s in streams[..n] && BlocksOf(|s|) == Blocks(streams, n)
  {
    if n > 0 {
      BlocksIsLongest(streams, n - 1);
      assert streams[..n] == streams[..n - 1] + [streams[n - 1]];
      if Blocks(streams, n) == BlocksOf(|streams[n - 1]|) {
        assert streams[n - 1] in streams[..n];
      } else {
        var s :| s in streams[..n - 1] && BlocksOf(|s|) == Blocks(streams, n - 1);
        assert s in streams[..n];
      }
    }
  }

  // ----- the programs

  /** The block loops: one slot of the buffer for each stream, and slot 0 for the result. */
  class BlockLoop {
    const streams: seq<seq<byte>>
    const cBuffer: array2<byte>
    var position: nat
    var output: seq<byte>

    constructor (streams: seq<seq<byte>>)
      ensures this.streams == streams && position == 0 && output == []
      ensures fresh(cBuffer) && Valid()
    {
      this.streams, position, output := streams, 0, [];
      cBuffer := new byte[|streams| + 1, 4096]((_, _) => 0);
    }

    ghost predicate Valid()
      reads this
    {
      cBuffer.Length0 == |streams| + 1 && cBuffer.Length1 == 4096
    }

    /** The slots from 1 to n hold the next blocks of the first n streams, and slot 0 and the
        others are zero. */
    ghost predicate Loaded(n: nat)
      requires Valid() && n <= |streams|
      reads this, cBuffer
    {
      forall c, i :: 0 <= c <= |streams| && 0 <= i < 4096 ==>
        cBuffer[c, i] == if 1 <= c <= n then Padded(streams[c - 1], position + i) else 0
    }

    /** ZeroMemory, and one ReadFile for each stream. All streams are read to the same position
        or to their ends. */
    method ReadBlocks() returns (moredata: bool)
      requires Valid()
      modifies cBuffer
      ensures Loaded(|streams|)
      ensures moredata <==> exists c :: 0 <= c < |streams| && position < |streams[c]|
    {
      forall c, i | 0 <= c <= |streams| && 0 <= i < 4096 {
        cBuffer[c, i] := 0;
      }
      moredata := false;
      for c := 1 to |streams| + 1
        invariant Loaded(c - 1)
        invariant moredata <==> exists b :: 0 <= b < c - 1 && position < |streams[b]|
      {
        var stream := streams[c - 1];
        forall i | 0 <= i < 4096 && position + i < |stream| {
          cBuffer[c, i] := stream[position + i];
        }
        moredata := moredata || position < |stream|;
      }
    }

    /** The loops over the bytes of a block and the first n slots behind slot 0. */
    method XorSlots(n: nat)
      requires Valid() && n <= |streams| && Loaded(|streams|)
      modifies cBuffer
      ensures forall i :: 0 <= i < 4096 ==> cBuffer[0, i] == XorOf(streams, n, position + i)
    {
      for bytecount := 0 to 4096
        invariant forall i :: 0 <= i < bytecount ==> cBuffer[0, i] == XorOf(streams, n, position + i)
        invariant forall i :: bytecount <= i < 4096 ==> cBuffer[0, i] == 0
        invariant forall c, i :: 1 <= c <= |streams| && 0 <= i < 4096 ==>
          cBuffer[c, i] == Padded(streams[c - 1], position + i)
      {
        for filecount := 1 to n + 1
          invariant forall i :: 0 <= i < bytecount ==> cBuffer[0, i] == XorOf(streams, n, position + i)
          invariant cBuffer[0, bytecount] == XorOf(streams, filecount - 1, position + bytecount)
          invariant forall i :: bytecount < i < 4096 ==> cBuffer[0, i] == 0
          invariant forall c, i :: 1 <= c <= |streams| && 0 <= i < 4096 ==>
            cBuffer[c, i] == Padded(streams[c - 1], position + i)
        {
          cBuffer[0, bytecount] := cBuffer[0, bytecount] ^ cBuffer[filecount, bytecount];
        }
      }
    }

    /** One pass of a block loop, after the reading. */
    method WriteBlock(n: nat)
      requires Valid() && n <= |streams| && Loaded(|streams|)
      requires output == XorStream(streams, n, position)
      modifies `position, `output, cBuffer
      ensures position == old(position) + 4096 && output == XorStream(streams, n, position)
    {
      XorSlots(n);
      output := output + seq(4096, i requires 0 <= i < 4096 reads this, cBuffer => cBuffer[0, i]);
      position := position + 4096;
    }

    /** The main loop of cxrbackup: blocks are written until no stream has more data. */
    method Backup()
      requires Valid() && position == 0 && output == []
      modifies this, cBuffer
      ensures output == ParityOf(streams)
    {
      ghost var k := 0;
      while true
        invariant position == 4096 * k && k <= Blocks(streams, |streams|)
        invariant output == XorStream(streams, |streams|, position)
        decreases Blocks(streams, |streams|) - k
      {
        var moredata := ReadBlocks();
        MoreData(streams, |streams|, k);
        if !moredata {
          break;
        }
        WriteBlock(|streams|);
        k := k + 1;
      }
    }

    /** The main loop of cxrrestore, and the truncation behind it. The streams are the files of
        the backup, with the parity in the place of the one that is restored. */
    method Restore(size: nat)
      requires Valid() && position == 0 && output == [] && |streams| > 0
      modifies this, cBuffer
      ensures output == XorStream(streams, |streams| - 1, size)
    {
      while |output| < size
        invariant position == |output| && output == XorStream(streams, |streams| - 1, position)
      {
        var _ := ReadBlocks();
        WriteBlock(|streams| - 1);
      }
      output := output[..size];
    }
  }

  /** There is more data exactly before the last block of the longest stream. */
  lemma {:induction false} MoreData(streams: seq<seq<byte>>, n: nat, k: nat)
    requires n <= |streams|
    ensures (exists c :: 0 <= c < n && 4096 * k < |streams[c]|) <==> k < Blocks(streams, n)
  {
    if n > 0 {
      MoreData(streams, n - 1, k);
    }
  }
}

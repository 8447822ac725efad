/** chkfile.c: the two 64-bit checksums of a file, and the comparison of two files that
    looks at whole 8-byte words only. Together they decide equality. */
module CheckFile {
  import opened Common
  import opened Win32File
  import Euclid

  const CHUNK: nat := 16384

  /** A block is either full, which is a whole number of words, or the last one. */
  lemma BlockSizes(size: nat, left: nat)
    requires size == Min(CHUNK, left)
    ensures size % 8 == 0 || size == left
  {
    assert 16384 % 8 == 0;
  }

  lemma SumOfWholeWords(a: nat, b: nat)
    requires a % 8 == 0
    ensures (a + b) % 8 == b % 8 && (a + b) / 8 * 8 == a + b / 8 * 8
  {
    Euclid.DivModUnique(a + b, 8, a / 8 + b / 8, b % 8);
  }

  // ----- 64-bit words

  /** Eight bytes in memory order as a little-endian word. */
  function Join(b0: byte, b1: byte, b2: byte, b3: byte, b4: byte, b5: byte, b6: byte, b7: byte): bv64 {
    (b0 as bv64) | ((b1 as bv64) << 8) | ((b2 as bv64) << 16) | ((b3 as bv64) << 24)
    | ((b4 as bv64) << 32) | ((b5 as bv64) << 40) | ((b6 as bv64) << 48) | ((b7 as bv64) << 56)
  }

  lemma JoinInjective(a0: byte, a1: byte, a2: byte, a3: byte, a4: byte, a5: byte, a6: byte, a7: byte,
                      b0: byte, b1: byte, b2: byte, b3: byte, b4: byte, b5: byte, b6: byte, b7: byte)
    requires Join(a0, a1, a2, a3, a4, a5, a6, a7) == Join(b0, b1, b2, b3, b4, b5, b6, b7)
    ensures a0 == b0 && a1 == b1 && a2 == b2 && a3 == b3 && a4 == b4 && a5 == b5 && a6 == b6 && a7 == b7
  {
  }

  /** The bytes of a word, the lowest first. */
  lemma JoinBytes(b0: byte, b1: byte, b2: byte, b3: byte, b4: byte, b5: byte, b6: byte, b7: byte)
    ensures var w := Join(b0, b1, b2, b3, b4, b5, b6, b7);
      && w & 0xFF == b0 as bv64 && (w >> 8) & 0xFF == b1 as bv64
      && (w >> 16) & 0xFF == b2 as bv64 && (w >> 24) & 0xFF == b3 as bv64
      && (w >> 32) & 0xFF == b4 as bv64 && (w >> 40) & 0xFF == b5 as bv64
      && (w >> 48) & 0xFF == b6 as bv64 && w >> 56 == b7 as bv64
  {
  }

  function Word(b: seq<byte>): bv64
    requires |b| == 8
  {
    Join(b[0], b[1], b[2], b[3], b[4], b[5], b[6], b[7])
  }

  lemma WordInjective(a: seq<byte>, b: seq<byte>)
    requires |a| == |b| == 8 && Word(a) == Word(b)
    ensures forall k :: 0 <= k < 8 ==> a[k] == b[k]
  {
    var a0, a1, a2, a3 := a[0], a[1], a[2], a[3];
    var a4, a5, a6, a7 := a[4], a[5], a[6], a[7];
    var b0, b1, b2, b3 := b[0], b[1], b[2], b[3];
    var b4, b5, b6, b7 := b[4], b[5], b[6], b[7];
    JoinInjective(a0, a1, a2, a3, a4, a5, a6, a7, b0, b1, b2, b3, b4, b5, b6, b7);
  }

  /** The word that starts at byte k. */
  function WordAt(s: seq<byte>, k: nat): bv64
    requires k + 8 <= |s|
  {
    Word(s[k..k + 8])
  }

  /** A block of whole words. */
  function Words(s: seq<byte>): (ws: seq<bv64>)
    requires |s| % 8 == 0
    ensures |ws| == |s| / 8
  {
    seq(|s| / 8, i requires 0 <= i < |s| / 8 => WordAt(s, 8 * i))
  }

  lemma SameWordSameBytes(a: seq<byte>, b: seq<byte>, k: nat)
    requires k + 8 <= |a| && k + 8 <= |b| && WordAt(a, k) == WordAt(b, k)
    ensures a[k..k + 8] == b[k..k + 8]
  {
    WordInjective(a[k..k + 8], b[k..k + 8]);
  }

  /** The words of a concatenation, by the bytes at which they start. */
  lemma WordOfFirst(a: seq<byte>, b: seq<byte>, k: nat)
    requires k + 8 <= |a|
    ensures WordAt(a + b, k) == WordAt(a, k)
  {
    assert (a + b)[k..k + 8] == a[k..k + 8];
  }

  lemma WordOfSecond(a: seq<byte>, b: seq<byte>, k: nat)
    requires k + 8 <= |b|
    ensures WordAt(a + b, |a| + k) == WordAt(b, k)
  {
    assert (a + b)[|a| + k..|a| + k + 8] == b[k..k + 8];
  }

  lemma WordsOfConcat(a: seq<byte>, b: seq<byte>)
    requires |a| % 8 == 0 && |b| % 8 == 0
    ensures Words(a + b) == Words(a) + Words(b)
  {
    var m, n := |a| / 8, |b| / 8;
    assert 8 * m == |a| && 8 * n == |b| && |Words(a + b)| == m + n;
    forall i {:trigger Words(a + b)[i]} | 0 <= i < m + n
      ensures Words(a + b)[i] == (Words(a) + Words(b))[i]
    {
      if i < m {
        WordOfFirst(a, b, 8 * i);
      } else {
        WordOfSecond(a, b, 8 * (i - m));
      }
    }
  }

  lemma WordsInjective(a: seq<byte>, b: seq<byte>)
    requires |a| == |b| == 8 && Words(a) == Words(b)
    ensures a == b
  {
    assert Words(a)[0] == WordAt(a, 0) && Words(b)[0] == WordAt(b, 0);
    SameWordSameBytes(a, b, 0);
    assert a == a[0..8] && b == b[0..8];
  }

  /** A block filled up with zeros to whole words. */
  function Padded(s: seq<byte>): (p: seq<byte>)
    ensures |p| % 8 == 0 && |s| <= |p| < |s| + 8 && p[..|s|] == s
  {
    if |s| % 8 == 0 then s else s + Zeros(8 - |s| % 8)
  }

  lemma PaddedAt(s: seq<byte>)
    ensures forall i :: 0 <= i < |Padded(s)| ==> Padded(s)[i] == if i < |s| then s[i] else 0
  {
    assert Padded(s)[..|s|] == s;
  }

  /** The number of bytes at the front of s that are whole words. */
  function WholeWords(s: seq<byte>): (n: nat)
    ensures n <= |s| < n + 8 && n % 8 == 0
  {
    |s| / 8 * 8
  }

  // ----- the checksums as functions

  datatype Sums = Sums(c0: bv64, c1: bv64)

  /** An index as a 64-bit word. */
  function Index(n: nat): bv64 {
    if n == 0 then 0 else Index(n - 1) + 1
  }

  function Xor(a: bv64, b: bv64): bv64 { a ^ b }

  function Sum(c: bv64, w: bv64, c0: bv64, index: bv64): bv64 { c + (w + c0 + index + 1) }

  function AddWord(s: Sums, w: bv64, index: nat): Sums {
    var c0 := Xor(s.c0, w);
    Sums(c0, Sum(s.c1, w, c0, Index(index)))
  }

  /** The first n words of a block added to s. */
  function AddWords(s: Sums, ws: seq<bv64>, n: nat): Sums
    requires n <= |ws|
  {
    if n == 0 then s else AddWord(AddWords(s, ws, n - 1), ws[n - 1], n - 1)
  }

  function AddBlock(s: Sums, block: seq<byte>): Sums {
    var ws := Words(Padded(block));
    AddWords(s, ws, |ws|)
  }

  function AddFile(s: Sums, data: seq<byte>): Sums
    decreases |data|
  {
    if data == [] then s
    else
      var n := Min(CHUNK, |data|);
      AddFile(AddBlock(s, data[..n]), data[n..])
  }

  function FileSums(data: seq<byte>): Sums {
    AddFile(Sums(0, 0), data)
  }

  // ----- the first checksum is the exclusive or of all words

  function XorWords(ws: seq<bv64>): bv64 {
    if ws == [] then 0 else Xor(XorWords(ws[..|ws| - 1]), ws[|ws| - 1])
  }

  lemma ThreeWords(a: bv64, b: bv64, c: bv64) returns (r: bv64)
    ensures r == Xor(Xor(a, b), c) && r == Xor(a, Xor(b, c))
  {
    r := a ^ b ^ c;
  }

  lemma XorAssociates(a: bv64, b: bv64, c: bv64)
    ensures Xor(Xor(a, b), c) == Xor(a, Xor(b, c))
  {
    var r := ThreeWords(a, b, c);
  }

  lemma XorCancels(a: bv64, b: bv64, c: bv64)
    requires Xor(a, b) == Xor(a, c)
    ensures b == c
  {
    assert a ^ (a ^ b) == b && a ^ (a ^ c) == c;
  }

  lemma XorZero(a: bv64)
    ensures Xor(a, 0) == a && Xor(0, a) == a && Xor(a, a) == 0
  {
  }

  lemma {:induction false} XorOfConcat(a: seq<bv64>, b: seq<bv64>)
    ensures XorWords(a + b) == Xor(XorWords(a), XorWords(b))
    decreases |b|
  {
    if b == [] {
      assert a + b == a;
      XorZero(XorWords(a));
    } else {
      var b', w := b[..|b| - 1], b[|b| - 1];
      XorOfConcat(a, b');
      assert (a + b)[..|a + b| - 1] == a + b';
      XorAssociates(XorWords(a), XorWords(b'), w);
    }
  }

  lemma {:induction false} WordsXor(s: Sums, ws: seq<bv64>, n: nat)
    requires n <= |ws|
    ensures AddWords(s, ws, n).c0 == Xor(s.c0, XorWords(ws[..n]))
  {
    if n == 0 {
      XorZero(s.c0);
    } else {
      WordsXor(s, ws, n - 1);
      assert ws[..n][..n - 1] == ws[..n - 1];
      XorAssociates(s.c0, XorWords(ws[..n - 1]), ws[n - 1]);
    }
  }

  lemma BlockXor(s: Sums, block: seq<byte>)
    ensures AddBlock(s, block).c0 == Xor(s.c0, XorWords(Words(Padded(block))))
  {
    var ws := Words(Padded(block));
    WordsXor(s, ws, |ws|);
    assert ws[..|ws|] == ws;
  }

  lemma PaddedBlocks(data: seq<byte>, n: nat)
    requires n <= |data| && (n % 8 == 0 || n == |data|)
    ensures Padded(data) == Padded(data[..n]) + Padded(data[n..])
  {
    var front, tail := data[..n], data[n..];
    assert data == front + tail;
    if n == |data| {
      assert data[..n] == data && tail == [] && Padded(tail) == [];
    } else {
      PaddedTail(front, tail);
    }
  }

  lemma PaddedTail(front: seq<byte>, tail: seq<byte>)
    requires |front| % 8 == 0
    ensures Padded(front + tail) == Padded(front) + Padded(tail)
  {
    assert (|front| + |tail|) % 8 == |tail| % 8;
    if |tail| % 8 != 0 {
      var z := Zeros(8 - |tail| % 8);
      assert (front + tail) + z == front + (tail + z);
    }
  }

  lemma {:induction false} FileXor(s: Sums, data: seq<byte>)
    ensures AddFile(s, data).c0 == Xor(s.c0, XorWords(Words(Padded(data))))
    decreases |data|
  {
    if data == [] {
      assert Words(Padded(data)) == [];
      XorZero(s.c0);
    } else {
      var n := Min(CHUNK, |data|);
      var block, rest := data[..n], data[n..];
      BlockSizes(n, |data|);
      BlockXor(s, block);
      FileXor(AddBlock(s, block), rest);
      PaddedBlocks(data, n);
      WordsOfConcat(Padded(block), Padded(rest));
      XorOfConcat(Words(Padded(block)), Words(Padded(rest)));
      XorAssociates(s.c0, XorWords(Words(Padded(block))), XorWords(Words(Padded(rest))));
    }
  }

  // ----- both checksums, word by word

  lemma NextNumber(x: bv64)
    requires x < 2048
    ensures (x + 1) as nat == x as nat + 1 && x + 1 <= 2048
  {
  }

  lemma SmallNumber(x: bv64)
    requires x <= 2048 && x as nat < 2048
    ensures x < 2048
  {
  }

  lemma NextIndex(x: bv64, n: nat) returns (y: bv64)
    requires x < 2048 && x as nat == n && n + 1 < 2048
    ensures y == x + 1 && y < 2048 && y as nat == n + 1
  {
    NextNumber(x);
    SmallNumber(x + 1);
    y := x + 1;
  }

  /** The index of a word in its block, as a 64-bit word, is that number. */
  lemma {:induction false} IndexIsNumber(n: nat) returns (x: bv64)
    requires n < 2048
    ensures x == Index(n) && x as nat == n && x < 2048
  {
    if n == 0 {
      x := 0;
    } else {
      var y := IndexIsNumber(n - 1);
      x := NextIndex(y, n - 1);
    }
  }

  lemma SumAdds(c: bv64, w: bv64, c0: bv64, index: bv64)
    ensures Sum(c, w, c0, index) == c + (w + c0 + index + 1)
  {
  }

  lemma XorIsExclusiveOr(a: bv64, b: bv64)
    ensures Xor(a, b) == a ^ b
  {
  }

  /** What a word does to the checksums: it goes into the first one by exclusive or; to the second
      one the word, the new first one, and the number of the word in its block, counted from 1,
      are added modulo 2^64. */
  lemma WordAdded(s: Sums, w: bv64, i: nat)
    ensures AddWord(s, w, i) == Sums(Xor(s.c0, w), Sum(s.c1, w, Xor(s.c0, w), Index(i)))
  {
  }

  /** Words taken one by one, numbered from k on and anew in every block of 2048. */
  function Fold<S, W>(f: (S, W, nat) -> S, s: S, ws: seq<W>, k: nat): S
    decreases |ws|
  {
    if ws == [] then s else Fold(f, f(s, ws[0], k % 2048), ws[1..], k + 1)
  }

  lemma {:induction false} FoldConcat<S, W>(f: (S, W, nat) -> S, s: S, a: seq<W>, b: seq<W>, k: nat)
    ensures Fold(f, s, a + b, k) == Fold(f, Fold(f, s, a, k), b, k + |a|)
    decreases |a|
  {
    if a == [] {
      assert a + b == b;
    } else {
      assert (a + b)[0] == a[0] && (a + b)[1..] == a[1..] + b;
      FoldConcat(f, f(s, a[0], k % 2048), a[1..], b, k + 1);
    }
  }

  lemma SameNumber(k: nat)
    ensures (k + 2048) % 2048 == k % 2048
  {
    Euclid.DivModUnique(k + 2048, 2048, k / 2048 + 1, k % 2048);
  }

  lemma {:induction false} FoldShift<S, W>(f: (S, W, nat) -> S, s: S, ws: seq<W>, k: nat)
    ensures Fold(f, s, ws, k + 2048) == Fold(f, s, ws, k)
    decreases |ws|
  {
    if ws != [] {
      SameNumber(k);
      FoldShift(f, f(s, ws[0], k % 2048), ws[1..], k + 1);
    }
  }

  lemma FoldOne<S, W>(f: (S, W, nat) -> S, s: S, w: W, k: nat)
    requires k < 2048
    ensures Fold(f, s, [w], k) == f(s, w, k)
  {
    assert [w][1..] == [];
  }

  lemma FoldLast<S, W>(f: (S, W, nat) -> S, s: S, ws: seq<W>, w: W) returns (t: S)
    requires |ws| < 2048
    ensures t == Fold(f, s, ws, 0) && Fold(f, s, ws + [w], 0) == f(t, w, |ws|)
  {
    t := Fold(f, s, ws, 0);
    FoldConcat(f, s, ws, [w], 0);
    FoldOne(f, t, w, |ws|);
  }

  /** A full block, and what is behind it, which is numbered anew. */
  lemma FoldBlock<S, W>(f: (S, W, nat) -> S, s: S, block: seq<W>, others: seq<W>)
    requires others == [] || |block| == 2048
    ensures Fold(f, s, block + others, 0) == Fold(f, Fold(f, s, block, 0), others, 0)
  {
    FoldConcat(f, s, block, others, 0);
    if others != [] {
      FoldShift(f, Fold(f, s, block, 0), others, 0);
    }
  }

  lemma {:induction false} AddWordsFolds(s: Sums, ws: seq<bv64>, n: nat)
    requires n <= |ws| && n <= 2048
    ensures AddWords(s, ws, n) == Fold(AddWord, s, ws[..n], 0)
  {
    if n > 0 {
      AddWordsFolds(s, ws, n - 1);
      assert ws[..n] == ws[..n - 1] + [ws[n - 1]];
      var t := FoldLast(AddWord, s, ws[..n - 1], ws[n - 1]);
    }
  }

  lemma BlockWords(n: nat, p: nat)
    requires n <= CHUNK && n <= p < n + 8 && p % 8 == 0
    ensures p / 8 <= 2048 && (n == CHUNK ==> p / 8 == 2048)
  {
    assert 16384 % 8 == 0;
  }

  /** The words of the next block, and what is behind them. */
  lemma WordsOfBlock(rest: seq<byte>, n: nat) returns (block: seq<bv64>, others: seq<bv64>)
    requires rest != [] && n == Min(CHUNK, |rest|)
    ensures block == Words(Padded(rest[..n])) && others == Words(Padded(rest[n..]))
    ensures Words(Padded(rest)) == block + others
    ensures |block| <= 2048 && (others == [] || |block| == 2048)
  {
    BlockSizes(n, |rest|);
    PaddedBlocks(rest, n);
    block, others := Words(Padded(rest[..n])), Words(Padded(rest[n..]));
    WordsOfConcat(Padded(rest[..n]), Padded(rest[n..]));
    BlockWords(n, |Padded(rest[..n])|);
  }

  lemma BlockAdds(s: Sums, data: seq<byte>, block: seq<bv64>)
    requires block == Words(Padded(data)) && |block| <= 2048
    ensures AddBlock(s, data) == Fold(AddWord, s, block, 0)
  {
    AddWordsFolds(s, block, |block|);
    assert block[..|block|] == block;
  }

  lemma {:induction false} FileFolds(s: Sums, data: seq<byte>) returns (ws: seq<bv64>)
    ensures ws == Words(Padded(data)) && AddFile(s, data) == Fold(AddWord, s, ws, 0)
    decreases |data|
  {
    ws := Words(Padded(data));
    if data != [] {
      var n := Min(CHUNK, |data|);
      var block, others := WordsOfBlock(data, n);
      BlockAdds(s, data[..n], block);
      FoldBlock(AddWord, s, block, others);
      FirstBlock(s, data, n);
      var ws' := FileFolds(AddBlock(s, data[..n]), data[n..]);
    }
  }

  /** The checksums of a file are those of the words of the zero-padded file, one by one. */
  lemma FileSumsFold(data: seq<byte>)
    ensures FileSums(data) == Fold(AddWord, Sums(0, 0), Words(Padded(data)), 0)
  {
    var ws := FileFolds(Sums(0, 0), data);
  }

  // ----- equal files

  /** Equal fronts and equal sums leave no room for different last words. */
  lemma EqualFrontsAndSums(front: seq<byte>, t: seq<byte>, u: seq<byte>)
    requires |front| % 8 == 0 && |t| == |u| == 8
    requires XorWords(Words(front + t)) == XorWords(Words(front + u))
    ensures t == u
  {
    WordsOfConcat(front, t);
    WordsOfConcat(front, u);
    XorOfConcat(Words(front), Words(t));
    XorOfConcat(Words(front), Words(u));
    XorCancels(XorWords(Words(front)), XorWords(Words(t)), XorWords(Words(u)));
    OneWord(Words(t));
    OneWord(Words(u));
    WordsInjective(t, u);
  }

  lemma OneWord(ws: seq<bv64>)
    requires |ws| == 1
    ensures XorWords(ws) == ws[0] && ws == [ws[0]]
  {
    assert ws[..0] == [];
    XorZero(ws[0]);
  }

  lemma FrontAndTail(s: seq<byte>, n: nat)
    requires n <= |s|
    ensures s == s[..n] + Padded(s[n..])[..|s| - n]
  {
  }

  /** The comparison ignores up to seven bytes at the end of a file; the zero-padded
      exclusive or closes exactly that gap. */
  lemma EqualWordsAndSums(a: seq<byte>, b: seq<byte>)
    requires |a| == |b| && a[..WholeWords(a)] == b[..WholeWords(b)]
    requires FileSums(a).c0 == FileSums(b).c0
    ensures a == b
  {
    var n := WholeWords(a);
    if |a| % 8 == 0 {
      assert a == a[..n] && b == b[..n];
    } else {
      FileXor(Sums(0, 0), a);
      FileXor(Sums(0, 0), b);
      XorZero(XorWords(Words(Padded(a))));
      XorZero(XorWords(Words(Padded(b))));
      var t, u := Padded(a[n..]), Padded(b[n..]);
      PaddedBlocks(a, n);
      PaddedBlocks(b, n);
      assert a[..n] == Padded(a[..n]) && b[..n] == Padded(b[..n]);
      EqualFrontsAndSums(a[..n], t, u);
      FrontAndTail(a, n);
      FrontAndTail(b, n);
    }
  }

  // ----- the programs

  lemma FirstBlock(s: Sums, data: seq<byte>, n: nat)
    requires data != [] && n == Min(CHUNK, |data|)
    ensures AddFile(s, data) == AddFile(AddBlock(s, data[..n]), data[n..])
  {
  }

  /** The body of the loop of GetFileCheckSum: one block is read and added. */
  method AddNextBlock(h: FileHandle, buffer: array<byte>, sums: Sums) returns (dwReadSize: nat, sums': Sums)
    requires buffer.Length == CHUNK
    modifies h`pos, buffer
    ensures dwReadSize == 0 ==> From(h.data, h.pos) == []
    ensures dwReadSize > 0 ==> |From(h.data, h.pos)| < |From(h.data, old(h.pos))|
    ensures AddFile(sums', From(h.data, h.pos)) == AddFile(sums, From(h.data, old(h.pos)))
  {
    ghost var rest := From(h.data, h.pos);
    dwReadSize := h.Read(buffer, CHUNK);
    if dwReadSize == 0 {
      return 0, sums;
    }
    FirstBlock(sums, rest, dwReadSize);
    assert From(h.data, h.pos) == rest[dwReadSize..];
    sums' := AddBuffer(sums, buffer, dwReadSize);
  }

  /** GetFileCheckSum */
  method GetFileCheckSum(h: FileHandle) returns (sums: Sums)
    modifies h`pos
    ensures sums == FileSums(From(h.data, old(h.pos)))
  {
    var buffer := new byte[CHUNK](_ => 0);
    sums := Sums(0, 0);
    ghost var whole := FileSums(From(h.data, h.pos));
    while true
      invariant AddFile(sums, From(h.data, h.pos)) == whole
      decreases |From(h.data, h.pos)|
    {
      var dwReadSize;
      dwReadSize, sums := AddNextBlock(h, buffer, sums);
      if dwReadSize == 0 {
        break;
      }
    }
  }

  /** The part of GetFileCheckSum that pads one block. */
  method PadBuffer(buffer: array<byte>, readSize: nat) returns (dwReadSize: nat)
    requires buffer.Length % 8 == 0 && readSize <= buffer.Length
    modifies buffer
    ensures dwReadSize <= buffer.Length && buffer[..dwReadSize] == Padded(old(buffer[..readSize]))
  {
    ghost var s := buffer[..readSize];
    dwReadSize := readSize;
    if dwReadSize % 8 != 0 {
      dwReadSize := dwReadSize + (8 - dwReadSize % 8);
      PaddingFits(readSize, buffer.Length);
      forall i | readSize <= i < dwReadSize {
        buffer[i] := 0;
      }
      assert buffer[..dwReadSize] == s + Zeros(dwReadSize - readSize);
    }
  }

  lemma PaddingFits(size: nat, length: nat)
    requires size <= length && length % 8 == 0 && size % 8 != 0
    ensures size + (8 - size % 8) <= length
  {
  }

  /** The part of GetFileCheckSum for one block. */
  method AddBuffer(before: Sums, buffer: array<byte>, readSize: nat) returns (sums: Sums)
    requires buffer.Length == CHUNK && readSize <= CHUNK
    modifies buffer
    ensures sums == AddBlock(before, old(buffer[..readSize]))
  {
    var dwReadSize := PadBuffer(buffer, readSize);
    sums := AddAllWords(before, buffer, dwReadSize / 8, dwReadSize);
  }

  /** The loop over the words of a block of n bytes. */
  method AddAllWords(before: Sums, buffer: array<byte>, words: nat, ghost n: nat) returns (sums: Sums)
    requires n == 8 * words <= buffer.Length
    ensures sums == AddWords(before, Words(buffer[..n]), words)
  {
    ghost var ws := Words(buffer[..n]);
    sums := before;
    var dwBufferIdx := 0;
    while dwBufferIdx < words
      invariant 0 <= dwBufferIdx <= words && sums == AddWords(before, ws, dwBufferIdx)
    {
      sums := AddNextWord(before, sums, buffer, dwBufferIdx, n, ws);
      dwBufferIdx := dwBufferIdx + 1;
    }
  }

  method AddNextWord(ghost before: Sums, sums: Sums, buffer: array<byte>, i: nat, ghost n: nat, ghost ws: seq<bv64>)
    returns (sums': Sums)
    requires 8 * i + 8 <= n <= buffer.Length && n % 8 == 0 && ws == Words(buffer[..n])
    requires sums == AddWords(before, ws, i)
    ensures sums' == AddWords(before, ws, i + 1)
  {
    var w := BufferWord(buffer, i, n);
    sums' := AddWord(sums, w, i);
  }

  /** Reading word i of a buffer of bytes. */
  method BufferWord(buffer: array<byte>, i: nat, ghost n: nat) returns (w: bv64)
    requires 8 * i + 8 <= n <= buffer.Length && n % 8 == 0
    ensures w == Words(buffer[..n])[i]
    ensures w == WordAt(buffer[..], 8 * i)
  {
    w := Word(buffer[8 * i..8 * i + 8]);
    assert buffer[..n][8 * i..8 * i + 8] == buffer[8 * i..8 * i + 8] == buffer[..][8 * i..8 * i + 8];
  }

  /** CompareMemory */
  method CompareMemory(mem1: array<byte>, mem2: array<byte>, blocks: nat) returns (equal: bool)
    requires 8 * blocks <= mem1.Length && 8 * blocks <= mem2.Length
    ensures equal <==> mem1[..8 * blocks] == mem2[..8 * blocks]
  {
    var dwIndex := 0;
    while dwIndex < blocks
      invariant 0 <= dwIndex <= blocks
      invariant mem1[..8 * dwIndex] == mem2[..8 * dwIndex]
    {
      ghost var lo, hi := 8 * dwIndex, 8 * dwIndex + 8;
      var w1 := BufferWord(mem1, dwIndex, hi);
      var w2 := BufferWord(mem2, dwIndex, hi);
      if w1 != w2 {
        assert mem1[..8 * blocks][lo..hi] == mem1[..][lo..hi] && mem2[..8 * blocks][lo..hi] == mem2[..][lo..hi];
        return false;
      }
      SameWordSameBytes(mem1[..], mem2[..], lo);
      assert mem1[..hi] == mem1[..lo] + mem1[..][lo..hi] && mem2[..hi] == mem2[..lo] + mem2[..][lo..hi];
      dwIndex := dwIndex + 1;
    }
    return true;
  }

  datatype CompareStatus = Equal | File1Failed | File2Failed | File1Longer | File2Longer | NotEqual

  /** What the statuses say about the two byte sequences compared. */
  ghost predicate Decides(status: CompareStatus, a: seq<byte>, b: seq<byte>) {
    match status
    case Equal => |a| == |b| && a[..WholeWords(a)] == b[..WholeWords(b)]
    case File1Longer => |a| > |b|
    case File2Longer => |a| < |b|
    case NotEqual => a != b && !(|a| == |b| && a[..WholeWords(a)] == b[..WholeWords(b)])
    case _ => false
  }

  /** The statuses byte by byte: the last bytes of sizes that are no multiple of 8 do not count. */
  lemma StatusMeans(a: seq<byte>, b: seq<byte>)
    ensures Decides(File1Longer, a, b) <==> |a| > |b|
    ensures Decides(File2Longer, a, b) <==> |a| < |b|
    ensures Decides(Equal, a, b) <==> |a| == |b| && forall k :: 0 <= k < |a| - |a| % 8 ==> a[k] == b[k]
    ensures Decides(NotEqual, a, b) <==> !Decides(Equal, a, b)
  {
    if |a| == |b| {
      var n := WholeWords(a);
      assert n == |a| - |a| % 8;
      if a[..n] == b[..n] {
        forall k | 0 <= k < n
          ensures a[k] == b[k]
        {
          assert a[..n][k] == b[..n][k];
        }
      }
    }
  }

  /** Equal files are never reported as different; different files are reported as equal exactly
      when they differ in the last, incomplete word alone. */
  lemma EqualStatusMeans(a: seq<byte>, b: seq<byte>)
    ensures a == b ==> !Decides(NotEqual, a, b) && !Decides(File1Longer, a, b) && !Decides(File2Longer, a, b)
    ensures Decides(Equal, a, b) && a != b
            <==> |a| == |b| && a[..WholeWords(a)] == b[..WholeWords(b)] && a[WholeWords(a)..] != b[WholeWords(b)..]
  {
    if |a| == |b| {
      var n := WholeWords(a);
      assert a == a[..n] + a[n..] && b == b[..n] + b[n..];
    }
  }

  /** The status Equal can be relied on exactly for files that consist of whole words. */
  lemma EqualIsReliable(a: seq<byte>)
    ensures (forall b :: Decides(Equal, a, b) ==> a == b) <==> |a| % 8 == 0
  {
    if |a| % 8 != 0 {
      var last := |a| - 1;
      var b := a[last := a[last] ^ 1];
      assert b[last] != a[last];
      assert Decides(Equal, a, b);
    }
  }

  /** Two different files of one byte that are reported as equal. */
  lemma EqualStatusMayBeWrong()
    ensures var a: seq<byte>, b: seq<byte> := [1], [2]; Decides(Equal, a, b) && a != b
  {
  }

  /** The first `done` bytes have been read from both files and compared. */
  ghost predicate Compared(a: seq<byte>, b: seq<byte>, done: nat) {
    && done <= |a| && done <= |b|
    && (done % 8 == 0 ==> a[..done] == b[..done])
    && (done % 8 != 0 ==> done == |a| == |b| && a[..WholeWords(a)] == b[..WholeWords(b)])
  }

  lemma WholeWordsBelow(s: seq<byte>, k: nat)
    requires k <= |s|
    ensures k / 8 * 8 <= WholeWords(s)
  {
    Euclid.DivModUnique(k, 8, k / 8, k % 8);
  }

  /** Fronts that differ in a part are different. */
  lemma PartsDiffer(a: seq<byte>, b: seq<byte>, from: nat, m: nat, n: nat)
    requires from <= m <= n <= |a| && n <= |b| && a[from..m] != b[from..m]
    ensures a[..n] != b[..n]
  {
    assert a[..n][from..m] == a[from..m] && b[..n][from..m] == b[from..m];
  }

  lemma FrontsJoin(a: seq<byte>, b: seq<byte>, from: nat, m: nat)
    requires from <= m <= |a| && m <= |b| && a[..from] == b[..from] && a[from..m] == b[from..m]
    ensures a[..m] == b[..m]
  {
    assert a[..m] == a[..from] + a[from..m] && b[..m] == b[..from] + b[from..m];
  }

  /** One more block of size n has been compared, as far as it consists of whole words. */
  lemma BlockCompared(a: seq<byte>, b: seq<byte>, done: nat, n: nat, m: nat)
    requires Compared(a, b, done) && done % 8 == 0
    requires n == Min(CHUNK, |a| - done) == Min(CHUNK, |b| - done) && m == done + n / 8 * 8
    ensures a[done..m] == b[done..m] ==> Compared(a, b, done + n)
    ensures a[done..m] != b[done..m] ==> Decides(NotEqual, a, b)
  {
    BlockSizes(n, |a| - done);
    BlockSizes(n, |b| - done);
    SumOfWholeWords(done, n);
    assert m == (done + n) / 8 * 8;
    if a[done..m] == b[done..m] {
      FrontsJoin(a, b, done, m);
    } else {
      PartsDiffer(a, b, done, m, m);
      if |a| == |b| {
        WholeWordsBelow(a, done + n);
        PartsDiffer(a, b, done, m, WholeWords(a));
      }
    }
  }

  /** What the comparison of the whole words of two blocks means for the files. */
  lemma BlocksDecide(a: seq<byte>, b: seq<byte>, done: nat, n: nat, block1: seq<byte>, block2: seq<byte>, same: bool)
    requires Compared(a, b, done) && done % 8 == 0
    requires n == Min(CHUNK, |a| - done) == Min(CHUNK, |b| - done)
    requires n <= |block1| && n <= |block2|
    requires block1[..n] == a[done..][..n] && block2[..n] == b[done..][..n]
    requires same <==> block1[..8 * (n / 8)] == block2[..8 * (n / 8)]
    ensures same ==> Compared(a, b, done + n)
    ensures !same ==> Decides(NotEqual, a, b)
  {
    var w := 8 * (n / 8);
    FrontOfBlock(a, done, n, w, block1);
    FrontOfBlock(b, done, n, w, block2);
    BlockCompared(a, b, done, n, done + w);
  }

  lemma FrontOfBlock(a: seq<byte>, done: nat, n: nat, w: nat, block: seq<byte>)
    requires w <= n <= |block| && done + n <= |a| && block[..n] == a[done..][..n]
    ensures block[..w] == a[done..done + w]
  {
    assert block[..w] == block[..n][..w] && a[done..done + w] == a[done..][..n][..w];
  }

  /** What the sizes of the next two blocks mean for the files. */
  lemma SizesDecide(a: seq<byte>, b: seq<byte>, done: nat, size1: nat, size2: nat)
    requires Compared(a, b, done)
    requires size1 == Min(CHUNK, |a| - done) && size2 == Min(CHUNK, |b| - done)
    ensures size1 > size2 ==> Decides(File1Longer, a, b)
    ensures size1 < size2 ==> Decides(File2Longer, a, b)
    ensures size1 == size2 == 0 ==> Decides(Equal, a, b)
    ensures size1 == size2 > 0 ==> done % 8 == 0
  {
    if size1 == size2 == 0 {
      assert a == a[..done] && b == b[..done];
    }
  }

  /** One pass of the loop of CompareFiles: a decision, or one more block compared. */
  method CompareBlock(h1: FileHandle, h2: FileHandle, buffer1: array<byte>, buffer2: array<byte>,
                      ghost a: seq<byte>, ghost b: seq<byte>, ghost done: nat)
    returns (decided: bool, status: CompareStatus, ghost size: nat)
    requires h1 != h2 && buffer1 != buffer2 && buffer1.Length == buffer2.Length == CHUNK
    requires Compared(a, b, done)
    requires From(h1.data, h1.pos) == a[done..] && From(h2.data, h2.pos) == b[done..]
    modifies h1`pos, h2`pos, buffer1, buffer2
    ensures decided ==> Decides(status, a, b)
    ensures !decided ==> size > 0 && Compared(a, b, done + size)
                         && From(h1.data, h1.pos) == a[done + size..] && From(h2.data, h2.pos) == b[done + size..]
  {
    status, size := NotEqual, 0;
    var size1 := h1.Read(buffer1, CHUNK);
    var size2 := h2.Read(buffer2, CHUNK);
    SizesDecide(a, b, done, size1, size2);
    if size1 > size2 {
      return true, File1Longer, 0;
    } else if size1 < size2 {
      return true, File2Longer, 0;
    } else if size1 == 0 {
      return true, Equal, 0;
    }
    var same := CompareMemory(buffer1, buffer2, size1 / 8);
    BlocksDecide(a, b, done, size1, buffer1[..], buffer2[..], same);
    if !same {
      return true, NotEqual, 0;
    }
    return false, NotEqual, size1;
  }

  /** The loop of CompareFiles, both files being open. */
  method CompareOpenFiles(h1: FileHandle, h2: FileHandle) returns (status: CompareStatus)
    requires h1 != h2
    modifies h1`pos, h2`pos
    ensures Decides(status, From(h1.data, old(h1.pos)), From(h2.data, old(h2.pos)))
  {
    var buffer1 := new byte[CHUNK](_ => 0);
    var buffer2 := new byte[CHUNK](_ => 0);
    ghost var a, b := From(h1.data, h1.pos), From(h2.data, h2.pos);
    ghost var done: nat := 0;
    while true
      invariant Compared(a, b, done)
      invariant From(h1.data, h1.pos) == a[done..] && From(h2.data, h2.pos) == b[done..]
      decreases |a| - done
    {
      var decided, s, size := CompareBlock(h1, h2, buffer1, buffer2, a, b, done);
      if decided {
        return s;
      }
      done := done + size;
    }
  }
}

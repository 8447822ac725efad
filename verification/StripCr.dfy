/** stripcr.c: removing the carriage returns of a stream, or of a file in place through memory
    maps. In place, the file is one array that is read and written at the same time: through a
    read window, and through a write window that lags behind it. */
module StripCr {
  const CR := '\r'
  const MMPSIZE: nat := 524288
  const IOBSIZE: nat := 16384

  function Strip(s: string): string {
    if s == [] then [] else if s[0] == CR then Strip(s[1..]) else [s[0]] + Strip(s[1..])
  }

  lemma {:induction false} StripConcat(s: string, t: string)
    ensures Strip(s + t) == Strip(s) + Strip(t)
  {
    if s == [] {
      assert s + t == t;
    } else {
      StripConcat(s[1..], t);
      var r := s + t;
      assert r[0] == s[0] && r[1..] == s[1..] + t;
      if s[0] != CR {
        assert [s[0]] + (Strip(s[1..]) + Strip(t)) == ([s[0]] + Strip(s[1..])) + Strip(t);
      }
    }
  }

  /** Nothing but the carriage returns goes, and all of them. */
  lemma {:induction false} StripRemoves(s: string)
    ensures '\r' !in Strip(s) && multiset(Strip(s)) == multiset(s)['\r' := 0]
  {
    if s == [] {
      assert multiset(s) == multiset{};
    } else {
      StripRemoves(s[1..]);
      assert s == [s[0]] + s[1..];
    }
  }

  /** The same for a part of a buffer. */
  function StripFrom(f: string, from: nat, end: nat): string
    requires from <= end <= |f|
    decreases end - from
  {
    if from == end then []
    else if f[from] == CR then StripFrom(f, from + 1, end)
    else [f[from]] + StripFrom(f, from + 1, end)
  }

  lemma {:induction false} StripFromIsStrip(f: string, from: nat, end: nat)
    requires from <= end <= |f|
    ensures StripFrom(f, from, end) == Strip(f[from..end])
    decreases end - from
  {
    if from < end {
      StripFromIsStrip(f, from + 1, end);
      assert f[from..end][0] == f[from] && f[from..end][1..] == f[from + 1..end];
    }
  }

  lemma {:induction false} StripFromConcat(f: string, from: nat, m: nat, end: nat)
    requires from <= m <= end <= |f|
    ensures StripFrom(f, from, end) == StripFrom(f, from, m) + StripFrom(f, m, end)
    decreases m - from
  {
    if from < m {
      StripFromConcat(f, from + 1, m, end);
    }
  }

  /** Two states of a file that agree from a position on, or up to one. */
  ghost predicate SameFrom(f: string, g: string, k: nat) {
    |f| == |g| && forall i :: k <= i < |f| ==> f[i] == g[i]
  }

  ghost predicate SameUpTo(f: string, g: string, k: nat) {
    |f| == |g| && k <= |f| && forall i :: 0 <= i < k ==> f[i] == g[i]
  }

  // ----- writing through the map

  /** Bytes of one state f of the file, stored one by one in another, g. */
  function Store(f: string, g: string, dest: nat, from: nat, n: nat): (h: string)
    requires dest + n <= |g| && from + n <= |f|
    ensures |h| == |g|
    decreases n, 0
  {
    if n == 0 then g else StoreLast(f, g, dest, from, n)
  }

  function StoreLast(f: string, g: string, dest: nat, from: nat, n: nat): (h: string)
    requires 0 < n && dest + n <= |g| && from + n <= |f|
    ensures |h| == |g|
    decreases n - 1, 1
  {
    Store(f, g, dest, from, n - 1)[dest + n - 1 := f[from + n - 1]]
  }

  /** memmove inside the file */
  function Move(f: string, dest: nat, from: nat, n: nat): (g: string)
    requires dest + n <= |f| && from + n <= |f|
    ensures |g| == |f|
  {
    Store(f, f, dest, from, n)
  }

  /** The write window: where it starts in the file, and how far it is filled. */
  datatype Place = Place(base: nat, offset: nat) {
    function Pos(): nat { base + offset }

    ghost predicate Valid() { offset <= MMPSIZE }

    /** After writing n bytes. A window that is full is left at the next write only. */
    function After(n: nat): (p: Place)
      requires Valid() && n <= MMPSIZE
      ensures p.Valid() && p.Pos() == Pos() + n
    {
      if offset + n > MMPSIZE then Place(base + MMPSIZE, offset + n - MMPSIZE) else Place(base, offset + n)
    }
  }

  /** What one call of `wrfmap` makes of the file. Where a chunk crosses the end of the window,
      its second part is taken from the beginning of the chunk again, as the code does. */
  function Mapped(f: string, p: Place, from: nat, n: nat): (g: string)
    requires p.Valid() && p.Pos() <= from && from + n <= |f|
    ensures |g| == |f|
  {
    if p.offset + n > MMPSIZE then
      var k := MMPSIZE - p.offset;
      Move(Move(f, p.Pos(), from, k), p.Pos() + k, from, n - k)
    else
      Move(f, p.Pos(), from, n)
  }

  /** A chunk that starts inside the window and ends outside. */
  predicate Crosses(p: Place, n: nat) {
    p.offset < MMPSIZE < p.offset + n
  }

  /** Where the i-th byte after the window's end is taken from, in a chunk of which k bytes fit
      the window and that is moved down by d bytes: from the chunk's beginning, over which the
      first part may have been moved already. */
  function Again(k: nat, d: nat, i: nat): nat {
    if i + d < k then i + d else i
  }

  /** What must hold of a crossing chunk for the damage not to show. */
  ghost predicate Repeats(chunk: string, k: nat, d: nat)
    requires k <= |chunk|
  {
    forall i {:trigger Again(k, d, i)} :: 0 <= i < |chunk| - k ==> chunk[k + i] == chunk[Again(k, d, i)]
  }

  ghost predicate RightPiece(f: string, p: Place, from: nat, n: nat)
    requires p.Pos() <= from && from + n <= |f|
  {
    Crosses(p, n) ==> Repeats(f[from..from + n], MMPSIZE - p.offset, from - p.Pos())
  }

  lemma {:induction false} StoreAt(f: string, g: string, dest: nat, from: nat, n: nat, i: nat)
    requires dest + n <= |g| && from + n <= |f| && i < |g|
    ensures Store(f, g, dest, from, n)[i] == if dest <= i < dest + n then f[from + (i - dest)] else g[i]
    decreases n
  {
    if n > 0 {
      StoreAt(f, g, dest, from, n - 1, i);
    }
  }

  lemma MoveAt(f: string, dest: nat, from: nat, n: nat, i: nat)
    requires dest + n <= |f| && from + n <= |f| && i < |f|
    ensures Move(f, dest, from, n)[i] == if dest <= i < dest + n then f[from + (i - dest)] else f[i]
  {
    StoreAt(f, f, dest, from, n, i);
  }

  lemma MoveFrame(f: string, dest: nat, from: nat, n: nat)
    requires dest + n <= |f| && from + n <= |f|
    ensures SameUpTo(Move(f, dest, from, n), f, dest) && SameFrom(Move(f, dest, from, n), f, dest + n)
  {
    var g := Move(f, dest, from, n);
    forall i | 0 <= i < |f| && !(dest <= i < dest + n)
      ensures g[i] == f[i]
    {
      MoveAt(f, dest, from, n, i);
    }
  }

  /** Nothing outside the written range changes. */
  lemma MappedFrame(f: string, p: Place, from: nat, n: nat)
    requires p.Valid() && p.Pos() <= from && from + n <= |f|
    ensures SameUpTo(Mapped(f, p, from, n), f, p.Pos()) && SameFrom(Mapped(f, p, from, n), f, p.Pos() + n)
  {
    var w, k := p.Pos(), MMPSIZE - p.offset;
    if n <= k {
      MoveFrame(f, w, from, n);
    } else {
      var f1 := Move(f, w, from, k);
      MoveFrame(f, w, from, k);
      MoveFrame(f1, w + k, from, n - k);
    }
  }

  /** The bytes that two moves leave: k bytes to w, and the rest behind them, both from the
      beginning of the chunk. */
  lemma CrossingByte(f: string, f1: string, w: nat, from: nat, k: nat, n: nat, i: nat)
    requires w <= from && from + n <= |f| && k <= n && i < n && f1 == Move(f, w, from, k)
    ensures Move(f1, w + k, from, n - k)[w + i] == f[from + if i < k then i else Again(k, from - w, i - k)]
  {
    MoveAt(f1, w + k, from, n - k, w + i);
    if i < k {
      MoveAt(f, w, from, k, w + i);
    } else {
      MoveAt(f, w, from, k, from + (i - k));
    }
  }

  function Written(f: string, p: Place, from: nat, n: nat): (w: string)
    requires p.Valid() && p.Pos() <= from && from + n <= |f|
    ensures |w| == n
  {
    Mapped(f, p, from, n)[p.Pos()..p.Pos() + n]
  }

  lemma RepeatsExactly(written: string, chunk: string, k: nat, d: nat)
    requires |written| == |chunk| && k <= |chunk|
    requires forall i :: 0 <= i < |chunk| ==> written[i] == chunk[if i < k then i else Again(k, d, i - k)]
    ensures written == chunk <==> Repeats(chunk, k, d)
  {
    if Repeats(chunk, k, d) {
      forall i | 0 <= i < |chunk|
        ensures written[i] == chunk[i]
      {
        if i >= k {
          assert chunk[k + (i - k)] == chunk[Again(k, d, i - k)];
        }
      }
    } else {
      var i :| 0 <= i < |chunk| - k && chunk[k + i] != chunk[Again(k, d, i)];
      assert written[k + i] != chunk[k + i];
    }
  }

  lemma CrossingIsRight(f: string, f1: string, g: string, w: nat, from: nat, k: nat, n: nat)
    requires w <= from && from + n <= |f| && k <= n
    requires f1 == Move(f, w, from, k) && g == Move(f1, w + k, from, n - k)
    ensures g[w..w + n] == f[from..from + n] <==> Repeats(f[from..from + n], k, from - w)
  {
    var d, chunk, written := from - w, f[from..from + n], g[w..w + n];
    forall i | 0 <= i < n
      ensures written[i] == chunk[if i < k then i else Again(k, d, i - k)]
    {
      CrossingByte(f, f1, w, from, k, n, i);
    }
    RepeatsExactly(written, chunk, k, d);
  }

  lemma FittingIsRight(f: string, w: nat, from: nat, n: nat)
    requires w <= from && from + n <= |f|
    ensures Move(f, w, from, n)[w..w + n] == f[from..from + n]
  {
    var written, chunk := Move(f, w, from, n)[w..w + n], f[from..from + n];
    forall i | 0 <= i < n
      ensures written[i] == chunk[i]
    {
      MoveAt(f, w, from, n, w + i);
    }
  }

  lemma NothingFitsRepeats(chunk: string, d: nat)
    ensures Repeats(chunk, 0, d)
  {
  }

  lemma CrossingWritten(f: string, p: Place, from: nat, n: nat)
    requires p.Valid() && p.Pos() <= from && from + n <= |f| && p.offset + n > MMPSIZE
    ensures Written(f, p, from, n) == f[from..from + n]
            <==> Repeats(f[from..from + n], MMPSIZE - p.offset, from - p.Pos())
  {
    var w, k := p.Pos(), MMPSIZE - p.offset;
    var f1 := Move(f, w, from, k);
    var g := Move(f1, w + k, from, n - k);
    assert Mapped(f, p, from, n) == g;
    CrossingIsRight(f, f1, g, w, from, k, n);
  }

  /** One call writes its chunk exactly when the chunk does not cross, or repeats. */
  lemma MappedIsRight(f: string, p: Place, from: nat, n: nat)
    requires p.Valid() && p.Pos() <= from && from + n <= |f|
    ensures Written(f, p, from, n) == f[from..from + n] <==> RightPiece(f, p, from, n)
  {
    if p.offset + n <= MMPSIZE {
      FittingIsRight(f, p.Pos(), from, n);
      assert Mapped(f, p, from, n) == Move(f, p.Pos(), from, n);
    } else {
      CrossingWritten(f, p, from, n);
      NothingFitsRepeats(f[from..from + n], from - p.Pos());
    }
  }

  /** A call moves its chunk into the window, or fills the window and goes on in the next. */
  lemma MappedMoves(f: string, p: Place, from: nat, n: nat, f1: string)
    requires p.Valid() && p.Pos() <= from && from + n <= |f| && n <= MMPSIZE
    ensures p.offset + n <= MMPSIZE ==>
      Mapped(f, p, from, n) == Move(f, p.Pos(), from, n) && p.After(n) == Place(p.base, p.offset + n)
    ensures p.offset + n > MMPSIZE && f1 == Move(f, p.Pos(), from, MMPSIZE - p.offset) ==>
      var rest := n - (MMPSIZE - p.offset);
      && Mapped(f, p, from, n) == Move(f1, p.base + MMPSIZE, from, rest)
      && p.After(n) == Place(p.base + MMPSIZE, rest)
  {
  }

  // ----- a whole file as a function

  /** How far the next carriage return is, at most to the end of the read window. */
  function PieceLen(f: string, from: nat, end: nat): (n: nat)
    requires from <= end <= |f|
    ensures from + n <= end
    ensures from < end && f[from] != CR ==> n > 0
    decreases |f| - from
  {
    if from == end || f[from] == CR then 0 else 1 + PieceLen(f, from + 1, end)
  }

  datatype Run = Run(file: string, place: Place)

  /** `convert` over a part of the file, sending to `wrfmap`. */
  function RunPieces(f: string, p: Place, from: nat, end: nat): (r: Run)
    requires p.Valid() && p.Pos() <= from <= end <= |f| && end - from <= MMPSIZE
    ensures r.place.Valid() && r.place.Pos() <= end && |r.file| == |f|
    decreases end - from
  {
    if from == end then Run(f, p)
    else if f[from] == CR then RunPieces(f, p, from + 1, end)
    else
      var n := PieceLen(f, from, end);
      RunPieces(Mapped(f, p, from, n), p.After(n), from + n, end)
  }

  /** The loop over the read windows. */
  function RunWindows(f: string, p: Place, from: nat): (r: Run)
    requires p.Valid() && p.Pos() <= from <= |f|
    ensures r.place.Valid() && r.place.Pos() <= |f| == |r.file|
    decreases |f| - from
  {
    if |f| - from > MMPSIZE then
      var r := RunPieces(f, p, from, from + MMPSIZE);
      RunWindows(r.file, r.place, from + MMPSIZE)
    else
      RunPieces(f, p, from, |f|)
  }

  lemma NextWindow(f: string, p: Place, from: nat)
    requires p.Valid() && p.Pos() <= from <= |f|
    ensures |f| - from > MMPSIZE ==>
      var r := RunPieces(f, p, from, from + MMPSIZE);
      RunWindows(f, p, from) == RunWindows(r.file, r.place, from + MMPSIZE)
    ensures |f| - from <= MMPSIZE ==> RunWindows(f, p, from) == RunPieces(f, p, from, |f|)
  {
  }

  /** The file after it has been rewritten and truncated. */
  function FileResult(f: string): string {
    var r := RunWindows(f, Place(0, 0), 0);
    r.file[..r.place.Pos()]
  }

  // ----- when the file comes out right

  function PlaceAfter(f: string, p: Place, from: nat, end: nat): (q: Place)
    requires p.Valid() && p.Pos() <= from <= end <= |f| && end - from <= MMPSIZE
    ensures q.Valid() && q.Pos() <= end
    decreases end - from
  {
    if from == end then p
    else if f[from] == CR then PlaceAfter(f, p, from + 1, end)
    else
      var n := PieceLen(f, from, end);
      PlaceAfter(f, p.After(n), from + n, end)
  }

  /** No piece of a window is damaged. All of this can be told from the original file. */
  ghost predicate PiecesRight(f: string, p: Place, from: nat, end: nat)
    requires p.Valid() && p.Pos() <= from <= end <= |f| && end - from <= MMPSIZE
    decreases end - from
  {
    from == end ||
    if f[from] == CR then PiecesRight(f, p, from + 1, end)
    else
      var n := PieceLen(f, from, end);
      RightPiece(f, p, from, n) && PiecesRight(f, p.After(n), from + n, end)
  }

  ghost predicate WindowsRight(f: string, p: Place, from: nat)
    requires p.Valid() && p.Pos() <= from <= |f|
    decreases |f| - from
  {
    if |f| - from > MMPSIZE then
      && PiecesRight(f, p, from, from + MMPSIZE)
      && WindowsRight(f, PlaceAfter(f, p, from, from + MMPSIZE), from + MMPSIZE)
    else
      PiecesRight(f, p, from, |f|)
  }

  lemma {:induction false} SamePieceLen(f: string, g: string, from: nat, end: nat)
    requires from <= end <= |f| && SameFrom(f, g, from)
    ensures PieceLen(f, from, end) == PieceLen(g, from, end)
    decreases end - from
  {
    if from < end {
      SamePieceLen(f, g, from + 1, end);
    }
  }

  /** Stripping a piece and what follows it. */
  lemma {:induction false} StripPiece(f: string, from: nat, end: nat)
    requires from <= end <= |f|
    ensures var n := PieceLen(f, from, end);
            StripFrom(f, from, end) == f[from..from + n] + StripFrom(f, from + n, end)
    decreases end - from
  {
    if from < end && f[from] != CR {
      StripPiece(f, from + 1, end);
      OneMoreInFront(f, from, PieceLen(f, from + 1, end), end);
    }
  }

  lemma OneMoreInFront(f: string, from: nat, n: nat, end: nat)
    requires from < end && from + 1 + n <= end <= |f| && f[from] != CR
    requires StripFrom(f, from + 1, end) == f[from + 1..from + 1 + n] + StripFrom(f, from + 1 + n, end)
    ensures StripFrom(f, from, end) == f[from..from + (1 + n)] + StripFrom(f, from + (1 + n), end)
  {
    var first, others, rest := [f[from]], f[from + 1..from + 1 + n], StripFrom(f, from + 1 + n, end);
    assert f[from..from + (1 + n)] == first + others;
    Associative(first, others, rest);
  }

  lemma Associative(a: string, b: string, c: string)
    ensures a + (b + c) == (a + b) + c
  {
  }

  lemma SplitEqual(h: string, a: nat, b: nat, c: nat, x: string, y: string)
    requires a <= b <= c <= |h| && |x| == b - a && |y| == c - b
    ensures h[a..c] == x + y <==> h[a..b] == x && h[b..c] == y
  {
    assert h[a..c] == h[a..b] + h[b..c];
    assert h[a..b] == h[a..c][..b - a] && h[b..c] == h[a..c][b - a..];
    assert (x + y)[..b - a] == x && (x + y)[b - a..] == y;
  }

  datatype Outcome = Stripped | Damaged | Astray

  function Judge(right: bool): (o: Outcome)
    ensures o != Astray && (o == Stripped <==> right)
  {
    if right then Stripped else Damaged
  }

  /** What a run r made of a part of a file f, when the file was g before: the write position
      must advance by the stripped length, and nothing else may change. */
  ghost function Made(f: string, g: string, p: Place, from: nat, end: nat, r: Run): Outcome
    requires from <= end <= |f| == |g| && p.Pos() <= |f|
  {
    if |r.file| == |f| && p.Pos() <= r.place.Pos() <= |f|
      && r.place.Pos() == p.Pos() + |StripFrom(f, from, end)|
      && SameUpTo(r.file, g, p.Pos()) && SameFrom(r.file, f, end)
    then Judge(r.file[p.Pos()..r.place.Pos()] == StripFrom(f, from, end))
    else Astray
  }

  /** The number of other characters. */
  function Kept(f: string, from: nat, end: nat): nat
    requires from <= end <= |f|
    decreases end - from
  {
    if from == end then 0 else (if f[from] == CR then 0 else 1) + Kept(f, from + 1, end)
  }

  lemma {:induction false} KeptIsLength(f: string, from: nat, end: nat)
    requires from <= end <= |f|
    ensures |StripFrom(f, from, end)| == Kept(f, from, end)
    decreases end - from
  {
    if from < end {
      KeptIsLength(f, from + 1, end);
    }
  }

  lemma {:induction false} KeptPiece(f: string, from: nat, end: nat)
    requires from <= end <= |f|
    ensures var n := PieceLen(f, from, end); Kept(f, from, end) == n + Kept(f, from + n, end)
    decreases end - from
  {
    if from < end && f[from] != CR {
      KeptPiece(f, from + 1, end);
    }
  }

  lemma {:induction false} PlaceCounts(f: string, p: Place, from: nat, end: nat)
    requires p.Valid() && p.Pos() <= from <= end <= |f| && end - from <= MMPSIZE
    ensures PlaceAfter(f, p, from, end).Pos() == p.Pos() + Kept(f, from, end)
    decreases end - from
  {
    if from == end {
    } else if f[from] == CR {
      PlaceCounts(f, p, from + 1, end);
    } else {
      var n := PieceLen(f, from, end);
      KeptPiece(f, from, end);
      PlaceCounts(f, p.After(n), from + n, end);
    }
  }

  /** The write position advances by the length of the stripped part. */
  lemma PlaceLaw(f: string, p: Place, from: nat, end: nat)
    requires p.Valid() && p.Pos() <= from <= end <= |f| && end - from <= MMPSIZE
    ensures PlaceAfter(f, p, from, end).Pos() == p.Pos() + |StripFrom(f, from, end)|
  {
    PlaceCounts(f, p, from, end);
    KeptIsLength(f, from, end);
  }

  /** A piece at the beginning of a run, where the file was f before and is g by then. */
  lemma FirstPiece(f: string, g: string, p: Place, from: nat, n: nat, end: nat)
    requires p.Valid() && p.Pos() <= from < end <= |f| && end - from <= MMPSIZE
    requires SameFrom(f, g, from) && f[from] != CR && n == PieceLen(f, from, end)
    ensures RunPieces(g, p, from, end) == RunPieces(Mapped(g, p, from, n), p.After(n), from + n, end)
  {
    SamePieceLen(f, g, from, end);
  }

  lemma FirstPlace(f: string, p: Place, from: nat, n: nat, end: nat)
    requires p.Valid() && p.Pos() <= from < end <= |f| && end - from <= MMPSIZE
    requires f[from] != CR && n == PieceLen(f, from, end)
    ensures PlaceAfter(f, p, from, end) == PlaceAfter(f, p.After(n), from + n, end)
    ensures PiecesRight(f, p, from, end) == (RightPiece(f, p, from, n) && PiecesRight(f, p.After(n), from + n, end))
  {
  }

  lemma FirstReturn(f: string, g: string, p: Place, from: nat, end: nat)
    requires p.Valid() && p.Pos() <= from < end <= |f| && end - from <= MMPSIZE
    requires SameFrom(f, g, from) && f[from] == CR
    ensures RunPieces(g, p, from, end) == RunPieces(g, p, from + 1, end)
    ensures PlaceAfter(f, p, from, end) == PlaceAfter(f, p, from + 1, end)
    ensures PiecesRight(f, p, from, end) == PiecesRight(f, p, from + 1, end)
  {
  }

  lemma RestSame(f: string, g: string, p: Place, from: nat, n: nat)
    requires p.Valid() && p.Pos() <= from && from + n <= |f| && SameFrom(f, g, from)
    ensures SameFrom(f, Mapped(g, p, from, n), from + n)
  {
    MappedFrame(g, p, from, n);
  }

  lemma {:induction false} RunPlace(f: string, g: string, p: Place, from: nat, end: nat)
    requires p.Valid() && p.Pos() <= from <= end <= |f| && end - from <= MMPSIZE && SameFrom(f, g, from)
    ensures RunPieces(g, p, from, end).place == PlaceAfter(f, p, from, end)
    decreases end - from
  {
    if from == end {
    } else if f[from] == CR {
      RunPlace(f, g, p, from + 1, end);
      FirstReturn(f, g, p, from, end);
    } else {
      var n := PieceLen(f, from, end);
      RestSame(f, g, p, from, n);
      RunPlace(f, Mapped(g, p, from, n), p.After(n), from + n, end);
      FirstPiece(f, g, p, from, n, end);
      FirstPlace(f, p, from, n, end);
    }
  }

  /** What is still to be read is left alone. */
  lemma {:induction false} RunKeepsRest(f: string, g: string, p: Place, from: nat, end: nat) returns (h: string)
    requires p.Valid() && p.Pos() <= from <= end <= |f| && end - from <= MMPSIZE && SameFrom(f, g, from)
    ensures h == RunPieces(g, p, from, end).file && SameFrom(h, f, end)
    decreases end - from
  {
    if from == end {
      h := g;
    } else if f[from] == CR {
      h := RunKeepsRest(f, g, p, from + 1, end);
      FirstReturn(f, g, p, from, end);
    } else {
      var n := PieceLen(f, from, end);
      RestSame(f, g, p, from, n);
      h := RunKeepsRest(f, Mapped(g, p, from, n), p.After(n), from + n, end);
      FirstPiece(f, g, p, from, n, end);
    }
  }

  lemma UpToStep(h: string, g: string, p: Place, from: nat, n: nat)
    requires p.Valid() && p.Pos() <= from && from + n <= |g| && n <= MMPSIZE
    requires SameUpTo(h, Mapped(g, p, from, n), p.After(n).Pos())
    ensures SameUpTo(h, g, p.Pos())
  {
    MappedFrame(g, p, from, n);
  }

  /** What has been written stays. */
  lemma {:induction false} RunKeepsWritten(g: string, p: Place, from: nat, end: nat) returns (h: string)
    requires p.Valid() && p.Pos() <= from <= end <= |g| && end - from <= MMPSIZE
    ensures h == RunPieces(g, p, from, end).file && SameUpTo(h, g, p.Pos())
    decreases end - from
  {
    if from == end {
      h := g;
    } else if g[from] == CR {
      h := RunKeepsWritten(g, p, from + 1, end);
    } else {
      var n := PieceLen(g, from, end);
      h := RunKeepsWritten(Mapped(g, p, from, n), p.After(n), from + n, end);
      UpToStep(h, g, p, from, n);
    }
  }

  /** The stripped part has been written to a range of the file. */
  ghost predicate Wrote(h: string, a: nat, c: nat, s: string) {
    a <= c <= |h| && h[a..c] == s
  }

  lemma SameSlice(h: string, g: string, a: nat, b: nat)
    requires a <= b && SameUpTo(h, g, b)
    ensures h[a..b] == g[a..b]
  {
  }

  lemma SameChunk(f: string, g: string, from: nat, n: nat)
    requires from + n <= |f| && SameFrom(f, g, from)
    ensures f[from..from + n] == g[from..from + n]
  {
  }

  /** A piece that stays as one call has left it. */
  lemma PieceWritten(f: string, g: string, p: Place, from: nat, n: nat, h: string)
    requires p.Valid() && p.Pos() <= from && from + n <= |f| && n <= MMPSIZE && SameFrom(f, g, from)
    requires SameUpTo(h, Mapped(g, p, from, n), p.Pos() + n)
    ensures h[p.Pos()..p.Pos() + n] == f[from..from + n] <==> RightPiece(f, p, from, n)
  {
    SameChunk(f, g, from, n);
    MappedIsRight(g, p, from, n);
    SameSlice(h, Mapped(g, p, from, n), p.Pos(), p.Pos() + n);
  }

  /** A piece and what follows it. */
  lemma WrotePiece(f: string, from: nat, n: nat, end: nat, h: string, a: nat, c: nat, right: bool)
    requires from <= end <= |f| == |h| && n == PieceLen(f, from, end)
    requires c == a + n + |StripFrom(f, from + n, end)| <= |h|
    requires h[a..a + n] == f[from..from + n] <==> right
    ensures Wrote(h, a, c, StripFrom(f, from, end)) <==> right && Wrote(h, a + n, c, StripFrom(f, from + n, end))
  {
    StripPiece(f, from, end);
    SplitEqual(h, a, a + n, c, f[from..from + n], StripFrom(f, from + n, end));
  }

  /** A piece stays while the rest of the window is converted. */
  lemma PieceStays(f: string, g: string, p: Place, from: nat, n: nat, end: nat, h: string)
    requires p.Valid() && p.Pos() <= from && from + n <= end <= |f| && end - from <= MMPSIZE && SameFrom(f, g, from)
    requires h == RunPieces(Mapped(g, p, from, n), p.After(n), from + n, end).file
    ensures h[p.Pos()..p.Pos() + n] == f[from..from + n] <==> RightPiece(f, p, from, n)
  {
    var h' := RunKeepsWritten(Mapped(g, p, from, n), p.After(n), from + n, end);
    PieceWritten(f, g, p, from, n, h');
  }

  lemma WroteStep(f: string, g: string, p: Place, from: nat, n: nat, end: nat, r: Run, q: Place)
    requires p.Valid() && p.Pos() <= from && from + n <= end <= |f| && end - from <= MMPSIZE && SameFrom(f, g, from)
    requires n == PieceLen(f, from, end) && q == PlaceAfter(f, p.After(n), from + n, end)
    requires r == RunPieces(Mapped(g, p, from, n), p.After(n), from + n, end)
    ensures Wrote(r.file, p.Pos(), q.Pos(), StripFrom(f, from, end))
            <==> RightPiece(f, p, from, n) && Wrote(r.file, p.After(n).Pos(), q.Pos(), StripFrom(f, from + n, end))
  {
    PlaceLaw(f, p.After(n), from + n, end);
    PieceStays(f, g, p, from, n, end, r.file);
    WrotePiece(f, from, n, end, r.file, p.Pos(), q.Pos(), RightPiece(f, p, from, n));
  }

  /** One piece, when the rest of the window has come out as r. */
  lemma PieceStep(f: string, g: string, p: Place, from: nat, n: nat, end: nat, r: Run, q: Place, right: bool)
    requires p.Valid() && p.Pos() <= from < end <= |f| && end - from <= MMPSIZE && SameFrom(f, g, from)
    requires f[from] != CR && n == PieceLen(f, from, end)
    requires r == RunPieces(Mapped(g, p, from, n), p.After(n), from + n, end)
    requires q == PlaceAfter(f, p.After(n), from + n, end) && right == PiecesRight(f, p.After(n), from + n, end)
    requires Wrote(r.file, p.After(n).Pos(), q.Pos(), StripFrom(f, from + n, end)) <==> right
    ensures r == RunPieces(g, p, from, end) && q == PlaceAfter(f, p, from, end)
    ensures (RightPiece(f, p, from, n) && right) == PiecesRight(f, p, from, end)
    ensures Wrote(r.file, p.Pos(), q.Pos(), StripFrom(f, from, end)) <==> RightPiece(f, p, from, n) && right
  {
    WroteStep(f, g, p, from, n, end, r, q);
    FirstPiece(f, g, p, from, n, end);
    FirstPlace(f, p, from, n, end);
  }

  /** The stripped part is written exactly if no piece is damaged. */
  lemma {:induction false} RunContent(f: string, g: string, p: Place, from: nat, end: nat)
      returns (r: Run, q: Place, right: bool)
    requires p.Valid() && p.Pos() <= from <= end <= |f| && end - from <= MMPSIZE && SameFrom(f, g, from)
    ensures r == RunPieces(g, p, from, end) && right == PiecesRight(f, p, from, end)
    ensures q == PlaceAfter(f, p, from, end)
    ensures Wrote(r.file, p.Pos(), q.Pos(), StripFrom(f, from, end)) <==> right
    decreases end - from, 1
  {
    if from == end {
      r, q, right := Run(g, p), p, true;
    } else if f[from] == CR {
      r, q, right := RunContent(f, g, p, from + 1, end);
      FirstReturn(f, g, p, from, end);
    } else {
      r, q, right := PieceContent(f, g, p, from, end);
    }
  }

  lemma {:induction false} PieceContent(f: string, g: string, p: Place, from: nat, end: nat)
      returns (r: Run, q: Place, right: bool)
    requires p.Valid() && p.Pos() <= from < end <= |f| && end - from <= MMPSIZE && SameFrom(f, g, from)
    requires f[from] != CR
    ensures r == RunPieces(g, p, from, end) && right == PiecesRight(f, p, from, end)
    ensures q == PlaceAfter(f, p, from, end)
    ensures Wrote(r.file, p.Pos(), q.Pos(), StripFrom(f, from, end)) <==> right
    decreases end - from, 0
  {
    var n := PieceLen(f, from, end);
    RestSame(f, g, p, from, n);
    r, q, right := RunContent(f, Mapped(g, p, from, n), p.After(n), from + n, end);
    PieceStep(f, g, p, from, n, end, r, q, right);
    right := RightPiece(f, p, from, n) && right;
  }

  /** The pieces of a window come out one behind the other, and all of them right exactly if
      none is damaged; what is still to be read is left alone. */
  lemma PiecesLaw(f: string, g: string, p: Place, from: nat, end: nat)
    requires p.Valid() && p.Pos() <= from <= end <= |f| && end - from <= MMPSIZE && SameFrom(f, g, from)
    ensures Made(f, g, p, from, end, RunPieces(g, p, from, end)) == Judge(PiecesRight(f, p, from, end))
    ensures RunPieces(g, p, from, end).place == PlaceAfter(f, p, from, end)
  {
    PlaceLaw(f, p, from, end);
    RunPlace(f, g, p, from, end);
    var h := RunKeepsRest(f, g, p, from, end);
    var h' := RunKeepsWritten(g, p, from, end);
    var r, q, right := RunContent(f, g, p, from, end);
  }

  lemma WindowDone(f: string, g: string, p: Place, from: nat, m: nat, r1: Run, r: Run)
    requires p.Pos() <= from <= m <= |f| == |g| == |r1.file| && r1.place.Pos() <= |f|
    requires Made(f, g, p, from, m, r1) != Astray && Made(f, r1.file, r1.place, m, |f|, r) != Astray
    ensures Made(f, g, p, from, |f|, r)
            == Judge(Made(f, g, p, from, m, r1) == Stripped && Made(f, r1.file, r1.place, m, |f|, r) == Stripped)
  {
    var a, b, c := p.Pos(), r1.place.Pos(), r.place.Pos();
    StripFromConcat(f, from, m, |f|);
    SameSlice(r.file, r1.file, a, b);
    SplitEqual(r.file, a, b, c, StripFrom(f, from, m), StripFrom(f, m, |f|));
  }

  lemma PartDone(f: string, g: string, p: Place, from: nat, end: nat) returns (r: Run, right: bool)
    requires p.Valid() && p.Pos() <= from <= end <= |f| && end - from <= MMPSIZE && SameFrom(f, g, from)
    ensures r == RunPieces(g, p, from, end) && r.place == PlaceAfter(f, p, from, end)
    ensures right == PiecesRight(f, p, from, end) && Made(f, g, p, from, end, r) == Judge(right)
    ensures |r.file| == |f| && SameFrom(f, r.file, end)
  {
    PiecesLaw(f, g, p, from, end);
    r, right := RunPieces(g, p, from, end), PiecesRight(f, p, from, end);
  }

  /** One window, when the others have come out as r. */
  lemma WindowStep(f: string, g: string, p: Place, from: nat, r1: Run, right1: bool, r: Run, right: bool)
    requires p.Valid() && p.Pos() <= from && |f| - from > MMPSIZE && |g| == |f|
    requires r1 == RunPieces(g, p, from, from + MMPSIZE) && r1.place == PlaceAfter(f, p, from, from + MMPSIZE)
    requires right1 == PiecesRight(f, p, from, from + MMPSIZE)
    requires Made(f, g, p, from, from + MMPSIZE, r1) == Judge(right1)
    requires r == RunWindows(r1.file, r1.place, from + MMPSIZE)
    requires right == WindowsRight(f, r1.place, from + MMPSIZE)
    requires Made(f, r1.file, r1.place, from + MMPSIZE, |f|, r) == Judge(right)
    ensures r == RunWindows(g, p, from) && (right1 && right) == WindowsRight(f, p, from)
    ensures Made(f, g, p, from, |f|, r) == Judge(right1 && right)
  {
    WindowDone(f, g, p, from, from + MMPSIZE, r1, r);
  }

  /** The windows come out one behind the other. */
  lemma {:induction false} WindowsLaw(f: string, g: string, p: Place, from: nat) returns (r: Run, right: bool)
    requires p.Valid() && p.Pos() <= from <= |f| && SameFrom(f, g, from)
    ensures r == RunWindows(g, p, from) && right == WindowsRight(f, p, from)
    ensures Made(f, g, p, from, |f|, r) == Judge(right)
    decreases |f| - from
  {
    if |f| - from > MMPSIZE {
      var r1, right1 := PartDone(f, g, p, from, from + MMPSIZE);
      var r2, right2 := WindowsLaw(f, r1.file, r1.place, from + MMPSIZE);
      WindowStep(f, g, p, from, r1, right1, r2, right2);
      r, right := r2, right1 && right2;
    } else {
      r, right := PartDone(f, g, p, from, |f|);
    }
  }

  lemma WholeFile(f: string, p: Place, from: nat, r: Run, right: bool)
    requires p.Pos() == from == 0 && r.place.Pos() <= |r.file| && Made(f, f, p, from, |f|, r) == Judge(right)
    ensures r.file[..r.place.Pos()] == Strip(f) <==> right
    ensures |r.file[..r.place.Pos()]| == |Strip(f)|
  {
    assert r.file[0..r.place.Pos()] == r.file[..r.place.Pos()];
    StripFromIsStrip(f, 0, |f|);
    assert f[0..|f|] == f;
  }

  lemma WholeFileLaw(f: string, p: Place, from: nat)
    requires p.Valid() && p.Pos() == from == 0
    ensures var r := RunWindows(f, p, from);
            && (r.file[..r.place.Pos()] == Strip(f) <==> WindowsRight(f, p, from))
            && |r.file[..r.place.Pos()]| == |Strip(f)|
  {
    var r, right := WindowsLaw(f, f, p, from);
    WholeFile(f, p, from, r, right);
  }

  /** The file comes out stripped exactly if no piece of it that crosses the end of a write
      window is damaged; its length is right in any case. */
  lemma ResultIsStripped(f: string)
    ensures FileResult(f) == Strip(f) <==> WindowsRight(f, Place(0, 0), 0)
    ensures |FileResult(f)| == |Strip(f)|
  {
    WholeFileLaw(f, Place(0, 0), 0);
  }

  lemma FittingPiece(f: string, p: Place, from: nat, n: nat, end: nat)
    requires p.Valid() && p.Pos() <= from < end <= |f| && end - from <= MMPSIZE
    requires f[from] != CR && n == PieceLen(f, from, end) && p.offset + n <= MMPSIZE
    requires PiecesRight(f, p.After(n), from + n, end)
    ensures PiecesRight(f, p, from, end)
  {
  }

  /** In the first write window nothing crosses. */
  lemma {:induction false} FirstWindowIsRight(f: string, p: Place, from: nat, end: nat)
    requires p.base == 0 && p.offset <= from <= end <= |f| && end <= MMPSIZE
    ensures PiecesRight(f, p, from, end)
    decreases end - from
  {
    if from < end {
      if f[from] == CR {
        FirstWindowIsRight(f, p, from + 1, end);
      } else {
        var n := PieceLen(f, from, end);
        var p' := Place(0, p.offset + n);
        FirstWindowIsRight(f, p', from + n, end);
        assert p.After(n) == p';
        FittingPiece(f, p, from, n, end);
      }
    }
  }

  lemma SmallFilesAreRight(f: string, p: Place, from: nat)
    requires |f| <= MMPSIZE && p.base == p.offset == from == 0
    ensures WindowsRight(f, p, from)
  {
    FirstWindowIsRight(f, p, from, |f|);
  }

  /** Every file that fits one window, of 512 kilobytes, comes out stripped. */
  lemma SmallFilesAreStripped(f: string)
    requires |f| <= 524288
    ensures FileResult(f) == Strip(f)
  {
    SmallFilesAreRight(f, Place(0, 0), 0);
    ResultIsStripped(f);
  }

  lemma {:induction false} PieceOfOthers(f: string, from: nat, end: nat)
    requires from <= end <= |f| && forall i :: from <= i < end ==> f[i] != CR
    ensures PieceLen(f, from, end) == end - from
    decreases end - from
  {
    if from < end {
      PieceOfOthers(f, from + 1, end);
    }
  }

  lemma {:induction false} PieceUpTo(f: string, from: nat, ptr: nat, end: nat)
    requires from <= ptr <= end <= |f| && CR !in f[from..ptr] && (ptr < end ==> f[ptr] == CR)
    ensures PieceLen(f, from, end) == ptr - from
    decreases end - from
  {
    if from < ptr {
      assert f[from] == f[from..ptr][0] && f[from + 1..ptr] == f[from..ptr][1..];
      PieceUpTo(f, from + 1, ptr, end);
    }
  }

  lemma NothingMapped(f: string, p: Place, from: nat)
    requires p.Valid() && p.Pos() <= from <= |f|
    ensures Mapped(f, p, from, 0) == f && p.After(0) == p
  {
    MappedFrame(f, p, from, 0);
  }

  /** What sending a piece means for the rest; the piece may be empty. */
  lemma PieceStripped(f: string, from: nat, ptr: nat, end: nat)
    requires from <= ptr <= end <= |f| && CR !in f[from..ptr] && (ptr < end ==> f[ptr] == CR)
    ensures StripFrom(f, from, end) == f[from..ptr] + StripFrom(f, ptr, end)
  {
    PieceUpTo(f, from, ptr, end);
    StripPiece(f, from, end);
  }

  lemma PieceSent(f: string, p: Place, from: nat, ptr: nat, end: nat)
    requires p.Valid() && p.Pos() <= from <= ptr <= end <= |f| && end - from <= MMPSIZE
    requires CR !in f[from..ptr] && (ptr < end ==> f[ptr] == CR)
    ensures RunPieces(f, p, from, end)
            == RunPieces(Mapped(f, p, from, ptr - from), p.After(ptr - from), ptr, end)
    ensures SameFrom(Mapped(f, p, from, ptr - from), f, ptr)
  {
    if ptr == from {
      NothingMapped(f, p, from);
    } else {
      assert SameFrom(Mapped(f, p, from, ptr - from), f, ptr) by {
        MappedFrame(f, p, from, ptr - from);
      }
      PieceUpTo(f, from, ptr, end);
      assert f[from] == f[from..ptr][0];
    }
  }

  /** A piece that begins with the last byte of the first window, and whose second byte differs
      from its first. */
  lemma DamagedPiece(f: string, p: Place, from: nat)
    requires p == Place(0, MMPSIZE - 1) && from == MMPSIZE && |f| == from + 2
    requires f[from] != CR && f[from + 1] != CR && f[from] != f[from + 1]
    ensures !PiecesRight(f, p, from, |f|)
  {
    PieceOfOthers(f, from, |f|);
    var chunk := f[from..from + 2];
    assert Again(1, 1, 0) == 0 && chunk[1 + 0] != chunk[Again(1, 1, 0)];
    assert !Repeats(chunk, 1, 1);
  }

  lemma DamagedWindows(f: string, p: Place, from: nat)
    requires p == Place(0, 0) && from == 0 && |f| == MMPSIZE + 2 && f[0] == CR
    requires (forall i :: 1 <= i < |f| ==> f[i] != CR) && f[MMPSIZE] != f[MMPSIZE + 1]
    ensures !WindowsRight(f, p, from)
  {
    var m := MMPSIZE;
    PieceOfOthers(f, from + 1, m);
    var q := p.After(m - 1);
    assert PlaceAfter(f, q, m, m) == q;
    assert PlaceAfter(f, p, from, m) == PlaceAfter(f, p, from + 1, m) == q;
    DamagedPiece(f, q, m);
  }

  /** A larger file that is damaged: one carriage return, and later two different bytes that
      lie across the end of the first write window. */
  lemma LargerFilesMayBeDamaged(a: char, b: char)
    requires a != b && a != CR && b != CR
    ensures var f := [CR] + seq(524287, _ => 'x') + [a, b]; FileResult(f) != Strip(f)
  {
    var f := [CR] + seq(MMPSIZE - 1, _ => 'x') + [a, b];
    DamagedWindows(f, Place(0, 0), 0);
    ResultIsStripped(f);
  }
}

/** The program: `convert` with its two sinks, the pipe mode and the in-place mode. */
module StripCrProgram {
  import opened Common
  import opened StripCr

  /** The function that `convert` is given to send its pieces to. */
  datatype SendFunction = WrStdout | WrFMap

  /** What a conversion comes to: the whole output, or the file and the write position. */
  datatype Target = ToOutput(bytes: string) | ToFile(run: Run) | Undefined

  class Stripper {
    /** The file that is mapped, as its bytes, and which offsets can be mapped. */
    const file: array<char>
    const mappable: nat -> bool
    var wrmapped: bool
    var wrmapfilepos: nat
    var wrmapoffset: nat
    /** What has been written to the standard output, which takes `room` bytes in all. */
    var output: string
    /** What is left of the standard input. */
    var input: string
    const room: nat

    constructor (file: array<char>, mappable: nat -> bool, input: string, room: nat)
      ensures this.file == file && this.mappable == mappable && this.room == room
      ensures !wrmapped && wrmapfilepos == wrmapoffset == 0 && this.input == input && output == []
    {
      this.file, this.mappable, this.input, this.room := file, mappable, input, room;
      wrmapped, wrmapfilepos, wrmapoffset, output := false, 0, 0, [];
    }

    function At(): Place
      reads this
    {
      Place(wrmapfilepos, wrmapoffset)
    }

    ghost predicate AllMappable() {
      forall offset :: mappable(offset)
    }

    /** What the standard output takes of some bytes. */
    function Taken(bytes: string): string {
      if |bytes| <= room then bytes else bytes[..room]
    }

    /** wrstdout */
    method WriteOut(buffer: array<char>, from: nat, n: nat) returns (ok: bool)
      requires from + n <= buffer.Length && |output| <= room
      modifies `output
      ensures output == Taken(old(output) + buffer[from..from + n])
      ensures ok <==> |old(output)| + n <= room
    {
      var length := Min(n, room - |output|);
      output := output + buffer[from..from + length];
      ok := length == n;
      if !ok {
        SliceBegins(buffer[..], from, length, n);
        assert buffer[from..from + length] == buffer[..][from..from + length];
        assert buffer[from..from + n] == buffer[..][from..from + n];
      }
    }

    lemma SliceBegins(s: string, from: nat, k: nat, n: nat)
      requires k <= n && from + n <= |s|
      ensures s[from..from + k] == s[from..from + n][..k]
    {
    }

    /** memmove inside the file */
    method MoveMemory(dest: nat, from: nat, n: nat)
      requires dest + n <= file.Length && from + n <= file.Length
      modifies file
      ensures file[..] == Move(old(file[..]), dest, from, n)
    {
      ghost var f := file[..];
      forall i | 0 <= i < n {
        file[dest + i] := file[from + i];
      }
      forall i | 0 <= i < |f|
        ensures file[i] == Move(f, dest, from, n)[i]
      {
        MoveAt(f, dest, from, n, i);
      }
    }

    /** The body of the loop of `wrfmap`: what fits the window is moved, and the next window is
        mapped. */
    method FillWindow(from: nat, length: nat) returns (ok: bool)
      requires At().Valid() && At().Pos() + length <= file.Length && from + length <= file.Length
      requires wrmapoffset + length > MMPSIZE
      modifies `wrmapfilepos, `wrmapoffset, file
      ensures ok ==> file[..] == Move(old(file[..]), old(At()).Pos(), from, MMPSIZE - old(wrmapoffset))
      ensures ok ==> wrmapfilepos == old(wrmapfilepos) + MMPSIZE && wrmapoffset == 0
      ensures AllMappable() ==> ok
    {
      MoveMemory(wrmapfilepos + wrmapoffset, from, MMPSIZE - wrmapoffset);
      wrmapfilepos := wrmapfilepos + MMPSIZE;
      if !mappable(wrmapfilepos) {
        return false;
      }
      wrmapoffset := 0;
      return true;
    }

    /** The loop of `wrfmap`: where a chunk crosses the end of the window, the pointer to its
        bytes is not advanced. What is left to do is one move. */
    method FillWindows(from: nat, n: nat) returns (ok: bool, length: nat)
      requires At().Valid() && At().Pos() <= from && from + n <= file.Length && n <= MMPSIZE
      modifies `wrmapfilepos, `wrmapoffset, file
      ensures ok ==> Place(wrmapfilepos, wrmapoffset + length) == old(At()).After(n) && length <= n
      ensures ok ==> Mapped(old(file[..]), old(At()), from, n) == Move(file[..], At().Pos(), from, length)
      ensures AllMappable() ==> ok
    {
      length := n;
      ghost var f, p, k := file[..], At(), MMPSIZE - wrmapoffset;
      ghost var f1 := if n > k then Move(f, p.Pos(), from, k) else f;
      while wrmapoffset + length > MMPSIZE
        invariant wrmapoffset + length > MMPSIZE || n <= k ==> At() == p && length == n && file[..] == f
        invariant wrmapoffset + length <= MMPSIZE && n > k ==>
          At() == Place(p.base + MMPSIZE, 0) && length == n - k && file[..] == f1
        decreases wrmapoffset
      {
        var fits := MMPSIZE - wrmapoffset;
        ok := FillWindow(from, length);
        if !ok {
          return false, length;
        }
        length := length - fits;
      }
      MappedMoves(f, p, from, n, f1);
      ok := true;
    }

    /** wrfmap: the first window is mapped by the first call. */
    method WriteMapped(from: nat, n: nat) returns (ok: bool)
      requires At().Valid() && At().Pos() <= from && from + n <= file.Length && n <= MMPSIZE
      modifies `wrmapped, `wrmapfilepos, `wrmapoffset, file
      ensures ok ==> file[..] == Mapped(old(file[..]), old(At()), from, n)
      ensures ok ==> At() == old(At()).After(n) && wrmapped
      ensures AllMappable() ==> ok
    {
      if !wrmapped {
        if !mappable(wrmapfilepos) {
          return false;
        }
        wrmapped := true;
      }
      var length;
      ok, length := FillWindows(from, n);
      if !ok {
        return false;
      }
      MoveMemory(wrmapfilepos + wrmapoffset, from, length);
      wrmapoffset := wrmapoffset + length;
      return true;
    }

    /** What the output, or the file, will be when the rest of the buffer has been converted. */
    ghost function Rest(sendfnc: SendFunction, buffer: array<char>, from: nat, end: nat): Target
      reads this, buffer, file
    {
      if !(from <= end <= buffer.Length) then Undefined
      else match sendfnc
        case WrStdout =>
          if |output| <= room then ToOutput(output + StripFrom(buffer[..], from, end)) else Undefined
        case WrFMap =>
          if buffer == file && At().Valid() && At().Pos() <= from && end - from <= MMPSIZE
          then ToFile(RunPieces(file[..], At(), from, end)) else Undefined
    }

    /** A carriage return is passed over. */
    lemma PassReturn(sendfnc: SendFunction, buffer: array<char>, from: nat, end: nat)
      requires from < end <= buffer.Length && buffer[from] == CR
      requires Rest(sendfnc, buffer, from, end) != Undefined
      ensures Rest(sendfnc, buffer, from + 1, end) == Rest(sendfnc, buffer, from, end)
    {
    }

    lemma OutputGoesOn(sent: string, f: string, from: nat, ptr: nat, end: nat)
      requires from <= ptr <= end <= |f| && CR !in f[from..ptr] && (ptr < end ==> f[ptr] == CR)
      ensures sent + StripFrom(f, from, end) == (sent + f[from..ptr]) + StripFrom(f, ptr, end)
      ensures |sent + f[from..ptr]| > room ==>
        Taken(sent + StripFrom(f, from, end)) == Taken(sent + f[from..ptr])
    {
      var piece, rest := f[from..ptr], StripFrom(f, ptr, end);
      PieceStripped(f, from, ptr, end);
      Associative(sent, piece, rest);
      if |sent + piece| > room {
        assert ((sent + piece) + rest)[..room] == (sent + piece)[..room];
      }
    }

    /** A piece that ends at a carriage return or at the end goes to the output. */
    method PieceOut(buffer: array<char>, from: nat, ptr: nat, end: nat) returns (ok: bool)
      requires from <= ptr <= end <= buffer.Length && |output| <= room
      requires CR !in buffer[from..ptr] && (ptr < end ==> buffer[ptr] == CR)
      modifies `output
      ensures ok ==> |output| <= room
      ensures ok ==> output + StripFrom(buffer[..], ptr, end) == old(output + StripFrom(buffer[..], from, end))
      ensures !ok ==>
        var bytes := old(output + StripFrom(buffer[..], from, end));
        output == Taken(bytes) && |bytes| > room
    {
      ghost var f := buffer[..];
      assert f[from..ptr] == buffer[from..ptr];
      OutputGoesOn(output, f, from, ptr, end);
      ok := WriteOut(buffer, from, ptr - from);
    }

    /** The same into the mapped file. */
    method PieceIn(from: nat, ptr: nat, end: nat) returns (ok: bool)
      requires At().Valid() && At().Pos() <= from <= ptr <= end <= file.Length && end - from <= MMPSIZE
      requires CR !in file[from..ptr] && (ptr < end ==> file[ptr] == CR)
      modifies `wrmapped, `wrmapfilepos, `wrmapoffset, file
      ensures ok ==> At().Valid() && At().Pos() <= ptr && wrmapped
      ensures ok ==> RunPieces(file[..], At(), ptr, end) == old(RunPieces(file[..], At(), from, end))
      ensures ok ==> SameFrom(file[..], old(file[..]), ptr)
      ensures AllMappable() ==> ok
    {
      ghost var f := file[..];
      assert f[from..ptr] == file[from..ptr];
      PieceSent(f, At(), from, ptr, end);
      ok := WriteMapped(from, ptr - from);
    }

    /** sendfnc(lastendpos, ptr - lastendpos) */
    method SendPiece(sendfnc: SendFunction, buffer: array<char>, from: nat, ptr: nat, end: nat) returns (ok: bool)
      requires Rest(sendfnc, buffer, from, end) != Undefined && from <= ptr <= end
      requires CR !in buffer[from..ptr] && (ptr < end ==> buffer[ptr] == CR)
      modifies `wrmapped, `wrmapfilepos, `wrmapoffset, `output, if sendfnc == WrFMap then {file} else {}
      ensures ok ==> Rest(sendfnc, buffer, ptr, end) == old(Rest(sendfnc, buffer, from, end))
      ensures ok ==> SameFrom(buffer[..], old(buffer[..]), ptr)
      ensures sendfnc == WrFMap && ok ==> wrmapped
      ensures sendfnc == WrFMap && AllMappable() ==> ok
      ensures sendfnc == WrStdout && !ok ==>
        var bytes := old(Rest(sendfnc, buffer, from, end)).bytes;
        output == Taken(bytes) && |bytes| > room
    {
      match sendfnc {
        case WrStdout => ok := PieceOut(buffer, from, ptr, end);
        case WrFMap => ok := PieceIn(from, ptr, end);
      }
    }

    /** Sending a piece that ends at a carriage return, and passing over that. */
    method EndPiece(sendfnc: SendFunction, buffer: array<char>, from: nat, ptr: nat, end: nat) returns (ok: bool)
      requires Rest(sendfnc, buffer, from, end) != Undefined && from <= ptr < end
      requires CR !in buffer[from..ptr] && buffer[ptr] == CR
      modifies `wrmapped, `wrmapfilepos, `wrmapoffset, `output, if sendfnc == WrFMap then {file} else {}
      ensures ok ==> Rest(sendfnc, buffer, ptr + 1, end) == old(Rest(sendfnc, buffer, from, end))
      ensures sendfnc == WrFMap && ok ==> wrmapped
      ensures sendfnc == WrFMap && AllMappable() ==> ok
      ensures sendfnc == WrStdout && !ok ==>
        var bytes := old(Rest(sendfnc, buffer, from, end)).bytes;
        output == Taken(bytes) && |bytes| > room
    {
      ok := SendPiece(sendfnc, buffer, from, ptr, end);
      if ok {
        assert buffer[..][ptr] == CR;
        PassReturn(sendfnc, buffer, ptr, end);
      }
    }

    /** convert: the pieces between carriage returns are sent to a function, each as soon as its
        end is found. */
    method Convert(sendfnc: SendFunction, buffer: array<char>, start: nat, length: nat) returns (ok: bool)
      requires start + length <= buffer.Length
      requires sendfnc == WrStdout ==> |output| <= room
      requires sendfnc == WrFMap ==> buffer == file && At().Valid() && At().Pos() <= start && length <= MMPSIZE
      modifies `wrmapped, `wrmapfilepos, `wrmapoffset, `output, if sendfnc == WrFMap then {file} else {}
      ensures sendfnc == WrStdout ==>
        var goal := old(output) + Strip(buffer[start..start + length]);
        output == Taken(goal) && (ok <==> |goal| <= room)
      ensures sendfnc == WrFMap && ok ==>
        Run(file[..], At()) == RunPieces(old(file[..]), old(At()), start, start + length) && wrmapped
      ensures sendfnc == WrFMap && AllMappable() ==> ok
    {
      var lastbeginpos, lastendpos, ptr, end := -1, start, start, start + length;
      ghost var target := Rest(sendfnc, buffer, start, end);
      StripFromIsStrip(buffer[..], start, end);
      assert buffer[..][start..end] == buffer[start..end];
      while ptr < end
        invariant start <= ptr <= end && -1 <= lastendpos <= ptr
        invariant lastendpos == -1 ==> lastbeginpos != -1 && (sendfnc == WrFMap ==> wrmapped)
        invariant Rest(sendfnc, buffer, if lastendpos == -1 then ptr else lastendpos, end) == target
        invariant lastendpos != -1 ==> CR !in buffer[lastendpos..ptr]
      {
        if buffer[ptr] == CR {
          if lastendpos != -1 {
            ok := EndPiece(sendfnc, buffer, lastendpos, ptr, end);
            if !ok {
              return false;
            }
            lastbeginpos := ptr;
            lastendpos := -1;
          } else {
            PassReturn(sendfnc, buffer, ptr, end);
            if lastbeginpos == -1 {
              lastbeginpos := ptr;
            }
          }
        } else if lastbeginpos != -1 && lastendpos == -1 {
          lastendpos := ptr;
        }
        ptr := ptr + 1;
      }
      if lastendpos != -1 {
        ok := SendPiece(sendfnc, buffer, lastendpos, ptr, end);
        if !ok {
          return false;
        }
      }
      assert Rest(sendfnc, buffer, end, end) == target;
      return true;
    }

    /** read from the standard input: at most n characters, and none at its end only. */
    method ReadInput(buffer: array<char>, n: nat) returns (length: nat)
      requires 0 < n <= buffer.Length
      modifies `input, buffer
      ensures length <= n && length <= |old(input)| && (length == 0 <==> old(input) == [])
      ensures input == old(input)[length..] && buffer[..length] == old(input)[..length]
    {
      if input == [] {
        return 0;
      }
      var limit := Min(n, |input|);
      length :| 1 <= length <= limit;
      forall i | 0 <= i < length {
        buffer[i] := input[i];
      }
      input := input[length..];
    }

    /** The pipe mode: the standard input goes through a buffer, and where the reads end makes
        no difference. */
    method StripStream() returns (ok: bool)
      requires |output| <= room
      modifies this
      ensures var goal := old(output) + Strip(old(input));
              output == Taken(goal) && (ok <==> |goal| <= room)
    {
      var buffer := new char[IOBSIZE](_ => '\0');
      ghost var goal := output + Strip(input);
      while true
        invariant output + Strip(input) == goal && |output| <= room
        decreases |input|
      {
        ghost var rest, sent := input, output;
        var length := ReadInput(buffer, IOBSIZE);
        if length == 0 {
          assert Strip(rest) == [];
          return true;
        }
        StripTaken(sent, rest[..length], rest[length..]);
        assert rest == rest[..length] + rest[length..] && buffer[0..length] == rest[..length];
        ok := Convert(WrStdout, buffer, 0, length);
        if !ok {
          return false;
        }
      }
    }

    lemma StripTaken(sent: string, a: string, b: string)
      ensures sent + Strip(a + b) == (sent + Strip(a)) + Strip(b)
    {
      StripConcat(a, b);
      Associative(sent, Strip(a), Strip(b));
    }

    /** One read window is mapped and converted. */
    method ConvertWindow(rdmapfilepos: nat, length: nat) returns (ok: bool)
      requires At().Valid() && At().Pos() <= rdmapfilepos && rdmapfilepos + length <= file.Length && length <= MMPSIZE
      modifies `wrmapped, `wrmapfilepos, `wrmapoffset, `output, file
      ensures ok ==> At().Valid() && At().Pos() <= rdmapfilepos + length && wrmapped
      ensures ok ==>
        Run(file[..], At()) == old(RunPieces(file[..], At(), rdmapfilepos, rdmapfilepos + length))
      ensures AllMappable() ==> ok
    {
      if !mappable(rdmapfilepos) {
        return false;
      }
      ok := Convert(WrFMap, file, rdmapfilepos, length);
    }

    /** The loop over the read windows, from a position on. */
    method ConvertWindows(from: nat) returns (ok: bool)
      requires At().Valid() && At().Pos() <= from < file.Length
      modifies `wrmapped, `wrmapfilepos, `wrmapoffset, `output, file
      ensures ok ==> Run(file[..], At()) == old(RunWindows(file[..], At(), from)) && wrmapped
      ensures AllMappable() ==> ok
    {
      ghost var run := RunWindows(file[..], At(), from);
      var rdmapfilepos, size := from, file.Length - from;
      while size > MMPSIZE
        invariant rdmapfilepos + size == file.Length && size > 0
        invariant At().Valid() && At().Pos() <= rdmapfilepos
        invariant RunWindows(file[..], At(), rdmapfilepos) == run
      {
        NextWindow(file[..], At(), rdmapfilepos);
        ok := ConvertWindow(rdmapfilepos, MMPSIZE);
        if !ok {
          return false;
        }
        rdmapfilepos := rdmapfilepos + MMPSIZE;
        size := size - MMPSIZE;
      }
      NextWindow(file[..], At(), rdmapfilepos);
      ok := ConvertWindow(rdmapfilepos, size);
    }

    /** The in-place mode, for one file: it is truncated where the writing has ended, unless a
        window could not be mapped. Nothing can be mapped of an empty file. */
    method StripFile() returns (ok: bool, result: string)
      requires !wrmapped && At() == Place(0, 0)
      modifies this, file
      ensures ok ==> result == FileResult(old(file[..])) && |result| == |Strip(old(file[..]))|
      ensures ok ==> (result == Strip(old(file[..])) <==> WindowsRight(old(file[..]), Place(0, 0), 0))
      ensures ok && file.Length <= MMPSIZE ==> result == Strip(old(file[..]))
      ensures !ok ==> |result| == file.Length
      ensures AllMappable() && file.Length > 0 ==> ok
    {
      if file.Length == 0 {
        return false, [];
      }
      ghost var f := file[..];
      ResultIsStripped(f);
      SmallFilesIfSmall(f);
      ok := ConvertWindows(0);
      if ok {
        result := file[..wrmapfilepos + wrmapoffset];
      } else {
        result := file[..];
      }
    }

    lemma SmallFilesIfSmall(f: string)
      ensures |f| <= MMPSIZE ==> FileResult(f) == Strip(f)
    {
      if |f| <= MMPSIZE {
        SmallFilesAreStripped(f);
      }
    }
  }
}

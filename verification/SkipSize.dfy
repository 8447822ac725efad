/** fdf.cpp, option -n: the first bytes of files are not compared. The documentation asks for a
    size below 2 GB, which the program does not check; that is the exact condition under which
    the runs over many files mean what the option says. */
module SkipSize {
  import opened Common
  import opened Win32File
  import opened FileTable
  import opened FileIndex

  /** Two files that differ in their first byte, which the skip size is to leave out. */
  ghost function TwoFiles(skip: nat): map<string, FileInfo> {
    map["a" := FileInfo([0] + Zeros(skip), 0, 1, 1), "b" := FileInfo([1] + Zeros(skip), 0, 2, 1)]
  }

  lemma LargeSkipIsLost(skip: nat)
    requires skip >= 0x8000_0000
    ensures var files := TwoFiles(skip);
      && Wanted(files, skip, "a") && Wanted(files, skip, "b") && WellLinked(files)
      && EqualFrom(files, skip, "a", "b") && !SameFile(files, skip, "a", "b")
  {
    var a: seq<byte>, b: seq<byte> := [0] + Zeros(skip), [1] + Zeros(skip);
    assert From(a, 0)[0] == 0 && From(b, 0)[0] == 1;
    assert From(a, skip) == From(b, skip);
  }

  /** What is decided is equality from the skip size on exactly for skip sizes below 2 GB. */
  lemma SkipIsKept(skip: nat)
    ensures (forall files, p, q :: Wanted(files, skip, p) && EqualFrom(files, skip, p, q) ==>
               SameFile(files, skip, p, q)) <==> skip < 0x8000_0000
  {
    if skip >= 0x8000_0000 {
      LargeSkipIsLost(skip);
    }
  }

  /** The run over two files that can be opened all the time. */
  ghost function TwoFileRun(skip: nat): (h: History)
    ensures |h.systems| == |h.paths| == |h.results| == 2 && |h.helds| == 3
  {
    var fs := FileSystem(TwoFiles(skip), {"a", "b"});
    History(TwoFiles(skip), skip, [fs, fs], ["a", "b"], [{}, {"a"}, {"a", "b"}], [None, None])
  }

  lemma TwoFileRunIsRun(skip: nat)
    requires skip >= 0x8000_0000
    ensures TwoFileRun(skip).IsRun()
  {
    LargeSkipIsLost(skip);
    var h := TwoFileRun(skip);
    assert h.StepAt(0);
    assert h.StepAt(1);
  }

  /** In every run over these files the second one is not found to equal the first. */
  lemma SecondFileIsMissed(h: History)
    requires h.IsRun() && h.skip >= 0x8000_0000 && h.files == TwoFiles(h.skip) && h.paths == ["a", "b"]
    ensures h.results[1] == None
  {
    LargeSkipIsLost(h.skip);
    if h.results[1].Some? {
      var k := FoundIsEarlier(h, 1);
    }
  }

  /** File i equals an earlier file from the skip size on, and is not found to. */
  ghost predicate Missed(h: History, k: nat, i: nat) {
    && h.IsRun() && h.StillReadable() && k < i < |h.paths| && h.Seen(k) && h.Seen(i)
    && EqualFrom(h.files, h.skip, h.paths[k], h.paths[i]) && h.results[i] == None
  }

  /** While what has been seen can still be opened, equal files are missed exactly with skip
      sizes of 2 GB or more. */
  lemma MissedOnlyByLargeSkip(skip: nat)
    ensures (exists h: History, k, i :: h.skip == skip && Missed(h, k, i)) <==> skip >= 0x8000_0000
  {
    if skip >= 0x8000_0000 {
      LargeSkipIsLost(skip);
      TwoFileRunIsRun(skip);
      assert Missed(TwoFileRun(skip), 0, 1);
    } else {
      forall h: History, k: nat, i: nat | h.skip == skip
        ensures !Missed(h, k, i)
      {
        if Missed(h, k, i) {
          var j, m := NothingIsMissed(h, k, i);
        }
      }
    }
  }

  /** Two files that are held at once and are equal from the skip size on. */
  ghost predicate HeldTwice(h: History, i: nat, p: string, q: string) {
    h.IsRun() && i < |h.helds| && p in h.helds[i] && q in h.helds[i] && p != q && EqualFrom(h.files, h.skip, p, q)
  }

  lemma HeldTwiceOnlyByLargeSkip(skip: nat)
    ensures (exists h: History, i, p, q :: h.skip == skip && HeldTwice(h, i, p, q)) <==> skip >= 0x8000_0000
  {
    if skip >= 0x8000_0000 {
      LargeSkipIsLost(skip);
      TwoFileRunIsRun(skip);
      assert HeldTwice(TwoFileRun(skip), 2, "a", "b");
    } else {
      forall h: History, i: nat, p: string, q: string | h.skip == skip
        ensures !HeldTwice(h, i, p, q)
      {
        if HeldTwice(h, i, p, q) {
          HeldDiffer(h, i);
        }
      }
    }
  }

  /** A result other than that of comparing with every earlier file from the skip size on. */
  ghost predicate NotNaive(h: History, fs: FileSystem, i: nat) {
    && h.IsRun() && fs.files == h.files && h.SameSystem(fs) && i < |h.paths|
    && h.results[i] != NaiveSearch(fs, h.skip, h.skip, h.paths, i)
  }

  lemma NaiveUnlessLargeSkip(skip: nat)
    ensures (exists h: History, fs, i :: h.skip == skip && NotNaive(h, fs, i)) <==> skip >= 0x8000_0000
  {
    if skip >= 0x8000_0000 {
      var h := TwoFileRun(skip);
      LargeSkipIsLost(skip);
      TwoFileRunIsRun(skip);
      assert FirstSeen(h.systems[0], skip, h.paths, 1, 0) == 0;
      assert NotNaive(h, h.systems[0], 1);
    } else {
      forall h: History, fs: FileSystem, i: nat | h.skip == skip
        ensures !NotNaive(h, fs, i)
      {
        if NotNaive(h, fs, i) {
          RunIsNaive(h, fs, skip, |h.paths|);
        }
      }
    }
  }
}

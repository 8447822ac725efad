/** fdf.cpp: whole runs over many files, and the search through all earlier files that they
    must agree with. */
module FileIndex {
  import opened Common
  import opened FileTable

  predicate AreLinks(files: map<string, FileInfo>, p: string, q: string) {
    && p in files && q in files
    && files[p].volume == files[q].volume && files[p].index == files[q].index
  }

  /** A file index identifies a file on its volume: links to it have the same contents. */
  ghost predicate WellLinked(files: map<string, FileInfo>) {
    forall p, q :: AreLinks(files, p, q) ==> files[p].data == files[q].data
  }

  /** With a skip size, only larger files are looked for. */
  predicate Wanted(files: map<string, FileInfo>, skip: nat, path: string) {
    path in files && (skip > 0 ==> |files[path].data| > skip)
  }

  /** The file has several links, of which one is held. */
  ghost predicate LinkIsHeld(held: set<string>, fs: FileSystem, path: string) {
    fs.CanOpen(path) && fs.files[path].links > 1 && exists p :: p in held && AreLinks(fs.files, p, path)
  }

  /** One file has been looked at: a link to it is held and has been found, it is not wanted, or
      it has been looked for in the table. */
  ghost predicate LookedAt(held: set<string>, held': set<string>, found: Option<string>,
                           fs: FileSystem, path: string, skip: nat)
  {
    if LinkIsHeld(held, fs, path) then
      && held' == held && found.Some? && found.value in held && AreLinks(fs.files, found.value, path)
      && SameFile(fs.files, skip, found.value, path)
    else if Wanted(fs.files, skip, path) then FoundOrAdded(held, held', found, fs, path, skip)
    else held' == held && found == None
  }

  /** With a skip size, only larger files are looked for in the table. */
  method FindWanted(t: FileRecordTable, fs: FileSystem, path: string, skip: nat) returns (r: FileRecord?)
    requires t.Valid(fs.files, skip) && path in fs.files
    modifies t`Repr, t.Repr
    ensures t.Valid(fs.files, skip) && fresh(t.Repr - old(t.Repr))
    ensures 0 < skip && |fs.files[path].data| <= skip ==> r == null && t.Held(fs.files) == old(t.Held(fs.files))
    ensures skip == 0 || |fs.files[path].data| > skip ==>
      FoundOrAdded(old(t.Held(fs.files)), t.Held(fs.files), if r == null then None else Some(r.path), fs, path, skip)
  {
    if skip > 0 {
      if |fs.files[path].data| > skip {
        r := t.FindEqualOrAdd(fs, path, skip);
      } else {
        r := null;
      }
    } else {
      r := t.FindEqualOrAdd(fs, path, 0);
    }
  }

  /** What it means that Find has found nothing. */
  lemma NoLinkIsHeld(t: FileRecordTable, fs: FileSystem, path: string, skip: nat)
    requires t.Valid(fs.files, skip) && WellLinked(fs.files) && path in fs.files
    requires fs.CanOpen(path) && fs.files[path].links > 1 ==>
      forall e | e in t.table[BucketOf(fs.files, path)].elems ::
        e.record.fileIndex != fs.files[path].index || e.record.volume != fs.files[path].volume
    ensures !LinkIsHeld(t.Held(fs.files), fs, path)
  {
    if LinkIsHeld(t.Held(fs.files), fs, path) {
      var p :| p in t.Held(fs.files) && AreLinks(fs.files, p, path);
      var e := t.RecordOf(fs.files, skip, p);
    }
  }

  /** The part of `chkfile` that looks for an equal file. */
  method LookAt(t: FileRecordTable, fs: FileSystem, path: string, skip: nat) returns (r: FileRecord?)
    requires t.Valid(fs.files, skip) && WellLinked(fs.files)
    modifies t`Repr, t.Repr
    ensures t.Valid(fs.files, skip) && fresh(t.Repr - old(t.Repr))
    ensures LookedAt(old(t.Held(fs.files)), t.Held(fs.files), if r == null then None else Some(r.path),
                     fs, path, skip)
  {
    r := t.Find(fs, path, skip);
    if r != null || path !in fs.files {
      return;
    }
    NoLinkIsHeld(t, fs, path, skip);
    r := FindWanted(t, fs, path, skip);
  }

  // ----- runs in which files become unreadable and readable again

  ghost predicate OneEach(files: map<string, FileInfo>, skip: nat, held: set<string>) {
    forall p, q :: p in held && q in held && SameFile(files, skip, p, q) ==> p == q
  }

  /** A run: file i is looked at when the file system is systems[i], with the result results[i];
      helds[i] are the files held before. */
  datatype History = History(files: map<string, FileInfo>, skip: nat, systems: seq<FileSystem>, paths: seq<string>,
                             helds: seq<set<string>>, results: seq<Option<string>>) {
    ghost predicate StepAt(i: nat)
      requires i < |systems| && i < |paths| && i < |results| && i + 1 < |helds|
    {
      && systems[i].files == files
      && LookedAt(helds[i], helds[i + 1], results[i], systems[i], paths[i], skip)
    }

    ghost predicate IsRun() {
      && |systems| == |paths| == |results| && |helds| == |paths| + 1 && helds[0] == {}
      && forall i {:trigger StepAt(i)} :: 0 <= i < |paths| ==> StepAt(i)
    }

    /** The run after one more file. */
    ghost function Then(fs: FileSystem, path: string, held: set<string>, result: Option<string>): History {
      History(files, skip, systems + [fs], paths + [path], helds + [held], results + [result])
    }

    /** File i has been found to be one that is wanted and can be opened. */
    predicate Seen(i: nat)
      requires i < |systems| && i < |paths|
    {
      systems[i].CanOpen(paths[i]) && Wanted(files, skip, paths[i])
    }

    /** What has been seen can be opened ever after. */
    ghost predicate StillReadable()
      requires |systems| == |paths|
    {
      forall j, m :: 0 <= j < m < |paths| && Seen(j) ==> systems[m].CanOpen(paths[j])
    }

    /** What can be opened stays the same. */
    ghost predicate SameSystem(fs: FileSystem) {
      forall i :: 0 <= i < |systems| ==> systems[i] == fs
    }
  }

  lemma LookingKeepsOneEach(held: set<string>, held': set<string>, found: Option<string>,
                            fs: FileSystem, path: string, skip: nat)
    requires LookedAt(held, held', found, fs, path, skip) && OneEach(fs.files, skip, held)
    ensures OneEach(fs.files, skip, held')
  {
  }

  /** No two files held are equal, at any time. */
  lemma {:induction false} HeldDiffer(h: History, i: nat)
    requires h.IsRun() && i < |h.helds|
    ensures OneEach(h.files, h.skip, h.helds[i])
  {
    if i > 0 {
      HeldDiffer(h, i - 1);
      assert h.StepAt(i - 1);
      LookingKeepsOneEach(h.helds[i - 1], h.helds[i], h.results[i - 1], h.systems[i - 1], h.paths[i - 1], h.skip);
    }
  }

  /** What is held has been seen. */
  lemma {:induction false} HeldWasSeen(h: History, i: nat, p: string) returns (k: nat)
    requires h.IsRun() && i < |h.helds| && p in h.helds[i]
    ensures k < i && h.paths[k] == p && h.Seen(k)
  {
    assert h.StepAt(i - 1);
    if p in h.helds[i - 1] {
      k := HeldWasSeen(h, i - 1, p);
    } else {
      k := i - 1;
    }
  }

  /** Every file found is an earlier one that has been seen, and equals the file looked at; it
      can still be opened, unless it is a link to the same file. */
  lemma FoundIsEarlier(h: History, i: nat) returns (k: nat)
    requires h.IsRun() && i < |h.paths| && h.results[i].Some?
    ensures k < i && h.results[i] == Some(h.paths[k]) && h.Seen(k) && h.Seen(i)
    ensures SameFile(h.files, h.skip, h.paths[k], h.paths[i]) && EqualFrom(h.files, h.skip, h.paths[k], h.paths[i])
    ensures h.systems[i].CanOpen(h.paths[k]) || AreLinks(h.files, h.paths[k], h.paths[i])
  {
    assert h.StepAt(i);
    k := HeldWasSeen(h, i, h.results[i].value);
    DecidedIsEqual(h.files, h.skip, h.paths[k], h.paths[i]);
  }

  /** What a result means, byte by byte. */
  lemma FoundAgrees(h: History, i: nat)
    requires h.IsRun() && i < |h.paths| && h.results[i].Some?
    ensures var p, q := h.results[i].value, h.paths[i];
      && p in h.files && q in h.files && h.files[p].volume == h.files[q].volume
      && |h.files[p].data| == |h.files[q].data|
      && forall k :: h.skip <= k < |h.files[p].data| ==> h.files[p].data[k] == h.files[q].data[k]
  {
    var k := FoundIsEarlier(h, i);
    EqualFromAt(h.files, h.skip, h.paths[k], h.paths[i]);
  }

  /** A file that can be opened and has several links, of which one is held, is found to be a link,
      whatever its size is and whether or not that can be opened. */
  lemma LinkIsFound(h: History, i: nat, p: string)
    requires h.IsRun() && i < |h.paths| && p in h.helds[i] && p in h.files && h.paths[i] in h.files
    requires h.systems[i].CanOpen(h.paths[i]) && h.files[h.paths[i]].links > 1
    requires h.files[p].volume == h.files[h.paths[i]].volume && h.files[p].index == h.files[h.paths[i]].index
    ensures h.results[i].Some? && h.results[i].value in h.files && h.helds[i + 1] == h.helds[i]
    ensures var q := h.results[i].value;
      h.files[q].volume == h.files[p].volume && h.files[q].index == h.files[p].index
  {
    assert h.StepAt(i);
    assert AreLinks(h.files, p, h.paths[i]);
  }

  /** With a skip size, a file is found to equal another only if it is larger than that, */
  lemma FoundIsLarger(h: History, i: nat)
    requires h.IsRun() && i < |h.paths| && h.skip > 0 && h.results[i].Some?
    ensures h.paths[i] in h.files && |h.files[h.paths[i]].data| > h.skip
  {
    var k := FoundIsEarlier(h, i);
  }

  /** only larger files are ever held, */
  lemma HeldIsLarger(h: History, i: nat, p: string)
    requires h.IsRun() && i < |h.helds| && h.skip > 0 && p in h.helds[i]
    ensures p in h.files && |h.files[p].data| > h.skip
  {
    var k := HeldWasSeen(h, i, p);
  }

  /** and every file that is larger and can be opened is found or held. */
  lemma LargerIsFoundOrHeld(h: History, i: nat)
    requires h.IsRun() && i < |h.paths| && h.systems[i].CanOpen(h.paths[i])
    requires h.skip > 0 ==> |h.systems[i].files[h.paths[i]].data| > h.skip
    ensures h.results[i].Some? || h.paths[i] in h.helds[i + 1]
  {
    assert h.StepAt(i);
  }

  /** Once a file has been seen an equal one is held, until one that was held cannot be opened. */
  lemma {:induction false} HeldOrUnreadable(h: History, k: nat, i: nat) returns (held: bool, p: string, m: nat)
    requires h.IsRun() && k < i < |h.helds| && h.Seen(k)
    ensures SameFile(h.files, h.skip, p, h.paths[k]) && k < m <= i && p in h.helds[m]
    ensures if held then m == i else m < i && !h.systems[m].CanOpen(p)
    decreases i
  {
    assert h.StepAt(i - 1);
    if i == k + 1 {
      held, p, m := true, h.results[k].GetOr(h.paths[k]), i;
    } else {
      held, p, m := HeldOrUnreadable(h, k, i - 1);
      if held {
        held := p in h.helds[i];
        m := if held then i else i - 1;
      }
    }
  }

  /** No equal file is missed, unless one of them could not be opened in the meantime. */
  lemma NothingIsMissed(h: History, k: nat, i: nat) returns (j: nat, m: nat)
    requires h.IsRun() && k < i < |h.paths| && h.Seen(k) && h.systems[i].CanOpen(h.paths[i])
    requires SameFile(h.files, h.skip, h.paths[k], h.paths[i]) && h.results[i] == None
    ensures j < m && k < m <= i && h.Seen(j) && SameFile(h.files, h.skip, h.paths[j], h.paths[i])
    ensures !h.systems[m].CanOpen(h.paths[j])
  {
    var held, p;
    held, p, m := HeldOrUnreadable(h, k, i);
    assert h.StepAt(i);
    j := HeldWasSeen(h, m, p);
  }

  // ----- runs in which nothing becomes unreadable

  /** The first of the files looked at that can be opened and equals number i from the offset
      on: what comparing with every earlier file would find. */
  ghost function FirstSeen(fs: FileSystem, offset: nat, paths: seq<string>, i: nat, from: nat): (j: nat)
    requires from <= i < |paths| && fs.CanOpen(paths[i])
    ensures from <= j <= i && fs.CanOpen(paths[j]) && EqualFrom(fs.files, offset, paths[j], paths[i])
    ensures forall k :: from <= k < j && fs.CanOpen(paths[k]) ==> !EqualFrom(fs.files, offset, paths[k], paths[i])
    decreases i - from
  {
    if fs.CanOpen(paths[from]) && EqualFrom(fs.files, offset, paths[from], paths[i]) then from
    else FirstSeen(fs, offset, paths, i, from + 1)
  }

  ghost predicate IsFirst(fs: FileSystem, skip: nat, offset: nat, paths: seq<string>, k: nat)
    requires k < |paths|
  {
    fs.CanOpen(paths[k]) && Wanted(fs.files, skip, paths[k]) && FirstSeen(fs, offset, paths, k, 0) == k
  }

  /** Exactly the first-seen representatives of the first n files are held. */
  ghost predicate HoldsFirsts(held: set<string>, fs: FileSystem, skip: nat, offset: nat, paths: seq<string>, n: nat)
    requires n <= |paths|
  {
    && (forall k :: 0 <= k < n && IsFirst(fs, skip, offset, paths, k) ==> paths[k] in held)
    && (forall p :: p in held ==> exists k :: 0 <= k < n && IsFirst(fs, skip, offset, paths, k) && paths[k] == p)
  }

  /** What comparing file i with every earlier file finds, from the offset on. */
  ghost function NaiveSearch(fs: FileSystem, skip: nat, offset: nat, paths: seq<string>, i: nat): Option<string>
    requires i < |paths|
  {
    if fs.CanOpen(paths[i]) && Wanted(fs.files, skip, paths[i]) && FirstSeen(fs, offset, paths, i, 0) < i
    then Some(paths[FirstSeen(fs, offset, paths, i, 0)]) else None
  }

  /** A file that is not larger than the skip size equals no other, and every other file that can
      be opened is compared with all earlier ones. */
  lemma NaiveSearchMeans(fs: FileSystem, skip: nat, offset: nat, paths: seq<string>, i: nat)
    requires i < |paths| && fs.CanOpen(paths[i])
    ensures NaiveSearch(fs, skip, offset, paths, i).Some?
      <==> && (skip > 0 ==> |fs.files[paths[i]].data| > skip)
           && exists k :: 0 <= k < i && fs.CanOpen(paths[k]) && EqualFrom(fs.files, offset, paths[k], paths[i])
  {
    var j := FirstSeen(fs, offset, paths, i, 0);
  }

  lemma FoundIsFirstSeen(fs: FileSystem, skip: nat, offset: nat, paths: seq<string>, i: nat, k: nat)
    requires k < i < |paths| && fs.CanOpen(paths[i]) && IsFirst(fs, skip, offset, paths, k)
    requires EqualFrom(fs.files, offset, paths[k], paths[i])
    ensures FirstSeen(fs, offset, paths, i, 0) == k
  {
    var j := FirstSeen(fs, offset, paths, i, 0);
    if j < k {
      assert EqualFrom(fs.files, offset, paths[j], paths[k]);
    }
  }

  lemma FirstSeenIsFirst(fs: FileSystem, skip: nat, offset: nat, paths: seq<string>, i: nat)
    requires i < |paths| && fs.CanOpen(paths[i]) && Wanted(fs.files, skip, paths[i])
    ensures IsFirst(fs, skip, offset, paths, FirstSeen(fs, offset, paths, i, 0))
  {
    var j := FirstSeen(fs, offset, paths, i, 0);
    var m := FirstSeen(fs, offset, paths, j, 0);
    if m < j {
      assert EqualFrom(fs.files, offset, paths[m], paths[i]);
    }
  }

  lemma HoldsNext(held: set<string>, held': set<string>, fs: FileSystem, skip: nat, offset: nat,
                  paths: seq<string>, i: nat)
    requires i < |paths| && HoldsFirsts(held, fs, skip, offset, paths, i)
    requires held' == if IsFirst(fs, skip, offset, paths, i) then held + {paths[i]} else held
    ensures HoldsFirsts(held', fs, skip, offset, paths, i + 1)
  {
    forall p | p in held'
      ensures exists k :: 0 <= k < i + 1 && IsFirst(fs, skip, offset, paths, k) && paths[k] == p
    {
      if p in held {
        var k :| 0 <= k < i && IsFirst(fs, skip, offset, paths, k) && paths[k] == p;
      } else {
        assert paths[i] == p;
      }
    }
  }

  /** A file is found exactly if it is not the first of its kind; else it is added. */
  lemma FoundOrFirst(held: set<string>, held': set<string>, found: Option<string>, fs: FileSystem, skip: nat,
                     offset: nat, paths: seq<string>, i: nat) returns (k: nat)
    requires i < |paths| && offset == StartOffset(skip) && HoldsFirsts(held, fs, skip, offset, paths, i)
    requires LookedAt(held, held', found, fs, paths[i], skip)
    requires fs.CanOpen(paths[i]) && Wanted(fs.files, skip, paths[i])
    ensures k == FirstSeen(fs, offset, paths, i, 0)
    ensures if found == None then k == i && held' == held + {paths[i]}
            else k < i && found == Some(paths[k]) && held' == held
  {
    k := FirstSeen(fs, offset, paths, i, 0);
    HeldIsReadable(held, fs, skip, offset, paths, i);
    if found.Some? {
      var m :| 0 <= m < i && IsFirst(fs, skip, offset, paths, m) && paths[m] == found.value;
      FoundIsFirstSeen(fs, skip, offset, paths, i, m);
    } else {
      FirstSeenIsFirst(fs, skip, offset, paths, i);
    }
  }

  lemma HeldIsReadable(held: set<string>, fs: FileSystem, skip: nat, offset: nat, paths: seq<string>, n: nat)
    requires n <= |paths| && HoldsFirsts(held, fs, skip, offset, paths, n)
    ensures forall p :: p in held ==> fs.CanOpen(p)
  {
  }

  /** Looking at one file agrees with the naive search. */
  lemma SearchIsNaive(held: set<string>, held': set<string>, found: Option<string>, fs: FileSystem, skip: nat,
                      offset: nat, paths: seq<string>, i: nat)
    requires i < |paths| && offset == StartOffset(skip) && HoldsFirsts(held, fs, skip, offset, paths, i)
    requires LookedAt(held, held', found, fs, paths[i], skip)
    ensures HoldsFirsts(held', fs, skip, offset, paths, i + 1)
    ensures found == NaiveSearch(fs, skip, offset, paths, i)
  {
    if fs.CanOpen(paths[i]) && Wanted(fs.files, skip, paths[i]) {
      var k := FoundOrFirst(held, held', found, fs, skip, offset, paths, i);
    } else {
      LinkIsWanted(held, held', found, fs, skip, offset, paths, i);
    }
    HoldsNext(held, held', fs, skip, offset, paths, i);
  }

  /** A link to a held file is as large as that, so it is wanted. */
  lemma LinkIsWanted(held: set<string>, held': set<string>, found: Option<string>, fs: FileSystem, skip: nat,
                     offset: nat, paths: seq<string>, i: nat)
    requires i < |paths| && HoldsFirsts(held, fs, skip, offset, paths, i)
    requires LookedAt(held, held', found, fs, paths[i], skip)
    requires !(fs.CanOpen(paths[i]) && Wanted(fs.files, skip, paths[i]))
    ensures found == None && held' == held
  {
  }

  /** While what can be opened stays the same, the first-seen representatives are held and every
      result is that of the naive search. */
  lemma {:induction false} RunIsNaive(h: History, fs: FileSystem, offset: nat, n: nat)
    requires h.IsRun() && n <= |h.paths| && fs.files == h.files && offset == StartOffset(h.skip)
    requires h.SameSystem(fs)
    ensures HoldsFirsts(h.helds[n], fs, h.skip, offset, h.paths, n)
    ensures forall i :: 0 <= i < n ==> h.results[i] == NaiveSearch(fs, h.skip, offset, h.paths, i)
  {
    if n > 0 {
      RunIsNaive(h, fs, offset, n - 1);
      assert h.StepAt(n - 1);
      SearchIsNaive(h.helds[n - 1], h.helds[n], h.results[n - 1], fs, h.skip, offset, h.paths, n - 1);
    }
  }

  // ----- the program

  lemma RunGoesOn(h: History, fs: FileSystem, path: string, held: set<string>, found: Option<string>)
    requires h.IsRun() && fs.files == h.files
    requires LookedAt(h.helds[|h.paths|], held, found, fs, path, h.skip)
    ensures h.Then(fs, path, held, found).IsRun()
  {
    var h' := h.Then(fs, path, held, found);
    forall i | 0 <= i < |h'.paths|
      ensures h'.StepAt(i)
    {
      if i < |h.paths| {
        assert h.StepAt(i);
      }
    }
  }

  /** The body of the loop: one file is looked at, and the run goes on. */
  method LookAtNext(t: FileRecordTable, fs: FileSystem, path: string, skip: nat, ghost h: History)
    returns (found: Option<string>)
    requires t.Valid(fs.files, skip) && WellLinked(fs.files)
    requires h.IsRun() && h.files == fs.files && h.skip == skip && h.helds[|h.paths|] == t.Held(fs.files)
    modifies t`Repr, t.Repr
    ensures t.Valid(fs.files, skip) && fresh(t.Repr - old(t.Repr))
    ensures h.Then(fs, path, t.Held(fs.files), found).IsRun()
  {
    var r := LookAt(t, fs, path, skip);
    found := if r == null then None else Some(r.path);
    RunGoesOn(h, fs, path, t.Held(fs.files), found);
  }

  lemma PrefixGrows<T>(s: seq<T>, i: nat)
    requires i < |s|
    ensures s[..i + 1] == s[..i] + [s[i]]
  {
  }

  /** Looking at one file after the other, while files may become unreadable and readable again,
      is a run; the table ends with the files held last. */
  method IndexAll(t: FileRecordTable, ghost files: map<string, FileInfo>, systems: seq<FileSystem>,
                  paths: seq<string>, skip: nat)
    returns (results: seq<Option<string>>, ghost h: History)
    requires t.Valid(files, skip) && t.Held(files) == {} && WellLinked(files)
    requires |systems| == |paths| && forall fs | fs in systems :: fs.files == files
    modifies t`Repr, t.Repr
    ensures h == History(files, skip, systems, paths, h.helds, results) && h.IsRun()
    ensures t.Valid(files, skip) && t.Held(files) == h.helds[|paths|]
  {
    results := [];
    h := History(files, skip, systems[..0], paths[..0], [{}], results);
    var i := 0;
    while i < |paths|
      invariant 0 <= i <= |paths|
      invariant t.Valid(files, skip) && fresh(t.Repr - old(t.Repr))
      invariant h == History(files, skip, systems[..i], paths[..i], h.helds, results)
      invariant h.IsRun() && h.helds[i] == t.Held(files)
    {
      var found := LookAtNext(t, systems[i], paths[i], skip, h);
      h := h.Then(systems[i], paths[i], t.Held(files), found);
      results := results + [found];
      PrefixGrows(systems, i);
      PrefixGrows(paths, i);
      i := i + 1;
    }
    assert systems[..i] == systems && paths[..i] == paths;
  }
}

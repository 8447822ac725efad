/** fdftable.hpp: the chained hash table of files seen so far, which must find an equal file
    exactly when a search through all earlier files would. */
module FileTable {
  import opened Common
  import opened Win32File
  import opened CheckFile
  import Euclid

  // ----- the file system

  datatype FileInfo = FileInfo(data: seq<byte>, volume: nat, index: nat, links: nat)

  /** Which files exist, and which of them can be opened at the moment. */
  datatype FileSystem = FileSystem(files: map<string, FileInfo>, readable: set<string>) {
    predicate CanOpen(path: string) { path in files && path in readable }
  }

  /** The equality of files of which the first bytes are not compared: volume, size, and all
      bytes from the offset on. */
  predicate EqualFrom(files: map<string, FileInfo>, offset: nat, p: string, q: string) {
    && p in files && q in files
    && files[p].volume == files[q].volume
    && |files[p].data| == |files[q].data|
    && From(files[p].data, offset) == From(files[q].data, offset)
  }

  /** Where SetFilePointer leaves a file for a 32-bit skip size: a value with the top bit set
      is a negative distance, which fails without moving and without being noticed. */
  function StartOffset(skip: nat): nat {
    if skip < 0x8000_0000 then skip else 0
  }

  /** What is checksummed and compared of a file. */
  function Content(files: map<string, FileInfo>, path: string, skip: nat): seq<byte>
    requires path in files
  {
    From(files[path].data, StartOffset(skip))
  }

  /** The equality that the program decides: it should be EqualFrom the skip size, but reading
      starts where the seek has left the file. */
  predicate SameFile(files: map<string, FileInfo>, skip: nat, p: string, q: string) {
    EqualFrom(files, StartOffset(skip), p, q)
  }

  /** Equality byte by byte. */
  lemma EqualFromAt(files: map<string, FileInfo>, offset: nat, p: string, q: string)
    requires p in files && q in files
    ensures var a, b := files[p].data, files[q].data;
      EqualFrom(files, offset, p, q)
      <==> files[p].volume == files[q].volume && |a| == |b| && forall k :: offset <= k < |a| ==> a[k] == b[k]
  {
    var a, b := files[p].data, files[q].data;
    FromAt(a, offset);
    FromAt(b, offset);
    if |a| == |b| && From(a, offset) == From(b, offset) {
      forall k | offset <= k < |a|
        ensures a[k] == b[k]
      {
        assert From(a, offset)[k - offset] == From(b, offset)[k - offset];
      }
    }
  }

  /** With a skip size of 2 GB or more, whole files are compared. */
  lemma LargeSkipComparesAll(files: map<string, FileInfo>, skip: nat, p: string, q: string)
    requires skip >= 0x8000_0000 && p in files && q in files
    ensures SameFile(files, skip, p, q) <==> files[p].volume == files[q].volume && files[p].data == files[q].data
  {
    EqualFromAt(files, 0, p, q);
  }

  /** Files that are decided to be equal are equal from the skip size on. */
  lemma DecidedIsEqual(files: map<string, FileInfo>, skip: nat, p: string, q: string)
    requires SameFile(files, skip, p, q)
    ensures EqualFrom(files, skip, p, q)
  {
    if skip >= 0x8000_0000 {
      var a, b := files[p].data, files[q].data;
      assert From(a, 0) == a && From(b, 0) == b;
    }
  }

  method Open(fs: FileSystem, path: string, skip: nat) returns (h: FileHandle?)
    ensures h == null <==> !fs.CanOpen(path)
    ensures h != null ==> fresh(h) && From(h.data, h.pos) == Content(fs.files, path, skip)
  {
    if !fs.CanOpen(path) {
      return null;
    }
    h := new FileHandle(fs.files[path].data);
    h.pos := StartOffset(skip);
  }

  /** CompareFiles */
  method CompareFiles(fs: FileSystem, path1: string, path2: string, skip: nat) returns (status: CompareStatus)
    ensures status == File1Failed <==> !fs.CanOpen(path1)
    ensures status == File2Failed <==> fs.CanOpen(path1) && !fs.CanOpen(path2)
    ensures fs.CanOpen(path1) && fs.CanOpen(path2) ==>
              Decides(status, Content(fs.files, path1, skip), Content(fs.files, path2, skip))
  {
    var h1 := Open(fs, path1, skip);
    if h1 == null {
      return File1Failed;
    }
    var h2 := Open(fs, path2, skip);
    if h2 == null {
      return File2Failed;
    }
    status := CompareOpenFiles(h1, h2);
  }

  // ----- records

  class FileRecord {
    const fileSize: nat
    const fileIndex: nat
    const volume: nat
    const path: string
    var sums: Sums
    var checksumCalculated: bool

    constructor (info: FileInfo, path: string, sums: Sums, calculated: bool)
      ensures fileSize == |info.data| && fileIndex == info.index && volume == info.volume && this.path == path
      ensures this.sums == sums && checksumCalculated == calculated
    {
      fileSize, fileIndex, volume := |info.data|, info.index, info.volume;
      this.path := path;
      this.sums, checksumCalculated := sums, calculated;
    }

    ghost predicate Describes(files: map<string, FileInfo>) {
      && path in files
      && fileSize == |files[path].data| && volume == files[path].volume && fileIndex == files[path].index
    }

    /** A cached checksum is the checksum of the file. */
    ghost predicate Cached(files: map<string, FileInfo>, skip: nat)
      reads this
    {
      checksumCalculated ==> path in files && sums == FileSums(Content(files, path, skip))
    }

    method CalculateChecksum(fs: FileSystem, skip: nat) returns (ok: bool)
      modifies this
      ensures ok <==> fs.CanOpen(path)
      ensures ok ==> checksumCalculated && Cached(fs.files, skip)
      ensures !ok ==> sums == old(sums) && checksumCalculated == old(checksumCalculated)
    {
      var h := Open(fs, path, skip);
      if h == null {
        return false;
      }
      sums := GetFileCheckSum(h);
      checksumCalculated := true;
      return true;
    }
  }

  datatype Verdict = Keep | Drop | Found

  /** A record is dropped if its file would have to be read, for its checksum or because its
      cached checksum is that of the file looked for, and cannot be opened. */
  ghost predicate Dropped(fs: FileSystem, record: FileRecord, path: string, skip: nat)
    requires path in fs.files
    reads record
  {
    && record.fileSize == |fs.files[path].data| && record.volume == fs.files[path].volume
    && !fs.CanOpen(record.path)
    && (record.checksumCalculated ==> record.sums == FileSums(Content(fs.files, path, skip)))
  }

  /** The body of the loop of FindEqualOrAdd for one record. `sums` are the checksums of the
      file that is looked for, read from its handle at most once. */
  method Examine(fs: FileSystem, record: FileRecord, hFile: FileHandle, path: string, skip: nat, sums: Option<Sums>)
    returns (verdict: Verdict, sums': Option<Sums>)
    requires record.Describes(fs.files) && record.Cached(fs.files, skip) && fs.CanOpen(path)
    requires SumsPending(fs, hFile, path, skip, sums)
    modifies record, hFile`pos
    ensures record.Cached(fs.files, skip)
    ensures SumsPending(fs, hFile, path, skip, sums')
    ensures verdict == Found ==> SameFile(fs.files, skip, record.path, path) && fs.CanOpen(record.path)
    ensures verdict == Keep ==> !SameFile(fs.files, skip, record.path, path)
    ensures verdict == Drop <==> old(Dropped(fs, record, path, skip))
  {
    sums' := sums;
    var info := fs.files[path];
    if record.fileSize != |info.data| || record.volume != info.volume {
      return Keep, sums';
    }
    if sums' == None {
      var s := GetFileCheckSum(hFile);
      sums' := Some(s);
    }
    if !record.checksumCalculated {
      var ok := record.CalculateChecksum(fs, skip);
      if !ok {
        return Drop, sums';
      }
    }
    if record.sums != sums'.value {
      return Keep, sums';
    }
    var status := CompareFiles(fs, record.path, path, skip);
    if status == Equal {
      EqualWordsAndSums(Content(fs.files, record.path, skip), Content(fs.files, path, skip));
      return Found, sums';
    }
    return (if status == File1Failed then Drop else Keep), sums';
  }

  class ChainElement {
    const record: FileRecord
    var next: ChainElement?

    constructor (record: FileRecord, next: ChainElement?)
      ensures this.record == record && this.next == next
    {
      this.record, this.next := record, next;
    }
  }

  // ----- one chain

  const TABLE_SIZE: nat := 256

  /** (FileSize.LowPart >> 10) & (FILE_RECORD_TABLE_SIZE - 1): bits 10 to 17 of the size. */
  function Bucket(fileSize: nat): (b: nat)
    ensures b < TABLE_SIZE
  {
    fileSize / 1024 % 256
  }

  /** The low 32 bits of the size are enough to find its bucket. */
  lemma BucketOfLowPart(fileSize: nat)
    ensures Bucket(fileSize) == fileSize % 0x1_0000_0000 / 1024 % 256
  {
    var high, low := fileSize / 0x1_0000_0000, fileSize % 0x1_0000_0000;
    var k := low / 1024;
    Euclid.DivModUnique(fileSize, 1024, 4194304 * high + k, low % 1024);
    Euclid.DivModUnique(4194304 * high + k, 256, 16384 * high + k / 256, k % 256);
  }

  function BucketOf(files: map<string, FileInfo>, path: string): (b: nat)
    requires path in files
    ensures b < TABLE_SIZE
  {
    Bucket(|files[path].data|)
  }

  /** The checksums of the file looked for have been computed, or can still be. */
  ghost predicate SumsPending(fs: FileSystem, hFile: FileHandle, path: string, skip: nat, sums: Option<Sums>)
    reads hFile
  {
    && path in fs.files
    && if sums.Some? then sums.value == FileSums(Content(fs.files, path, skip))
       else From(hFile.data, hFile.pos) == Content(fs.files, path, skip)
  }

  /** What has become of the elements orig[..j]: those kept are elems[..i], which do not
      describe the file looked for; the others described files that cannot be opened. */
  ghost predicate Examined(elems: seq<ChainElement>, orig: seq<ChainElement>, i: nat, j: nat,
                           fs: FileSystem, path: string, skip: nat)
  {
    && i <= |elems| && i <= j <= |orig| && elems[i..] == orig[j..]
    && (forall e | e in elems :: e in orig)
    && (forall e | e in elems[..i] :: !SameFile(fs.files, skip, e.record.path, path))
    && (forall e | e in orig[..j] :: e in elems[..i] || !fs.CanOpen(e.record.path))
  }

  lemma OneMore(before: seq<ChainElement>, elems: seq<ChainElement>, orig: seq<ChainElement>, i: nat, j: nat,
                fs: FileSystem, path: string, skip: nat)
    requires Examined(before, orig, i, j, fs, path, skip) && i < |before|
    ensures elems == before && !SameFile(fs.files, skip, before[i].record.path, path) ==>
              Examined(elems, orig, i + 1, j + 1, fs, path, skip)
    ensures elems == before[..i] + before[i + 1..] && !fs.CanOpen(before[i].record.path) ==>
              Examined(elems, orig, i, j + 1, fs, path, skip)
  {
    assert before[i] == before[i..][0] == orig[j];
    assert before[i + 1..] == before[i..][1..] == orig[j + 1..];
    assert before[..i + 1] == before[..i] + [before[i]];
    assert orig[..j + 1] == orig[..j] + [orig[j]];
    if elems == before[..i] + before[i + 1..] {
      assert elems[..i] == before[..i] && elems[i..] == before[i + 1..];
      assert before == before[..i] + [before[i]] + before[i + 1..];
    }
  }

  lemma AllExamined(elems: seq<ChainElement>, orig: seq<ChainElement>, i: nat, j: nat,
                    fs: FileSystem, path: string, skip: nat)
    requires Examined(elems, orig, i, j, fs, path, skip)
    ensures forall e | e in elems :: e in orig
    ensures forall e | e in orig :: e in elems || !fs.CanOpen(e.record.path)
    ensures i == |elems| ==> forall e | e in elems :: !SameFile(fs.files, skip, e.record.path, path)
  {
    assert orig == orig[..j] + orig[j..] && elems == elems[..i] + elems[i..];
  }

  function NodeAt(elems: seq<ChainElement>, i: nat): ChainElement? {
    if i < |elems| then elems[i] else null
  }

  /** One slot of Table: the head of a chain. */
  class Chain {
    var head: ChainElement?
    ghost var elems: seq<ChainElement>
    /** The index of the slot. */
    ghost const slot: nat
    ghost var Repr: set<object>

    ghost predicate Linked()
      reads this, elems
    {
      && head == NodeAt(elems, 0)
      && (forall i, j :: 0 <= i < j < |elems| ==> elems[i] != elems[j])
      && (forall i {:trigger elems[i].next} :: 0 <= i < |elems| ==> elems[i].next == NodeAt(elems, i + 1))
    }

    ghost function Records(): set<FileRecord>
      reads this
    {
      set e | e in elems :: e.record
    }

    ghost predicate AllCached(files: map<string, FileInfo>, skip: nat)
      reads this, Records()
    {
      forall e | e in elems :: e.record.Cached(files, skip)
    }

    /** Every record describes its file, and no two records describe equal files. */
    ghost predicate Distinct(files: map<string, FileInfo>, skip: nat)
      reads this
    {
      && (forall e | e in elems :: e.record.Describes(files) && Bucket(e.record.fileSize) == slot)
      && (forall e, f | e in elems && f in elems && e != f ::
            e.record != f.record && !SameFile(files, skip, e.record.path, f.record.path))
    }

    ghost predicate Valid(files: map<string, FileInfo>, skip: nat)
      reads this, Repr
    {
      && this in Repr && (forall e | e in elems :: e in Repr && e.record in Repr)
      && Linked() && Distinct(files, skip) && AllCached(files, skip)
    }

    constructor (ghost slot: nat)
      ensures head == null && elems == [] && this.slot == slot && Repr == {this}
    {
      head, elems := null, [];
      this.slot := slot;
      Repr := {this};
    }

    /** Delete: unlink one element; the others keep their order. */
    method Delete(e: ChainElement, ghost k: nat)
      requires Linked() && k < |elems| && elems[k] == e
      modifies `head, `elems, elems
      ensures Linked() && elems == old(elems[..k] + elems[k + 1..])
    {
      if head == e {
        head := e.next;
      } else {
        var prior := head;
        ghost var i: nat := 0;
        while prior.next != e
          invariant i < k && prior == elems[i]
          decreases k - i
        {
          i := i + 1;
          prior := prior.next;
        }
        assert elems[i + 1] == e;
        prior.next := e.next;
      }
      ghost var orig := elems;
      elems := orig[..k] + orig[k + 1..];
      assert forall i {:trigger elems[i]} :: 0 <= i < |elems| ==> elems[i] == orig[if i < k then i else i + 1];
    }

    /** Put a new element first. */
    method Push(record: FileRecord)
      requires Linked()
      modifies `head, `elems
      ensures Linked() && |elems| > 0 && fresh(elems[0]) && elems[0].record == record && elems[1..] == old(elems)
    {
      var e := new ChainElement(record, head);
      head := e;
      elems := [e] + elems;
    }

    /** Put a record first that equals none of the chain. */
    method Add(files: map<string, FileInfo>, skip: nat, record: FileRecord)
      requires Valid(files, skip)
      requires record.Describes(files) && record.Cached(files, skip) && record !in Records()
      requires Bucket(record.fileSize) == slot
      requires forall e | e in elems :: !SameFile(files, skip, e.record.path, record.path)
      modifies this
      ensures |elems| > 0 && fresh(elems[0]) && elems[0].record == record && elems[1..] == old(elems)
      ensures Valid(files, skip) && Repr == old(Repr) + {elems[0], record}
    {
      Push(record);
      Repr := Repr + {elems[0], record};
      assert forall e | e in elems :: e == elems[0] || e in old(elems);
    }

    /** The body of the loop at element k: examine its record, and unlink it if its file
        cannot be opened. */
    method Visit(fs: FileSystem, cur: ChainElement, ghost k: nat, hFile: FileHandle, path: string, skip: nat,
                 sums: Option<Sums>)
      returns (verdict: Verdict, next: ChainElement?, sums': Option<Sums>)
      requires Valid(fs.files, skip) && k < |elems| && cur == elems[k] && fs.CanOpen(path)
      requires SumsPending(fs, hFile, path, skip, sums)
      modifies Repr, hFile`pos
      ensures Valid(fs.files, skip) && Repr == old(Repr) && SumsPending(fs, hFile, path, skip, sums')
      ensures elems == if verdict == Drop then old(elems[..k] + elems[k + 1..]) else old(elems)
      ensures next == NodeAt(elems, if verdict == Drop then k else k + 1)
      ensures verdict == Found ==> SameFile(fs.files, skip, cur.record.path, path) && fs.CanOpen(cur.record.path)
      ensures verdict == Keep ==> !SameFile(fs.files, skip, cur.record.path, path)
      ensures verdict == Drop ==> !fs.CanOpen(cur.record.path)
    {
      assert cur in elems;
      next := cur.next;
      verdict, sums' := Examine(fs, cur.record, hFile, path, skip, sums);
      assert Linked() && AllCached(fs.files, skip);
      if verdict == Drop {
        Delete(cur, k);
      }
    }

    /** One pass of the loop, when i elements have been kept of the first j. */
    method ScanOne(fs: FileSystem, cur: ChainElement, hFile: FileHandle, path: string, skip: nat,
                   sums: Option<Sums>, ghost orig: seq<ChainElement>, ghost i: nat, ghost j: nat)
      returns (verdict: Verdict, next: ChainElement?, sums': Option<Sums>, ghost i': nat)
      requires Valid(fs.files, skip) && i < |elems| && cur == elems[i] && fs.CanOpen(path)
      requires SumsPending(fs, hFile, path, skip, sums) && Examined(elems, orig, i, j, fs, path, skip)
      modifies Repr, hFile`pos
      ensures Valid(fs.files, skip) && Repr == old(Repr) && SumsPending(fs, hFile, path, skip, sums')
      ensures verdict == Found ==>
        && elems == old(elems) && fs.CanOpen(cur.record.path) && SameFile(fs.files, skip, cur.record.path, path)
      ensures verdict != Found ==>
        && j < |orig| && Examined(elems, orig, i', j + 1, fs, path, skip) && next == NodeAt(elems, i')
    {
      ghost var before := elems;
      verdict, next, sums' := Visit(fs, cur, i, hFile, path, skip, sums);
      OneMore(before, elems, orig, i, j, fs, path, skip);
      i' := if verdict == Keep then i + 1 else i;
    }

    /** The loop of FindEqualOrAdd. The successor of an element is taken before the element
        is deleted. */
    method Scan(fs: FileSystem, hFile: FileHandle, path: string, skip: nat)
      returns (found: FileRecord?, sums: Option<Sums>, ghost i: nat, ghost j: nat)
      requires Valid(fs.files, skip) && SumsPending(fs, hFile, path, skip, None) && fs.CanOpen(path)
      modifies Repr, hFile`pos
      ensures Valid(fs.files, skip) && Repr == old(Repr) && SumsPending(fs, hFile, path, skip, sums)
      ensures Examined(elems, old(elems), i, j, fs, path, skip)
      ensures found == null ==> i == |elems|
      ensures found != null ==> i < |elems| && elems[i].record == found
                                && fs.CanOpen(found.path) && SameFile(fs.files, skip, found.path, path)
    {
      var cur := head;
      ghost var orig := elems;
      sums, i, j := None, 0, 0;
      while cur != null
        invariant Valid(fs.files, skip) && SumsPending(fs, hFile, path, skip, sums) && Repr == old(Repr)
        invariant Examined(elems, orig, i, j, fs, path, skip) && cur == NodeAt(elems, i)
        decreases |orig| - j
      {
        var verdict, next;
        ghost var kept;
        verdict, next, sums, kept := ScanOne(fs, cur, hFile, path, skip, sums, orig, i, j);
        if verdict == Found {
          found := cur.record;
          return;
        }
        i, j, cur := kept, j + 1, next;
      }
      found := null;
    }

    /** Search the chain for a file equal to the one at `path`. */
    method FindEqual(fs: FileSystem, hFile: FileHandle, path: string, skip: nat)
      returns (found: FileRecord?, sums: Option<Sums>)
      requires Valid(fs.files, skip) && SumsPending(fs, hFile, path, skip, None) && fs.CanOpen(path)
      modifies Repr, hFile`pos
      ensures Valid(fs.files, skip) && Repr == old(Repr) && SumsPending(fs, hFile, path, skip, sums)
      ensures forall e | e in elems :: e in old(elems)
      ensures forall e | e in old(elems) :: e in elems || !fs.CanOpen(e.record.path)
      ensures found != null ==>
        found in Records() && fs.CanOpen(found.path) && SameFile(fs.files, skip, found.path, path)
      ensures found == null ==> forall e | e in elems :: !SameFile(fs.files, skip, e.record.path, path)
    {
      ghost var i, j;
      found, sums, i, j := Scan(fs, hFile, path, skip);
      AllExamined(elems, old(elems), i, j, fs, path, skip);
    }

    /** FindEqualOrAdd once the chain is known: an equal file, or a new first record. */
    method FindOrAdd(fs: FileSystem, hFile: FileHandle, path: string, skip: nat) returns (r: FileRecord?)
      requires Valid(fs.files, skip) && SumsPending(fs, hFile, path, skip, None) && fs.CanOpen(path)
      requires BucketOf(fs.files, path) == slot
      modifies Repr, hFile`pos
      ensures Valid(fs.files, skip) && fresh(Repr - old(Repr))
      ensures Outcome(old(elems), r, fs, path, skip)
    {
      var sums;
      r, sums := FindEqual(fs, hFile, path, skip);
      if r == null {
        var s := sums.GetOr(Sums(0, 0));
        var fr := new FileRecord(fs.files[path], path, s, sums.Some?);
        Add(fs.files, skip, fr);
      }
    }

    /** What FindEqualOrAdd has made of a chain that had the elements `was`. */
    ghost predicate Outcome(was: seq<ChainElement>, r: FileRecord?, fs: FileSystem, path: string, skip: nat)
      requires path in fs.files
      reads this
    {
      && (forall e | e in was :: e in elems || !fs.CanOpen(e.record.path))
      && if r != null then
           && (forall e | e in elems :: e in was)
           && (exists e :: e in elems && e.record == r)
           && SameFile(fs.files, skip, r.path, path) && fs.CanOpen(r.path)
         else
           && |elems| > 0 && elems[0] !in was
           && elems[0].record.path == path && elems[0].record.fileSize == |fs.files[path].data|
           && (forall e | e in elems[1..] :: e in was && !SameFile(fs.files, skip, e.record.path, path))
           && (forall e | e in elems :: e in was || e == elems[0])
    }
  }

  // ----- the table

  /** What a search for the file at `path` may make of the files held: a recorded equal file
      is found, or the new file is added because none can be opened, and takes their place;
      nothing is lost but files that cannot be opened. */
  ghost predicate FoundOrAdded(held: set<string>, held': set<string>, found: Option<string>,
                               fs: FileSystem, path: string, skip: nat)
  {
    && (forall p :: p in held && p !in held' ==> !fs.CanOpen(p))
    && match found
       case Some(p) =>
         && held' <= held && p in held'
         && SameFile(fs.files, skip, p, path) && fs.CanOpen(p) && fs.CanOpen(path)
       case None =>
         if fs.CanOpen(path) then
           && path in held' && held' <= held + {path}
           && (forall p :: p in held && SameFile(fs.files, skip, p, path) ==> !fs.CanOpen(p))
           && (forall p :: p in held' && SameFile(fs.files, skip, p, path) ==> p == path)
         else held' == held
  }

  class FileRecordTable {
    const table: seq<Chain>
    ghost var Repr: set<object>

    constructor ()
      ensures |table| == TABLE_SIZE && fresh(Repr)
      ensures forall files, skip :: Valid(files, skip) && Held(files) == {}
    {
      var t: seq<Chain> := [];
      while |t| < TABLE_SIZE
        invariant |t| <= TABLE_SIZE
        invariant forall b :: 0 <= b < |t| ==> fresh(t[b]) && t[b].elems == [] && t[b].head == null
        invariant forall b :: 0 <= b < |t| ==> t[b].slot == b && t[b].Repr == {t[b]}
      {
        var c := new Chain(|t|);
        t := t + [c];
      }
      table := t;
      Repr := set c | c in t;
      new;
      forall b, files, skip | 0 <= b < TABLE_SIZE
        ensures table[b].slot == b && table[b].elems == []
        ensures table[b].Repr <= Repr && table[b].Valid(files, skip)
      {
        assert t[b].elems == [] && t[b].slot == b && t[b].Repr == {t[b]};
      }
      assert forall files :: Held(files) == {};
    }

    /** Every chain is valid, and records sit in the chain of their size. */
    ghost predicate Valid(files: map<string, FileInfo>, skip: nat)
      reads this, Repr, table
    {
      && |table| == TABLE_SIZE && this !in Repr
      && (forall b :: 0 <= b < TABLE_SIZE ==>
            table[b].slot == b && table[b].Repr <= Repr && table[b].Valid(files, skip))
      && (forall b, c :: 0 <= b < c < TABLE_SIZE ==> table[b].Repr !! table[c].Repr)
    }

    /** The files recorded in the table. */
    ghost function Held(files: map<string, FileInfo>): set<string>
      requires |table| == TABLE_SIZE
      reads table
    {
      set p | p in files && exists e :: e in table[BucketOf(files, p)].elems && e.record.path == p
    }

    /** Two recorded files are never equal. */
    lemma OneRecordEach(files: map<string, FileInfo>, skip: nat, p: string, q: string)
      requires Valid(files, skip) && p in Held(files) && q in Held(files) && SameFile(files, skip, p, q)
      ensures p == q
    {
      var e :| e in table[BucketOf(files, p)].elems && e.record.path == p;
      var f :| f in table[BucketOf(files, q)].elems && f.record.path == q;
      assert table[BucketOf(files, p)].Valid(files, skip);
    }

    /** FindEqualOrAdd for a file that can be opened, in terms of its chain. */
    method FindOrAddInSlot(fs: FileSystem, path: string, skip: nat) returns (r: FileRecord?)
      requires Valid(fs.files, skip) && fs.CanOpen(path)
      modifies `Repr, table[BucketOf(fs.files, path)].Repr
      ensures Valid(fs.files, skip) && fresh(Repr - old(Repr))
      ensures forall c | 0 <= c < TABLE_SIZE && c != BucketOf(fs.files, path) ::
                table[c].elems == old(table[c].elems)
      ensures var slot := table[BucketOf(fs.files, path)]; slot.Outcome(old(slot.elems), r, fs, path, skip)
    {
      var hFile := Open(fs, path, skip);
      ghost var b := BucketOf(fs.files, path);
      var slot := table[Bucket(|fs.files[path].data|)];
      r := slot.FindOrAdd(fs, hFile, path, skip);
      Repr := Repr + slot.Repr;
      forall c | 0 <= c < TABLE_SIZE && c != b
        ensures table[c].Repr == old(table[c].Repr)
        ensures table[c].Valid(fs.files, skip) == old(table[c].Valid(fs.files, skip))
      {
        assert table[c].Repr !! old(slot.Repr);
      }
    }

    lemma HeldAfter(was: seq<ChainElement>, r: FileRecord?, fs: FileSystem, path: string, skip: nat, p: string)
      requires Valid(fs.files, skip) && fs.CanOpen(path) && p in fs.files
      requires table[BucketOf(fs.files, path)].Outcome(was, r, fs, path, skip)
      requires BucketOf(fs.files, p) == BucketOf(fs.files, path)
      ensures var held := exists e :: e in was && e.record.path == p;
        && (p in Held(fs.files) ==> held || (r == null && p == path))
        && (held ==> p in Held(fs.files) || !fs.CanOpen(p))
        && (r == null && p == path ==> p in Held(fs.files))
        && (r == null && held && SameFile(fs.files, skip, p, path) ==> !fs.CanOpen(p))
        && (r != null && p == r.path ==> held && p in Held(fs.files))
    {
      var slot := table[BucketOf(fs.files, path)];
      assert r == null ==> slot.elems == [slot.elems[0]] + slot.elems[1..];
    }

    /** A file that is held differs from all others that are held. */
    lemma HeldIsAlone(files: map<string, FileInfo>, skip: nat, path: string)
      requires Valid(files, skip) && path in Held(files)
      ensures forall p :: p in Held(files) && SameFile(files, skip, p, path) ==> p == path
    {
      forall p | p in Held(files) && SameFile(files, skip, p, path)
        ensures p == path
      {
        OneRecordEach(files, skip, p, path);
      }
    }

    method FindEqualOrAdd(fs: FileSystem, path: string, skip: nat) returns (r: FileRecord?)
      requires Valid(fs.files, skip)
      modifies `Repr, Repr
      ensures Valid(fs.files, skip) && fresh(Repr - old(Repr))
      ensures FoundOrAdded(old(Held(fs.files)), Held(fs.files), if r == null then None else Some(r.path),
                           fs, path, skip)
    {
      if !fs.CanOpen(path) {
        return null;
      }
      ghost var b := BucketOf(fs.files, path);
      ghost var was := table[b].elems;
      r := FindOrAddInSlot(fs, path, skip);
      forall p | p in fs.files && BucketOf(fs.files, p) == b
      {
        HeldAfter(was, r, fs, path, skip, p);
      }
      if r == null {
        HeldIsAlone(fs.files, skip, path);
      }
    }

    /** A record of a chain stands for a file that is held. */
    lemma RecordIsHeld(files: map<string, FileInfo>, skip: nat, b: nat, e: ChainElement)
      requires Valid(files, skip) && b < TABLE_SIZE && e in table[b].elems
      ensures e.record.Describes(files) && e.record.path in Held(files)
    {
      assert table[b].Valid(files, skip);
    }

    /** The record of a file that is held. */
    lemma RecordOf(files: map<string, FileInfo>, skip: nat, p: string) returns (e: ChainElement)
      requires Valid(files, skip) && p in Held(files)
      ensures p in files && e in table[BucketOf(files, p)].elems && e.record.path == p && e.record.Describes(files)
    {
      e :| e in table[BucketOf(files, p)].elems && e.record.path == p;
      assert table[BucketOf(files, p)].Valid(files, skip);
    }

    /** Find: a recorded file with the same file index, for a file with several links; a file
        with only one link is never found, although its index may be recorded. */
    method Find(fs: FileSystem, path: string, ghost skip: nat) returns (r: FileRecord?)
      requires Valid(fs.files, skip)
      ensures r != null ==>
        && fs.CanOpen(path) && fs.files[path].links > 1 && r.path in Held(fs.files) && r.Describes(fs.files)
        && r.fileIndex == fs.files[path].index && r.volume == fs.files[path].volume
      ensures r == null && fs.CanOpen(path) && fs.files[path].links > 1 ==>
        forall e | e in table[BucketOf(fs.files, path)].elems ::
          e.record.fileIndex != fs.files[path].index || e.record.volume != fs.files[path].volume
    {
      if !fs.CanOpen(path) || fs.files[path].links <= 1 {
        return null;
      }
      var info := fs.files[path];
      var slot := table[Bucket(|info.data|)];
      var cur := slot.head;
      ghost var i := 0;
      while cur != null
        invariant 0 <= i <= |slot.elems| && cur == NodeAt(slot.elems, i)
        invariant forall k :: 0 <= k < i ==>
          slot.elems[k].record.fileIndex != info.index || slot.elems[k].record.volume != info.volume
        decreases |slot.elems| - i
      {
        if cur.record.fileIndex == info.index && cur.record.volume == info.volume {
          RecordIsHeld(fs.files, skip, Bucket(|info.data|), cur);
          return cur.record;
        }
        assert slot.elems[i].next == NodeAt(slot.elems, i + 1);
        cur := cur.next;
        i := i + 1;
      }
      return null;
    }
  }
}

# Verified models of the ltr-data tools

This project models the algorithms and protocols inside a collection of small C and C++ tools
and proves what they are for. Files are byte sequences with a position, pipes are token counts,
threads are atomic sections or steps that interleave freely, and timers, pins and failing system
calls are inputs. Code that updates variables, arrays or linked structures in place is a method or
a class here, and each of them is proved against a specification whose own properties are proved.
Where a specification and the program share a definition, a lemma says what the definition means
without using it: for strings, byte by byte, or in the numbers of the source.

| file | source | what it is about |
|---|---|---|
| `Common.dfy` | | options, bytes and the smaller of two numbers, shared by the other files |
| `Euclid.dfy` | `win32/c/getopt.c`, `win32/c/wimath.c` | Euclid's algorithm, Bezout's identity |
| `Rotation.dfy` | `win32/c/getopt.c` | `permute_args`: exchanging two blocks by gcd-many cycles |
| `OptionSyntax.dfy`, `OptionLetters.dfy`, `GetOptCall.dfy`, `GetOpt.dfy` | `win32/c/getopt.c` | `getopt`: a reference reading of an argument list, what the option string means for it, one call as a function, and the scanner with its global variables |
| `Win32File.dfy` | several | files: read, write, seek, truncate |
| `CheckFile.dfy`, `FileTable.dfy`, `FileIndex.dfy`, `SkipSize.dfy` | `win32/fdf/` | duplicate files: comparison and checksums, the table, runs over many files, and large skip sizes |
| `Philosophers.dfy` | `posix/filosof.cpp`, `win32/cpp/filosof.cpp` | dining philosophers over pipes |
| `RawCopy.dfy` | `win32/cpp/rawcopy.cpp` | the sparse and differential copy loop |
| `ChatProtocol.dfy`, `ChatList.dfy` | `win32/chatsrv/chatsrv.cpp` | the chat server's client list |
| `RepeaterControl.dfy`, `RepeaterLaws.dfy` | `win32/LightRepeater/LightRepeater.cpp` | the control loop of a radio repeater, and what its passes and counters mean |
| `PrimeFactors.dfy` | `win32/c/wimath.c` | prime factorisation |
| `StripCr.dfy`, `StripCrProgram.dfy` | `win32/c/stripcr.c` | removing carriage returns, also in place through memory maps |
| `TruncZeroTail.dfy` | `win32/cpp/trunczerotail.cpp` | cutting off zeros at the end of a file |
| `Parity.dfy` | `win32/cpp/cxrbackup.cpp`, `win32/cpp/cxrrestore.cpp` | parity over any number of files |

## Where the code does less than it promises

- `CompareFiles` ignores the last, incomplete 8-byte word of two files. Its status "equal" can be
  relied on exactly if the size is a multiple of 8 (`CheckFile.EqualIsReliable`); the files 01 and 02
  of one byte are reported as equal (`CheckFile.EqualStatusMayBeWrong`). The table is right all the
  same, because equal zero-padded exclusive-or checksums close exactly that gap
  (`CheckFile.EqualStatusMeans`, `CheckFile.EqualWordsAndSums`).
- `wrfmap` does not advance its source pointer when a chunk crosses the end of a write window. The
  model keeps this. A file comes out right exactly if every crossing chunk repeats its own beginning
  (`StripCr.ResultIsStripped`); files of up to 524288 bytes always do (`StripCr.SmallFilesAreStripped`),
  larger ones may not (`StripCr.LargerFilesMayBeDamaged`).
- `cxrrestore` leaves the last stream out of the exclusive or (`win32/cpp/cxrrestore.cpp`, lines
  185 to 245, modelled by `Parity.BlockLoop.Restore`). A file is restored exactly if that
  stream is zero as far as the file goes (`Parity.RestoredIffLastIsZero`, `Parity.RestoreMayFail`);
  with all streams any file is recovered (`Parity.AnyFileIsRecovered`).
- `FindEqualOrAdd` reads the successor of a list element after the element has been deleted, which is
  the case exactly for the records that `FileTable.Examine` drops: the size and the volume are those of
  the file looked for, the checksum is unknown or the same, and the recorded file cannot be opened
  (`FileTable.Dropped`). The model takes the successor first.
- The documentation of the option -n says that the first bytes are skipped and asks for a size below
  2 GB (`win32/fdf/fdf.cpp`, lines 415 to 420), which nothing checks. From 2^31 on the size is a negative
  distance for `SetFilePointer`, the code does not notice that the seek has failed, and compares whole
  files. What it finds is still equal from the skip size on (`FileTable.DecidedIsEqual`), but it misses
  equal files, holds them twice, and differs from the search through all earlier files, each exactly
  with a size of 2^31 or more (`SkipSize.SkipIsKept`, `SkipSize.MissedOnlyByLargeSkip`,
  `SkipSize.HeldTwiceOnlyByLargeSkip`, `SkipSize.NaiveUnlessLargeSkip`), for example two files that
  differ in their first byte (`SkipSize.LargeSkipIsLost`, `SkipSize.SecondFileIsMissed`).
- `rawcopy` reads the old block from where the new one will be written, but decides whether there is
  one by the size of the output behind the position before the offset. A differential copy
  gives up exactly at a block that ends inside that size and not inside what is left of it behind
  the offset (`RawCopy.Copier.Copy`, `RawCopy.Beyond`). If all reads are full, that can be told from the sizes
  (`RawCopy.LastBeyond`); a copy of one block of 512 bytes with an offset of 1 is an example
  (`RawCopy.OneBlockIsBeyond`).

## Reading permuted arguments again

`getopt` permutes its arguments, so that all options come first. Reading the permuted arguments again
gives the same result exactly when no option at the end lacked its argument while operands were moved
behind it, which is known from the first reading before the second begins
(`OptionSyntax.PermutingIsIdempotent`). With the option string "a:" the arguments "x" "-a" lack an
argument, and "-a" "x" do not (`OptionSyntax.RereadingMayDiffer`).

## Model

| member | source | states |
|---|---|---|
| Euclid.GcdLoop | win32/c/getopt.c:137-152 | the loop with three variables computes Gcd, which the next two rows characterise |
| Euclid.GcdIsGreatest | win32/c/getopt.c:134-136 | Gcd divides both numbers, and every common divisor divides it |
| Euclid.Bezout | win32/c/wimath.c:3-20 | Gcd is an integer combination of the two numbers |
| Rotation.CyclesCoverEverything | win32/c/getopt.c:171-182 | for any two non-empty blocks the gcd-many cycles of the exchange are disjoint, each has length (nn + no) / gcd, and together they reach every position |
| Rotation.OnePass | win32/c/getopt.c:182-192 | one pass of the inner loop moves one element to its target and leaves the partly exchanged array as the cycle order says |
| Rotation.NextCycle | win32/c/getopt.c:179-181 | the end of one cycle is the beginning of the next |
| Rotation.AllFilled | win32/c/getopt.c:179-194 | after the last cycle both blocks are exchanged, each in its own order, and nothing else has moved |
| Rotation.CountCycles | win32/c/getopt.c:174-177 | number and length of the cycles; the divisor is never zero |
| Rotation.FollowCycle | win32/c/getopt.c:180-192 | the inner loop walks one whole cycle |
| Rotation.PermuteArgs | win32/c/getopt.c:159-194 | for any array and any two non-empty adjacent blocks, the new contents are the old ones with the blocks exchanged |
| OptionSyntax.FindCharIsFirst | win32/c/getopt.c:289-290 | the search in the option string finds the first occurrence, or there is none |
| OptionSyntax.ParseIsStablePartition | win32/c/getopt.c:346-372 | in every mode and for every option string, consumed words and operands are a stable partition of the arguments |
| OptionSyntax.WordIsStablePartition | win32/c/getopt.c:288-336 | the same from the middle of a word of option letters on |
| OptionSyntax.ReadsSamePermuted | win32/c/getopt.c:226-284 | plain words moved behind the consumed ones do not change what is read, unless an option at the end then finds an argument |
| OptionSyntax.PermutingIsIdempotent | win32/c/getopt.c:346-372 | reading the permuted arguments again gives the same result if and only if the first reading did not end with an option that lacks its argument while there are operands |
| OptionSyntax.RereadingMayDiffer | win32/c/getopt.c:307-318 | "x" "-a" with the option string "a:": the first reading reports a missing argument, the second takes "x" for it |
| OptionLetters.TwoColons | win32/c/getopt.c:317-332 | a letter in front of "::" takes the rest of its word as its argument, or has none; it never takes the next word |
| OptionLetters.OneColon | win32/c/getopt.c:317-332 | a letter in front of one ":" takes the rest of its word, else the next word, else lacks its argument |
| OptionLetters.NoColon | win32/c/getopt.c:314-316 | any other letter of the option string has no argument, and its word goes on |
| OptionLetters.NotListed | win32/c/getopt.c:288-297 | a letter that is not in the option string, and ':', is unknown |
| OptionLetters.LongOption | win32/c/getopt.c:298-313 | 'W' in front of ";" ends the reading with its word or the next one, or lacks its argument |
| OptionLetters.OptionWord | win32/c/getopt.c:253-284 | a word of '-' and letters is consumed and read; a word that begins with "--" ends the reading |
| OptionLetters.OperandWord | win32/c/getopt.c:246-279 | any other word ends the reading with a leading '+' or a POSIX environment, is reported with a leading '-', and is moved otherwise |
| OptionLetters.CodeOfMissing | win32/c/getopt.c:302-308 | a missing argument is reported by ':' exactly if the letters, behind a leading '+' or '-', begin with ':' |
| OptionLetters.VariablesOfCall | win32/c/getopt.c:201-337 | optarg is set for arguments and reported words only, optopt for errors only |
| GetOptCall.SkippingKeepsOutcome | win32/c/getopt.c:253-279 | skipping an operand changes nothing of what is still to be read |
| GetOptCall.LetterMeets | win32/c/getopt.c:288-336 | a call that takes a letter reports the first event of the reading and leaves exactly the others |
| GetOptCall.CallMeetsOutcome | win32/c/getopt.c:201-337 | every call, in every state and mode, reports the first event of what is left to read and leaves the rest, or ends with the words divided as the reading says |
| GetOptCall.CallsMeet | win32/c/getopt.c:346-372 | calls that meet their outcomes one after the other meet the outcome of the whole |
| GetOpt.SkipWord | win32/c/getopt.c:268-279 | after the permutation the skipped operands end at optind again and include the new one |
| GetOpt.RunEnds | win32/c/getopt.c:281-282 | a word of options ends a run of operands |
| GetOpt.SkippedMoveBack | win32/c/getopt.c:228-245 | at the end of the scan consumed words come first, then the skipped operands, then the rest, and optind is the first of the operands |
| GetOpt.TerminatorTaken | win32/c/getopt.c:357-370 | the same after a terminator |
| GetOpt.Scanner.SkipOperand | win32/c/getopt.c:266-279 | the permutation inside the scan is always given two non-empty blocks, nonopt_start < nonopt_end < optind <= argc, and what is left to read stays the same |
| GetOpt.Scanner.SkipToOption | win32/c/getopt.c:226-280 | operands are skipped up to the next option or the end |
| GetOpt.Scanner.FinishScan | win32/c/getopt.c:228-245 | at the end of the vector it is rearranged and optind set as the reading says |
| GetOpt.Scanner.NextLetter | win32/c/getopt.c:288-336 | the global variables after taking a letter are those of the call as a function |
| GetOpt.Scanner.GetOptInternal | win32/c/getopt.c:201-337 | the whole function, including optreset and optind 0 |
| GetOpt.Scanner.ResetStartsAfresh | win32/c/getopt.c:213-226 | with optreset a call starts afresh, at optind or, if that is 0, at 1 |
| GetOpt.Scanner.PassTerminator | win32/c/getopt.c:357-370 | after a terminator the vector is rearranged |
| GetOpt.Scanner.GetOpt | win32/c/getopt.c:346-372 | one call sets optarg, optopt, optind, the vector and the result as the call as a function says |
| GetOpt.Scanner.GetAll | win32/c/getopt.c:346-372 | a whole run of calls until -1 reports exactly the events of the reference reading; argv is then its first word, the consumed words and the operands, each in original order, and optind is the index of the first operand |
| Win32File.OverlayAt | win32/cpp/rawcopy.cpp:845-848 | writing, byte by byte: old bytes in the range are replaced, all others stay, a gap becomes zeros; the length |
| Win32File.ResizeAt | win32/cpp/rawcopy.cpp:833-834 | ending a file, byte by byte |
| Win32File.OverlayConcat | win32/cpp/rawcopy.cpp:845-896 | writing a block behind the bytes before it is writing both at once |
| Win32File.ExtendingWritesZeros | win32/cpp/rawcopy.cpp:833-834 | ending a file beyond its end is writing zeros there |
| Win32File.RewritingIsNothing | win32/cpp/rawcopy.cpp:814-815 | writing what is there already changes nothing |
| Win32File.AllZeroWords | win32/cpp/rawcopy.cpp:771-778 | the scan by 8-byte words finds exactly whether the bytes up to the end of the last word are zero |
| CheckFile.EqualWordsAndSums | win32/fdf/chkfile.c:105-149 | equal whole words and equal zero-padded exclusive-or checksums make two sequences of the same length equal, last bytes included |
| CheckFile.StatusMeans | win32/fdf/chkfile.c:61-86 | each status in terms of sizes and bytes: "equal" exactly if the sizes and all bytes of whole words are, "not equal" exactly otherwise |
| CheckFile.EqualStatusMeans | win32/fdf/chkfile.c:61-86 | the comparison alone is wrong exactly for files that differ in the last, incomplete word only |
| CheckFile.EqualIsReliable | win32/fdf/chkfile.c:61-86 | for a given file, every file reported as equal to it is equal if and only if its size is a multiple of 8 |
| CheckFile.EqualStatusMayBeWrong | win32/fdf/chkfile.c:61-86 | two different files of one byte are reported as equal |
| CheckFile.FileXor | win32/fdf/chkfile.c:116-146 | the first checksum of a file, block by block, is the exclusive or of the words of the zero-padded file |
| CheckFile.JoinBytes | win32/fdf/chkfile.c:133-137 | the bytes of a word, the lowest first |
| CheckFile.PaddedAt | win32/fdf/chkfile.c:124-129 | the last word is filled up with zeros |
| CheckFile.FileSumsFold | win32/fdf/chkfile.c:115-146 | both checksums of a file are what its words make of two zeros, one by one, numbered anew in every block of 2048 |
| CheckFile.WordAdded | win32/fdf/chkfile.c:135-138 | a word goes into the first checksum; the word, the new first checksum, its number and 1 go into the second |
| CheckFile.SumAdds | win32/fdf/chkfile.c:136-138 | in 64-bit arithmetic |
| CheckFile.IndexIsNumber | win32/fdf/chkfile.c:133-138 | the number of a word in its block, as a 64-bit word, is that number |
| CheckFile.GetFileCheckSum | win32/fdf/chkfile.c:105-149 | the read loop computes both checksums of what is left of the file |
| CheckFile.PadBuffer | win32/fdf/chkfile.c:125-130 | the last block is filled up with zeros to whole words |
| CheckFile.CompareMemory | win32/fdf/chkfile.c:89-103 | true exactly if the given number of words are equal |
| CheckFile.CompareBlock | win32/fdf/chkfile.c:39-86 | one pass decides the comparison or compares one more block |
| CheckFile.CompareOpenFiles | win32/fdf/chkfile.c:39-87 | the status says which file is longer, or whether all whole words are equal |
| FileTable.CompareFiles | win32/fdf/chkfile.c:5-87 | the same with files that may not open, and with a skip size |
| FileTable.DecidedIsEqual | win32/fdf/fdf.cpp:415-420 | files that are decided to be equal are equal from the skip size on, whatever the skip size |
| FileTable.EqualFromAt | win32/fdf/fdf.cpp:415-418 | equality from an offset on is equality of volume, size, and every byte from there |
| FileTable.LargeSkipComparesAll | win32/fdf/chkfile.c:20-22 | with a skip size of 2^31 or more whole files are compared |
| FileTable.FileRecord.CalculateChecksum | win32/fdf/fdftable.hpp:23-38 | fails exactly if the file cannot be opened; else the cached checksums are those of the file |
| FileTable.Examine | win32/fdf/fdftable.hpp:93-133 | a record is reported as found only if volume, size and all bytes from where reading starts are equal, kept only if they are not, and dropped if and only if its file would have to be read (size and volume agree, and the checksum is unknown or agrees) and cannot be opened |
| FileTable.BucketOfLowPart | win32/fdf/fdftable.hpp:90 | the low 32 bits of a size determine its slot |
| FileTable.Chain.Delete | win32/fdf/fdftable.hpp:168-181 | unlinks one element; the others keep their order |
| FileTable.Chain.Add | win32/fdf/fdftable.hpp:160-163 | a new record goes first, and the chain stays free of equal files |
| FileTable.Chain.Scan | win32/fdf/fdftable.hpp:89-133 | the loop over a chain, including deletions on the way, finds an equal file or shows that there is none |
| FileTable.Chain.FindOrAdd | win32/fdf/fdftable.hpp:60-166 | an equal record, or the new one as the first of the chain |
| FileTable.FileRecordTable.OneRecordEach | win32/fdf/fdftable.hpp:41-53 | two recorded files never agree on volume, size and the contents from where reading starts |
| FileTable.FileRecordTable.FindEqualOrAdd | win32/fdf/fdftable.hpp:60-166 | keeps the table valid (records in the slot of their size, cached checksums right, no two equal); returns an equal file or adds the new one, which it does exactly if no recorded equal file can be opened and which is then the only one of its kind held; loses only files that cannot be opened |
| FileTable.FileRecordTable.Find | win32/fdf/fdftable.hpp:183-220 | a record with the same file index and volume from the slot of the size, for a file that can be opened and has several links, if and only if there is one; a file with one link yields none |
| FileIndex.LookAt | win32/fdf/fdf.cpp:95-179 | if a link to the file is held, one is found and nothing is added; else, with a skip size, only a larger file is looked for and added |
| FileIndex.HeldDiffer | win32/fdf/fdftable.hpp:60-166 | over any run, while any files become unreadable and readable again, no two files held are ever equal from where reading starts |
| FileIndex.FoundIsEarlier | win32/fdf/fdf.cpp:95-179 | over any such run, a file that is found is an earlier one that was readable and wanted, is equal from the skip size on, for every skip size, and can still be opened, unless it is a link to the same file |
| FileIndex.FoundAgrees | win32/fdf/fdf.cpp:415-418 | over any such run, a file and the one it is found to equal agree in volume, size, and every byte from the skip size on |
| FileIndex.LinkIsFound | win32/fdf/fdf.cpp:95-96 | over any such run, a file with several links of which one is held is found to be a link, whatever its size and whether or not the held file can be opened |
| FileIndex.FoundIsLarger | win32/fdf/fdf.cpp:171-176 | over any run with a skip size, only a file that is larger is found to equal another |
| FileIndex.HeldIsLarger | win32/fdf/fdf.cpp:171-176 | over any run with a skip size, only larger files are held |
| FileIndex.LargerIsFoundOrHeld | win32/fdf/fdf.cpp:171-179 | over any run, a file that can be opened and is larger than the skip size, or any without one, is found or held |
| FileIndex.HeldOrUnreadable | win32/fdf/fdftable.hpp:92-133 | over any such run, once a file has been seen an equal one stays held until one that was held cannot be opened |
| FileIndex.NothingIsMissed | win32/fdf/fdf.cpp:168-179 | over any such run, an earlier file that is equal from where reading starts is missed only if an equal file seen before could not be opened in the meantime |
| FileIndex.FoundIsFirstSeen | win32/fdf/fdftable.hpp:92-133 | an equal representative is the first equal file seen |
| FileIndex.FirstSeenIsFirst | win32/fdf/fdftable.hpp:92-133 | the first equal file seen is itself a representative |
| FileIndex.NaiveSearchMeans | win32/fdf/fdf.cpp:171-179 | the naive search finds an equal file exactly if there is an earlier one and the file is larger than the skip size |
| FileIndex.SearchIsNaive | win32/fdf/fdf.cpp:95-179 | looking at one file, when the first-seen representatives are held, finds what comparing with every earlier wanted file finds, and keeps holding them |
| FileIndex.RunIsNaive | win32/fdf/fdf.cpp:95-179 | over any run in which what can be opened stays the same, every result is that of the naive search that compares from where reading starts, and exactly the first-seen representatives are held |
| FileIndex.IndexAll | win32/fdf/fdf.cpp:95-179 | looking at any sequence of files, each with its own set of readable files, is a run in the sense of the rows above; the table stays valid and ends with the files held last |
| SkipSize.SkipIsKept | win32/fdf/chkfile.c:20-22 | what is decided for wanted files is equality from the skip size on if and only if the skip size is below 2^31, the bound that the documentation asks for |
| SkipSize.LargeSkipIsLost | win32/fdf/chkfile.c:20-22 | with a larger skip size, two wanted files that differ in the first byte only are decided to differ |
| SkipSize.SecondFileIsMissed | win32/fdf/fdftable.hpp:66-68 | every run over these two files misses the second |
| SkipSize.MissedOnlyByLargeSkip | win32/fdf/fdf.cpp:415-420 | among runs in which what has been seen stays readable, there is one that misses a file equal from the skip size on if and only if the skip size is 2^31 or more |
| SkipSize.HeldTwiceOnlyByLargeSkip | win32/fdf/fdf.cpp:415-420 | there is a run that holds two files equal from the skip size on if and only if the skip size is 2^31 or more |
| SkipSize.NaiveUnlessLargeSkip | win32/fdf/fdf.cpp:415-420 | among runs in which what can be opened stays the same, there is one whose results are not those of comparing from the skip size on with every earlier file if and only if the skip size is 2^31 or more |
| Philosophers.RightIsModulo | posix/filosof.cpp:19-20 | the neighbour function is the remainder of the source's macro |
| Philosophers.StepKeepsInv | posix/filosof.cpp:59-115 | every read or write keeps each chopstick's tokens and holders at a sum of one |
| Philosophers.ReachableInv | posix/filosof.cpp:30-46 | the same in every reachable state, for every number of philosophers from 2 on |
| Philosophers.NeighboursNeverEat | posix/filosof.cpp:117-132 | in no reachable state do two neighbours eat |
| Philosophers.WaitsForNeighbour | posix/filosof.cpp:89-115 | in every reachable state a philosopher can move unless the neighbour who shares the chopstick it waits for has it |
| Philosophers.OneMeal | posix/filosof.cpp:89-115 | the order in which a philosopher takes and puts back its chopsticks, pipe by pipe |
| Philosophers.PutDownRestoresPickUp | posix/filosof.cpp:89-115 | equal phases mean equal pipes: what was taken has been put back exactly |
| Philosophers.AcquisitionsIncrease | posix/filosof.cpp:89-107 | with philosopher 0 reversed, every second chopstick is above the first in one total order |
| Philosophers.SomeoneBehind | posix/filosof.cpp:89-107 | behind every empty pipe there is a philosopher that can move |
| Philosophers.NoDeadlock | posix/filosof.cpp:89-132 | in every reachable state somebody can move |
| Philosophers.StepsAndMeals | posix/filosof.cpp:117-132 | steps plus remaining weight equal initial weight plus four times the meals, over every run |
| Philosophers.MealsGoOn | posix/filosof.cpp:117-132 | a run of k steps from any state contains at least (k - 3 n) / 4 new meals |
| Philosophers.RunsReachMeals | posix/filosof.cpp:117-132 | every run from the start can be extended until any number of meals has taken place |
| RawCopy.SkippedIsWritten | win32/cpp/rawcopy.cpp:819-838 | a skipped block, sparse or differential, leaves what writing it would have left |
| RawCopy.BlockDone | win32/cpp/rawcopy.cpp:679-920 | a plain copy extended by one block is a plain copy |
| RawCopy.Copier.MaySkip | win32/cpp/rawcopy.cpp:763-816 | a block is skipped if and only if it is zero, word by word, and past the old end in sparse mode, or there already in differential mode; the comparison restores the position, and fails exactly for a block that the size test lets through and the output does not hold |
| RawCopy.Copier.NextBlockSize | win32/cpp/rawcopy.cpp:686-698 | the block size is zero exactly when everything has been copied, and never exceeds what is left |
| RawCopy.Copier.CopyBlock | win32/cpp/rawcopy.cpp:763-916 | one pass extends the copy by the block read, unless it gives up, which it does exactly in differential mode for a block that ends inside the old output and not inside what is left of it behind the offset |
| RawCopy.Copier.Copy | win32/cpp/rawcopy.cpp:663-920 | under any mix of modes and short reads, byte by byte: the copied bytes of the input at the start position, all other bytes as before, zeros in a gap; the number of bytes is the smaller of the given length and the input, and counting blocks against bytes never ends the loop early; it gives up if and only if, in differential mode, one of the blocks read is one at which a pass gives up |
| RawCopy.LastBeyond | win32/cpp/rawcopy.cpp:786-803 | if the blocks read are full, one makes a differential copy give up if and only if the last block end inside the old output (of all blocks, if the copy ends there) is positive and beyond what is left of the output behind the offset |
| RawCopy.OneBlockIsBeyond | win32/cpp/rawcopy.cpp:786-803 | one block of 512 bytes, an output of 512 bytes, an offset of 1 |
| ChatProtocol.WithoutCuts | win32/chatsrv/chatsrv.cpp:49-57 | unlinking a client keeps the order of the rest |
| ChatProtocol.StepKeepsList | win32/chatsrv/chatsrv.cpp:37-63 | the list holds exactly the live clients, once each |
| ChatProtocol.StepKeepsNames | win32/chatsrv/chatsrv.cpp:80-104 | the nicknames on the list stay pairwise different, upper and lower case ignored |
| ChatProtocol.SameNameMeans | win32/chatsrv/chatsrv.cpp:86 | names are the same exactly if they have the same length and each pair of characters is equal or the capital and the small form of one letter |
| ChatProtocol.NicknamesDiffer | win32/chatsrv/chatsrv.cpp:80-104 | in every state of every run, in these terms, two clients on the list have different nicknames |
| ChatProtocol.NameIsGiven | win32/chatsrv/chatsrv.cpp:80-104 | a nickname is given exactly if no client on the list has the same one |
| ChatProtocol.NameIsKept | win32/chatsrv/chatsrv.cpp:96-100 | a nickname never changes |
| ChatProtocol.LogIsSpoken | win32/chatsrv/chatsrv.cpp:151-189 | the log of every run is what its actions have broadcast, in their order |
| ChatProtocol.JoinedAtStart | win32/chatsrv/chatsrv.cpp:37-43 | a client receives from the broadcast on that follows its construction |
| ChatProtocol.LeftAtEnd | win32/chatsrv/chatsrv.cpp:45-63 | and up to its destruction |
| ChatProtocol.StepKeepsSlices | win32/chatsrv/chatsrv.cpp:66-77 | what a client has received stays one contiguous slice of all broadcasts |
| ChatProtocol.StepKeepsLives | win32/chatsrv/chatsrv.cpp:143-182 | each client's broadcasts are its joining, then lines, then possibly its leaving |
| ChatProtocol.RunKeepsInv | win32/chatsrv/chatsrv.cpp:37-182 | all of these in every state of every interleaving |
| ChatProtocol.RunGoesOn | win32/chatsrv/chatsrv.cpp:142-189 | runs begin with no client and can go on with whatever some thread is about to do |
| ChatProtocol.ListHoldsLive | win32/chatsrv/chatsrv.cpp:37-63 | in every reachable state the list holds each living client exactly once |
| ChatProtocol.ReceivedIsSlice | win32/chatsrv/chatsrv.cpp:66-77 | in every reachable state a client has received exactly the broadcasts between its construction and its destruction |
| ChatProtocol.LivesInOrder | win32/chatsrv/chatsrv.cpp:151-189 | in every reachable state a client's broadcasts begin with its joining, once, and nothing follows its leaving |
| ChatProtocol.CommonMessagesAgree | win32/chatsrv/chatsrv.cpp:66-77 | two clients have received the messages sent while both were on the list in the same order and without gaps |
| ChatList.Server.Insert | win32/chatsrv/chatsrv.cpp:37-43 | the linked list after the constructor, as a step of the protocol |
| ChatList.Server.Unlink | win32/chatsrv/chatsrv.cpp:45-63 | the linked list after the destructor, as a step of the protocol |
| ChatList.Server.BroadcastMsg | win32/chatsrv/chatsrv.cpp:66-77 | every client on the list receives the message, as a step of the protocol |
| ChatList.Server.FindName | win32/chatsrv/chatsrv.cpp:83-94 | found exactly if a client on the list uses the name |
| ChatList.Server.SetName | win32/chatsrv/chatsrv.cpp:80-104 | the name is set exactly if it is free, as a step of the protocol |
| RepeaterControl.RunKeepsInvariants | win32/LightRepeater/LightRepeater.cpp:736-1025 | at every loop head of every run the transmitter is on exactly if one of the two flags is set, never both are, the tail timer has a nonzero last-ID mark, and a stopped engine is off; openings equal counted sessions plus an open one, and long speakers grow no more than conversations |
| RepeaterControl.RunSwitches | win32/LightRepeater/LightRepeater.cpp:739-1012 | over every run the transmitter went on once for each accepted opening and, unless the engine has stopped, off once for each counted session |
| RepeaterLaws.CountersCount | win32/LightRepeater/LightRepeater.cpp:774-854 | over every run, long speakers have grown by the passes that timed out with the squelch open, "gummitumme" by those that timed out in a tail with the mark 1, and conversations by the first of these and the tails with another mark |
| RepeaterLaws.HeadsAreSafe | win32/LightRepeater/LightRepeater.cpp:736-1025 | the state of transmitter, flags and mark at every loop head of every run |
| RepeaterLaws.OpeningsAgree | win32/LightRepeater/LightRepeater.cpp:736-1025 | after every run from a closed repeater, openings are the counted sessions and an open one |
| RepeaterLaws.SessionCounted | win32/LightRepeater/LightRepeater.cpp:774-854 | what a pass that times out counts, and that it closes the repeater |
| RepeaterLaws.OpeningPass | win32/LightRepeater/LightRepeater.cpp:859-965 | what an opening squelch does to a talk, to a tail, and to a closed repeater |
| RepeaterLaws.ClosingPass | win32/LightRepeater/LightRepeater.cpp:966-1011 | the tail timer starts; the mark becomes 1, or the tick after more than 600000 milliseconds, modulo 2^32 |
| RepeaterLaws.FailedPass | win32/LightRepeater/LightRepeater.cpp:765-770 | any failure stops the engine with the transmitter off |
| RepeaterLaws.ToneCallMeans | win32/LightRepeater/LightRepeater.cpp:876-945 | a tone call is accepted exactly if the tone is heard with the squelch open and ends after more than 200 milliseconds, modulo 2^32; when it breaks |
| RepeaterLaws.OneTransmission | win32/LightRepeater/LightRepeater.cpp:739-1012 | a session of one transmission after a tone call adds one "gummitumme" and no conversation; without the check it depends on the clock |
| RepeaterLaws.IdentifiedSession | win32/LightRepeater/LightRepeater.cpp:739-1012 | a session that has been identified adds one conversation |
| RepeaterControl.Engine.WaitForever | win32/LightRepeater/LightRepeater.cpp:756-762 | waits without a limit are made with the transmitter off only, which is its precondition |
| RepeaterControl.Engine.Timeout | win32/LightRepeater/LightRepeater.cpp:775-854 | the state after a timeout |
| RepeaterControl.Engine.ToneCallAccepted | win32/LightRepeater/LightRepeater.cpp:876-945 | a tone call is accepted, refused or broken as the pins, waits and ticks say |
| RepeaterControl.Engine.SquelchOpened | win32/LightRepeater/LightRepeater.cpp:859-965 | the state after the squelch has opened |
| RepeaterControl.Engine.SquelchClosed | win32/LightRepeater/LightRepeater.cpp:966-1011 | the state after the squelch has closed |
| RepeaterControl.Engine.Pass | win32/LightRepeater/LightRepeater.cpp:739-1012 | one pass from a loop head is one step of the run |
| RepeaterControl.Engine.Run | win32/LightRepeater/LightRepeater.cpp:731-1025 | any number of passes end in the last state of the run, which is safe and accounted for |
| PrimeFactors.FactorsFactorise | win32/c/wimath.c:22-27 | the factors are primes in non-decreasing order with the given product |
| PrimeFactors.PrimeDividesFactor | win32/c/wimath.c:46-53 | Euclid's lemma: a prime that divides a product divides a factor |
| PrimeFactors.FactorisationIsUnique | win32/c/wimath.c:22-27 | a list is the factorisation of n if and only if it is the list of factors found by trial division |
| PrimeFactors.FindOddFactor | win32/c/wimath.c:46-48 | the inner loop ends at the least divisor, or above i exactly if i is 1 |
| PrimeFactors.GetPrimeFactors | win32/c/wimath.c:28-57 | 0 after the whole factorisation has been handed over, 1 with the prefix at which the callback has cancelled, -1 exactly for numbers below 1 |
| StripCr.StripRemoves | win32/c/stripcr.c:107-133 | stripping removes all carriage returns and nothing else |
| StripCr.StripConcat | win32/c/stripcr.c:151-168 | where a stream is cut into buffers makes no difference |
| StripCr.MappedIsRight | win32/c/stripcr.c:77-102 | one call of `wrfmap` writes its chunk if and only if the chunk does not start inside the write window and end outside, or repeats its own beginning |
| StripCr.MappedFrame | win32/c/stripcr.c:77-102 | nothing outside the written range changes |
| StripCr.PlaceLaw | win32/c/stripcr.c:99-100 | the write position advances by the length of the stripped part |
| StripCr.RunKeepsRest | win32/c/stripcr.c:107-133 | the write position never passes the read position: what is still to be read is left alone |
| StripCr.RunContent | win32/c/stripcr.c:107-133 | a converted window comes out stripped if and only if none of its pieces is damaged |
| StripCr.ResultIsStripped | win32/c/stripcr.c:189-254 | a file comes out stripped if and only if no piece that crosses the end of a write window is damaged, which can be told from the file; the truncated length is always the number of other characters |
| StripCr.SmallFilesAreStripped | win32/c/stripcr.c:189-254 | every file of up to 524288 characters comes out stripped |
| StripCr.LargerFilesMayBeDamaged | win32/c/stripcr.c:77-97 | a file of 524290 characters that does not |
| StripCrProgram.Stripper.WriteOut | win32/c/stripcr.c:43-46 | true exactly if the output takes all the characters |
| StripCrProgram.Stripper.WriteMapped | win32/c/stripcr.c:54-103 | the file and the write window after one call, whatever its chunk crosses |
| StripCrProgram.Stripper.Convert | win32/c/stripcr.c:105-134 | to the standard output: exactly the buffer without carriage returns, cut where the output fails; into the file: the run over the pieces |
| StripCrProgram.Stripper.StripStream | win32/c/stripcr.c:142-169 | the whole standard input without carriage returns, for any sizes of the reads |
| StripCrProgram.Stripper.StripFile | win32/c/stripcr.c:171-254 | the file after the loop over the read windows and the truncation, right if and only if no piece is damaged, and always if it fits one window; it fails only if mapping fails or the file is empty |
| TruncZeroTail.BlockSize | win32/cpp/trunczerotail.cpp:81-88 | the largest power of two that is not above the given size or 512: 512 for less, else at most the given size and more than half of it |
| TruncZeroTail.TruncationIsUnique | win32/cpp/trunczerotail.cpp:237-247 | the conditions on the new size (only zeros go; a block multiple that ends in a block with data or is 0; nothing happens if the last block holds data or is the only one) determine it |
| TruncZeroTail.ReadZeros | win32/cpp/trunczerotail.cpp:198-219 | the scan of a block by 8-byte words is exact even where the last block ends inside a word |
| TruncZeroTail.ScanBack | win32/cpp/trunczerotail.cpp:162-235 | the backward scan ends at the last block with data, or at the beginning of a file of zeros |
| TruncZeroTail.Truncate | win32/cpp/trunczerotail.cpp:162-247 | the file becomes a prefix of the size that the conditions determine, and the result says whether it was truncated |
| TruncZeroTail.TruncateTail | win32/cpp/trunczerotail.cpp:81-261 | the same for any requested buffer size |
| Parity.ParityOfNone | win32/cpp/cxrbackup.cpp:87-126 | the parity of no file is empty |
| Parity.ParityOfOne | win32/cpp/cxrbackup.cpp:87-126 | the parity of one file is the file with zeros up to the next multiple of 4096 |
| Parity.ParityOfMore | win32/cpp/cxrbackup.cpp:87-126 | with one more file, the parity is as long as the longer one and changes by exclusive or with the bytes of the file |
| Parity.RecoveredByte | win32/cpp/cxrbackup.cpp:113-116 | with the parity in the place of one file, the exclusive or of all is that file |
| Parity.AnyFileIsRecovered | win32/cpp/cxrbackup.cpp:14-27 | for any list of files of any lengths, each is recovered exactly from the parity and all the others, cut to its size |
| Parity.BlocksIsLongest | win32/cpp/cxrbackup.cpp:87-111 | the parity has as many blocks as the longest file |
| Parity.RestoredIffLastIsZero | win32/cpp/cxrbackup.cpp:18-24 | against the promise that each file can be restored: the loop of cxrrestore, which leaves the last stream out, gives a file back if and only if that stream is zero as far as the file goes |
| Parity.RestoreMayFail | win32/cpp/cxrbackup.cpp:18-24 | two files of which the first is not restored |
| Parity.BlockLoop.ReadBlocks | win32/cpp/cxrbackup.cpp:87-111 | each slot holds the next block of its file followed by zeros, and there is more data exactly if some file has not ended |
| Parity.BlockLoop.XorSlots | win32/cpp/cxrbackup.cpp:113-116 | slot 0 becomes the exclusive or of the other slots, byte by byte |
| Parity.BlockLoop.Backup | win32/cpp/cxrbackup.cpp:87-126 | the output is the parity of all files and ends with the longest one |

## Left out

- getopt: the letters with codes 0xFE and 0xFF, which clash with the results -2 and -1 of a C `char`; results are tagged values here.
- getopt: warnings, `opterr`, `getopt_long` and the lookup of `POSIXLY_CORRECT`, which is a parameter.
- getopt: a caller that changes the option string or the vector between calls, or goes on calling after the scan has ended; `--word` and `-Wword` leave `place` inside that word then.
- getopt: C integers are unbounded here; an argument vector is never that long.
- fdf: deleting, linking and splitting files, and the recursion over directories; the table is used with one skip size, and during a run the contents of files do not change, only whether they can be opened.
- FileIndex.LookAt: takes it from the file system that a file index identifies a file on its volume, so that links to it have the same contents.
- fdf: allocation failures and read errors in the middle of a file; a slot of the table is an object that holds the head of its chain.
- filosof: failing forks and pipes, the pauses and the printed lines; no meal is promised to a particular philosopher. The five philosophers of the source are any number from 2 on.
- rawcopy: the retry and ignore dialogs, partial writes, adjusting the size of a disk image, and the same file as input and output.
- rawcopy: a buffer whose size is no multiple of 8, past the end of which the scan by 8-byte words may look; the buffer of the model is rounded up to whole words.
- chatsrv: the truncation of long lines, `/list` and other direct replies, which are not broadcasts; sections are atomic because the critical section makes them so. A message counts as delivered even if it could not be sent.
- LightRepeater: `AnnounceEngine`, which shares the transmitter without a lock, the sounds, the time statistics and the overflow of the counters; tick values are above 0 and `SetTX` succeeds. The tick that is tested against the ID period is also the one stored, which the program reads a moment later.
- wimath: the user pointer of the callback; a callback decides by the factors it has been handed so far.
- stripcr: `memmove` is given two shared views of one file and cannot see that they overlap; the model takes it to move bytes as inside one array.
- stripcr: the sizes of the mapped windows beyond the end of the file, and the bytes of a file whose mapping fails half way.
- trunczerotail: seek and read errors, and the 512-byte buffer that is used with a larger block size when memory is short.
- cxrbackup, cxrrestore: the header with names and sizes, files that cannot be opened or have changed, and the slot that `cxrrestore` reads beyond the end of its buffer.
- The other tools of the repository: they would add simpler members only, or consist of calls of system functions.

# Verified models of libdrm, recovery and libpng components

Dafny models of self-contained parts of an Android source tree, with proofs of what those parts
promise. Code that works in place is modelled in place: linked structures, arrays, cursors and
fixed-size fields are classes and arrays whose methods are proved against functions and predicates
on values. Protocols with several threads, or with crashes, are state machines whose results hold
for every schedule or every run.

| file | component |
|---|---|
| SkipList.dfy, HashTable.dfy, PropertySet.dfy | the containers of libdrm |
| Random.dfy, RandomPeriod.dfy | the pseudo-random generator of libdrm and its period |
| SpinLock.dfy, AtomicCounter.dfy | the compare-and-swap locks and counters of libdrm |
| Sideload.dfy, SideloadLimits.dfy, SideloadHost.dfy, FuseData.dfy | the sideload file system of recovery |
| Asn1.dfy, Pkcs7.dfy, PackageVerifier.dfy | the package signature check of recovery |
| BootMessage.dfy, RecoveryRun.dfy | the bootloader control block and the restartable factory reset |
| KeyEvents.dfy, KeyQueue.dfy, KeySchedule.dfy | key registration, long presses, key actions and the key queue of the recovery user interface |
| FixedMath.dfy | 64-by-32-bit division of libpng |
| Chromaticity.dfy, WhitePoint.dfy, EndPoints.dfy | from chromaticities to end points in libpng: the determinants, what success and the result mean, and the code itself |
| FpNumber.dfy, FixedText.dfy | the number automaton and the fixed-point printer of libpng |
| Adam7.dfy | the interlace macros of libpng |
| Bytes.dfy, Collections.dfy | bytes, words and optional results; sets and sequences |

`dafny verify dfyconfig.toml` checks the whole project.

Assumptions that hold throughout: allocation succeeds; `unsigned long` and `size_t` have 64 bits;
a compare-and-swap is one step. SHA-1, SHA-256, RSA and ECDSA are parameters. Nothing is assumed
about SHA-256 beyond what a theorem says: `Sideload.ReadsAgree` asks that the blocks of the run at
hand do not collide.

Where the code differs from its documentation the model follows the code:

- fuse_sideload.c says a changed block makes the read fail with EINVAL (lines 24-33 and 273); the code returns EIO.
- The promise that every read of a position returns the same byte fails after a provider error that changed the buffer, and in block number 2^32 - 1; `HarmlessExactly` and `AddressableExactly` say that these are the only cases.
- png_muldiv is documented to round to the nearest integer; for some odd divisors it does not, and a quotient of 2^32 is reported as 0. `NearestExactly` and `OverflowMissedExactly` say exactly when.
- The regular expression in the comment of pngpriv.h (lines 1706-1715) differs from what png_check_fp_number accepts; `CheckString` states the latter.
- xf86drmRandom.c gives 2^31 - 1 as the period of the generator (lines 32-33); it is 2^31 - 2, as `FullPeriod` says.
- drmSLLookup hands out the entry, not its value.
- drmHashFirst and drmHashNext walk bucket 0 twice and never reach bucket 511.
- DRM_SPINUNLOCK tolerates a stolen lock only if it was stolen before the test.
- asn1_decoder.cpp reads the length octet 0x80 as length 0 and compares sequence and set tags without their top bit.
- verify_file does not compare the signature start with the length of the file.
- The sideload file system computes block offsets in 32 bits and asks for a whole block where a partial block starts at 4 GiB or later; `FetchSizeExact` says exactly when, and `LastByteMissed` gives a file.
- PNG_PASS_ROWS and PNG_PASS_COLS wrap around for the largest images; `RowCount` and `ColCount` say exactly when, and `TallestMiscounted` gives a height.
- ui.h says that pressing the power key seven times in a row reboots (lines 101-102); chords and long presses of other keys do not break the row. `RebootsAfterSeven` says exactly what counts, and `RowNotBroken` gives a run.

## Model

| member | source | states |
|---|---|---|
| Random.RandomState.constructor | external/libdrm/xf86drmRandom.c:111-139 | every start seed, read as a signed number, becomes the closest legal generator state |
| Random.RandomState.Draw | external/libdrm/xf86drmRandom.c:147-159 | one draw is multiplication by 48271 modulo 2^31 - 1, with every intermediate value inside signed 32 bits |
| Random.Schrage | external/libdrm/xf86drmRandom.c:147-159 | Schrage's decomposition gives the modular product after at most one correction |
| Random.StepBijective | external/libdrm/xf86drmRandom.c:147-159 | a step permutes the legal states; 1899818559 undoes it in either order |
| Random.ClosedForm | external/libdrm/xf86drmRandom.c:147-159 | after n draws the state is 48271^n times the start, modulo 2^31 - 1, and still legal |
| RandomPeriod.CheckValue | external/libdrm/xf86drmRandom.c:124-128 | 10000 draws from seed 1 give the check value that the source carries |
| RandomPeriod.PowersRepeat | external/libdrm/xf86drmRandom.c:124-128 | 48271 is a primitive root: no power of it below 2^31 - 2 is 1 modulo 2^31 - 1, and that power is |
| RandomPeriod.FullPeriod | external/libdrm/xf86drmRandom.c:30-33 | every sequence is back at its start after n draws if and only if n is a multiple of 2^31 - 2 |
| RandomPeriod.VisitsAll | external/libdrm/xf86drmRandom.c:147-159 | from every start each legal state is reached, exactly once in a period |
| SkipList.Entry.constructor | external/libdrm/xf86drmSL.c:104-119 | an entry has one cleared link per level, with out-of-range levels clamped |
| SkipList.RandomLevel | external/libdrm/xf86drmSL.c:121-130 | the level is one more than the number of odd draws before the first even one, capped at 16, and that many draws are used up |
| SkipList.SkipList.constructor | external/libdrm/xf86drmSL.c:132-147 | a new list represents the empty map |
| SkipList.SkipList.Locate | external/libdrm/xf86drmSL.c:169-184 | finds the position of a key: at every level in use, the last entry below it, and its successor at level 0 |
| SkipList.Splice | external/libdrm/xf86drmSL.c:207-213 | the link loop of insertion turns the links of one spine into exactly those of the spine with the new entry, at every level |
| SkipList.Unlink | external/libdrm/xf86drmSL.c:232-236 | the link loop of deletion turns the links into exactly those of the spine without the entry |
| SkipList.LowerTop | external/libdrm/xf86drmSL.c:241-241 | after deletion the top level is 0 or non-empty, and all links above it are null |
| SkipList.SkipList.Insert | external/libdrm/xf86drmSL.c:186-217 | adds an absent key and refuses a present one, keeping the whole invariant: sorted, linked at every level, counted, level bounds |
| SkipList.SkipList.InsertAt | external/libdrm/xf86drmSL.c:186-217 | the same for whatever level is drawn |
| SkipList.SkipList.Delete | external/libdrm/xf86drmSL.c:219-244 | removes the key from the map, or reports that it was absent |
| SkipList.SkipList.Lookup | external/libdrm/xf86drmSL.c:246-260 | finds the entry of a key exactly if the map has it |
| SkipList.SkipList.Next | external/libdrm/xf86drmSL.c:286-303 | yields the entry under the iteration cursor and moves it one along level 0 |
| SkipList.SkipList.First | external/libdrm/xf86drmSL.c:305-313 | yields the entry with the least key |
| SkipList.SkipList.List | external/libdrm/xf86drmSL.c:351-361 | the First/Next loop lists every key once, in increasing order, with its value |
| SkipList.LevelsNest | external/libdrm/xf86drmSL.c:169-184 | every level is a subsequence of the level below |
| SkipList.Run | external/libdrm/xf86drmSL.c:132-260 | any sequence of insertions, deletions and lookups on a new list answers as a finite map does, whatever levels are drawn, and the count is the size of the map |
| HashTable.ComputeHash | external/libdrm/xf86drmHash.c:129-155 | the hash of every key is a bucket number, for any scatter table |
| HashTable.HashIs | external/libdrm/xf86drmHash.c:145-150 | the bucket is the sum of the scatter values of the bytes of the key, weighted by falling powers of two, modulo 512; wrapping around at 64 bits does not show |
| HashTable.MakeScatter | external/libdrm/xf86drmHash.c:137-143 | the scatter table is the first 256 draws of the generator seeded with 37 |
| HashTable.HashTable.constructor | external/libdrm/xf86drmHash.c:157-172 | a new table represents the empty map |
| HashTable.HashTable.Find | external/libdrm/xf86drmHash.c:197-223 | moving a hit to the front permutes one chain, leaves the map and all other chains alone, puts the hit at the head and counts one find |
| HashTable.Relink | external/libdrm/xf86drmHash.c:207-213 | the relinking of a hit behind the head yields the chain with that entry first |
| HashTable.HashTable.Lookup | external/libdrm/xf86drmHash.c:225-236 | answers as the map does and leaves it unchanged |
| HashTable.HashTable.Insert | external/libdrm/xf86drmHash.c:238-258 | adds an absent key and refuses a present one; chains stay acyclic, disjoint and in their own buckets |
| HashTable.HashTable.Delete | external/libdrm/xf86drmHash.c:260-275 | removes exactly the key, because the find has put it at the head |
| HashTable.Next | external/libdrm/xf86drmHash.c:277-292 | yields the next entry of the order that the code walks |
| HashTable.First | external/libdrm/xf86drmHash.c:294-303 | starts that order; refuses a table with a bad magic number and leaves it alone |
| HashTable.Traverse | external/libdrm/xf86drmHash.c:277-303 | a First/Next loop yields bucket 0 and then buckets 0 to 510, chain by chain |
| HashTable.TraversalExactlyOnce | external/libdrm/xf86drmHash.c:277-303 | the loop yields every entry exactly once if and only if the first and the last bucket are empty |
| HashTable.ZeroTwice | external/libdrm/xf86drmHash.c:277-303 | a table that holds key 0 lists it twice |
| HashTable.AddContextTag | external/libdrm/xf86drm.c:2086-2095 | tagging a context overwrites its tag |
| HashTable.DelContextTag | external/libdrm/xf86drm.c:2097-2102 | removes the tag of a context |
| HashTable.GetContextTag | external/libdrm/xf86drm.c:2104-2113 | yields the tag of a context, null if it has none |
| PropertySet.PropertySet.constructor | external/libdrm/xf86drmMode.c:1152-1165 | a new set is empty, with all counters 0 |
| PropertySet.FindSlot | external/libdrm/xf86drmMode.c:1172-1185 | the search stops behind the last entry before (object, property) |
| PropertySet.PropertySet.Add | external/libdrm/xf86drmMode.c:1167-1224 | as a map from (object, property) the set is overwritten, and refused with -EINVAL and left alone if and only if it holds a blob there; list order and counters stay right |
| PropertySet.PropertySet.AddBlob | external/libdrm/xf86drmMode.c:1226-1286 | the same for blob properties, refused if and only if the set holds a plain value there |
| PropertySet.PlacedMeans | external/libdrm/xf86drmMode.c:1186-1221 | as a map from (object, property), adding is overwriting |
| PropertySet.PlacedSorted | external/libdrm/xf86drmMode.c:1172-1221 | placing an entry in its slot keeps the list strictly sorted |
| PropertySet.NewObject | external/libdrm/xf86drmMode.c:1187-1189 | looking at the two neighbours of the slot decides whether the object is new to the whole list |
| PropertySet.PutCounted | external/libdrm/xf86drmMode.c:1167-1286 | the counters stay the number of entries, of distinct objects and of blobs |
| PropertySet.Flatten | external/libdrm/xf86drmMode.c:1326-1380 | the arrays sized by the counters are filled exactly, and decode back to the entries of the set and to its blobs |
| PropertySet.BlobAt | external/libdrm/xf86drmMode.c:1369-1370 | the address of each blob comes after those of the blobs before it |
| PropertySet.WriteGroup | external/libdrm/xf86drmMode.c:1364-1375 | the inner loop writes all properties of one object, and no others |
| PropertySet.DecodeExtends | external/libdrm/xf86drmMode.c:1358-1380 | each object group written extends what the arrays decode to by the entries of that object |
| SpinLock.MutualExclusion | external/libdrm/xf86drm.h:510-547 | without DRM_SPINLOCK_TAKE no schedule puts two threads inside at once |
| SpinLock.OwnerInside | external/libdrm/xf86drm.h:510-547 | even with DRM_SPINLOCK_TAKE the lock word is always 0 or the value of a thread inside |
| SpinLock.ClearsOwnOnly | external/libdrm/xf86drm.h:539-547 | a held lock word changes only by its owner clearing it or by DRM_SPINLOCK_TAKE |
| SpinLock.LocksWhenFree | external/libdrm/xf86drm.h:510-517 | a thread that wants a free lock has it after at most two steps of its own |
| SpinLock.WaitsWhileHeld | external/libdrm/xf86drm.h:510-517 | while the lock is held it waits and changes nothing |
| SpinLock.TakesAlone | external/libdrm/xf86drm.h:519-527 | taking by force, undisturbed, succeeds whoever has the lock |
| SpinLock.ForceRetries | external/libdrm/xf86drm.h:519-527 | a forced swap that lost starts over with a new read |
| SpinLock.UnlocksAlone | external/libdrm/xf86drm.h:539-547 | an undisturbed unlock frees the thread's own lock and leaves any other alone |
| SpinLock.UnlockEndsExactly | external/libdrm/xf86drm.h:519-547 | an unlock that has passed its test ends with its next step if and only if nobody took the lock by force in between, under any schedule; otherwise it never ends |
| SpinLock.StuckForever | external/libdrm/xf86drm.h:539-547 | an unlock whose lock was taken after its test never ends, under any schedule |
| SpinLock.UnlockCanStick | external/libdrm/xf86drm.h:519-547 | such a schedule exists for any two or more threads |
| SpinLock.PoliteNeverStuck | external/libdrm/xf86drm.h:510-547 | without DRM_SPINLOCK_TAKE it does not |
| AtomicCounter.CounterAdds | external/libdrm/xf86atomic.h:99-106 | under every schedule the counter is its start plus the addend times the number of zero returns, in 32 bits |
| AtomicCounter.UnlessStays | external/libdrm/xf86atomic.h:99-106 | the counter is never moved off the "unless" value |
| AtomicCounter.UnlessIsFinal | external/libdrm/xf86atomic.h:99-106 | a non-zero return means that the counter has reached that value for good |
| AtomicCounter.CallAlone | external/libdrm/xf86atomic.h:99-106 | an undisturbed call adds once and returns zero, or returns non-zero at the "unless" value without an effect |
| AtomicCounter.Retries | external/libdrm/xf86atomic.h:99-106 | a lost swap retries with the value it saw |
| AtomicCounter.ReturnsAlone | external/libdrm/xf86atomic.h:99-106 | from anywhere a call returns within two accesses of its own if nobody else runs |
| AtomicCounter.HeldUpBy | external/libdrm/xf86atomic.h:99-106 | a call is held up only by calls that have returned zero |
| Sideload.FetchSizeInRange | bootable/recovery/fuse_sideload.c:252-259 | the size asked of the provider is positive and fits into the buffer, despite 32-bit offsets |
| SideloadHost.FetchSizeExact | bootable/recovery/fuse_sideload.c:252-259 | that size is the number of bytes the block holds if and only if the block is whole or starts below 4 GiB |
| SideloadHost.LastByteMissed | bootable/recovery/fuse_sideload.c:252-259 | a file of 4 GiB and one byte whose last block, one byte, is asked for as a whole block |
| Sideload.OffsetInIs | bootable/recovery/fuse_sideload.c:323-341 | the offset within a block is right for every 64-bit offset, despite 32-bit arithmetic |
| Sideload.FetchSound | bootable/recovery/fuse_sideload.c:241-292 | a successful fetch leaves in the buffer the block pinned under that number, and pins at most that block |
| Sideload.FetchFailsExactly | bootable/recovery/fuse_sideload.c:241-292 | a fetch fails exactly if the provider does, or with EIO if the host delivers a block that differs from the pinned one |
| Sideload.ReadFailsExactly | bootable/recovery/fuse_sideload.c:303-359 | a read fails exactly if it is of another node, with ENOENT, or if one of its fetches does, with that code |
| Sideload.ReadSound | bootable/recovery/fuse_sideload.c:294-365 | one read, of one or two blocks, keeps the cache agreeing with the pinned blocks and returns their bytes |
| Sideload.RunSound | bootable/recovery/fuse_sideload.c:241-365 | over a whole run there is one set of pinned blocks that accounts for every byte returned |
| Sideload.ReadsAgree | bootable/recovery/fuse_sideload.c:24-33 | over every run whose provider failures are harmless, whatever the host answers, all reads of a position outside block 2^32 - 1 return the same byte |
| Sideload.NoFailures | bootable/recovery/fuse_sideload.c:261-262 | a run in which no provider call fails is harmless |
| SideloadLimits.HarmlessExactly | bootable/recovery/fuse_sideload.c:252-264 | after a failing provider call in any state reached so far, all later reads agree if and only if the call was harmless: not made at all, made with no block cached, or without effect on the buffer |
| SideloadLimits.FailureBreaksAgreement | bootable/recovery/fuse_sideload.c:252-264 | after any other failure three reads, answered by an honest host, find a position they disagree on |
| SideloadLimits.FailingRunDisagrees | bootable/recovery/fuse_sideload.c:252-264 | for every file of two blocks or more, a run from the start in which a failure makes two reads of the first byte disagree |
| SideloadLimits.NoBlockDisagrees | bootable/recovery/fuse_sideload.c:241-250 | a read of block 2^32 - 1 returns the uninitialised buffer, and zeros after another block was read |
| SideloadLimits.AddressableExactly | bootable/recovery/fuse_sideload.c:241-292 | all harmless runs agree on a position if and only if it is not in block 2^32 - 1 |
| SideloadHost.ServesFile | bootable/recovery/fuse_sideload.c:294-365 | with a host that serves one file, every run returns exactly the requested slices of the zero-padded file |
| FuseData.FuseData.constructor | bootable/recovery/fuse_sideload.c:385-423 | the opened state: no block cached, no block read |
| FuseData.FuseData.FetchBlock | bootable/recovery/fuse_sideload.c:241-292 | carries out the fetch of the value model in place, in every branch |
| FuseData.FuseData.CheckDigest | bootable/recovery/fuse_sideload.c:266-291 | accepts a block with the pinned hash, pins the hash of an unread one and refuses any other |
| FuseData.FuseData.HandleRead | bootable/recovery/fuse_sideload.c:294-365 | carries out the read of the value model, both cases, through extra_block |
| FuseData.SetUp | bootable/recovery/fuse_sideload.c:376-423 | refuses exactly the sizes outside the limits, with the block count taken in 32 bits |
| Asn1.DecodeLengthExactly | bootable/recovery/asn1_decoder.cpp:81-105 | a length is decoded exactly from the octets that encode it: short form, or up to seven octets |
| Asn1.DecodedBelow | bootable/recovery/asn1_decoder.cpp:90-105 | decoded lengths stay below 2^56, so the accumulator does not overflow |
| Asn1.EveryLength | bootable/recovery/asn1_decoder.cpp:81-105 | every length below 2^56 has an encoding that is accepted |
| Asn1.TakeExactly | bootable/recovery/asn1_decoder.cpp:163-169 | an element is parsed off the front if and only if the bytes are its encoding and the rest |
| Asn1.SkipsAll | bootable/recovery/asn1_decoder.cpp:124-135 | any number of constructed elements are skipped |
| Asn1.SkipsOnly | bootable/recovery/asn1_decoder.cpp:124-135 | nothing else is skipped, and something must follow |
| Asn1.Context.constructor | bootable/recovery/asn1_decoder.cpp:41-49 | a cursor over a part of the buffer |
| Asn1.Context.PeekByte | bootable/recovery/asn1_decoder.cpp:55-60 | the first byte left, or -1 |
| Asn1.Context.GetByte | bootable/recovery/asn1_decoder.cpp:62-70 | consumes one byte; the cursor keeps its end |
| Asn1.Context.SkipBytes | bootable/recovery/asn1_decoder.cpp:72-79 | skips if there are enough bytes, otherwise nothing moves |
| Asn1.Context.ReadLength | bootable/recovery/asn1_decoder.cpp:81-105 | the loop decodes the length and consumes its octets |
| Asn1.Context.Get | bootable/recovery/asn1_decoder.cpp:110-161 | opens an element of the wanted kind; the new cursor covers its content and lies inside the old one |
| Asn1.Context.Next | bootable/recovery/asn1_decoder.cpp:163-169 | moves past exactly one element |
| Asn1.Context.SkipAllConstructed | bootable/recovery/asn1_decoder.cpp:124-135 | moves to the first element that is not constructed; ends because bytes run out |
| Asn1.Context.GetString | bootable/recovery/asn1_decoder.cpp:171-191 | the extent of a non-empty object identifier or octet string |
| Pkcs7.SignatureFound | bootable/recovery/verifier.cpp:36-106 | from every SignedData structure, with any definite length forms and trailing bytes, exactly its signature value is read |
| Pkcs7.SignatureDescribed | bootable/recovery/verifier.cpp:61-106 | a signature is read only from a SignedData structure |
| Pkcs7.ReadsExactly | bootable/recovery/verifier.cpp:61-106 | both directions in one: the inputs accepted are the structures, the output is their signature value |
| Asn1.MatchesExactly | bootable/recovery/asn1_decoder.cpp:31-39 | which tags the cursor takes for each kind of element |
| Pkcs7.OpenSignedData | bootable/recovery/verifier.cpp:68-73 | the cursor over SignedData covers exactly its content, inside what the given cursor covers |
| Pkcs7.OpenSigners | bootable/recovery/verifier.cpp:74-79 | likewise the cursor over SignerInfos |
| Pkcs7.ReadPkcs7 | bootable/recovery/verifier.cpp:61-106 | the walk with cursors computes that, on any input; the value copied lies inside the given part of the buffer |
| PackageVerifier.MarkersApart | bootable/recovery/verifier.cpp:171-190 | markers do not overlap, so the scan may start four bytes on |
| PackageVerifier.NoLaterMarker | bootable/recovery/verifier.cpp:179-190 | the scan decides whether the record's marker is the last in the whole file |
| PackageVerifier.NeededDigests | bootable/recovery/verifier.cpp:194-201 | finds which hashes some key needs |
| PackageVerifier.HashPrefix | bootable/recovery/verifier.cpp:203-226 | each needed hash is fed, chunk by chunk, exactly the signed prefix |
| PackageVerifier.UnneededDigests | bootable/recovery/verifier.cpp:194-226 | a hash that no key needs does not affect the verdict |
| PackageVerifier.SomeKeyVerifies | bootable/recovery/verifier.cpp:243-291 | the key loop accepts if and only if some key of a supported kind and hash length does |
| PackageVerifier.CheckFrame | bootable/recovery/verifier.cpp:130-190 | the footer and the record are in order: the comment announced is that of the last marker in the file |
| PackageVerifier.VerifyFile | bootable/recovery/verifier.cpp:115-295 | success means that the file has the parts of a package; and for every way to take it apart, it succeeds if and only if no marker comes after the record and some key accepts the signature in the block for archive and record, without length field and comment; leaves the file exactly if the signature start exceeds its length |
| PackageVerifier.PartsDecide | bootable/recovery/verifier.cpp:115-295 | the same on values |
| PackageVerifier.BeforeStart | bootable/recovery/verifier.cpp:142-150 | a file of 28 bytes in order whose signature starts before the file |
| BootMessage.TokensOfCut | bootable/recovery/recovery.cpp:208-217 | splitting a cut-off list of lines gives the list cut off at the same byte |
| BootMessage.SeparatedTokens | bootable/recovery/recovery.cpp:208-216 | the tokens are the only pieces, apart from newlines, that a string consists of |
| BootMessage.FoundExactly | bootable/recovery/recovery.cpp:207-217 | what is found in any string: its first hundred tokens if the first is "recovery", and nothing otherwise |
| BootMessage.FoundInStored | bootable/recovery/recovery.cpp:208-258 | what is found in a stored string is a list that can be stored again |
| BootMessage.StoredAgain | bootable/recovery/recovery.cpp:193-259 | reading back and storing again is a fixed point, even if the string was cut off at the field |
| BootMessage.ReadBack | bootable/recovery/recovery.cpp:193-259 | the same arguments are read back if and only if all of their lines but the last newline fit |
| BootMessage.Restarted | bootable/recovery/recovery.cpp:205-258 | a restarted run takes up what is stored, whatever the command file holds, and stores the same string |
| BootMessage.CommandArgsAreArgs | bootable/recovery/recovery.cpp:233-242 | arguments from the command file can be stored |
| BootMessage.FirstTokenExactly | bootable/recovery/recovery.cpp:236 | the token of a line is what follows its leading delimiters, up to the next delimiter or the end; only lines of delimiters have none |
| BootMessage.CommandFileRead | bootable/recovery/recovery.cpp:225-242 | a file with one argument per line, with either line end and blank lines between, is read as those arguments, as many as there is room for |
| BootMessage.Precedence | bootable/recovery/recovery.cpp:188-242 | the command line wins over the control block, that over the command file, and without any of them there are no arguments |
| BootMessage.TokenOfLine | bootable/recovery/recovery.cpp:236 | the call of strtok on a line yields its first token |
| BootMessage.NextToken | bootable/recovery/recovery.cpp:208-216 | a call of strtok yields the next token of the string and leaves the rest to the next call |
| BootMessage.SplitField | bootable/recovery/recovery.cpp:207-217 | the loop collects the tokens of the field, up to 100, provided that the first is "recovery" |
| BootMessage.ReadCommandFile | bootable/recovery/recovery.cpp:225-242 | the loop collects the first token of each line that has one |
| BootMessage.Strlcpy | bootable/recovery/recovery.cpp:251-252 | copies what fits, terminated, and leaves the bytes after it |
| BootMessage.Strlcat | bootable/recovery/recovery.cpp:254-257 | appends what fits, terminated, and leaves the bytes after it |
| BootMessage.WriteArgs | bootable/recovery/recovery.cpp:252-257 | the field ends up with the argument lines, cut off at 767 bytes |
| BootMessage.GetArgs | bootable/recovery/recovery.cpp:193-259 | arguments are taken from the command line, the control block or the command file, in this order, and the control block is set to boot recovery with them |
| RecoveryRun.StepKeeps | bootable/recovery/recovery.cpp:107-127 | every step, crashes included, keeps the reset pending or done |
| RecoveryRun.ResetHolds | bootable/recovery/recovery.cpp:107-127 | over every run with crashes anywhere, the control block keeps booting recovery with the same arguments, and the main system is not started, until both volumes were formatted or the wipe failed |
| RecoveryRun.FromArming | bootable/recovery/recovery.cpp:107-127 | the same from wherever a run finds that the reset is asked for, which is only after it has written the control block |
| RecoveryRun.FittingLasts | bootable/recovery/recovery.cpp:193-259 | arguments that fit still ask for the reset when read back |
| RecoveryRun.HoldsExactly | bootable/recovery/recovery.cpp:107-127 | every run holds the reset in this way if and only if the arguments still ask for it when read back from the control block |
| RecoveryRun.LostReset | bootable/recovery/recovery.cpp:193-259 | if they do not, one crash loses the reset: the main system starts with nothing formatted and the control block clear |
| RecoveryRun.LongArgsLost | bootable/recovery/recovery.cpp:249-257 | arguments that ask for the reset and do not when read back: the option comes after a long argument |
| RecoveryRun.ResetCompletes | bootable/recovery/recovery.cpp:372-411 | from wherever a pending reset has got to it can be completed, and then control block and command file are clear |
| KeyEvents.Keys.KeyEvent | bootable/recovery/ui.cpp:138-164 | a release registers its key if and only if the press or release before it was its press, and as a long press if and only if the timer of that very press has fired |
| KeyEvents.Keys.TimerFires | bootable/recovery/ui.cpp:195-204 | a timer takes effect if and only if its press is still the latest press or release |
| KeyEvents.Keys.ClearLongPress | bootable/recovery/ui.cpp:286-289 | the clearing of the flag, where the input thread goes on after it registered a key, disturbs nothing |
| KeyEvents.Keys.IsKeyPressed | bootable/recovery/ui.cpp:262-267 | a key is reported pressed if and only if its latest event was a press |
| KeyEvents.HeldMeans | bootable/recovery/ui.cpp:262-267 | that condition in terms of the history: pressed, and neither pressed nor released since |
| KeyEvents.Keys.IsLongPress | bootable/recovery/ui.cpp:269-274 | while a key is held alone, whether its timer has fired |
| KeySchedule.RegistersExactly | bootable/recovery/ui.cpp:138-204 | under every schedule of input, timer and consumer turns the keys registered are exactly those the history calls for, with their long presses, and no key is down while CheckKey clears the flag |
| KeyEvents.LastDownMeans | bootable/recovery/ui.cpp:125-137 | the registration condition in terms of the history: pressed, and nothing pressed or released since |
| KeyEvents.LongHeldMeans | bootable/recovery/ui.cpp:145-161 | the long-press condition in terms of the history: the timer of that press fired after it |
| KeyQueue.KeyQueue.EnqueueKey | bootable/recovery/ui.cpp:206-214 | a key enters the queue unless it is full |
| KeyQueue.KeyQueue.TakeKey | bootable/recovery/ui.cpp:235-242 | keys are returned in the order they entered, none skipped except those flushed |
| KeyQueue.KeyQueue.FlushKeys | bootable/recovery/ui.cpp:280-284 | what is queued is dropped, and nothing else |
| KeySchedule.FirstInFirstOut | bootable/recovery/ui.cpp:206-284 | under every schedule the keys returned are, in order, those offered when the queue was not full and not flushed, up to those still queued |
| KeySchedule.ReturnedWereRegistered | bootable/recovery/ui.cpp:125-309 | under every schedule each key returned stands for a registration of its own, in the order of the registrations: it is that key, or the enter key for a long press |
| KeyEvents.Keys.CheckKey | bootable/recovery/ui.cpp:290-328 | the decision of CheckKey, which key goes to the queue, and that the history of checks gains this one |
| KeyEvents.CheckMeans | bootable/recovery/ui.cpp:290-328 | a key toggles if and only if the chord was held, or a long press met hidden text on a device without three buttons; there a long press with visible text queues the enter key; the seventh power key asks for a reboot; any other key is queued if and only if the text is visible |
| KeySchedule.ChecksMean | bootable/recovery/ui.cpp:138-328 | that holds of every check of every schedule, of the registration with its number and with the power key as the history says |
| KeySchedule.RegisteredAreOffered | bootable/recovery/ui.cpp:138-214 | under every schedule each such key is offered to the queue, behind exactly the keys that earlier checks sent |
| KeyEvents.RebootsExactly | bootable/recovery/ui.cpp:310-324 | a check asks for a reboot if and only if it counts a power key and seven have been counted with none reset since |
| KeySchedule.RebootsAfterSeven | bootable/recovery/ui.h:99-103 | that holds of the checks of every schedule |
| KeySchedule.RowNotBroken | bootable/recovery/ui.cpp:290-324 | six power keys, a long press of another key and one power key ask for a reboot |
| KeySchedule.ProcessKey | bootable/recovery/ui.cpp:138-187 | an undisturbed call takes the turns of the input thread one after the other, and ends where the next event may come |
| FixedMath.Product | external/libpng/png.c:3247-3262 | the two words are the 64-bit product, with no partial sum overflowing |
| FixedMath.DivideLoop | external/libpng/png.c:3264-3292 | the bitwise loop computes quotient and remainder |
| FixedMath.MulDiv | external/libpng/png.c:3201-3313 | which calls succeed and with which value, for all 32-bit arguments |
| FixedMath.Accuracy | external/libpng/png.c:3228-3306 | if the true quotient is below 2^31 - 1 in magnitude, the call succeeds and is off by at most half a divisor, rounded up |
| FixedMath.NearestExactly | external/libpng/png.c:3294-3296 | the result is the nearest integer, ties away from zero, if and only if a factor is 0, the divisor is even, or the remainder is not (d - 1) / 2 for a divisor of magnitude d |
| FixedMath.SucceedsExactly | external/libpng/png.c:3288-3306 | success is reported if and only if the rounded quotient fits into 32 bits, or is 2^32 by rounding up |
| FixedMath.DivideByOne | external/libpng/png.c:3294-3296 | 1 * 1 / 1 gives 2 |
| FixedMath.OverflowMissedExactly | external/libpng/png.c:3298-3306 | a successful call reports the rounded quotient unless that is 2^32 |
| FixedMath.OverflowMissed | external/libpng/png.c:3298-3306 | 7 * 1227133513 / 2 is reported as 0 |
| Chromaticity.DeterminantBound | external/libpng/png.c:1426-1455 | three points of the chromaticity triangle span a determinant of at most one square unit |
| Chromaticity.NumeratorsFit | external/libpng/png.c:1429-1455 | the three scaled determinants fit into 32 bits and are those of Cramer's rule, to 8/7 units |
| Chromaticity.Cramer | external/libpng/png.c:1250-1427 | the exact determinants solve the white-point equations |
| Chromaticity.ProductsAlwaysFit | external/libpng/png.c:1426-1454 | the internal-error exits are never reached |
| Chromaticity.ComputeReciprocal | external/libpng/png.c:3336-3352 | times the argument, the result is off from 1 by at most half a unit of the argument, rounded up; it is 0 for arguments below 5 in magnitude, whose reciprocals do not fit |
| Chromaticity.ReciprocalBounds | external/libpng/png.c:3336-3352 | reciprocals of legal white points are within one unit and fit into 32 bits |
| Chromaticity.BlueScaleFits | external/libpng/png.c:1459-1464 | neither subtraction of the blue scale overflows |
| EndPoints.Scales | external/libpng/png.c:1429-1464 | which of the exits is taken, and on success the three scales |
| Chromaticity.SolvableInside | external/libpng/png.c:1429-1464 | success means that the white point lies inside the triangle of the colors: the shares of red and green have the sign of the whole, do not exceed it and leave one for blue, up to an error of 4 in white y |
| EndPoints.EndPoint | external/libpng/png.c:1467-1486 | the three components of an end point are the scaled coordinates, to rounding |
| EndPoints.XyzFromXy | external/libpng/png.c:1230-1489 | for every input no internal error; success if the white point lies inside the triangle of the colors by more than 4 in white y, with shares large enough for their inverses, and only if it does not lie outside by more than that; then nine components that agree with the colors and add up to the white point within a stated error |
| WhitePoint.InsideSolvable | external/libpng/png.c:1429-1464 | determinants of the right sign and size, with that margin for blue, are enough for success |
| WhitePoint.SolvableNotOutside | external/libpng/png.c:1429-1464 | success means that the determinants do not put the white point outside by more than rounding can hide |
| WhitePoint.SrgbInside | external/libpng/png.c:1410-1424 | the sRGB chromaticities meet the condition for success |
| WhitePoint.EndPointsAddUp | external/libpng/png.c:1322-1346 | the three end points add up to the white point over white y in all three coordinates; the error grows as white y or the determinant of the colors shrink |
| FpNumber.CheckNumber | external/libpng/png.c:2602-2725 | the loop runs the automaton as far as it goes |
| FpNumber.RunSound | external/libpng/png.c:2602-2725 | what the automaton runs through has the shape of a number's prefix, and the state says what its mantissa and exponent are |
| FpNumber.RunComplete | external/libpng/png.c:2602-2725 | every text of that shape is run through |
| FpNumber.Resume | external/libpng/png.c:2602-2725 | stopping at any point and resuming from the saved state and index equals one pass |
| FpNumber.CheckString | external/libpng/png.c:2729-2740 | accepts, up to the first NUL, exactly the numbers of the grammar, with the sign and non-zero flags of the mantissa |
| FixedText.SplitDigits | external/libpng/png.c:3116-3133 | the decimal digits, lowest first, and the place of the lowest non-zero one |
| FixedText.AsciiFromFixed | external/libpng/png.c:3099-3166 | writes the text and its terminator into 13 bytes, or reports a buffer that is too small |
| FixedText.PrintedValue | external/libpng/png.c:3099-3166 | the text denotes exactly fp / 100000, sign included |
| FixedText.PrintedWellFormed | external/libpng/png.c:3099-3166 | the text is a complete number of at most 12 characters |
| FixedText.PrintedShortest | external/libpng/png.c:3133-3158 | no leading zero, no trailing zero after the point, and no point without a fraction |
| FixedText.PrintAndCheck | external/libpng/png.c:2729-2740 | what png_ascii_from_fixed prints into 13 bytes, png_check_fp_string accepts, as negative iff fp < 0 and as non-zero iff fp != 0 |
| Adam7.Geometry | external/libpng/png.h:2592-2612 | the shift macros give each pass its first row and column and its steps |
| Adam7.RowMask | external/libpng/png.h:2633-2644 | the row mask agrees with first row and step |
| Adam7.ColMask | external/libpng/png.h:2633-2646 | the column mask agrees with first column and step |
| Adam7.ExactlyOnePass | external/libpng/png.h:2633-2646 | every pixel is in exactly one of the seven passes |
| Adam7.RowCount | external/libpng/png.h:2614-2620 | for every 32-bit height, PASS_ROWS counts the rows of a pass if and only if its sum does not wrap around |
| Adam7.TallestMiscounted | external/libpng/png.h:2619-2620 | for height 2^32 - 1 PASS_ROWS finds no row in the first pass, which has 2^29 |
| Adam7.ColCount | external/libpng/png.h:2614-2622 | the same for columns |
| Adam7.RowsOfPass | external/libpng/png.h:2614-2629 | then the rows of a pass are, in order, the image rows that belong to it, none left out and none twice |
| Adam7.ColsOfPass | external/libpng/png.h:2614-2631 | the same for columns |
| Adam7.PixelsAddUp | external/libpng/png.h:2614-2622 | the pixels of the seven passes add up to width times height, for sizes up to 2^32 - 8, which is more than the format allows |

## Left out

- Wrappers around system calls, device enumeration, mode setting and AGP in libdrm: kernel behaviour is not visible.
- drmSLDestroy, drmHashDestroy and drmModePropertySetFree: they only free memory.
- drmSLLookupNeighbors: it uses search results it has not computed, so it has no defined meaning.
- DRM_LIGHT_LOCK, DRM_UNLOCK and DRM_SPINLOCK_COUNT: the first two depend on the kernel's lock, the last is a bounded DRM_SPINLOCK.
- HashTable.HashTable.Find: the hit, partial and miss counters do not wrap around at 64 bits.
- PropertySet.PropertySet.Add: property and object counters do not wrap around at 32 bits.
- PropertySet.Flatten: the request that is then handed to the kernel is not part of the model.
- Mounting, the request loop and the other requests of the sideload file system; short writes to the kernel.
- Freeing of cursors in read_pkcs7: some failure paths do not free, and no claim is made.
- Contents of keys and of ECDSA signatures, the key file parser, and progress reports of verify_file.
- RecoveryRun.ResetHolds: writes of the control block are atomic and succeed; the code ignores their result.
- Package installation, log copying, menus and screen output of recovery; which options an argument list sets.
- The waiting of WaitKey and trackball motion: easy once registration is known.
- KeySchedule.ProcessKey: the effects of a toggle or a reboot, and the second test of the reboot switch before the latter, are not part of the model.
- KeyEvents.Keys.KeyEvent: the press counter does not overflow, and the pressed state of a key is kept as an integer.
- KeyQueue.KeyQueue.TakeKey: the overlapping memcpy moves the elements as memmove does.
- Floating-point code of libpng, including the floating-point branch of png_muldiv, and its tables.
- libnativehelper, bionic and libdrm_lists.h: wrappers and one-line functions.

# Verified models of the RNode firmware's host tools and protocols

A Dafny project that models the parts of this repository that allocate, share, stream and parse, and proves
what they are for. `dafny verify dfyconfig.toml` checks all of it.

- **SPIFFS images** (`Spiffs*.dfy`). The image builder turns files into data pages, chained index pages and
  lookup tables. `SpiffsConfig` derives the page counts; `SpiffsLayout` describes the pages in the order of
  their allocation and what it means that a file is in them; `SpiffsLookup` the lookup pages of a block;
  `SpiffsImage` the bytes. `SpiffsPages` and `SpiffsFs` are the builder's classes, with its retries.
  `SpiffsPacks` says for which files all fields fit, `SpiffsBytes` what stands where, byte by byte.
  `SpiffsReader` is a reader written from the format alone, which looks only at the image: the main result is
  that it gets every file back from every image that `SpiffsGenerate` produces.
- **The off-loop receive path** (`Conclude*.dfy`). Two tasks share two bounded queues, a byte budget, heap
  copies, files and a cached descriptor. `ConcludeProtocol` has one step for each access to something shared;
  the other modules prove what every step keeps, and from it what holds in every state of every interleaving:
  complete files at read-back, exact accounting, no conclusion lost, repeated or overtaken, where exactly the two
  blocking sends can lock each other, and that otherwise everything accepted gets done and delivered.
- **MD5** (`Md5Spec.dfy`, `Md5.dfy`). `Md5Spec` is sections 3.1 to 3.5 of RFC 1321 on a whole message. The
  context takes the message in pieces; its digest is that of the RFC for every way of splitting.
- **MessagePack and announces** (`MsgPack*.dfy`, `Announce.dfy`). `MsgPackFormat` is the "Formats" section of
  the MessagePack specification as a reader. The skipper is exact with respect to it on all inputs, the
  encoders are inverted by it and choose the shortest form, and a built announce decodes to the fields set.
- **Markup fragments** (`Fragments.dfy`). The splice loop of the build script expands placeholders to a
  fixpoint; it succeeds exactly for pages whose reference graph is closed, acyclic and complete.
- **Partition tables** (`Partition*.dfy`). Layout of omitted offsets and sizes, the checks, and the binary
  form with its checksum.
- **Byte streams** (`Improv.dfy`, `Hdlc.dfy`, `Kiss.dfy`). Writers and readers of three framings on a serial
  line or socket, with what each reader makes of arbitrary streams.
- **Two kernels** (`Preamble.dfy`, `Announcer.dfy`). The search for the SX1280 preamble, with its cache; and the
  choice of the interface to announce.

`Arith`, `ByteFields` and `Wrappers` hold what the models share.

Objects that the sources update in place are classes with those fields; code that computes a value is a
function. Where a method of the sources is long, its loops and branches are methods of their own. Ghost fields
and ghost parameters carry what a proof needs to remember.

Some results differ from what comments or documents say; the models follow the code.

- The mask of the SPIFFS magic number is meant to narrow it to the width of an id, but it lets one more bit
  through (`SpiffsImage.MagicFits`): with pages of 64 KiB not even an empty image packs
  (`SpiffsGenerate.LargePagesDoNotPack`).
- A page number is an offset shifted by a logarithm, which is right only for page sizes that are powers of two
  (`SpiffsConfig.PageShiftExact`).
- The receive path can stop for good with 50 conclusions that loopTask has not drained
  (`ConcludeProgress.DeadlockIsReachable`), and not with fewer.
- The fragment splice promises to report unmatched placeholders, but checks nothing when there are no fragment
  files (`Fragments.UncheckedWithoutFragments`).
- The partition tool's comment allows 96 entries; 94 fit with a checksum and 95 without
  (`PartitionBinary.ToBinaryIff`). The flash size can be less than the end of the last partition
  (`PartitionVerify.FlashSizeTooSmall`, `PartitionVerify.FlashSizeBackwards`; exactly when,
  `PartitionVerify.FlashSizeIff`), a negative size can make an accepted layout overlap
  (`PartitionLayout.BackwardsEntryOverlaps`, `PartitionLayout.InOrderIff`), and an empty partition can be
  reported as an overlap (`PartitionVerify.EmptyEntryReported`, `PartitionVerify.SeparateIff`).
- The KISS reader does not forget an escape at the end of a frame (`Kiss.DataFrameRuns`,
  `Kiss.LeftoverEscape`).
- A preamble target below 4 wraps around (`Preamble.SmallTargetDrifts`).
- An interface whose announce cannot be built keeps all those from being announced that were announced after it,
  and new ones; whoever is staler still has its turn (`Announcer.TurnIff`, `Announcer.BlockedWaits`,
  `Announcer.BlockedInBetween`).
- An interface never announced can wait until the clock wraps even if all can be built, when the others take up
  all ticks of an interval: with ticks `t` apart, `N` interfaces are all served exactly when `(N - 1) * t` is less
  than the interval (`Announcer.AllHaveTurnsIff`). With a tick a minute and the shortest interval of five minutes
  these are five (`Announcer.SixthStarves`).

## Model

| member | source | states |
|---|---|---|
| SpiffsConfig.LookupSpaceSuffices | Release/esptool/spiffsgen.py:75-79 | for every valid configuration the lookup pages of a block have at least as many slots as the block has pages |
| SpiffsConfig.IxLimIsMost | Release/esptool/spiffsgen.py:89-99 | the limit of an index page is the greatest number of entries that fit after its header |
| SpiffsConfig.GeometryMatches | Release/esptool/spiffsgen.py:57-99 | the page counts and limits derived from a configuration agree with every field width and padding |
| SpiffsGenerate.DefaultPages | Release/esptool/spiffsgen.py:57-99 | the page counts and limits of the default options, in numbers |
| SpiffsConfig.PageShiftExact | Release/esptool/spiffsgen.py:248 | shifting a page offset by the floored logarithm of the page size gives its page number for every page if and only if the page size is a power of two |
| SpiffsLayout.OffsetInBlock | Release/esptool/spiffsgen.py:350 | the offset recorded for a data page is its block's start plus its place among the block's pages |
| SpiffsLayout.FlattenChunks | Release/esptool/spiffsgen.py:426-456 | the chunks read from a file concatenate to its contents, and there are exactly ceil(length / content length) of them |
| SpiffsLayout.LeastIndexPages | Release/esptool/spiffsgen.py:432-443 | the number of index pages begun is 1 plus ceil of the entries beyond the head limit over the later limit |
| SpiffsLayout.IndexPagesBound | Release/esptool/spiffsgen.py:432-443 | at no moment have more index pages been begun than the finished file needs: no page is wasted |
| SpiffsLayout.BeginFirst | Release/esptool/spiffsgen.py:329-345 | the first index page of an object makes the log hold an empty prefix of the file, and touches no other object |
| SpiffsLayout.BeginNext | Release/esptool/spiffsgen.py:437-443 | one more index page, begun when the current ones are full, keeps everything already listed |
| SpiffsLayout.AppendData | Release/esptool/spiffsgen.py:347-356 | one more data page with its offset in the current index page keeps all spans, offsets and contents of the file, and touches no other object |
| SpiffsLayout.CompleteFrame | Release/esptool/spiffsgen.py:408-460 | a finished file stays complete whatever is stored after it |
| SpiffsLookup.RegisterKeeps | Release/esptool/spiffsgen.py:153-159 | registering a page in the current lookup page leaves the lookup pages those of the longer entry list |
| SpiffsLookup.LookupHasRoom | Release/esptool/spiffsgen.py:316-325 | while usable pages remain, a full lookup page is followed by an empty one: the error the code calls impossible is |
| SpiffsLookup.LuPagesEntry | Release/esptool/spiffsgen.py:299-327 | entry i across the lookup pages of a block is the entry of its usable page i |
| SpiffsLookup.LastLuPageFree | Release/esptool/spiffsgen.py:176-187 | the last lookup page has the free slots of the block, up to its own size |
| SpiffsImage.ToggleInvolution | Release/esptool/spiffsgen.py:166 | an id that packs with its top bit toggled is recovered by toggling again |
| SpiffsImage.ImagePage | Release/esptool/spiffsgen.py:364-380 | page k of block b is found in the image at its computed place with the bytes of that lookup page, data page or blank |
| SpiffsImage.ImageLength | Release/esptool/spiffsgen.py:462-479 | the image has exactly the requested number of blocks, each of exactly the block size |
| SpiffsImage.BlankBlock | Release/esptool/spiffsgen.py:475-477 | without magic numbers an unused block is the blank filler that the code appends |
| SpiffsImage.MagicInImage | Release/esptool/spiffsgen.py:176-194 | with magic numbers and two free slots, the second-last slot of a block's last lookup page reads as the magic number of that block |
| SpiffsBytes.MagicBits | Release/esptool/spiffsgen.py:146-151 | bit k of the magic number is the parity of bit k of 0x20140529, of the page size and, with length, of the distance to the end; bits past the first one above the id are 0 |
| SpiffsBytes.MagicReads | Release/esptool/spiffsgen.py:146-194 | in the image itself, every bit of the number in that slot is this parity |
| SpiffsBytes.BlankSlots | Release/esptool/spiffsgen.py:178-194 | every other slot of that page that no page uses reads as the blank id |
| SpiffsBytes.ToggleBits | Release/esptool/spiffsgen.py:166 | toggling an id flips its highest bit and no other |
| SpiffsBytes.DataPageLayout | Release/esptool/spiffsgen.py:267-282 | id, span, 0xFC, contents and 0xFF to the end of a data page |
| SpiffsBytes.IndexHeaderLayout | Release/esptool/spiffsgen.py:220-230 | toggled id, span, 0xF8, and 0xFF up to a multiple of 4 |
| SpiffsBytes.HeadLayoutBytes | Release/esptool/spiffsgen.py:232-244 | size, type 1, name, and zeros up to the page numbers |
| SpiffsBytes.FlagInImage | Release/esptool/spiffsgen.py:25-26 | every page stored is found in the image with the flag 0xF8 if it is an index page and 0xFC if it is a data page |
| SpiffsBytes.LookupPageLayout | Release/esptool/spiffsgen.py:161-174 | a lookup page has the size of a page and is 0xFF after its ids |
| SpiffsBytes.UnusedPage | Release/esptool/spiffsgen.py:364-380 | a page of the image that nothing was stored in is 0xFF throughout |
| SpiffsImage.MagicFits | Release/esptool/spiffsgen.py:143-151 | with two-byte ids the magic number packs if and only if bit 16 of the page size and of the block distance cancel; the mask keeps one bit more than its comment says |
| SpiffsGenerate.LargePagesDoNotPack | Release/esptool/spiffsgen.py:143-169 | a valid configuration where it does not: with pages of 64 KiB and otherwise default options not even an empty image packs |
| SpiffsPages.SpiffsObjIndexPage.RegisterPage | Release/esptool/spiffsgen.py:212-217 | a full index page refuses and is unchanged; otherwise the offset is appended and one slot used |
| SpiffsPages.SpiffsObjIndexPage.ToBinary | Release/esptool/spiffsgen.py:219-256 | the bytes of the index page, or failure exactly when a field does not fit |
| SpiffsPages.PageToBinary | Release/esptool/spiffsgen.py:267-282 | the bytes of either kind of page, or failure exactly when a field or the contents do not fit |
| SpiffsPages.LuToBinary | Release/esptool/spiffsgen.py:161-174 | the bytes of a lookup page, or failure exactly when an id does not fit or there are too many |
| SpiffsPages.Magicfy | Release/esptool/spiffsgen.py:176-194 | the lookup page after it was given the magic number: blank ids up to the second-last slot, then the number |
| SpiffsPages.SpiffsBlock.RegisterPage | Release/esptool/spiffsgen.py:311-327 | the page is added last and the lookup pages are those of all pages; there is always a slot |
| SpiffsPages.SpiffsBlock.BeginObj | Release/esptool/spiffsgen.py:329-345 | refuses exactly a full block; otherwise a fresh index page is registered and the cursor is on it |
| SpiffsPages.SpiffsBlock.UpdateObj | Release/esptool/spiffsgen.py:347-356 | refuses exactly when the block or the index page is full, changing nothing; otherwise data page, offset and cursor are as specified |
| SpiffsPages.SpiffsBlock.ToBinary | Release/esptool/spiffsgen.py:364-380 | the bytes of the block, or failure exactly when a page does not pack |
| SpiffsFs.SpiffsFS.FreePages | Release/esptool/spiffsgen.py:405-406 | the allocated pages fill the image exactly when no block is left and the last one is full; every block but the last is full |
| SpiffsFs.SpiffsFS.CreateBlock | Release/esptool/spiffsgen.py:396-403 | a new empty block, exactly when one remains |
| SpiffsFs.SpiffsFS.ContinueInNewBlock | Release/esptool/spiffsgen.py:444-454 | the object continues in a new block with the cursor of the old one |
| SpiffsFs.SpiffsFS.MakeRoom | Release/esptool/spiffsgen.py:431-454 | each retry either allocates an index page or opens a block: free pages, then unused blocks, decrease |
| SpiffsFs.SpiffsFS.WriteChunks | Release/esptool/spiffsgen.py:426-456 | the loop ends with all chunks stored, or with no free page left |
| SpiffsFs.SpiffsFS.CreateFile | Release/esptool/spiffsgen.py:408-460 | refuses a long name; reports a full image if and only if the data and index pages needed exceed the free pages; otherwise uses exactly those pages, and stored files stay complete |
| SpiffsFs.SpiffsFS.ToBinary | Release/esptool/spiffsgen.py:462-479 | the image of all blocks, used and unused, or failure exactly when some block does not pack |
| SpiffsReader.HeaderOfPage | Release/esptool/spiffsgen.py:219-227 | a page header reads as an id, span and flag exactly when they are those of the page |
| SpiffsReader.SlotOfIndex | Release/esptool/spiffsgen.py:246-250 | slot s of an index page reads as the number of the page listed there |
| SpiffsReader.HeadOfIndex | Release/esptool/spiffsgen.py:232-244 | size, type and name of a file read back from its first index page |
| SpiffsReader.PageAtLog | Release/esptool/spiffsgen.py:462-479 | the n-th page allocated is found in the image at its number, with its own bytes, and lookup table and header name exactly it |
| SpiffsReader.PageIsInLog | Release/esptool/spiffsgen.py:462-479 | every page of the image that lookup table and header announce is one that was allocated |
| SpiffsReader.FindIndexFinds | Release/esptool/spiffsgen.py:437-443 | a search of the image for index page g of an object finds exactly that page |
| SpiffsReader.DataPageFound | Release/esptool/spiffsgen.py:350-353 | for every data page, the slot of the index page points at a page of the image with that id, span and contents |
| SpiffsReader.ReadDataBack | Release/esptool/spiffsgen.py:426-456 | from any span on, following index pages and offsets through the image gives exactly the rest of the contents |
| SpiffsReader.ReadFileBack | Release/esptool/spiffsgen.py:408-479 | a complete file is read back from the image alone: name and every byte |
| SpiffsPacks.FilePacksIff | Release/esptool/spiffsgen.py:221-282 | the pages of a stored file pack if and only if its id, size, spans and the numbers of its data pages fit their fields |
| SpiffsPacks.BlocksPackIff | Release/esptool/spiffsgen.py:161-194 | an image packs if and only if all its pages do and, in every block whose last lookup page has two free slots, the magic number fits |
| SpiffsPacks.PacksIff | Release/esptool/spiffsgen.py:161-282 | the image of stored files packs if and only if, by their sizes alone, the largest id, sizes and spans, the number of the last data page and the magic numbers fit |
| SpiffsGenerate.FieldsSufficePack | Release/esptool/spiffsgen.py:161-282 | if ids, page numbers, sizes and magic numbers fit their fields, every page and block packs |
| SpiffsGenerate.ImageReadsBack | Release/esptool/spiffsgen.py:408-479 | every stored file is read back from the image, and no other object is found in it |
| SpiffsGenerate.StoreFiles | Release/esptool/spiffsgen.py:408-460 | all files are stored if and only if all names fit and the pages needed in total fit; otherwise the first file refused, and why |
| SpiffsGenerate.GenerateImage | Release/esptool/spiffsgen.py:383-479 | there is an image if and only if the size is whole blocks, names are short, the pages suffice and, by the sizes of the files, all fields fit; it fails to pack if and only if only the last is not so; an image has the requested size and holds exactly the given files |
| SpiffsGenerate.DefaultsPack | Release/esptool/spiffsgen.py:513-585 | with the default options every image of up to 8 MiB packs, so that it fails only for names that are too long, sizes that are not whole blocks, or files that need too many pages |
| ConcludeInvariants.BudgetTestExact | src/RnsConclude.h:179 | the 32-bit comparison with the cap is right if and only if the sum does not wrap |
| ConcludeInvariants.BudgetTested | src/RnsConclude.h:179-180 | a part can pass the budget test if and only if with it at most 512 KiB are in flight |
| ConcludeInvariants.SliceBounded | src/RnsConclude.h:133-138 | one read of the worker takes at most 16 KiB, and not more than is missing |
| ConcludeInvariants.AccountingLoop | src/RnsConclude.h:177-221 | every step of loopTask keeps the in-flight counter equal to the bytes charged and not yet released, and these and the copies not charged under the cap |
| ConcludeInvariants.AccountingWorker | src/RnsConclude.h:145-171 | every step of the worker keeps the in-flight counter equal to the bytes charged and not yet released, and these and the copies not charged under the cap |
| ConcludeInvariants.CopyHeldLoop | src/RnsConclude.h:177-193 | every copy is held in one place while it is live; what loopTask frees is live, once |
| ConcludeInvariants.CopyHeldWorker | src/RnsConclude.h:150-155 | every step of the worker keeps each live copy in one place, and what it frees is live: no copy is freed twice or lost |
| ConcludeInvariants.ConservedLoop | src/RnsConclude.h:177-204 | a part given to the hook is written or still under way, as often as it was given |
| ConcludeInvariants.ConservedWorker | src/RnsConclude.h:98-119 | a step of the worker neither loses nor repeats a part: it is written or still under way, as often as it was given |
| ConcludeInvariants.JobKeepsPathIff | src/RnsConclude.h:185 | a job keeps the path of its part if and only if the path is shorter than 96 bytes |
| ConcludeConclusions.ConclusionsLoop | src/RnsConclude.h:206-231 | every step of loopTask keeps each deferred resource in just one place of a line that starts with what was delivered and ends with the deferrer; draining takes the oldest |
| ConcludeConclusions.ConclusionsWorker | src/RnsConclude.h:145-171 | every step of the worker keeps it there: no conclusion is lost, repeated or overtaken |
| ConcludeOrder.OrderedLoop | src/RnsConclude.h:177-216 | with parts queued or written inline, every conclusion stays behind all parts of its resource |
| ConcludeOrder.OrderedWorker | src/RnsConclude.h:145-171 | when the worker takes up a conclusion, nothing of that resource is queued, in the hook or being written; removed files stay settled |
| ConcludeFiles.WriteAtByte | src/RnsConclude.h:110-116 | every byte of a file after a write: those written in their place, the others unchanged, and zeros in a gap |
| ConcludeFiles.WriteKeeps | src/RnsConclude.h:110-116 | a write of true bytes leaves every part already in the file in place |
| ConcludeFiles.WriteExtends | src/RnsConclude.h:111-116 | the next stretch of a partial write extends what the file has of the part |
| ConcludeFiles.WorkerFdWorker | src/RnsConclude.h:90-107 | the cached descriptor is always for the file its path names, and closed before a file is removed |
| ConcludeContents.WrittenLoop | src/RnsConclude.h:194-204 | inline writes keep every written part in its file, wherever the worker is |
| ConcludeContents.WrittenWorker | src/RnsConclude.h:98-119 | worker writes keep every written part in its file, wherever loopTask is |
| ConcludeContents.CompleteAtReadOpen | src/RnsConclude.h:157-162 | when the worker opens a file to read it back, the file has every part given for it |
| ConcludeContents.WholeAfterRead | src/RnsConclude.h:122-143 | the bytes read back contain every part of the resource |
| ConcludeTheorems.InvRun | src/RnsConclude.h:145-231 | all these invariants hold in every state of every run |
| ConcludeTheorems.ConclusionsInLine | src/RnsConclude.h:145-231 | in every reachable state each deferred resource is in just one place: deferrer, queue, worker, deliveries or delivered; these in line are the order of deferral |
| ConcludeTheorems.ConcludeReadsCompleteFile | src/RnsConclude.h:157-162 | for every interleaving, at the start of a read-back every part earlier given to the hook for that resource is in the file at its offset |
| ConcludeTheorems.DeliveredWhole | src/RnsConclude.h:162-169 | for every interleaving, a delivery, waiting or taken, holds every part given; it is the whole body if the parts covered it; its file is removed |
| ConcludeTheorems.InflightExact | src/RnsConclude.h:152-189 | in every reachable state the counter is exactly the bytes charged; the bytes of all live copies, each held in one place, never exceed the cap, and the counter differs from them only by a copy not yet or no longer charged, or one just freed |
| ConcludeTheorems.QuiescentClean | src/RnsConclude.h:145-204 | when both tasks rest, every part has been written as often as given, no copy is live, and the counter is 0 |
| ConcludeProgress.DeadlockOnlyBothStuck | src/RnsConclude.h:169-215 | a reachable state has no next step if and only if there is nothing to do or both tasks are in their blocking sends on full queues |
| ConcludeProgress.FewUndrainedNeverStuck | src/RnsConclude.h:169-215 | with at most 49 undrained conclusions the two blocking sends are never both stuck |
| ConcludeProgress.DeadlockIsReachable | src/RnsConclude.h:169-215 | with 50 they can be: a run in which 50 one-byte resources are written and concluded ends with both tasks stuck |
| ConcludeQuiescence.WorkFalls | src/RnsConclude.h:145-231 | every step that needs nothing from outside leaves less work |
| ConcludeQuiescence.LeftAloneEnds | src/RnsConclude.h:145-231 | left alone, every interleaving makes at most as many steps as there is work left |
| ConcludeQuiescence.LeftAloneFinishes | src/RnsConclude.h:145-231 | with at most 49 undrained conclusions it can only end with every part written as often as given, no copy live, nothing waiting, and every deferred resource delivered exactly once, in the order of deferral, with all its parts, its file removed |
| Md5.EIsF | src/MD5.cpp:31 | the optimized E is F of RFC 1321 on all words |
| Md5.OptimizedGIsG | src/MD5.cpp:32 | the optimized G is that of RFC 1321 on all words |
| Md5.StepIsOperation | src/MD5.cpp:39-164 | each of the 64 STEP lines, with its own word, constant and shift, is the RFC's operation |
| Md5Spec.TruthTables | src/MD5.cpp:31-34 | the four auxiliary functions of RFC 1321 on all eight combinations of bits |
| Md5Spec.StartBytes | src/MD5.cpp:185-188 | the initial registers, low-order byte first, are the bytes of RFC 1321 |
| Md5Spec.WordBytes | src/MD5.cpp:58-63 | a word of a block is four of its bytes, the first of them the lowest |
| Md5.Context.Block | src/MD5.cpp:86-169 | one turn of the loop is the RFC's processing of one block |
| Md5.Context.Body | src/MD5.cpp:72-180 | any number of whole blocks is processed in order |
| Md5.Context.Count | src/MD5.cpp:203-207 | the 29-bit low counter with its carry and the high counter hold the byte count modulo 2^61 |
| Md5.Context.Absorb | src/MD5.cpp:209-230 | buffer and registers after any data: the unprocessed tail, and the state over all whole blocks |
| Md5.Context.Update | src/MD5.cpp:197-231 | the context stands for the old message followed by the data, for any sizes of both |
| Md5.Context.Final | src/MD5.cpp:233-283 | the result is the RFC 1321 digest of the message, and the context is wiped |
| Md5.LengthFields | src/MD5.cpp:253-261 | the two counters written out are the 64-bit bit length of the RFC, low byte first |
| Md5.OneBlock | src/MD5.cpp:238-263 | padding that fits after the tail: one last block |
| Md5.TwoBlocks | src/MD5.cpp:244-251 | padding that does not fit after the tail: two last blocks |
| Md5.HashParts | src/MD5.cpp:182-283 | for every message and every way of splitting it, the streamed digest is that of the whole message |
| MsgPack.SkipElement | src/Common/MsgPack.h:74-129 | for every input: succeeds if and only if a complete element in the known forms stands at the offset, and then stops at its end, past the offset and within the data |
| MsgPack.SkipElements | src/Common/MsgPack.h:83-121 | the element loops: all n elements, or failure |
| MsgPack.SkipTagged | src/Common/MsgPack.h:91-128 | for a tag of fixed or given width: succeeds if and only if the element is complete and of a known form, and stops at its end |
| MsgPack.ExtentManyStep | src/Common/MsgPack.h:83 | where n elements end, in terms of the first and the rest |
| MsgPack.ReadBinOrStr | src/Common/MsgPack.h:41-72 | the content of the complete string or binary at the offset, and the offset after it; the empty string otherwise, never past the data |
| MsgPackEncode.IntReads | src/Common/MsgPack.h:192-214 | every 64-bit integer is read back from the form chosen for it, with its sign |
| MsgPackEncode.CountReads | src/Common/MsgPack.h:251-289 | array and map headers read back as the count they were given |
| MsgPackEncode.DecodeEncode | src/Common/MsgPack.h:135-289 | an encoded value of any nesting, wherever it stands, decodes to itself, and the reader stops at its end |
| MsgPackEncode.SkipEncoded | src/Common/MsgPack.h:74-129 | the skipper passes exactly over an encoded value if and only if no array or map in it has more than 65535 entries |
| MsgPackShortest.EncodeIsShortest | src/Common/MsgPack.h:190-289 | no bytes that decode to a value are fewer than its encoding: the narrowest form is always chosen |
| MsgPackWriter.PackUint8 | src/Common/MsgPack.h:183-188 | writes a small unsigned integer at the place given and returns its length, or returns 0 exactly when it does not fit; nothing outside the room given changes |
| MsgPackWriter.PackInt | src/Common/MsgPack.h:192-214 | writes a 64-bit integer in its narrowest form at the place given and returns its length, or returns 0 exactly when it does not fit; nothing outside the room given changes |
| MsgPackWriter.PackBool | src/Common/MsgPack.h:216-220 | writes a boolean at the place given and returns its length, or returns 0 exactly when it does not fit; nothing outside the room given changes |
| MsgPackWriter.PackFloat64 | src/Common/MsgPack.h:170-179 | writes the 64 bits of a double, high-order byte first, at the place given and returns its length, or returns 0 exactly when it does not fit; nothing outside the room given changes |
| MsgPackWriter.PackBinHeader | src/Common/MsgPack.h:135-156 | writes the header of a binary at the place given and returns its length, or returns 0 exactly when it does not fit; nothing outside the room given changes |
| MsgPackWriter.PackBin | src/Common/MsgPack.h:158-164 | writes a binary with its header at the place given and returns its length, or returns 0 exactly when it does not fit; nothing outside the room given changes |
| MsgPackWriter.PackStr | src/Common/MsgPack.h:225-248 | writes a string with its header at the place given and returns its length, or returns 0 exactly when it does not fit; nothing outside the room given changes |
| MsgPackWriter.PackArrayHeader | src/Common/MsgPack.h:251-268 | writes the header of an array at the place given and returns its length, or returns 0 exactly when it does not fit; nothing outside the room given changes |
| MsgPackWriter.PackMapHeader | src/Common/MsgPack.h:272-289 | writes the header of a map at the place given and returns its length, or returns 0 exactly when it does not fit; nothing outside the room given changes |
| Announce.Builder.Slot | src/Discovery/Announce.h:162-167 | the field with the tag, or a new last one |
| Announce.SummariseUpdate | src/Discovery/Announce.h:90-94 | setting a tag again keeps the fields a summary of the calls |
| Announce.SummariseAppend | src/Discovery/Announce.h:164-166 | setting a new tag keeps the fields a summary of the calls, with the tag last |
| Announce.Builder.SetStr | src/Discovery/Announce.h:90 | after setting a string the fields are still the distinct tags in first-set order with their last-set values |
| Announce.Builder.SetInt | src/Discovery/Announce.h:91 | after setting an integer the fields are still the distinct tags in first-set order with their last-set values |
| Announce.Builder.SetFloat | src/Discovery/Announce.h:92 | after setting a double the fields are still the distinct tags in first-set order with their last-set values |
| Announce.Builder.SetBool | src/Discovery/Announce.h:93 | after setting a boolean the fields are still the distinct tags in first-set order with their last-set values |
| Announce.Builder.SetBin | src/Discovery/Announce.h:94 | after setting a binary the fields are still the distinct tags in first-set order with their last-set values |
| Announce.Builder.SerializeUnstamped | src/Discovery/Announce.h:119-141 | the packed map, and nothing if and only if the whole encoding exceeds 1024 bytes |
| Announce.UnstampedReads | src/Discovery/Announce.h:119-141 | what fits decodes to a map of exactly the fields, with nothing left over |
| Announce.EntryAt | src/Discovery/Announce.h:126-139 | entry n of that map is tag and value of field n |
| Announce.FrameReads | src/Discovery/Announce.h:146-155 | in a stamped frame the map is found after the flags and ends where the 32-byte stamp starts |
| Announce.StampedLayout | src/Discovery/Announce.h:146-155 | for every stamp: a zero octet, the packed map and the stamp if it has 32 octets, and nothing otherwise |
| Fragments.ReplaceExpands | extra_script.py:111-115 | replacing a placeholder by its fragment does not change the expansion of the page |
| Fragments.SoundIffFits | extra_script.py:106-110 | no chain of references leaves the fragments or runs in a circle if and only if every chain ends within as many names as there are fragments |
| Fragments.ReachesAfter | extra_script.py:110-115 | a replacement loses no reference but the one replaced |
| Fragments.ReachesBefore | extra_script.py:110-115 | a replacement adds no reference that was not reachable before |
| Fragments.Round | extra_script.py:110-115 | a round in any order takes one level of references away |
| Fragments.Embed | extra_script.py:99-126 | succeeds if and only if every reachable placeholder names a fragment, nothing reachable is circular and every fragment is reachable; then the result is the full expansion, whatever the order, in at most len(frags) rounds; the failures tell which |
| Fragments.UncheckedWithoutFragments | extra_script.py:102 | without fragment files, where the page is delivered as it is, it is sound if and only if it has no placeholder |
| PartitionLayout.AlignUpIsLeast | Release/esptool/gen_esp32part.py:185-189 | an omitted offset becomes the least aligned address at or past the previous end |
| PartitionLayout.LaidOnBoundary | Release/esptool/gen_esp32part.py:185-189 | an omitted offset is the next multiple of 0x10000 for an app and of 0x1000 otherwise |
| PartitionLayout.FixUp | Release/esptool/gen_esp32part.py:173-194 | lays out the entries in place, or fails at the first given offset before the end of the previous entry |
| PartitionLayout.OneLayout | Release/esptool/gen_esp32part.py:173-194 | the layout is determined by the entries |
| PartitionLayout.FailureIsFinal | Release/esptool/gen_esp32part.py:176-184 | where the layout loop fails, no layout of the entries exists |
| PartitionLayout.LaidAt | Release/esptool/gen_esp32part.py:173-194 | every layout puts each entry at the address computed from the entries before it alone |
| PartitionLayout.InOrderIff | Release/esptool/gen_esp32part.py:190-192 | a layout is in increasing, disjoint order after the table if and only if no entry with a negative size names an end before the start computed from the entries alone |
| PartitionLayout.BackwardsEntryOverlaps | Release/esptool/gen_esp32part.py:190-192 | an accepted layout with such an entry in which two others overlap |
| PartitionVerify.CheckOverlaps | Release/esptool/gen_esp32part.py:242-249 | passes if and only if all entries are above the table and each ends at or before every entry sorted after it |
| PartitionVerify.SeparateIsDisjoint | Release/esptool/gen_esp32part.py:242-249 | entries that pass share no address |
| PartitionVerify.SeparateIff | Release/esptool/gen_esp32part.py:242-249 | for every table, the check of neighbours passes if and only if no two entries share an address and no entry without positive size starts inside one sorted before it |
| PartitionVerify.DisjointIsSeparate | Release/esptool/gen_esp32part.py:242-249 | in particular entries of positive size that share no address pass |
| PartitionVerify.EmptyEntryReported | Release/esptool/gen_esp32part.py:247 | an empty entry, listed after one at the same offset, is reported although nothing overlaps |
| PartitionVerify.VerifyEntry | Release/esptool/gen_esp32part.py:412-425 | the checks of one entry, and which of them failed |
| PartitionVerify.Verify | Release/esptool/gen_esp32part.py:225-261 | passes if and only if offsets are aligned, names unique, ranges separate and the otadata entry single and 8 KiB; a reported fault is present |
| PartitionVerify.AcceptableOffsets | Release/esptool/gen_esp32part.py:242-244 | every table that passes has its apps on multiples of 0x10000 and the others of 0x1000, all past the table; with secure boot the sizes of apps too |
| PartitionVerify.AcceptableOtadata | Release/esptool/gen_esp32part.py:251-261 | every table that passes has at most one entry of type 1 and subtype 0, of size 0x2000 |
| PartitionVerify.FlashSizeIff | Release/esptool/gen_esp32part.py:263-271 | in every table that passes, with g the first entry at the greatest offset: for a size of g that is not negative, the flash size is the last end if and only if no later entry at that offset has a positive size; for a negative one, if and only if the others at that offset end no later and those below leave at least that much room |
| PartitionVerify.FlashSizeOfNonEmpty | Release/esptool/gen_esp32part.py:263-271 | for non-empty entries that pass, the flash size is always the last end |
| PartitionVerify.FlashSizeTooSmall | Release/esptool/gen_esp32part.py:263-271 | an acceptable table, with an empty entry, whose flash size is less than its last end |
| PartitionVerify.FlashSizeBackwards | Release/esptool/gen_esp32part.py:263-271 | an acceptable table, with an entry told to end before its start, whose flash size is less than its last end |
| PartitionBinary.EntryReadsBack | Release/esptool/gen_esp32part.py:440-469 | an entry in range reads back as itself, with the part of its name that the field keeps |
| PartitionBinary.KeptIff | Release/esptool/gen_esp32part.py:446-447 | the field keeps a whole name if and only if it has at most 16 bytes and no NUL |
| PartitionBinary.EntryIsNoMark | Release/esptool/gen_esp32part.py:292-294 | no entry is taken for an end marker or a checksum |
| PartitionBinary.FromBinary | Release/esptool/gen_esp32part.py:285-302 | the reading loop answers what the reader of the table format does, of which ReadIff says what that is |
| PartitionBinary.ReadIff | Release/esptool/gen_esp32part.py:285-302 | for every input: read successfully if and only if the records before an end marker are entries with their magic and checksums equal to the digest of the entries before them; the wrong checksum, the wrong magic, the short record and the missing marker likewise, each exactly when it is what comes first |
| PartitionBinary.WrongChecksum | Release/esptool/gen_esp32part.py:294-298 | a checksum that is not the digest of the entries before it is reported, whatever follows |
| PartitionBinary.EntryLayout | Release/esptool/gen_esp32part.py:437-469 | where the fields of an entry stand, byte by byte, numbers low-order byte first |
| PartitionBinary.ChecksumLayout | Release/esptool/gen_esp32part.py:307 | a checksum is EB EB, fourteen FF and the digest |
| PartitionBinary.ToBinaryIff | Release/esptool/gen_esp32part.py:304-311 | a table can be written if and only if all fields are in range and it has at most 94 entries, 95 without checksum; the result fills the sector part |
| PartitionBinary.TailRead | Release/esptool/gen_esp32part.py:294-296 | the checksum over the entries is accepted, and the padding ends the table |
| PartitionBinary.RoundTrip | Release/esptool/gen_esp32part.py:284-311 | what is written reads back: the table itself if and only if all names fit their field |
| Improv.NextMatch | src/Improv.h:291-304 | the index is the length of the longest beginning of the magic that ends the traffic so far |
| Improv.Parser.OnByte | src/Improv.h:285-343 | an octet moves the parser, with its running checksum, as the packet format says; consumed exactly when a packet is under way |
| Improv.Parser.ResetParser | src/Improv.h:173-179 | the parser waits for a new magic |
| Improv.Feed | src/Improv.h:285-343 | a whole stream: the packets dispatched and the octets passed on |
| Improv.NoEarlyMagic | src/Improv.h:292-296 | after traffic without the magic, a magic is recognised at its last octet and no earlier |
| Improv.PacketParses | src/Improv.h:285-343 | from any waiting state, traffic without the magic and then a packet: exactly that packet is dispatched, exactly the traffic and the magic are passed on |
| Improv.LastOctetDecides | src/Improv.h:333-341 | a packet with any last octet: dispatched if that is the sum of all others modulo 256, and otherwise an error and nothing else |
| Improv.OtherVersion | src/Improv.h:311-312 | after another version octet nothing is dispatched and the parser waits for a new magic |
| Improv.DispatchIff | src/Improv.h:285-343 | for every stream: its last octet dispatches a packet if and only if the stream ends in a recognised magic and that packet with the right checksum, an error if and only if with a wrong one, and nothing in all other cases |
| Improv.StreamParses | src/Improv.h:285-343 | any sequence of packets with traffic between them: all packets in order, and all traffic and magics passed on |
| Improv.WriteFrame | src/Improv.h:115-130 | the octets of the frame, checksum included, for payloads of up to 255 octets |
| Improv.OnTheWire | src/Improv.h:115-130 | the octets of two packets |
| Improv.WrittenCut | src/Improv.h:150-163 | strings are carried in order, and one is cut only where the 255 octets, or all but one of them, are used up |
| Improv.SendRpcResult | src/Improv.h:144-166 | at most 255 octets, with the inner length of what follows it |
| Improv.ReadPrefixed | src/Improv.h:150-163 | the length-prefixed strings read back |
| Improv.WrittenWhole | src/Improv.h:150-163 | all strings are carried whole if and only if they fit, an empty last one in one octet less |
| Hdlc.Encode | src/HDLC.h:13-27 | appends the frame of the payload |
| Hdlc.EscapedPairs | src/HDLC.h:18-25 | 7E becomes 7D 5E, 7D becomes 7D 5D, no other octet changes, and a frame stands between two 7E |
| Hdlc.StuffHasNoFlag | src/HDLC.h:18-25 | no octet inside a frame is the flag |
| Hdlc.UnstuffStuff | src/HDLC.h:43-51 | undoing the escapes gives the payload |
| Hdlc.Decoder.Feed | src/HDLC.h:34-51 | for every stream: the frames handed over are the non-empty stretches between flags with escapes undone |
| Hdlc.Decode | src/HDLC.h:29-60 | for a whole stream: the non-empty stretches between flags with escapes undone, in order |
| Hdlc.StreamDecodes | src/HDLC.h:13-60 | after any octets at all, frames deliver exactly their non-empty payloads, in order |
| Kiss.EscapeIsBytewise | Python Module/RNode.py:71-75 | the host's two replacement passes give what the device writes byte by byte |
| Kiss.NoFendInside | src/Utilities.h:832-836 | no byte of an escaped body is the delimiter |
| Kiss.EscapedPairs | src/Utilities.h:832-836 | C0 becomes DB DC, DB becomes DB DD, and no other byte changes |
| Kiss.DataOnTheWire | Python Module/RNode.py:338 | a data frame is C0 00, the escaped packet and C0 |
| Kiss.NumberOnTheWire | src/Utilities.h:953-971 | a report is C0, its command 01 or 02, four escaped bytes, high-order first, and C0 |
| Kiss.ReadOffTheWire | Python Module/RNode.py:427-485 | a ready signal and a one-byte report, read off the wire |
| Kiss.Reader.OnByte | Python Module/RNode.py:367-485 | one byte through the loop: the new state, what is delivered and which value is recorded |
| Kiss.DataFrameRuns | Python Module/RNode.py:372-395 | a data frame of any length delivers one packet, the one sent if and only if it has at most 500 bytes and no escape left over from a cut frame meets a first byte 0xDC or 0xDD |
| Kiss.LeftoverEscape | Python Module/RNode.py:387-395 | a frame cut short after an escape, and after it a packet 0xDC that arrives as 0xC0 |
| Kiss.NumberFrameRuns | src/Utilities.h:953-971 | a reported 32-bit value is delivered once, and is the one sent if and only if no leftover escape meets a first byte 0xDC or 0xDD |
| Kiss.FrameLost | Python Module/RNode.py:372-381 | a frame that starts inside an unfinished data frame is lost, and the reader is then in step |
| Kiss.ConversationRuns | Python Module/RNode.py:358-426 | any mixture of data of up to 500 bytes and reports: every payload and value, in order, and nothing else |
| Kiss.Sender.Write | Python Module/RNode.py:327-343 | the bytes written: identification if due, then the data frame; with flow control the interface is no longer ready |
| Kiss.Sender.Send | Python Module/RNode.py:325-348 | what is on the wire is the frames of the packets sent, in the order of submission, and nothing else but identifications in front of some; an idle interface writes the packet at once, a busy one writes nothing and queues it last |
| Kiss.Sender.ProcessQueue | Python Module/RNode.py:350-356 | when the device is ready the frame of the oldest packet is written, behind the identification if due; with nothing queued the interface becomes ready |
| Preamble.WantedOf | src/sx128x.cpp:283-289 | the number compared with is four less than the target, which counts as 0xF000 at most, and wraps in 32 bits below 4 |
| Preamble.Search | src/sx128x.cpp:283-295 | the loops end at the first pair that reaches the target, with exponent at most 12, or at exponent 16 when nothing does |
| Preamble.FirstIsLeast | src/sx128x.cpp:286-295 | that pair has the fewest symbols of all representable pairs that reach it |
| Preamble.LengthAsTarget | src/sx128x.cpp:297-299 | used as a target, the resulting length finds the same pair |
| Preamble.Modem.SetPacketParams | src/sx128x.cpp:279-306 | a target of at least 4 gives the least sufficient pair; a cached target and the resulting length change neither pair nor length |
| Preamble.SmallTargetDrifts | src/sx128x.cpp:289 | a target below 4 wraps, and its length does not stay |
| Announcer.Announcer.Select | src/Discovery/Announcer.h:205-225 | the due interface that is stalest, the first of equals |
| Announcer.Announcer.Tick | src/Discovery/Announcer.h:187-293 | when a tick submits, what it records, and when it does not; while the worker is busy it does neither |
| Announcer.SinceWraps | src/Discovery/Announcer.h:216-217 | the time since an announce is the difference of two 32-bit times, which wraps |
| Announcer.AnnouncedChosenIff | src/Discovery/Announcer.h:205-225 | an interface announced before is chosen if and only if its interval is over, it is the stalest, the first of equals, and no new one listed before it is just as stale |
| Announcer.NewChosenIff | src/Discovery/Announcer.h:205-225 | an interface never announced is chosen if and only if it is the first such one and every announced one is less than its interval ago, or at most that if listed later |
| Announcer.SomeChosen | src/Discovery/Announcer.h:205-225 | where any interface is due, one is chosen |
| Announcer.SubmissionsApart | src/Discovery/Announcer.h:216-218 | in every run two submissions of one interface lie at least the interval apart |
| Announcer.WaitIsBounded | src/Discovery/Announcer.h:205-224 | each submission takes one of those ahead of a waiting interface, and nothing puts one there |
| Announcer.WaitsForEachOnce | src/Discovery/Announcer.h:205-224 | a due interface that has been announced waits for at most N - 1 other submissions, and for at most N - 1 ticks if it and those that go before it can be built |
| Announcer.NobodyAhead | src/Discovery/Announcer.h:205-224 | when nobody is ahead of it, it is selected |
| Announcer.TurnIff | src/Discovery/Announcer.h:205-240 | in every run, an overdue interface has its turn within N ticks if and only if it can be built and so can every announced one that goes before it: staler, or as stale and listed earlier |
| Announcer.BlockedWaits | src/Discovery/Announcer.h:235-240 | in every run, an interface behind one that cannot be built is never submitted: announced after it, or new when that one is overdue, or new and listed after a new one |
| Announcer.BlockedInBetween | src/Discovery/Announcer.h:235-240 | at concrete times: the stalest of three has its turn, and then the last waits behind the one that cannot be built |
| Announcer.NotBlocked | src/Discovery/Announcer.h:235-240 | at concrete times: announced before the one that cannot be built, an interface has its turn |
| Announcer.UnbuildableBlocks | src/Discovery/Announcer.h:235-240 | in particular, from when an interface that cannot be built is overdue and the stalest of all, it stays so and no tick ever submits anything |
| Announcer.NewHasTurn | src/Discovery/Announcer.h:205-225 | when N ticks pass in less than the interval, an interface never announced is submitted in one of them, or a job for it ends, unless one that cannot be built comes before it meanwhile |
| Announcer.LastStarves | src/Discovery/Announcer.h:205-225 | for all numbers of interfaces, tick periods and intervals: where fewer ticks than interfaces take an interval, the first ones take turns and the last is never submitted |
| Announcer.AllHaveTurnsIff | src/Discovery/Announcer.h:205-225 | for ticks t apart, every new interface of N has its turn in every run if and only if (N - 1) * t is less than the interval |
| Announcer.SixthStarves | src/Discovery/Announcer.h:205-225 | so with a five-minute interval and a tick each minute, the sixth of six interfaces is never submitted |
| Announcer.Serve | src/Discovery/Announcer.h:187-293 | every sequence of turns of the main loop and callbacks of the worker is such a run, with its ticks at least the tick period apart |

## Left out

- SpiffsReader.ReadFileBack: assumes that the object name has no NUL byte, because the reader of a fixed-width name stops there.
- SpiffsConfig.PageShiftExact: takes the logarithm and its floor exactly; rounding of the floating-point logarithm and of the division in the number of lookup pages is not modelled.
- SpiffsFs.SpiffsFS.ToBinary: is proved for its first call; the code leaves magic numbers in the lookup pages and uses up the remaining blocks, so a second call would give a different image.
- SpiffsFs.SpiffsFS.CreateFile: names are bytes; the difference between characters and their UTF-8 encoding is not modelled, nor is reading the file.
- SpiffsGenerate.GenerateImage: asks for a page size that is a power of two and a multiple of the id length, page numbers no wider than the block index that the limits are computed with, and at least one usable page in a block; the formulas of the source rest on these. Walking the directory is not modelled.
- SpiffsPages.SpiffsBlock.ToBinary: data and lookup pages are values and index pages objects; the one list of pages is split into lookup pages and the others.
- Subclass dispatch among page classes, and the `packed` and `aligned` flags, which the image does not depend on.
- ConcludeTheorems.ConcludeReadsCompleteFile: assumes that input and output succeed, that resources have distinct paths shorter than 96 bytes, that parts are cut from one body, and that no part follows its conclusion.
- ConcludeOrder.OrderedLoop: does not cover the inline conclusion after a failed allocation in the deferrer, which does not wait for the queue.
- Decryption, proofs and callbacks of a concluded resource belong to microReticulum and are not part of this model.
- Diagnostic counters and timing of the receive path.
- Md5.Context.Final: the block of decoded words in the context, and pointer arithmetic, are not modelled; words are taken from the bytes each time.
- MsgPack.SkipElement: sizes are unbounded; wrap-around of a 32-bit `size_t` is not modelled.
- MsgPackEncode.SkipEncoded: 32-bit array and map headers, and `ext` with a separate size, which the skipper refuses, are decoded by the reference reader only.
- MsgPackWriter.PackFloat64: a double is its 64 bits; which number they stand for is not modelled.
- The named convenience setters of the announce builder, which call the five modelled ones.
- Fragments.Embed: pages are sequences of markup and placeholders; a placeholder that only arises where two pieces of markup meet, and fragment names that the leftover pattern does not match, are not modelled. The sorted list in the message is a set.
- The rest of the build script: style versions, routes and compression.
- PartitionLayout.FixUp: starts from parsed entries; splitting lines, keywords and number suffixes are not modelled.
- PartitionVerify.Verify: an unset type or subtype and the warnings about names are not modelled.
- PartitionBinary.RoundTrip: names are ASCII bytes; decoding of other encodings is not modelled. The running checksum object stands as the bytes it was fed.
- Improv.StreamParses: the reset after a second without input, and the effects of dispatched commands, are not modelled.
- Kiss.Reader.OnByte: the idle timeout and the transfer statistics commands, which end the reading thread with a type error, are not modelled; one-byte fields are events with their command.
- Kiss.Sender.Send: writing to the serial port always succeeds; the clock is a parameter.
- Preamble.Modem.SetPacketParams: the other packet parameters and the radio itself.
- Announcer.Serve: assumes fixed interfaces and interval, a clock that does not wrap and a stamp worker that takes every job.
- Announcer.Announcer.Tick: building and encoding an announce are one flag per interface; counters are not modelled.
- Radio, display, file systems, web server, settings and hardware drivers, which act through libraries that are not part of this model.

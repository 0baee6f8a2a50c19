# A model of the LZW codec, the Dragon DOS file store and the Disk BASIC granules

This project models three parts of the repository and proves what each is for.

**The LZW codec of `ar2`** (`ar2/lz1.c`). `Compressor` and `Decompressor` are the
two halves with their global variables as fields: the trie of sorted sibling
chains, the 14-word buffer that codes of growing width are packed into, the
decoder's table that is one entry late, and its reversal stack. Their methods are
proved equal to functions on values (`Codec.Compress`, `Codec.Decode`), and the
laws are about those functions: `LzwTheorems.RoundTripAppended` says that
decompressing what was compressed onto the end of an archive gives the bytes back
and consumes exactly the bytes counted, exactly when no phrase is longer than the
stack. `Archive` runs both halves over an archive of many members.

**The Dragon DOS file store** (`libdragondos`). `DragonVolume.Volume` is a disk
with the one path that may be open on it: bitmap, directory, sectors and the
path's fields. `Dskinit` makes `Valid` hold and every call keeps it, so it holds in
every state reached from a blank disk by making, opening, writing, resizing,
reading, protecting, renaming, killing and closing files. It says that the
directory is a set of chains of entries with different names, that a continuation
ending a chain has an extent in use, and that every sector has one owner: free,
past the end, reserved, set aside for the open file, or one sector of one file
(`DragonContent.EverySector`). Above it, `Stored` is the map from names to byte
strings that the disk holds, and each call is specified by what it does to that
map, to the number of sectors free or set aside, and to the number of directory
entries free: with what the open file has of each they are always the same
(`SectorsHeld`, `EntriesHeld`), and each call says what it has. `Exact` says that
the path's size is the one that the directory gives; every call keeps it but for
one corner of the arithmetic (below), and the calls are specified there too.

**The granules of Disk BASIC** (`libdecb`). `DecbDisk.Disk` is the sectors and the
table with the fields of the path that is open: the zig-zag search for a free
granule, growing a chain, the size that the last link encodes, reading and writing
across granules; and the directory, with making, opening, killing and closing
files by name. `Valid` says that every granule is free, another system's, or in one
file once (`DecbFat.EveryGranule`), and that every file has one entry of its own
name. `Stored` is the map from names to byte strings.

| file | what is in it |
|---|---|
| `Bits`, `Words` | bytes, 16-bit words, bit strings; inserting and fetching a code in words |
| `Packing`, `Layout` | the writer and the reader of codes; where each code of a stream lies |
| `Trie` | the encoder's table against the dictionary it stands for |
| `Lzw` | phrases, codes, the decoder on codes, and the bound on phrases |
| `Codec`, `LzwTheorems` | whole members: what is written, what is read, and the laws |
| `Compressor`, `Decompressor` | the code itself |
| `Archive` | an archive of members, written by one compressor and read by one decompressor |
| `Counting` | how many flags are set |
| `Blocks` | byte strings kept in blocks of one length: reading and writing them |
| `DragonBitmap` | the bitmap and the search of `_dd_allocate` |
| `DragonOwner` | who has each sector |
| `DragonDir`, `DragonChange`, `DragonCut` | entries, extents and chains; changes to them; cutting them short |
| `DragonSound` | bitmap, directory and files together |
| `DragonGrow` | which sectors a growing file is given, the extents they take, and when it can grow |
| `DragonContent` | the bytes of files and the map from names to bytes |
| `DragonVolume` | the calls |
| `DecbSearch`, `DecbFat` | the search for a granule; the table, its chains and sizes |
| `DecbDir` | names, how they are compared, and the directory |
| `DecbDisk` | the calls |

## What the proofs found

- The comment at `ar2/lz1.h:81-89` says that a code of length N needs N(N-1)/2
  input bytes. To enter the table it does; to be *emitted*, which is what reaches
  the stack, it needs N(N+1)/2 (`Lzw.PhraseCost`), and a run of one byte needs no
  more (`Lzw.RunReachesCost`). So the stack of 2000 is safe for every input below
  2003001 bytes, and for every input at all with 11 bits or fewer, and for no
  other bound (`Lzw.StackBound`).
- `lz1_init` (`ar2/lz1.c:408-451`) resets neither `offset` nor the static `size` of
  `getcode`. After a member the reader is ready for the next, except after a
  member of 299 bytes (257 codes) with more than 9 bits allowed: the width grows
  right after its last code and in the middle of a group, so the reader still holds
  the rest of that group, and takes stale codes for the start of the next member
  (`LzwTheorems.NextMember`, an if and only if, and `LzwTheorems.RisingIs299`, an
  input that compresses to 299 bytes). An archive in which no member but the last
  is of that size comes back whole (`Archive.StoreAndRestore`).
- `grow` (`libdragondos/libdragondoswrite.c:114-231`) counts sectors in `u_int`. An
  *empty* file given a size above 2^32 - 256 needs no sectors by that count, and
  the call succeeds. `DragonSound.NeededExact` says that this is the only case;
  `DragonVolume.Volume.SetSize` that a change of size leaves the path with the size
  of the directory if and only if it is not that case (`Sizeable`); and
  `DragonVolume.EmptyFileGrown` is a disk and a file for which it is.
  `_dd_truncate` wraps at the same size (`DragonCut.KeepExact`).
- `_dragondos_write` adds the position and the count in `u_int`. A write of one byte
  or more whose end is not counted right never succeeds, and one whose end is
  counted right never finds a sector missing (`DragonVolume.Volume.Write`, with
  `Sizeable` as the condition).
- The comment at `libdragondos/libdragondosbitmap.c:195-207` says that failing two
  free tracks in a row the lowest track found with its first sector free is taken.
  The code forgets a track when the next one out is not free, so it takes track 0
  or none (`DragonBitmap.Bitmap.LookDown`). `DragonBitmap.LowestTaken` says when that
  is the lowest track all the same, and `DragonBitmap.LowestForgotten` is a disk for
  which it is not.
- The comment at `libdragondos/libdragondoswrite.c:144-145` says that sectors set
  aside that do not follow the file are used only when none that do can be had. The
  code changes them for whatever run the search gives, which need not follow the file
  either, whenever any sector is free (`DragonVolume.Volume.SettleSpare`,
  `DragonVolume.Volume.GrowSectors`).
- `_decb_write` (`libdecb/libdecbwrite.c:18-177`) that starts past the end of the
  file writes nothing and returns `EOS_EOF`, but leaves the count at what was asked
  for; so does one on a path not open for writing. The count is the number of bytes
  written if and only if the path may write and the position is at or before the
  end, or nothing was asked for (`DecbDisk.Disk.Write`; `DecbDisk.CountPastEnd` is a
  new disk and file for which it is not).
- A file grows by n sectors whenever n sectors are free or set aside for it and a
  seventh as many directory entries are free. Exactly, it grows if and only if the
  runs that the search gives one after the other hold n sectors and take no more
  extents than its last entry and the free entries have room for
  (`DragonVolume.Volume.Grow`; the runs are determined, `DragonGrow.RunsAgree`). A
  growth that succeeds takes one entry for every seven sectors at the most, and one
  that fails none.
- `_decb_create` compares names in full and `_decb_open`, through which it kills the
  file in the way, without regard to case and as the path gives them. So making a
  file that is there takes with it those that differ in case and come before
  (`DecbDisk.CaseReplaced`), and it calls itself for ever if and only if the file is
  there and the name as cut to 8 and 3 characters is not the path's name
  (`DecbDisk.Disk.Create`, `DecbDir.FitsWhen`; `DecbDisk.LongNameEndless`).
- `extend_fat_chain` takes an `int`: for a file asked to end at 2^31 or more, what it
  sets as the last link and the last sector size are such only for the sizes that
  `DecbFat.NegativeSize` names.

## Model

| member | source | states |
|---|---|---|
| Compressor.Compressor.Init | ar2/lz1.c:408-430 | The table is the empty dictionary of 256 single bytes whatever was in it, width and limit are those of 9 bits; `offset` is not touched. |
| Compressor.Compressor.InsertBit | ar2/lz1.c:241-263 | The mask and shift operations put the bits of the code, most significant first, at the offset of the buffer and change no other bit. |
| Compressor.Compressor.WriteBuffer | ar2/lz1.c:212-233 | The first `cnt` bytes of the buffer go to the file, high byte of a word first, and are counted; the buffer keeps its bits. |
| Compressor.Compressor.Output | ar2/lz1.c:177-206 | One code, or the flush: which bytes are written, when a group is padded out, when the width grows and with what limit. |
| Compressor.Compressor.AddEntry | ar2/lz1.c:146-171 | The dictionary grows by (prefix, byte) unless it is full, and the linked table still represents it. |
| Compressor.Compressor.LinkIn | ar2/lz1.c:153-167 | The new entry is spliced into the sibling chain so that the table represents the dictionary with the entry added. |
| Compressor.Compressor.Search | ar2/lz1.c:117-132 | The early-exit search of a sorted chain finds exactly what lookup in the map from (prefix, byte) to code gives. |
| Compressor.Compressor.LZ1 | ar2/lz1.c:80-140 | What is written and counted is `Compress` of the input: the tag, the codes of the greedy parse, packed, and the flush. The first two bytes it adds are the number 2995, high byte first, and what was in the file stays before them. |
| Trie.SearchEnds | ar2/lz1.c:117-131 | Where the chain ends or its suffix passes c there is no child for c; where the suffix is c it is the only one. |
| Trie.Grown | ar2/lz1.c:153-169 | A table with the entry linked in represents the grown dictionary: every chain ascends strictly by suffix and holds exactly the children. |
| Trie.LinkedFirst | ar2/lz1.c:158-160 | Linking in before the head of a chain, when the new suffix is the least. |
| Trie.LinkedAfter | ar2/lz1.c:161-166 | Linking in after the last sibling with a lesser suffix. |
| Trie.TableStrings | ar2/lz1.c:115-132 | In a table that represents a dictionary different codes are different strings, every non-empty beginning of a string in the table is in it, and the search from a code by a byte finds a code exactly when that is the code of the string with the byte after it. |
| Words.InsertWordsBits | ar2/lz1.c:245-263 | `insert_bit`'s two cases on words are one insertion into the bit string of the buffer, for every offset and width. |
| Words.FetchBits | ar2/lz1.c:357-372 | `fetch`'s two cases on words give the number in the bits at the offset, for every offset and width. |
| Words.FilledWords | ar2/lz1.c:378-402 | `readbuf`'s words, with an odd last byte in a high half, are the bytes read followed by the bits that were there. |
| Decompressor.Decompressor.Init | ar2/lz1.c:408-450 | The decoder's table is the empty dictionary; `offset` and `size` are not touched. |
| Decompressor.Decompressor.ReadBuffer | ar2/lz1.c:378-402 | All of the bytes asked for are read into the buffer, or at the end of the file the buffer stays as it was. |
| Decompressor.Decompressor.Fetch | ar2/lz1.c:357-372 | The code at the offset of the buffer. |
| Decompressor.Decompressor.NextGroup | ar2/lz1.c:335-349 | A group of `n_bits` bytes or what is left of the member is read, and `size` rounded down to whole codes. |
| Decompressor.Decompressor.GetCode | ar2/lz1.c:325-355 | The next code or -1, with the width change, the group reading and the reader's new state. |
| Decompressor.Decompressor.PushPhrase | ar2/lz1.c:289-300 | What is on the stack, from the top down, is the phrase of the code with the KwKwK byte after it; it fails exactly when the stack of 2000 is too small. |
| Decompressor.Decompressor.PopPhrase | ar2/lz1.c:303-306 | The stack goes out from the top down. |
| Decompressor.Decompressor.TakeCode | ar2/lz1.c:289-315 | One round of the loop is one step of the decoder on codes: its output, its new entry and its previous code. |
| Decompressor.Decompressor.DeLZ1 | ar2/lz1.c:269-319 | The outcome, the bytes put out and the reader's state are those of `Decode`. A member is refused, with nothing put out, if and only if the two bytes at the position, high byte first, are not there or are not the number 2995. |
| Layout.NextPlace | ar2/lz1.c:187-204 | The next code follows in its group, or starts the next group when the group is full or the width has grown; widths stay within `maxbits`. |
| Layout.PlacesAscend | ar2/lz1.c:187-204 | No two codes of a stream overlap, at any distance and across width changes. |
| Layout.CodeFits | ar2/lz1.c:194-204 | Every code the dictionary has by then, or is about to get, fits the width of its place. |
| Layout.WriterPacks | ar2/lz1.c:177-233 | From an empty buffer with any stale bits in it, any codes put out and flushed lie in the bytes written at their places, and the bytes are counted. |
| Layout.GroupBoundary | ar2/lz1.c:329-349 | The reader changes width at the code where the writer did, and reads a group exactly when the next code is in a new one or there is none; stray bits of the last group are not taken for a code. |
| Layout.GetCodeTakes | ar2/lz1.c:325-355 | A reader that has taken j codes of a packed stream takes code j next, with the free entry one behind the writer's. |
| Layout.GetCodeEnds | ar2/lz1.c:335-341 | After the last code the reader finds the end, with every byte of the member read. |
| Lzw.ExpandInStep | ar2/lz1.c:288-300 | A code from an encoder one entry ahead is at most the decoder's first free entry, and expands to the encoder's phrase, also when the decoder has no entry for it yet. |
| Lzw.LaterCode | ar2/lz1.c:289-293 | A code above the first free entry, which no encoder writes, expands as that entry does: to the phrase before it and the byte that began it. |
| Lzw.StaysInStep | ar2/lz1.c:121-124 | After a code both dictionaries have grown by the same entry, the decoder's one code later. |
| Lzw.PhrasesDiffer | ar2/lz1.c:146-151 | No two codes of a dictionary without repeated pairs denote the same string. |
| Lzw.CodesRoundTrip | ar2/lz1.c:107-135 | For every non-empty string and every table size, decoding its codes gives it back if its longest emitted phrase fits the stack, and overflows the stack if not. |
| Lzw.PhraseCost | ar2/lz1.h:81-89 | The longest phrase emitted, n, satisfies n(n+1)/2 <= input length and n <= table size + 1. |
| Lzw.RunReachesCost | ar2/lz1.h:81-89 | A run of one byte emits a phrase as long as that bound allows. |
| Lzw.StackBound | ar2/lz1.h:81-90 | No input up to a length overflows the stack if and only if the length is below 2003001 or the table has fewer than 2000 entries. |
| Codec.DecodeFromPacked | ar2/lz1.c:282-318 | Decoding the bytes of a packed stream is decoding its codes, from any code on. |
| Codec.CompressAppends | ar2/lz1.c:80-140 | Compressing onto a file appends exactly what compressing onto an empty one writes, and counts the same. |
| Codec.Refused | ar2/lz1.c:275-276 | `Decode` refuses a member if and only if it does not begin with the number 2995; it has then read two bytes, or what there was of them, and changed nothing else. |
| Codec.TagFirst | ar2/lz1.c:102-104 | Whatever is compressed onto a file, what is added begins with that number. |
| Codec.FirstByteOut | ar2/lz1.c:278-286 | With the tag there, the member has no code and nothing is put out, or the first byte put out is its first code of nine bits, cut to eight. |
| LzwTheorems.CountsWhatItWrites | ar2/lz1.c:135-139 | `*bytes` is the number of bytes written, and `offset` is 0 for the next member. |
| LzwTheorems.OneByte | ar2/lz1.c:80-140 | The member of one byte b is four bytes: 11, 179, b / 2, and one whose highest bit is the lowest of b. |
| LzwTheorems.Capacities | ar2/lz1.c:146-151 | The table holds 255, 767, 1791, 3839, 7935 or 16127 strings of two bytes or more for 9 to 14 bits. |
| LzwTheorems.DecodeReceives | ar2/lz1.c:269-319 | From a reader that holds no code, decoding a stored member is decoding its codes, and ends with its last byte. |
| LzwTheorems.RoundTrip | ar2/lz1.c:80-140 | `de_LZ_1` on a member stored anywhere in a file gives the input and consumes exactly the bytes counted if no phrase is longer than the stack, and fails if one is. |
| LzwTheorems.RoundTripBounded | ar2/lz1.c:80-140 | So every input below 2003001 bytes comes back for every `maxbits` of 9 to 14, and every input with `maxbits` up to 11. |
| LzwTheorems.StoredWhereWritten | ar2/ar.c:488-512 | What `LZ_1` adds to an archive that holds anything is the member stored at the archive's old end, whatever is added after it. |
| LzwTheorems.RoundTripAppended | ar2/ar.c:723-770 | A member added to an archive that holds anything comes back from a reader set on its start, which stops at its end, if and only if no phrase is longer than the stack; with 11 bits or fewer, or below 2003001 bytes, none is. |
| LzwTheorems.SlotOfCode | ar2/lz1.c:187-204 | The slot of code j in its group and when its width is 9, for every j: widths after the first start at whole groups of eight. |
| LzwTheorems.WidthChange | ar2/lz1.c:194-204 | The width grows after code j exactly when 256 + j is the power of two that fills it and `maxbits` allows more; past the first time this is at the end of a group. |
| LzwTheorems.WidthChangeInGroup | ar2/lz1.c:194-204 | The only width change inside a group is after code 256, the first of its group. |
| LzwTheorems.IdleAfterMember | ar2/lz1.c:325-350 | After a member `offset >= size` holds again if and only if the member is not of 299 bytes or `maxbits` is 9. |
| LzwTheorems.NextMember | ar2/lz1.c:408-450 | After a member, every next member of any number of bits decodes right if and only if the member just read is not of 299 bytes or its `maxbits` is 9. |
| LzwTheorems.RisingIs299 | ar2/lz1.c:325-350 | There is such a member: the 257 bytes 0 to 255 and 0, for every `maxbits` above 9. |
| Archive.StoreAndRestore | ar2/ar.c:488-512 | The members that one compressor adds to an archive, each behind its header, lie one after the other where and as long as counted; one decompressor that reads them all gives every input back and ends at the archive's end, if no member but the last leaves the reader unready. |
| Archive.MemberRead | ar2/ar.c:723-726 | A reader that holds no code gets the member at its position right, stops at its end, and holds no code again unless the member is of 299 bytes. |
| DragonBitmap.Bitmap.ByteAt | libdragondos/libdragondosbitmap.c:12-36 | A byte of the map, with no bit set for sectors past the end of the disk or of the half. |
| DragonBitmap.Bitmap.SectorFree | libdragondos/libdragondosbitmap.c:38-49 | Whether a sector is on the disk and its bit is set. |
| DragonBitmap.Bitmap.TakeRun | libdragondos/libdragondosbitmap.c:75-105 | From a free sector, 1 to 255 free sectors in one half of the map are taken and nothing else changes; the run stops only at 255, at the end of the half or at a sector in use. |
| DragonBitmap.Bitmap.Scan | libdragondos/libdragondosbitmap.c:107-193 | The first of the longest runs of a half, defined without the scan, or 0 when every byte is 0. |
| DragonBitmap.Bitmap.RunStartOf | libdragondos/libdragondosbitmap.c:165-192 | Where a run allocates: the free sectors joining its first byte to the next, or reaching the highest set bit of a single byte. |
| DragonBitmap.Bitmap.LookDown | libdragondos/libdragondosbitmap.c:235-266 | The pair of neighbouring tracks with free first sectors nearest the directory, else track 0 if its first sector is free. |
| DragonBitmap.Bitmap.LookUp | libdragondos/libdragondosbitmap.c:268-279 | The first track from a position on whose first sector is free, if there is one. |
| DragonBitmap.Bitmap.Choose | libdragondos/libdragondosbitmap.c:208-310 | One is found if and only if some sector is free, and it is the one that the order of the stages names, in numbers as for `Allocate`. |
| DragonBitmap.Bitmap.Allocate | libdragondos/libdragondosbitmap.c:195-312 | Disk full if and only if no sector is free. A hint that is free is taken. With a hint in use below 1440, or none, the sector is the highest multiple of 18 that is free with the one 18 after it, both before the directory; then 0; then the first multiple of 18 that is free past the directory track. With a hint in use from 1440 on it is the first free multiple of 18 from 1440, if there is one. It begins a run of 1 to 255 free sectors that goes on to 255, to 1440 or to a sector not free, and exactly its bits are cleared. |
| DragonBitmap.Bitmap.Release | libdragondos/libdragondosbitmap.c:314-333 | Exactly the bits of the run are set. |
| DragonBitmap.Bitmap.GsFree | libdragondos/libdragondosbitmap.c:335-356 | The bits counted byte by byte are the free sectors of the disk. |
| DragonBitmap.ScanFinds | libdragondos/libdragondosbitmap.c:112-193 | What a scan finds is a free sector of its half, and it finds none only where none is free. |
| DragonBitmap.InsideRun | libdragondos/libdragondosbitmap.c:138-158 | Skipping to the end of a run loses none that is longer. |
| DragonBitmap.ChosenFree | libdragondos/libdragondosbitmap.c:208-310 | Whatever stage chose a sector, it is free. |
| DragonBitmap.ChosenOne | libdragondos/libdragondosbitmap.c:208-310 | The run allocated is determined by the map and the hint: the stages, the longest run, where it allocates and how far it goes leave no other. |
| DragonBitmap.ChosenPlace | libdragondos/libdragondosbitmap.c:208-284 | What the stages choose, in numbers, as for `Allocate`. |
| DragonBitmap.RunPlace | libdragondos/libdragondosbitmap.c:107-308 | With no track to take, the file goes in the second half of the map if that has a byte not 0 followed by $FF; in the first if only that has; otherwise in the second if any of it is free. There it begins the first of the longest runs of bytes: with the free sectors of the first byte that reach the second, or those that reach the last free one of a single byte. |
| DragonBitmap.LowestTaken | libdragondos/libdragondosbitmap.c:198-207 | With no two free tracks in a row, the lowest track before the directory with its first sector free is taken if and only if sector 0 is free, or no track after the directory is and the longest run happens to begin there. |
| DragonBitmap.LowestForgotten | libdragondos/libdragondosbitmap.c:198-207 | A disk for which it is not taken: only sectors 90 and 378 are free, and 378 is chosen. |
| DragonOwner.Exchange | libdragondos/libdragondoswrite.c:150-167 | Taking a run before giving back the one set aside leaves every sector one owner, and the free and the set aside together as many as before. |
| DragonOwner.Append | libdragondos/libdragondoswrite.c:212-216 | Sectors set aside that become a file's leave every sector one owner. |
| DragonOwner.Cut | libdragondos/libdragondoswrite.c:278-301 | Freeing the end of a file leaves every sector one owner. |
| DragonDir.ChainLength | libdragondos/libdragondosdir.c:169-171 | No chain has more than 160 entries, so no guard on a walk is ever reached. |
| DragonChange.ContinuationAdded | libdragondos/libdragondoswrite.c:46-72 | A continuation added to a file keeps the directory well formed, the file's sectors, and every other file. |
| DragonChange.FileMade | libdragondos/libdragondosopen.c:200-213 | A new header keeps the directory well formed and every other file, and its file is empty. |
| DragonChange.FileKilled | libdragondos/libdragondoskill.c:59-66 | Marking the entries of a chain deleted takes exactly that file out of the directory. |
| DragonCut.CutExtentsSectors | libdragondos/libdragondoswrite.c:275-302 | What is left of an entry's extents lists exactly the first sectors of those it listed, as many as are kept. |
| DragonCut.FileCut | libdragondos/libdragondoswrite.c:247-324 | The directory after the loop describes the file with its first sectors, as many as there are up to the size, and the size of the last; its chain is the one it had up to the entry where the sectors end, and every other file is as it was. |
| DragonCut.CutTail | libdragondos/libdragondoswrite.c:304-313 | The entry a cut file ends with has an extent in use, unless it is the header, if that was so before. |
| DragonCut.EntriesCut | libdragondos/libdragondoswrite.c:255-316 | Of a file cut to a size, each entry left is as it was but for its extents, the last of them is not continued and has the size modulo 256, and those after it have just the flags of one that is free and a last byte of 0; an extent is as it was, shorter, or cleared. |
| DragonCut.KeepExact | libdragondos/libdragondoswrite.c:247-249 | The sectors that a cut keeps, counted in `u_int`, are those that the size takes if and only if it is at most 2^32 - 256. |
| DragonSound.LastGrown | libdragondos/libdragondoswrite.c:212-215 | A longer last extent adds the sectors that follow it to the end of the file, and changes no other file. |
| DragonSound.CutDone | libdragondos/libdragondoswrite.c:247-324 | Bitmap, directory and files agree after the cut, the free sectors are more by those cut off, and the free entries by those of the chain after the one where the file ends. |
| DragonSound.CutCounts | libdragondos/libdragondoswrite.c:304-308 | An entry of the chain becomes free in the cut exactly if the file ends before it. |
| DragonSound.KillDone | libdragondos/libdragondoskill.c:33-69 | Bitmap, directory and files agree after the kill; the free sectors are more by those of the file, and the free entries by those of its chain. |
| DragonSound.NeededExact | libdragondos/libdragondoswrite.c:116-118 | The number of sectors counted in 32 bits is the number that the size takes if and only if the file is not empty or the size is at most 2^32 - 256; otherwise it is 0. |
| DragonSound.EntriesRanOut | libdragondos/libdragondoswrite.c:187-199 | A file that finds no entry for a continuation has had seven sectors for each entry that was free. |
| DragonSound.ChainBack | libdragondos/libdragondoswrite.c:233-244 | Cutting a file that has grown to the sectors it had gives exactly the chain it had, however many continuations it has got. |
| DragonSound.SizeSectors | libdragondos/libdragondosdir.c:215-236 | A file has exactly the sectors that its recomputed size takes. |
| DragonContent.EverySector | include/dragondospath.h:4-24 | A sector is marked used if and only if it is reserved, set aside, or a sector of a file with a header in use, and only one of these, of one file, once. Reserved are the 18 from 360 and the 18 from 288, both times the sides. |
| DragonContent.StoreAfter | include/dragondospath.h:21-22 | A change that keeps other files' entries, sectors and bytes changes the map from names to bytes only at the names of the one file. |
| DragonContent.LockedAfter | libdragondos/libdragondoswrite.c:446-452 | A change to one file changes which names are protected only at its names, and there as its header says. |
| Blocks.BlockWritten | libdragondos/libdragondoswrite.c:357-384 | Reading a block, copying part of it over and writing it back adds just those bytes to what has been written, for any length of block and any list of blocks without repetition. |
| Blocks.WholeWritten | libdragondos/libdragondoswrite.c:346-385 | All chunks together are one write into the string, which may have grown by blocks with anything in them. |
| Blocks.BlockRead | libdragondos/libdragondosread.c:33-57 | What is copied out of a block is the string's bytes from the position on. |
| Blocks.WroteSplices | libdragondos/libdragondoswrite.c:346-385 | A write that leaves no gap is the splice of byte strings, and only that. |
| DragonContent.WriteDone | libdragondos/libdragondoswrite.c:326-402 | Sectors written one chunk at a time amount to one write into the file's bytes, and the map changes only at its name. |
| DragonContent.WriteExact | libdragondos/libdragondoswrite.c:346-385 | A write that finds all its sectors is one write into the bytes, leaves the path with the size of the directory, and its end was counted right. |
| DragonContent.StoppedWrong | libdragondos/libdragondoswrite.c:370-394 | A write that finds a sector missing had an end that is not counted right. |
| DragonContent.SizeDone | libdragondos/libdragondoswrite.c:404-426 | A change of size and nothing else keeps the bytes up to the lesser of the sizes. |
| DragonVolume.Volume.Dskinit | libdragondos/libdragondosdskinit.c:14-90 | A disk is made exactly for more than 20 tracks of one or two sides with at most 2880 sectors. It is valid and holds no file; the sectors free are all but the 18 from 360 and the 18 from 288, both times the sides; every entry is deleted, a continuation and an end; every byte is $E5. |
| DragonVolume.Volume.FindFreeEntry | libdragondos/libdragondosdir.c:113-135 | The first deleted entry from a given one on, or that there is none. |
| DragonVolume.Volume.AddContinuation | libdragondos/libdragondoswrite.c:46-72 | The first free entry from 1 on, emptied, is linked to the open file's last and is the end of its chain, and one fewer is free; or none is free and nothing changes. |
| DragonVolume.Volume.FindLastExtent | libdragondos/libdragondoswrite.c:75-112 | The last entry of the open file and its last extent in use, or -1 for none. |
| DragonVolume.Volume.AllocateSpare | libdragondos/libdragondoswrite.c:223-229 | A run is set aside, at the hint if that is free, or no sector is free; no sector is lost or gained. |
| DragonVolume.Volume.ExchangeSpare | libdragondos/libdragondoswrite.c:146-172 | A run is set aside in place of the old one, which is free again; no sector is lost or gained. |
| DragonVolume.Volume.SettleSpare | libdragondos/libdragondoswrite.c:144-182 | Before the loop, what is set aside follows the file, or a new extent is due, or nothing is set aside and some is to be allocated. If the last entry has an extent in use, something is set aside that does not follow it and any sector is free, the run that the hint chooses on the map as it was takes its place and it is released; otherwise nothing changes. |
| DragonVolume.Volume.TakeSpare | libdragondos/libdragondoswrite.c:185-216 | The file gets the first of the sectors set aside at its end, in the extent in hand or a new one, or there is no entry for a continuation and the file has had seven sectors for each that there was. |
| DragonVolume.Volume.GrowSectors | libdragondos/libdragondoswrite.c:131-231 | The open file gets as many sectors as it needs after those it has, and which (`Gains`). The first is the first of what is set aside if that follows the last extent, or the last entry has no extent in use, or no sector is free; otherwise, also when the sector at the hint is in use, the one that the hint chooses on the map as it was, and every sector that was set aside is then free if the first run is enough, and otherwise free, in the file or set aside again. When the first run is used up the same hint chooses the next on the map it leaves, and so on; none is chosen that is not needed, and what is set aside in the end follows the file. It succeeds if and only if these runs hold the sectors needed and take no more extents than the file can begin. |
| DragonVolume.Volume.UseRun | libdragondos/libdragondoswrite.c:183-221 | One round of the loop: the run in hand is used, and begins no extent if and only if there is one, the run follows it, and it has at most 255 sectors with them; then either the file has all it needs, or the search goes on, or no choice of extents could have done. |
| DragonGrow.SupplyMore | libdragondos/libdragondoswrite.c:223-229 | A run chosen when all that was set aside is used goes on from it, whatever has been chosen before. |
| DragonGrow.HintIs | libdragondos/libdragondoswrite.c:133-140 | The hint is the sector after the last of the last entry, or none. |
| DragonGrow.RunsAgree | libdragondos/libdragondoswrite.c:223-229 | Any two sequences of runs chosen from the same map by the same hint agree as far as both go. |
| DragonGrow.NoExtentFits | libdragondos/libdragondoswrite.c:185-199 | If the runs so far take one extent more than the file can begin, no further runs suffice. |
| DragonGrow.NoSectorFits | libdragondos/libdragondoswrite.c:223-228 | Nor do they if they hold too few sectors and none is free. |
| DragonGrow.PursuitUses | libdragondos/libdragondoswrite.c:183-221 | Using a run begins an extent exactly as the flags of `grow` say; then the growth is done, can go on, or could not be. |
| DragonGrow.GrownGains | libdragondos/libdragondoswrite.c:144-229 | Which sector a growing file gains first, which after its first run, and what becomes of what was set aside, as for `GrowSectors`. |
| DragonContent.ReachedGains | libdragondos/libdragondoswrite.c:114-231 | The same of a file whose size has grown, from the disk before to the disk after. |
| DragonVolume.Volume.Grow | libdragondos/libdragondoswrite.c:114-231 | The file has the very sectors that the search gives, beginning as for `GrowSectors` (`FileGains`), and the size goes in its last entry, if and only if the runs of the search hold what is needed and their extents fit in the entries (`CanGrow`); if not, fewer sectors than needed were free or set aside, or seven times the free entries was fewer. Each continuation it takes but the last is for seven sectors or more; other files are untouched, and sectors and entries conserved. |
| DragonVolume.Volume.Extend | libdragondos/libdragondoswrite.c:233-244 | As `Grow`, which sectors included; but a failure leaves a file that had its directory's size with exactly the sectors, the size and the chain of entries it had, so that every continuation added is free again, and in every case as many sectors and entries are free or the file's as before. |
| DragonVolume.Volume.CutOneEntry | libdragondos/libdragondoswrite.c:253-322 | One entry of the cut: what its extents and flags become and which sectors are freed. |
| DragonVolume.Volume.Truncate | libdragondos/libdragondoswrite.c:246-324 | The file keeps its first sectors, as many as the size takes of those it has, and exactly the entries of its chain up to where they end; what becomes of every entry is stated, those after are killed, the rest of the sectors are free, other files untouched. It never fails on a valid disk. |
| DragonVolume.Volume.WalkFile | libdragondos/libdragondosdir.c:162-213 | The sector of the disk that is the n-th of the file exactly when it has one; otherwise the number of its sectors and its last entry. |
| DragonVolume.Volume.ComputeSize | libdragondos/libdragondosdir.c:215-236 | The size is the one that the directory describes. |
| DragonVolume.Volume.FindFile | libdragondos/libdragondosdir.c:86-111 | A name is found if and only if the disk stores a file of that name, and then its header is. |
| DragonVolume.Volume.Open | libdragondos/libdragondosopen.c:117-153 | The path is open on the file of that name at position 0 with its size, or no file has the name. |
| DragonVolume.Volume.Create | libdragondos/libdragondosopen.c:155-224 | Which error is returned and when; otherwise the map has the name with no bytes and is the same elsewhere, no other file's protection changes and the new one has none, and a file replaced has given back its sectors and its entries, one of which or another is taken. A failure changes nothing. The new file has the first entry that is free. |
| DragonVolume.Volume.Close | libdragondos/libdragondosopen.c:226-240 | What was set aside is free again, and the map is the same. |
| DragonVolume.Volume.Write | libdragondos/libdragondoswrite.c:326-402 | For every position and count that `u_int` holds: the bytes are in the file at the position and the rest of it is as it was, the size is recomputed right, and the sectors gained are those the search gives; it fails for want of room exactly when the file cannot grow so far (`CanReach`), and then leaves every file, its chain and the free entries as they were; no other file ever changes its bytes or its protection, and sectors and entries are conserved. It stops at a missing sector only if its end is not counted right, with the bytes that the sectors there hold written and counted. A write that is done has gained its sectors as `GrowSectors` says (`Gaining`). |
| DragonVolume.Volume.WriteOut | libdragondos/libdragondoswrite.c:357-394 | The chunks written up to a sector that is missing; a file that had grown is then cut to the position reached, or to the old size if that is more. |
| DragonVolume.Volume.SetSize | libdragondos/libdragondoswrite.c:404-426 | For every size that `u_int` holds: the file is cut to it or grows to it with its bytes first, by the sectors the search gives, or, exactly when it cannot grow so far, a full disk leaves every file, its chain and the free entries as they were; no protection changes; the path's size is right if and only if the size can be counted, and otherwise the file stays empty. A file that has grown has gained its sectors as `GrowSectors` says (`Gaining`). |
| DragonVolume.EmptyFileGrown | libdragondos/libdragondoswrite.c:114-118 | A new file given any size above 2^32 - 256: the call succeeds and the file has no sector. |
| DragonVolume.EmptyFileWritten | libdragondos/libdragondoswrite.c:346-394 | A write of more than 2^32 - 256 bytes into a new file: it ends at a missing sector with nothing written, and the file is empty. |
| DragonVolume.Volume.Read | libdragondos/libdragondosread.c:9-62 | The bytes of the file from the position up to the count or the end, or the end of file if and only if the position is at or past it; where the path's size is not the directory's, what its sectors hold up to the first that is missing. |
| DragonVolume.Volume.Seek | libdragondos/libdragondosread.c:91-122 | The position from the start, here or the end, unless it is before the start or past the largest disk. |
| DragonVolume.Volume.Kill | libdragondos/libdragondoskill.c:9-82 | The file of that name, unless there is none or it is protected, is gone from the map; its sectors are free, every entry of its chain has just the flags of one that is free and is otherwise as it was, no other entry changes, and as many more are free. A failure changes nothing. |
| DragonVolume.Volume.Rename | libdragondos/libdragondoskill.c:91-135 | The bytes move from one name to the other, unless the file is missing or protected or the new name is taken; only the name in its header changes, so every file is as protected as it was. A failure changes nothing. |
| DragonVolume.Volume.SetProtected | libdragondos/libdragondoswrite.c:428-454 | The header's protection is set and nothing else in the directory changes, if the path may write; so the file's name is among those protected or not, and every other is as it was. |
| DecbDisk.Disk.constructor | libdecb/libdecbdskini.c:181-210 | Every byte of the table of a disk of 35, 40 or 80 tracks is $FF for its 68, 78 or 156 granules, but for the first 34 of a "skitzo" one, and 0 after them; there is no file and no entry in use, and every byte off the directory track is $FF. |
| DecbSearch.LookedMore | libdecb/libdecbwrite.c:338-375 | The track that the zig-zag turns to is the nearest not yet looked at, the lower one first. |
| DecbSearch.Turned | libdecb/libdecbwrite.c:349-375 | After a track the search goes to the other side while there is one, and then on to the end of its own. |
| DecbDisk.Disk.FindFreeGranule | libdecb/libdecbwrite.c:313-379 | A granule is found if and only if one is free, and it is the free one on the nearest track, the lower track if two are as near, the lower granule of a track; no granule is looked at twice or out of range, and all are before it fails. |
| DecbFat.GranuleAdded | libdecb/libdecbwrite.c:275-277 | Linking a free granule to the end of a file leaves every granule one place in one chain and one fewer free. |
| DecbFat.EveryGranule | libdecb/libdecbdskini.c:203-213 | In every state: a granule is marked free if and only if it is not another system's and in no file, and it is in one file at most, once. |
| DecbFat.SizeSet | libdecb/libdecbwrite.c:284-306 | The last link and last sector size chosen encode exactly the size. |
| DecbFat.NegativeSize | libdecb/libdecbwrite.c:284-306 | A new size that is negative as an `int` leaves a last link and a last sector size that a file may have if and only if the bytes it gives the last granule are, modulo 65536, whole sectors of a granule. |
| DecbFat.OtherSize | libdecb/libdecbgs.c:104-118 | A file whose links a change keeps has the same chain and size. |
| DecbFat.SizeParts | libdecb/libdecbwrite.c:120-139 | A position below the size is in a granule of the chain, and in its last only below the bytes that the link and the last sector size give. |
| DecbFat.SlotsApart | libdecb/libdecbgs.c:173-195 | No two granules share a sector, and none has one of the directory track 17; granule 34 begins track 18, and every other follows the one before it by nine sectors. |
| DecbFat.GranuleSet | libdecb/libdecbss.c:88-110 | The nine sectors of a granule written over are that granule of the disk set, and every other granule is as it was. |
| DecbFat.NearestMore | libdecb/libdecbwrite.c:261-281 | Each granule added is the first free one in order from the granule before it. |
| DecbFat.GainedIs | libdecb/libdecbwrite.c:256-281 | Each granule that a write adds has the byte $FF and is the nearest such to the one before it in the chain, in tracks, lower first; and with 2304 bytes in each there is no more than the end needs. |
| DecbFat.OtherBytes | libdecb/libdecbwrite.c:113-167 | A write to one file leaves the bytes of every other. |
| DecbFat.StoreAfter | libdecb/libdecbwrite.c:113-167 | A call that changes one file changes the map from first granules to bytes only there. |
| DecbDir.NamedAfter | libdecb/libdecbwrite.c:181-228 | A change to one entry and its file changes the map from names to bytes only at that entry's names. |
| DecbDir.SameNameIs | libdecb/libdecbopen.c:515-523 | Two names compare equal if and only if they are as long and at each place have the same character, or one has a letter from A to Z and the other the character 32 above it. |
| DecbDir.TrimmedIs | libmisc/libmisccococonv.c:274-310 | A part of a name is shown as far as its last character that is not a space. |
| DecbDir.AnyCase | libdecb/libdecbopen.c:515-523 | An entry made with a name without spaces whose parts have at most 8 and 3 characters is matched by that name in any case, and so written it is still a name that a path may have. |
| DecbDisk.Disk.GsSize | libdecb/libdecbgs.c:81-124 | The size that the chain and the last sector size encode: 2304 bytes a granule before the last, whose byte is from $C0 to $C9 and gives 256 for each sector above the first, and the last sector size. |
| DecbDisk.Disk.ExtendFatChain | libdecb/libdecbwrite.c:230-310 | The open file has exactly the new size and the granules it takes: those it had, and then each time the first free one in order from the last; no other link of the table changes; or the table is exactly as it was and fewer granules were free than needed. |
| DecbDisk.Disk.Read | libdecb/libdecbread.c:14-161 | The bytes of the file from the position up to the count or the end, across granules, or the end of file if and only if the position is at or past it. |
| DecbDisk.Disk.Write | libdecb/libdecbwrite.c:18-177 | The bytes are in the file at the position and the rest of it is as it was, also where the chain has grown; the table changes only if the file grows, then only in its chain, by the granules that the search gives, and none is lost; the directory track and the other entries are as they were; a full disk and a position past the end leave everything as it was. The count in every case, and that it is the number of bytes written if and only if the path may write and the position is not past the end, or nothing was asked for. |
| DecbDisk.CountPastEnd | libdecb/libdecbwrite.c:18-60 | A one-byte write at position 1 of a new file fails and counts 1. |
| DecbDisk.Disk.Kill | libdecb/libdecbkill.c:18-79 | The file that the name finds is gone with its entry, and exactly its granules are marked free: every other link of the table and every other entry is as it was. If there is none nothing changes. |
| DecbDisk.Disk.Create | libdecb/libdecbopen.c:85-352 | Which outcome and when. The new file has the first entry not in use, one granule, the first free in order from track 17, and size 0, and the path the modes asked for; if the name was there, every file that the name finds up to its entry is gone, and the table is otherwise as it was with their granules free. |
| DecbDir.ReplacedMore | libdecb/libdecbopen.c:232-275 | Killing the first file that the name finds and starting again comes to the same: the entries up to the one in the way that the name finds are gone. |
| DecbDir.FitsWhen | libdecb/libdecbopen.c:173-215 | A name without spaces finds the file that is made with it if and only if its parts have at most 8 and 3 characters and something follows its dot. |
| DecbDisk.CaseReplaced | libdecb/libdecbopen.c:232-275 | A disk with FOO and foo on which making foo leaves only foo. |
| DecbDisk.LongNameEndless | libdecb/libdecbopen.c:264-274 | Making LONGNAMES a second time never ends. |
| DecbDisk.Disk.Open | libdecb/libdecbopen.c:364-479 | The path is on the first file in the directory whose name differs from the path's at most in the case of letters A to Z, at position 0 with the modes asked for and its last sector size; or there is none. |
| DecbDisk.MadeAndFound | libdecb/libdecbopen.c:85-523 | A file made with a name without spaces whose parts have at most 8 and 3 characters is found by that name in any case; it is the one found unless another's name differs from it in case alone. |
| DecbDisk.Disk.Seek | libdecb/libdecbseek.c:49-65 | The position from the start or from here, in `u_int`, unchecked; from the end it is left as it is. |
| DecbDisk.Disk.GsGranule | libdecb/libdecbgs.c:173-195 | What is read from the slots of a granule is the granule of the disk. |
| DecbDisk.Disk.SsGranule | libdecb/libdecbss.c:88-110 | What is written to the slots of a granule sets that granule and no other. |

## How it is modelled

- Words of the codec are sequences of 16 bits, and `buf` is an array of them. Files
  are byte sequences with a position. The source's integers never leave the range of
  their types in the states modelled, except where a `%` is written out.
- What the original leaves undefined is an explicit outcome: a code above the first
  free entry or a phrase longer than the stack is `Fault`; a call that would never
  return is `Endless`.
- The directory and the table of a Disk BASIC disk are arrays of their own, not
  bytes of track 17; an entry that begins with 0 or 255 is `Empty`.
- A Dragon DOS sector of 256 bytes is a sequence; the directory track is the array
  of its 160 entries and the bitmap an array of flags, without the cache of track
  sectors between them and the image. The ghost fields `ix`, `owner` and `files` of
  `Volume` say which chain each entry is in, who has each sector and which sectors
  each file has; `Valid` ties all three to the real fields.
- Loops of the source that `goto` or `continue` through are kept as loops; long
  bodies are divided into methods named as the part of the function they are.

## Left out

- DragonVolume.Volume.Dskinit: the product of tracks and sectors is not wrapped to 32 bits; tracks are 21 to 80 in `include/dragondospath.h`.
- DragonVolume.Volume.Open: and the other calls take names that `_dd_parse_name` has already accepted; path lists, raw paths and the image's own errors are not modelled.
- DecbDisk.Disk.FindFreeGranule: requires an even number of granules, at most 192, and a start among them; the number is not checked where it is read, and above 192 a link would be taken for an end.
- DecbDisk.Disk.constructor: requires one of the sizes of disk that the directory track fits, 35 tracks or more.
- DecbDisk.Disk.Write: requires a position within the file and the count to add up to less than 2^31; past that the copying follows the links that `DecbFat.NegativeSize` is about, out of the file. File types and the other fields of an entry are not modelled.
- DecbDisk.Disk.Open: and the other calls by name take names that are not empty, contain no 0 and do not begin with 255; the part of a pathlist before the name is not modelled.
- LzwTheorems.NextMember: gives each member a table for its own `maxbits`; `CrakTbl` and `CompTbl` are allocated once, for the limit of the first member.
- Archive.StoreAndRestore: one `maxbits` for all members, as one run of `ar` uses; headers are byte strings of any content, and the failing exit of a member is the reader's outcome.
- Compressor.Compressor.LZ1: requires `offset` to be 0, which the first member and every flush leave it.
- Disk BASIC raw paths, HDB-DOS offsets and line reading.
- Host files, I/O errors, bad CRCs, the copy of the Dragon DOS directory track, and the disk image formats.
- Dragon DOS images that are not valid disks (`EOS_WT`); several paths on one image, which the header rules out for writers.
- `_dragondos_readln`, `_dragondos_readdir` and the other calls that only read or copy a field.
- Builds of `ar2` other than with 16-bit words, and its archive headers.
- OS-9 disks (`librbf`), cassette files (`libcecb`), image formats (`libdiskimage`), the BASIC tokenizers, DECB binaries and S-records.

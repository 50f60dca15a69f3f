# fsarchiver archive reader, modelled in Dafny

This project models the read path of fsarchiver's archive reader (`carchreader`,
`src/archreader.c`). An archive is a chain of volume files (`archive.fsa`, `archive.f01`,
`archive.f02`, ...). Each volume starts with a volume header. Every header is a magic
string, an archive id, a filesystem id and a checksummed dictionary of typed items. File
data is stored as blocks: a block-header dictionary followed by stored bytes that carry
their own fletcher32 checksum.

The open volume is modelled as a fixed byte sequence plus the descriptor's file offset
(`Streams.Stream`). `read(2)` follows POSIX short-read semantics on a regular file
(`Streams.Read`):

- a read that gets fewer bytes than asked fails;
- it still delivers the bytes up to the end of the file and leaves the offset there;
- a read at or past the end delivers nothing;
- a read of 0 bytes succeeds wherever the offset is, since read(2) returns 0.

The reader itself is the class `ArchReader.ArchiveReader`, with the fields of
`carchreader`. Each C function is a method that works step by step as the C code does.
Each method's postcondition ties its results and the reader's new fields to a
specification function over the old state:

| C function | specification function |
|---|---|
| archreader_read_dico | `Headers.DecodeDico` |
| archreader_read_header | `Headers.HeaderSpec` (built from `SearchMagic`, `Probes` and `AfterMagic`) |
| archreader_volpath | `VolumePaths.VolPathSpec` |
| archreader_read_volheader | `VolumeHeaders.VolHeaderSpec` and `VolCheck` |
| archreader_read_block | `Blocks.BlockSpec` |

Lemmas then prove what the source promises about these functions:

- which failures are Fatal and which Minor;
- items come back in buffer order, and the round trip from what a writer stores holds;
- the first valid magic from the offset is found, with the exact offsets probed;
- a known archive id, file format or creator version is never replaced;
- skipped and corrupt blocks are handled as designed;
- volume paths are distinct.

Some constants and routines are defined outside `archreader.c`: FSA_SIZEOF_MAGIC,
is_magic_valid, fletcher32, FSA_MAX_BLKSIZE, the dictionary keys and the null sentinels.
They are fields of one `FsaFormat.Format` value that every operation takes, so the
proofs hold for any values of them. `Format.Valid()` states what the program's own
constants satisfy: a magic has at least one byte, and FSA_MAGIC_VOLH is magic-sized with
no NUL in it, so `strncmp` against it is plain equality.

The dictionary (`cdico`, whose source is not part of this model) is modelled as its items
in insertion order (`Dictionary.Dico`):

- `dico_add_generic` appends an item;
- each `dico_get_*` lookup takes the first item stored under (section, key);
- `dico_get_u16`, `dico_get_u32` and `dico_get_u64` want a value of exactly 2, 4 or 8
  bytes;
- `dico_get_data` wants a value no longer than the buffer it is given.

### Volume paths

Volume 5 of `archive.fsa` is named `archive.f05`, not `archive.05`. `archreader_volpath`
(src/archreader.c:290-308) copies all but the LAST TWO bytes of the base path and appends
the number. `VolumePaths.VolPathExamples` proves that `/a/b/archive.fsa` gives
`/a/b/archive.f05` for volume 5 and `/a/b/archive.f150` for volume 150.

Paths are C strings, so they are modelled as bytes (`VolumePaths.Path`). strlen and the
memcpy of `pathlen-2` count bytes, not characters. For a base path with a multi-byte
UTF-8 character, `VolumePaths.VolPathCountsBytes` shows the length check and the cut both
working on bytes.

## Model

| member | source | states |
|---|---|---|
| `Dictionary.Dico.constructor` | src/archreader.c:218-221 | dico_alloc: a new dictionary holds no items |
| `Dictionary.Dico.Add` | src/archreader.c:189-191 | dico_add_generic appends exactly one item (type, section, key, value) after the existing ones |
| `Dictionary.Find` | src/archreader.c:427-460 | the position found is the first item under (section, key), and None means no item has that section and key |
| `Dictionary.FindIsFirst` | src/archreader.c:427-460 | an item under (section, key) with none before it is the one every lookup of (section, key) uses |
| `Dictionary.WalkCount` | src/archreader.c:165-195 | a completed item walk yields exactly `count` items; an interrupted one yields fewer |
| `Dictionary.WalkLayout` | src/archreader.c:171-195 | the i-th item is the one read at the start offset plus the sizes (6 header bytes + value) of the items before it |
| `Dictionary.WalkWithin` | src/archreader.c:171-195 | the items of a completed walk end inside the buffer |
| `Dictionary.WalkExtends` | src/archreader.c:171-195 | a completed walk yields the same items when more bytes follow the buffer: it reads nothing past it |
| `Dictionary.ParsedItemsLayout` | src/archreader.c:165-195 | in a header buffer, item i has its type, section, little-endian key, size and value at 2 + the span of the items before it |
| `Dictionary.ParsedItemsCount` | src/archreader.c:165-195 | a parse is complete exactly when the buffer holds the u16 count and that many items that fit; the items then end inside the buffer |
| `Dictionary.EntryAtEncoded` | src/archreader.c:171-192 | an item laid out as [type][section][key LE16][size LE16][value] is read back as that item wherever it sits |
| `Dictionary.WalkEncoded` | src/archreader.c:171-195 | items stored back to back are read back in turn, in order, and the walk completes |
| `Dictionary.ParseEncodedItems` | src/archreader.c:165-195 | round trip: the buffer a writer lays out (count, then items) parses to exactly its items, in order, whatever bytes follow |
| `Dictionary.UncheckedItemsReadPastBuffer` | src/archreader.c:165-195 | as written, a 2-byte buffer declaring one item yields an item built from the bytes past the buffer, while the checked walk stops incomplete |
| `Dictionary.UncheckedAgreesWhenInBounds` | src/archreader.c:165-195 | on a buffer whose items all fit, the walk as written and the checked walk yield the same items |
| `Headers.BlobReads` | src/archreader.c:130-154 | when the stream holds a whole blob, the length, data and checksum reads all succeed and deliver the stored length, data and checksum |
| `Headers.DicoFatalIffShort` | src/archreader.c:130-154 | archreader_read_dico is Fatal exactly when the length, the data or the checksum cannot be read in full, and then adds nothing |
| `Headers.DicoChecksumMismatch` | src/archreader.c:156-163 | a checksum mismatch is Minor, adds no item and leaves the offset just past the blob |
| `Headers.DicoChecksumMatch` | src/archreader.c:156-198 | on a checksum match the items added are the buffer's items in buffer order; the result is Success exactly when all fit, and Minor otherwise |
| `Headers.BlobLayout` | src/archreader.c:130-154 | a blob laid out as length, data and checksum is read back as such, whatever precedes and follows it |
| `Headers.DecodeEncodedBlob` | src/archreader.c:111-198 | round trip: reading a stored dictionary blob gives Success, exactly its items, and the offset just past it |
| `Headers.FirstMagicIsFirst` | src/archreader.c:240-250 | the magic search finds the least offset holding a valid magic, and finds none only when there is none |
| `Headers.FirstMagicAfterGarbage` | src/archreader.c:240-250 | with no valid magic in [q, r) and one at r, the search from q lands on r |
| `Headers.FirstMagicExhausted` | src/archreader.c:240-250 | with no valid magic before the last offset a magic fits at, the search finds nothing |
| `Headers.RangeSnoc` | src/archreader.c:242 | helper for `Resync`: each further probe appends its offset to the probes so far |
| `Headers.ExhaustedFromLast` | src/archreader.c:246-248 | helper for `Resync`: when the scan runs off the end, the magic buffer is the last full window with its first bytes overwritten by the final short read |
| `Headers.SearchFoundAt` | src/archreader.c:229-250 | the search stops at the first valid magic at or after the offset (at the offset itself in strict mode), with the cursor just past it |
| `Headers.ProbesFoundAt` | src/archreader.c:240-250 | the offsets probed on the way to q: the offset once, or, when q lies beyond it, the offset twice (curpos++ seeks to the old value) and every offset up to q |
| `Headers.SearchRunsOff` | src/archreader.c:240-250 | in resync mode with no valid magic left, the search fails with the cursor at the end of the file, having probed up to the first read that runs off the end |
| `Headers.HeaderStrictRejects` | src/archreader.c:234-238 | strict mode: an invalid magic at the offset is Fatal with no items and the null filesystem id, after reading only the magic |
| `Headers.HeaderFound` | src/archreader.c:240-279 | helper for `HeaderAtMagic`: once a valid magic is found, the header is read from where the search stopped |
| `Headers.HeaderAtMagic` | src/archreader.c:229-279 | the header is read from the first valid magic: at the offset in either mode, or after K bytes of garbage in resync mode |
| `Headers.HeaderResyncExhausted` | src/archreader.c:240-250 | resync mode with no valid magic from the offset on is Fatal, with no items and the offset at the end of the file |
| `Headers.AfterMagicArchId` | src/archreader.c:252-279 | a known archive id that differs from the header's is Minor with nothing more read, even when the header ends right after the id; otherwise the result is the dictionary's own status and items, with the filesystem id the u16 after the archive id; a header cut short before the archive id or the filesystem id is Fatal |
| `Headers.HeaderMinorCauses` | src/archreader.c:252-279 | a Minor header comes only from an archive-id mismatch against a known id, or from a Minor dictionary |
| `VolumePaths.Decimal` | src/archreader.c:307 | `%ld` of a non-negative number is all decimal digits, and a single digit exactly for 0..9 |
| `VolumePaths.DecimalRoundTrip` | src/archreader.c:304-307 | the decimal digits read back as the number, with no leading zero for numbers >= 1 |
| `VolumePaths.SuffixReadsBack` | src/archreader.c:304-307 | the suffix of volume >= 1 is all digits and reads back as the volume number: two digits below 100, three or more with no leading zero from 100 on |
| `VolumePaths.VolPathSpec` | src/archreader.c:290-293 | the path is missing (the -1 result) exactly when the base path is shorter than four bytes |
| `VolumePaths.VolPathOfVolume` | src/archreader.c:295-308 | for volume >= 1 the path is the base path minus its last two bytes, then the volume number, which reads back from the path; below 100 the path is as long as the base path |
| `VolumePaths.VolPathsDistinct` | src/archreader.c:302-308 | distinct volumes >= 1 of one archive get distinct paths |
| `VolumePaths.VolPathExamples` | src/archreader.c:297-308 | `/a/b/archive.fsa` gives itself for volume 0 when realpath fails, `/a/b/archive.f05` for volume 5 and `/a/b/archive.f150` for volume 150 |
| `VolumePaths.VolPathCountsBytes` | src/archreader.c:290-308 | lengths count bytes: the 4-byte UTF-8 path `/éa` is long enough and gives `/` plus the first byte of `é` plus `05` for volume 5; a 3-byte path gives -1 |
| `VolumeHeaders.CString` | src/archreader.c:380-398 | the C string of a buffer is its prefix before the first NUL: it holds no NUL, and when shorter than the buffer the next byte is NUL |
| `VolumeHeaders.VolCheckFacts` | src/archreader.c:343-398 | the checks on a volume header give 0 exactly when all pass (magic, archive id, volume number, file format, creator version); curvol never changes; a known archive id, file format or creator version is kept; on success the unknown ones are adopted from the header |
| `VolumeHeaders.VolCheckAdoptsArchId` | src/archreader.c:349-358 | with no archive id known, a volume magic and an archive id item set the id, whatever the later checks decide |
| `VolumeHeaders.VolHeaderSucceedsIff` | src/archreader.c:337-404 | archreader_read_volheader returns 0 or -1, and 0 exactly when the header reads with Success in strict mode and passes every check |
| `VolumeHeaders.VolHeaderKeepsKnown` | src/archreader.c:349-398 | reading a volume header never changes curvol, never replaces a known archive id, file format or creator version, and leaves the creator version alone on failure |
| `VolumeHeaders.VolHeaderAdopts` | src/archreader.c:355-398 | on success the archive id and the unknown file format and creator version are taken from the header |
| `VolumeHeaders.VolHeaderAdoptsArchIdEarly` | src/archreader.c:349-372 | the archive id is adopted before the volume number and file format checks, so it stays set even when they fail |
| `VolumeHeaders.AcceptedHeaderMatches` | src/archreader.c:349-372 | a reader that knows its archive id accepts only a header carrying that id and the current volume number |
| `Blocks.BlockMissingField` | src/archreader.c:427-460 | a missing block-header field, or a real size over FSA_MAX_BLKSIZE, is -1 with sumok -1 and nothing read |
| `Blocks.BlockSkip` | src/archreader.c:462-469 | skip: the result is 0, sumok stays -1, and the offset advances by exactly the stored size |
| `Blocks.BlockGood` | src/archreader.c:477-513 | stored bytes whose checksum verifies are handed over unchanged with sumok 1, and the offset is just past them |
| `Blocks.BlockCorrupt` | src/archreader.c:493-509 | a checksum mismatch gives result 0, sumok 0, real-size zeros in place of the data, and the offset back at the start of the stored bytes |
| `Blocks.BlockShort` | src/archreader.c:477-481 | for a block announcing at least one stored byte, fewer stored bytes than announced is -1 with sumok -1, the offset at the end of the file |
| `Blocks.BlockEmpty` | src/archreader.c:477-513 | a block with no stored bytes is read even at an offset past the end of the file: result 0, offset unchanged, sumok 1 with empty data when the checksum of no bytes matches, else sumok 0 with real-size zeros |
| `Blocks.BlockOutcomeShape` | src/archreader.c:406-516 | the result is 0 or -1 and sumok is -1, 0 or 1; blkinfo is filled in exactly for a 0 result without skip, which is exactly when sumok is not -1; the offset never moves before the stored bytes |
| `Blocks.BlockDataAsMarked` | src/archreader.c:483-513 | data marked good is the stored bytes (ARSIZE of them) and passes the checksum; data marked bad is all zeros of the real size |
| `Blocks.ExtractStoredFields` | src/archreader.c:427-460 | round trip: the seven fields a writer stores are extracted unchanged, when the keys are distinct and the size is within FSA_MAX_BLKSIZE |
| `ArchReader.ArchiveReader.constructor` | src/archreader.c:35-47 | archreader_init: no descriptor, archive id 0, volume 0, empty paths and strings, null algorithms, compression levels -1 |
| `ArchReader.ArchiveReader.Open` | src/archreader.c:55-79 | the result is 0 exactly when open64, fstat64 and S_ISREG all succeed; archfd holds the descriptor in every case; the file's contents are opened at offset 0 only on success |
| `ArchReader.ArchiveReader.Close` | src/archreader.c:81-95 | -1 when no volume is open; otherwise 0 and no descriptor |
| `ArchReader.ArchiveReader.ReadData` | src/archreader.c:97-109 | a read succeeds exactly when all n bytes come back, which a 0-byte read always does; data and offset are as read(2) leaves them |
| `ArchReader.ArchiveReader.ReadDico` | src/archreader.c:111-199 | status, the items added to d (after its existing ones) and the new offset are those of DecodeDico |
| `ArchReader.AddItems` | src/archreader.c:165-195 | the items of the header buffer are appended to d in buffer order; the result says whether all of them fitted |
| `ArchReader.ArchiveReader.ReadHeader` | src/archreader.c:201-280 | status, magic, fsid, a fresh dictionary's items, the new offset and the probed offsets are those of the header specification |
| `ArchReader.ArchiveReader.FindMagic` | src/archreader.c:224-250 | the first probe, then the resync scan when seeking is allowed, agree with SearchMagic and Probes |
| `ArchReader.ArchiveReader.Resync` | src/archreader.c:240-250 | the scan ends at the first valid magic after the start, with the offset just past it, or runs off the end with the ExhaustedMagic buffer; the offsets probed are listed |
| `ArchReader.ArchiveReader.ReadAfterMagic` | src/archreader.c:252-279 | archive id, filesystem id and dictionary after the magic agree with AfterMagic |
| `ArchReader.ArchiveReader.VolPath` | src/archreader.c:283-312 | -1 with volpath unchanged for a base path under four bytes; otherwise 0 and volpath is the path of volume curvol |
| `ArchReader.ArchiveReader.IncVolume` | src/archreader.c:314-319 | curvol goes up by one and volpath becomes the path of the new volume |
| `ArchReader.ArchiveReader.ReadVolHeader` | src/archreader.c:321-404 | the result, the archive id, file format and creator version afterwards, and the offset agree with VolHeaderSpec |
| `ArchReader.ArchiveReader.CheckVolHeader` | src/archreader.c:343-398 | the checks on the header's magic and items update the reader's fields exactly as VolCheck says |
| `ArchReader.ArchiveReader.ReadBlock` | src/archreader.c:406-516 | the result, sumok, blkinfo and the new offset agree with BlockSpec |

## Left out

- The operating system behind open64, fstat64, lockf, close and realpath. Their outcomes
  are parameters of `Open` and `VolPath`, and the unlock in `Close` is not modelled.
  Reads do not consult `archfd`: the open volume's bytes are a field of the reader.
- Error messages (errprintf, sysprintf, msgprintf) are not modelled. So is the
  `waitkeypress` argument of archreader_incvolume, which the function ignores.
- malloc failures in archreader_read_dico and archreader_read_block are left out
  (memory is unbounded). So are the failure of dico_alloc and of dico_add_generic.
- The lseek64 calls that cannot fail on a regular file are left out. These are the
  SEEK_CUR 0 at the start of archreader_read_header, the SEEK_SET to a non-negative
  offset, and the forward seek in skip mode. In archreader_read_block the backwards seek
  to the start of a corrupt block lands on an offset the read just passed.
- PATH_MAX truncation of the volume path, and the snprintf and strlcat buffer limits.
- archreader_destroy, which does nothing. Also left out: the dictionary archreader_read_header
  allocates and never frees when reading fails, and the dico_destroy at the end of
  archreader_read_volheader.
- The dictionary's type tags: the lookups the reader uses do not check them.
- VolumeHeaders.CString: the file format and creator version are copied with memcpy
  from a buffer that dico_get_data fills only as far as the value goes. When the value
  holds no NUL, the C string read from it runs into uninitialised bytes. The model takes
  the value's bytes (up to its first NUL, if any) as the string.
- Blocks.BlockSpec: when blkinfo is not filled in, it is None. The C code clears only
  `sizeof(blkinfo)` bytes, the size of the address rather than of the struct, and leaves
  the rest as it was.
- ArchReader.AddItems: it checks every item against the buffer's length and stops with
  Minor at the first item that would overrun. The C code does not check (see Findings).
  The model takes the corrected behaviour, with the code as written in
  `Dictionary.UncheckedItems`.

## Findings

| source | as written | input that shows it | evidently intended | confidence | as-written member | corrected member |
|---|---|---|---|---|---|---|
| src/archreader.c:165-195 | the item count and every item's header and value are read from wherever `bufpos` points, with no comparison against `headerlen` | a blob of length 2 holding the count 1, with a matching checksum: the loop reads the item's type, section, key and size from the 6 bytes after the buffer | stop with an error when the count or an item would run past the header buffer | not executed | `Dictionary.UncheckedItemsReadPastBuffer` | `Dictionary.ParsedItemsCount` |

/**
 * archreader_read_block: the seven fields of a block header's dictionary, then the block's
 * stored bytes, skipped, kept when their checksum verifies, or replaced by zeros when it does not.
 */
module Blocks {
  import opened Bytes
  import opened Wrappers
  import opened Streams
  import opened Dictionary
  import opened FsaFormat

  /** The block header fields, under the names of struct s_blockinfo. */
  datatype BlockFields = BlockFields(
    offset: u64,      // blkoffset: offset of the block in the file it belongs to
    realSize: u32,    // blkrealsize: size of the uncompressed data
    compAlgo: u16,    // blkcompalgo
    cryptAlgo: u16,   // blkcryptalgo
    arSize: u32,      // blkarsize: number of bytes stored in the archive
    compSize: u32,    // blkcompsize
    arcSum: u32)      // blkarcsum: fletcher32 of the stored bytes

  /** The filled-in blkinfo: the block's data buffer and its fields. */
  datatype BlockInfo = BlockInfo(data: seq<u8>, fields: BlockFields)

  /** The result (0 or -1), *sumok (-1 unchecked, 0 bad, 1 good), blkinfo when filled in, and the stream afterwards. */
  datatype BlockOutcome = BlockOutcome(res: int, sumok: int, info: Option<BlockInfo>, after: Stream)

  /** The seven lookups in the block header's items; any of them missing, or a real size over FSA_MAX_BLKSIZE, is None. */
  function ExtractFields(fmt: Format, es: seq<Entry>): Option<BlockFields>
  {
    var k := fmt.blockKeys;
    var offset, realSize := GetU64(es, 0, k.blockOffset), GetU32(es, 0, k.realSize);
    var compAlgo, cryptAlgo := GetU16(es, 0, k.compressAlgo), GetU16(es, 0, k.encryptAlgo);
    var arSize, compSize, arcSum := GetU32(es, 0, k.arSize), GetU32(es, 0, k.compSize), GetU32(es, 0, k.arcSum);
    if offset.None? || realSize.None? || realSize.value > fmt.maxBlockSize then None
    else if compAlgo.None? || cryptAlgo.None? || arSize.None? || compSize.None? || arcSum.None? then None
    else Some(BlockFields(offset.value, realSize.value, compAlgo.value, cryptAlgo.value,
                          arSize.value, compSize.value, arcSum.value))
  }

  /**
   * archreader_read_block(ai, blkdico, &sumok, &blkinfo, skip) on the stream s. A checksum
   * mismatch hands back a zero-filled buffer of the real size and moves the offset back to
   * where the stored bytes begin, so that the next header is searched from there.
   */
  function BlockSpec(fmt: Format, s: Stream, es: seq<Entry>, skip: bool): BlockOutcome
  {
    match ExtractFields(fmt, es)
    case None => BlockOutcome(-1, -1, None, s)
    case Some(f) =>
      if skip then BlockOutcome(0, -1, None, Stream(s.bytes, s.pos + f.arSize))
      else
        var r := Read(s, f.arSize);
        if !r.ok then BlockOutcome(-1, -1, None, r.after)
        else if fmt.checksum(r.data) != f.arcSum then BlockOutcome(0, 0, Some(BlockInfo(Zeros(f.realSize), f)), s)
        else BlockOutcome(0, 1, Some(BlockInfo(r.data, f)), r.after)
  }

  /** A missing field or an oversized block is -1 with sumok -1 and nothing read. */
  lemma BlockMissingField(fmt: Format, s: Stream, es: seq<Entry>, skip: bool)
    requires ExtractFields(fmt, es).None?
    ensures BlockSpec(fmt, s, es, skip) == BlockOutcome(-1, -1, None, s)
  {
  }

  /** Skipping: the offset advances by exactly the stored size, the result is 0 and sumok stays -1. */
  lemma BlockSkip(fmt: Format, s: Stream, es: seq<Entry>)
    requires ExtractFields(fmt, es).Some?
    ensures var f := ExtractFields(fmt, es).value; var o := BlockSpec(fmt, s, es, true);
      o.res == 0 && o.sumok == -1 && o.info.None? && o.after == Stream(s.bytes, s.pos + f.arSize)
  {
  }

  /** The stored bytes are kept exactly when their checksum verifies; the offset is then past them. */
  lemma BlockGood(fmt: Format, s: Stream, es: seq<Entry>)
    requires ExtractFields(fmt, es).Some?
    requires var f := ExtractFields(fmt, es).value;
      s.pos + f.arSize <= |s.bytes| && fmt.checksum(s.bytes[s.pos..s.pos + f.arSize]) == f.arcSum
    ensures var f := ExtractFields(fmt, es).value; var o := BlockSpec(fmt, s, es, false);
      o == BlockOutcome(0, 1, Some(BlockInfo(s.bytes[s.pos..s.pos + f.arSize], f)), Stream(s.bytes, s.pos + f.arSize))
  {
  }

  /** A checksum mismatch yields sumok 0, real-size zeros in place of the data, and the offset back at the start of the stored bytes. */
  lemma BlockCorrupt(fmt: Format, s: Stream, es: seq<Entry>)
    requires ExtractFields(fmt, es).Some?
    requires var f := ExtractFields(fmt, es).value;
      s.pos + f.arSize <= |s.bytes| && fmt.checksum(s.bytes[s.pos..s.pos + f.arSize]) != f.arcSum
    ensures var f := ExtractFields(fmt, es).value; var o := BlockSpec(fmt, s, es, false);
      && o.res == 0 && o.sumok == 0 && o.after == s
      && o.info.Some? && o.info.value.fields == f
      && |o.info.value.data| == f.realSize
      && forall i :: 0 <= i < |o.info.value.data| ==> o.info.value.data[i] == 0
  {
  }

  /** Fewer stored bytes than the block announces is -1 with sumok -1, the offset at the end of the file. */
  lemma BlockShort(fmt: Format, s: Stream, es: seq<Entry>)
    requires ExtractFields(fmt, es).Some?
    requires var n := ExtractFields(fmt, es).value.arSize; n > 0 && s.pos + n > |s.bytes|
    ensures var o := BlockSpec(fmt, s, es, false);
      o.res == -1 && o.sumok == -1 && o.info.None? && o.after.pos == if s.pos < |s.bytes| then |s.bytes| else s.pos
  {
  }

  /**
   * A block with no stored bytes is read wherever the offset is, even past the end of the file
   * (read of 0 bytes returns 0): the result is 0 and the empty data is checked like any other.
   */
  lemma BlockEmpty(fmt: Format, s: Stream, es: seq<Entry>)
    requires ExtractFields(fmt, es).Some? && ExtractFields(fmt, es).value.arSize == 0
    ensures var f := ExtractFields(fmt, es).value; var o := BlockSpec(fmt, s, es, false);
      && o.res == 0 && o.after == s
      && (fmt.checksum([]) == f.arcSum ==> o.sumok == 1 && o.info == Some(BlockInfo([], f)))
      && (fmt.checksum([]) != f.arcSum ==> o.sumok == 0 && o.info == Some(BlockInfo(Zeros(f.realSize), f)))
  {
  }

  /**
   * The shape of every outcome: the result is 0 or -1 and sumok is -1, 0 or 1; blkinfo is filled
   * in exactly when the result is 0 without skip, which is exactly when sumok is not -1; the
   * offset never moves back before where the block's stored bytes begin.
   */
  lemma BlockOutcomeShape(fmt: Format, s: Stream, es: seq<Entry>, skip: bool)
    ensures var o := BlockSpec(fmt, s, es, skip);
      && (o.res == 0 || o.res == -1) && -1 <= o.sumok <= 1
      && (o.info.Some? <==> o.res == 0 && !skip)
      && (o.info.Some? <==> o.sumok != -1)
      && o.after.pos >= s.pos
  {
    match ExtractFields(fmt, es)
    case None =>
    case Some(f) =>
      if !skip {
        assert Read(s, f.arSize).after.pos >= s.pos;
      }
  }

  /**
   * The data handed over can be trusted as marked: data marked good is the stored bytes and
   * passes the checksum; data marked bad is all zeros of the real size, never the stored bytes.
   */
  lemma BlockDataAsMarked(fmt: Format, s: Stream, es: seq<Entry>, skip: bool)
    ensures var o := BlockSpec(fmt, s, es, skip);
      && (o.sumok == 1 ==> var b := o.info.value; var f := b.fields;
            && ExtractFields(fmt, es) == Some(f)
            && |b.data| == f.arSize
            && (f.arSize > 0 ==> s.pos + f.arSize <= |s.bytes| && b.data == s.bytes[s.pos..s.pos + f.arSize])
            && fmt.checksum(b.data) == f.arcSum)
      && (o.sumok == 0 ==> var b := o.info.value;
            && ExtractFields(fmt, es) == Some(b.fields)
            && b.data == Zeros(b.fields.realSize) && b.fields.realSize <= fmt.maxBlockSize)
  {
    match ExtractFields(fmt, es)
    case None =>
    case Some(f) =>
      if skip {
        assert BlockSpec(fmt, s, es, skip).sumok == -1;
      } else {
        var r := Read(s, f.arSize);
        if !r.ok {
          assert BlockSpec(fmt, s, es, skip).sumok == -1;
        } else if fmt.checksum(r.data) != f.arcSum {
          assert BlockSpec(fmt, s, es, skip) == BlockOutcome(0, 0, Some(BlockInfo(Zeros(f.realSize), f)), s);
        } else {
          assert BlockSpec(fmt, s, es, skip) == BlockOutcome(0, 1, Some(BlockInfo(r.data, f)), r.after);
          assert |r.data| == f.arSize;
          assert f.arSize > 0 ==> r.data == s.bytes[s.pos..s.pos + f.arSize];
        }
      }
  }

  // ---------------------------------------------------------------------------------------------
  // The writer's side: the block header items as they are added for each block.

  /** The seven keys of a block header are pairwise distinct. */
  predicate DistinctBlockKeys(k: BlockKeys)
  {
    var ks := [k.blockOffset, k.realSize, k.compressAlgo, k.encryptAlgo, k.arSize, k.compSize, k.arcSum];
    forall i, j :: 0 <= i < j < |ks| ==> ks[i] != ks[j]
  }

  /** The items a writer adds for the fields f, in section 0; `tag` is the type tag, which the lookups do not consult. */
  function BlockHeaderItems(fmt: Format, f: BlockFields, tag: u8): seq<Entry>
  {
    var k := fmt.blockKeys;
    [ Entry(tag, 0, k.blockOffset, U64Bytes(f.offset)),
      Entry(tag, 0, k.realSize, U32Bytes(f.realSize)),
      Entry(tag, 0, k.compressAlgo, U16Bytes(f.compAlgo)),
      Entry(tag, 0, k.encryptAlgo, U16Bytes(f.cryptAlgo)),
      Entry(tag, 0, k.arSize, U32Bytes(f.arSize)),
      Entry(tag, 0, k.compSize, U32Bytes(f.compSize)),
      Entry(tag, 0, k.arcSum, U32Bytes(f.arcSum)) ]
  }

  /** Round trip: the fields a writer stored are extracted unchanged, provided the real size is within FSA_MAX_BLKSIZE. */
  lemma ExtractStoredFields(fmt: Format, f: BlockFields, tag: u8)
    requires DistinctBlockKeys(fmt.blockKeys) && f.realSize <= fmt.maxBlockSize
    ensures ExtractFields(fmt, BlockHeaderItems(fmt, f, tag)) == Some(f)
  {
    var k := fmt.blockKeys;
    var es := BlockHeaderItems(fmt, f, tag);
    var ks := [k.blockOffset, k.realSize, k.compressAlgo, k.encryptAlgo, k.arSize, k.compSize, k.arcSum];
    forall i | 0 <= i < 7
      ensures Find(es, 0, ks[i]) == Some(i)
    {
      assert Names(es[i], 0, ks[i]);
      assert forall j :: 0 <= j < i ==> es[j].key == ks[j] != ks[i];
      FindIsFirst(es, 0, ks[i], i);
    }
    assert Find(es, 0, ks[0]) == Some(0);
    assert Find(es, 0, ks[1]) == Some(1);
    assert Find(es, 0, ks[2]) == Some(2);
    assert Find(es, 0, ks[3]) == Some(3);
    assert Find(es, 0, ks[4]) == Some(4);
    assert Find(es, 0, ks[5]) == Some(5);
    assert Find(es, 0, ks[6]) == Some(6);
  }
}

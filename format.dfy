/**
 * The constants and collaborators the reader relies on but that are defined outside
 * archreader.c: magic size and validity, the block-size limit, the dictionary keys,
 * the "null" sentinels and fletcher32. They are gathered in one value passed to every operation.
 */
module FsaFormat {
  import opened Bytes

  /** ERR_SUCCESS, ERR_FATAL, ERR_MINOR. */
  datatype Status = Success | Fatal | Minor

  /** The VOLUMEHEADKEY_* keys of a volume header (section 0). */
  datatype VolumeKeys = VolumeKeys(archId: u16, volNum: u16, fileFormatVer: u16, progVerCreat: u16)

  /** The BLOCKHEADITEMKEY_* keys of a block header (section 0). */
  datatype BlockKeys = BlockKeys(
    blockOffset: u16, realSize: u16, compressAlgo: u16, encryptAlgo: u16,
    arSize: u16, compSize: u16, arcSum: u16)

  datatype Format = Format(
    magicSize: nat,                 // FSA_SIZEOF_MAGIC
    volHeaderMagic: seq<u8>,        // FSA_MAGIC_VOLH
    isMagicValid: seq<u8> -> bool,  // is_magic_valid
    checksum: seq<u8> -> u32,       // fletcher32
    maxBlockSize: nat,              // FSA_MAX_BLKSIZE
    maxFileFmtLen: nat,             // FSA_MAX_FILEFMTLEN
    maxProgVerLen: nat,             // FSA_MAX_PROGVERLEN
    nullFsId: u16,                  // FSA_FILESYSID_NULL
    compressNull: int,              // COMPRESS_NULL
    encryptNull: int,               // ENCRYPT_NULL
    volKeys: VolumeKeys,
    blockKeys: BlockKeys)
  {
    /**
     * What the program's own constants satisfy: a magic has at least one byte, and the volume
     * header magic is a magic-sized string without a NUL, so strncmp against it is equality.
     */
    predicate Valid()
    {
      && magicSize > 0
      && |volHeaderMagic| == magicSize
      && forall i :: 0 <= i < |volHeaderMagic| ==> volHeaderMagic[i] != 0
    }
  }
}

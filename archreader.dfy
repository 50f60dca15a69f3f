/**
 * The archive reader (carchreader) and its operations. The open volume is the `volume` file's
 * bytes and the descriptor's offset `offset`; each method does what the C function does, step
 * by step, and is proved equal to the specification functions of the other modules.
 */
module ArchReader {
  import opened Bytes
  import opened Wrappers
  import opened Streams
  import opened Dictionary
  import opened FsaFormat
  import opened Headers
  import opened VolumePaths
  import opened VolumeHeaders
  import opened Blocks

  class ArchiveReader {
    var archfd: int           // descriptor of the open volume, -1 when none
    var archid: u32           // archive id, 0 until the first volume header is read
    var curvol: nat           // number of the current volume, 0 for the first
    var basepath: Path        // path of the first volume, as given
    var volpath: Path         // path of the current volume
    var filefmt: seq<u8>      // file format string, empty until read
    var creatver: seq<u8>     // version of the program that created the archive, empty until read
    var cryptalgo: int
    var compalgo: int
    var fsacomp: int
    var complevel: int
    var volume: seq<u8>       // contents of the file open on archfd
    var offset: nat           // the descriptor's file offset

    /** The open volume as a stream. */
    function Cursor(): Stream
      reads this
    {
      Stream(volume, offset)
    }

    /** The fields archreader_read_volheader works on. */
    function State(): VolState
      reads this
    {
      VolState(archid, curvol, filefmt, creatver)
    }

    /** archreader_init: everything zero, then no descriptor, null algorithms, unset compression levels. */
    constructor (fmt: Format)
      ensures archfd == -1 && archid == 0 && curvol == 0
      ensures basepath == [] && volpath == [] && filefmt == [] && creatver == []
      ensures cryptalgo == fmt.encryptNull && compalgo == fmt.compressNull && fsacomp == -1 && complevel == -1
      ensures volume == [] && offset == 0
    {
      archfd, archid, curvol := -1, 0, 0;
      basepath, volpath, filefmt, creatver := [], [], [], [];
      cryptalgo, compalgo, fsacomp, complevel := fmt.encryptNull, fmt.compressNull, -1, -1;
      volume, offset := [], 0;
    }

    /**
     * archreader_open on volpath, with the outcomes of open64 (`fd`, negative on failure),
     * fstat64 (`statOk`) and S_ISREG (`regular`) given, and `contents` the file's bytes. The
     * descriptor is recorded even when fstat64 fails or the file is not regular (it was closed
     * then, but archfd still holds it).
     */
    method Open(fd: int, statOk: bool, regular: bool, contents: seq<u8>) returns (res: int)
      modifies this`archfd, this`volume, this`offset
      ensures archfd == fd
      ensures res == 0 <==> fd >= 0 && statOk && regular
      ensures res == -1 || res == 0
      ensures res == 0 ==> volume == contents && offset == 0
      ensures res != 0 ==> volume == old(volume) && offset == old(offset)
    {
      archfd := fd;
      if archfd < 0 {
        return -1;
      }
      if !statOk {
        return -1;
      }
      if !regular {
        return -1;
      }
      volume, offset := contents, 0;
      return 0;
    }

    /** archreader_close: -1 when no volume is open; otherwise the descriptor is released and 0. */
    method Close() returns (res: int)
      modifies this`archfd
      ensures old(archfd) < 0 ==> res == -1 && archfd == old(archfd)
      ensures old(archfd) >= 0 ==> res == 0 && archfd == -1
    {
      if archfd < 0 {
        return -1;
      }
      archfd := -1;
      return 0;
    }

    /** archreader_read_data: read(2) of n bytes at the offset; ok only when all n came back. */
    method ReadData(n: nat) returns (ok: bool, data: seq<u8>)
      modifies this`offset
      ensures var r := Read(old(Cursor()), n); ok == r.ok && data == r.data && Cursor() == r.after
    {
      var r := Read(Cursor(), n);
      ok, data, offset := r.ok, r.data, r.after.pos;
    }

    /**
     * archreader_read_dico: the length, data and checksum of the blob, then the items of the
     * buffer added to d one by one. Unlike the C code, every item is checked against the
     * buffer's length first; an item that would overrun it ends the walk with Minor.
     */
    method ReadDico(fmt: Format, d: Dico) returns (status: Status)
      modifies this`offset, d
      ensures var o := DecodeDico(fmt, old(Cursor()));
        && status == o.status && d.entries == old(d.entries) + o.added && Cursor() == o.after
    {
      var ok, lenBytes := ReadData(2);
      if !ok {
        return Fatal;
      }
      var headerlen := LE16(lenBytes, 0);
      var buffer;
      ok, buffer := ReadData(headerlen);
      if !ok {
        return Fatal;
      }
      var sumBytes;
      ok, sumBytes := ReadData(4);
      if !ok {
        return Fatal;
      }
      if fmt.checksum(buffer) != LE32(sumBytes, 0) {
        return Minor;
      }
      var complete := AddItems(buffer, d);
      return if complete then Success else Minor;
    }

    /**
     * archreader_read_header(ai, magic, &d, allowSeek, &fsid): the magic at the offset or, in
     * resync mode, at the first offset from there holding a valid one (the start offset is
     * probed twice because lseek64 is given curpos before it is incremented); then the archive
     * id, the filesystem id and the dictionary. `probes` lists the offsets the magic was read at.
     */
    method ReadHeader(fmt: Format, allowSeek: bool)
      returns (status: Status, magic: seq<u8>, d: Dico, fsid: u16, ghost probes: seq<nat>)
      requires fmt.Valid()
      modifies this`offset
      ensures fresh(d)
      ensures var o := HeaderSpec(fmt, old(Cursor()), archid, allowSeek);
        && status == o.status && magic == o.magic && fsid == o.fsid && d.entries == o.entries
        && Cursor() == o.after
      ensures probes == Probes(fmt, old(Cursor()), allowSeek)
    {
      fsid := fmt.nullFsId;
      d := new Dico();
      var found;
      found, magic, probes := FindMagic(fmt, allowSeek);
      if !found {
        return Fatal, magic, d, fsid, probes;
      }
      status, fsid := ReadAfterMagic(fmt, magic, d);
    }

    /** The magic search of archreader_read_header: the first probe, then the resync scan when it fails and seeking is allowed. */
    method FindMagic(fmt: Format, allowSeek: bool) returns (found: bool, magic: seq<u8>, ghost probes: seq<nat>)
      requires fmt.Valid()
      modifies this`offset
      ensures var o := SearchMagic(fmt, old(Cursor()), allowSeek);
        found == o.found && magic == o.magic && Cursor() == o.after
      ensures probes == Probes(fmt, old(Cursor()), allowSeek)
    {
      var m: nat := fmt.magicSize;
      magic := Zeros(m);
      var curpos: nat := offset;
      probes := [curpos];
      var ok, data := ReadData(m);
      if !ok {
        magic := Overlay(magic, data);
        return false, magic, probes;
      }
      magic := data;
      if !fmt.isMagicValid(magic) && !allowSeek {
        return false, magic, probes;
      }
      if fmt.isMagicValid(magic) {
        SearchFoundAt(fmt, old(Cursor()), allowSeek, curpos);
        ProbesFoundAt(fmt, old(Cursor()), allowSeek, curpos);
        return true, magic, probes;
      }
      ghost var end, rest;
      found, magic, end, rest := Resync(fmt, curpos, magic);
      if found {
        SearchFoundAt(fmt, old(Cursor()), allowSeek, end);
        ProbesFoundAt(fmt, old(Cursor()), allowSeek, end);
      } else {
        SearchRunsOff(fmt, old(Cursor()), end);
      }
      probes := probes + rest;
    }

    /**
     * The resync loop of archreader_read_header: seek to curpos, increment it, read a magic,
     * until a valid one comes back or a read runs off the end. The first seek goes back to the
     * start offset, so the start is probed a second time before the scan moves on. `end` is the
     * offset of the magic found, or of the read that ran off the end; `probes` the offsets read.
     */
    method Resync(fmt: Format, start: nat, first: seq<u8>)
      returns (found: bool, magic: seq<u8>, ghost end: nat, ghost probes: seq<nat>)
      requires fmt.Valid() && start + fmt.magicSize <= |volume| && offset == start + fmt.magicSize
      requires first == volume[start..start + fmt.magicSize] && !fmt.isMagicValid(first)
      modifies this`offset
      ensures start < end && forall j :: start <= j < end ==> !MagicAt(fmt, volume, j)
      ensures found ==> (&& MagicAt(fmt, volume, end) && magic == volume[end..end + fmt.magicSize]
                         && offset == end + fmt.magicSize && probes == Range(start, end + 1))
      ensures !found ==> (&& end + fmt.magicSize > |volume| && magic == ExhaustedMagic(fmt, volume)
                          && offset == |volume| && probes == Range(start, |volume| - fmt.magicSize + 2))
    {
      var m: nat := fmt.magicSize;
      var curpos: nat := start;
      magic := first;
      probes := [];
      ghost var probe: nat := start;
      while !fmt.isMagicValid(magic)
        invariant start <= probe <= curpos
        invariant probe + m <= |volume| && magic == volume[probe..probe + m] && offset == probe + m
        invariant curpos == probe + 1 || (curpos == start && probe == start)
        invariant forall j :: start <= j < probe ==> !MagicAt(fmt, volume, j)
        invariant probes == Range(start, curpos)
        decreases |volume| + 1 - curpos
      {
        assert !MagicAt(fmt, volume, probe);
        ghost var q: nat := curpos;
        offset := curpos;
        RangeSnoc(start, curpos);
        probes := probes + [curpos];
        curpos := curpos + 1;
        var ok, data := ReadData(m);
        if !ok {
          assert q == probe + 1 && probe == |volume| - m && data == volume[q..] by {
            assert q + m > |volume|;
          }
          ExhaustedFromLast(fmt, volume, magic, data);
          magic := Overlay(magic, data);
          return false, magic, q, probes;
        }
        probe := q;
        magic := data;
      }
      assert probe != start;
      return true, magic, probe, probes;
    }

    /** The rest of archreader_read_header: the archive id (checked when one is known), the filesystem id, the dictionary. */
    method ReadAfterMagic(fmt: Format, magic: seq<u8>, d: Dico) returns (status: Status, fsid: u16)
      requires d.entries == []
      modifies this`offset, d
      ensures var o := AfterMagic(fmt, old(Cursor()), magic, archid);
        status == o.status && fsid == o.fsid && d.entries == o.entries && Cursor() == o.after
    {
      fsid := fmt.nullFsId;
      var ok, idBytes := ReadData(4);
      if !ok {
        return Fatal, fsid;
      }
      var readid := LE32(idBytes, 0);
      if archid != 0 && readid != archid {
        return Minor, fsid;
      }
      var fsBytes;
      ok, fsBytes := ReadData(2);
      if !ok {
        return Fatal, fsid;
      }
      fsid := LE16(fsBytes, 0);
      status := ReadDico(fmt, d);
    }

    /**
     * archreader_volpath: -1 and volpath unchanged for a base path shorter than four
     * characters; otherwise 0 and the path of volume curvol. `canonical` is what realpath
     * returned for the base path (None when it failed).
     */
    method VolPath(canonical: Option<Path>) returns (res: int)
      modifies this`volpath
      ensures match VolPathSpec(basepath, curvol, canonical)
        case None => res == -1 && volpath == old(volpath)
        case Some(path) => res == 0 && volpath == path
    {
      var pathlen := |basepath|;
      if pathlen < 4 {
        return -1;
      }
      var stem := basepath[..pathlen - 2];
      if curvol == 0 {
        volpath := if canonical.Some? then canonical.value else basepath;
      } else {
        var temp := if curvol < 100 then Pad2(curvol) else Decimal(curvol);
        volpath := stem + temp;
      }
      return 0;
    }

    /** archreader_incvolume: the next volume number, then its path. */
    method IncVolume(canonical: Option<Path>) returns (res: int)
      modifies this`curvol, this`volpath
      ensures curvol == old(curvol) + 1
      ensures match VolPathSpec(basepath, old(curvol) + 1, canonical)
        case None => res == -1 && volpath == old(volpath)
        case Some(path) => res == 0 && volpath == path
    {
      curvol := curvol + 1;
      res := VolPath(canonical);
    }

    /**
     * archreader_read_volheader: the volume header, read in strict mode, must carry the volume
     * magic, the reader's archive id (adopted when not yet known), the current volume number,
     * and the reader's file format (adopted when not yet known); the creator version is adopted
     * when not yet known. The result is 0, or -1 with the fields already adopted kept.
     */
    method ReadVolHeader(fmt: Format) returns (res: int)
      requires fmt.Valid()
      modifies this`offset, this`archid, this`filefmt, this`creatver
      ensures var o := VolHeaderSpec(fmt, old(Cursor()), old(State()));
        res == o.res && State() == o.state && Cursor() == o.after
    {
      var status, magic, d, fsid, probes := ReadHeader(fmt, false);
      if status != Success {
        return -1;
      }
      res := CheckVolHeader(fmt, magic, d.entries);
    }

    /** Steps b to d of archreader_read_volheader, on the magic and the items of the header just read. */
    method CheckVolHeader(fmt: Format, magic: seq<u8>, es: seq<Entry>) returns (res: int)
      modifies this`archid, this`filefmt, this`creatver
      ensures (res, State()) == VolCheck(fmt, magic, es, old(State()))
    {
      var keys := fmt.volKeys;
      if magic != fmt.volHeaderMagic {
        return -1;
      }
      var readid := GetU32(es, 0, keys.archId);
      if readid.None? {
        return -1;
      }
      if archid == 0 {
        archid := readid.value;
      } else if readid.value != archid {
        return -1;
      }
      var volnum := GetU32(es, 0, keys.volNum);
      if volnum.None? || volnum.value != curvol {
        return -1;
      }
      var ff := GetData(es, 0, keys.fileFormatVer, fmt.maxFileFmtLen);
      if ff.None? {
        return -1;
      }
      if filefmt == [] {
        filefmt := CString(ff.value);
      } else if CString(ff.value) != filefmt {
        return -1;
      }
      var cv := GetData(es, 0, keys.progVerCreat, fmt.maxProgVerLen);
      if cv.None? {
        return -1;
      }
      if creatver == [] {
        creatver := CString(cv.value);
      }
      return 0;
    }

    /**
     * archreader_read_block(ai, blkdico, &sumok, &blkinfo, skip): the seven fields, then the
     * stored bytes skipped, kept when their checksum verifies, or replaced by real-size zeros
     * with the offset moved back to them when it does not. `info` is blkinfo when it is filled in.
     */
    method ReadBlock(fmt: Format, blkdico: Dico, skip: bool) returns (res: int, sumok: int, info: Option<BlockInfo>)
      modifies this`offset
      ensures var o := BlockSpec(fmt, old(Cursor()), blkdico.entries, skip);
        res == o.res && sumok == o.sumok && info == o.info && Cursor() == o.after
    {
      sumok, info := -1, None;
      var fields := ExtractFields(fmt, blkdico.entries);
      if fields.None? {
        return -1, sumok, info;
      }
      var f := fields.value;
      if skip {
        offset := offset + f.arSize;
        return 0, sumok, info;
      }
      var start := offset;
      var ok, buffer := ReadData(f.arSize);
      if !ok {
        return -1, sumok, info;
      }
      if fmt.checksum(buffer) != f.arcSum {
        info := Some(BlockInfo(Zeros(f.realSize), f));
        sumok := 0;
        offset := start;
      } else {
        info := Some(BlockInfo(buffer, f));
        sumok := 1;
      }
      return 0, sumok, info;
    }
  }

  /**
   * The item walk of archreader_read_dico: the count at the start of the header buffer, then
   * each item added to d in buffer order. Unlike the C code, the count and every item are
   * checked against the buffer's length first; the walk stops at the first one that would
   * overrun it, with the items before it already added, and the result is then false.
   */
  method AddItems(buffer: seq<u8>, d: Dico) returns (complete: bool)
    modifies d
    ensures complete == ParseItems(buffer).complete
    ensures d.entries == old(d.entries) + ParseItems(buffer).entries
  {
    if |buffer| < 2 {
      return false;
    }
    var count := LE16(buffer, 0);
    var bufpos: nat := 2;
    var left: nat := count;
    ghost var added: seq<Entry> := [];
    while left > 0
      invariant d.entries == old(d.entries) + added
      invariant Resumes(buffer, ParseItems(buffer), added, bufpos, left)
    {
      var item := EntryAt(buffer, bufpos);
      if item.None? {
        WalkStopsAfter(buffer, ParseItems(buffer), added, bufpos, left);
        return false;
      }
      var e := item.value;
      var next: nat := bufpos + 6 + |e.value|;
      WalkStepAfter(buffer, ParseItems(buffer), added, bufpos, left, e, next);
      d.Add(e.section, e.key, e.value, e.tag);
      added := added + [e];
      bufpos := next;
      left := left - 1;
    }
    WalkDone(buffer, ParseItems(buffer), added, bufpos);
    return true;
  }
}

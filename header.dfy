/**
 * What archreader_read_dico and archreader_read_header compute from the stream: the
 * checksummed dictionary blob, the magic search with resynchronisation, and the framing
 * (archive id, filesystem id) around the dictionary.
 */
module Headers {
  import opened Bytes
  import opened Wrappers
  import opened Streams
  import opened Dictionary
  import opened FsaFormat

  // ---------------------------------------------------------------------------------------------
  // archreader_read_dico

  /** What archreader_read_dico returns, the items it added to the dictionary, and the stream after it. */
  datatype DicoOutcome = DicoOutcome(status: Status, added: seq<Entry>, after: Stream)

  /**
   * archreader_read_dico: a u16 length, that many bytes, a u32 checksum, each read in full or
   * Fatal; a checksum mismatch is Minor; on a match, the buffer's items, where an item that
   * would run past the buffer stops the walk with Minor (the items before it stay added).
   */
  function DecodeDico(fmt: Format, s: Stream): DicoOutcome
  {
    var l := Read(s, 2);
    if !l.ok then DicoOutcome(Fatal, [], l.after)
    else
      var b := Read(l.after, LE16(l.data, 0));
      if !b.ok then DicoOutcome(Fatal, [], b.after)
      else
        var c := Read(b.after, 4);
        if !c.ok then DicoOutcome(Fatal, [], c.after)
        else if fmt.checksum(b.data) != LE32(c.data, 0) then DicoOutcome(Minor, [], c.after)
        else
          var w := ParseItems(b.data);
          DicoOutcome(if w.complete then Success else Minor, w.entries, c.after)
  }

  /** The stream holds a whole blob from its offset on: length, the data it announces, checksum. */
  predicate BlobFits(s: Stream)
  {
    s.pos + 2 <= |s.bytes| && s.pos + 2 + LE16(s.bytes, s.pos) + 4 <= |s.bytes|
  }

  /** The blob's data bytes. */
  function BlobData(s: Stream): seq<u8>
    requires BlobFits(s)
  {
    s.bytes[s.pos + 2..s.pos + 2 + LE16(s.bytes, s.pos)]
  }

  /** The checksum stored after the blob's data. */
  function BlobSum(s: Stream): u32
    requires BlobFits(s)
  {
    LE32(s.bytes, s.pos + 2 + LE16(s.bytes, s.pos))
  }

  /** The offset just past the blob. */
  function BlobEnd(s: Stream): nat
    requires BlobFits(s)
  {
    s.pos + 2 + LE16(s.bytes, s.pos) + 4
  }

  /** The three reads of a blob, stated on the stream's bytes. */
  lemma BlobReads(fmt: Format, s: Stream)
    requires BlobFits(s)
    ensures var l := Read(s, 2);
      && l.ok && LE16(l.data, 0) == LE16(s.bytes, s.pos)
      && var b := Read(l.after, LE16(l.data, 0));
      && b.ok && b.data == BlobData(s)
      && var c := Read(b.after, 4);
      && c.ok && LE32(c.data, 0) == BlobSum(s) && c.after == Stream(s.bytes, BlobEnd(s))
  {
    var len := LE16(s.bytes, s.pos);
    LE16Local(Read(s, 2).data, 0, s.bytes, s.pos);
    LE32Local(s.bytes[s.pos + 2 + len..s.pos + 2 + len + 4], 0, s.bytes, s.pos + 2 + len);
  }

  /** A short read of the length, the data or the checksum is Fatal and adds nothing; nothing else is Fatal. */
  lemma DicoFatalIffShort(fmt: Format, s: Stream)
    ensures var o := DecodeDico(fmt, s);
      && (o.status == Fatal <==> !BlobFits(s))
      && (o.status == Fatal ==> o.added == [])
  {
    if s.pos + 2 <= |s.bytes| {
      LE16Local(Read(s, 2).data, 0, s.bytes, s.pos);
    }
    if BlobFits(s) {
      BlobReads(fmt, s);
    }
  }

  /** A computed checksum that differs from the stored one is Minor, adds no item, and leaves the offset past the blob. */
  lemma DicoChecksumMismatch(fmt: Format, s: Stream)
    requires BlobFits(s) && fmt.checksum(BlobData(s)) != BlobSum(s)
    ensures DecodeDico(fmt, s) == DicoOutcome(Minor, [], Stream(s.bytes, BlobEnd(s)))
  {
    BlobReads(fmt, s);
  }

  /**
   * On a checksum match the added items are the buffer's items in buffer order; the result is
   * Success exactly when all `count` of them lie inside the buffer, Minor otherwise.
   */
  lemma DicoChecksumMatch(fmt: Format, s: Stream)
    requires BlobFits(s) && fmt.checksum(BlobData(s)) == BlobSum(s)
    ensures var o := DecodeDico(fmt, s); var w := ParseItems(BlobData(s));
      && o.added == w.entries
      && (o.status == Success <==> w.complete)
      && (o.status != Success ==> o.status == Minor)
      && o.after == Stream(s.bytes, BlobEnd(s))
  {
    BlobReads(fmt, s);
  }

  /** The blob a writer stores for the items es: length, the encoded items, their checksum. */
  function EncodeBlob(fmt: Format, es: seq<Entry>): seq<u8>
    requires Encodable(es) && |EncodeItems(es)| < 0x1_0000
  {
    var items := EncodeItems(es);
    U16Bytes(|items|) + items + U32Bytes(fmt.checksum(items))
  }

  /** A blob laid out as length, data and checksum, between any bytes before and after it, is read back as such. */
  lemma BlobLayout(pre: seq<u8>, data: seq<u8>, sum: u32, post: seq<u8>)
    requires |data| < 0x1_0000
    ensures var blob := U16Bytes(|data|) + data + U32Bytes(sum); var s := Stream(pre + blob + post, |pre|);
      && BlobFits(s) && BlobData(s) == data && BlobSum(s) == sum && BlobEnd(s) == |pre| + |blob|
  {
    var len, chk := U16Bytes(|data|), U32Bytes(sum);
    var bytes := pre + (len + data + chk) + post;
    var p := |pre|;
    assert bytes == pre + len + data + chk + post;
    assert LE16(bytes, p) == |data| by {
      assert bytes[p..p + 2] == len[0..2];
      LE16Local(bytes, p, len, 0);
    }
    assert bytes[p + 2..p + 2 + |data|] == data;
    assert LE32(bytes, p + 2 + |data|) == sum by {
      assert bytes[p + 2 + |data|..p + 2 + |data| + 4] == chk[0..4];
      LE32Local(bytes, p + 2 + |data|, chk, 0);
    }
  }

  /** Round trip: reading back a blob the writer stored yields Success and exactly its items, in order. */
  lemma DecodeEncodedBlob(fmt: Format, pre: seq<u8>, es: seq<Entry>, post: seq<u8>)
    requires Encodable(es) && |EncodeItems(es)| < 0x1_0000
    ensures var blob := EncodeBlob(fmt, es); var bytes := pre + blob + post;
      DecodeDico(fmt, Stream(bytes, |pre|)) == DicoOutcome(Success, es, Stream(bytes, |pre| + |blob|))
  {
    var items := EncodeItems(es);
    BlobLayout(pre, items, fmt.checksum(items), post);
    ParseEncodedItems(es, []);
    assert items + [] == items;
    DicoChecksumMatch(fmt, Stream(pre + EncodeBlob(fmt, es) + post, |pre|));
  }

  // ---------------------------------------------------------------------------------------------
  // The magic search of archreader_read_header

  /** A valid magic lies at offset q. */
  predicate MagicAt(fmt: Format, bytes: seq<u8>, q: nat)
  {
    q + fmt.magicSize <= |bytes| && fmt.isMagicValid(bytes[q..q + fmt.magicSize])
  }

  /** The first offset at or after q where a valid magic lies. */
  function FirstMagic(fmt: Format, bytes: seq<u8>, q: nat): (r: Option<nat>)
    ensures r.Some? ==> q <= r.value && MagicAt(fmt, bytes, r.value)
    decreases |bytes| - q
  {
    if q + fmt.magicSize > |bytes| then None
    else if MagicAt(fmt, bytes, q) then Some(q)
    else FirstMagic(fmt, bytes, q + 1)
  }

  /** FirstMagic finds the least offset >= q holding a valid magic, and finds none only when there is none. */
  lemma {:induction false} FirstMagicIsFirst(fmt: Format, bytes: seq<u8>, q: nat)
    ensures match FirstMagic(fmt, bytes, q)
      case Some(r) => q <= r && MagicAt(fmt, bytes, r) && forall j :: q <= j < r ==> !MagicAt(fmt, bytes, j)
      case None => forall j :: q <= j ==> !MagicAt(fmt, bytes, j)
    decreases |bytes| - q
  {
    if q + fmt.magicSize <= |bytes| && !MagicAt(fmt, bytes, q) {
      FirstMagicIsFirst(fmt, bytes, q + 1);
    }
  }

  /** Garbage before a magic: when no offset in [q, r) holds one and r does, the search lands on r. */
  lemma {:induction false} FirstMagicAfterGarbage(fmt: Format, bytes: seq<u8>, q: nat, r: nat)
    requires q <= r && MagicAt(fmt, bytes, r)
    requires forall j :: q <= j < r ==> !MagicAt(fmt, bytes, j)
    ensures FirstMagic(fmt, bytes, q) == Some(r)
    decreases r - q
  {
    if q < r {
      assert !MagicAt(fmt, bytes, q);
      FirstMagicAfterGarbage(fmt, bytes, q + 1, r);
    }
  }

  /** No magic in [q, c) and none can fit from c on: the search finds nothing. */
  lemma {:induction false} FirstMagicExhausted(fmt: Format, bytes: seq<u8>, q: nat, c: nat)
    requires q <= c && c + fmt.magicSize > |bytes|
    requires forall j :: q <= j < c ==> !MagicAt(fmt, bytes, j)
    ensures FirstMagic(fmt, bytes, q) == None
    decreases c - q
  {
    if q < c {
      assert !MagicAt(fmt, bytes, q);
      FirstMagicExhausted(fmt, bytes, q + 1, c);
    }
  }

  /** The offsets a, a+1, ..., b-1. */
  function Range(a: nat, b: nat): (r: seq<nat>)
    requires a <= b
    ensures |r| == b - a && forall i :: 0 <= i < |r| ==> r[i] == a + i
  {
    seq(b - a, i requires 0 <= i < b - a => a + i)
  }

  /**
   * The offsets at which archreader_read_header reads a magic: the start p once, and, when the
   * first probe fails in resync mode, again p (curpos++ hands the old value to lseek64), then
   * p+1, p+2, ... up to the offset where a magic is found or the read that runs off the end.
   */
  function Probes(fmt: Format, s: Stream, allowSeek: bool): seq<nat>
    requires fmt.Valid()
  {
    var p, m, n := s.pos, fmt.magicSize, |s.bytes|;
    if p + m > n || MagicAt(fmt, s.bytes, p) || !allowSeek then [p]
    else match FirstMagic(fmt, s.bytes, p)
      case Some(q) => [p] + Range(p, q + 1)
      case None => [p] + Range(p, n - m + 2)
  }

  /**
   * The magic buffer when the scan runs off the end: the last full probe read the final
   * magic-sized window, and the failing read at the next offset overwrote its first bytes.
   */
  function ExhaustedMagic(fmt: Format, bytes: seq<u8>): seq<u8>
    requires fmt.Valid() && fmt.magicSize <= |bytes|
  {
    var n, m := |bytes|, fmt.magicSize;
    Overlay(bytes[n - m..], bytes[n - m + 1..])
  }

  /** One more probe appends its offset. */
  lemma RangeSnoc(a: nat, b: nat)
    requires a <= b
    ensures Range(a, b + 1) == Range(a, b) + [b]
  {
  }

  /** The last full window, overwritten by what the read at the next offset delivers, is ExhaustedMagic. */
  lemma ExhaustedFromLast(fmt: Format, bytes: seq<u8>, last: seq<u8>, tail: seq<u8>)
    requires fmt.Valid() && fmt.magicSize <= |bytes|
    requires last == bytes[|bytes| - fmt.magicSize..] && tail == bytes[|bytes| - fmt.magicSize + 1..]
    ensures Overlay(last, tail) == ExhaustedMagic(fmt, bytes)
  {
  }

  // ---------------------------------------------------------------------------------------------
  // archreader_read_header

  /** What archreader_read_header returns: its status, the magic buffer, *fsid, the items of *d, the stream after it. */
  datatype HeaderOutcome = HeaderOutcome(status: Status, magic: seq<u8>, fsid: u16, entries: seq<Entry>, after: Stream)

  /**
   * The part of archreader_read_header after the magic: the archive id (checked only when the
   * reader already knows one, `known` != 0, a mismatch being Minor), the filesystem id, and
   * the dictionary, whose status is returned as it is.
   */
  function AfterMagic(fmt: Format, s: Stream, magic: seq<u8>, known: u32): HeaderOutcome
  {
    var r := Read(s, 4);
    if !r.ok then HeaderOutcome(Fatal, magic, fmt.nullFsId, [], r.after)
    else if known != 0 && LE32(r.data, 0) != known then HeaderOutcome(Minor, magic, fmt.nullFsId, [], r.after)
    else
      var f := Read(r.after, 2);
      if !f.ok then HeaderOutcome(Fatal, magic, fmt.nullFsId, [], f.after)
      else
        var dd := DecodeDico(fmt, f.after);
        HeaderOutcome(dd.status, magic, LE16(f.data, 0), dd.added, dd.after)
  }

  /** The magic search: whether a valid magic was found, the magic buffer, the stream after the last probe. */
  datatype MagicOutcome = MagicOutcome(found: bool, magic: seq<u8>, after: Stream)

  /**
   * The first part of archreader_read_header: the magic at the offset, or, in resync mode, at
   * the first offset from there on holding a valid one. A short first read, an invalid magic
   * in strict mode and a scan that runs off the end are failures.
   */
  function SearchMagic(fmt: Format, s: Stream, allowSeek: bool): MagicOutcome
    requires fmt.Valid()
  {
    var m := fmt.magicSize;
    var r := Read(s, m);
    if !r.ok then MagicOutcome(false, Overlay(Zeros(m), r.data), r.after)
    else if !fmt.isMagicValid(r.data) && !allowSeek then MagicOutcome(false, r.data, r.after)
    else match FirstMagic(fmt, s.bytes, s.pos)
      case None => MagicOutcome(false, ExhaustedMagic(fmt, s.bytes), Stream(s.bytes, |s.bytes|))
      case Some(q) => MagicOutcome(true, s.bytes[q..q + m], Stream(s.bytes, q + m))
  }

  /**
   * The search lands on q when q holds the first valid magic from the offset on and either q
   * is the offset itself or resync mode is on.
   */
  lemma SearchFoundAt(fmt: Format, s: Stream, allowSeek: bool, q: nat)
    requires fmt.Valid() && s.pos <= q && MagicAt(fmt, s.bytes, q)
    requires forall j :: s.pos <= j < q ==> !MagicAt(fmt, s.bytes, j)
    requires allowSeek || q == s.pos
    ensures SearchMagic(fmt, s, allowSeek) == MagicOutcome(true, s.bytes[q..q + fmt.magicSize], Stream(s.bytes, q + fmt.magicSize))
  {
    FirstMagicAfterGarbage(fmt, s.bytes, s.pos, q);
    if q > s.pos {
      assert !MagicAt(fmt, s.bytes, s.pos);
    }
  }

  /**
   * The offsets probed on the way to q: the offset once when q is the offset itself, and
   * otherwise the offset twice and every offset up to q.
   */
  lemma ProbesFoundAt(fmt: Format, s: Stream, allowSeek: bool, q: nat)
    requires fmt.Valid() && s.pos <= q && MagicAt(fmt, s.bytes, q)
    requires forall j :: s.pos <= j < q ==> !MagicAt(fmt, s.bytes, j)
    requires allowSeek || q == s.pos
    ensures Probes(fmt, s, allowSeek) == if q == s.pos then [s.pos] else [s.pos] + Range(s.pos, q + 1)
  {
    FirstMagicAfterGarbage(fmt, s.bytes, s.pos, q);
    if q > s.pos {
      assert !MagicAt(fmt, s.bytes, s.pos);
    }
  }

  /**
   * Resync mode with no valid magic in [offset, c) and none fitting from c on: the search fails
   * with the cursor at the end of the file, having probed the offset twice and every offset up
   * to the first one whose read runs off the end.
   */
  lemma SearchRunsOff(fmt: Format, s: Stream, c: nat)
    requires fmt.Valid() && s.pos < c && c + fmt.magicSize > |s.bytes| && s.pos + fmt.magicSize <= |s.bytes|
    requires forall j :: s.pos <= j < c ==> !MagicAt(fmt, s.bytes, j)
    ensures SearchMagic(fmt, s, true) == MagicOutcome(false, ExhaustedMagic(fmt, s.bytes), Stream(s.bytes, |s.bytes|))
    ensures Probes(fmt, s, true) == [s.pos] + Range(s.pos, |s.bytes| - fmt.magicSize + 2)
  {
    FirstMagicExhausted(fmt, s.bytes, s.pos, c);
    assert !MagicAt(fmt, s.bytes, s.pos);
  }

  /** archreader_read_header(ai, magic, &d, allowSeek, &fsid) with ai->archid == known. */
  function HeaderSpec(fmt: Format, s: Stream, known: u32, allowSeek: bool): HeaderOutcome
    requires fmt.Valid()
  {
    var r := SearchMagic(fmt, s, allowSeek);
    if !r.found then HeaderOutcome(Fatal, r.magic, fmt.nullFsId, [], r.after)
    else AfterMagic(fmt, r.after, r.magic, known)
  }

  /** Strict mode: an invalid first magic is Fatal, and only the magic-sized probe has been read. */
  lemma HeaderStrictRejects(fmt: Format, s: Stream, known: u32)
    requires fmt.Valid() && s.pos + fmt.magicSize <= |s.bytes|
    requires !MagicAt(fmt, s.bytes, s.pos)
    ensures var o := HeaderSpec(fmt, s, known, false);
      && o.status == Fatal && o.entries == [] && o.fsid == fmt.nullFsId
      && o.after == Stream(s.bytes, s.pos + fmt.magicSize)
  {
  }

  /** Once the magic search succeeds, the header is read from where it stopped. */
  lemma HeaderFound(fmt: Format, s: Stream, known: u32, allowSeek: bool)
    requires fmt.Valid() && SearchMagic(fmt, s, allowSeek).found
    ensures var r := SearchMagic(fmt, s, allowSeek); HeaderSpec(fmt, s, known, allowSeek) == AfterMagic(fmt, r.after, r.magic, known)
  {
  }

  /**
   * The header is read from the first valid magic at or after the offset, with the cursor
   * just past that magic: in either mode when the magic is at the offset itself, and in resync
   * mode also after K = q - offset bytes of garbage.
   */
  lemma HeaderAtMagic(fmt: Format, s: Stream, known: u32, allowSeek: bool, q: nat)
    requires fmt.Valid() && s.pos <= q && MagicAt(fmt, s.bytes, q)
    requires forall j :: s.pos <= j < q ==> !MagicAt(fmt, s.bytes, j)
    requires allowSeek || q == s.pos
    ensures HeaderSpec(fmt, s, known, allowSeek)
         == AfterMagic(fmt, Stream(s.bytes, q + fmt.magicSize), s.bytes[q..q + fmt.magicSize], known)
  {
    SearchFoundAt(fmt, s, allowSeek, q);
    HeaderFound(fmt, s, known, allowSeek);
  }

  /** Resync mode: with no valid magic from the offset on, the scan runs off the end and the result is Fatal. */
  lemma HeaderResyncExhausted(fmt: Format, s: Stream, known: u32)
    requires fmt.Valid()
    requires forall j :: s.pos <= j ==> !MagicAt(fmt, s.bytes, j)
    ensures var o := HeaderSpec(fmt, s, known, true);
      && o.status == Fatal && o.entries == [] && o.fsid == fmt.nullFsId
      && o.after.pos == if s.pos < |s.bytes| then |s.bytes| else s.pos
  {
    var m := fmt.magicSize;
    if s.pos + m <= |s.bytes| {
      FirstMagicExhausted(fmt, s.bytes, s.pos, |s.bytes| - m + 1);
    }
  }

  /**
   * The archive id: with a known id, a different one in the header is Minor and nothing further
   * is read, even when the header ends right after the id; with a matching id or none known, the
   * result is the dictionary's own status and items, the filesystem id being the u16 after the
   * archive id. A header cut short before the archive id or the filesystem id is Fatal.
   */
  lemma AfterMagicArchId(fmt: Format, s: Stream, magic: seq<u8>, known: u32)
    ensures var o := AfterMagic(fmt, s, magic, known);
      && (s.pos + 4 > |s.bytes| ==> o.status == Fatal && o.entries == [] && o.fsid == fmt.nullFsId)
      && (s.pos + 4 <= |s.bytes| && known != 0 && LE32(s.bytes, s.pos) != known ==>
            o == HeaderOutcome(Minor, magic, fmt.nullFsId, [], Stream(s.bytes, s.pos + 4)))
      && (s.pos + 4 <= |s.bytes| && (known == 0 || LE32(s.bytes, s.pos) == known) && s.pos + 6 > |s.bytes| ==>
            o.status == Fatal && o.entries == [] && o.fsid == fmt.nullFsId)
      && (s.pos + 6 <= |s.bytes| && (known == 0 || LE32(s.bytes, s.pos) == known) ==>
            var dd := DecodeDico(fmt, Stream(s.bytes, s.pos + 6));
            o == HeaderOutcome(dd.status, magic, LE16(s.bytes, s.pos + 4), dd.added, dd.after))
  {
    if s.pos + 4 <= |s.bytes| {
      LE32Local(Read(s, 4).data, 0, s.bytes, s.pos);
    }
    if s.pos + 6 <= |s.bytes| {
      LE16Local(Read(Stream(s.bytes, s.pos + 4), 2).data, 0, s.bytes, s.pos + 4);
    }
  }

  /** A Minor header comes only from an archive-id mismatch against a known id or from a Minor dictionary. */
  lemma HeaderMinorCauses(fmt: Format, s: Stream, magic: seq<u8>, known: u32)
    requires AfterMagic(fmt, s, magic, known).status == Minor
    ensures s.pos + 4 <= |s.bytes|
    ensures (known != 0 && LE32(s.bytes, s.pos) != known)
         || (s.pos + 6 <= |s.bytes| && DecodeDico(fmt, Stream(s.bytes, s.pos + 6)).status == Minor)
  {
    LE32Local(Read(s, 4).data, 0, s.bytes, s.pos);
  }
}

/**
 * archreader_read_volheader: the header at the start of every volume, checked against (and,
 * for the first volume, adopted into) the reader's archive id, file format and creator version.
 */
module VolumeHeaders {
  import opened Bytes
  import opened Wrappers
  import opened Streams
  import opened Dictionary
  import opened FsaFormat
  import opened Headers

  /**
   * The reader fields archreader_read_volheader consults or updates: ai->archid (0 when not yet
   * known), ai->curvol, and the C strings ai->filefmt and ai->creatver (empty when not yet known).
   */
  datatype VolState = VolState(archid: u32, curvol: nat, filefmt: seq<u8>, creatver: seq<u8>)

  /** The result (0 or -1), the reader fields afterwards, and the stream afterwards. */
  datatype VolOutcome = VolOutcome(res: int, state: VolState, after: Stream)

  /** The C string a buffer holds: its bytes up to the first NUL, or all of them when there is none. */
  function CString(b: seq<u8>): (r: seq<u8>)
    ensures |r| <= |b| && r == b[..|r|]
    ensures forall i :: 0 <= i < |r| ==> r[i] != 0
    ensures |r| < |b| ==> b[|r|] == 0
  {
    if b == [] || b[0] == 0 then [] else [b[0]] + CString(b[1..])
  }

  /**
   * Steps b to d of archreader_read_volheader on the header's magic and items: each check
   * that fails gives -1 and keeps whatever the earlier steps already wrote into the reader.
   */
  function VolCheck(fmt: Format, magic: seq<u8>, es: seq<Entry>, st: VolState): (int, VolState)
  {
    var keys := fmt.volKeys;
    if magic != fmt.volHeaderMagic then (-1, st)
    else match GetU32(es, 0, keys.archId)
      case None => (-1, st)
      case Some(readid) =>
        if st.archid != 0 && readid != st.archid then (-1, st)
        else
          var st1 := st.(archid := readid);
          match GetU32(es, 0, keys.volNum)
          case None => (-1, st1)
          case Some(volnum) =>
            if volnum != st.curvol then (-1, st1)
            else match GetData(es, 0, keys.fileFormatVer, fmt.maxFileFmtLen)
              case None => (-1, st1)
              case Some(ff) =>
                if st.filefmt != [] && CString(ff) != st.filefmt then (-1, st1)
                else
                  var st2 := if st.filefmt == [] then st1.(filefmt := CString(ff)) else st1;
                  match GetData(es, 0, keys.progVerCreat, fmt.maxProgVerLen)
                  case None => (-1, st2)
                  case Some(cv) => (0, if st.creatver == [] then st2.(creatver := CString(cv)) else st2)
  }

  /** archreader_read_volheader: the header is read in strict mode; a header that is not Success is -1. */
  function VolHeaderSpec(fmt: Format, s: Stream, st: VolState): VolOutcome
    requires fmt.Valid()
  {
    var h := HeaderSpec(fmt, s, st.archid, false);
    if h.status != Success then VolOutcome(-1, st, h.after)
    else
      var (res, st') := VolCheck(fmt, h.magic, h.entries, st);
      VolOutcome(res, st', h.after)
  }

  /** What a volume header must hold for the reader in state st to accept it. */
  predicate Accepts(fmt: Format, magic: seq<u8>, es: seq<Entry>, st: VolState)
  {
    var keys := fmt.volKeys;
    && magic == fmt.volHeaderMagic
    && GetU32(es, 0, keys.archId).Some?
    && (st.archid == 0 || GetU32(es, 0, keys.archId).value == st.archid)
    && GetU32(es, 0, keys.volNum) == Some(st.curvol)
    && GetData(es, 0, keys.fileFormatVer, fmt.maxFileFmtLen).Some?
    && (st.filefmt == [] || CString(GetData(es, 0, keys.fileFormatVer, fmt.maxFileFmtLen).value) == st.filefmt)
    && GetData(es, 0, keys.progVerCreat, fmt.maxProgVerLen).Some?
  }

  /** The checks on the header's contents: 0 exactly when they all pass, and what every outcome keeps of st. */
  lemma VolCheckFacts(fmt: Format, magic: seq<u8>, es: seq<Entry>, st: VolState)
    ensures var r := VolCheck(fmt, magic, es, st); var keys := fmt.volKeys;
      && (r.0 == 0 || r.0 == -1)
      && (r.0 == 0 <==> Accepts(fmt, magic, es, st))
      && r.1.curvol == st.curvol
      && (st.archid != 0 ==> r.1.archid == st.archid)
      && (st.filefmt != [] ==> r.1.filefmt == st.filefmt)
      && (st.creatver != [] || r.0 != 0 ==> r.1.creatver == st.creatver)
      && (r.0 == 0 ==>
            && r.1.archid == GetU32(es, 0, keys.archId).value
            && r.1.filefmt == (if st.filefmt == [] then CString(GetData(es, 0, keys.fileFormatVer, fmt.maxFileFmtLen).value) else st.filefmt)
            && r.1.creatver == (if st.creatver == [] then CString(GetData(es, 0, keys.progVerCreat, fmt.maxProgVerLen).value) else st.creatver))
  {
    var r := VolCheck(fmt, magic, es, st);
    assert r.1.curvol == st.curvol;
  }

  /**
   * The result is 0 or -1, and 0 exactly when the header decodes with Success and its magic
   * and items pass every check; the stream ends where the header decoder left it.
   */
  lemma VolHeaderSucceedsIff(fmt: Format, s: Stream, st: VolState)
    requires fmt.Valid()
    ensures var o := VolHeaderSpec(fmt, s, st); var h := HeaderSpec(fmt, s, st.archid, false);
      && (o.res == 0 || o.res == -1)
      && (o.res == 0 <==> h.status == Success && Accepts(fmt, h.magic, h.entries, st))
      && o.after == h.after
  {
    var h := HeaderSpec(fmt, s, st.archid, false);
    VolCheckFacts(fmt, h.magic, h.entries, st);
  }

  /**
   * What the reader keeps: curvol never changes; an archive id, a file format or a creator
   * version that was already known is never replaced; on failure the creator version is untouched.
   */
  lemma VolHeaderKeepsKnown(fmt: Format, s: Stream, st: VolState)
    requires fmt.Valid()
    ensures var o := VolHeaderSpec(fmt, s, st);
      && o.state.curvol == st.curvol
      && (st.archid != 0 ==> o.state.archid == st.archid)
      && (st.filefmt != [] ==> o.state.filefmt == st.filefmt)
      && (st.creatver != [] || o.res != 0 ==> o.state.creatver == st.creatver)
  {
    var h := HeaderSpec(fmt, s, st.archid, false);
    VolCheckFacts(fmt, h.magic, h.entries, st);
  }

  /** On success every unknown field is adopted from the header: the archive id and the two C strings. */
  lemma VolHeaderAdopts(fmt: Format, s: Stream, st: VolState)
    requires fmt.Valid() && VolHeaderSpec(fmt, s, st).res == 0
    ensures var o := VolHeaderSpec(fmt, s, st); var h := HeaderSpec(fmt, s, st.archid, false); var keys := fmt.volKeys;
      && o.state.archid == GetU32(h.entries, 0, keys.archId).value
      && o.state.filefmt == (if st.filefmt == [] then CString(GetData(h.entries, 0, keys.fileFormatVer, fmt.maxFileFmtLen).value) else st.filefmt)
      && o.state.creatver == (if st.creatver == [] then CString(GetData(h.entries, 0, keys.progVerCreat, fmt.maxProgVerLen).value) else st.creatver)
  {
    var h := HeaderSpec(fmt, s, st.archid, false);
    VolCheckFacts(fmt, h.magic, h.entries, st);
  }

  /** The check itself: with no archive id known, a volume magic and an archive id item set the id, whatever follows. */
  lemma VolCheckAdoptsArchId(fmt: Format, magic: seq<u8>, es: seq<Entry>, st: VolState)
    requires st.archid == 0 && magic == fmt.volHeaderMagic && GetU32(es, 0, fmt.volKeys.archId).Some?
    ensures VolCheck(fmt, magic, es, st).1.archid == GetU32(es, 0, fmt.volKeys.archId).value
  {
    var readid := GetU32(es, 0, fmt.volKeys.archId).value;
    var st1 := st.(archid := readid);
    var r := VolCheck(fmt, magic, es, st);
    assert r.1 == st1 || r.1.archid == st1.archid;
  }

  /**
   * The archive id is adopted before the later checks: reading a header whose archive id is
   * present while none is known sets it, even when the volume number, the file format or the
   * creator version then fails.
   */
  lemma VolHeaderAdoptsArchIdEarly(fmt: Format, s: Stream, st: VolState)
    requires fmt.Valid() && st.archid == 0
    requires var h := HeaderSpec(fmt, s, 0, false);
      h.status == Success && h.magic == fmt.volHeaderMagic && GetU32(h.entries, 0, fmt.volKeys.archId).Some?
    ensures var h := HeaderSpec(fmt, s, 0, false);
      VolHeaderSpec(fmt, s, st).state.archid == GetU32(h.entries, 0, fmt.volKeys.archId).value
  {
    var h := HeaderSpec(fmt, s, 0, false);
    VolCheckAdoptsArchId(fmt, h.magic, h.entries, st);
  }

  /** A reader that already knows its archive id accepts only a header carrying that id and its current volume number. */
  lemma AcceptedHeaderMatches(fmt: Format, s: Stream, st: VolState)
    requires fmt.Valid() && st.archid != 0 && VolHeaderSpec(fmt, s, st).res == 0
    ensures var h := HeaderSpec(fmt, s, st.archid, false); var o := VolHeaderSpec(fmt, s, st);
      && GetU32(h.entries, 0, fmt.volKeys.archId) == Some(st.archid)
      && GetU32(h.entries, 0, fmt.volKeys.volNum) == Some(st.curvol)
      && o.state.archid == st.archid && o.state.curvol == st.curvol
      && (st.filefmt != [] ==> o.state.filefmt == st.filefmt)
  {
    VolHeaderSucceedsIff(fmt, s, st);
    VolHeaderKeepsKnown(fmt, s, st);
  }
}

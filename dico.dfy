/**
 * The typed metadata dictionary (cdico) as far as the reader uses it: an insertion-ordered
 * sequence of items, the lookups the reader calls, and the wire encoding of the items that
 * archreader_read_dico decodes.
 */
module Dictionary {
  import opened Bytes
  import opened Wrappers

  /** One item: type tag, section, key and value bytes. */
  datatype Entry = Entry(tag: u8, section: u8, key: u16, value: seq<u8>)

  /** A cdico: its items in the order they were added. */
  class Dico {
    var entries: seq<Entry>

    /** dico_alloc: a fresh, empty dictionary. */
    constructor ()
      ensures entries == []
    {
      entries := [];
    }

    /** dico_add_generic(d, section, key, data, size, type): appends one item. */
    method Add(section: u8, key: u16, value: seq<u8>, tag: u8)
      modifies this
      ensures entries == old(entries) + [Entry(tag, section, key, value)]
    {
      entries := entries + [Entry(tag, section, key, value)];
    }
  }

  predicate Names(e: Entry, section: u8, key: u16)
  {
    e.section == section && e.key == key
  }

  /** The position of the first item stored under (section, key), if any. */
  function Find(es: seq<Entry>, section: u8, key: u16): (r: Option<nat>)
    ensures r.Some? ==> r.value < |es| && Names(es[r.value], section, key)
    ensures r.Some? ==> forall j :: 0 <= j < r.value ==> !Names(es[j], section, key)
    ensures r.None? ==> forall j :: 0 <= j < |es| ==> !Names(es[j], section, key)
  {
    if es == [] then None
    else if Names(es[0], section, key) then Some(0)
    else match Find(es[1..], section, key)
      case None => None
      case Some(i) => Some(i + 1)
  }

  /** An item found under (section, key) with none before it is the one every lookup of (section, key) uses. */
  lemma {:induction false} FindIsFirst(es: seq<Entry>, section: u8, key: u16, i: nat)
    requires i < |es| && Names(es[i], section, key)
    requires forall j :: 0 <= j < i ==> !Names(es[j], section, key)
    ensures Find(es, section, key) == Some(i)
  {
    if i > 0 {
      assert !Names(es[0], section, key);
      assert forall j :: 0 <= j < i - 1 ==> es[1..][j] == es[j + 1];
      FindIsFirst(es[1..], section, key, i - 1);
    }
  }

  /** dico_get_u16: the first item under (section, key), when its value is exactly two bytes. */
  function GetU16(es: seq<Entry>, section: u8, key: u16): Option<u16>
  {
    match Find(es, section, key)
    case None => None
    case Some(i) => if |es[i].value| == 2 then Some(LE16(es[i].value, 0)) else None
  }

  /** dico_get_u32: the first item under (section, key), when its value is exactly four bytes. */
  function GetU32(es: seq<Entry>, section: u8, key: u16): Option<u32>
  {
    match Find(es, section, key)
    case None => None
    case Some(i) => if |es[i].value| == 4 then Some(LE32(es[i].value, 0)) else None
  }

  /** dico_get_u64: the first item under (section, key), when its value is exactly eight bytes. */
  function GetU64(es: seq<Entry>, section: u8, key: u16): Option<u64>
  {
    match Find(es, section, key)
    case None => None
    case Some(i) => if |es[i].value| == 8 then Some(LE64(es[i].value, 0)) else None
  }

  /** dico_get_data(d, section, key, buf, maxLen, NULL): the value of the first item under (section, key), when it fits. */
  function GetData(es: seq<Entry>, section: u8, key: u16, maxLen: nat): Option<seq<u8>>
  {
    match Find(es, section, key)
    case None => None
    case Some(i) => if |es[i].value| <= maxLen then Some(es[i].value) else None
  }

  // ---------------------------------------------------------------------------------------------
  // Wire encoding of the items: [u16 count] then per item [u8 type][u8 section][u16 key][u16 size][size bytes]

  /** The number of buffer bytes the items occupy: six header bytes and the value for each. */
  function Span(es: seq<Entry>): nat
  {
    if es == [] then 0 else 6 + |es[0].value| + Span(es[1..])
  }

  /** The item whose header starts at `at`, if its header and its value both lie inside buf. */
  function EntryAt(buf: seq<u8>, at: nat): Option<Entry>
  {
    if at + 6 > |buf| then None
    else
      var size := LE16(buf, at + 4);
      if at + 6 + size > |buf| then None
      else Some(Entry(buf[at], buf[at + 1], LE16(buf, at + 2), buf[at + 6..at + 6 + size]))
  }

  /** The result of walking the items: whether all of them were inside the buffer, and those that were. */
  datatype Walk = Walk(complete: bool, entries: seq<Entry>)

  /** The bounds-checked walk over `count` items from offset `at`: it stops at the first item that would overrun buf. */
  function WalkEntries(buf: seq<u8>, at: nat, count: nat): Walk
    decreases count
  {
    if count == 0 then Walk(true, [])
    else match EntryAt(buf, at)
      case None => Walk(false, [])
      case Some(e) =>
        var rest := WalkEntries(buf, at + 6 + |e.value|, count - 1);
        Walk(rest.complete, [e] + rest.entries)
  }

  /** One step of the walk: an item e that fits is the first of the items, and the walk goes on right after its value. */
  lemma WalkStep(buf: seq<u8>, at: nat, count: nat, e: Entry, next: nat, rest: Walk)
    requires count > 0 && EntryAt(buf, at) == Some(e) && next == at + 6 + |e.value|
    requires WalkEntries(buf, next, count - 1) == rest
    ensures WalkEntries(buf, at, count) == Walk(rest.complete, [e] + rest.entries)
  {
  }

  /** The walk of buf is the items `done` followed by the walk of `left` items from offset `at`. */
  predicate Resumes(buf: seq<u8>, whole: Walk, done: seq<Entry>, at: nat, left: nat)
  {
    var rest := WalkEntries(buf, at, left);
    whole == Walk(rest.complete, done + rest.entries)
  }

  /** Stopping at an item that would overrun buf ends the walk, incomplete, with `done`. */
  lemma WalkStopsAfter(buf: seq<u8>, whole: Walk, done: seq<Entry>, at: nat, left: nat)
    requires left > 0 && EntryAt(buf, at).None? && Resumes(buf, whole, done, at, left)
    ensures whole == Walk(false, done)
  {
    assert done + [] == done;
  }

  /** An item that fits moves from what is left to `done`; the walk goes on at `next` with `left - 1` items. */
  lemma WalkStepAfter(buf: seq<u8>, whole: Walk, done: seq<Entry>, at: nat, left: nat, e: Entry, next: nat)
    requires left > 0 && EntryAt(buf, at) == Some(e) && next == at + 6 + |e.value|
    requires Resumes(buf, whole, done, at, left)
    ensures Resumes(buf, whole, done + [e], next, left - 1)
  {
    var rest := WalkEntries(buf, next, left - 1);
    assert done + ([e] + rest.entries) == (done + [e]) + rest.entries;
  }

  /** The walk ends, complete, when no items are left. */
  lemma WalkDone(buf: seq<u8>, whole: Walk, done: seq<Entry>, at: nat)
    requires Resumes(buf, whole, done, at, 0)
    ensures whole == Walk(true, done)
  {
    assert done + [] == done;
  }

  /** The items of a header buffer: a little-endian u16 count at offset 0, then the items from offset 2. */
  function ParseItems(buf: seq<u8>): Walk
  {
    if |buf| < 2 then Walk(false, []) else WalkEntries(buf, 2, LE16(buf, 0))
  }

  /** The item e is stored in buf with its header at offset `off` and its value inside buf. */
  ghost predicate StoredAt(buf: seq<u8>, off: nat, e: Entry)
  {
    && off + 6 + |e.value| <= |buf|
    && buf[off] == e.tag
    && buf[off + 1] == e.section
    && LE16(buf, off + 2) == e.key
    && LE16(buf, off + 4) == |e.value|
    && buf[off + 6..off + 6 + |e.value|] == e.value
  }

  /** A completed walk yields exactly `count` items; an interrupted one yields fewer. */
  lemma {:induction false} WalkCount(buf: seq<u8>, at: nat, count: nat)
    ensures var w := WalkEntries(buf, at, count);
      (w.complete ==> |w.entries| == count) && (!w.complete ==> |w.entries| < count)
    decreases count
  {
    if count > 0 {
      match EntryAt(buf, at)
      case None =>
      case Some(e) => WalkCount(buf, at + 6 + |e.value|, count - 1);
    }
  }

  /** An item the walk reads is stored in buf where it was read. */
  lemma EntryAtStored(buf: seq<u8>, at: nat)
    requires EntryAt(buf, at).Some?
    ensures StoredAt(buf, at, EntryAt(buf, at).value)
  {
  }

  /** The span of the first k >= 1 items is the first item's size followed by the span of k - 1 of the others. */
  lemma SpanCons(e: Entry, rest: seq<Entry>, k: nat)
    requires 1 <= k <= |rest| + 1
    ensures Span(([e] + rest)[..k]) == 6 + |e.value| + Span(rest[..k - 1])
  {
    var es := [e] + rest;
    assert es[..k][0] == e && es[..k][1..] == rest[..k - 1];
  }

  /** Every item a walk yields is the one read at `at` plus the spans of the items before it. */
  lemma {:induction false} WalkLayout(buf: seq<u8>, at: nat, count: nat, i: nat)
    requires i < |WalkEntries(buf, at, count).entries|
    ensures var es := WalkEntries(buf, at, count).entries;
      EntryAt(buf, at + Span(es[..i])) == Some(es[i])
    decreases count
  {
    var e := EntryAt(buf, at).value;
    var next := at + 6 + |e.value|;
    var rest := WalkEntries(buf, next, count - 1);
    WalkStep(buf, at, count, e, next, rest);
    var es := WalkEntries(buf, at, count).entries;
    assert es == [e] + rest.entries;
    if i == 0 {
      assert es[..0] == [];
      assert at + Span(es[..i]) == at;
    } else {
      SpanCons(e, rest.entries, i);
      assert at + Span(es[..i]) == next + Span(rest.entries[..i - 1]);
      assert es[i] == rest.entries[i - 1];
      WalkLayout(buf, next, count - 1, i - 1);
    }
  }

  /** The items of a completed walk end inside the buffer: at + Span(items) <= |buf|. */
  lemma {:induction false} WalkWithin(buf: seq<u8>, at: nat, count: nat)
    requires at <= |buf| && WalkEntries(buf, at, count).complete
    ensures at + Span(WalkEntries(buf, at, count).entries) <= |buf|
    decreases count
  {
    if count > 0 {
      var e := EntryAt(buf, at).value;
      WalkWithin(buf, at + 6 + |e.value|, count - 1);
      assert ([e] + WalkEntries(buf, at + 6 + |e.value|, count - 1).entries)[1..]
          == WalkEntries(buf, at + 6 + |e.value|, count - 1).entries;
    }
  }

  /**
   * The header buffer's items: a complete parse holds exactly the stored count, the i-th item's
   * header starts 2 + Span(earlier items) bytes into the buffer, and every item lies inside it.
   */
  lemma ParsedItemsLayout(buf: seq<u8>, i: nat)
    requires i < |ParseItems(buf).entries|
    ensures |buf| >= 2
    ensures var es := ParseItems(buf).entries; StoredAt(buf, 2 + Span(es[..i]), es[i])
  {
    WalkLayout(buf, 2, LE16(buf, 0), i);
    var es := ParseItems(buf).entries;
    EntryAtStored(buf, 2 + Span(es[..i]));
  }

  /** A parse is complete exactly when the buffer holds a count and that many items that fit. */
  lemma ParsedItemsCount(buf: seq<u8>)
    ensures var w := ParseItems(buf);
      && (w.complete ==> |buf| >= 2 && |w.entries| == LE16(buf, 0) && 2 + Span(w.entries) <= |buf|)
      && (!w.complete ==> |buf| < 2 || |w.entries| < LE16(buf, 0))
  {
    if |buf| >= 2 {
      WalkCount(buf, 2, LE16(buf, 0));
      if ParseItems(buf).complete {
        WalkWithin(buf, 2, LE16(buf, 0));
      }
    }
  }

  // ---------------------------------------------------------------------------------------------
  // The writer's side of the encoding, as the partner of the walk.

  /** Every value is short enough for its u16 size field. */
  predicate ValuesFit(es: seq<Entry>)
  {
    es == [] || (|es[0].value| < 0x1_0000 && ValuesFit(es[1..]))
  }

  /** The items fit the encoding: a u16 count, and a u16 size for each value. */
  predicate Encodable(es: seq<Entry>)
  {
    |es| < 0x1_0000 && ValuesFit(es)
  }

  /** The bytes of one item. */
  function EncodeEntry(e: Entry): (b: seq<u8>)
    requires |e.value| < 0x1_0000
    ensures |b| == 6 + |e.value|
  {
    [e.tag, e.section] + U16Bytes(e.key) + U16Bytes(|e.value|) + e.value
  }

  /** The bytes of several items, back to back. */
  function EncodeEntries(es: seq<Entry>): seq<u8>
    requires ValuesFit(es)
  {
    if es == [] then [] else EncodeEntry(es[0]) + EncodeEntries(es[1..])
  }

  /** A header buffer as the writer lays it out: the item count, then the items. */
  function EncodeItems(es: seq<Entry>): seq<u8>
    requires Encodable(es)
  {
    U16Bytes(|es|) + EncodeEntries(es)
  }

  /** The walk reads back the item the writer stored at `at`, whatever precedes or follows it. */
  lemma EntryAtEncoded(buf: seq<u8>, at: nat, e: Entry)
    requires |e.value| < 0x1_0000 && at + 6 + |e.value| <= |buf|
    requires buf[at..at + 6 + |e.value|] == EncodeEntry(e)
    ensures EntryAt(buf, at) == Some(e)
  {
    var k, l := U16Bytes(e.key), U16Bytes(|e.value|);
    var here := buf[at..at + 6 + |e.value|];
    assert here == [e.tag, e.section] + k + l + e.value;
    assert here[2..4] == k && here[4..6] == l && here[6..] == e.value;
    assert buf[at] == here[0] == e.tag && buf[at + 1] == here[1] == e.section;
    assert buf[at + 2] == here[2] && buf[at + 3] == here[3] && buf[at + 4] == here[4] && buf[at + 5] == here[5];
    LE16Local(here, 2, k, 0);
    LE16Local(here, 4, l, 0);
    assert LE16(buf, at + 2) == LE16(here, 2) && LE16(buf, at + 4) == LE16(here, 4);
    assert buf[at + 6..at + 6 + |e.value|] == here[6..];
  }

  /** Two byte strings stored back to back at `at`: each of them is stored where it begins. */
  lemma SliceSplit(buf: seq<u8>, at: nat, a: seq<u8>, b: seq<u8>)
    requires at + |a| + |b| <= |buf| && buf[at..at + |a + b|] == a + b
    ensures buf[at..at + |a|] == a && buf[at + |a|..at + |a| + |b|] == b
  {
    var here := buf[at..at + |a + b|];
    assert buf[at..at + |a|] == here[..|a|];
    assert buf[at + |a|..at + |a| + |b|] == here[|a|..];
  }

  /** The first item encoded at `at` is read back. */
  lemma EncodedHead(buf: seq<u8>, at: nat, es: seq<Entry>)
    requires es != [] && ValuesFit(es) && at + |EncodeEntries(es)| <= |buf|
    requires buf[at..at + |EncodeEntries(es)|] == EncodeEntries(es)
    ensures EntryAt(buf, at) == Some(es[0])
  {
    var enc := EncodeEntry(es[0]);
    assert buf[at..at + |enc|] == enc by {
      assert EncodeEntries(es) == enc + EncodeEntries(es[1..]);
      SliceSplit(buf, at, enc, EncodeEntries(es[1..]));
    }
    EntryAtEncoded(buf, at, es[0]);
  }

  /** The other items are encoded right after the first. */
  lemma EncodedTail(buf: seq<u8>, at: nat, es: seq<Entry>)
    requires es != [] && ValuesFit(es) && at + |EncodeEntries(es)| <= |buf|
    requires buf[at..at + |EncodeEntries(es)|] == EncodeEntries(es)
    ensures var next, rest := at + 6 + |es[0].value|, EncodeEntries(es[1..]);
      && ValuesFit(es[1..]) && next + |rest| <= |buf| && buf[next..next + |rest|] == rest
  {
    var enc, rest := EncodeEntry(es[0]), EncodeEntries(es[1..]);
    assert ValuesFit(es[1..]) && EncodeEntries(es) == enc + rest && |enc| == 6 + |es[0].value|;
    SliceSplit(buf, at, enc, rest);
  }

  /** Every item encoded at `at` is read back in turn, and the walk over them completes. */
  lemma {:induction false} WalkEncoded(buf: seq<u8>, at: nat, es: seq<Entry>)
    requires ValuesFit(es) && at + |EncodeEntries(es)| <= |buf|
    requires buf[at..at + |EncodeEntries(es)|] == EncodeEntries(es)
    ensures WalkEntries(buf, at, |es|) == Walk(true, es)
    decreases |es|
  {
    if es != [] {
      var next := at + 6 + |es[0].value|;
      assert WalkEntries(buf, next, |es| - 1) == Walk(true, es[1..]) by {
        EncodedTail(buf, at, es);
        WalkEncoded(buf, next, es[1..]);
      }
      assert EntryAt(buf, at) == Some(es[0]) by {
        EncodedHead(buf, at, es);
      }
      WalkStep(buf, at, |es|, es[0], next, Walk(true, es[1..]));
      assert [es[0]] + es[1..] == es;
    }
  }

  /** Round trip: decoding the buffer a writer encodes yields its items, in order, whatever trails them. */
  lemma ParseEncodedItems(es: seq<Entry>, trailing: seq<u8>)
    requires Encodable(es)
    ensures ParseItems(EncodeItems(es) + trailing) == Walk(true, es)
  {
    var buf := EncodeItems(es) + trailing;
    var body := EncodeEntries(es);
    assert buf == U16Bytes(|es|) + body + trailing;
    assert buf[0..2] == U16Bytes(|es|)[0..2];
    LE16Local(buf, 0, U16Bytes(|es|), 0);
    assert buf[2..2 + |body|] == body;
    WalkEncoded(buf, 2, es);
  }

  // ---------------------------------------------------------------------------------------------
  // The walk as the source writes it: no comparison of bufpos with headerlen.

  /**
   * The items archreader_read_dico collects as written: the count and every item are read
   * wherever bufpos points, so the walk is bounded only by the memory that follows the
   * header buffer (`beyond`), never by the buffer's own length.
   */
  function UncheckedItems(buf: seq<u8>, beyond: seq<u8>): seq<Entry>
  {
    var mem := buf + beyond;
    if |mem| < 2 then [] else WalkEntries(mem, 2, LE16(mem, 0)).entries
  }

  /** Counterexample: a 2-byte buffer declaring one item makes the source build that item from bytes past the buffer. */
  lemma UncheckedItemsReadPastBuffer()
    ensures UncheckedItems([1, 0], [7, 0, 0, 0, 0, 0]) == [Entry(7, 0, 0, [])]
    ensures UncheckedItems([1, 0], [9, 0, 0, 0, 0, 0]) == [Entry(9, 0, 0, [])]
    ensures ParseItems([1, 0]) == Walk(false, [])
  {
    var m1: seq<u8> := [1, 0] + [7, 0, 0, 0, 0, 0];
    assert m1 == [1, 0, 7, 0, 0, 0, 0, 0];
    assert LE16(m1, 0) == 1 && LE16(m1, 4) == 0 && LE16(m1, 6) == 0 && m1[8..8] == [];
    assert EntryAt(m1, 2) == Some(Entry(7, 0, 0, []));
    var m2: seq<u8> := [1, 0] + [9, 0, 0, 0, 0, 0];
    assert m2 == [1, 0, 9, 0, 0, 0, 0, 0];
    assert LE16(m2, 0) == 1 && LE16(m2, 4) == 0 && LE16(m2, 6) == 0 && m2[8..8] == [];
    assert EntryAt(m2, 2) == Some(Entry(9, 0, 0, []));
  }

  /** An item that lies inside buf reads the same once more bytes follow buf. */
  lemma EntryAtExtends(buf: seq<u8>, beyond: seq<u8>, at: nat)
    requires EntryAt(buf, at).Some?
    ensures EntryAt(buf + beyond, at) == EntryAt(buf, at)
  {
    var e := EntryAt(buf, at).value;
    var mem := buf + beyond;
    assert mem[at..at + 6] == buf[at..at + 6];
    LE16Local(mem, at + 4, buf, at + 4);
    LE16Local(mem, at + 2, buf, at + 2);
    assert mem[at + 6..at + 6 + |e.value|] == buf[at + 6..at + 6 + |e.value|];
  }

  /** The checked walk does not look past the bytes a complete walk used. */
  lemma {:induction false} WalkExtends(buf: seq<u8>, beyond: seq<u8>, at: nat, count: nat)
    requires WalkEntries(buf, at, count).complete
    ensures WalkEntries(buf + beyond, at, count) == WalkEntries(buf, at, count)
    decreases count
  {
    if count > 0 {
      var e := EntryAt(buf, at).value;
      EntryAtExtends(buf, beyond, at);
      WalkExtends(buf, beyond, at + 6 + |e.value|, count - 1);
    }
  }

  /** On a buffer whose items all fit, the source's unchecked walk and the checked walk agree. */
  lemma UncheckedAgreesWhenInBounds(buf: seq<u8>, beyond: seq<u8>)
    requires ParseItems(buf).complete
    ensures UncheckedItems(buf, beyond) == ParseItems(buf).entries
  {
    var mem := buf + beyond;
    assert mem[0..2] == buf[0..2];
    LE16Local(mem, 0, buf, 0);
    WalkExtends(buf, beyond, 2, LE16(buf, 0));
  }
}

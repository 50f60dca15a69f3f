/**
 * archreader_volpath: the path of volume N, built from the base path by dropping its last two
 * bytes and appending the volume number ("archive.fsa", "archive.f01", "archive.f02", ...).
 * Paths are C strings, so they are byte sequences here: strlen and memcpy count bytes.
 */
module VolumePaths {
  import opened Bytes
  import opened Wrappers

  /** A path as its bytes, without the terminating NUL. */
  type Path = seq<u8>

  /** The ASCII code of '0'. */
  const ZERO: u8 := 0x30

  predicate IsDigit(c: u8)
  {
    ZERO <= c <= ZERO + 9
  }

  predicate AllDigits(s: Path)
  {
    forall i :: 0 <= i < |s| ==> IsDigit(s[i])
  }

  function DigitChar(d: nat): (c: u8)
    requires d < 10
    ensures IsDigit(c)
  {
    (ZERO as int + d) as u8
  }

  function DigitValue(c: u8): nat
    requires IsDigit(c)
  {
    c as int - ZERO as int
  }

  /** The bytes of a path written with ASCII characters only. */
  function Ascii(s: string): (p: Path)
    requires forall i :: 0 <= i < |s| ==> s[i] as int < 128
    ensures |p| == |s| && forall i :: 0 <= i < |s| ==> p[i] as int == s[i] as int
  {
    seq(|s|, i requires 0 <= i < |s| => s[i] as int as u8)
  }

  /** printf "%ld" of a non-negative number: its decimal digits, one digit exactly for 0..9. */
  function Decimal(n: nat): (s: Path)
    ensures AllDigits(s)
    ensures |s| >= 1 && (|s| == 1 <==> n < 10)
  {
    if n < 10 then [DigitChar(n)] else Decimal(n / 10) + [DigitChar(n % 10)]
  }

  /** The number a string of decimal digits stands for. */
  function ParseDecimal(s: Path): nat
    requires AllDigits(s)
  {
    if s == [] then 0 else ParseDecimal(s[..|s| - 1]) * 10 + DigitValue(s[|s| - 1])
  }

  /** Decimal is read back exactly, and its first digit is never a padding zero for n >= 1. */
  lemma {:induction false} DecimalRoundTrip(n: nat)
    ensures ParseDecimal(Decimal(n)) == n
    ensures n >= 1 ==> Decimal(n)[0] != ZERO
  {
    if n >= 10 {
      var s := Decimal(n);
      DecimalRoundTrip(n / 10);
      assert s[..|s| - 1] == Decimal(n / 10);
      assert s[0] == Decimal(n / 10)[0];
    } else {
      assert Decimal(n)[..0] == [];
    }
  }

  /** printf "%.2ld": the decimal digits, zero-padded to at least two. */
  function Pad2(n: nat): Path
  {
    var d := Decimal(n);
    if |d| < 2 then [ZERO] + d else d
  }

  /** The numeric suffix of volume vol >= 1: two digits for 1..99, plain decimal from 100 on. */
  function VolumeSuffix(vol: nat): Path
  {
    if vol < 100 then Pad2(vol) else Decimal(vol)
  }

  /**
   * archreader_volpath with ai->basepath == basepath and ai->curvol == curvol: None (the -1
   * result) for a base path shorter than four characters; for the first volume the result of
   * realpath (`canonical`), or the base path itself when realpath failed; otherwise the base
   * path without its last two characters followed by the volume suffix.
   */
  function VolPathSpec(basepath: Path, curvol: nat, canonical: Option<Path>): (r: Option<Path>)
    ensures r.None? <==> |basepath| < 4
  {
    if |basepath| < 4 then None
    else if curvol == 0 then Some(canonical.GetOr(basepath))
    else Some(basepath[..|basepath| - 2] + VolumeSuffix(curvol))
  }

  /** The suffix of volume vol >= 1 is all digits and reads back as vol: two of them below 100, more from 100 on. */
  lemma SuffixReadsBack(vol: nat)
    requires vol >= 1
    ensures var sfx := VolumeSuffix(vol);
      && AllDigits(sfx) && ParseDecimal(sfx) == vol
      && (vol < 100 ==> |sfx| == 2)
      && (vol >= 100 ==> |sfx| >= 3 && sfx[0] != ZERO)
  {
    DecimalRoundTrip(vol);
    var d := Decimal(vol);
    if vol < 10 {
      var sfx := [ZERO] + d;
      assert sfx[..1] == [ZERO];
      var zero: Path := [ZERO];
      assert zero[..0] == [];
      assert ParseDecimal(zero) == 0;
    } else if vol >= 100 {
      assert |Decimal(vol / 10)| >= 2;
    }
  }

  /**
   * For volume curvol >= 1 the path is the base path minus its last two characters, then the
   * volume number in at least two digits; the number can be read back from the path.
   */
  lemma VolPathOfVolume(basepath: Path, curvol: nat, canonical: Option<Path>)
    requires |basepath| >= 4 && curvol >= 1
    ensures VolPathSpec(basepath, curvol, canonical).Some?
    ensures var p := VolPathSpec(basepath, curvol, canonical).value; var stem := |basepath| - 2;
      && |p| >= |basepath|
      && p[..stem] == basepath[..stem]
      && AllDigits(p[stem..]) && ParseDecimal(p[stem..]) == curvol
      && (curvol < 100 ==> |p| == |basepath|)
  {
    SuffixReadsBack(curvol);
    var p := VolPathSpec(basepath, curvol, canonical).value;
    assert p[|basepath| - 2..] == VolumeSuffix(curvol);
  }

  /** Distinct volumes >= 1 of one archive get distinct paths. */
  lemma VolPathsDistinct(basepath: Path, v1: nat, v2: nat, c1: Option<Path>, c2: Option<Path>)
    requires |basepath| >= 4 && v1 >= 1 && v2 >= 1 && v1 != v2
    ensures VolPathSpec(basepath, v1, c1) != VolPathSpec(basepath, v2, c2)
  {
    VolPathOfVolume(basepath, v1, c1);
    VolPathOfVolume(basepath, v2, c2);
  }

  /** The paths of an archive named /a/b/archive.fsa: volume 0 itself (realpath failing), then archive.f05, archive.f150. */
  lemma VolPathExamples()
    ensures VolPathSpec(Ascii("/a/b/archive.fsa"), 0, None) == Some(Ascii("/a/b/archive.fsa"))
    ensures VolPathSpec(Ascii("/a/b/archive.fsa"), 5, None) == Some(Ascii("/a/b/archive.f05"))
    ensures VolPathSpec(Ascii("/a/b/archive.fsa"), 150, None) == Some(Ascii("/a/b/archive.f150"))
  {
    var base := Ascii("/a/b/archive.fsa");
    var stem := Ascii("/a/b/archive.f");
    assert base[..|base| - 2] == stem;
    assert DigitChar(5) == 0x35 && DigitChar(1) == 0x31 && DigitChar(0) == 0x30;
    assert Decimal(5) == [0x35];
    assert VolumeSuffix(5) == [0x30, 0x35];
    assert Decimal(15) == Decimal(1) + [0x35] == [0x31, 0x35];
    assert Decimal(150) == Decimal(15) + [0x30] == [0x31, 0x35, 0x30];
    assert VolumeSuffix(150) == [0x31, 0x35, 0x30];
    assert Ascii("/a/b/archive.f05") == stem + [0x30, 0x35];
    assert Ascii("/a/b/archive.f150") == stem + [0x31, 0x35, 0x30];
  }

  /**
   * The length check and the two dropped characters count bytes: "/éa" in UTF-8 is four bytes
   * (0xC3 0xA9 for the é), long enough for a path, and volume 5 keeps "/" and the first byte of é.
   */
  lemma VolPathCountsBytes()
    ensures VolPathSpec([0x2F, 0xC3, 0xA9, 0x61], 5, None) == Some([0x2F, 0xC3, 0x30, 0x35])
    ensures VolPathSpec([0x2F, 0x61, 0x62], 5, None) == None
  {
    var base: Path := [0x2F, 0xC3, 0xA9, 0x61];
    assert base[..|base| - 2] == [0x2F, 0xC3];
    assert DigitChar(5) == 0x35;
    assert VolumeSuffix(5) == [0x30, 0x35];
    assert VolPathSpec(base, 5, None) == Some(base[..|base| - 2] + VolumeSuffix(5));
    assert [0x2F, 0xC3] + [0x30, 0x35] == [0x2F, 0xC3, 0x30, 0x35];
  }
}

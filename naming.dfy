/**
 The names a run gives each window's output: the timestamp text
 `strftime('%Y_%m_%d-%H_%M_%S')`, the bundle sub-directory chosen by the
 window's unit tag, the objects directory `<kind>_objects-<lo>-<hi>` and the
 bundle path `<kind>/<subdir>/<kind>-bundle-<lo>-<hi>.json`, where the job
 kind is `cve` or `cpe`. Each name has a reader that takes it apart again,
 so that the names of distinct windows are distinct.
 */
module Naming {
  import opened Wrappers
  import opened Digits
  import opened Calendar
  import opened Partition

  /** The two parts of a concatenation. */
  lemma Concat(a: string, b: string)
    ensures (a + b)[..|a|] == a && (a + b)[|a|..] == b
  {
  }

  /** The three parts of a concatenation with a one-character separator. */
  lemma Separated(a: string, c: char, b: string)
    ensures |a + [c] + b| == |a| + 1 + |b|
    ensures (a + [c] + b)[..|a|] == a
    ensures (a + [c] + b)[|a|] == c
    ensures (a + [c] + b)[|a| + 1..] == b
  {
    var x := a + [c] + b;
    assert x[..|a|] == a;
    assert x[|a| + 1..] == b;
  }

  /** A string is its parts around the character at `i`. */
  lemma Rejoin(x: string, i: nat)
    requires i < |x|
    ensures x[..i] + [x[i]] + x[i + 1..] == x
  {
  }

  /** The two jobs a run can start. */
  datatype JobKind = Cve | Cpe

  function KindName(k: JobKind): string {
    match k
    case Cve => "cve"
    case Cpe => "cpe"
  }

  function ReadKind(s: string): Option<JobKind> {
    if s == "cve" then Some(Cve) else if s == "cpe" then Some(Cpe) else None
  }

  lemma KindRoundTrip(k: JobKind)
    ensures |KindName(k)| == 3
    ensures ReadKind(KindName(k)) == Some(k)
  {
  }

  // ---------------------------------------------------------------------
  // Timestamps
  // ---------------------------------------------------------------------

  /** `a_b_c`, with `a` zero-padded to `width` digits and `b`, `c` to two. */
  function Fields(a: nat, b: nat, c: nat, width: nat): string {
    Pad(a, width) + "_" + (Pad(b, 2) + "_" + Pad(c, 2))
  }

  /** Reads `bb_cc`. */
  function ReadTwoFields(y: string): Option<(nat, nat)> {
    if |y| != 5 || y[2] != '_' || !AllDigits(y[..2]) || !AllDigits(y[3..]) then None
    else Some((Value(y[..2]), Value(y[3..])))
  }

  /** Reads `a_bb_cc` with `a` of `width` digits. */
  function ReadFields(x: string, width: nat): Option<(nat, nat, nat)> {
    if |x| != width + 6 || x[width] != '_' || !AllDigits(x[..width]) then None
    else
      match ReadTwoFields(x[width + 1..])
      case Some((b, c)) => Some((Value(x[..width]), b, c))
      case None => None
  }

  lemma FieldsRoundTrip(a: nat, b: nat, c: nat, width: nat)
    requires a < Pow10(width) && b < 100 && c < 100
    ensures |Fields(a, b, c, width)| == width + 6
    ensures ReadFields(Fields(a, b, c, width), width) == Some((a, b, c))
  {
    var pa, pb, pc := Pad(a, width), Pad(b, 2), Pad(c, 2);
    var tail := pb + ['_'] + pc;
    var x := pa + ['_'] + tail;
    assert x == Fields(a, b, c, width);
    Separated(pb, '_', pc);
    Separated(pa, '_', tail);
    assert Pow10(2) == 100;
    ValueOfPad(a, width);
    ValueOfPad(b, 2);
    ValueOfPad(c, 2);
    assert ReadTwoFields(tail) == Some((b, c));
  }

  lemma ReadFieldsIsInverse(x: string, width: nat)
    requires ReadFields(x, width).Some?
    ensures var (a, b, c) := ReadFields(x, width).value;
            Fields(a, b, c, width) == x
  {
    var y := x[width + 1..];
    PadOfValue(x[..width]);
    PadOfValue(y[..2]);
    PadOfValue(y[3..]);
    Rejoin(y, 2);
    Rejoin(x, width);
  }

  const StampLength := 19

  /**
   The timestamps `%Y` pads to four digits: `strftime` pads years below
   1000 differently across C libraries, so those are not modelled.
   */
  predicate Stampable(t: DateTime) {
    ValidDateTime(t) && 1000 <= t.year
  }

  /** `t.strftime('%Y_%m_%d-%H_%M_%S')`. */
  function Stamp(t: DateTime): string
    requires Stampable(t)
  {
    Fields(t.year, t.month, t.day, 4) + "-" + Fields(t.hour, t.minute, t.second, 2)
  }

  /** Reads a timestamp text back (`strptime` with the same format). */
  function ReadStamp(s: string): Option<DateTime> {
    if |s| != StampLength || s[10] != '-' then None
    else
      match (ReadFields(s[..10], 4), ReadFields(s[11..], 2))
      case (Some((y, mo, d)), Some((h, mi, se))) =>
        var t := DateTime(y, mo, d, h, mi, se);
        if Stampable(t) then Some(t) else None
      case _ => None
  }

  /** Reading a printed timestamp gives it back. */
  lemma StampRoundTrip(t: DateTime)
    requires Stampable(t)
    ensures |Stamp(t)| == StampLength
    ensures ReadStamp(Stamp(t)) == Some(t)
  {
    var date, time := Fields(t.year, t.month, t.day, 4), Fields(t.hour, t.minute, t.second, 2);
    assert Pow10(4) == 10000 && Pow10(2) == 100;
    FieldsRoundTrip(t.year, t.month, t.day, 4);
    FieldsRoundTrip(t.hour, t.minute, t.second, 2);
    Separated(date, '-', time);
  }

  /** Every text the reader accepts is the printed form of what it reads. */
  lemma ReadStampIsInverse(s: string)
    requires ReadStamp(s).Some?
    ensures Stampable(ReadStamp(s).value) && Stamp(ReadStamp(s).value) == s
  {
    ReadFieldsIsInverse(s[..10], 4);
    ReadFieldsIsInverse(s[11..], 2);
    Rejoin(s, 10);
  }

  /** Distinct timestamps print differently. */
  lemma StampInjective(a: DateTime, b: DateTime)
    requires Stampable(a) && Stampable(b)
    requires Stamp(a) == Stamp(b)
    ensures a == b
  {
    StampRoundTrip(a);
    StampRoundTrip(b);
  }

  /** `<lo>-<hi>`, the part of both names that identifies the window. */
  function StampPair(lo: DateTime, hi: DateTime): string
    requires Stampable(lo) && Stampable(hi)
  {
    Stamp(lo) + "-" + Stamp(hi)
  }

  const StampPairLength := 39

  function ReadStampPair(x: string): Option<(DateTime, DateTime)> {
    if |x| != StampPairLength || x[19] != '-' then None
    else
      match (ReadStamp(x[..19]), ReadStamp(x[20..]))
      case (Some(lo), Some(hi)) => Some((lo, hi))
      case _ => None
  }

  lemma StampPairRoundTrip(lo: DateTime, hi: DateTime)
    requires Stampable(lo) && Stampable(hi)
    ensures |StampPair(lo, hi)| == StampPairLength
    ensures ReadStampPair(StampPair(lo, hi)) == Some((lo, hi))
  {
    StampRoundTrip(lo);
    StampRoundTrip(hi);
    Separated(Stamp(lo), '-', Stamp(hi));
  }

  lemma ReadStampPairIsInverse(x: string)
    requires ReadStampPair(x).Some?
    ensures var (lo, hi) := ReadStampPair(x).value;
            Stampable(lo) && Stampable(hi) && StampPair(lo, hi) == x
  {
    ReadStampIsInverse(x[..19]);
    ReadStampIsInverse(x[20..]);
    Rejoin(x, 19);
  }

  // ---------------------------------------------------------------------
  // Output names
  // ---------------------------------------------------------------------

  /**
   The bundle sub-directory of a window: its start's year for a month tag,
   year and month for a day tag, and the bundle directory itself otherwise.
   */
  function SubDir(tag: char, lo: DateTime): string
    requires Stampable(lo)
  {
    match tag
    case 'm' => Pad(lo.year, 4)
    case 'd' => Pad(lo.year, 4) + "-" + Pad(lo.month, 2)
    case _ => "."
  }

  /** What each sub-directory name says, and that none of them nests further. */
  lemma SubDirContents(tag: char, lo: DateTime)
    requires Stampable(lo)
    ensures var r := SubDir(tag, lo);
            && (forall i :: 0 <= i < |r| ==> r[i] != '/')
            && (tag == 'm' ==> |r| == 4 && AllDigits(r) && Value(r) == lo.year)
            && (tag == 'd' ==> |r| == 7 && r[4] == '-' && AllDigits(r[..4]) && AllDigits(r[5..])
                               && Value(r[..4]) == lo.year && Value(r[5..]) == lo.month)
            && (tag != 'm' && tag != 'd' ==> r == ".")
  {
    assert Pow10(4) == 10000 && Pow10(2) == 100;
    ValueOfPad(lo.year, 4);
    ValueOfPad(lo.month, 2);
    if tag == 'd' {
      Separated(Pad(lo.year, 4), '-', Pad(lo.month, 2));
    }
  }

  /** The job kind and window bounds a name records. */
  datatype Label = Label(kind: JobKind, lo: DateTime, hi: DateTime)

  /** The objects directory `<kind>_objects-<lo>-<hi>` of a window. */
  function ObjectsDirName(k: JobKind, w: Window): string
    requires Stampable(w.lo) && Stampable(w.hi)
  {
    KindName(k) + "_objects-" + StampPair(w.lo, w.hi)
  }

  function ReadObjectsDirName(n: string): Option<Label> {
    if |n| < 12 || n[3..12] != "_objects-" then None
    else
      match (ReadKind(n[..3]), ReadStampPair(n[12..]))
      case (Some(k), Some((lo, hi))) => Some(Label(k, lo, hi))
      case _ => None
  }

  /** An objects directory name records its kind and its window's bounds. */
  lemma ObjectsDirNameRoundTrip(k: JobKind, w: Window)
    requires Stampable(w.lo) && Stampable(w.hi)
    ensures ReadObjectsDirName(ObjectsDirName(k, w)) == Some(Label(k, w.lo, w.hi))
  {
    var head := KindName(k) + "_objects-";
    KindRoundTrip(k);
    StampPairRoundTrip(w.lo, w.hi);
    Concat(head, StampPair(w.lo, w.hi));
    Concat(KindName(k), "_objects-");
    assert (head + StampPair(w.lo, w.hi))[3..12] == head[3..];
  }

  /** Every name the reader accepts is the objects directory of what it reads. */
  lemma ReadObjectsDirNameIsInverse(n: string)
    requires ReadObjectsDirName(n).Some?
    ensures var l := ReadObjectsDirName(n).value;
            && Stampable(l.lo) && Stampable(l.hi)
            && forall tag :: ObjectsDirName(l.kind, Window(tag, l.lo, l.hi)) == n
  {
    var l := ReadObjectsDirName(n).value;
    ReadStampPairIsInverse(n[12..]);
    KindRoundTrip(l.kind);
    assert n == n[..3] + n[3..12] + n[12..];
  }

  /** The directory part `<kind>/<subdir>/` of a bundle path. */
  function BundleDir(k: JobKind, w: Window): string
    requires Stampable(w.lo)
  {
    KindName(k) + "/" + SubDir(w.tag, w.lo) + "/"
  }

  /** The file part `<kind>-bundle-<lo>-<hi>.json` of a bundle path. */
  function BundleFile(k: JobKind, w: Window): string
    requires Stampable(w.lo) && Stampable(w.hi)
  {
    KindName(k) + "-bundle-" + StampPair(w.lo, w.hi) + ".json"
  }

  /** The bundle path `<kind>/<subdir>/<kind>-bundle-<lo>-<hi>.json` of a window. */
  function BundleName(k: JobKind, w: Window): string
    requires Stampable(w.lo) && Stampable(w.hi)
  {
    BundleDir(k, w) + BundleFile(k, w)
  }

  /** The parts of a bundle path. */
  datatype BundleParts = BundleParts(key: Label, subdir: string)

  const BundleFileLength := 55

  function ReadBundleFile(f: string): Option<Label> {
    if |f| != BundleFileLength || f[3..11] != "-bundle-" || f[50..] != ".json" then None
    else
      match (ReadKind(f[..3]), ReadStampPair(f[11..50]))
      case (Some(k), Some((lo, hi))) => Some(Label(k, lo, hi))
      case _ => None
  }

  /** Takes a bundle path apart: the fixed-width file name from the end, the sub-directory from what is left. */
  function ReadBundleName(n: string): Option<BundleParts> {
    if |n| < BundleFileLength + 5 then None
    else
      var d, f := n[..|n| - BundleFileLength], n[|n| - BundleFileLength..];
      match ReadBundleFile(f)
      case Some(l) =>
        if d[..3] == f[..3] && d[3] == '/' && d[|d| - 1] == '/' then Some(BundleParts(l, d[4..|d| - 1])) else None
      case None => None
  }

  lemma BundleFileRoundTrip(k: JobKind, w: Window)
    requires Stampable(w.lo) && Stampable(w.hi)
    ensures |BundleFile(k, w)| == BundleFileLength
    ensures BundleFile(k, w)[..3] == KindName(k)
    ensures ReadBundleFile(BundleFile(k, w)) == Some(Label(k, w.lo, w.hi))
  {
    var p := StampPair(w.lo, w.hi);
    var head := KindName(k) + "-bundle-";
    KindRoundTrip(k);
    StampPairRoundTrip(w.lo, w.hi);
    Concat(head + p, ".json");
    Concat(head, p);
    Concat(KindName(k), "-bundle-");
    var f := BundleFile(k, w);
    assert f[..3] == head[..3];
    assert f[3..11] == head[3..];
    assert f[11..50] == p;
  }

  lemma BundleDirParts(k: JobKind, w: Window)
    requires Stampable(w.lo)
    ensures var d := BundleDir(k, w);
            && |d| == |SubDir(w.tag, w.lo)| + 5
            && d[..3] == KindName(k) && d[3] == '/' && d[|d| - 1] == '/'
            && d[4..|d| - 1] == SubDir(w.tag, w.lo)
  {
    var sd := SubDir(w.tag, w.lo);
    var d := BundleDir(k, w);
    KindRoundTrip(k);
    Concat(KindName(k) + "/" + sd, "/");
    Concat(KindName(k) + "/", sd);
    assert d[4..|d| - 1] == (KindName(k) + "/" + sd)[4..];
  }

  /** A bundle path records its kind, its window's bounds and its sub-directory. */
  lemma BundleNameRoundTrip(k: JobKind, w: Window)
    requires Stampable(w.lo) && Stampable(w.hi)
    ensures ReadBundleName(BundleName(k, w)) == Some(BundleParts(Label(k, w.lo, w.hi), SubDir(w.tag, w.lo)))
  {
    var d, f := BundleDir(k, w), BundleFile(k, w);
    BundleDirParts(k, w);
    BundleFileRoundTrip(k, w);
    Concat(d, f);
    var n := BundleName(k, w);
    assert n[..|n| - BundleFileLength] == d && n[|n| - BundleFileLength..] == f;
  }

  // ---------------------------------------------------------------------
  // Names of a whole run
  // ---------------------------------------------------------------------

  /** From a start in year 1000 or later every window of a partition can be printed. */
  lemma PartitionStampable(ws: seq<Window>, unit: char, num: nat, earliest: DateTime, latest: DateTime, i: nat)
    requires IsPartition(ws, unit, num, earliest, latest)
    requires 1000 <= earliest.year && i < |ws|
    ensures Stampable(ws[i].lo) && Stampable(ws[i].hi)
  {
    if i > 0 {
      StartsIncrease(ws, unit, num, earliest, latest, 0, i);
    }
  }

  /**
   No two windows of a run share an objects directory or a bundle path, and
   the two job kinds never share either.
   */
  lemma NamesDistinct(ws: seq<Window>, unit: char, num: nat, earliest: DateTime, latest: DateTime,
                      k1: JobKind, k2: JobKind, i: nat, j: nat)
    requires IsPartition(ws, unit, num, earliest, latest)
    requires 1000 <= earliest.year && i < |ws| && j < |ws|
    requires i != j || k1 != k2
    ensures Stampable(ws[i].lo) && Stampable(ws[i].hi) && Stampable(ws[j].lo) && Stampable(ws[j].hi)
    ensures ObjectsDirName(k1, ws[i]) != ObjectsDirName(k2, ws[j])
    ensures BundleName(k1, ws[i]) != BundleName(k2, ws[j])
  {
    PartitionStampable(ws, unit, num, earliest, latest, i);
    PartitionStampable(ws, unit, num, earliest, latest, j);
    if i < j {
      StartsIncrease(ws, unit, num, earliest, latest, i, j);
    } else if j < i {
      StartsIncrease(ws, unit, num, earliest, latest, j, i);
    }
    ObjectsDirNameRoundTrip(k1, ws[i]);
    ObjectsDirNameRoundTrip(k2, ws[j]);
    BundleNameRoundTrip(k1, ws[i]);
    BundleNameRoundTrip(k2, ws[j]);
  }

  // ---------------------------------------------------------------------
  // Examples
  // ---------------------------------------------------------------------

  lemma PadExamples()
    ensures Pad(2024, 4) == "2024"
    ensures Pad(0, 2) == "00" && Pad(1, 2) == "01" && Pad(31, 2) == "31"
    ensures Pad(23, 2) == "23" && Pad(59, 2) == "59"
  {
    assert Pad(202, 3) == "202" by {
      assert Pad(20, 2) == "20";
    }
  }

  /** The date and time fields of the first window of a January 2024 run by months. */
  lemma FieldsExamples()
    ensures Fields(2024, 1, 1, 4) == "2024_01_01" && Fields(2024, 1, 31, 4) == "2024_01_31"
    ensures Fields(0, 0, 0, 2) == "00_00_00" && Fields(23, 59, 59, 2) == "23_59_59"
  {
    PadExamples();
  }

  /** The two timestamps of that window. */
  lemma StampExamples()
    ensures Stamp(DateTime(2024, 1, 1, 0, 0, 0)) == "2024_01_01" + "-" + "00_00_00"
    ensures Stamp(DateTime(2024, 1, 31, 23, 59, 59)) == "2024_01_31" + "-" + "23_59_59"
  {
    FieldsExamples();
  }

  /** The objects directory of that window (the parts written apart). */
  lemma ObjectsDirNameExample()
    ensures ObjectsDirName(Cve, Window('m', DateTime(2024, 1, 1, 0, 0, 0), DateTime(2024, 1, 31, 23, 59, 59)))
            == "cve" + "_objects-" + (("2024_01_01" + "-" + "00_00_00") + "-" + ("2024_01_31" + "-" + "23_59_59"))
  {
    StampExamples();
  }

  /** The bundle path of that window: under the start's year. */
  lemma BundleNameExample()
    ensures BundleName(Cpe, Window('m', DateTime(2024, 1, 1, 0, 0, 0), DateTime(2024, 1, 31, 23, 59, 59)))
            == ("cpe" + "/" + "2024" + "/") + ("cpe" + "-bundle-" + (("2024_01_01" + "-" + "00_00_00") + "-" + ("2024_01_31" + "-" + "23_59_59")) + ".json")
  {
    PadExamples();
    StampExamples();
  }
}

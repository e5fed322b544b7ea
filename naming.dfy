/** Destination names for archived files: the `%Y%m%d_%H%M%S` clock stamp,
    and the parts of Python's `os.path` (POSIX flavour) that build and
    take apart paths: `join`, `splitext` and `basename`. */
module Naming {
  import opened Wrappers

  /** One reading of `datetime.now()`, taken as an input. */
  datatype DateTime = DateTime(year: int, month: int, day: int, hour: int, minute: int, second: int)

  /** The ranges `datetime` guarantees, with four-digit years (the range in
      which `%Y` always prints four digits). */
  predicate ValidDateTime(t: DateTime)
  {
    && 1000 <= t.year <= 9999
    && 1 <= t.month <= 12
    && 1 <= t.day <= 31
    && 0 <= t.hour <= 23
    && 0 <= t.minute <= 59
    && 0 <= t.second <= 59
  }

  function Pow10(w: nat): (r: nat)
    ensures r >= 1
  {
    if w == 0 then 1 else 10 * Pow10(w - 1)
  }

  predicate IsDigit(c: char) { '0' <= c <= '9' }

  predicate AllDigits(s: string)
  {
    forall i :: 0 <= i < |s| ==> IsDigit(s[i])
  }

  function DigitChar(d: int): (c: char)
    requires 0 <= d < 10
    ensures IsDigit(c) && c as int - '0' as int == d
  {
    ('0' as int + d) as char
  }

  /** `n` in decimal, zero-padded on the left to exactly `w` digits. */
  function Pad(n: int, w: nat): (r: string)
    requires 0 <= n < Pow10(w)
    ensures |r| == w && AllDigits(r)
  {
    if w == 0 then ""
    else
      assert n / 10 < Pow10(w - 1);
      Pad(n / 10, w - 1) + [DigitChar(n % 10)]
  }

  /** The number a string of decimal digits denotes. */
  function DigitsValue(s: string): (v: nat)
    requires AllDigits(s)
  {
    if s == [] then 0
    else DigitsValue(s[..|s| - 1]) * 10 + (s[|s| - 1] as int - '0' as int)
  }

  /** Reading a padded number back gives the number. */
  lemma {:induction false} PadRoundTrip(n: int, w: nat)
    requires 0 <= n < Pow10(w)
    ensures DigitsValue(Pad(n, w)) == n
  {
    if w > 0 {
      assert n / 10 < Pow10(w - 1);
      var p := Pad(n, w);
      assert p[..w - 1] == Pad(n / 10, w - 1);
      PadRoundTrip(n / 10, w - 1);
    }
  }

  /** `now.strftime('%Y%m%d_%H%M%S')`. */
  function Stamp(t: DateTime): (r: string)
    requires ValidDateTime(t)
    ensures |r| == 15
  {
    Pad(t.year, 4) + Pad(t.month, 2) + Pad(t.day, 2) + "_"
      + Pad(t.hour, 2) + Pad(t.minute, 2) + Pad(t.second, 2)
  }

  /** Reads a stamp back into the clock reading it was printed from. */
  function ParseStamp(s: string): (r: Option<DateTime>)
    ensures r.Some? ==> |s| == 15
  {
    if |s| == 15 && AllDigits(s[0..8]) && s[8] == '_' && AllDigits(s[9..15]) then
      assert AllDigits(s[0..4]) && AllDigits(s[4..6]) && AllDigits(s[6..8]);
      assert forall i :: 9 <= i < 15 ==> s[9..15][i - 9] == s[i];
      assert AllDigits(s[9..11]) && AllDigits(s[11..13]) && AllDigits(s[13..15]);
      Some(DateTime(DigitsValue(s[0..4]), DigitsValue(s[4..6]), DigitsValue(s[6..8]),
                    DigitsValue(s[9..11]), DigitsValue(s[11..13]), DigitsValue(s[13..15])))
    else None
  }

  /** A slice inside the left operand of a concatenation. */
  lemma SliceLeft(a: string, b: string, i: int, j: int)
    requires 0 <= i <= j <= |a|
    ensures (a + b)[i..j] == a[i..j]
  {
    assert forall k :: i <= k < j ==> (a + b)[k] == a[k];
  }

  /** The right operand of a concatenation is its tail after the left. */
  lemma SliceRight(a: string, b: string)
    ensures (a + b)[|a|..] == b
  {
    assert forall k :: 0 <= k < |b| ==> (a + b)[|a| + k] == b[k];
  }

  /** The six fields of a stamp sit at fixed positions. */
  lemma StampFields(t: DateTime)
    requires ValidDateTime(t)
    ensures var s := Stamp(t);
      && s[0..4] == Pad(t.year, 4) && s[4..6] == Pad(t.month, 2) && s[6..8] == Pad(t.day, 2)
      && s[8] == '_'
      && s[9..11] == Pad(t.hour, 2) && s[11..13] == Pad(t.minute, 2) && s[13..15] == Pad(t.second, 2)
  {
    var y, mo, d := Pad(t.year, 4), Pad(t.month, 2), Pad(t.day, 2);
    var h, mi, se := Pad(t.hour, 2), Pad(t.minute, 2), Pad(t.second, 2);
    var p1 := y;
    var p2 := p1 + mo;
    var p3 := p2 + d;
    var p4 := p3 + "_";
    var p5 := p4 + h;
    var p6 := p5 + mi;
    var s := p6 + se;
    assert s == Stamp(t);
    assert |p1| == 4 && |p2| == 6 && |p3| == 8 && |p4| == 9 && |p5| == 11 && |p6| == 13;
    // the year
    SliceLeft(p6, se, 0, 4); SliceLeft(p5, mi, 0, 4); SliceLeft(p4, h, 0, 4);
    SliceLeft(p3, "_", 0, 4); SliceLeft(p2, d, 0, 4); SliceLeft(p1, mo, 0, 4);
    assert p1[0..4] == y;
    // the month
    SliceLeft(p6, se, 4, 6); SliceLeft(p5, mi, 4, 6); SliceLeft(p4, h, 4, 6);
    SliceLeft(p3, "_", 4, 6); SliceLeft(p2, d, 4, 6); SliceRight(p1, mo);
    assert p2[4..6] == p2[|p1|..];
    // the day
    SliceLeft(p6, se, 6, 8); SliceLeft(p5, mi, 6, 8); SliceLeft(p4, h, 6, 8);
    SliceLeft(p3, "_", 6, 8); SliceRight(p2, d);
    assert p3[6..8] == p3[|p2|..];
    // the underscore
    assert s[8] == p4[8] == '_';
    // the hour
    SliceLeft(p6, se, 9, 11); SliceLeft(p5, mi, 9, 11); SliceRight(p4, h);
    assert p5[9..11] == p5[|p4|..];
    // the minute
    SliceLeft(p6, se, 11, 13); SliceRight(p5, mi);
    assert p6[11..13] == p6[|p5|..];
    // the second
    SliceRight(p6, se);
    assert s[13..15] == s[|p6|..];
  }

  /** Every stamp parses back to its clock reading, so a stamp determines
      the second it was taken in. */
  lemma StampRoundTrip(t: DateTime)
    requires ValidDateTime(t)
    ensures ParseStamp(Stamp(t)) == Some(t)
  {
    var s := Stamp(t);
    StampFields(t);
    assert s[0..8] == s[0..4] + s[4..6] + s[6..8];
    assert s[9..15] == s[9..11] + s[11..13] + s[13..15];
    PadRoundTrip(t.year, 4);
    PadRoundTrip(t.month, 2);
    PadRoundTrip(t.day, 2);
    PadRoundTrip(t.hour, 2);
    PadRoundTrip(t.minute, 2);
    PadRoundTrip(t.second, 2);
  }

  // ---------------------------------------------------------------------
  // Paths (`posixpath`)

  const Sep: char := '/'

  /** Index of the last `c` in `s`, or -1 (Python's `str.rfind`). */
  function LastIndexOf(s: string, c: char): (r: int)
    ensures -1 <= r < |s|
    ensures r >= 0 ==> s[r] == c
    ensures forall k :: r < k < |s| ==> s[k] != c
  {
    if s == [] then -1
    else if s[|s| - 1] == c then |s| - 1
    else LastIndexOf(s[..|s| - 1], c)
  }

  /** The postcondition of `LastIndexOf` pins its result down. */
  lemma LastIndexOfUnique(s: string, c: char, r: int)
    requires r == -1 || (0 <= r < |s| && s[r] == c)
    requires forall k :: r < k < |s| ==> s[k] != c
    ensures LastIndexOf(s, c) == r
  {
  }

  /** `os.path.join(a, b)`: an absolute `b` wins; otherwise a separator is
      put between the two unless `a` is empty or already ends with one. */
  function Join(a: string, b: string): (r: string)
  {
    if b != [] && b[0] == Sep then b
    else if a == [] || a[|a| - 1] == Sep then a + b
    else a + [Sep] + b
  }

  /** The final path component has a '.' that is not one of its leading
      dots: Python's `splitext` cuts there. */
  predicate HasExtension(p: string)
  {
    var sep := LastIndexOf(p, Sep);
    var dot := LastIndexOf(p, '.');
    dot > sep && exists k :: sep < k < dot && p[k] != '.'
  }

  /** `os.path.splitext(p)[1]`: from the last '.' of the final component
      to the end, unless that component is only leading dots before it;
      otherwise empty. */
  function Extension(p: string): (r: string)
    ensures |r| <= |p| && r == p[|p| - |r|..]
    ensures IsExtension(r)
    ensures r != [] <==> HasExtension(p)
  {
    if HasExtension(p) then p[LastIndexOf(p, '.')..] else ""
  }

  /** The shape of what `splitext` returns as an extension. */
  predicate IsExtension(e: string)
  {
    e == [] || (e[0] == '.' && Sep !in e && '.' !in e[1..])
  }

  /** `os.path.basename(p)`: what follows the last separator. */
  function BaseName(p: string): (r: string)
    ensures |r| <= |p| && r == p[|p| - |r|..]
    ensures Sep !in r
    ensures |r| < |p| ==> p[|p| - |r| - 1] == Sep
  {
    p[LastIndexOf(p, Sep) + 1..]
  }

  /** Joining a relative name puts it after `dir` and, unless `dir` is
      empty or ends with one, a separator. */
  lemma JoinRelative(dir: string, b: string) returns (q: string)
    requires b != [] && b[0] != Sep
    ensures Join(dir, b) == q + b
    ensures q == [] || q[|q| - 1] == Sep
  {
    q := if dir == [] || dir[|dir| - 1] == Sep then dir else dir + [Sep];
  }

  /** After a prefix that is empty or ends with a separator, a tail
      without separators leaves the last separator at the prefix's end. */
  lemma LastSepAfter(q: string, tail: string)
    requires q == [] || q[|q| - 1] == Sep
    requires Sep !in tail
    ensures LastIndexOf(q + tail, Sep) == |q| - 1
  {
    var p := q + tail;
    assert forall k :: |q| <= k < |p| ==> p[k] == tail[k - |q|];
    LastIndexOfUnique(p, Sep, |q| - 1);
  }

  /** A nonempty extension holds the last dot, at its start. */
  lemma LastDotAt(pre: string, ext: string)
    requires IsExtension(ext) && ext != []
    ensures LastIndexOf(pre + ext, '.') == |pre|
  {
    var p := pre + ext;
    assert forall k :: |pre| < k < |p| ==> p[k] == ext[1..][k - |pre| - 1];
    LastIndexOfUnique(p, '.', |pre|);
  }

  /** A name without dots after a prefix that is empty or ends with a
      separator has no extension. */
  lemma NoExtensionAfterSep(q: string, name: string)
    requires q == [] || q[|q| - 1] == Sep
    requires Sep !in name && '.' !in name
    ensures Extension(q + name) == ""
  {
    var p := q + name;
    LastSepAfter(q, name);
    assert forall k :: |q| <= k < |p| ==> p[k] == name[k - |q|];
  }

  /** A name that does not start with a dot and has no dots or
      separators, followed by a nonempty extension, after a prefix that is
      empty or ends with a separator: the extension is that extension. */
  lemma ExtensionAfterName(q: string, name: string, ext: string)
    requires q == [] || q[|q| - 1] == Sep
    requires name != [] && name[0] != '.' && Sep !in name && '.' !in name
    requires IsExtension(ext) && ext != []
    ensures Extension(q + name + ext) == ext
  {
    var p := q + name + ext;
    assert Sep !in name + ext;
    assert q + (name + ext) == p;
    LastSepAfter(q, name + ext);
    LastDotAt(q + name, ext);
    assert p[|q|] == name[0];
    assert p[|q| + |name|..] == ext;
  }

  /** The extension of `dir/name+ext` is `ext` when the name has no dot,
      no separator and does not start with a dot. */
  lemma ExtensionOfJoined(dir: string, name: string, ext: string)
    requires name != [] && name[0] != '.' && Sep !in name && '.' !in name
    requires IsExtension(ext)
    ensures Extension(Join(dir, name + ext)) == ext
  {
    var q := JoinRelative(dir, name + ext);
    assert q + (name + ext) == q + name + ext;
    if ext == [] {
      assert q + name + ext == q + name;
      NoExtensionAfterSep(q, name);
    } else {
      ExtensionAfterName(q, name, ext);
    }
  }

  // ---------------------------------------------------------------------
  // Destination names of the two upload screens

  const UploadRoot: string := "uploads"

  /** `os.path.join("uploads", "surat_masuk")`. */
  function MasukDir(): (r: string)
    ensures r == "uploads/surat_masuk"
  {
    Join(UploadRoot, "surat_masuk")
  }

  /** `uploads/surat_masuk/IN_<stamp><ext of source>`. */
  function MasukDest(now: DateTime, source: string): string
    requires ValidDateTime(now)
  {
    Join(MasukDir(), "IN_" + Stamp(now) + Extension(source))
  }

  /** `DOC_<stamp><ext of source>`, the new document's file name. */
  function DocFileName(now: DateTime, source: string): string
    requires ValidDateTime(now)
  {
    "DOC_" + Stamp(now) + Extension(source)
  }

  /** `uploads/DOC_<stamp><ext of source>`. */
  function DocDest(now: DateTime, source: string): string
    requires ValidDateTime(now)
  {
    Join(UploadRoot, DocFileName(now, source))
  }

  lemma StampHasNoDot(t: DateTime)
    requires ValidDateTime(t)
    ensures '.' !in Stamp(t) && Sep !in Stamp(t)
  {
    var s := Stamp(t);
    assert forall i :: 0 <= i < |s| ==> IsDigit(s[i]) || s[i] == '_';
  }

  /** The archived copy keeps the source's extension. */
  lemma DestKeepsExtension(now: DateTime, source: string)
    requires ValidDateTime(now)
    ensures Extension(MasukDest(now, source)) == Extension(source)
    ensures Extension(DocDest(now, source)) == Extension(source)
  {
    StampHasNoDot(now);
    ExtensionOfJoined(MasukDir(), "IN_" + Stamp(now), Extension(source));
    ExtensionOfJoined(UploadRoot, "DOC_" + Stamp(now), Extension(source));
  }

  /** Two clock readings print the same stamp exactly when they are equal. */
  lemma StampInjective(t1: DateTime, t2: DateTime)
    requires ValidDateTime(t1) && ValidDateTime(t2)
    ensures Stamp(t1) == Stamp(t2) <==> t1 == t2
  {
    StampRoundTrip(t1);
    StampRoundTrip(t2);
  }

  /** The incoming-mail destination spelled out. */
  lemma MasukDestShape(now: DateTime, source: string)
    requires ValidDateTime(now)
    ensures MasukDest(now, source) == "uploads/surat_masuk/IN_" + Stamp(now) + Extension(source)
  {
    var name := "IN_" + Stamp(now) + Extension(source);
    assert name[0] == 'I';
    assert MasukDir() + [Sep] + name == "uploads/surat_masuk/IN_" + Stamp(now) + Extension(source);
  }

  /** The document destination spelled out. */
  lemma DocDestShape(now: DateTime, source: string)
    requires ValidDateTime(now)
    ensures DocDest(now, source) == "uploads/DOC_" + Stamp(now) + Extension(source)
  {
    var name := DocFileName(now, source);
    assert name[0] == 'D';
    assert UploadRoot + [Sep] + name == "uploads/DOC_" + Stamp(now) + Extension(source);
  }

  /** Two incoming-mail saves collide on the destination exactly when they
      happen in the same second and their sources have the same extension. */
  lemma MasukDestCollision(t1: DateTime, s1: string, t2: DateTime, s2: string)
    requires ValidDateTime(t1) && ValidDateTime(t2)
    ensures MasukDest(t1, s1) == MasukDest(t2, s2)
        <==> t1 == t2 && Extension(s1) == Extension(s2)
  {
    MasukDestShape(t1, s1);
    MasukDestShape(t2, s2);
    if MasukDest(t1, s1) == MasukDest(t2, s2) {
      SameTail("uploads/surat_masuk/IN_", Stamp(t1), Extension(s1), Stamp(t2), Extension(s2));
      StampInjective(t1, t2);
    }
  }

  /** Two document uploads collide on the destination exactly when they
      happen in the same second and their sources have the same extension. */
  lemma DocDestCollision(t1: DateTime, s1: string, t2: DateTime, s2: string)
    requires ValidDateTime(t1) && ValidDateTime(t2)
    ensures DocDest(t1, s1) == DocDest(t2, s2)
        <==> t1 == t2 && Extension(s1) == Extension(s2)
  {
    DocDestShape(t1, s1);
    DocDestShape(t2, s2);
    if DocDest(t1, s1) == DocDest(t2, s2) {
      SameTail("uploads/DOC_", Stamp(t1), Extension(s1), Stamp(t2), Extension(s2));
      StampInjective(t1, t2);
    }
  }

  lemma SameTail(pre: string, a1: string, e1: string, a2: string, e2: string)
    requires |a1| == |a2|
    requires pre + a1 + e1 == pre + a2 + e2
    ensures a1 == a2 && e1 == e2
  {
    var w := pre + a1 + e1;
    assert a1 == w[|pre|..|pre| + |a1|];
    assert a2 == (pre + a2 + e2)[|pre|..|pre| + |a2|];
    assert e1 == w[|pre| + |a1|..];
    assert e2 == (pre + a2 + e2)[|pre| + |a2|..];
  }
}

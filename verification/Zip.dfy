/** The hand-written ZIP archive of the mail export: stored entries, no compression. */
module Zip {
  import opened Bytes
  import opened Text
  import Crc32

  datatype File = File(name: seq<Byte>, bytes: seq<Byte>)

  // ----------------------------------------------------------------- layout

  function Checksum(bytes: seq<Byte>): nat {
    Crc32.Value(Crc32.Reference(bytes))
  }

  /** Local file header (section 4.3.7 of APPNOTE): 30 fixed bytes and the name. */
  function LocalHeader(f: File, crc: nat): (h: seq<Byte>)
    ensures |h| == 30 + |f.name|
  {
    [0x50, 0x4b, 3, 4, 20, 0, 0, 0, 0, 0, 0, 0, 0, 0]
    + LittleEndian(crc, 4) + LittleEndian(|f.bytes|, 4) + LittleEndian(|f.bytes|, 4)
    + LittleEndian(|f.name|, 2) + [0, 0] + f.name
  }

  /** Central directory record as the code writes it: 44 fixed bytes and the name. */
  function CentralRecord(f: File, crc: nat, offset: nat): (r: seq<Byte>)
    ensures |r| == 44 + |f.name|
  {
    [0x50, 0x4b, 1, 2, 20, 0, 20, 0, 0, 0, 0, 0, 0, 0, 0, 0]
    + LittleEndian(crc, 4) + LittleEndian(|f.bytes|, 4) + LittleEndian(|f.bytes|, 4)
    + LittleEndian(|f.name|, 2) + [0, 0, 0, 0, 0, 0, 0, 0, 0, 0]
    + LittleEndian(offset, 4) + f.name
  }

  /** End of central directory record (section 4.3.16 of APPNOTE), no comment. */
  function EndRecord(count: nat, size: nat, offset: nat): (e: seq<Byte>)
    ensures |e| == 22
  {
    [0x50, 0x4b, 5, 6, 0, 0, 0, 0] + LittleEndian(count, 2) + LittleEndian(count, 2)
    + LittleEndian(size, 4) + LittleEndian(offset, 4) + [0, 0]
  }

  /** Everything before the central directory. */
  function Body(files: seq<File>): seq<Byte> {
    if files == [] then []
    else
      var n := |files| - 1;
      Body(files[..n]) + LocalHeader(files[n], Checksum(files[n].bytes)) + files[n].bytes
  }

  function Directory(files: seq<File>): seq<Byte> {
    if files == [] then []
    else
      var n := |files| - 1;
      Directory(files[..n])
      + CentralRecord(files[n], Checksum(files[n].bytes), Wrap32(|Body(files[..n])|))
  }

  function Archive(files: seq<File>): seq<Byte> {
    Body(files) + Directory(files) + EndRecord(|files|, |Directory(files)|, |Body(files)|)
  }

  // ----------------------------------------------------------------- writer

  /** `ZipWriter`. `pos` is a u32 and `count` a u16: both wrap. */
  class ZipWriter {
    var out: seq<Byte>
    var count: nat
    var central: seq<Byte>
    var pos: nat
    ghost var files: seq<File>

    ghost predicate Valid()
      reads this
    {
      && out == Body(files)
      && central == Directory(files)
      && pos == Wrap32(|Body(files)|)
      && count == Wrap16(|files|)
    }

    constructor ()
      ensures Valid() && files == []
    {
      out, count, central, pos, files := [], 0, [], 0, [];
    }

    method AddFile(name: seq<Byte>, bytes: seq<Byte>)
      requires Valid()
      modifies this
      ensures Valid() && files == old(files) + [File(name, bytes)]
    {
      hide LocalHeader, CentralRecord, Body, Directory, Wrap32, Wrap16, Crc32.Reference, Crc32.Value;
      var crc := Crc32.Compute(bytes);
      var f := File(name, bytes);
      var localOffset := pos;
      var header := LocalHeader(f, Crc32.Value(crc));
      out := out + header;
      out := out + bytes;
      pos := Wrap32(pos + |header| + |bytes|);
      central := central + CentralRecord(f, Crc32.Value(crc), localOffset);
      count := Wrap16(count + 1);
      Appended(files, f);
      AddWraps(|Body(files)|, |header| + |bytes|);
      AddWraps(|files|, 1);
      files := files + [f];
    }

    method Finish()
      requires Valid()
      modifies this
      ensures out == Archive(old(files))
    {
      var centralOffset := pos;
      out := out + central;
      EndRecordWraps(count, |files|, |central|, centralOffset, |Body(files)|);
      out := out + EndRecord(count, |central|, centralOffset);
    }
  }

  /** What one more file adds. */
  lemma Appended(files: seq<File>, f: File)
    ensures Body(files + [f])
         == Body(files) + LocalHeader(f, Checksum(f.bytes)) + f.bytes
    ensures Directory(files + [f])
         == Directory(files) + CentralRecord(f, Checksum(f.bytes), Wrap32(|Body(files)|))
  {
    hide LocalHeader, CentralRecord, Checksum;
    assert (files + [f])[..|files|] == files;
  }

  lemma EndRecordWraps(count: nat, count': nat, size: nat, offset: nat, offset': nat)
    requires count == Wrap16(count') && offset == Wrap32(offset')
    ensures EndRecord(count, size, offset) == EndRecord(count', size, offset')
  {
    Cut2(count');
    Cut4(offset');
  }

  // ----------------------------------------------------------------- reader

  function Number(a: seq<Byte>, i: nat, n: nat): nat
    requires i + n <= |a|
  {
    FromLittleEndian(a[i..i + n])
  }

  /** The stored bytes behind the local header at `at`, if it is one for this name. */
  function ReadLocal(a: seq<Byte>, at: nat, name: seq<Byte>, crc: nat, size: nat): Option<seq<Byte>> {
    if at + 30 > |a| || a[at..at + 4] != [0x50, 0x4b, 3, 4] then None
    else
      var nameEnd := at + 30 + Number(a, at + 26, 2);
      var start := nameEnd + Number(a, at + 28, 2);
      if start + size > |a| || a[at + 30..nameEnd] != name then None
      else if Checksum(a[start..start + size]) != crc then None
      else Some(a[start..start + size])
  }

  /** One central record with `fixed` bytes before the name, and where it ends. */
  function ReadRecord(a: seq<Byte>, at: nat, fixed: nat): (r: Option<(File, nat)>)
    requires fixed >= 44
  {
    if at + fixed > |a| || a[at..at + 4] != [0x50, 0x4b, 1, 2] then None
    else
      var nameEnd := at + fixed + Number(a, at + 28, 2);
      var next := nameEnd + Number(a, at + 30, 2) + Number(a, at + 32, 2);
      if next > |a| then None
      else
        var name := a[at + fixed..nameEnd];
        match ReadLocal(a, Number(a, at + fixed - 4, 4), name, Number(a, at + 16, 4), Number(a, at + 20, 4))
        case None => None
        case Some(bytes) => Some((File(name, bytes), next))
  }

  function ReadDirectory(a: seq<Byte>, at: nat, count: nat, fixed: nat): Option<seq<File>>
    requires fixed >= 44
    decreases count
  {
    if count == 0 then Some([])
    else
      match ReadRecord(a, at, fixed)
      case None => None
      case Some((f, next)) =>
        match ReadDirectory(a, next, count - 1, fixed)
        case None => None
        case Some(rest) => Some([f] + rest)
  }

  /** A reader: end record, then the central directory it points to, then each local
      header a central record points to. */
  function Read(a: seq<Byte>, fixed: nat): Option<seq<File>>
    requires fixed >= 44
  {
    var e := |a| - 22;
    if e < 0 || a[e..e + 4] != [0x50, 0x4b, 5, 6] then None
    else ReadDirectory(a, Number(a, e + 16, 4), Number(a, e + 10, 2), fixed)
  }

  // -------------------------------------------------------------- round trip

  ghost predicate At(a: seq<Byte>, i: nat, s: seq<Byte>) {
    i + |s| <= |a| && a[i..i + |s|] == s
  }

  lemma Inside(a: seq<Byte>, at: nat, s: seq<Byte>, i: nat, j: nat)
    requires At(a, at, s) && i <= j <= |s|
    ensures a[at + i..at + j] == s[i..j]
  {
    var w := a[at..at + |s|];
    assert forall k :: 0 <= k < j - i ==> a[at + i..at + j][k] == w[i + k] == s[i..j][k];
  }

  lemma Within(a: seq<Byte>, at: nat, x: seq<Byte>, y: seq<Byte>, z: seq<Byte>)
    requires At(a, at, x + y + z)
    ensures At(a, at, x) && At(a, at + |x|, y) && At(a, at + |x| + |y|, z)
  {
    var s := x + y + z;
    Inside(a, at, s, 0, |x|);
    Inside(a, at, s, |x|, |x| + |y|);
    Inside(a, at, s, |x| + |y|, |s|);
    assert s[..|x|] == x && s[|x|..|x| + |y|] == y && s[|x| + |y|..] == z;
  }

  lemma LocalFields(f: File, crc: nat)
    ensures var h := LocalHeader(f, crc);
            && h[0..4] == [0x50, 0x4b, 3, 4]
            && h[26..28] == LittleEndian(|f.name|, 2) && h[28..30] == [0, 0]
            && h[30..] == f.name
  {
  }

  lemma CentralFields(f: File, crc: nat, offset: nat)
    ensures var r := CentralRecord(f, crc, offset);
            && r[0..4] == [0x50, 0x4b, 1, 2] && r[16..20] == LittleEndian(crc, 4)
            && r[20..24] == LittleEndian(|f.bytes|, 4) && r[28..30] == LittleEndian(|f.name|, 2)
            && r[30..32] == [0, 0] && r[32..34] == [0, 0]
            && r[40..44] == LittleEndian(offset, 4) && r[44..] == f.name
  {
    hide LittleEndian;
    var head: seq<Byte> := [0x50, 0x4b, 1, 2, 20, 0, 20, 0, 0, 0, 0, 0, 0, 0, 0, 0];
    var gap: seq<Byte> := [0, 0, 0, 0, 0, 0, 0, 0, 0, 0];
    var c, n := LittleEndian(crc, 4), LittleEndian(|f.bytes|, 4);
    var l, o := LittleEndian(|f.name|, 2), LittleEndian(offset, 4);
    var r := CentralRecord(f, crc, offset);
    assert r == head + (c + n) + (n + l) + (gap + o) + f.name;
    Parts(head, c + n, n + l, gap + o, f.name);
    Pair(c, n);
    Pair(n, l);
    Pair(gap, o);
    assert r[16..24][0..4] == r[16..20] && r[16..24][4..8] == r[20..24];
    assert r[24..30][4..6] == r[28..30];
    assert r[30..44][10..14] == r[40..44];
    assert r[30..44][0..2] == r[30..32] && r[30..44][2..4] == r[32..34];
  }

  lemma Parts(p: seq<Byte>, q: seq<Byte>, r: seq<Byte>, s: seq<Byte>, t: seq<Byte>)
    ensures var x := p + q + r + s + t;
            var i := |p| + |q|;
            && x[..|p|] == p && x[|p|..i] == q && x[i..i + |r|] == r
            && x[i + |r|..i + |r| + |s|] == s && x[i + |r| + |s|..] == t
  {
  }

  lemma Pair(p: seq<Byte>, q: seq<Byte>)
    ensures (p + q)[..|p|] == p && (p + q)[|p|..] == q
  {
  }

  lemma EndFields(count: nat, size: nat, offset: nat)
    ensures var e := EndRecord(count, size, offset);
            && e[0..4] == [0x50, 0x4b, 5, 6]
            && e[10..12] == LittleEndian(count, 2) && e[12..16] == LittleEndian(size, 4)
            && e[16..20] == LittleEndian(offset, 4)
  {
    hide LittleEndian;
    var head: seq<Byte> := [0x50, 0x4b, 5, 6, 0, 0, 0, 0];
    var c, z, o := LittleEndian(count, 2), LittleEndian(size, 4), LittleEndian(offset, 4);
    var e := EndRecord(count, size, offset);
    assert e == head + (c + c) + z + o + [0, 0];
    Parts(head, c + c, z, o, [0, 0]);
    Pair(c, c);
    assert e[8..12][2..4] == e[10..12];
  }

  lemma ZeroNumber()
    ensures FromLittleEndian([0, 0]) == 0
  {
    Sum2([0, 0]);
  }

  lemma ChecksumBound(bytes: seq<Byte>)
    ensures Checksum(bytes) < 0x1_0000_0000
  {
    Crc32.ValueBound(Crc32.Reference(bytes));
    Crc32.Pow2Values();
  }

  lemma LocalRead(a: seq<Byte>, at: nat, f: File, stored: seq<Byte>)
    requires |f.name| < 0x1_0000 && |stored| == |f.bytes|
    requires At(a, at, LocalHeader(f, Checksum(f.bytes)) + stored)
    ensures ReadLocal(a, at, f.name, Checksum(f.bytes), |f.bytes|)
         == if Checksum(stored) == Checksum(f.bytes) then Some(stored) else None
  {
    hide LocalHeader, Checksum, LittleEndian, FromLittleEndian;
    var crc := Checksum(f.bytes);
    var h := LocalHeader(f, crc);
    LocalFields(f, crc);
    assert h + stored == [] + h + stored;
    Within(a, at, [], h, stored);
    Inside(a, at, h, 0, 4);
    Inside(a, at, h, 26, 28);
    Inside(a, at, h, 28, 30);
    Inside(a, at, h, 30, |h|);
    RoundTrip2(|f.name|);
    ZeroNumber();
  }

  lemma RecordRead(a: seq<Byte>, at: nat, f: File, offset: nat)
    requires |f.name| < 0x1_0000 && |f.bytes| < 0x1_0000_0000 && offset < 0x1_0000_0000
    requires At(a, at, CentralRecord(f, Checksum(f.bytes), offset))
    ensures ReadRecord(a, at, 44)
         == match ReadLocal(a, offset, f.name, Checksum(f.bytes), |f.bytes|)
            case None => None
            case Some(bytes) => Some((File(f.name, bytes), at + 44 + |f.name|))
  {
    hide CentralRecord, ReadLocal, Checksum, LittleEndian, FromLittleEndian;
    var crc := Checksum(f.bytes);
    var r := CentralRecord(f, crc, offset);
    CentralFields(f, crc, offset);
    ChecksumBound(f.bytes);
    Inside(a, at, r, 0, 4);
    Inside(a, at, r, 16, 20);
    Inside(a, at, r, 20, 24);
    Inside(a, at, r, 28, 30);
    Inside(a, at, r, 30, 32);
    Inside(a, at, r, 32, 34);
    Inside(a, at, r, 40, 44);
    Inside(a, at, r, 44, |r|);
    RoundTrip2(|f.name|);
    RoundTrip4(|f.bytes|);
    RoundTrip4(offset);
    RoundTrip4(crc);
    ZeroNumber();
  }

  /** The archive's fields can hold the offsets, sizes, names and count. */
  predicate Fits(files: seq<File>) {
    && Fits32(files)
    && |files| < 0x1_0000
    && forall i :: 0 <= i < |files| ==> |files[i].name| < 0x1_0000
  }

  /** The 4 GiB limit of the format: both parts are addressable by a u32. */
  predicate Fits32(files: seq<File>) {
    |Body(files)| < 0x1_0000_0000 && |Directory(files)| < 0x1_0000_0000
  }

  lemma {:induction false} Prefixes(files: seq<File>, i: nat)
    requires i <= |files|
    ensures Body(files[..i]) <= Body(files) && Directory(files[..i]) <= Directory(files)
  {
    hide LocalHeader, CentralRecord, Checksum;
    if i == |files| {
      assert files[..i] == files;
    } else {
      var n := |files| - 1;
      Prefixes(files[..n], i);
      assert files[..n][..i] == files[..i];
      assert files == files[..n] + [files[n]];
      Appended(files[..n], files[n]);
    }
  }

  lemma StepAt(files: seq<File>, i: nat)
    requires i < |files|
    ensures var f := files[i];
            && Body(files[..i + 1]) == Body(files[..i]) + LocalHeader(f, Checksum(f.bytes)) + f.bytes
            && Directory(files[..i + 1]) == Directory(files[..i])
                 + CentralRecord(f, Checksum(f.bytes), Wrap32(|Body(files[..i])|))
  {
    hide LocalHeader, CentralRecord, Checksum, Body, Directory;
    assert files[..i + 1] == files[..i] + [files[i]];
    Appended(files[..i], files[i]);
  }

  /** The i-th central record stands where the records before it end, and the offset it
      stores is where the i-th local header starts. */
  lemma RecordAt(a: seq<Byte>, base: nat, files: seq<File>, i: nat)
    requires At(a, base, Directory(files)) && i < |files| && Fits32(files)
    ensures At(a, base + |Directory(files[..i])|,
              CentralRecord(files[i], Checksum(files[i].bytes), |Body(files[..i])|))
    ensures |Directory(files[..i + 1])| == |Directory(files[..i])| + 44 + |files[i].name|
    ensures |files[i].bytes| < 0x1_0000_0000 && |Body(files[..i])| < 0x1_0000_0000
  {
    hide LocalHeader, CentralRecord, Checksum, Body, Directory;
    Prefixes(files, i + 1);
    Prefixes(files, i);
    StepAt(files, i);
    var d, r := Directory(files[..i]),
      CentralRecord(files[i], Checksum(files[i].bytes), Wrap32(|Body(files[..i])|));
    assert Directory(files) == d + r + Directory(files)[|d| + |r|..];
    Within(a, base, d, r, Directory(files)[|d| + |r|..]);
    Remainder32(|Body(files[..i])|, 0, |Body(files[..i])|);
  }

  /** The i-th local header and its bytes stand where the central record says. */
  lemma LocalAt(a: seq<Byte>, files: seq<File>, i: nat)
    requires At(a, 0, Body(files)) && i < |files|
    ensures At(a, |Body(files[..i])|,
              LocalHeader(files[i], Checksum(files[i].bytes)) + files[i].bytes)
  {
    hide LocalHeader, CentralRecord, Checksum, Body, Directory;
    Prefixes(files, i + 1);
    StepAt(files, i);
    var b := Body(files[..i]);
    var l := LocalHeader(files[i], Checksum(files[i].bytes)) + files[i].bytes;
    assert b + l == Body(files[..i + 1]);
    assert Body(files) == b + l + Body(files)[|b| + |l|..];
    Within(a, 0, b, l, Body(files)[|b| + |l|..]);
  }

  lemma {:induction false} DirectoryRead(a: seq<Byte>, base: nat, files: seq<File>, i: nat)
    requires At(a, base, Directory(files)) && At(a, 0, Body(files))
    requires i <= |files| && Fits(files)
    ensures ReadDirectory(a, base + |Directory(files[..i])|, |files| - i, 44) == Some(files[i..])
    decreases |files| - i
  {
    hide LocalHeader, CentralRecord, Checksum, Body, Directory, ReadRecord, ReadLocal;
    if i == |files| {
      assert files[i..] == [];
    } else {
      var f := files[i];
      RecordAt(a, base, files, i);
      LocalAt(a, files, i);
      LocalRead(a, |Body(files[..i])|, f, f.bytes);
      RecordRead(a, base + |Directory(files[..i])|, f, |Body(files[..i])|);
      DirectoryRead(a, base, files, i + 1);
      assert files[i..] == [f] + files[i + 1..];
    }
  }

  /** The fields of an end record at the end of an archive. */
  lemma EndNumbers(front: seq<Byte>, count: nat, size: nat, offset: nat)
    requires count < 0x1_0000 && offset < 0x1_0000_0000
    ensures var a, n := front + EndRecord(count, size, offset), |front|;
            && |a| == n + 22 && a[n..n + 4] == [0x50, 0x4b, 5, 6]
            && Number(a, n + 16, 4) == offset && Number(a, n + 10, 2) == count
  {
    hide EndRecord, LittleEndian, FromLittleEndian;
    var e := EndRecord(count, size, offset);
    var a := front + e;
    assert At(a, |front|, e);
    EndFields(count, size, offset);
    Inside(a, |front|, e, 0, 4);
    Inside(a, |front|, e, 10, 12);
    Inside(a, |front|, e, 16, 20);
    RoundTrip2(count);
    RoundTrip4(offset);
  }

  lemma EndRead(front: seq<Byte>, count: nat, size: nat, offset: nat)
    requires count < 0x1_0000 && offset < 0x1_0000_0000
    ensures forall fixed :: fixed >= 44 ==>
              var a := front + EndRecord(count, size, offset);
              Read(a, fixed) == ReadDirectory(a, offset, count, fixed)
  {
    hide EndRecord, ReadDirectory, Number;
    EndNumbers(front, count, size, offset);
  }

  /** Whatever was added comes back, in order, through the offsets the archive stores. */
  lemma RoundTrip(files: seq<File>)
    requires Fits(files)
    ensures Read(Archive(files), 44) == Some(files)
  {
    hide EndRecord, Body, Directory, ReadDirectory, Read;
    var b, d := Body(files), Directory(files);
    EndRead(b + d, |files|, |d|, |b|);
    var e := EndRecord(|files|, |d|, |b|);
    var a := Archive(files);
    assert At(a, 0, b + d + e);
    Within(a, 0, b, d, e);
    assert files[..0] == [] && files[0..] == files;
    assert Directory([]) == [] by {
      EmptyDirectory();
    }
    DirectoryRead(a, |b|, files, 0);
  }

  lemma EmptyDirectory()
    ensures Directory([]) == []
  {
  }

  lemma EndBytes(count: nat, size: nat, offset: nat)
    ensures var e := EndRecord(count, size, offset);
            e[4..6] == [0, 0] && e[6..8] == [0, 0] && e[8..10] == LittleEndian(count, 2) && e[20..22] == [0, 0]
  {
    hide LittleEndian;
    var e := EndRecord(count, size, offset);
    var head := e[..8];
    assert head == [0x50, 0x4b, 5, 6, 0, 0, 0, 0];
    var c, z, o := LittleEndian(count, 2), LittleEndian(size, 4), LittleEndian(offset, 4);
    assert e == head + (c + c) + z + o + [0, 0];
    Parts(head, c + c, z, o, [0, 0]);
    Pair(c, c);
    assert e[8..12][0..2] == e[8..10];
  }

  /** The end record stands at the end and says that there is one disk, how many records there
      are, how long the directory is, where it starts, and that no comment follows. */
  lemma EndRecordTells(files: seq<File>)
    requires Fits(files)
    ensures var a := Archive(files);
            && |a| >= 22 && a[|a| - 22..|a| - 18] == [0x50, 0x4b, 5, 6]
            && Number(a, |a| - 18, 2) == 0 && Number(a, |a| - 16, 2) == 0
            && Number(a, |a| - 14, 2) == |files| && Number(a, |a| - 12, 2) == |files|
            && Number(a, |a| - 10, 4) == |Directory(files)|
            && Number(a, |a| - 6, 4) == |Body(files)|
            && Number(a, |a| - 2, 2) == 0
  {
    hide EndRecord, Body, Directory, LittleEndian, FromLittleEndian, Number;
    var b, d := Body(files), Directory(files);
    var e := EndRecord(|files|, |d|, |b|);
    var a, n := Archive(files), |b + d|;
    assert At(a, n, e);
    EndFields(|files|, |d|, |b|);
    EndBytes(|files|, |d|, |b|);
    SmallNumbers();
    Inside(a, n, e, 0, 4);
    FieldIs(a, n, e, 4, 2, 0);
    FieldIs(a, n, e, 6, 2, 0);
    FieldIs(a, n, e, 8, 2, |files|);
    FieldIs(a, n, e, 10, 2, |files|);
    FieldIs(a, n, e, 12, 4, |d|);
    FieldIs(a, n, e, 16, 4, |b|);
    FieldIs(a, n, e, 20, 2, 0);
  }

  // ------------------------------------------------------ every header field

  lemma FieldIs(a: seq<Byte>, at: nat, s: seq<Byte>, i: nat, n: nat, v: nat)
    requires At(a, at, s) && i + n <= |s| && s[i..i + n] == LittleEndian(v, n)
    requires (n == 2 && v < 0x1_0000) || (n == 4 && v < 0x1_0000_0000)
    ensures at + i + n <= |a| && Number(a, at + i, n) == v
  {
    hide LittleEndian, FromLittleEndian;
    Inside(a, at, s, i, i + n);
    if n == 2 {
      RoundTrip2(v);
    } else {
      RoundTrip4(v);
    }
  }

  lemma SmallNumbers()
    ensures LittleEndian(0, 2) == [0, 0] && LittleEndian(20, 2) == [20, 0]
  {
    Unfold2(0);
    Unfold2(20);
  }

  lemma LocalBytes(f: File, crc: nat)
    ensures var h := LocalHeader(f, crc);
            && h[0..4] == [0x50, 0x4b, 3, 4] && h[4..6] == [20, 0] && h[6..8] == [0, 0] && h[8..10] == [0, 0]
            && h[10..12] == [0, 0] && h[12..14] == [0, 0]
            && h[14..18] == LittleEndian(crc, 4)
            && h[18..22] == LittleEndian(|f.bytes|, 4) && h[22..26] == LittleEndian(|f.bytes|, 4)
            && h[26..28] == LittleEndian(|f.name|, 2) && h[28..30] == [0, 0] && h[30..] == f.name
  {
    hide LittleEndian;
    var h := LocalHeader(f, crc);
    var head := h[..14];
    assert head == [0x50, 0x4b, 3, 4, 20, 0, 0, 0, 0, 0, 0, 0, 0, 0];
    var c, n, l := LittleEndian(crc, 4), LittleEndian(|f.bytes|, 4), LittleEndian(|f.name|, 2);
    assert h == head + (c + n) + (n + l) + [0, 0] + f.name;
    Parts(head, c + n, n + l, [0, 0], f.name);
    Pair(c, n);
    Pair(n, l);
    assert h[14..22][0..4] == h[14..18] && h[14..22][4..8] == h[18..22];
    assert h[22..28][0..4] == h[22..26] && h[22..28][4..6] == h[26..28];
  }

  lemma CentralBytes(f: File, crc: nat, offset: nat)
    ensures var r := CentralRecord(f, crc, offset);
            && r[4..6] == [20, 0] && r[6..8] == [20, 0] && r[8..10] == [0, 0] && r[10..12] == [0, 0]
            && r[12..14] == [0, 0] && r[14..16] == [0, 0]
            && r[24..28] == LittleEndian(|f.bytes|, 4)
            && r[34..36] == [0, 0] && r[36..38] == [0, 0] && r[38..40] == [0, 0]
  {
    hide LittleEndian;
    var r := CentralRecord(f, crc, offset);
    var head := r[..16];
    assert head == [0x50, 0x4b, 1, 2, 20, 0, 20, 0, 0, 0, 0, 0, 0, 0, 0, 0];
    var gap: seq<Byte> := [0, 0, 0, 0, 0, 0, 0, 0, 0, 0];
    var c, n := LittleEndian(crc, 4), LittleEndian(|f.bytes|, 4);
    var l, o := LittleEndian(|f.name|, 2), LittleEndian(offset, 4);
    assert r == head + (c + n) + (n + l) + (gap + o) + f.name;
    Parts(head, c + n, n + l, gap + o, f.name);
    Pair(n, l);
    Pair(gap, o);
    assert r[24..30][0..4] == r[24..28];
    assert r[30..44][4..6] == r[34..36] && r[30..44][6..8] == r[36..38] && r[30..44][8..10] == r[38..40];
  }

  /** A local file header (section 4.3.7 of APPNOTE) of a stored entry: version 2.0, no flag,
      method 0, no time or date, checksum, both sizes, name, no extra field. */
  predicate LocalSays(a: seq<Byte>, at: nat, f: File) {
    && at + 30 + |f.name| <= |a| && a[at..at + 4] == [0x50, 0x4b, 3, 4]
    && Number(a, at + 4, 2) == 20 && Number(a, at + 6, 2) == 0 && Number(a, at + 8, 2) == 0
    && Number(a, at + 10, 2) == 0 && Number(a, at + 12, 2) == 0 && Number(a, at + 14, 4) == Checksum(f.bytes)
    && Number(a, at + 18, 4) == |f.bytes| && Number(a, at + 22, 4) == |f.bytes|
    && Number(a, at + 26, 2) == |f.name| && Number(a, at + 28, 2) == 0
    && a[at + 30..at + 30 + |f.name|] == f.name
  }

  /** A central record of the same entry, its last ten bytes before the name being lengths of
      extra field and comment, disk, attributes (two bytes each), then the offset. */
  predicate CentralSays(a: seq<Byte>, at: nat, f: File, offset: nat) {
    && at + 44 + |f.name| <= |a| && a[at..at + 4] == [0x50, 0x4b, 1, 2]
    && Number(a, at + 4, 2) == 20 && Number(a, at + 6, 2) == 20 && Number(a, at + 8, 2) == 0
    && Number(a, at + 10, 2) == 0 && Number(a, at + 12, 2) == 0 && Number(a, at + 14, 2) == 0
    && Number(a, at + 16, 4) == Checksum(f.bytes)
    && Number(a, at + 20, 4) == |f.bytes| && Number(a, at + 24, 4) == |f.bytes|
    && Number(a, at + 28, 2) == |f.name| && Number(a, at + 30, 2) == 0 && Number(a, at + 32, 2) == 0
    && Number(a, at + 34, 2) == 0 && Number(a, at + 36, 2) == 0 && Number(a, at + 38, 2) == 0
    && Number(a, at + 40, 4) == offset && a[at + 44..at + 44 + |f.name|] == f.name
  }

  lemma LocalHeaderSays(a: seq<Byte>, at: nat, f: File)
    requires At(a, at, LocalHeader(f, Checksum(f.bytes))) && |f.name| < 0x1_0000 && |f.bytes| < 0x1_0000_0000
    ensures LocalSays(a, at, f)
  {
    hide LocalHeader, Checksum, LittleEndian, FromLittleEndian, Number;
    var h := LocalHeader(f, Checksum(f.bytes));
    LocalBytes(f, Checksum(f.bytes));
    SmallNumbers();
    ChecksumBound(f.bytes);
    Inside(a, at, h, 0, 4);
    FieldIs(a, at, h, 4, 2, 20);
    FieldIs(a, at, h, 6, 2, 0);
    FieldIs(a, at, h, 8, 2, 0);
    FieldIs(a, at, h, 10, 2, 0);
    FieldIs(a, at, h, 12, 2, 0);
    FieldIs(a, at, h, 14, 4, Checksum(f.bytes));
    FieldIs(a, at, h, 18, 4, |f.bytes|);
    FieldIs(a, at, h, 22, 4, |f.bytes|);
    FieldIs(a, at, h, 26, 2, |f.name|);
    FieldIs(a, at, h, 28, 2, 0);
    Inside(a, at, h, 30, |h|);
  }

  lemma CentralRecordSays(a: seq<Byte>, at: nat, f: File, offset: nat)
    requires At(a, at, CentralRecord(f, Checksum(f.bytes), offset))
    requires |f.name| < 0x1_0000 && |f.bytes| < 0x1_0000_0000 && offset < 0x1_0000_0000
    ensures CentralSays(a, at, f, offset)
  {
    hide CentralRecord, Checksum, LittleEndian, FromLittleEndian, Number;
    var r := CentralRecord(f, Checksum(f.bytes), offset);
    CentralBytes(f, Checksum(f.bytes), offset);
    CentralFields(f, Checksum(f.bytes), offset);
    SmallNumbers();
    ChecksumBound(f.bytes);
    Inside(a, at, r, 0, 4);
    FieldIs(a, at, r, 4, 2, 20);
    FieldIs(a, at, r, 6, 2, 20);
    FieldIs(a, at, r, 8, 2, 0);
    FieldIs(a, at, r, 10, 2, 0);
    FieldIs(a, at, r, 12, 2, 0);
    FieldIs(a, at, r, 14, 2, 0);
    FieldIs(a, at, r, 16, 4, Checksum(f.bytes));
    FieldIs(a, at, r, 20, 4, |f.bytes|);
    FieldIs(a, at, r, 24, 4, |f.bytes|);
    FieldIs(a, at, r, 28, 2, |f.name|);
    FieldIs(a, at, r, 30, 2, 0);
    FieldIs(a, at, r, 32, 2, 0);
    FieldIs(a, at, r, 34, 2, 0);
    FieldIs(a, at, r, 36, 2, 0);
    FieldIs(a, at, r, 38, 2, 0);
    FieldIs(a, at, r, 40, 4, offset);
    Inside(a, at, r, 44, |r|);
  }

  /** Every entry is stored and says so: the i-th local header and the i-th central record hold,
      field by field, what a stored entry of these bytes must say, and the bytes follow. */
  lemma EntriesAreStored(files: seq<File>, i: nat)
    requires Fits(files) && i < |files|
    ensures var a, f, at := Archive(files), files[i], |Body(files[..i])|;
            && LocalSays(a, at, f)
            && at + 30 + |f.name| + |f.bytes| <= |a|
            && a[at + 30 + |f.name|..at + 30 + |f.name| + |f.bytes|] == f.bytes
            && CentralSays(a, |Body(files)| + |Directory(files[..i])|, f, at)
  {
    hide EndRecord, Body, Directory, LocalHeader, CentralRecord, Checksum, Number, LocalSays, CentralSays;
    var b, d := Body(files), Directory(files);
    var a, f := Archive(files), files[i];
    assert At(a, 0, b + d + EndRecord(|files|, |d|, |b|));
    Within(a, 0, b, d, EndRecord(|files|, |d|, |b|));
    RecordAt(a, |b|, files, i);
    LocalAt(a, files, i);
    var h := LocalHeader(f, Checksum(f.bytes));
    assert h + f.bytes == [] + h + f.bytes;
    Within(a, |Body(files[..i])|, [], h, f.bytes);
    LocalHeaderSays(a, |Body(files[..i])|, f);
    CentralRecordSays(a, |b| + |Directory(files[..i])|, f, |Body(files[..i])|);
  }

  // ------------------------------------------------------ the format's limits

  lemma ReadNumber2(b: seq<Byte>)
    requires |b| == 2
    ensures FromLittleEndian(b) < 0x1_0000
  {
    Sum2(b);
  }

  lemma {:induction false} ReadShape(a: seq<Byte>, at: nat, count: nat, fixed: nat, i: nat)
    requires fixed >= 44
    ensures var r := ReadDirectory(a, at, count, fixed);
            r.Some? ==> |r.value| == count && (i < count ==> |r.value[i].name| < 0x1_0000)
    decreases count
  {
    hide ReadLocal, FromLittleEndian;
    if count > 0 && ReadRecord(a, at, fixed).Some? {
      ReadNumber2(a[at + 28..at + 28 + 2]);
      var (f, next) := ReadRecord(a, at, fixed).value;
      ReadShape(a, next, count - 1, fixed, if i == 0 then 0 else i - 1);
    }
  }

  /** Inside 4 GiB, what was added comes back exactly when the u16 fields hold the count
      and every name's length; otherwise the count wraps or a name comes back shorter. */
  lemma RoundTripIff(files: seq<File>)
    requires Fits32(files)
    ensures Read(Archive(files), 44) == Some(files)
       <==> |files| < 0x1_0000 && forall i :: 0 <= i < |files| ==> |files[i].name| < 0x1_0000
  {
    hide Archive, Body, Directory, ReadDirectory, FromLittleEndian;
    if Fits(files) {
      RoundTrip(files);
    } else if Read(Archive(files), 44) == Some(files) {
      var a := Archive(files);
      var e := |a| - 22;
      ReadNumber2(a[e + 10..e + 10 + 2]);
      forall i | 0 <= i < |files|
        ensures |files[i].name| < 0x1_0000
      {
        ReadShape(a, Number(a, e + 16, 4), Number(a, e + 10, 2), 44, i);
      }
      ReadShape(a, Number(a, e + 16, 4), Number(a, e + 10, 2), 44, 0);
    }
  }

  // ------------------------------------------------------ the standard layout

  /** After the only central record stands the end record. */
  lemma FollowedByEnd(a: seq<Byte>, base: nat, files: seq<File>, e: seq<Byte>)
    requires Fits(files) && |files| == 1
    requires At(a, base, Directory(files)) && At(a, base + |Directory(files)|, e)
    requires e == EndRecord(|files|, |Directory(files)|, |Body(files)|)
    ensures var next := base + 44 + |files[0].name|;
            && next + 22 <= |a| && a[next] == 0x50 && a[next + 1] == 0x4b && next == base + |Directory(files)|
  {
    hide EndRecord, Body, Directory, LocalHeader, CentralRecord, Checksum;
    EmptyDirectory();
    RecordAt(a, base, files, 0);
    assert files[..0] == [] && files[..1] == files;
    EndFields(|files|, |Directory(files)|, |Body(files)|);
    FirstFour(a, base + |Directory(files)|, e);
  }

  /** What follows the first central record starts with the letters PK; where it is a second
      record, a 1 comes next. */
  lemma FollowedByPK(a: seq<Byte>, base: nat, files: seq<File>, e: seq<Byte>)
    requires Fits(files) && files != []
    requires At(a, base, Directory(files)) && At(a, base + |Directory(files)|, e)
    requires e == EndRecord(|files|, |Directory(files)|, |Body(files)|)
    ensures var next := base + 44 + |files[0].name|;
            && next + 4 <= |a| && a[next] == 0x50 && a[next + 1] == 0x4b
            && (|files| > 1 ==> a[next + 2] == 1)
            && (|files| == 1 ==> |a| >= next + 22 && next == base + |Directory(files)|)
  {
    hide EndRecord, Body, Directory, LocalHeader, CentralRecord, Checksum;
    if |files| == 1 {
      FollowedByEnd(a, base, files, e);
    } else {
      assert files[..0] == [];
      EmptyDirectory();
      RecordAt(a, base, files, 0);
      var next := base + |Directory(files[..1])|;
      var f, off := files[1], |Body(files[..1])|;
      RecordAt(a, base, files, 1);
      CentralFields(f, Checksum(f.bytes), off);
      FirstFour(a, next, CentralRecord(f, Checksum(f.bytes), off));
    }
  }

  lemma FirstFour(a: seq<Byte>, at: nat, s: seq<Byte>)
    requires At(a, at, s) && |s| >= 4
    ensures at + 4 <= |a| && a[at] == s[0..4][0] && a[at + 1] == s[0..4][1] && a[at + 2] == s[0..4][2]
  {
    Inside(a, at, s, 0, 4);
    var w := a[at..at + 4];
    assert w[0] == a[at] && w[1] == a[at + 1] && w[2] == a[at + 2];
  }

  /** The first record as a standard reader sees it: name and offset start two bytes late. */
  lemma ShiftedRecord(a: seq<Byte>, base: nat, files: seq<File>)
    requires Fits(files) && files != [] && At(a, base, Directory(files))
    ensures var n := |files[0].name|;
            && base + 44 + n <= |a| && a[base + 44..base + 44 + n] == files[0].name
            && (base + 46 <= |a| ==> a[base + 42] == 0 && a[base + 43] == 0)
            && (ReadRecord(a, base, 46).Some? ==>
                  var (f, next) := ReadRecord(a, base, 46).value;
                  && next == base + 46 + n <= |a| && f.name == a[base + 46..base + 46 + n]
                  && ReadLocal(a, Number(a, base + 42, 4), f.name, Checksum(files[0].bytes), |files[0].bytes|)
                     == Some(f.bytes))
  {
    hide EndRecord, Body, Directory, LocalHeader, CentralRecord, ReadLocal, Checksum, LittleEndian, FromLittleEndian;
    var f := files[0];
    assert files[..0] == [];
    EmptyDirectory();
    EmptyBody();
    RecordAt(a, base, files, 0);
    var crc := Checksum(f.bytes);
    var r := CentralRecord(f, crc, 0);
    CentralFields(f, crc, 0);
    ChecksumBound(f.bytes);
    Inside(a, base, r, 16, 20);
    Inside(a, base, r, 20, 24);
    Inside(a, base, r, 28, 30);
    Inside(a, base, r, 30, 32);
    Inside(a, base, r, 32, 34);
    Inside(a, base, r, 40, 44);
    Inside(a, base, r, 44, |r|);
    RoundTrip2(|f.name|);
    RoundTrip4(|f.bytes|);
    RoundTrip4(crc);
    ZeroNumber();
    Unfold4(0);
    assert a[base + 42] == a[base + 40..base + 44][2] && a[base + 43] == a[base + 40..base + 44][3];
  }

  lemma EmptyBody()
    ensures Body([]) == []
  {
  }

  /** A text that reads the same two places later, up to a P and a K at its end. */
  lemma {:induction false} OnlyPAndK(s: seq<Byte>, n: nat, i: nat)
    requires i <= n + 1 && n + 2 <= |s| && s[n] == 0x50 && s[n + 1] == 0x4b
    requires forall j :: 0 <= j < n ==> s[j] == s[j + 2]
    ensures s[i] == 0x50 || s[i] == 0x4b
    decreases n + 1 - i
  {
    if i < n {
      OnlyPAndK(s, n, i + 2);
    }
  }

  /** With one file, either the shifted name is another one, or the shifted offset lies far
      behind the archive. */
  lemma OneFileIsLost(a: seq<Byte>, base: nat, files: seq<File>, e: seq<Byte>)
    requires Fits(files) && |files| == 1 && base == |Body(files)| && |a| == base + |Directory(files)| + 22
    requires At(a, base, Directory(files)) && At(a, base + |Directory(files)|, e)
    requires e == EndRecord(|files|, |Directory(files)|, |Body(files)|)
    ensures ReadRecord(a, base, 46).Some? ==> ReadRecord(a, base, 46).value.0 != files[0]
  {
    hide EndRecord, Body, Directory, LocalHeader, CentralRecord, ReadLocal, Checksum, FromLittleEndian, ReadRecord;
    var f := files[0];
    var n := |f.name|;
    FollowedByPK(a, base, files, e);
    ShiftedRecord(a, base, files);
    OneBody(files);
    if ReadRecord(a, base, 46).Some? && ReadRecord(a, base, 46).value.0.name == f.name {
      var s := a[base + 44..base + 46 + n];
      forall j | 0 <= j < n
        ensures s[j] == s[j + 2]
      {
        assert s[j] == a[base + 44..base + 44 + n][j] && s[j + 2] == a[base + 46..base + 46 + n][j];
      }
      OnlyPAndK(s, n, 0);
      var o := a[base + 42..base + 42 + 4];
      Sum4(o);
      assert o[0] == 0 && o[1] == 0 && o[2] == s[0];
      LocalFitsBehind(a, Number(a, base + 42, 4), f.name, Checksum(f.bytes), |f.bytes|);
    }
  }

  lemma OneBody(files: seq<File>)
    requires |files| == 1
    ensures |Body(files)| == 30 + |files[0].name| + |files[0].bytes|
    ensures |Directory(files)| == 44 + |files[0].name|
  {
    hide LocalHeader, CentralRecord, Checksum;
    assert files[..0] == [];
  }

  lemma LocalFitsBehind(a: seq<Byte>, at: nat, name: seq<Byte>, crc: nat, size: nat)
    requires ReadLocal(a, at, name, crc, size).Some?
    ensures at + 30 + |name| + size <= |a|
  {
    hide Checksum, FromLittleEndian;
  }

  /** Read with the 46 fixed bytes of section 4.3.12 of APPNOTE, an archive of this writer
      yields its files exactly when there are none: the external attributes are two bytes
      short, so the first record's offset and name are read two bytes late, and a second
      record is not found. */
  lemma StandardLayoutIff(files: seq<File>)
    requires Fits(files)
    ensures Read(Archive(files), 46) == Some(files) <==> files == []
  {
    hide EndRecord, Body, Directory, ReadDirectory, Read, LocalHeader, CentralRecord, Checksum;
    var b, d := Body(files), Directory(files);
    var e := EndRecord(|files|, |d|, |b|);
    EndRead(b + d, |files|, |d|, |b|);
    var a := Archive(files);
    assert At(a, 0, b + d + e);
    Within(a, 0, b, d, e);
    if files == [] {
      NothingToRead(a, |b|);
    } else {
      DirectoryIsLost(a, |b|, files, e);
    }
  }

  lemma NothingToRead(a: seq<Byte>, at: nat)
    ensures ReadDirectory(a, at, 0, 46) == Some([])
  {
  }

  lemma DirectoryIsLost(a: seq<Byte>, base: nat, files: seq<File>, e: seq<Byte>)
    requires Fits(files) && files != [] && base == |Body(files)| && |a| == base + |Directory(files)| + 22
    requires At(a, base, Directory(files)) && At(a, base + |Directory(files)|, e)
    requires e == EndRecord(|files|, |Directory(files)|, |Body(files)|)
    ensures ReadDirectory(a, base, |files|, 46) != Some(files)
  {
    hide At, EndRecord, Body, Directory, ReadRecord, ReadDirectory, Fits, LittleEndian;
    FollowedByPK(a, base, files, e);
    DirectoryHead(a, base, |files|);
    if |files| == 1 {
      OneFileIsLost(a, base, files, e);
    } else {
      ShiftedNext(a, base, files);
      NoRecordHere(a, base + 46 + |files[0].name|);
    }
  }

  lemma ShiftedNext(a: seq<Byte>, base: nat, files: seq<File>)
    requires Fits(files) && files != [] && At(a, base, Directory(files))
    ensures ReadRecord(a, base, 46).Some? ==> ReadRecord(a, base, 46).value.1 == base + 46 + |files[0].name|
  {
    hide At, Body, Directory, ReadRecord, Fits, Checksum;
    ShiftedRecord(a, base, files);
  }

  lemma DirectoryHead(a: seq<Byte>, at: nat, count: nat)
    requires count > 0
    ensures var first, all := ReadRecord(a, at, 46), ReadDirectory(a, at, count, 46);
            && (first.None? ==> all == None)
            && (all.Some? ==> |all.value| > 0 && all.value[0] == first.value.0)
            && (first.Some? && count > 1 && ReadRecord(a, first.value.1, 46).None? ==> all == None)
  {
    hide ReadRecord;
  }

  lemma NoRecordHere(a: seq<Byte>, at: nat)
    requires at < |a| && a[at] != 0x50
    ensures ReadRecord(a, at, 46) == None
  {
    hide ReadLocal;
    assert at + 4 <= |a| ==> a[at..at + 4][0] == a[at];
  }

  // ------------------------------------------------------------------ damage

  lemma {:induction false} DirectoryReadFails(a: seq<Byte>, base: nat, files: seq<File>, i: nat, k: nat)
    requires At(a, base, Directory(files)) && Fits(files) && i <= k < |files|
    requires ReadLocal(a, |Body(files[..k])|, files[k].name, Checksum(files[k].bytes),
               |files[k].bytes|) == None
    ensures ReadDirectory(a, base + |Directory(files[..i])|, |files| - i, 44) == None
    decreases k - i
  {
    hide LocalHeader, CentralRecord, Checksum, Body, Directory, ReadRecord, ReadLocal;
    RecordAt(a, base, files, i);
    RecordRead(a, base + |Directory(files[..i])|, files[i], |Body(files[..i])|);
    if i < k {
      DirectoryReadFails(a, base, files, i + 1, k);
    }
  }

  lemma ChecksumDiffers(x: seq<Byte>, y: seq<Byte>)
    requires Crc32.Reference(x) != Crc32.Reference(y)
    ensures Checksum(x) != Checksum(y)
  {
    Crc32.BitsOfValue(Crc32.Reference(x));
    Crc32.BitsOfValue(Crc32.Reference(y));
  }

  /** Damage to one stored file that stays within 32 consecutive bits is noticed. */
  lemma DamageDetected(files: seq<File>, k: nat, stored: seq<Byte>, start: nat,
      before: Crc32.Bits, v: Crc32.Bits, w: Crc32.Bits, after: Crc32.Bits)
    requires Fits(files) && k < |files| && |stored| == |files[k].bytes|
    requires Crc32.Stream(files[k].bytes) == before + v + after
    requires Crc32.Stream(stored) == before + w + after
    requires |v| == |w| <= 32 && v != w
    requires start == |Body(files[..k])| + 30 + |files[k].name|
    requires start + |stored| <= |Archive(files)|
    ensures var a := Archive(files);
            Read(a[..start] + stored + a[start + |stored|..], 44) == None
  {
    hide EndRecord, Body, Directory, Archive, Read, LocalHeader, Checksum, At;
    Crc32.BurstDetected(files[k].bytes, stored, before, v, w, after);
    ChecksumDiffers(files[k].bytes, stored);
    var body := DamagedBody(files, k, stored, start);
    DamagedRead(files, k, stored, body);
  }

  lemma DamagedRead(files: seq<File>, k: nat, stored: seq<Byte>, body: seq<Byte>)
    requires Fits(files) && k < |files| && |stored| == |files[k].bytes| && |body| == |Body(files)|
    requires At(body, |Body(files[..k])|, LocalHeader(files[k], Checksum(files[k].bytes)) + stored)
    requires Checksum(stored) != Checksum(files[k].bytes)
    ensures Read(body + Directory(files) + EndRecord(|files|, |Directory(files)|, |Body(files)|), 44) == None
  {
    hide EndRecord, Body, Directory, Read, ReadDirectory, ReadLocal, LocalHeader, CentralRecord, Checksum;
    var f := files[k];
    var d, offset := Directory(files), |Body(files)|;
    EndRead(body + d, |files|, |d|, offset);
    var e := EndRecord(|files|, |d|, offset);
    var a := body + d + e;
    assert body <= a && At(a, 0, a);
    Within(a, 0, body, d, e);
    StartsWith(a, body, |Body(files[..k])|, LocalHeader(f, Checksum(f.bytes)) + stored);
    LocalRead(a, |Body(files[..k])|, f, stored);
    assert files[..0] == [];
    EmptyDirectory();
    DirectoryReadFails(a, offset, files, 0, k);
  }

  lemma StartsWith(a: seq<Byte>, b: seq<Byte>, at: nat, s: seq<Byte>)
    requires b <= a && At(b, at, s)
    ensures At(a, at, s)
  {
    assert a[at..at + |s|] == b[at..at + |s|];
  }

  /** The damaged archive, seen as the damaged files followed by an intact directory. */
  lemma DamagedBody(files: seq<File>, k: nat, stored: seq<Byte>, start: nat)
    returns (body: seq<Byte>)
    requires k < |files| && |stored| == |files[k].bytes|
    requires start == |Body(files[..k])| + 30 + |files[k].name|
    requires start + |stored| <= |Archive(files)|
    ensures |body| == |Body(files)|
    ensures At(body, |Body(files[..k])|,
              LocalHeader(files[k], Checksum(files[k].bytes)) + stored)
    ensures var a := Archive(files);
            a[..start] + stored + a[start + |stored|..]
              == body + Directory(files) + EndRecord(|files|, |Directory(files)|, |Body(files)|)
  {
    hide EndRecord, Body, Directory, LocalHeader, CentralRecord, Checksum;
    var f, b := files[k], Body(files);
    var rest := Directory(files) + EndRecord(|files|, |Directory(files)|, |b|);
    Prefixes(files, k + 1);
    StepAt(files, k);
    var p, h := Body(files[..k]), LocalHeader(f, Checksum(f.bytes));
    assert b[..start] == p + h;
    body := p + (h + stored) + b[start + |stored|..];
    assert At(body, |p|, h + stored);
    var a := Archive(files);
    assert a == b + rest;
    assert a[..start] == p + h;
    assert a[start + |stored|..] == b[start + |stored|..] + rest;
  }
}

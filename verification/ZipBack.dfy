/** What comes back of printed ZIP records, and where their parts lie among the bytes of a file. */
module ZipBack {
  import opened Wrappers
  import opened Text
  import opened Zip

  ghost predicate At(data: seq<byte>, p: nat, bytes: seq<byte>) {
    p + |bytes| <= |data| && data[p..p + |bytes|] == bytes
  }

  lemma AtSplit(data: seq<byte>, p: nat, a: seq<byte>, b: seq<byte>)
    ensures At(data, p, a + b) <==> At(data, p, a) && At(data, p + |a|, b)
  {
    if p + |a + b| <= |data| {
      var n, m := p + |a|, p + |a + b|;
      assert data[p..m] == data[p..n] + data[n..m];
      if At(data, p, a + b) {
        assert data[p..n] == (a + b)[..|a|] && data[n..m] == (a + b)[|a|..];
      }
    }
  }

  // ---------- What a reader makes of what was printed ----------

  function VersionBack(v: Version): Version {
    if KnownOs(v) then v else Version(OS_NAMES[0], v.level)
  }

  /** What comes back of the header's fields: no strong encryption, a compression method of 8 if there was none, and
      seconds rounded down to even. */
  function AboutBack(a: About): About {
    a.(flags := a.flags.(strong_encrypt := false),
       compression := Some(if a.compression.Some? then a.compression.value else 8),
       modtime := a.modtime.(sec := a.modtime.sec / 2 * 2))
  }

  /** The extra fields that were written, by id. */
  ghost function ExtrasBack(extra: seq<(u16, Extra)>): map<u16, Extra> {
    if extra == [] then map[]
    else (if Written(extra[0]) then map[extra[0].0 := extra[0].1] else map[]) + ExtrasBack(extra[1..])
  }

  datatype FileRead = FileRead(byversion: Version, about: About, name: Option<seq<byte>>, extra: map<u16, Extra>)

  // What a directory entry tells of an extra field: its size, or the fields of a language extension.
  datatype Note = Size(bytes: nat) | Fields(fields: map<byte, seq<byte>>)

  function NoteOf(x: Extra): Note {
    match x
    case Raw(data) => Size(|data|)
    case Language(fields) => Fields(fields)
  }

  function Notes(m: map<u16, Extra>): map<u16, Note> {
    map id | id in m :: NoteOf(m[id])
  }

  datatype DirRead = DirRead(byversion: Version, forversion: Version, about: About, place: Place,
                             name: Option<seq<byte>>, extra: map<u16, Note>, comment: Option<seq<byte>>)

  datatype EocdRead = EocdRead(disknum: u16, diskstart: u16, entries: u16, totalentries: u16, size: u32, offset: u32,
                               comment: Option<seq<byte>>)

  ghost function FileBack(f: File): FileRead {
    FileRead(VersionBack(f.byversion), AboutBack(f.about), Some(f.name), ExtrasBack(f.extra))
  }

  ghost function DirBack(d: Dir): DirRead {
    DirRead(VersionBack(d.byversion), VersionBack(d.forversion), AboutBack(d.about), d.place,
            Some(d.name), Notes(ExtrasBack(d.extra)), Some(d.comment))
  }

  ghost function ListBack(list: seq<Dir>): seq<DirRead> {
    if list == [] then [] else [DirBack(list[0])] + ListBack(list[1..])
  }

  // ---------- Words taken apart ----------

  /** The lowest bit of a word, and the rest. */
  function Flag(n: int): (bool, int) {
    (n % 2 != 0, n / 2)
  }

  /** The lowest two bits of a word, and the rest. */
  function Bits2(n: int): (int, int) {
    (n % 4, n / 4)
  }

  /** The flags in a word, taken off from the low end. */
  function FlagsOf(w: u16): Flags {
    var (encrypted, f1) := Flag(w);
    var (compress, f2) := Bits2(f1);
    var (data, f3) := Flag(f2);
    var (enhanced_deflate, f4) := Flag(f3);
    var (patched, f5) := Flag(f4);
    var (strong_encrypt, f6) := Flag(f5);
    var f7 := f6 / 16;
    var (utf8, f8) := Flag(f7);
    var (pkware_compress, f9) := Flag(f8);
    var (hidden, f10) := Flag(f9);
    Flags(encrypted, compress, data, enhanced_deflate, patched, strong_encrypt, utf8, pkware_compress, hidden,
          Bits2(f10).0)
  }

  lemma Half(b: bool, q: int)
    ensures Flag(Bit(b, 1) + 2 * q) == (b, q)
  {
  }

  lemma Quarter(n: int, q: int)
    requires 0 <= n < 4
    ensures Bits2(n + 4 * q) == (n, q) && Bits2(n).0 == n
  {
  }

  // The word from each of its flags on up.

  ghost function FromHidden(f: Flags): int {
    Bit(f.hidden, 1) + 2 * f.pkware
  }

  ghost function FromPkware(f: Flags): int {
    Bit(f.pkware_compress, 1) + 2 * FromHidden(f)
  }

  ghost function FromUtf8(f: Flags): int {
    Bit(f.utf8, 1) + 2 * FromPkware(f)
  }

  ghost function FromPatched(f: Flags): int {
    Bit(f.patched, 1) + 2 * (32 * FromUtf8(f))
  }

  ghost function FromEnhanced(f: Flags): int {
    Bit(f.enhanced_deflate, 1) + 2 * FromPatched(f)
  }

  ghost function FromData(f: Flags): int {
    Bit(f.data, 1) + 2 * FromEnhanced(f)
  }

  ghost function FromCompress(f: Flags): int {
    f.compress + 4 * FromData(f)
  }

  lemma FlagWordNests(f: Flags)
    requires FlagsFit(f)
    ensures FlagWord(f) == Bit(f.encrypted, 1) + 2 * FromCompress(f)
  {
  }

  lemma LowFlags(f: Flags)
    requires FlagsFit(f)
    ensures Flag(FlagWord(f)) == (f.encrypted, FromCompress(f)) && Bits2(FromCompress(f)) == (f.compress, FromData(f))
    ensures Flag(FromData(f)) == (f.data, FromEnhanced(f))
    ensures Flag(FromEnhanced(f)) == (f.enhanced_deflate, FromPatched(f))
    ensures Flag(FromPatched(f)) == (f.patched, 32 * FromUtf8(f))
  {
    hide FlagWord, Bit, Flag, Bits2;
    FlagWordNests(f);
    Half(f.encrypted, FromCompress(f));
    Quarter(f.compress, FromData(f));
    Half(f.data, FromEnhanced(f));
    Half(f.enhanced_deflate, FromPatched(f));
    Half(f.patched, 32 * FromUtf8(f));
  }

  lemma HighFlags(f: Flags)
    requires FlagsFit(f)
    ensures Flag(32 * FromUtf8(f)) == (false, 16 * FromUtf8(f)) && 16 * FromUtf8(f) / 16 == FromUtf8(f)
    ensures Flag(FromUtf8(f)) == (f.utf8, FromPkware(f)) && Flag(FromPkware(f)) == (f.pkware_compress, FromHidden(f))
    ensures Flag(FromHidden(f)) == (f.hidden, f.pkware) && Bits2(f.pkware).0 == f.pkware
  {
    hide Bit, Flag, Bits2;
    SkipFive(FromUtf8(f));
    Half(f.utf8, FromPkware(f));
    Half(f.pkware_compress, FromHidden(f));
    Half(f.hidden, f.pkware);
    Quarter(f.pkware, 0);
  }

  lemma FlagsComeBack(f: Flags)
    requires FlagsFit(f)
    ensures FlagsOf(FlagWord(f)) == f.(strong_encrypt := false)
  {
    hide FlagWord, Flag, Bits2, FromCompress, FromData, FromEnhanced, FromPatched, FromUtf8, FromPkware, FromHidden;
    LowFlags(f);
    HighFlags(f);
  }

  // A word halved again and again, all at once.

  lemma Halved(w: u16)
    ensures w / 2 / 4 == w / 8 && w / 8 / 2 == w / 16 && w / 16 / 2 == w / 32 && w / 32 / 2 == w / 64
    ensures w / 64 / 2 == w / 128
  {
  }

  lemma HalvedOn(w: u16)
    ensures w / 128 / 16 == w / 2048 && w / 2048 / 2 == w / 4096 && w / 4096 / 2 == w / 8192
    ensures w / 8192 / 2 == w / 16384 && w / 16384 < 4
  {
  }

  /** Each flag of any word is its own bit, or two, of the word. */
  lemma FlagsAreBits(w: u16)
    ensures var f := FlagsOf(w);
            && (f.encrypted <==> w % 2 == 1) && f.compress == w / 2 % 4
            && (f.data <==> w / 8 % 2 == 1) && (f.enhanced_deflate <==> w / 16 % 2 == 1)
            && (f.patched <==> w / 32 % 2 == 1) && (f.strong_encrypt <==> w / 64 % 2 == 1)
            && (f.utf8 <==> w / 2048 % 2 == 1) && (f.pkware_compress <==> w / 4096 % 2 == 1)
            && (f.hidden <==> w / 8192 % 2 == 1) && f.pkware == w / 16384 % 4
  {
    Halved(w);
    HalvedOn(w);
  }

  lemma Split(n: int, k: int)
    requires 0 < k
    ensures n == n % k + k * (n / k)
  {
  }

  // A word by its flags: its low six bits, and what is above them.

  ghost function LowWord(f: Flags, q: int): int {
    Bit(f.encrypted, 1) + 2 * f.compress + 8 * Bit(f.data, 1) + 16 * Bit(f.enhanced_deflate, 1) + 32 * Bit(f.patched, 1)
    + 64 * q
  }

  ghost function HighWord(f: Flags, skipped: int): int {
    Bit(f.strong_encrypt, 1) + 2 * skipped + 32 * Bit(f.utf8, 1) + 64 * Bit(f.pkware_compress, 1)
    + 128 * Bit(f.hidden, 1) + 256 * f.pkware
  }

  lemma LowBits(w: u16)
    ensures w == LowWord(FlagsOf(w), w / 64)
  {
    FlagsAreBits(w);
    hide FlagsOf;
    assert w / 2 == w / 2 % 4 + 4 * (w / 8) by { Halved(w); Split(w / 2, 4); }
    assert w / 8 == w / 8 % 2 + 2 * (w / 16) by { Halved(w); Split(w / 8, 2); }
    assert w / 16 == w / 16 % 2 + 2 * (w / 32) by { Halved(w); Split(w / 16, 2); }
    assert w / 32 == w / 32 % 2 + 2 * (w / 64) by { Halved(w); Split(w / 32, 2); }
  }

  lemma HighSum(w: u16)
    ensures w / 64 == w / 64 % 2 + 2 * (w / 128 % 16) + 32 * (w / 2048 % 2) + 64 * (w / 4096 % 2)
                      + 128 * (w / 8192 % 2) + 256 * (w / 16384 % 4)
  {
    assert w / 64 == w / 64 % 2 + 2 * (w / 128) by { Halved(w); Split(w / 64, 2); }
    assert w / 128 == w / 128 % 16 + 16 * (w / 2048) by { HalvedOn(w); Split(w / 128, 16); }
    assert w / 2048 == w / 2048 % 2 + 2 * (w / 4096) by { HalvedOn(w); Split(w / 2048, 2); }
    assert w / 4096 == w / 4096 % 2 + 2 * (w / 8192) by { HalvedOn(w); Split(w / 4096, 2); }
    assert w / 8192 == w / 8192 % 2 + 2 * (w / 16384 % 4) by { HalvedOn(w); Split(w / 8192, 2); }
  }

  lemma HighBits(w: u16)
    ensures w / 64 == HighWord(FlagsOf(w), w / 128 % 16)
  {
    FlagsAreBits(w);
    hide FlagsOf;
    HighSum(w);
  }

  lemma FlagsOfFit(w: u16)
    ensures FlagsFit(FlagsOf(w))
  {
    FlagsAreBits(w);
  }

  lemma BitsAdd(f: Flags, skipped: int)
    requires FlagsFit(f)
    ensures FlagWord(f) + Bit(f.strong_encrypt, 64) + skipped * 128 == LowWord(f, HighWord(f, skipped))
  {
  }

  /** Any word is the flags taken off it, put together again, with the bits that are no flag and the one for strong
      encryption. */
  lemma WordIsItsFlags(w: u16)
    ensures FlagsFit(FlagsOf(w))
    ensures FlagWord(FlagsOf(w)) + Bit(FlagsOf(w).strong_encrypt, 64) + w / 128 % 16 * 128 == w
  {
    hide *;
    FlagsOfFit(w);
    LowBits(w);
    HighBits(w);
    BitsAdd(FlagsOf(w), w / 128 % 16);
  }

  /** Any time and date is the stamp made of it, put together again. */
  lemma WordsOfStamp(time: u16, date: u16)
    ensures StampFits(StampOf(time, date))
    ensures TimeWord(StampOf(time, date)) == time && DateWord(StampOf(time, date)) == date
  {
  }

  lemma SkipFive(u: int)
    ensures Flag(32 * u) == (false, 16 * u) && 16 * u / 16 == u
  {
  }

  function StampOf(time: u16, date: u16): Stamp {
    Stamp(date / 512 + 1980, date % 512 / 32, date % 512 % 32, time / 2048, time % 2048 / 32, time % 2048 % 32 * 2)
  }

  lemma StampComesBack(t: Stamp)
    requires StampFits(t)
    ensures StampOf(TimeWord(t), DateWord(t)) == t.(sec := t.sec / 2 * 2)
  {
    var h := t.sec / 2;
    assert (t.hour * 2048 + (t.min * 32 + h)) / 2048 == t.hour
           && (t.hour * 2048 + (t.min * 32 + h)) % 2048 == t.min * 32 + h;
    assert (t.min * 32 + h) / 32 == t.min && (t.min * 32 + h) % 32 == h;
    var m := t.month * 32 + t.day;
    assert ((t.year - 1980) * 512 + m) / 512 == t.year - 1980 && ((t.year - 1980) * 512 + m) % 512 == m;
    assert m / 32 == t.month && m % 32 == t.day;
  }

  /** A code past the table has the name of no system. */
  lemma OsUnknown(code: byte)
    ensures OsName(code) in OS_NAMES <==> code < |OS_NAMES|
  {
    if code < |OS_NAMES| {
      assert OS_NAMES[code] in OS_NAMES;
    } else {
      assert forall k | 0 <= k < |OS_NAMES| :: |OS_NAMES[k]| > 1;
    }
  }

  lemma OsComesBack(v: Version)
    ensures OsName(OsCode(v.os)) == VersionBack(v).os
  {
  }

  // ---------- Bytes in place ----------

  function Word(data: seq<byte>, p: nat): u16
    requires p + 2 <= |data|
  {
    data[p] as int + 256 * data[p + 1] as int
  }

  function Long(data: seq<byte>, p: nat): u32
    requires p + 4 <= |data|
  {
    Word(data, p) + 0x1_0000 * Word(data, p + 2)
  }

  lemma At16(data: seq<byte>, p: nat, n: u16)
    requires At(data, p, B16(n))
    ensures p + 2 <= |data| && Word(data, p) == n
  {
    assert data[p..p + 2][0] == data[p] && data[p..p + 2][1] == data[p + 1];
  }

  lemma At32(data: seq<byte>, p: nat, n: u32)
    requires At(data, p, B32(n))
    ensures p + 4 <= |data| && Long(data, p) == n
  {
    AtSplit(data, p, B16(n % 0x1_0000), B16(n / 0x1_0000));
    At16(data, p, n % 0x1_0000);
    At16(data, p + 2, n / 0x1_0000);
  }

  lemma VersionAt(data: seq<byte>, p: nat, v: Version)
    requires At(data, p, VersionBytes(v))
    ensures p + 2 <= |data| && Version(OsName(data[p + 1]), data[p]) == VersionBack(v)
  {
    assert data[p..p + 2][0] == data[p] && data[p..p + 2][1] == data[p + 1];
    OsComesBack(v);
  }

  lemma AboutAt(data: seq<byte>, p: nat, a: About)
    requires AboutFits(a) && At(data, p, AboutBytes(a))
    ensures p + 20 <= |data|
    ensures Word(data, p) == FlagWord(a.flags) && Word(data, p + 2) == Method(a)
    ensures Word(data, p + 4) == TimeWord(a.modtime) && Word(data, p + 6) == DateWord(a.modtime)
    ensures Long(data, p + 8) == a.crc && Long(data, p + 12) == a.csize && Long(data, p + 16) == a.usize
  {
    hide B16, B32, At, FlagWord, TimeWord, DateWord, Word, Long;
    var s1 := B16(FlagWord(a.flags));
    var s2 := s1 + B16(Method(a));
    var s3 := s2 + StampBytes(a.modtime);
    var s4 := s3 + B32(a.crc);
    var s5 := s4 + B32(a.csize);
    AtSplit(data, p, s5, B32(a.usize));
    AtSplit(data, p, s4, B32(a.csize));
    AtSplit(data, p, s3, B32(a.crc));
    AtSplit(data, p, s2, StampBytes(a.modtime));
    AtSplit(data, p, s1, B16(Method(a)));
    AtSplit(data, p + 4, B16(TimeWord(a.modtime)), B16(DateWord(a.modtime)));
    At16(data, p, FlagWord(a.flags));
    At16(data, p + 2, Method(a));
    At16(data, p + 4, TimeWord(a.modtime));
    At16(data, p + 6, DateWord(a.modtime));
    At32(data, p + 8, a.crc);
    At32(data, p + 12, a.csize);
    At32(data, p + 16, a.usize);
  }

  lemma PlaceAt(data: seq<byte>, p: nat, x: Place)
    requires At(data, p, PlaceBytes(x))
    ensures p + 12 <= |data|
    ensures Word(data, p) == x.diskstart && Word(data, p + 2) == AttrWord(x.text, x.record)
    ensures Long(data, p + 4) == x.eattr && Long(data, p + 8) == x.offset
  {
    hide B16, B32, At, AttrWord, Word, Long;
    var s1 := B16(x.diskstart);
    var s2 := s1 + B16(AttrWord(x.text, x.record));
    var s3 := s2 + B32(x.eattr);
    AtSplit(data, p, s3, B32(x.offset));
    AtSplit(data, p, s2, B32(x.eattr));
    AtSplit(data, p, s1, B16(AttrWord(x.text, x.record)));
    At16(data, p, x.diskstart);
    At16(data, p + 2, AttrWord(x.text, x.record));
    At32(data, p + 4, x.eattr);
    At32(data, p + 8, x.offset);
  }

  /** An extra field that is written, in its size. */
  ghost predicate FitsAlone(x: (u16, Extra), order: seq<byte>) {
    Written(x) && Typed(x) && |Payload(x, order)| < 0x1_0000
  }

  /** What is written and what is not: mere bytes under an id that is not even named; but not so under one that is, as
      that of Zip64, or that of the language extension; and no language extension that is empty or too long. */
  lemma WrittenOrNot(id: u16, data: seq<byte>, fields: map<byte, seq<byte>>, order: seq<byte>)
    ensures |data| < 0x1_0000 ==>
              OneExtra((0xCAFE, Raw(data)), order) == [0xFE, 0xCA, |data| % 256, |data| / 256] + data
    ensures OneExtra((0x0001, Raw(data)), order) == [] && OneExtra((LANGUAGE, Raw(data)), order) == []
    ensures OneExtra((id, Language(map[])), order) == []
    ensures (exists t :: t in fields && |fields[t]| > 255) ==> OneExtra((id, Language(fields)), order) == []
  {
  }

  /** The tags of the fields there are, in order. */
  ghost function TagsIn(fields: map<byte, seq<byte>>, order: seq<byte>): seq<byte> {
    if order == [] then [] else (if order[0] in fields then [order[0]] else []) + TagsIn(fields, order[1..])
  }

  lemma {:induction false} TagsInAre(fields: map<byte, seq<byte>>, order: seq<byte>)
    requires FieldsFit(fields)
    ensures FieldBytes(fields, TagsIn(fields, order)) == FieldBytes(fields, order)
    ensures forall t :: t in TagsIn(fields, order) <==> t in order && t in fields
  {
    if order != [] {
      TagsInAre(fields, order[1..]);
      assert order == [order[0]] + order[1..];
      var ts := TagsIn(fields, order[1..]);
      if order[0] in fields {
        assert TagsIn(fields, order) == [order[0]] + ts && ([order[0]] + ts)[1..] == ts;
      } else {
        assert TagsIn(fields, order) == ts;
      }
    }
  }

  ghost predicate Unparsed(fields: map<byte, seq<byte>>, rest: seq<byte>, ext: map<byte, seq<byte>>) {
    && (forall t | t in rest :: t in fields && 1 <= t <= 8)
    && (forall t | t in ext :: t in fields && ext[t] == fields[t])
    && (forall t | t in fields :: t in ext || t in rest)
  }

  lemma UnparsedStep(fields: map<byte, seq<byte>>, rest: seq<byte>, ext: map<byte, seq<byte>>)
    requires Unparsed(fields, rest, ext) && rest != []
    ensures (forall t | t in rest :: t in fields && 1 <= t <= 8) && rest[0] in fields && 1 <= rest[0] <= 8
    ensures Unparsed(fields, rest[1..], ext[rest[0] := fields[rest[0]]])
  {
    var tag := rest[0];
    assert tag in rest;
    forall t | t in rest[1..] ensures t in fields && 1 <= t <= 8 {
      assert t in rest;
    }
    forall t | t in fields ensures t in ext[tag := fields[tag]] || t in rest[1..] {
      assert rest == [tag] + rest[1..];
      assert t in ext || t in rest;
    }
  }

  lemma FieldsCons(fields: map<byte, seq<byte>>, rest: seq<byte>)
    requires rest != [] && FieldsFit(fields) && forall t | t in rest :: t in fields && 1 <= t <= 8
    ensures rest[0] in fields && |fields[rest[0]]| < 256 && 1 <= rest[0] <= 8
    ensures OneField(fields, rest[0]) == [rest[0], |fields[rest[0]]|] + fields[rest[0]]
    ensures FieldBytes(fields, rest) == OneField(fields, rest[0]) + FieldBytes(fields, rest[1..])
  {
    assert rest[0] in rest;
  }

  lemma FieldAt(data: seq<byte>, p: nat, tag: byte, value: seq<byte>)
    requires |value| < 256 && At(data, p, [tag, |value|] + value)
    ensures p + 2 + |value| <= |data|
    ensures data[p] == tag && data[p + 1] == |value| && data[p + 2..p + 2 + |value|] == value
  {
    AtSplit(data, p, [tag, |value|], value);
    assert data[p..p + 2][0] == data[p] && data[p..p + 2][1] == data[p + 1];
  }

  lemma TwoAtLeast(fields: map<byte, seq<byte>>, rest: seq<byte>)
    requires FieldsFit(fields) && forall t | t in rest :: t in fields
    ensures rest != [] ==> |FieldBytes(fields, rest)| >= 2
  {
    if rest != [] {
      assert rest[0] in rest;
      assert |OneField(fields, rest[0])| >= 2;
    }
  }

  lemma FitsAs(x: (u16, Extra), order: seq<byte>)
    requires FitsAlone(x, order)
    ensures Written(x) && |Payload(x, order)| < 0x1_0000
    ensures x.1.Language? ==> FieldsFit(x.1.fields) && forall t | t in x.1.fields :: 1 <= t <= 8
    ensures Payload(x, order) == if x.1.Raw? then x.1.data else FieldBytes(x.1.fields, order)
    ensures x.1.Language? <==> x.0 == LANGUAGE
  {
  }

  /** Extra fields that are all written, each in its size. */
  ghost predicate Printable(xs: seq<(u16, Extra)>, order: seq<byte>) {
    forall x | x in xs :: FitsAlone(x, order)
  }

  lemma AtIs(data: seq<byte>, p: nat, bytes: seq<byte>)
    requires At(data, p, bytes)
    ensures p + |bytes| <= |data| && data[p..p + |bytes|] == bytes
  {
  }

  lemma ExtrasCons(rest: seq<(u16, Extra)>, order: seq<byte>)
    requires Printable(rest, order) && ExtraBytes(rest, order) != []
    ensures rest != [] && FitsAlone(rest[0], order)
    ensures ExtraBytes(rest, order)
            == B16(rest[0].0) + B16(|Payload(rest[0], order)|) + Payload(rest[0], order) + ExtraBytes(rest[1..], order)
    ensures ExtrasBack(rest) == map[rest[0].0 := rest[0].1] + ExtrasBack(rest[1..])
    ensures Printable(rest[1..], order)
  {
    hide FieldBytes, Named, Typed;
    assert rest[0] in rest && FitsAlone(rest[0], order);
    assert forall x | x in rest[1..] :: x in rest;
  }

  lemma FourAtLeast(rest: seq<(u16, Extra)>, order: seq<byte>)
    requires Printable(rest, order)
    ensures rest != [] ==> |ExtraBytes(rest, order)| >= 4
  {
    hide FieldBytes, Named, Typed;
    if rest != [] {
      assert rest[0] in rest && FitsAlone(rest[0], order);
    }
  }

  // ---------- Whole records in place ----------

  /** The extra fields that are written. */
  ghost function Kept(extra: seq<(u16, Extra)>): seq<(u16, Extra)> {
    if extra == [] then [] else (if Written(extra[0]) then [extra[0]] else []) + Kept(extra[1..])
  }

  lemma {:induction false} KeptSame(extra: seq<(u16, Extra)>, order: seq<byte>)
    requires forall x | x in extra :: Typed(x) && (Written(x) ==> |Payload(x, order)| < 0x1_0000)
    ensures Printable(Kept(extra), order)
    ensures ExtraBytes(Kept(extra), order) == ExtraBytes(extra, order) && ExtrasBack(Kept(extra)) == ExtrasBack(extra)
  {
    hide Typed, Named, FieldBytes, FieldsFit, Payload, Written, FitsAlone, OneExtra, Printable;
    if extra == [] {
      NonePrintable(order);
    } else {
      var x := extra[0];
      assert x in extra;
      assert forall y | y in extra[1..] :: y in extra;
      KeptSame(extra[1..], order);
      FitsWhenWritten(x, order);
      if Written(x) {
        assert Kept(extra) == [x] + Kept(extra[1..]) && Kept(extra)[1..] == Kept(extra[1..]);
        PrintableCons(x, Kept(extra[1..]), order);
      } else {
        assert Kept(extra) == Kept(extra[1..]) && map[] + ExtrasBack(extra[1..]) == ExtrasBack(extra[1..]);
      }
    }
  }

  lemma NonePrintable(order: seq<byte>)
    ensures Printable([], order)
  {
  }

  lemma PrintableCons(x: (u16, Extra), xs: seq<(u16, Extra)>, order: seq<byte>)
    requires FitsAlone(x, order) && Printable(xs, order)
    ensures Printable([x] + xs, order)
  {
    hide FitsAlone;
  }

  lemma FitsWhenWritten(x: (u16, Extra), order: seq<byte>)
    requires Typed(x)
    ensures FitsAlone(x, order) <==> Written(x) && |Payload(x, order)| < 0x1_0000
    ensures !Written(x) ==> OneExtra(x, order) == []
  {
  }

  lemma FileAt(data: seq<byte>, p: nat, f: File, order: seq<byte>)
    requires FileFits(f, order) && At(data, p, FileBytes(f, order))
    ensures var n, m := |f.name|, |ExtraBytes(f.extra, order)|;
            && p + 30 + n + m <= |data| && |FileBytes(f, order)| == 30 + n + m
            && At(data, p, FILE_MAGIC) && At(data, p + 4, VersionBytes(f.byversion))
               && At(data, p + 6, AboutBytes(f.about))
            && Word(data, p + 26) == n && Word(data, p + 28) == m
            && data[p + 30..p + 30 + n] == f.name && At(data, p + 30 + n, ExtraBytes(f.extra, order))
  {
    hide At, Word, B16, VersionBytes, AboutBytes, ExtraBytes, ExtrasFit, AboutFits;
    var n, m := B16(|f.name|), |ExtraBytes(f.extra, order)|;
    FitsInHeader(f.extra, order);
    var s1 := FILE_MAGIC + VersionBytes(f.byversion);
    var s2 := s1 + AboutBytes(f.about);
    var s3 := s2 + n;
    var s4 := s3 + B16(m);
    AtSplit(data, p, s4 + f.name, ExtraBytes(f.extra, order));
    AtSplit(data, p, s4, f.name);
    AtSplit(data, p, s3, B16(m));
    AtSplit(data, p, s2, n);
    AtSplit(data, p, s1, AboutBytes(f.about));
    AtSplit(data, p, FILE_MAGIC, VersionBytes(f.byversion));
    At16(data, p + 26, |f.name|);
    At16(data, p + 28, m);
    AtIs(data, p + 30, f.name);
    AtIs(data, p + 30 + |f.name|, ExtraBytes(f.extra, order));
  }

  lemma DirAt(data: seq<byte>, p: nat, d: Dir, order: seq<byte>)
    requires DirFits(d, order) && At(data, p, DirBytes(d, order))
    ensures var n, m, c := |d.name|, |ExtraBytes(d.extra, order)|, |d.comment|;
            && p + 46 + n + m + c <= |data| && |DirBytes(d, order)| == 46 + n + m + c
            && At(data, p, DIR_MAGIC) && At(data, p + 4, VersionBytes(d.byversion))
               && At(data, p + 6, VersionBytes(d.forversion))
            && At(data, p + 8, AboutBytes(d.about))
            && Word(data, p + 28) == n && Word(data, p + 30) == m && Word(data, p + 32) == c
            && At(data, p + 34, PlaceBytes(d.place))
            && data[p + 46..p + 46 + n] == d.name && At(data, p + 46 + n, ExtraBytes(d.extra, order))
            && data[p + 46 + n + m..p + 46 + n + m + c] == d.comment
  {
    hide At, Word, B16, VersionBytes, AboutBytes, PlaceBytes, ExtraBytes, ExtrasFit, AboutFits;
    FitsInHeader(d.extra, order);
    var extra := ExtraBytes(d.extra, order);
    var s1 := DIR_MAGIC + VersionBytes(d.byversion);
    var s2 := s1 + VersionBytes(d.forversion);
    var s3 := s2 + AboutBytes(d.about);
    var s4 := s3 + B16(|d.name|);
    var s5 := s4 + B16(|extra|);
    var s6 := s5 + B16(|d.comment|);
    var s7 := s6 + PlaceBytes(d.place);
    AtSplit(data, p, s7 + d.name + extra, d.comment);
    AtSplit(data, p, s7 + d.name, extra);
    AtSplit(data, p, s7, d.name);
    AtSplit(data, p, s6, PlaceBytes(d.place));
    AtSplit(data, p, s5, B16(|d.comment|));
    AtSplit(data, p, s4, B16(|extra|));
    AtSplit(data, p, s3, B16(|d.name|));
    AtSplit(data, p, s2, AboutBytes(d.about));
    AtSplit(data, p, s1, VersionBytes(d.forversion));
    AtSplit(data, p, DIR_MAGIC, VersionBytes(d.byversion));
    At16(data, p + 28, |d.name|);
    At16(data, p + 30, |extra|);
    At16(data, p + 32, |d.comment|);
    AtIs(data, p + 46, d.name);
    AtIs(data, p + 46 + |d.name| + |extra|, d.comment);
  }

  lemma FitsInHeader(extra: seq<(u16, Extra)>, order: seq<byte>)
    requires ExtrasFit(extra, order)
    ensures |ExtraBytes(extra, order)| < 0x1_0000 && TagOrder(order) && Printable(Kept(extra), order)
    ensures ExtraBytes(Kept(extra), order) == ExtraBytes(extra, order) && ExtrasBack(Kept(extra)) == ExtrasBack(extra)
  {
    hide TagOrder, Typed, Written, Payload, ExtraBytes, ExtrasBack, Printable;
    KeptSame(extra, order);
  }

  // ---------- The end record ----------

  /** An end signature where the search may look: no nearer the end than an end record fits, no further than its comment
      can be long. */
  ghost predicate EndAt(data: seq<byte>, p: nat) {
    p + 22 <= |data| <= p + 22 + 65535 && At(data, p, EOCD_MAGIC)
  }

  /** That is where what follows the record is as long as some comment can be. */
  lemma EndRoom(data: seq<byte>, p: nat)
    ensures EndAt(data, p) <==> At(data, p, [0x50, 0x4B, 5, 6]) && 0 <= |data| - p - 22 < 0x1_0000
  {
  }

  /** The last end signature. */
  ghost predicate IsEnd(data: seq<byte>, p: nat) {
    EndAt(data, p) && forall q: nat | q > p :: !EndAt(data, q)
  }

  // What the search for the end record comes to; TooShort is the error raised if the file is too short for one.
  datatype End = Found(record: EocdRead) | BadComment | BadOffset | NotFound | TooShort

  function EocdAt(data: seq<byte>, p: nat): EocdRead
    requires p + 22 <= |data|
  {
    EocdRead(Word(data, p + 4), Word(data, p + 6), Word(data, p + 8), Word(data, p + 10),
             Long(data, p + 12), Long(data, p + 16),
             if p + 22 < |data| then Some(data[p + 22..]) else None)
  }

  /** What the signature at `p` comes to. */
  function EndFrom(data: seq<byte>, p: nat): End
    requires p + 22 <= |data|
  {
    if p + 22 + Word(data, p + 20) != |data| then BadComment
    else if Long(data, p + 16) > p || Long(data, p + 16) + Long(data, p + 12) > p then BadOffset
    else Found(EocdAt(data, p))
  }

  /** An end record without a comment comes back with no comment rather than an empty one: the file ends there. */
  function EocdBack(e: Eocd): EocdRead {
    EocdRead(e.disknum, e.diskstart, e.entries, e.totalentries, e.size, e.offset,
             if e.comment == [] then None else Some(e.comment))
  }

  lemma EocdLies(front: seq<byte>, e: Eocd)
    requires |e.comment| < 0x1_0000
    ensures var data := front + EocdBytes(e);
            && |data| == |front| + 22 + |e.comment| && EndAt(data, |front|) && Word(data, |front| + 20) == |e.comment|
            && Long(data, |front| + 12) == e.size && Long(data, |front| + 16) == e.offset
            && EocdAt(data, |front|) == EocdBack(e)
  {
    hide At, Word, Long, B16, B32;
    var data, p := front + EocdBytes(e), |front|;
    var s1 := EOCD_MAGIC + B16(e.disknum);
    var s2 := s1 + B16(e.diskstart);
    var s3 := s2 + B16(e.entries);
    var s4 := s3 + B16(e.totalentries);
    var s5 := s4 + B32(e.size);
    var s6 := s5 + B32(e.offset);
    var s7 := s6 + B16(|e.comment|);
    AtEnd(front, EocdBytes(e));
    AtSplit(data, p, s7, e.comment);
    AtSplit(data, p, s6, B16(|e.comment|));
    AtSplit(data, p, s5, B32(e.offset));
    AtSplit(data, p, s4, B32(e.size));
    AtSplit(data, p, s3, B16(e.totalentries));
    AtSplit(data, p, s2, B16(e.entries));
    AtSplit(data, p, s1, B16(e.diskstart));
    AtSplit(data, p, EOCD_MAGIC, B16(e.disknum));
    At16(data, p + 4, e.disknum);
    At16(data, p + 6, e.diskstart);
    At16(data, p + 8, e.entries);
    At16(data, p + 10, e.totalentries);
    At32(data, p + 12, e.size);
    At32(data, p + 16, e.offset);
    At16(data, p + 20, |e.comment|);
    AtIs(data, p + 22, e.comment);
    assert data[p + 22..] == e.comment;
  }

  lemma AtEnd(front: seq<byte>, bytes: seq<byte>)
    ensures At(front + bytes, |front|, bytes)
  {
  }

  /** What comes of an end record with something after it: bytes that are none of its comment, a directory that does not
      lie before it, or the record. */
  lemma EndFromIs(front: seq<byte>, e: Eocd, more: seq<byte>)
    requires |e.comment| < 0x1_0000
    ensures EndFrom(front + EocdBytes(e) + more, |front|)
            == if more != [] then BadComment
               else if e.offset + e.size > |front| then BadOffset
               else Found(EocdBack(e))
  {
    EocdLies(front, e);
    var data, p := front + EocdBytes(e), |front|;
    SameWord(data, more, p + 20);
    if more == [] {
      assert data + more == data;
    }
  }

  /** And of one whose comment is cut short. */
  lemma CutEnd(front: seq<byte>, e: Eocd, n: nat)
    requires |e.comment| < 0x1_0000 && 22 <= n < |EocdBytes(e)|
    ensures EndFrom(front + EocdBytes(e)[..n], |front|) == BadComment
  {
    EocdLies(front, e);
    var data, part, p := front + EocdBytes(e), front + EocdBytes(e)[..n], |front|;
    assert data == part + EocdBytes(e)[n..];
    SameWord(part, EocdBytes(e)[n..], p + 20);
  }

  lemma SameWord(data: seq<byte>, more: seq<byte>, p: nat)
    requires p + 2 <= |data|
    ensures Word(data + more, p) == Word(data, p)
  {
  }

  /** An end record is found again exactly when the directory it tells of lies before it and its own bytes hold no later
      signature. */
  lemma EocdReadsBack(front: seq<byte>, e: Eocd, p: nat)
    requires |e.comment| < 0x1_0000 && IsEnd(front + EocdBytes(e), p)
    ensures EndFrom(front + EocdBytes(e), p) == Found(EocdBack(e)) <==> p == |front| && e.offset + e.size <= |front|
    ensures p >= |front|
  {
    hide EocdBytes, Word, Long, At;
    EocdLies(front, e);
  }

  lemma OneEnd(data: seq<byte>, p: nat)
    requires IsEnd(data, p)
    ensures p + 22 <= |data| && forall q: nat | IsEnd(data, q) :: q == p
  {
  }

  lemma ListCons(list: seq<Dir>, order: seq<byte>)
    requires ListFits(list, order)
    ensures list != [] ==> DirFits(list[0], order) && ListFits(list[1..], order)
                           && ListBytes(list, order) == DirBytes(list[0], order) + ListBytes(list[1..], order)
    ensures list == [] ==> ListBytes(list, order) == []
  {
    hide DirFits, DirBytes;
    if list != [] {
      assert list[0] in list;
    }
  }
}

/** The records of a ZIP file and how they are printed. */
module Zip {
  import opened Wrappers
  import opened Text

  type u16 = x: int | 0 <= x < 0x1_0000
  type u32 = x: int | 0 <= x < 0x1_0000_0000

  const EOCD_MAGIC: seq<byte> := [0x50, 0x4B, 5, 6]
  const DIR_MAGIC: seq<byte> := [0x50, 0x4B, 1, 2]
  const FILE_MAGIC: seq<byte> := [0x50, 0x4B, 3, 4]

  const LANGUAGE: u16 := 0x454C

  const OS_NAMES: seq<string> := [
    "MS-DOS", "Amiga", "OpenVMS", "UNIX", "VM/CMS", "Atari ST", "OS/2", "Macintosh", "Z-System", "CP/M",
    "Windows", "MVS", "VSE", "Acorn Risc", "VFAT", "alternative MVS", "BeOS", "Tandem", "OS/400", "Darwin"
  ]

  /** The ids that the tables of extra fields only name; what is under them is not written. */
  predicate Named(id: u16) {
    id in {0x0001, 0x0007, 0x0008, 0x0009, 0x000a, 0x000c, 0x000d, 0x000e, 0x000f, 0x0014, 0x0015,
           0x0016, 0x0017, 0x0018, 0x0019, 0x0065, 0x0066, 0x4690, 0x07c8, 0x2605, 0x2705, 0x2805,
           0x334d, 0x4341, 0x4453, 0x4704, 0x470f, 0x4b46, 0x4c41, 0x4d49, 0x4f4c, 0x5356, 0x5455,
           0x554e, 0x5855, 0x6375, 0x6542, 0x7075, 0x756e, 0x7855, 0xa220, 0xfd4a}
  }

  // A version level in tenths.
  datatype Version = Version(os: string, level: byte)

  datatype Flags = Flags(encrypted: bool, compress: int, data: bool, enhanced_deflate: bool, patched: bool,
                         strong_encrypt: bool, utf8: bool, pkware_compress: bool, hidden: bool, pkware: int)

  datatype Stamp = Stamp(year: int, month: int, day: int, hour: int, min: int, sec: int)

  // An extra field: its bytes, or the tagged fields of a language extension.
  datatype Extra = Raw(data: seq<byte>) | Language(fields: map<byte, seq<byte>>)

  // The fields that a file's header and its directory entry have in common.
  datatype About = About(flags: Flags, compression: Option<u16>, modtime: Stamp, crc: u32, csize: u32, usize: u32)

  datatype File = File(byversion: Version, about: About, name: seq<byte>, extra: seq<(u16, Extra)>)

  // The fields that only a directory entry has.
  datatype Place = Place(diskstart: u16, text: bool, record: bool, eattr: u32, offset: u32)

  datatype Dir = Dir(byversion: Version, forversion: Version, about: About, place: Place,
                     name: seq<byte>, extra: seq<(u16, Extra)>, comment: seq<byte>)

  datatype Eocd = Eocd(disknum: u16, diskstart: u16, entries: u16, totalentries: u16, size: u32, offset: u32,
                       comment: seq<byte>)

  // ---------- What can be printed ----------

  predicate KnownOs(v: Version) {
    v.os in OS_NAMES
  }

  predicate FlagsFit(f: Flags) {
    0 <= f.compress < 4 && 0 <= f.pkware < 4
  }

  predicate StampFits(t: Stamp) {
    1980 <= t.year < 2108 && 0 <= t.month < 16 && 0 <= t.day < 32 && 0 <= t.hour < 32 && 0 <= t.min < 64 &&
    0 <= t.sec < 64
  }

  // ---------- Little-endian numbers ----------

  function B16(n: u16): (r: seq<byte>)
    ensures |r| == 2 && r[0] as int + 256 * r[1] as int == n
  {
    [n % 256, n / 256]
  }

  function B32(n: u32): (r: seq<byte>)
    ensures |r| == 4 && r[0] as int + 256 * r[1] as int + 0x1_0000 * (r[2] as int + 256 * r[3] as int) == n
  {
    B16(n % 0x1_0000) + B16(n / 0x1_0000)
  }

  // ---------- Parts of records ----------

  function IndexOf(names: seq<string>, name: string): (k: nat)
    ensures k <= |names| && (k < |names| ==> names[k] == name)
    ensures k == |names| ==> name !in names
  {
    if names == [] || names[0] == name then 0 else 1 + IndexOf(names[1..], name)
  }

  function OsCode(os: string): byte {
    var k := IndexOf(OS_NAMES, os);
    if k < |OS_NAMES| then k else 0
  }

  function OsName(code: byte): string {
    if code < |OS_NAMES| then OS_NAMES[code] else "-"
  }

  function VersionBytes(v: Version): (r: seq<byte>)
    ensures |r| == 2
  {
    [v.level, OsCode(v.os)]
  }

  function Bit(b: bool, weight: int): int {
    if b then weight else 0
  }

  /** The flag word. The bit for strong encryption is never set: the printer looks for a misspelt field. */
  function FlagWord(f: Flags): u16
    requires FlagsFit(f)
  {
    Bit(f.encrypted, 1) + f.compress * 2 + Bit(f.data, 8) + Bit(f.enhanced_deflate, 16) + Bit(f.patched, 32)
    + Bit(f.utf8, 2048) + Bit(f.pkware_compress, 4096) + Bit(f.hidden, 8192) + f.pkware * 16384
  }

  function TimeWord(t: Stamp): u16
    requires StampFits(t)
  {
    t.hour * 2048 + t.min * 32 + t.sec / 2
  }

  function DateWord(t: Stamp): u16
    requires StampFits(t)
  {
    (t.year - 1980) * 512 + t.month * 32 + t.day
  }

  function StampBytes(t: Stamp): (r: seq<byte>)
    requires StampFits(t)
    ensures |r| == 4
  {
    B16(TimeWord(t)) + B16(DateWord(t))
  }

  /** The order in which a traversal of the eight tags of a language extension meets them; any order will do. */
  predicate TagOrder(order: seq<byte>) {
    (forall t | t in order :: 1 <= t <= 8) && (forall t: byte | 1 <= t <= 8 :: t in order) &&
    forall i, j | 0 <= i < j < |order| :: order[i] != order[j]
  }

  /** The fields of a language extension in tag order, each with its tag and length. */
  ghost function FieldBytes(fields: map<byte, seq<byte>>, order: seq<byte>): seq<byte> {
    if order == [] then [] else OneField(fields, order[0]) + FieldBytes(fields, order[1..])
  }

  function OneField(fields: map<byte, seq<byte>>, tag: byte): seq<byte> {
    if tag in fields && |fields[tag]| < 256 then [tag, |fields[tag]|] + fields[tag] else []
  }

  /** Every field's length goes into a byte. */
  ghost predicate FieldsFit(fields: map<byte, seq<byte>>) {
    forall t | t in fields :: |fields[t]| < 256
  }

  /** Whether an extra field is written: not under an id that is only named, nor as mere bytes under that of the
      language extension, and no language extension that is empty or has a field too long for its length byte. */
  ghost predicate Written(x: (u16, Extra)) {
    !Named(x.0) && (x.0 == LANGUAGE ==> x.1.Language?) &&
    (x.1.Language? ==> x.1.fields != map[] && FieldsFit(x.1.fields))
  }

  /** Only a language extension has fields, with tags from 1 to 8. */
  predicate Typed(x: (u16, Extra)) {
    (x.1.Language? ==> x.0 == LANGUAGE) && (x.1.Language? ==> forall t | t in x.1.fields :: 1 <= t <= 8)
  }

  ghost function Payload(x: (u16, Extra), order: seq<byte>): seq<byte>
    requires Written(x)
  {
    match x.1
    case Raw(data) => data
    case Language(fields) => FieldBytes(fields, order)
  }

  ghost predicate ExtrasFit(extra: seq<(u16, Extra)>, order: seq<byte>) {
    && TagOrder(order)
    && (forall x | x in extra :: Typed(x) && (Written(x) ==> |Payload(x, order)| < 0x1_0000))
    && (forall i, j | 0 <= i < j < |extra| :: extra[i].0 != extra[j].0)
    && |ExtraBytes(extra, order)| < 0x1_0000
  }

  ghost function OneExtra(x: (u16, Extra), order: seq<byte>): seq<byte> {
    if Written(x) && |Payload(x, order)| < 0x1_0000 then B16(x.0) + B16(|Payload(x, order)|) + Payload(x, order) else []
  }

  ghost function ExtraBytes(extra: seq<(u16, Extra)>, order: seq<byte>): seq<byte> {
    if extra == [] then [] else OneExtra(extra[0], order) + ExtraBytes(extra[1..], order)
  }

  // ---------- Records ----------

  predicate AboutFits(a: About) {
    FlagsFit(a.flags) && StampFits(a.modtime)
  }

  /** The compression method, which an entry of the directory may leave out. */
  function Method(a: About): u16 {
    if a.compression.Some? then a.compression.value else 8
  }

  function AboutBytes(a: About): (r: seq<byte>)
    requires AboutFits(a)
    ensures |r| == 20
  {
    B16(FlagWord(a.flags)) + B16(Method(a)) + StampBytes(a.modtime) + B32(a.crc) + B32(a.csize) + B32(a.usize)
  }

  function AttrWord(text: bool, record: bool): u16 {
    Bit(text, 1) + Bit(record, 2)
  }

  function PlaceBytes(p: Place): (r: seq<byte>)
    ensures |r| == 12
  {
    B16(p.diskstart) + B16(AttrWord(p.text, p.record)) + B32(p.eattr) + B32(p.offset)
  }

  ghost predicate FileFits(f: File, order: seq<byte>) {
    AboutFits(f.about) && f.about.compression.Some? && |f.name| < 0x1_0000 && ExtrasFit(f.extra, order)
  }

  ghost function FileBytes(f: File, order: seq<byte>): seq<byte>
    requires FileFits(f, order)
  {
    FILE_MAGIC + VersionBytes(f.byversion) + AboutBytes(f.about) + B16(|f.name|) + B16(|ExtraBytes(f.extra, order)|)
    + f.name + ExtraBytes(f.extra, order)
  }

  ghost predicate DirFits(d: Dir, order: seq<byte>) {
    AboutFits(d.about) && |d.name| < 0x1_0000 && |d.comment| < 0x1_0000 && ExtrasFit(d.extra, order)
  }

  ghost function DirBytes(d: Dir, order: seq<byte>): seq<byte>
    requires DirFits(d, order)
  {
    DIR_MAGIC + VersionBytes(d.byversion) + VersionBytes(d.forversion) + AboutBytes(d.about)
    + B16(|d.name|) + B16(|ExtraBytes(d.extra, order)|) + B16(|d.comment|) + PlaceBytes(d.place)
    + d.name + ExtraBytes(d.extra, order) + d.comment
  }

  ghost predicate ListFits(list: seq<Dir>, order: seq<byte>) {
    forall d | d in list :: DirFits(d, order)
  }

  ghost function ListBytes(list: seq<Dir>, order: seq<byte>): seq<byte>
    requires ListFits(list, order)
  {
    if list == [] then [] else DirBytes(list[0], order) + ListBytes(list[1..], order)
  }

  function EocdBytes(e: Eocd): seq<byte>
    requires |e.comment| < 0x1_0000
  {
    EOCD_MAGIC + B16(e.disknum) + B16(e.diskstart) + B16(e.entries) + B16(e.totalentries) + B32(e.size) + B32(e.offset)
    + B16(|e.comment|) + e.comment
  }
}

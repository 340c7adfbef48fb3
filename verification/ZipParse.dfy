/** What the parsers make of the bytes of any file, well formed or not. None is the error raised by a read past the
    end. */
module ZipParse {
  import opened Wrappers
  import opened Text
  import opened Zip
  import opened ZipBack

  // What a parser comes to: an error raised, no record there, or the record.
  datatype Parsed<T> = Raised | Nothing | Record(value: T)

  /** Up to n bytes, or none at the end of the file, even if none are asked for; and where they end. */
  function ReadAt(data: seq<byte>, p: nat, n: nat): (Option<seq<byte>>, nat) {
    if p >= |data| then (None, p)
    else
      var e := if p + n <= |data| then p + n else |data|;
      (Some(data[p..e]), e)
  }

  /** An assignment to a field of a table; what is not there removes it. */
  function Put<K, V>(m: map<K, V>, key: K, value: Option<V>): map<K, V> {
    if value.Some? then m[key := value.value] else m - {key}
  }

  function VersionFrom(data: seq<byte>, p: nat): Version
    requires p + 2 <= |data|
  {
    Version(OsName(data[p + 1]), data[p])
  }

  function StampFrom(data: seq<byte>, p: nat): Stamp
    requires p + 4 <= |data|
  {
    StampOf(Word(data, p), Word(data, p + 2))
  }

  function AboutFrom(data: seq<byte>, p: nat): About
    requires p + 20 <= |data|
  {
    About(FlagsOf(Word(data, p)), Some(Word(data, p + 2)), StampFrom(data, p + 4),
          Long(data, p + 8), Long(data, p + 12), Long(data, p + 16))
  }

  function PlaceFrom(data: seq<byte>, p: nat): Place
    requires p + 12 <= |data|
  {
    var f := Word(data, p + 2);
    Place(Word(data, p), f % 2 != 0, f / 2 % 2 != 0, Long(data, p + 4), Long(data, p + 8))
  }

  /** The fields of a language extension in `left` bytes from `p`, after those in `ext`. Some((None, q)) when a
      length goes past the end of the extension: then nothing of it is kept. */
  function FieldsFrom(data: seq<byte>, p: nat, left: nat, ext: map<byte, seq<byte>>):
      Option<(Option<map<byte, seq<byte>>>, nat)>
    decreases left
  {
    if left < 2 then Some((Some(ext), p))
    else if p + 2 > |data| then None
    else if data[p + 1] > left - 2 then Some((None, ReadAt(data, p + 2, left - 2).1))
    else
      var (value, q) := ReadAt(data, p + 2, data[p + 1]);
      FieldsFrom(data, q, left - 2 - data[p + 1], if 0 < data[p] <= 8 then Put(ext, data[p], value) else ext)
  }

  /** One extra field: its id and length, and what it holds if anything; `noting` when only its size is wanted, so
      that it must be there. */
  function ExtraFrom(data: seq<byte>, p: nat, noting: bool): Option<(u16, u16, Option<Extra>, nat)> {
    if p + 4 > |data| then None
    else
      var id, len := Word(data, p), Word(data, p + 2);
      if id == LANGUAGE then
        match FieldsFrom(data, p + 4, len, map[])
        case None => None
        case Some((None, q)) => Some((id, len, None, q))
        case Some((Some(ext), q)) => Some((id, len, Some(Language(ext)), q))
      else
        match ReadAt(data, p + 4, len)
        case (Some(bytes), q) => Some((id, len, Some(Raw(bytes)), q))
        case (None, q) => if noting then None else Some((id, len, None, q))
  }

  /** The extra fields in `left` bytes from `p`, after those in `acc`. */
  function ExtrasFrom(data: seq<byte>, p: nat, left: int, noting: bool, acc: map<u16, Extra>):
      Option<(map<u16, Extra>, nat)>
    decreases left
  {
    if left <= 0 then Some((acc, p))
    else
      match ExtraFrom(data, p, noting)
      case None => None
      case Some((id, len, x, q)) => ExtrasFrom(data, q, left - 4 - len, noting, Put(acc, id, x))
  }

  /** The header at `p`. */
  ghost function FileFrom(data: seq<byte>, p: nat): Parsed<FileRead> {
    if !At(data, p, FILE_MAGIC) then Nothing
    else if p + 30 > |data| then Raised
    else
      var (name, q) := ReadAt(data, p + 30, Word(data, p + 26));
      match ExtrasFrom(data, q, Word(data, p + 28), false, map[])
      case None => Raised
      case Some((extra, _)) => Record(FileRead(VersionFrom(data, p + 4), AboutFrom(data, p + 6), name, extra))
  }

  /** The directory entry at `p`, and where it ends. */
  ghost function DirFrom(data: seq<byte>, p: nat): Parsed<(DirRead, nat)> {
    if !At(data, p, DIR_MAGIC) then Nothing
    else if p + 46 > |data| then Raised
    else
      var (name, q) := ReadAt(data, p + 46, Word(data, p + 28));
      match ExtrasFrom(data, q, Word(data, p + 30), true, map[])
      case None => Raised
      case Some((extra, q')) =>
        var (comment, e) := ReadAt(data, q', Word(data, p + 32));
        Record((DirRead(VersionFrom(data, p + 4), VersionFrom(data, p + 6), AboutFrom(data, p + 8),
                        PlaceFrom(data, p + 34), name, Notes(extra), comment), e))
  }

  lemma {:induction false} FieldsGoOn(data: seq<byte>, p: nat, left: nat, ext: map<byte, seq<byte>>)
    ensures var r := FieldsFrom(data, p, left, ext); r.Some? ==> p <= r.value.1
    decreases left
  {
    if left >= 2 && p + 2 <= |data| && data[p + 1] <= left - 2 {
      var (value, q) := ReadAt(data, p + 2, data[p + 1]);
      FieldsGoOn(data, q, left - 2 - data[p + 1], if 0 < data[p] <= 8 then Put(ext, data[p], value) else ext);
    }
  }

  lemma {:induction false} ExtrasGoOn(data: seq<byte>, p: nat, left: int, noting: bool, acc: map<u16, Extra>)
    ensures var r := ExtrasFrom(data, p, left, noting, acc); r.Some? ==> p <= r.value.1
    decreases left
  {
    hide FieldsFrom;
    var one := ExtraFrom(data, p, noting);
    if left > 0 && one.Some? {
      FieldsGoOn(data, p + 4, Word(data, p + 2), map[]);
      var (id, len, x, q) := one.value;
      ExtrasGoOn(data, q, left - 4 - len, noting, Put(acc, id, x));
    }
  }

  lemma DirGoesOn(data: seq<byte>, p: nat)
    ensures var r := DirFrom(data, p); r.Record? ==> p < r.value.1 && p < |data|
  {
    hide ExtrasFrom, FlagsOf, StampOf, Word, Long;
    if DirFrom(data, p).Record? {
      var q := ReadAt(data, p + 46, Word(data, p + 28)).1;
      ExtrasGoOn(data, q, Word(data, p + 30), true, map[]);
    }
  }

  /** All that the directory iterator yields from `p` on. */
  ghost function DirsFrom(data: seq<byte>, p: nat): Option<seq<DirRead>>
    decreases |data| - p
  {
    DirGoesOn(data, p);
    match DirFrom(data, p)
    case Raised => None
    case Nothing => Some([])
    case Record((dir, q)) => Then([dir], DirsFrom(data, q))
  }

  /** Entries, and those that come after them unless an error is raised. */
  ghost function Then(dirs: seq<DirRead>, rest: Option<seq<DirRead>>): Option<seq<DirRead>> {
    if rest.None? then None else Some(dirs + rest.value)
  }

  lemma ThenNone(dirs: seq<DirRead>, rest: Option<seq<DirRead>>)
    ensures Then([], rest) == rest && Then(dirs, Some([])) == Some(dirs) && Then(dirs, None) == None
  {
    assert dirs + [] == dirs;
    assert rest.Some? ==> [] + rest.value == rest.value;
  }

  lemma ThenOne(dirs: seq<DirRead>, dir: DirRead, rest: Option<seq<DirRead>>)
    ensures Then(dirs + [dir], rest) == Then(dirs, Then([dir], rest))
  {
    assert rest.Some? ==> dirs + [dir] + rest.value == dirs + ([dir] + rest.value);
  }
}

/** Parsing ZIP records. Each reader does to the bytes of the file, whatever they are, what the function of the same
    part of a record says. None means that a read past the end raised an error. */
module ZipRead {
  import opened Wrappers
  import opened Text
  import opened Zip
  import opened ZipBack
  import opened ZipParse

  class Source {
    const data: seq<byte>
    var pos: nat

    constructor (data: seq<byte>)
      ensures this.data == data && pos == 0
    {
      this.data := data;
      pos := 0;
    }

    /** Up to n bytes, or none at the end of the file, even if none were asked for. */
    method Read(n: nat) returns (r: Option<seq<byte>>)
      modifies this
      ensures if old(pos) < |data| then
                var e := if old(pos) + n <= |data| then old(pos) + n else |data|;
                r == Some(data[old(pos)..e]) && pos == e
              else r == None && pos == old(pos)
    {
      if pos >= |data| {
        return None;
      }
      var e := if pos + n <= |data| then pos + n else |data|;
      r := Some(data[pos..e]);
      pos := e;
    }

    /** zf:read(1):byte() */
    method Byte() returns (r: Option<byte>)
      modifies this
      ensures if old(pos) < |data| then r == Some(data[old(pos)]) && pos == old(pos) + 1
              else r == None && pos == old(pos)
    {
      var s :- Read(1);
      r := Some(s[0]);
    }

    method R16() returns (r: Option<u16>)
      modifies this
      ensures if old(pos) + 2 <= |data| then r == Some(Word(data, old(pos))) && pos == old(pos) + 2
              else r == None && pos >= old(pos)
    {
      var lo :- Byte();
      var hi :- Byte();
      r := Some(lo + hi as int * 256);
    }

    method R32() returns (r: Option<u32>)
      modifies this
      ensures if old(pos) + 4 <= |data|
              then r == Some(Long(data, old(pos))) && pos == old(pos) + 4
              else r == None && pos >= old(pos)
    {
      var b0 :- Byte();
      var b1 :- Byte();
      var b2 :- Byte();
      var b3 :- Byte();
      r := Some(b0 + b1 as int * 256 + b2 as int * 0x1_0000 + b3 as int * 0x100_0000);
    }

    method ReadVersion() returns (r: Option<Version>)
      modifies this
      ensures if old(pos) + 2 <= |data| then r == Some(VersionFrom(data, old(pos))) && pos == old(pos) + 2
              else r == None
    {
      var level :- Byte();
      var os :- Byte();
      r := Some(Version(OsName(os), level));
    }

    method ReadFlags() returns (r: Option<Flags>)
      modifies this
      ensures if old(pos) + 2 <= |data| then r == Some(FlagsOf(Word(data, old(pos)))) && pos == old(pos) + 2
              else r == None
    {
      var f :- R16();
      r := Some(FlagsOf(f));
    }

    method MsToUnix() returns (r: Option<Stamp>)
      modifies this
      ensures if old(pos) + 4 <= |data| then r == Some(StampFrom(data, old(pos))) && pos == old(pos) + 4 else r == None
    {
      var modtime :- R16();
      var moddate :- R16();
      r := Some(StampOf(modtime, moddate));
    }

    method ReadAbout() returns (r: Option<About>)
      modifies this
      ensures if old(pos) + 20 <= |data| then r == Some(AboutFrom(data, old(pos))) && pos == old(pos) + 20
              else r == None
    {
      hide FlagsOf, StampOf, StampFrom, Word, Long;
      var flags :- ReadFlags();
      var compression :- R16();
      var modtime :- MsToUnix();
      var crc :- R32();
      var csize :- R32();
      var usize :- R32();
      r := Some(About(flags, Some(compression), modtime, crc, csize, usize));
    }

    method ReadPlace() returns (r: Option<Place>)
      modifies this
      ensures if old(pos) + 12 <= |data| then r == Some(PlaceFrom(data, old(pos))) && pos == old(pos) + 12
              else r == None
    {
      hide Word, Long;
      var diskstart :- R16();
      var f :- R16();
      var text, f1 := f % 2 != 0, f / 2;
      var record := f1 % 2 != 0;
      var eattr :- R32();
      var offset :- R32();
      r := Some(Place(diskstart, text, record, eattr, offset));
    }

    /** The parser of a language extension of `len` bytes; Some(None) when it gives up. */
    method LanguageExtension(len: nat) returns (r: Option<Option<map<byte, seq<byte>>>>)
      modifies this
      ensures var s := FieldsFrom(data, old(pos), len, map[]);
              if s.None? then r == None else r == Some(s.value.0) && pos == s.value.1
    {
      var ext: map<byte, seq<byte>> := map[];
      var left: nat := len;
      while left >= 2
        invariant FieldsFrom(data, pos, left, ext) == FieldsFrom(data, old(pos), len, map[])
        decreases left
      {
        var field :- Byte();
        var size :- Byte();
        left := left - 2;
        if size > left {
          var _ := Read(left);
          return Some(None);
        }
        var value := Read(size);
        if 0 < field <= 8 {
          ext := Put(ext, field, value);
        }
        left := left - size;
      }
      return Some(Some(ext));
    }

    /** One extra field: its id, its length, and what it holds if anything. */
    method ReadOneExtra(noting: bool) returns (r: Option<(u16, u16, Option<Extra>)>)
      modifies this
      ensures var s := ExtraFrom(data, old(pos), noting);
              if s.None? then r == None else r == Some((s.value.0, s.value.1, s.value.2)) && pos == s.value.3
    {
      hide Word, FieldsFrom;
      var id :- R16();
      var len :- R16();
      if id == LANGUAGE {
        var ext :- LanguageExtension(len);
        return Some((id, len, if ext.Some? then Some(Language(ext.value)) else None));
      }
      var value := Read(len);
      if noting && value.None? {
        return None;
      }
      return Some((id, len, if value.Some? then Some(Raw(value.value)) else None));
    }

    /** The extra fields, `extralen` bytes of them. */
    method ReadExtras(extralen: nat, noting: bool) returns (r: Option<map<u16, Extra>>)
      modifies this
      ensures var s := ExtrasFrom(data, old(pos), extralen, noting, map[]);
              if s.None? then r == None else r == Some(s.value.0) && pos == s.value.1
    {
      hide ExtraFrom, Put;
      var acc: map<u16, Extra> := map[];
      var left: int := extralen;
      while left > 0
        invariant ExtrasFrom(data, pos, left, noting, acc) == ExtrasFrom(data, old(pos), extralen, noting, map[])
        decreases left
      {
        var one :- ReadOneExtra(noting);
        var (id, len, x) := one;
        acc := Put(acc, id, x);
        left := left - 4 - len;
      }
      return Some(acc);
    }

    /** The header at `offset`. Nothing if there is none. */
    method ReadFile(offset: nat) returns (r: Parsed<FileRead>)
      modifies this
      ensures r == FileFrom(data, offset)
    {
      hide ExtrasFrom, VersionFrom, AboutFrom, Word;
      pos := offset;
      var magic := Read(4);
      if magic != Some(FILE_MAGIC) {
        return Nothing;
      }
      var file := FileFields();
      return if file.Some? then Record(file.value) else Parsed.Raised;
    }

    /** What follows a header's signature. */
    method FileFields() returns (r: Option<FileRead>)
      requires pos >= 4 && At(data, pos - 4, FILE_MAGIC)
      modifies this
      ensures FileFrom(data, old(pos) - 4) == if r.Some? then Record(r.value) else Raised
    {
      hide ExtrasFrom, VersionFrom, AboutFrom, Word;
      var byversion :- ReadVersion();
      var about :- ReadAbout();
      var namelen :- R16();
      var extralen :- R16();
      var name := Read(namelen);
      var extra :- ReadExtras(extralen, false);
      return Some(FileRead(byversion, about, name, extra));
    }

    /** A directory entry's fields of fixed size; the lengths of those that follow come last. */
    method DirHead() returns (r: Option<(Version, Version, About, Place, (u16, u16, u16))>)
      requires pos >= 4
      modifies this
      ensures var p := old(pos) - 4;
              if p + 46 <= |data| then
                && r == Some((VersionFrom(data, p + 4), VersionFrom(data, p + 6), AboutFrom(data, p + 8),
                              PlaceFrom(data, p + 34), (Word(data, p + 28), Word(data, p + 30), Word(data, p + 32))))
                && pos == p + 46
              else r == None
    {
      hide VersionFrom, AboutFrom, PlaceFrom, Word;
      var byversion :- ReadVersion();
      var forversion :- ReadVersion();
      var about :- ReadAbout();
      var namelen :- R16();
      var extralen :- R16();
      var commentlen :- R16();
      var place :- ReadPlace();
      return Some((byversion, forversion, about, place, (namelen, extralen, commentlen)));
    }

    /** What follows an entry's signature. */
    method DirFields() returns (r: Option<DirRead>)
      requires pos >= 4 && At(data, pos - 4, DIR_MAGIC)
      modifies this
      ensures DirFrom(data, old(pos) - 4) == if r.Some? then Record((r.value, pos)) else Raised
    {
      hide ExtrasFrom, VersionFrom, AboutFrom, PlaceFrom, Word, Notes;
      var head :- DirHead();
      var (byversion, forversion, about, place, (namelen, extralen, commentlen)) := head;
      var name := Read(namelen);
      var extra :- ReadExtras(extralen, true);
      var comment := Read(commentlen);
      return Some(DirRead(byversion, forversion, about, place, name, Notes(extra), comment));
    }

    /** The directory entry that comes next. Nothing if there is none. */
    method NextDir() returns (r: Parsed<DirRead>)
      modifies this
      ensures var s := DirFrom(data, old(pos));
              match s
              case Raised => r == Raised
              case Nothing => r == Nothing
              case Record(v) => r == Record(v.0) && pos == v.1
    {
      hide ExtrasFrom, VersionFrom, AboutFrom, PlaceFrom, Word;
      var magic := Read(4);
      if magic != Some(DIR_MAGIC) {
        return Nothing;
      }
      var dir := DirFields();
      return if dir.Some? then Record(dir.value) else Parsed.Raised;
    }

    /** All that the directory iterator yields from `offset` on; None when it raises an error on the way. */
    method ReadDirs(offset: nat) returns (r: Option<seq<DirRead>>)
      modifies this
      ensures r == DirsFrom(data, offset)
    {
      hide DirFrom, Then;
      pos := offset;
      var dirs: seq<DirRead> := [];
      ThenNone(dirs, DirsFrom(data, offset));
      while true
        invariant Then(dirs, DirsFrom(data, pos)) == DirsFrom(data, offset)
        decreases |data| - pos
      {
        DirGoesOn(data, pos);
        var dir := NextDir();
        match dir {
          case Raised =>
            ThenNone(dirs, None);
            return None;
          case Nothing =>
            ThenNone(dirs, None);
            return Some(dirs);
          case Record(value) =>
            ThenOne(dirs, value, DirsFrom(data, pos));
            dirs := dirs + [value];
        }
      }
    }

    /** Looks for an end signature from `at` towards the start. */
    method LocateFrom(at: nat) returns (found: bool)
      requires at + 22 <= |data| && forall q: nat | q > at :: !EndAt(data, q)
      modifies this
      ensures found ==> pos >= 4 && IsEnd(data, pos - 4)
      ensures !found ==> forall q: nat :: !EndAt(data, q)
      decreases at
    {
      pos := at;
      var magic := Read(4);
      if |data| - at > 22 + 65535 {
        return false;
      }
      if magic == Some(EOCD_MAGIC) {
        assert data[at..at + 4] == EOCD_MAGIC;
        return true;
      }
      assert !EndAt(data, at);
      if at == 0 {
        return false;
      }
      found := LocateFrom(at - 1);
    }

    /** The end record: what its last signature comes to. */
    method ReadEocd() returns (r: End)
      modifies this
      ensures |data| < 22 <==> r == TooShort
      ensures forall p: nat | IsEnd(data, p) :: r == EndFrom(data, p)
      ensures r == NotFound <==> |data| >= 22 && forall p: nat :: !EndAt(data, p)
    {
      hide At, Word, Long;
      if |data| < 22 {
        return TooShort;
      }
      var found := LocateFrom(|data| - 22);
      if !found {
        return NotFound;
      }
      var here := pos - 4;
      OneEnd(data, here);
      var disknum := R16();
      var diskstart := R16();
      var entries := R16();
      var totalentries := R16();
      var size := R32();
      var offset := R32();
      var commentlen := R16();
      if here + 22 + commentlen.value != |data| {
        return BadComment;
      }
      pos := here + 22;
      var comment := Read(commentlen.value);
      assert data[here + 22..|data|] == data[here + 22..];
      if offset.value > here || offset.value + size.value > here {
        return BadOffset;
      }
      return Found(EocdRead(disknum.value, diskstart.value, entries.value, totalentries.value, size.value, offset.value,
                            comment));
    }
  }
}

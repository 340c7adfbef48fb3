/** Printing ZIP records: ordered writes at the end of a file. */
module ZipWrite {
  import opened Wrappers
  import opened Text
  import opened Zip

  class Sink {
    var out: seq<byte>

    constructor ()
      ensures out == []
    {
      out := [];
    }

    method Write(bytes: seq<byte>)
      modifies this
      ensures out == old(out) + bytes
    {
      out := out + bytes;
    }

    method W16(n: u16)
      modifies this
      ensures out == old(out) + B16(n)
    {
      var hi, lo := n / 256, n % 256;
      Write([lo, hi]);
    }

    method W32(n: u32)
      modifies this
      ensures out == old(out) + B32(n)
    {
      var b3, n3 := n / 0x100_0000, n % 0x100_0000;
      var b2, n2 := n3 / 0x1_0000, n3 % 0x1_0000;
      var b1, b0 := n2 / 256, n2 % 256;
      assert n2 == n % 0x1_0000 && n / 0x1_0000 == b3 * 256 + b2;
      Write([b0, b1, b2, b3]);
    }

    method UnixToMs(t: Stamp)
      requires StampFits(t)
      modifies this
      ensures out == old(out) + StampBytes(t)
    {
      var modtime := t.hour * 2048 + t.min * 32 + t.sec / 2;
      var moddate := (t.year - 1980) * 512 + t.month * 32 + t.day;
      W16(modtime);
      W16(moddate);
    }

    method WriteVersion(v: Version)
      modifies this
      ensures out == old(out) + VersionBytes(v)
    {
      Write([v.level]);
      Write([OsCode(v.os)]);
    }

    method WriteFlags(fl: Flags)
      requires FlagsFit(fl)
      modifies this
      ensures out == old(out) + B16(FlagWord(fl))
    {
      hide B16;
      var f := 0;
      if fl.encrypted { f := f + 1; }
      f := f + fl.compress * 2;
      if fl.data { f := f + 8; }
      if fl.enhanced_deflate { f := f + 16; }
      if fl.patched { f := f + 32; }
      // strong_encrypt is not looked at
      if fl.utf8 { f := f + 2048; }
      if fl.pkware_compress { f := f + 4096; }
      if fl.hidden { f := f + 8192; }
      f := f + fl.pkware * 16384;
      assert f == FlagWord(fl);
      W16(f);
    }

    method WriteAbout(a: About)
      requires AboutFits(a)
      modifies this
      ensures out == old(out) + AboutBytes(a)
    {
      hide B16, B32, StampBytes, FlagWord;
      WriteFlags(a.flags);
      W16(if a.compression.Some? then a.compression.value else 8);
      UnixToMs(a.modtime);
      W32(a.crc);
      W32(a.csize);
      W32(a.usize);
    }

    method WriteAttributes(text: bool, record: bool)
      modifies this
      ensures out == old(out) + B16(AttrWord(text, record))
    {
      var ia := 0;
      if text { ia := ia + 1; }
      if record { ia := ia + 2; }
      W16(ia);
    }

    method WritePlace(p: Place)
      modifies this
      ensures out == old(out) + PlaceBytes(p)
    {
      hide B16, B32, AttrWord;
      W16(p.diskstart);
      WriteAttributes(p.text, p.record);
      W32(p.eattr);
      W32(p.offset);
    }

    method WriteEocd(e: Eocd)
      requires |e.comment| < 0x1_0000
      modifies this
      ensures out == old(out) + EocdBytes(e)
    {
      Write(EOCD_MAGIC);
      W16(e.disknum);
      W16(e.diskstart);
      W16(e.entries);
      W16(e.totalentries);
      W32(e.size);
      W32(e.offset);
      W16(|e.comment|);
      Write(e.comment);
    }

    method WriteFile(f: File, order: seq<byte>) returns (pos: nat)
      requires FileFits(f, order)
      modifies this
      ensures out == old(out) + FileBytes(f, order) && pos == |old(out)|
    {
      hide B16, VersionBytes, AboutBytes, ExtraBytes, ExtrasFit;
      pos := |out|;
      var extradata := PrintExtras(f.extra, order);
      FitsInWord(f.extra, order);
      Write(FILE_MAGIC);
      WriteVersion(f.byversion);
      WriteAbout(f.about);
      W16(|f.name|);
      W16(|extradata|);
      Write(f.name);
      Write(extradata);
    }

    method WriteOneDir(d: Dir, order: seq<byte>)
      requires DirFits(d, order)
      modifies this
      ensures out == old(out) + DirBytes(d, order)
    {
      hide B16, VersionBytes, AboutBytes, PlaceBytes, ExtraBytes, ExtrasFit;
      var extradata := PrintExtras(d.extra, order);
      FitsInWord(d.extra, order);
      Write(DIR_MAGIC);
      WriteVersion(d.byversion);
      WriteVersion(d.forversion);
      WriteAbout(d.about);
      W16(|d.name|);
      W16(|extradata|);
      W16(|d.comment|);
      WritePlace(d.place);
      Write(d.name);
      Write(extradata);
      Write(d.comment);
    }

    method WriteDir(list: seq<Dir>, order: seq<byte>) returns (pos: nat, size: nat)
      requires ListFits(list, order)
      modifies this
      ensures out == old(out) + ListBytes(list, order)
      ensures pos == |old(out)| && size == |ListBytes(list, order)|
    {
      hide DirBytes, DirFits;
      pos := |out|;
      assert list[0..] == list;
      for i := 0 to |list|
        invariant ListFits(list[i..], order)
        invariant out + ListBytes(list[i..], order) == old(out) + ListBytes(list, order)
      {
        ghost var before := out;
        assert list[i] in list && list[i..][1..] == list[i + 1..];
        WriteOneDir(list[i], order);
        ghost var rest := ListBytes(list[i + 1..], order);
        assert out + rest == before + (DirBytes(list[i], order) + rest);
      }
      size := |out| - pos;
    }
  }

  lemma FitsInWord(extra: seq<(u16, Extra)>, order: seq<byte>)
    requires ExtrasFit(extra, order)
    ensures |ExtraBytes(extra, order)| < 0x1_0000
  {
  }

  /** The language extension under its tags, nothing if a field is too long or there is no field at all. */
  method PrintLanguage(fields: map<byte, seq<byte>>, order: seq<byte>) returns (r: Option<seq<byte>>)
    requires TagOrder(order) && forall t | t in fields :: 1 <= t <= 8
    ensures r == if fields != map[] && FieldsFit(fields) then Some(FieldBytes(fields, order)) else None
  {
    hide FieldBytes, OneField, TagOrder, FieldsFit, Met;
    var data: seq<byte> := [];
    FieldsFrom(fields, order, 0);
    for i := 0 to |order|
      invariant data + FieldBytes(fields, order[i..]) == FieldBytes(fields, order)
      invariant Met(fields, order, i, data == [])
      invariant data != [] ==> fields != map[]
    {
      var tag: byte := order[i];
      FieldsFrom(fields, order, i);
      MeetTag(fields, order, i, data == []);
      if tag in fields {
        var value := fields[tag];
        if |value| > 255 {
          return None;
        }
        ghost var rest := FieldBytes(fields, order[i + 1..]);
        FieldIs(fields, tag);
        assert data + ([tag, |value|] + value) + rest == data + (OneField(fields, tag) + rest);
        data := data + ([tag, |value|] + value);
      } else {
        FieldIs(fields, tag);
      }
    }
    AllMet(fields, order, data == []);
    FieldsFrom(fields, order, |order|);
    assert data + [] == data;
    if data != [] {
      return Some(data);
    }
    return None;
  }

  lemma FieldIs(fields: map<byte, seq<byte>>, tag: byte)
    ensures tag in fields && |fields[tag]| < 256 ==> OneField(fields, tag) == [tag, |fields[tag]|] + fields[tag]
    ensures tag !in fields ==> OneField(fields, tag) == []
  {
  }

  /** The first `i` tags have no field that is too long, and none at all if there is `nothing` yet. */
  ghost predicate Met(fields: map<byte, seq<byte>>, order: seq<byte>, i: nat, nothing: bool)
    requires i <= |order|
  {
    forall j | 0 <= j < i && order[j] in fields :: |fields[order[j]]| < 256 && !nothing
  }

  lemma MeetTag(fields: map<byte, seq<byte>>, order: seq<byte>, i: nat, nothing: bool)
    requires i < |order| && Met(fields, order, i, nothing)
    ensures order[i] !in fields ==> Met(fields, order, i + 1, nothing)
    ensures order[i] in fields && |fields[order[i]]| < 256 ==> Met(fields, order, i + 1, false)
    ensures order[i] in fields && |fields[order[i]]| > 255 ==> !FieldsFit(fields)
  {
  }

  lemma AllMet(fields: map<byte, seq<byte>>, order: seq<byte>, nothing: bool)
    requires TagOrder(order) && (forall t | t in fields :: 1 <= t <= 8) && Met(fields, order, |order|, nothing)
    ensures FieldsFit(fields) && (nothing ==> fields == map[])
  {
    forall t | t in fields ensures |fields[t]| < 256 && !nothing {
      assert t in order;
    }
  }

  lemma FieldsFrom(fields: map<byte, seq<byte>>, order: seq<byte>, i: nat)
    requires i <= |order|
    ensures i < |order| ==>
              FieldBytes(fields, order[i..]) == OneField(fields, order[i]) + FieldBytes(fields, order[i + 1..])
    ensures i == |order| ==> FieldBytes(fields, order[i..]) == []
    ensures order[0..] == order && Met(fields, order, 0, true)
  {
    if i < |order| {
      assert order[i..][1..] == order[i + 1..];
    }
  }

  /** The extra fields in the order a traversal meets them. */
  method PrintExtras(extra: seq<(u16, Extra)>, order: seq<byte>) returns (extradata: seq<byte>)
    requires ExtrasFit(extra, order)
    ensures extradata == ExtraBytes(extra, order)
  {
    hide FieldBytes, Named, B16, OneExtra, ExtraBytes;
    extradata := [];
    ExtrasFrom(extra, order, 0);
    for i := 0 to |extra|
      invariant extradata + ExtraBytes(extra[i..], order) == ExtraBytes(extra, order)
    {
      ExtrasFrom(extra, order, i);
      assert extra[i] in extra;
      var one := PrintOne(extra[i], order);
      extradata := extradata + one;
    }
    ExtrasFrom(extra, order, |extra|);
  }

  lemma ExtrasFrom(extra: seq<(u16, Extra)>, order: seq<byte>, i: nat)
    requires i <= |extra|
    ensures i < |extra| ==>
              ExtraBytes(extra[i..], order) == OneExtra(extra[i], order) + ExtraBytes(extra[i + 1..], order)
    ensures i == |extra| ==> ExtraBytes(extra[i..], order) == []
    ensures extra[0..] == extra
  {
    if i < |extra| {
      assert extra[i..][1..] == extra[i + 1..];
    }
  }

  method PrintOne(x: (u16, Extra), order: seq<byte>) returns (r: seq<byte>)
    requires TagOrder(order) && Typed(x) && (Written(x) ==> |Payload(x, order)| < 0x1_0000)
    ensures r == OneExtra(x, order)
  {
    hide FieldBytes, Named;
    var (id, data) := x;
    if Named(id) {
      return [];
    }
    var data2 := if data.Raw? then Some(data.data) else None;
    if id == LANGUAGE {
      // of mere bytes none of the fields is found
      data2 := PrintLanguage(if data.Language? then data.fields else map[], order);
    }
    if data2.None? {
      return [];
    }
    return B16(id) + B16(|data2.value|) + data2.value;
  }
}

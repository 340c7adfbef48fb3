/** What the parsers make of extra fields that other programs write: under any id, with any tags, doubled, or with
    lengths that do not fit. */
module ZipForeign {
  import opened Wrappers
  import opened Text
  import opened Zip
  import opened ZipBack
  import opened ZipParse
  import opened ZipLaws

  /** A read takes what there is, as much as is asked for or else all that is left, and nothing only at the end. */
  lemma ReadAtIs(data: seq<byte>, p: nat, n: nat)
    ensures var (bytes, q) := ReadAt(data, p, n);
            && (bytes.None? <==> |data| <= p) && (bytes.None? ==> q == p)
            && (bytes.Some? ==> At(data, p, bytes.value) && q == p + |bytes.value| <= |data| && |bytes.value| <= n
                                && (|bytes.value| < n ==> q == |data|))
  {
  }

  /** Of the attributes only the low two bits count. */
  lemma PlaceOfAny(data: seq<byte>, p: nat)
    requires p + 12 <= |data|
    ensures AttrWord(PlaceFrom(data, p).text, PlaceFrom(data, p).record) == Word(data, p + 2) % 4
  {
    hide Word, Long;
  }

  // ---------- Records that are not there, or not whole ----------

  /** There is a header, or an entry, just where its four bytes are. */
  lemma NoRecord(data: seq<byte>, p: nat)
    ensures FileFrom(data, p).Nothing? <==> !At(data, p, [0x50, 0x4B, 3, 4])
    ensures DirFrom(data, p).Nothing? <==> !At(data, p, [0x50, 0x4B, 1, 2])
  {
  }

  /** A header cut short raises an error, once its signature is there, up to the lengths of the name and the extra
      fields, and on to the first extra field if there is to be one. */
  lemma CutHeader(front: seq<byte>, f: File, order: seq<byte>, n: nat)
    requires FileFits(f, order) && n <= |FileBytes(f, order)|
    ensures var r := FileFrom(front + FileBytes(f, order)[..n], |front|);
            && (n < 4 ==> r == Nothing) && (4 <= n < 30 ==> r == Raised)
            && (30 <= n < 34 + |f.name| && ExtraBytes(f.extra, order) != [] ==> r == Raised)
  {
    hide FileBytes, FileFits, ExtraBytes, Word, Long, FlagsOf, StampOf, At;
    var bytes, p := FileBytes(f, order), |front|;
    var all, data := front + bytes, front + bytes[..n];
    AtEnd(front, bytes);
    FileAt(all, p, f, order);
    CutAt(all, data, p, FILE_MAGIC);
    if n >= 30 {
      assert data[p + 28] == all[p + 28] && data[p + 29] == all[p + 29];
      assert data[p + 26] == all[p + 26] && data[p + 27] == all[p + 27];
      WordsSame(all, data, p + 26);
      WordsSame(all, data, p + 28);
    }
  }

  /** So does an entry of the directory. */
  lemma CutEntry(front: seq<byte>, d: Dir, order: seq<byte>, n: nat)
    requires DirFits(d, order) && n <= |DirBytes(d, order)|
    ensures var r := DirFrom(front + DirBytes(d, order)[..n], |front|);
            && (n < 4 ==> r == Nothing) && (4 <= n < 46 ==> r == Raised)
            && (46 <= n < 50 + |d.name| && ExtraBytes(d.extra, order) != [] ==> r == Raised)
  {
    hide DirBytes, DirFits, ExtraBytes, Word, Long, FlagsOf, StampOf, At;
    var bytes, p := DirBytes(d, order), |front|;
    var all, data := front + bytes, front + bytes[..n];
    AtEnd(front, bytes);
    DirAt(all, p, d, order);
    CutAt(all, data, p, DIR_MAGIC);
    if n >= 46 {
      assert data[p + 30] == all[p + 30] && data[p + 31] == all[p + 31];
      assert data[p + 28] == all[p + 28] && data[p + 29] == all[p + 29];
      WordsSame(all, data, p + 28);
      WordsSame(all, data, p + 30);
    }
  }

  /** A header without extra fields that is cut short in its name comes back with what there is of the name. */
  lemma CutName(front: seq<byte>, f: File, order: seq<byte>, n: nat)
    requires FileFits(f, order) && ExtraBytes(f.extra, order) == [] && 30 <= n <= 30 + |f.name|
    ensures n <= |FileBytes(f, order)|
    ensures FileFrom(front + FileBytes(f, order)[..n], |front|)
            == Record(FileRead(VersionBack(f.byversion), AboutBack(f.about),
                               if n == 30 then None else Some(f.name[..n - 30]), map[]))
  {
    hide FileBytes, FileFits, ExtraBytes, Word, Long, At, AboutBytes, AboutFits, AboutFrom, AboutBack, VersionBytes;
    hide VersionFrom, VersionBack;
    var bytes, p := FileBytes(f, order), |front|;
    var all := front + bytes;
    AtEnd(front, bytes);
    FileAt(all, p, f, order);
    var data := front + bytes[..n];
    CutAt(all, data, p, FILE_MAGIC);
    CutAt(all, data, p + 4, VersionBytes(f.byversion));
    AboutFitsIn(f, order);
    CutAt(all, data, p + 6, AboutBytes(f.about));
    VersionReadsBack(data, p + 4, f.byversion);
    AboutReadsBack(data, p + 6, f.about);
    WordsSame(all, data, p + 26);
    WordsSame(all, data, p + 28);
    AtSlice(all, p + 30, f.name);
    CutRead(all, data, p + 30, f.name);
    assert |data| == p + n;
    hide ReadAt;
    NoneLeft(data, ReadAt(data, p + 30, |f.name|).1, false);
  }

  lemma NoneLeft(data: seq<byte>, p: nat, noting: bool)
    ensures ExtrasFrom(data, p, 0, noting, map[]) == Some((map[], p))
  {
  }

  /** What is read of bytes that are cut short. */
  lemma CutRead(all: seq<byte>, data: seq<byte>, p: nat, bytes: seq<byte>)
    requires At(all, p, bytes) && data <= all && p <= |data| <= p + |bytes|
    ensures ReadAt(data, p, |bytes|) == (if p == |data| then None else Some(bytes[..|data| - p]), |data|)
  {
    assert p < |data| ==> data[p..|data|] == all[p..p + |bytes|][..|data| - p];
  }

  lemma AboutFitsIn(f: File, order: seq<byte>)
    requires FileFits(f, order)
    ensures AboutFits(f.about)
  {
  }

  /** An entry that is cut short in its comment comes back with what there is of the comment. */
  lemma CutComment(front: seq<byte>, d: Dir, order: seq<byte>, n: nat)
    requires DirFits(d, order)
    requires var k := 46 + |d.name| + |ExtraBytes(d.extra, order)|; k < n <= k + |d.comment|
    ensures n <= |DirBytes(d, order)|
    ensures var k := 46 + |d.name| + |ExtraBytes(d.extra, order)|;
            DirFrom(front + DirBytes(d, order)[..n], |front|)
            == Record((DirBack(d).(comment := Some(d.comment[..n - k])), |front| + n))
  {
    hide DirBytes, At, AboutBytes, AboutFits, AboutFrom, AboutBack, VersionBytes, VersionFrom, VersionBack, ExtraBytes;
    hide ExtrasFrom, ExtrasBack, ExtrasFit, Printable, TagOrder, Word, ZipBack.Kept, PlaceBytes, PlaceFrom, Notes;
    var bytes, p, extra := DirBytes(d, order), |front|, ExtraBytes(d.extra, order);
    var all := front + bytes;
    AtEnd(front, bytes);
    DirAt(all, p, d, order);
    var data := front + bytes[..n];
    CutAt(all, data, p, DIR_MAGIC);
    CutAt(all, data, p + 4, VersionBytes(d.byversion));
    CutAt(all, data, p + 6, VersionBytes(d.forversion));
    CutAt(all, data, p + 8, AboutBytes(d.about));
    CutAt(all, data, p + 34, PlaceBytes(d.place));
    CutAt(all, data, p + 46 + |d.name|, extra);
    FitsInHeader(d.extra, order);
    VersionReadsBack(data, p + 4, d.byversion);
    VersionReadsBack(data, p + 6, d.forversion);
    AboutReadsBack(data, p + 8, d.about);
    PlaceReadsBack(data, p + 34, d.place);
    WordsSame(all, data, p + 28);
    WordsSame(all, data, p + 30);
    WordsSame(all, data, p + 32);
    var xs, q := ZipBack.Kept(d.extra), p + 46 + |d.name|;
    ExtrasReadBack(data, q, xs, order, true, map[]);
    assert map[] + ExtrasBack(xs) == ExtrasBack(xs);
    assert data[p + 46..q] == all[p + 46..q] == d.name;
    AtSlice(all, q + |extra|, d.comment);
    CutRead(all, data, q + |extra|, d.comment);
  }

  lemma AtSlice(all: seq<byte>, p: nat, bytes: seq<byte>)
    requires p + |bytes| <= |all| && all[p..p + |bytes|] == bytes
    ensures At(all, p, bytes)
  {
  }

  lemma CutAt(all: seq<byte>, data: seq<byte>, p: nat, bytes: seq<byte>)
    requires At(all, p, bytes) && data <= all
    ensures At(data, p, bytes) <==> p + |bytes| <= |data|
  {
    if p + |bytes| <= |data| {
      assert data[p..p + |bytes|] == all[p..p + |bytes|];
    }
  }

  lemma WordsSame(all: seq<byte>, data: seq<byte>, p: nat)
    requires p + 2 <= |data| && data <= all && data[p] == all[p] && data[p + 1] == all[p + 1]
    ensures Word(data, p) == Word(all, p)
  {
  }

  // ---------- Language extensions ----------

  /** Tagged fields one after the other, under any tags. */
  ghost function PairBytes(pairs: seq<(byte, seq<byte>)>): seq<byte>
    requires PairsFit(pairs)
  {
    if pairs == [] then [] else OnePair(pairs[0]) + PairBytes(pairs[1..])
  }

  ghost function OnePair(pair: (byte, seq<byte>)): seq<byte>
    requires |pair.1| < 256
  {
    [pair.0, |pair.1|] + pair.1
  }

  ghost predicate PairsFit(pairs: seq<(byte, seq<byte>)>) {
    forall k | 0 <= k < |pairs| :: |pairs[k].1| < 256
  }

  /** What is known by the tags from 1 to 8: the last value under each, and before it what `ext` has. */
  ghost function LastOf(ext: map<byte, seq<byte>>, pairs: seq<(byte, seq<byte>)>): map<byte, seq<byte>> {
    if pairs == [] then ext
    else
      var last, front := pairs[|pairs| - 1], LastOf(ext, pairs[..|pairs| - 1]);
      if 1 <= last.0 <= 8 then front[last.0 := last.1] else front
  }

  lemma {:induction false} LastOfFirst(ext: map<byte, seq<byte>>, pairs: seq<(byte, seq<byte>)>)
    requires pairs != []
    ensures LastOf(ext, pairs) == LastOf(LastOf(ext, [pairs[0]]), pairs[1..])
  {
    if |pairs| == 1 {
      assert pairs == [pairs[0]];
    } else {
      LastOfFirst(ext, pairs[..|pairs| - 1]);
      assert pairs[..|pairs| - 1][1..] == pairs[1..][..|pairs| - 2];
    }
  }

  lemma LastOfOne(ext: map<byte, seq<byte>>, pair: (byte, seq<byte>))
    ensures LastOf(ext, [pair]) == if 1 <= pair.0 <= 8 then ext[pair.0 := pair.1] else ext
  {
    assert [pair][..0] == [];
  }

  lemma PairAt(data: seq<byte>, p: nat, pair: (byte, seq<byte>), left: nat, ext: map<byte, seq<byte>>)
    requires |pair.1| < 256 && At(data, p, OnePair(pair)) && p + |OnePair(pair)| < |data| && |OnePair(pair)| <= left
    ensures FieldsFrom(data, p, left, ext)
            == FieldsFrom(data, p + |OnePair(pair)|, left - |OnePair(pair)|, LastOf(ext, [pair]))
  {
    FieldAt(data, p, pair.0, pair.1);
    LastOfOne(ext, pair);
  }

  lemma {:induction false} PairsAt(data: seq<byte>, p: nat, pairs: seq<(byte, seq<byte>)>, left: nat,
                                   ext: map<byte, seq<byte>>)
    requires PairsFit(pairs) && At(data, p, PairBytes(pairs))
    requires p + |PairBytes(pairs)| < |data| && |PairBytes(pairs)| <= left
    ensures FieldsFrom(data, p, left, ext)
            == FieldsFrom(data, p + |PairBytes(pairs)|, left - |PairBytes(pairs)|, LastOf(ext, pairs))
    decreases |pairs|
  {
    hide At, FieldsFrom, OnePair;
    if pairs != [] {
      var n := |OnePair(pairs[0])|;
      AtSplit(data, p, OnePair(pairs[0]), PairBytes(pairs[1..]));
      PairAt(data, p, pairs[0], left, ext);
      LastOfFirst(ext, pairs);
      PairsAt(data, p + n, pairs[1..], left - n, LastOf(ext, [pairs[0]]));
    }
  }

  /** A language extension of any fields: foreign tags are passed over, of doubled ones the last counts, and an odd byte
      is left over; a field that is too long for the extension drops all of it, and one that the file does not have
      raises an error. */
  lemma LanguageOfAny(data: seq<byte>, p: nat, pairs: seq<(byte, seq<byte>)>, left: nat)
    requires PairsFit(pairs) && At(data, p, PairBytes(pairs))
    requires p + |PairBytes(pairs)| < |data| && |PairBytes(pairs)| <= left
    ensures var q, m := p + |PairBytes(pairs)|, left - |PairBytes(pairs)|;
            && (m < 2 ==> FieldsFrom(data, p, left, map[]) == Some((Some(LastOf(map[], pairs)), q)))
            && (m >= 2 && q + 2 <= |data| && data[q + 1] > m - 2 ==>
                  FieldsFrom(data, p, left, map[]) == Some((None, if q + m <= |data| then q + m else |data|)))
            && (m >= 2 && q + 2 > |data| ==> FieldsFrom(data, p, left, map[]) == None)
  {
    hide At, PairBytes, LastOf;
    PairsAt(data, p, pairs, left, map[]);
  }

  // ---------- Extra fields ----------

  ghost function ItemBytes(items: seq<(u16, seq<byte>)>): seq<byte>
    requires ItemsFit(items)
  {
    if items == [] then [] else OneItem(items[0]) + ItemBytes(items[1..])
  }

  ghost function OneItem(item: (u16, seq<byte>)): seq<byte>
    requires |item.1| < 0x1_0000
  {
    B16(item.0) + B16(|item.1|) + item.1
  }

  /** Extra fields that are no language extension. */
  ghost predicate ItemsFit(items: seq<(u16, seq<byte>)>) {
    forall k | 0 <= k < |items| :: |items[k].1| < 0x1_0000 && items[k].0 != LANGUAGE
  }

  /** The last of the fields under each id. */
  ghost function LastUnder(acc: map<u16, Extra>, items: seq<(u16, seq<byte>)>): map<u16, Extra> {
    if items == [] then acc
    else
      var last := items[|items| - 1];
      LastUnder(acc, items[..|items| - 1])[last.0 := Raw(last.1)]
  }

  lemma {:induction false} LastUnderFirst(acc: map<u16, Extra>, items: seq<(u16, seq<byte>)>)
    requires items != []
    ensures LastUnder(acc, items) == LastUnder(acc[items[0].0 := Raw(items[0].1)], items[1..])
  {
    if |items| == 1 {
      assert items[..0] == [] && items[1..] == [];
    } else {
      LastUnderFirst(acc, items[..|items| - 1]);
      assert items[..|items| - 1][1..] == items[1..][..|items| - 2];
    }
  }

  lemma ItemAt(data: seq<byte>, p: nat, item: (u16, seq<byte>), noting: bool)
    requires |item.1| < 0x1_0000 && item.0 != LANGUAGE && At(data, p, OneItem(item)) && p + |OneItem(item)| < |data|
    ensures ExtraFrom(data, p, noting) == Some((item.0, |item.1|, Some(Raw(item.1)), p + |OneItem(item)|))
  {
    hide Word, B16, At;
    AtSplit(data, p, B16(item.0) + B16(|item.1|), item.1);
    AtSplit(data, p, B16(item.0), B16(|item.1|));
    At16(data, p, item.0);
    At16(data, p + 2, |item.1|);
    AtIs(data, p + 4, item.1);
  }

  /** The fields in `left` bytes: all that begin there, though the last may run past their end. */
  ghost predicate Begun(items: seq<(u16, seq<byte>)>, left: int)
    requires ItemsFit(items)
    decreases |items|
  {
    if items == [] then left <= 0 else left > 0 && Begun(items[1..], left - |OneItem(items[0])|)
  }

  /** Whatever their ids, those that are only named among them, the fields come back as their bytes, and of doubled ones
      the last. */
  lemma {:induction false} ExtrasOfAny(data: seq<byte>, p: nat, items: seq<(u16, seq<byte>)>, left: int, noting: bool,
                                       acc: map<u16, Extra>)
    requires ItemsFit(items) && Begun(items, left)
    requires At(data, p, ItemBytes(items)) && p + |ItemBytes(items)| < |data|
    ensures ExtrasFrom(data, p, left, noting, acc) == Some((LastUnder(acc, items), p + |ItemBytes(items)|))
    decreases |items|
  {
    hide At, ExtraFrom, OneItem;
    if items != [] {
      var item := items[0];
      AtSplit(data, p, OneItem(item), ItemBytes(items[1..]));
      ItemAt(data, p, item, noting);
      LastUnderFirst(acc, items);
      OneItemSize(item);
      ExtrasOfAny(data, p + |OneItem(item)|, items[1..], left - |OneItem(item)|, noting,
                  acc[item.0 := Raw(item.1)]);
    }
  }

  lemma OneItemSize(item: (u16, seq<byte>))
    requires |item.1| < 0x1_0000
    ensures |OneItem(item)| == 4 + |item.1|
  {
  }

  /** Under the id of the language extension its fields come back, or nothing if a length does not fit. */
  lemma LanguageItem(data: seq<byte>, p: nat, len: u16, pairs: seq<(byte, seq<byte>)>, noting: bool)
    requires PairsFit(pairs) && At(data, p, B16(LANGUAGE) + B16(len) + PairBytes(pairs))
    requires p + 4 + |PairBytes(pairs)| < |data| && |PairBytes(pairs)| <= len
    ensures var q, m := p + 4 + |PairBytes(pairs)|, len - |PairBytes(pairs)|;
            && (m < 2 ==> ExtraFrom(data, p, noting)
                          == Some((LANGUAGE, len, Some(Language(LastOf(map[], pairs))), q)))
            && (m >= 2 && q + 2 <= |data| && data[q + 1] > m - 2 ==>
                  ExtraFrom(data, p, noting)
                  == Some((LANGUAGE, len, None, if q + m <= |data| then q + m else |data|)))
            && (m >= 2 && q + 2 > |data| ==> ExtraFrom(data, p, noting) == None)
  {
    hide At, PairBytes, LastOf, FieldsFrom, Word, B16;
    AtSplit(data, p, B16(LANGUAGE) + B16(len), PairBytes(pairs));
    AtSplit(data, p, B16(LANGUAGE), B16(len));
    At16(data, p, LANGUAGE);
    At16(data, p + 2, len);
    LanguageOfAny(data, p + 4, pairs, len);
  }
}

/** Parsing undoes printing: what the parsers make of the bytes that a record prints as. */
module ZipLaws {
  import opened Wrappers
  import opened Text
  import opened Zip
  import opened ZipBack
  import opened ZipParse

  // ---------- What a file that ends in a part loses of it ----------

  /** At the end of a file, a field that is empty comes back as none at all. */
  ghost function CutLast(fields: map<byte, seq<byte>>, tags: seq<byte>): map<byte, seq<byte>> {
    if tags == [] then fields
    else
      var last := tags[|tags| - 1];
      if last in fields && fields[last] == [] then fields - {last} else fields
  }

  ghost function ExtraCut(x: (u16, Extra), order: seq<byte>): Option<Extra> {
    match x.1
    case Raw(data) => if data == [] then None else Some(x.1)
    case Language(fields) => Some(Language(CutLast(fields, TagsIn(fields, order))))
  }

  ghost function ExtrasCut(acc: map<u16, Extra>, xs: seq<(u16, Extra)>, order: seq<byte>): map<u16, Extra>
    decreases |xs|
  {
    if xs == [] then acc
    else if |xs| == 1 then Put(acc, xs[0].0, ExtraCut(xs[0], order))
    else ExtrasCut(acc[xs[0].0 := xs[0].1], xs[1..], order)
  }

  /** What comes back of a header with which the file ends. */
  ghost function FileCut(f: File, order: seq<byte>): FileRead {
    var xs := Kept(f.extra);
    FileRead(VersionBack(f.byversion), AboutBack(f.about), if f.name == [] && xs == [] then None else Some(f.name),
             ExtrasCut(map[], xs, order))
  }

  ghost function LastValue(x: (u16, Extra), order: seq<byte>): seq<byte> {
    match x.1
    case Raw(data) => data
    case Language(fields) =>
      var tags := TagsIn(fields, order);
      if tags != [] && tags[|tags| - 1] in fields then fields[tags[|tags| - 1]] else []
  }

  /** The part of a header that is printed last: the last field of its last extra field, or its name. */
  ghost function LastPart(f: File, order: seq<byte>): seq<byte> {
    var xs := Kept(f.extra);
    if xs == [] then f.name else LastValue(xs[|xs| - 1], order)
  }

  // ---------- Extra fields ----------

  lemma {:induction false} FieldsReadBack(data: seq<byte>, p: nat, fields: map<byte, seq<byte>>, rest: seq<byte>,
                                          ext: map<byte, seq<byte>>)
    requires FieldsFit(fields) && Unparsed(fields, rest, ext) && At(data, p, FieldBytes(fields, rest))
    ensures var n := |FieldBytes(fields, rest)|;
            FieldsFrom(data, p, n, ext)
            == Some((Some(if p + n < |data| then fields else CutLast(fields, rest)), p + n))
    decreases |rest|
  {
    hide At, FieldsFit, FieldBytes, OneField, Unparsed, FieldsFrom;
    if rest == [] {
      NothingParsed(data, p, fields, ext);
    } else {
      UnparsedStep(fields, rest, ext);
      FieldsCons(fields, rest);
      var tag, more := rest[0], FieldBytes(fields, rest[1..]);
      var value := fields[tag];
      AtSplit(data, p, OneField(fields, tag), more);
      FieldAt(data, p, tag, value);
      AtIs(data, p + 2 + |value|, more);
      OneParsed(data, p, tag, value, |more|, ext);
      if p + 2 < |data| {
        FieldsReadBack(data, p + 2 + |value|, fields, rest[1..], ext[tag := value]);
        MoreOrLast(fields, rest);
        NoFieldBytes(fields);
      } else {
        LastParsed(data, p, fields, rest, ext);
      }
    }
  }

  lemma NoFieldBytes(fields: map<byte, seq<byte>>)
    ensures FieldBytes(fields, []) == []
  {
  }

  lemma NothingParsed(data: seq<byte>, p: nat, fields: map<byte, seq<byte>>, ext: map<byte, seq<byte>>)
    requires Unparsed(fields, [], ext)
    ensures FieldBytes(fields, []) == [] && FieldsFrom(data, p, 0, ext) == Some((Some(fields), p))
  {
    assert ext == fields;
  }

  lemma OneParsed(data: seq<byte>, p: nat, tag: byte, value: seq<byte>, left: nat, ext: map<byte, seq<byte>>)
    requires 1 <= tag <= 8 && |value| < 256 && p + 2 + |value| <= |data|
    requires data[p] == tag && data[p + 1] == |value| && data[p + 2..p + 2 + |value|] == value
    ensures FieldsFrom(data, p, 2 + |value| + left, ext)
            == if p + 2 < |data| then FieldsFrom(data, p + 2 + |value|, left, ext[tag := value])
               else FieldsFrom(data, p + 2, left, ext - {tag})
  {
  }

  /** Dropping all but the last of the tags changes nothing about the last. */
  lemma MoreOrLast(fields: map<byte, seq<byte>>, rest: seq<byte>)
    requires rest != []
    ensures rest[1..] != [] ==> CutLast(fields, rest[1..]) == CutLast(fields, rest)
    ensures rest[1..] == [] ==> CutLast(fields, rest[1..]) == fields
    ensures rest[1..] == [] && rest[0] in fields && fields[rest[0]] != [] ==> CutLast(fields, rest) == fields
  {
  }

  lemma LastParsed(data: seq<byte>, p: nat, fields: map<byte, seq<byte>>, rest: seq<byte>, ext: map<byte, seq<byte>>)
    requires FieldsFit(fields) && Unparsed(fields, rest, ext) && rest != [] && rest[0] in fields
             && fields[rest[0]] == []
    requires At(data, p + 2, FieldBytes(fields, rest[1..])) && p + 2 >= |data|
    ensures FieldBytes(fields, rest[1..]) == []
    ensures FieldsFrom(data, p + 2, 0, ext - {rest[0]}) == Some((Some(CutLast(fields, rest)), p + 2))
  {
    hide OneField, TagOrder;
    assert forall t | t in rest[1..] :: t in rest;
    TwoAtLeast(fields, rest[1..]);
    assert rest == [rest[0]];
    assert ext - {rest[0]} == fields - {rest[0]};
  }

  lemma LanguageReadsBack(data: seq<byte>, p: nat, fields: map<byte, seq<byte>>, order: seq<byte>)
    requires TagOrder(order) && FieldsFit(fields) && (forall t | t in fields :: 1 <= t <= 8)
    requires At(data, p, FieldBytes(fields, order))
    ensures var n := |FieldBytes(fields, order)|;
            FieldsFrom(data, p, n, map[])
            == Some((Some(if p + n < |data| then fields else CutLast(fields, TagsIn(fields, order))), p + n))
  {
    hide At, FieldsFit, FieldBytes, FieldsFrom, TagsIn;
    TagsInAre(fields, order);
    FieldsReadBack(data, p, fields, TagsIn(fields, order), map[]);
  }

  lemma ExtraReadsBack(data: seq<byte>, p: nat, x: (u16, Extra), order: seq<byte>, noting: bool)
    requires TagOrder(order) && FitsAlone(x, order)
    requires At(data, p, B16(x.0) + B16(|Payload(x, order)|) + Payload(x, order))
    requires p + 4 + |Payload(x, order)| < |data| || !noting
    ensures var n := |Payload(x, order)|;
            && p + 4 + n <= |data|
            && ExtraFrom(data, p, noting)
               == Some((x.0, n, if p + 4 + n < |data| then Some(x.1) else ExtraCut(x, order), p + 4 + n))
  {
    hide TagOrder, Named, FieldBytes, B16, Word, At, Written, Typed, FieldsFit, FieldsFrom, Payload, FitsAlone,
         CutLast, TagsIn;
    FitsAs(x, order);
    var payload := Payload(x, order);
    AtSplit(data, p, B16(x.0) + B16(|payload|), payload);
    AtSplit(data, p, B16(x.0), B16(|payload|));
    At16(data, p, x.0);
    At16(data, p + 2, |payload|);
    AtIs(data, p + 4, payload);
    if x.1.Language? {
      LanguageReadsBack(data, p + 4, x.1.fields, order);
    }
  }

  lemma {:induction false} ExtrasReadBack(data: seq<byte>, p: nat, xs: seq<(u16, Extra)>, order: seq<byte>,
                                          noting: bool, acc: map<u16, Extra>)
    requires TagOrder(order) && Printable(xs, order) && At(data, p, ExtraBytes(xs, order))
    requires p + |ExtraBytes(xs, order)| < |data| || !noting
    ensures var n := |ExtraBytes(xs, order)|;
            ExtrasFrom(data, p, n, noting, acc)
            == Some((if p + n < |data| then acc + ExtrasBack(xs) else ExtrasCut(acc, xs, order), p + n))
    decreases |xs|
  {
    hide TagOrder, Printable, At, ExtraBytes, ExtraFrom, FitsAlone, Payload, B16, ExtraCut, Put, Written;
    if xs == [] {
      NoExtraBytes(order);
      assert acc + ExtrasBack(xs) == acc;
    } else {
      FourAtLeast(xs, order);
      ExtrasCons(xs, order);
      FitsAs(xs[0], order);
      var x, more := xs[0], ExtraBytes(xs[1..], order);
      var one := B16(x.0) + B16(|Payload(x, order)|) + Payload(x, order);
      AtSplit(data, p, one, more);
      AtIs(data, p + |one|, more);
      FourAtLeast(xs[1..], order);
      ExtraReadsBack(data, p, x, order, noting);
      PutSome(acc, x.0, x.1);
      BackCons(acc, xs);
      hide ExtrasBack;
      if xs[1..] == [] {
        NoExtraBytes(order);
      } else {
        ExtrasReadBack(data, p + |one|, xs[1..], order, noting, acc[x.0 := x.1]);
      }
    }
  }

  lemma NoExtraBytes(order: seq<byte>)
    ensures ExtraBytes([], order) == []
  {
  }

  lemma PutSome<K, V>(m: map<K, V>, key: K, value: V)
    ensures Put(m, key, Some(value)) == m[key := value]
  {
  }

  // ---------- Records ----------

  lemma AboutReadsBack(data: seq<byte>, p: nat, a: About)
    requires AboutFits(a) && At(data, p, AboutBytes(a))
    ensures p + 20 <= |data| && AboutFrom(data, p) == AboutBack(a)
  {
    hide FlagsOf, StampOf, FlagWord, TimeWord, DateWord, AboutBytes, At, Word, Long;
    AboutAt(data, p, a);
    FlagsComeBack(a.flags);
    StampComesBack(a.modtime);
  }

  lemma PlaceReadsBack(data: seq<byte>, p: nat, x: Place)
    requires At(data, p, PlaceBytes(x))
    ensures p + 12 <= |data| && PlaceFrom(data, p) == x
  {
    hide PlaceBytes, At, Word, Long;
    PlaceAt(data, p, x);
  }

  /** A printed header comes back; and if the file ends with it, but for the part printed last should that be empty. */
  lemma HeaderReadsBack(data: seq<byte>, p: nat, f: File, order: seq<byte>)
    requires FileFits(f, order) && At(data, p, FileBytes(f, order))
    ensures FileFrom(data, p) == Record(if p + |FileBytes(f, order)| < |data| then FileBack(f) else FileCut(f, order))
  {
    hide FileBytes, At, AboutBytes, AboutFits, AboutFrom, AboutBack, VersionBytes, VersionFrom, VersionBack, ExtraBytes;
    hide ExtrasFrom, ExtrasCut, ExtrasBack, ExtrasFit, Printable, TagOrder, Word, Kept;
    FileAt(data, p, f, order);
    FitsInHeader(f.extra, order);
    VersionReadsBack(data, p + 4, f.byversion);
    AboutReadsBack(data, p + 6, f.about);
    var xs, q := Kept(f.extra), p + 30 + |f.name|;
    NoExtraBytes(order);
    FourAtLeast(xs, order);
    ExtrasReadBack(data, q, xs, order, false, map[]);
    assert map[] + ExtrasBack(xs) == ExtrasBack(xs);
  }

  lemma VersionReadsBack(data: seq<byte>, p: nat, v: Version)
    requires At(data, p, VersionBytes(v))
    ensures p + 2 <= |data| && VersionFrom(data, p) == VersionBack(v)
  {
    VersionAt(data, p, v);
  }

  lemma EntryReadsBack(data: seq<byte>, p: nat, d: Dir, order: seq<byte>)
    requires DirFits(d, order) && At(data, p, DirBytes(d, order)) && p + |DirBytes(d, order)| < |data|
    ensures DirFrom(data, p) == Record((DirBack(d), p + |DirBytes(d, order)|))
  {
    hide DirBytes, At, AboutBytes, AboutFits, AboutFrom, AboutBack, VersionBytes, VersionFrom, VersionBack, ExtraBytes;
    hide ExtrasFrom, ExtrasBack, ExtrasFit, Printable, TagOrder, Word, Kept, PlaceBytes, PlaceFrom, Notes;
    DirAt(data, p, d, order);
    FitsInHeader(d.extra, order);
    VersionReadsBack(data, p + 4, d.byversion);
    VersionReadsBack(data, p + 6, d.forversion);
    AboutReadsBack(data, p + 8, d.about);
    PlaceReadsBack(data, p + 34, d.place);
    var xs, q := Kept(d.extra), p + 46 + |d.name|;
    ExtrasReadBack(data, q, xs, order, true, map[]);
    assert map[] + ExtrasBack(xs) == ExtrasBack(xs);
  }

  /** A printed directory comes back, if something that is no entry follows it. */
  lemma {:induction false} DirsReadBack(data: seq<byte>, p: nat, list: seq<Dir>, order: seq<byte>)
    requires ListFits(list, order) && At(data, p, ListBytes(list, order))
    requires p + |ListBytes(list, order)| < |data| && !At(data, p + |ListBytes(list, order)|, DIR_MAGIC)
    ensures DirsFrom(data, p) == Some(ListBack(list))
    decreases |list|
  {
    hide ListFits, ListBytes, DirBytes, DirFits, DirBack, At;
    ListCons(list, order);
    if list != [] {
      AtSplit(data, p, DirBytes(list[0], order), ListBytes(list[1..], order));
      DirsReadBack(data, p + |DirBytes(list[0], order)|, list[1..], order);
      EntryReadsBack(data, p, list[0], order);
    }
    hide DirFrom;
  }

  // ---------- When nothing is lost at the end of a file ----------

  lemma ExtraCutIff(x: (u16, Extra), order: seq<byte>)
    requires TagOrder(order) && FitsAlone(x, order)
    ensures ExtraCut(x, order) == Some(x.1) <==> LastValue(x, order) != []
  {
    hide TagOrder, Named, FieldBytes, Payload, TagsIn;
    if x.1.Language? {
      var fields := x.1.fields;
      var tags := TagsIn(fields, order);
      TagsInAre(fields, order);
      SomeTag(fields, order);
      var last := tags[|tags| - 1];
      assert last in tags;
      assert fields[last] == [] ==> last !in fields - {last};
    }
  }

  lemma SomeTag(fields: map<byte, seq<byte>>, order: seq<byte>)
    requires TagOrder(order) && FieldsFit(fields) && fields != map[] && forall t | t in fields :: 1 <= t <= 8
    ensures TagsIn(fields, order) != []
  {
    TagsInAre(fields, order);
    var t :| t in fields;
    assert t in TagsIn(fields, order);
  }

  lemma FirstFits(xs: seq<(u16, Extra)>, order: seq<byte>)
    requires Printable(xs, order) && xs != []
    ensures FitsAlone(xs[0], order) && Written(xs[0]) && Printable(xs[1..], order)
  {
    hide Named, FieldBytes, FieldsFit;
    assert xs[0] in xs && forall y | y in xs[1..] :: y in xs;
  }

  lemma BackCons(acc: map<u16, Extra>, xs: seq<(u16, Extra)>)
    requires xs != [] && Written(xs[0])
    ensures var acc' := acc[xs[0].0 := xs[0].1];
            acc + ExtrasBack(xs) == acc' + ExtrasBack(xs[1..]) && (|xs| == 1 ==> acc + ExtrasBack(xs) == acc')
  {
    hide Written;
    assert acc[xs[0].0 := xs[0].1] == acc + map[xs[0].0 := xs[0].1];
  }

  lemma {:induction false} ExtrasCutIff(acc: map<u16, Extra>, xs: seq<(u16, Extra)>, order: seq<byte>)
    requires TagOrder(order) && Printable(xs, order) && xs != []
    ensures ExtrasCut(acc, xs, order) == acc + ExtrasBack(xs) <==> LastValue(xs[|xs| - 1], order) != []
    decreases |xs|
  {
    hide TagOrder, FitsAlone, LastValue, ExtraCut, Written, ExtrasBack, Put, Payload, Printable, FieldsFit, FieldBytes;
    var x := xs[0];
    FirstFits(xs, order);
    BackCons(acc, xs);
    if |xs| == 1 {
      ExtraCutIff(x, order);
      PutIs(acc, x.0, x.1, ExtraCut(x, order));
    } else {
      ExtrasCutIff(acc[x.0 := x.1], xs[1..], order);
    }
  }

  lemma PutIs<K, V>(m: map<K, V>, key: K, v: V, value: Option<V>)
    ensures Put(m, key, value) == m[key := v] <==> value == Some(v)
  {
    assert key in m[key := v] && m[key := v][key] == v;
  }

  /** A header with which a file ends comes back exactly if the part printed last is not empty. */
  lemma FileCutIff(f: File, order: seq<byte>)
    requires FileFits(f, order)
    ensures FileCut(f, order) == FileBack(f) <==> LastPart(f, order) != []
  {
    hide ExtrasFit, ExtrasCut, ExtrasBack, LastValue, Kept, Printable, TagOrder;
    var xs := Kept(f.extra);
    FitsInHeader(f.extra, order);
    if xs == [] {
      NothingCut(order);
    } else {
      ExtrasCutIff(map[], xs, order);
      assert map[] + ExtrasBack(xs) == ExtrasBack(xs);
    }
  }

  lemma NothingCut(order: seq<byte>)
    ensures ExtrasCut(map[], [], order) == ExtrasBack([]) == map[]
  {
  }
}

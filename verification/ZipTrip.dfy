/** Round trips: what is printed into a file is what its parsers find there. */
module ZipTrip {
  import opened Wrappers
  import opened Text
  import opened Zip
  import opened ZipBack
  import opened ZipWrite
  import opened ZipLaws
  import opened ZipParse
  import opened ZipRead

  /** The end record of a directory that starts at `offset` and is `size` bytes long. */
  function EndOf(e: Eocd, offset: nat, size: nat): Eocd
    requires offset < 0x1_0000_0000 && size < 0x1_0000_0000
  {
    e.(offset := offset, size := size)
  }

  /** A directory and its end record, printed after `front`. */
  ghost function Archive(front: seq<byte>, list: seq<Dir>, e: Eocd, order: seq<byte>): seq<byte>
    requires ListFits(list, order) && |e.comment| < 0x1_0000
    requires |front| + |ListBytes(list, order)| < 0x1_0000_0000
  {
    front + ListBytes(list, order) + EocdBytes(EndOf(e, |front|, |ListBytes(list, order)|))
  }

  /** Prints a directory, then an end record that tells where it is, and parses them. */
  method DirectoryReadsBack(front: seq<byte>, list: seq<Dir>, e: Eocd, order: seq<byte>)
    returns (end: End, dirs: Option<seq<DirRead>>)
    requires ListFits(list, order) && |e.comment| < 0x1_0000
    requires |front| + |ListBytes(list, order)| < 0x1_0000_0000
    ensures var n := |ListBytes(list, order)|;
            end == Found(EocdBack(EndOf(e, |front|, n)))
            <==> forall q: nat | q > |front| + n :: !EndAt(Archive(front, list, e, order), q)
    ensures end.Found? && end.record.offset == |front| ==> dirs == Some(ListBack(list))
    ensures e.comment == [] ==> end.Found? && end.record.offset == |front|
  {
    hide ListFits, ListBytes, ListBack, EocdBytes, EndFrom, EndAt, At, DirsFrom;
    var sink := new Sink();
    sink.Write(front);
    var pos, size := sink.WriteDir(list, order);
    ghost var printed := sink.out;
    sink.WriteEocd(EndOf(e, pos, size));
    assert sink.out == Archive(front, list, e, order);
    var source := new Source(sink.out);
    EndIsThere(printed, EndOf(e, pos, size));
    end := source.ReadEocd();
    dirs := None;
    if end.Found? {
      LiesBetween(front, ListBytes(list, order), EndOf(e, pos, size));
      dirs := source.ReadDirs(end.record.offset);
      if end.record.offset == |front| {
        DirsReadBack(sink.out, |front|, list, order);
      }
    }
  }

  /** There is a last signature, so what is parsed is what follows it. */
  lemma EndIsThere(front: seq<byte>, e: Eocd)
    requires |e.comment| < 0x1_0000
    ensures exists p :: IsEnd(front + EocdBytes(e), p)
    ensures forall p: nat | IsEnd(front + EocdBytes(e), p) ::
              (EndFrom(front + EocdBytes(e), p) == Found(EocdBack(e)) <==> p == |front| && e.offset + e.size <= |front|)
              && p >= |front|
    ensures IsEnd(front + EocdBytes(e), |front|) <==> forall q: nat | q > |front| :: !EndAt(front + EocdBytes(e), q)
    ensures e.comment == [] ==> IsEnd(front + EocdBytes(e), |front|)
  {
    hide EocdBytes, EndFrom, At;
    var data := front + EocdBytes(e);
    EocdLies(front, e);
    LastThereIs(data, |front|, |data|);
    forall p: nat | IsEnd(data, p)
      ensures (EndFrom(data, p) == Found(EocdBack(e)) <==> p == |front| && e.offset + e.size <= |front|) && p >= |front|
    {
      EocdReadsBack(front, e, p);
    }
  }

  lemma {:induction false} LastThereIs(data: seq<byte>, p: nat, top: nat)
    requires EndAt(data, p) && p < top && forall q: nat | q >= top :: !EndAt(data, q)
    ensures exists last :: IsEnd(data, last)
    decreases top
  {
    hide EndAt;
    if EndAt(data, top - 1) {
      assert IsEnd(data, top - 1);
    } else {
      LastThereIs(data, p, top - 1);
    }
  }

  lemma LiesBetween(front: seq<byte>, list: seq<byte>, e: Eocd)
    requires |e.comment| < 0x1_0000
    ensures var data, end := front + list + EocdBytes(e), |front| + |list|;
            At(data, |front|, list) && end < |data| && !At(data, end, DIR_MAGIC)
  {
    var data, end := front + list + EocdBytes(e), |front| + |list|;
    assert data[|front|..end] == list;
    assert data[end..end + 4][2] == data[end + 2] == EocdBytes(e)[2] == 5;
  }

  /** Prints a file's header between `front` and `after`, and parses it. It comes back unless the file ends with it
      and the part of it printed last is empty. */
  method FileReadsBack(front: seq<byte>, f: File, after: seq<byte>, order: seq<byte>) returns (r: Parsed<FileRead>)
    requires FileFits(f, order)
    ensures r == Record(if after != [] then FileBack(f) else FileCut(f, order))
    ensures r == Record(FileBack(f)) <==> after != [] || LastPart(f, order) != []
  {
    hide FileFits, FileBytes, FileBack, FileCut, LastPart, FileFrom;
    var sink := new Sink();
    sink.Write(front);
    var pos := sink.WriteFile(f, order);
    sink.Write(after);
    var source := new Source(sink.out);
    assert sink.out[pos..pos + |FileBytes(f, order)|] == FileBytes(f, order);
    r := source.ReadFile(pos);
    HeaderReadsBack(sink.out, pos, f, order);
    FileCutIff(f, order);
  }

  /** The records come back one for one and in order. */
  lemma {:induction false} ListBackAt(list: seq<Dir>, i: nat)
    requires i < |list|
    ensures |ListBack(list)| == |list| && ListBack(list)[i] == DirBack(list[i])
  {
    if |list| > 1 {
      ListBackAt(list[1..], if i > 0 then i - 1 else 0);
    } else {
      assert ListBack(list[1..]) == [];
    }
  }

  /** The extra fields that come back are just those that were written, each under its id. */
  lemma {:induction false} ExtrasBackAre(extra: seq<(u16, Extra)>)
    requires forall i, j | 0 <= i < j < |extra| :: extra[i].0 != extra[j].0
    ensures forall id, x ::
              id in ExtrasBack(extra) && ExtrasBack(extra)[id] == x <==> (id, x) in extra && Written((id, x))
  {
    hide Written;
    if extra != [] {
      var head, rest := extra[0], extra[1..];
      ExtrasBackAre(rest);
      assert extra == [head] + rest;
      forall y | y in rest ensures y.0 != head.0 {
        var j :| 0 <= j < |rest| && rest[j] == y;
        assert extra[j + 1] == y;
      }
      assert head.0 in ExtrasBack(rest) ==> (head.0, ExtrasBack(rest)[head.0]) in rest;
    }
  }
}

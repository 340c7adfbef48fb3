/** The buffered stream object, over a transport that hands over input in chunks of any size and takes output in
    pieces of any size. The chunks to come, and what each send will do, are scripts. */
module Ios {
  import opened Wrappers
  import opened Text
  import opened Drains

  const LF: byte := 10
  const CR: byte := 13

  ghost function Concat(parts: seq<seq<byte>>): seq<byte> {
    if parts == [] then [] else parts[0] + Concat(parts[1..])
  }

  // ---------- Lines ----------

  /** Where the first of the given bytes is, from `i` on; the length if there is none. */
  function FindAny(s: seq<byte>, i: nat, wanted: set<byte>): (k: nat)
    requires i <= |s|
    ensures i <= k <= |s| && (k < |s| ==> s[k] in wanted)
    ensures forall j | i <= j < k :: s[j] !in wanted
    decreases |s| - i
  {
    if i == |s| || s[i] in wanted then i else FindAny(s, i + 1, wanted)
  }

  /** The first match of an optional CR and an LF, from `i` on: where it starts and where the LF is. */
  function FindEol(s: seq<byte>, i: nat): (r: Option<(nat, nat)>)
    requires i <= |s|
    decreases |s| - i
  {
    if i == |s| then None
    else if s[i] == CR && i + 1 < |s| && s[i + 1] == LF then Some((i, i + 1))
    else if s[i] == LF then Some((i, i))
    else FindEol(s, i + 1)
  }

  ghost function Chomp(s: seq<byte>): seq<byte> {
    if s != [] && s[|s| - 1] == CR then s[..|s| - 1] else s
  }

  ghost function LineEnd(s: seq<byte>): nat {
    FindAny(s, 0, {LF})
  }

  /** A stream as its lines: cut at every LF, with a CR before it dropped, and then what is after the last. */
  ghost function Lines(s: seq<byte>): seq<seq<byte>>
    decreases |s|
  {
    var k := LineEnd(s);
    if k == |s| then [s] else [Chomp(s[..k])] + Lines(s[k + 1..])
  }

  /** The stream put together again from pieces that each, but for the last, had an LF after it. */
  ghost function Joined(pieces: seq<seq<byte>>): seq<byte> {
    if pieces == [] then []
    else if |pieces| == 1 then pieces[0]
    else pieces[0] + [LF] + Joined(pieces[1..])
  }

  /** The lines are the pieces between the LFs, less a CR at the end of each but the last. */
  lemma {:induction false} LinesArePieces(s: seq<byte>) returns (pieces: seq<seq<byte>>)
    ensures Joined(pieces) == s && |pieces| == |Lines(s)| >= 1
    ensures forall p | p in pieces :: LF !in p
    ensures forall k | 0 <= k < |pieces| - 1 :: Lines(s)[k] == Chomp(pieces[k])
    ensures Lines(s)[|pieces| - 1] == pieces[|pieces| - 1]
    decreases |s|
  {
    hide LineEnd, Chomp, Lines;
    LinesStep(s);
    var k := LineEnd(s);
    if k == |s| {
      pieces := [s];
    } else {
      var rest := LinesArePieces(s[k + 1..]);
      pieces := [s[..k]] + rest;
      assert pieces[1..] == rest;
      var l, m := Lines(s), Lines(s[k + 1..]);
      forall i | 0 <= i < |pieces| - 1 ensures l[i] == Chomp(pieces[i]) {
        assert i > 0 ==> l[i] == m[i - 1] && pieces[i] == rest[i - 1];
      }
    }
  }

  lemma LinesStep(s: seq<byte>)
    ensures var k := LineEnd(s);
            if k == |s| then Lines(s) == [s] && LF !in s
            else k < |s| && LF !in s[..k] && s == s[..k] + [LF] + s[k + 1..]
                 && Lines(s) == [Chomp(s[..k])] + Lines(s[k + 1..])
  {
    LineEndIs(s);
    hide Chomp, LineEnd;
  }

  lemma LineEndIs(s: seq<byte>)
    ensures var k := LineEnd(s);
            if k == |s| then LF !in s
            else k < |s| && LF !in s[..k] && s == s[..k] + [LF] + s[k + 1..]
  {
    hide Lines;
    var k := LineEnd(s);
    assert forall j | 0 <= j < k :: s[j] != LF;
    assert k < |s| ==> s[k] == LF;
    hide LineEnd, FindAny;
  }

  lemma {:induction false} FindEolIsFirst(s: seq<byte>, i: nat)
    requires i <= |s|
    ensures match FindEol(s, i)
            case None => forall k | i <= k < |s| :: s[k] != LF
            case Some((b, k)) =>
              && i <= b <= k < |s| && s[k] == LF && (forall j | i <= j < k :: s[j] != LF)
              && b == if i < k && s[k - 1] == CR then k - 1 else k
    decreases |s| - i
  {
    if i < |s| && !(s[i] == CR && i + 1 < |s| && s[i + 1] == LF) && s[i] != LF {
      FindEolIsFirst(s, i + 1);
    }
  }

  ghost predicate Clean(s: seq<byte>, i: nat)
    requires i <= |s|
  {
    forall j | 0 <= j < i :: s[j] != LF && s[j] != CR
  }

  lemma CleanGrows(s: seq<byte>, more: seq<byte>, i: nat)
    requires i <= |s| && Clean(s, i)
    ensures Clean(s + more, i) && Clean(s, FindAny(s, i, {CR, LF}))
  {
  }

  lemma NoEol(s: seq<byte>, i: nat)
    requires i <= |s| && Clean(s, i) && FindEol(s, i).None?
    ensures LF !in s
  {
    FindEolIsFirst(s, i);
  }

  lemma AtEof(s: seq<byte>)
    requires LF !in s
    ensures LineEnd(s + Concat([])) == |s| && s + Concat([]) == s
  {
    assert s + Concat([]) == s;
  }

  /** A line end found past a stretch free of CR and LF is the stream's first. */
  lemma EolIsLineEnd(s: seq<byte>, more: seq<byte>, i: nat)
    requires i <= |s| && Clean(s, i) && FindEol(s, i).Some?
    ensures var (b, k) := FindEol(s, i).value;
            && b <= k < |s| && LineEnd(s + more) == k && s[..b] == Chomp((s + more)[..k])
            && (s + more)[k + 1..] == s[k + 1..] + more
  {
    FindEolIsFirst(s, i);
    var (b, k) := FindEol(s, i).value;
    var t := s + more;
    assert forall j | 0 <= j <= k :: t[j] == s[j];
    assert LineEnd(t) == k by {
      assert t[k] == LF;
    }
    assert t[..k] == s[..k];
  }

  datatype Mode = No | Line | Full

  class Ios {
    var readbuf: Option<seq<byte>>
    var rpos: nat                      // counts from 1
    var eof: bool
    var chunks: seq<seq<byte>>         // what the transport will still hand over

    var writebuf: seq<byte>
    var wsize: nat
    var mode: Mode
    var wbytes: nat
    var sends: seq<Send>               // what the socket will do
    ghost const script: seq<Send>      // all that it was to do
    ghost var wire: seq<byte>          // all that was sent
    ghost var accepted: seq<byte>      // all that was written
    ghost var drains: seq<Drained>     // all the drains, in order

    /** What the reader has not read. */
    ghost function Rest(): seq<byte>
      reads this
    {
      (if readbuf.Some? then readbuf.value else []) + Concat(chunks)
    }

    ghost predicate ReadValid()
      reads this
    {
      (eof ==> chunks == []) && (!eof ==> readbuf.Some? && rpos == 1)
    }

    /** Before rpos there is nothing a line could end with. */
    ghost predicate Scanned()
      reads this
    {
      if eof then chunks == []
      else readbuf.Some? && 1 <= rpos <= |readbuf.value| + 1 && Clean(readbuf.value, rpos - 1)
    }

    constructor (chunks: seq<seq<byte>>, sends: seq<Send>)
      ensures ReadValid() && WriteValid() && Rest() == Concat(chunks) && readbuf == Some([]) && this.chunks == chunks
      ensures wire == [] && accepted == [] && writebuf == [] && drains == [] && mode == Full && wsize == 4096
      ensures script == sends == this.sends && !eof
    {
      readbuf, rpos, eof := Some([]), 1, false;
      writebuf, wsize, mode, wbytes := [], 4096, Full, 0;
      this.chunks, this.sends, script := chunks, sends, sends;
      wire, accepted, drains := [], [], [];
    }

    method Refill() returns (data: Option<seq<byte>>)
      requires !eof && readbuf.Some?
      modifies this`readbuf, this`eof, this`chunks
      ensures readbuf.Some? && Rest() == old(Rest())
      ensures if old(chunks) == [] then eof && chunks == [] && readbuf == old(readbuf)
              else !eof && chunks == old(chunks)[1..] && readbuf.value == old(readbuf.value + chunks[0])
    {
      if chunks == [] {
        data := None;
        eof := true;
      } else {
        data := Some(chunks[0]);
        readbuf := Some(readbuf.value + chunks[0]);
        chunks := chunks[1..];
      }
    }

    /** The event handler of the socket notes that the connection is gone, between two reads. */
    method HangUp()
      requires ReadValid()
      modifies this`eof, this`chunks
      ensures ReadValid() && eof
    {
      eof := true;
      chunks := [];
    }

    method ReadLineFrom() returns (r: Option<seq<byte>>)
      requires Scanned()
      modifies this`readbuf, this`rpos, this`eof, this`chunks
      ensures ReadValid()
      ensures old(eof) ==> r == old(readbuf) && readbuf.None? && eof
      ensures !old(eof) ==>
                var s := old(Rest());
                if LineEnd(s) < |s|
                then r == Some(Chomp(s[..LineEnd(s)])) && Rest() == s[LineEnd(s) + 1..] && !eof
                else r == Some(s) && readbuf.None?
      decreases |chunks|, !eof
    {
      hide Concat, LineEnd, Chomp, FindEol, Clean;
      if eof {
        r := readbuf;
        readbuf := None;
        return;
      }
      var buf := readbuf.value;
      var s := FindAny(buf, rpos - 1, {CR, LF});
      CleanGrows(buf, [], rpos - 1);
      if s == |buf| {
        rpos := |buf| + 1;
        NoEolPast(buf);
        AtEof(buf);
        ghost var more := if chunks == [] then [] else chunks[0];
        CleanGrows(buf, more, |buf|);
        var _ := Refill();
        r := ReadLineFrom();
        return;
      }
      var e := FindEol(buf, s);
      if e.None? {
        NoEol(buf, s);
        AtEof(buf);
        ghost var more := if chunks == [] then [] else chunks[0];
        CleanGrows(buf, more, rpos - 1);
        var _ := Refill();
        r := ReadLineFrom();
        return;
      }
      EolIsLineEnd(buf, Concat(chunks), s);
      r := Some(buf[..e.value.0]);
      readbuf := Some(buf[e.value.1 + 1..]);
      rpos := 1;
    }

    /** read("*l"): what it gives depends on what is left of the stream, not on how it comes in; but once the end has
        been noted, it gives all that is buffered, lines or not. */
    method ReadLine() returns (r: Option<seq<byte>>)
      requires ReadValid()
      modifies this`readbuf, this`rpos, this`eof, this`chunks
      ensures ReadValid()
      ensures old(eof) ==> r == old(readbuf) && readbuf.None? && eof
      ensures !old(eof) ==>
                var s := old(Rest());
                if LineEnd(s) < |s|
                then r == Some(Chomp(s[..LineEnd(s)])) && Rest() == s[LineEnd(s) + 1..] && !eof
                else r == Some(s) && readbuf.None?
    {
      r := ReadLineFrom();
    }

    /** Reading lines until there are none gives the stream cut into lines, and then nothing more; or, once the end has
        been noted, what is buffered in one piece. */
    method ReadAllLines() returns (lines: seq<seq<byte>>)
      requires ReadValid() && readbuf.Some?
      modifies this`readbuf, this`rpos, this`eof, this`chunks
      ensures lines == if old(eof) then [old(readbuf.value)] else Lines(old(Rest()))
      ensures readbuf.None? && ReadValid()
    {
      hide LineEnd, Chomp, Concat, Lines;
      lines := [];
      ghost var all := if eof then [readbuf.value] else Lines(Rest());
      var line := Some([]);
      while line.Some?
        invariant ReadValid() && (line.None? ==> readbuf.None?)
        invariant if readbuf.None? then lines == all && eof
                  else if eof then lines == [] && all == [readbuf.value]
                  else lines + Lines(Rest()) == all
        decreases line.Some?, readbuf.Some?, |Rest()|
      {
        if !eof {
          LinesStep(Rest());
        }
        line := ReadLine();
        if line.Some? {
          lines := lines + [line.value];
        }
      }
    }

    method ReadBytesFrom(amount: nat) returns (r: Option<seq<byte>>)
      requires ReadValid()
      modifies this`readbuf, this`eof, this`chunks
      ensures ReadValid()
      ensures var s := old(Rest());
              var n := if amount <= |s| then amount else |s|;
              if s != [] || (amount == 0 && !old(eof))
              then r == Some(s[..n]) && readbuf.Some? && Rest() == s[n..]
              else r == None && readbuf.None?
      decreases |chunks|, !eof
    {
      hide Concat;
      NoChunks();
      if eof {
        if readbuf.None? || |readbuf.value| == 0 {
          readbuf := None;
          return None;
        }
      }
      var buf := readbuf.value;
      if |buf| >= amount {
        readbuf := Some(buf[amount..]);
        assert old(Rest())[..amount] == buf[..amount] && old(Rest())[amount..] == Rest();
        return Some(buf[..amount]);
      }
      if eof {
        readbuf := Some([]);
        return Some(buf);
      }
      var _ := Refill();
      r := ReadBytesFrom(amount);
    }

    /** read(n): the next n bytes, or what there is; nothing at the end of the stream. */
    method ReadBytes(amount: nat) returns (r: Option<seq<byte>>)
      requires ReadValid()
      modifies this`readbuf, this`eof, this`chunks
      ensures ReadValid()
      ensures var s := old(Rest());
              var n := if amount <= |s| then amount else |s|;
              if s != [] || (amount == 0 && !old(eof))
              then r == Some(s[..n]) && readbuf.Some? && Rest() == s[n..]
              else r == None && readbuf.None?
    {
      r := ReadBytesFrom(amount);
    }

    // ---------- Writing ----------

    /** What is on the wire is what the drains have made of all that was written, and what is buffered is the part
        they have not got to; the drains are what the socket's script makes of them. */
    ghost predicate WriteValid()
      reads this
    {
      && wbytes == |wire| && Fits(drains, |accepted|)
      && wire == Out(drains, accepted) && writebuf == accepted[Taken(drains)..]
      && Faithful(script, drains) && sends == Left(script, drains)
    }

    /** No size of the buffer for which the loop of full buffering would not end. */
    ghost predicate Sized()
      reads this
    {
      mode == No || 0 < wsize
    }

    /** The drains since `before` have all worked, and the stream and what is buffered are as they were to be; or
        else the last of them has failed, and only it. */
    ghost predicate Went(before: seq<Drained>, stream: seq<byte>, okay: bool)
      reads this
    {
      && before <= drains && Worked(drains[|before|..], okay)
      && if okay then Wasted(drains) == Wasted(before) && wire + writebuf == stream
         else Wasted(drains) == Wasted(before) + drains[|drains| - 1].sent
    }

    /** What a successful write leaves in the buffer. */
    ghost predicate Bounded()
      reads this
    {
      match mode
      case No => writebuf == []
      case Line => |writebuf| < wsize && LF !in writebuf
      case Full => |writebuf| < wsize
    }

    /** The socket takes the data piece by piece. If it fails part way, what it took is gone all the same. */
    method Drain(data: seq<byte>) returns (okay: bool, ghost n: nat)
      modifies this`wbytes, this`sends, this`wire
      ensures (Drained(|data|, n, okay), sends) == Sending(old(sends), |data|)
      ensures n <= |data| && wire == old(wire) + data[..n] && wbytes == old(wbytes) + n
      decreases |sends|
    {
      if sends == [] || sends[0].Error? {
        sends := if sends == [] then [] else sends[1..];
        return false, 0;
      }
      var bytes := if sends[0].bytes <= |data| then sends[0].bytes else |data|;
      sends := sends[1..];
      wire := wire + data[..bytes];
      wbytes := wbytes + bytes;
      if bytes < |data| {
        ghost var m;
        okay, m := Drain(data[bytes..]);
        n := bytes + m;
        assert data[..bytes] + data[bytes..][..m] == data[..n];
        return;
      }
      return true, bytes;
    }

    /** Drains the first `k` buffered bytes, and drops them from the buffer if that works. */
    method DrainFront(k: nat) returns (okay: bool)
      requires WriteValid() && k <= |writebuf|
      modifies this`wbytes, this`sends, this`wire, this`writebuf, this`drains
      ensures WriteValid() && old(wire) <= wire
      ensures drains == old(drains) + [Sending(old(sends), k).0] && okay == Sending(old(sends), k).0.okay
      ensures writebuf == if okay then old(writebuf)[k..] else old(writebuf)
      ensures Went(old(drains), old(wire + writebuf), okay)
    {
      hide Sending, Fits, Taken, Wasted, Out, Faithful, Left;
      ghost var t := Taken(drains);
      ghost var n;
      okay, n := Drain(writebuf[..k]);
      ghost var d := Drained(k, n, okay);
      OneMore(script, drains, d, accepted);
      assert writebuf[..k][..n] == accepted[t..t + n];
      assert (drains + [d])[|drains|..] == [d];
      drains := drains + [d];
      if okay {
        assert wire + writebuf[k..] == old(wire + writebuf);
        assert accepted[t..][k..] == accepted[t + k..];
        writebuf := writebuf[k..];
      }
    }

    method ModeNo() returns (okay: bool)
      requires WriteValid()
      modifies this`wbytes, this`sends, this`wire, this`writebuf, this`drains
      ensures WriteValid() && old(wire) <= wire
      ensures Went(old(drains), old(wire + writebuf), okay)
      ensures drains == old(drains) + [Sending(old(sends), old(|writebuf|)).0]
      ensures okay ==> writebuf == []
    {
      hide Sending, Fits, Taken, Wasted, Out, Faithful, Left;
      okay := DrainFront(|writebuf|);
    }

    method ModeFull() returns (okay: bool)
      requires WriteValid() && 0 < wsize
      modifies this`wbytes, this`sends, this`wire, this`writebuf, this`drains
      ensures WriteValid() && old(wire) <= wire
      ensures Went(old(drains), old(wire + writebuf), okay)
      ensures FullBy(old(writebuf), drains[|old(drains)|..], wsize)
      ensures |old(writebuf)| < wsize ==> okay && drains == old(drains) && writebuf == old(writebuf)
      ensures okay ==> |writebuf| < wsize && exists k | 0 <= k <= |old(writebuf)| :: writebuf == old(writebuf)[k..]
    {
      hide WriteValid, Sending, Wasted, Worked;
      ghost var k: nat := 0;
      NoneYet(drains);
      while |writebuf| >= wsize
        invariant WriteValid() && old(wire) <= wire
        invariant k <= |old(writebuf)| && writebuf == old(writebuf)[k..]
        invariant Went(old(drains), old(wire + writebuf), true) && Only(drains[|old(drains)|..], wsize)
        invariant |old(writebuf)| < wsize ==> drains == old(drains) && k == 0
        decreases |writebuf|
      {
        ghost var before := drains;
        var drained := DrainFront(wsize);
        OnceMore(old(drains), before, drains, drained);
        OneMoreOnly(old(drains), before, drains, wsize);
        if !drained {
          return false;
        }
        k := k + wsize;
      }
      return true;
    }

    method ModeLine() returns (okay: bool)
      requires WriteValid() && 0 < wsize
      modifies this`wbytes, this`sends, this`wire, this`writebuf, this`drains
      ensures WriteValid() && old(wire) <= wire
      ensures Went(old(drains), old(wire + writebuf), okay)
      ensures okay ==> LF !in writebuf && |writebuf| < wsize
      ensures LinedBy(old(writebuf), drains[|old(drains)|..], wsize)
      ensures okay ==> KeepsRest(old(writebuf), writebuf, wsize)
    {
      hide WriteValid, Sending, Wasted, Worked, LinesTo, LinedUp, LinedBy, FullBy, IsRest, KeepsRest, Only;
      NoneYet(drains);
      ghost var buf, j: nat := writebuf, 0;
      NoLines(buf);
      while true
        invariant WriteValid() && old(wire) <= wire
        invariant Went(old(drains), old(wire + writebuf), true)
        invariant j <= |buf| && writebuf == buf[j..] && LinesTo(buf, drains[|old(drains)|..], j)
        decreases |writebuf|
      {
        ghost var before := drains;
        ghost var lines := before[|old(drains)|..];
        var nl := FindAny(writebuf, 0, {LF});
        if nl == |writebuf| {
          assert LF !in writebuf;
          okay := ModeFull();
          OnceMore(old(drains), before, drains, okay);
          assert drains[|old(drains)|..] == lines + drains[|before|..];
          RestFull(buf, lines, drains[|before|..], j, wsize);
          return;
        }
        var drained := DrainFront(nl + 1);
        OnceMore(old(drains), before, drains, drained);
        assert drains[|old(drains)|..] == lines + [drains[|before|]];
        OneLine(buf, lines, drains[|before|], j, nl, wsize);
        if !drained {
          return false;
        }
        j := j + nl + 1;
      }
    }

    /** The arguments of write, one after the other, go into the buffer. */
    method Take(data: seq<seq<byte>>)
      requires WriteValid()
      modifies this`writebuf, this`accepted
      ensures WriteValid() && accepted == old(accepted) + Concat(data)
      ensures wire + writebuf == old(wire + writebuf) + Concat(data) && writebuf == old(writebuf) + Concat(data)
    {
      hide Fits, Taken, Out, Faithful, Left;
      var i := 0;
      assert data[0..] == data;
      while i < |data|
        invariant i <= |data| && WriteValid()
        invariant accepted + Concat(data[i..]) == old(accepted) + Concat(data)
        invariant wire + writebuf + Concat(data[i..]) == old(wire + writebuf) + Concat(data)
        invariant writebuf + Concat(data[i..]) == old(writebuf) + Concat(data)
      {
        assert data[i..][1..] == data[i + 1..];
        OutGrows(drains, accepted, data[i]);
        TakenWithin(drains, accepted);
        writebuf := writebuf + data[i];
        accepted := accepted + data[i];
        i := i + 1;
      }
    }

    method Write(data: seq<seq<byte>>) returns (okay: bool)
      requires WriteValid() && Sized()
      modifies this`wbytes, this`sends, this`wire, this`writebuf, this`drains, this`accepted
      ensures WriteValid() && old(wire) <= wire
      ensures accepted == if eof then old(accepted) else old(accepted) + Concat(data)
      ensures if eof then !okay && drains == old(drains) && wire == old(wire)
              else Went(old(drains), old(wire + writebuf) + Concat(data), okay)
      ensures eof ==> writebuf == old(writebuf) && sends == old(sends)
      ensures okay ==> Bounded()
      ensures !eof && mode == No ==>
                drains == old(drains) + [Sending(old(sends), old(|writebuf|) + |Concat(data)|).0]
      ensures !eof ==> Drainage(mode, wsize, old(writebuf) + Concat(data), old(sends), drains[|old(drains)|..])
      ensures !eof && mode == Full ==>
                if old(|writebuf|) + |Concat(data)| < wsize
                then okay && drains == old(drains) && writebuf == old(writebuf) + Concat(data)
                else Only(drains[|old(drains)|..], wsize)
      ensures okay && mode == Line ==> KeepsRest(old(writebuf) + Concat(data), writebuf, wsize)
    {
      hide WriteValid, Went, Concat, Sending, Only, LinedBy, IsRest, KeepsRest;
      if eof {
        return false;
      }
      Take(data);
      match mode
      case No => okay := ModeNo();
      case Line => okay := ModeLine();
      case Full => okay := ModeFull();
    }

    method Flush() returns (okay: bool)
      requires WriteValid()
      modifies this`wbytes, this`sends, this`wire, this`writebuf, this`drains
      ensures WriteValid() && old(wire) <= wire
      ensures Went(old(drains), old(wire + writebuf), okay)
      ensures drains == old(drains)
              + if old(writebuf) == [] then [] else [Sending(old(sends), old(|writebuf|)).0]
      ensures writebuf == if okay then [] else old(writebuf)
    {
      hide WriteValid, Sending, Wasted, Worked;
      NoneYet(drains);
      if |writebuf| > 0 {
        okay := DrainFront(|writebuf|);
        return;
      }
      return true;
    }

    method SetVBuf(mode: Mode, size: Option<int>)
      modifies this`mode, this`wsize
      ensures this.mode == mode && WriteValid() == old(WriteValid())
      ensures wsize == match size case None => 4096 case Some(n) => if n < 0 then 0 else n
    {
      this.mode := mode;
      wsize := match size case None => 4096 case Some(n) => if n < 0 then 0 else n;
    }

    method Perform(c: Call) returns (okay: bool)
      requires WriteValid() && Sized() && c.Sized()
      modifies this`wbytes, this`sends, this`wire, this`writebuf, this`drains, this`accepted, this`mode, this`wsize
      ensures WriteValid() && Sized() && old(wire) <= wire
      ensures accepted == if eof then old(accepted) else old(accepted) + Given(c)
      ensures old(drains) <= drains
      ensures Worked(drains[|old(drains)|..], okay) || (eof && c.Writing? && !okay && drains == old(drains))
      ensures mode == if c.Buffering? then c.mode else old(mode)
      ensures okay && c.Writing? ==> Bounded()
      ensures okay && c.Flushing? ==> writebuf == []
      ensures Does(c, eof, old(Writer()), Writer(), okay)
    {
      hide WriteValid, Concat, Worked, Wasted, Drainage, Sending, Bounded, Taken, Does, Fits, FullBy, KeepsRest, Only;
      NoneYet(drains);
      ghost var now, stream := Writer(), accepted;
      match c
      case Writing(data) =>
        HasTaken();
        okay := Write(data);
        HasTaken();
        WriteDoes(data, eof, now, Writer(), okay, stream);
      case Flushing =>
        okay := Flush();
        FlushDoes(eof, now, Writer(), okay);
      case Buffering(mode, size) =>
        SetVBuf(mode, size);
        okay := true;
        BufferDoes(mode, size, eof, now, Writer());
    }

    ghost function Writer(): Writer
      reads this
    {
      Buffered(mode, wsize, writebuf, sends, drains)
    }

    lemma HasTaken()
      requires WriteValid()
      ensures Fits(drains, |accepted|) && Taken(drains) <= |accepted| && writebuf == accepted[Taken(drains)..]
    {
      TakenWithin(drains, accepted);
    }

    /** Any run of calls that sets no empty buffer where it would be filled. What is sent, followed by what is
        buffered, is all that was written, exactly if no drain failed that had sent part of its data. The calls tell
        which drains failed, and with no error in what was used of the socket's script none did. */
    method Run(calls: seq<Call>) returns (okays: seq<bool>, ghost trail: seq<Writer>)
      requires WriteValid() && Sized() && forall c | c in calls :: c.Sized()
      modifies this`wbytes, this`sends, this`wire, this`writebuf, this`drains, this`accepted, this`mode, this`wsize
      ensures WriteValid() && Sized() && old(wire) <= wire && old(drains) <= drains
      ensures accepted == if eof then old(accepted) else old(accepted) + Written(calls)
      ensures wire + writebuf == accepted <==> forall d | d in drains :: d.okay || d.sent == 0
      ensures Later(script, sends) && (Smooth(script, sends) ==> wire + writebuf == accepted)
      ensures |okays| == |calls|
      ensures !eof ==> (AllTrue(okays) <==> AllGood(drains[|old(drains)|..]))
      ensures calls != [] && okays[|calls| - 1] ==> match calls[|calls| - 1]
                                                    case Writing(_) => Bounded()
                                                    case Flushing => writebuf == []
                                                    case Buffering(m, _) => mode == m
      ensures |trail| == |calls| + 1 && trail[0] == old(Writer()) && trail[|calls|] == Writer()
      ensures Trail(calls, eof, trail, okays)
    {
      hide Given, WriteValid, Worked, Concat, AllGood, AllTrue, Bounded, Does, Trail;
      trail := [Writer()];
      NoTrail(eof, Writer());
      GoodSoFar(drains, drains, drains, true);
      assert calls[..0] == [] && drains[|drains|..] == [];
      okays := [];
      TrueSoFar([], true);
      for k := 0 to |calls|
        invariant WriteValid() && Sized() && old(wire) <= wire && old(drains) <= drains
        invariant accepted == if eof then old(accepted) else old(accepted) + Written(calls[..k])
        invariant |okays| == k && |trail| == k + 1 && trail[0] == old(Writer()) && trail[k] == Writer()
        invariant Trail(calls[..k], eof, trail, okays)
        invariant !eof ==> (AllTrue(okays) <==> AllGood(drains[|old(drains)|..]))
        invariant k > 0 && okays[k - 1] ==> match calls[k - 1]
                                            case Writing(_) => Bounded()
                                            case Flushing => writebuf == []
                                            case Buffering(m, _) => mode == m
      {
        assert calls[k] in calls && calls[..k + 1][..k] == calls[..k];
        ghost var before := drains;
        var okay := Perform(calls[k]);
        GoodSoFar(old(drains), before, drains, okay);
        TrueSoFar(okays, okay);
        TrailOn(calls, k, eof, trail, okays, Writer(), okay);
        okays, trail := okays + [okay], trail + [Writer()];
      }
      assert calls[..|calls|] == calls;
      WholeOrWasted();
    }

    lemma WholeOrWasted()
      requires WriteValid()
      ensures wire + writebuf == accepted <==> forall d | d in drains :: d.okay || d.sent == 0
      ensures Later(script, sends) && (Smooth(script, sends) ==> wire + writebuf == accepted)
    {
      hide Fits, Taken, Out, Faithful, Left, Smooth, Later;
      WholeUnlessWasted(drains, accepted);
      AllWorked(script, drains);
    }
  }

  ghost predicate AllGood(drains: seq<Drained>) {
    forall d | d in drains :: d.okay
  }

  /** All of the drains have worked; or the last of them has failed, and only it. */
  ghost predicate Worked(drains: seq<Drained>, okay: bool) {
    if okay then AllGood(drains)
    else drains != [] && !drains[|drains| - 1].okay && AllGood(drains[..|drains| - 1])
  }

  lemma NoneYet(drains: seq<Drained>)
    ensures drains[|drains|..] == [] && Worked([], true)
  {
  }

  // ---------- Which drains a mode makes ----------

  /** The line, if there is one, that the buffer ends in without its LF starts at `k`. */
  ghost predicate IsRest(buf: seq<byte>, k: nat) {
    k <= |buf| && (k == 0 || buf[k - 1] == LF) && LF !in buf[k..]
  }

  /** That line is what is left of the buffer, if it is less than a full one. */
  ghost predicate KeepsRest(buf: seq<byte>, left: seq<byte>, wsize: nat) {
    forall k: nat | IsRest(buf, k) && |buf| - k < wsize :: left == buf[k..]
  }

  /** A line with its LF from `i` to `j`. */
  ghost predicate IsLine(buf: seq<byte>, i: int, j: nat) {
    0 <= i < j <= |buf| && buf[j - 1] == LF && LF !in buf[i..j - 1]
  }

  /** Drains that all worked and sent the lines of the buffer up to `j`, one by one. */
  ghost predicate LinesTo(buf: seq<byte>, drains: seq<Drained>, j: nat) {
    if drains == [] then j == 0
    else
      var d := drains[|drains| - 1];
      d.okay && IsLine(buf, j - d.len, j) && LinesTo(buf, drains[..|drains| - 1], j - d.len)
  }

  /** Drains of one buffer each, and none if there is less than that. */
  ghost predicate FullBy(buf: seq<byte>, drains: seq<Drained>, wsize: nat) {
    if |buf| < wsize then drains == [] else Only(drains, wsize)
  }

  ghost predicate LinedUp(buf: seq<byte>, drains: seq<Drained>, wsize: nat, n: nat, j: nat) {
    && n <= |drains| && j <= |buf| && LinesTo(buf, drains[..n], j)
    && if LF in buf[j..]
       then |drains| == n + 1 && !drains[n].okay && IsLine(buf, j, j + drains[n].len)
       else FullBy(buf[j..], drains[n..], wsize)
  }

  /** Drains of one line each, and of one buffer each past the last; or up to the first line whose drain fails. */
  ghost predicate LinedBy(buf: seq<byte>, drains: seq<Drained>, wsize: nat) {
    exists n, j :: LinedUp(buf, drains, wsize, n, j)
  }

  /** The drains by which each mode is to get rid of what is buffered. */
  ghost predicate Drainage(mode: Mode, wsize: nat, buf: seq<byte>, sends: seq<Send>, drains: seq<Drained>) {
    match mode
    case No => drains == [Sending(sends, |buf|).0]
    case Line => LinedBy(buf, drains, wsize)
    case Full => FullBy(buf, drains, wsize)
  }

  // A stream as its writer sees it.
  datatype Writer = Buffered(mode: Mode, wsize: nat, buf: seq<byte>, sends: seq<Send>, drains: seq<Drained>)

  /** What a call does: the drains it makes, whether it succeeds, and what is buffered after it, which is what there was
      to send less what the drains that worked have sent. */
  ghost predicate Does(c: Call, eof: bool, s: Writer, t: Writer, okay: bool) {
    s.drains <= t.drains &&
    var more := t.drains[|s.drains|..];
    match c
    case Writing(data) =>
      if eof then t == s && !okay
      else
        var buf, sent := s.buf + Concat(data), Taken(t.drains) - Taken(s.drains);
        && t.mode == s.mode && t.wsize == s.wsize
        && Drainage(s.mode, s.wsize, buf, s.sends, more) && Worked(more, okay)
        && 0 <= sent <= |buf| && t.buf == buf[sent..]
    case Flushing =>
      && t.mode == s.mode && t.wsize == s.wsize
      && more == (if s.buf == [] then [] else [Sending(s.sends, |s.buf|).0]) && Worked(more, okay)
      && t.buf == if okay then [] else s.buf
    case Buffering(mode, size) =>
      && okay && more == [] && t.mode == mode && t.buf == s.buf && t.sends == s.sends
      && t.wsize == match size case None => 4096 case Some(n) => if n < 0 then 0 else n
  }

  lemma {:induction false} TakenGrows(drains: seq<Drained>, more: seq<Drained>)
    ensures Taken(drains) <= Taken(drains + more)
  {
    if more == [] {
      assert drains + more == drains;
    } else {
      assert (drains + more)[..|drains + more| - 1] == drains + more[..|more| - 1];
      TakenGrows(drains, more[..|more| - 1]);
    }
  }

  lemma BufferMoves(stream: seq<byte>, data: seq<byte>, before: seq<Drained>, after: seq<Drained>)
    requires Taken(before) <= |stream| && before <= after && Taken(after) <= |stream + data|
    ensures var buf, sent := stream[Taken(before)..] + data, Taken(after) - Taken(before);
            0 <= sent <= |buf| && (stream + data)[Taken(after)..] == buf[sent..]
  {
    hide Taken;
    TakenGrows(before, after[|before|..]);
    assert before + after[|before|..] == after;
  }

  /** Each call does what it should, in turn. */
  ghost predicate Trail(calls: seq<Call>, eof: bool, trail: seq<Writer>, okays: seq<bool>) {
    && |trail| == |calls| + 1 && |okays| == |calls|
    && forall k | 0 <= k < |calls| :: Does(calls[k], eof, trail[k], trail[k + 1], okays[k])
  }

  lemma NoTrail(eof: bool, s: Writer)
    ensures Trail([], eof, [s], [])
  {
  }

  lemma TrailOn(calls: seq<Call>, k: nat, eof: bool, trail: seq<Writer>, okays: seq<bool>, t: Writer, okay: bool)
    requires k < |calls| && Trail(calls[..k], eof, trail, okays) && Does(calls[k], eof, trail[k], t, okay)
    ensures Trail(calls[..k + 1], eof, trail + [t], okays + [okay])
  {
    hide Does;
  }

  lemma WriteDoes(data: seq<seq<byte>>, eof: bool, s: Writer, t: Writer, okay: bool, stream: seq<byte>)
    requires s.drains <= t.drains && t.mode == s.mode && t.wsize == s.wsize
    requires Taken(s.drains) <= |stream| && s.buf == stream[Taken(s.drains)..]
    requires eof ==> t == s && !okay
    requires !eof ==> Taken(t.drains) <= |stream + Concat(data)| && t.buf == (stream + Concat(data))[Taken(t.drains)..]
    requires !eof ==> Drainage(s.mode, s.wsize, s.buf + Concat(data), s.sends, t.drains[|s.drains|..])
    requires !eof ==> Worked(t.drains[|s.drains|..], okay)
    ensures Does(Writing(data), eof, s, t, okay)
  {
    hide Drainage, Worked, Taken, Concat;
    if !eof {
      BufferMoves(stream, Concat(data), s.drains, t.drains);
    }
  }

  lemma FlushDoes(eof: bool, s: Writer, t: Writer, okay: bool)
    requires t.mode == s.mode && t.wsize == s.wsize && t.buf == (if okay then [] else s.buf)
    requires t.drains == s.drains + if s.buf == [] then [] else [Sending(s.sends, |s.buf|).0]
    requires Worked(t.drains[|s.drains|..], okay)
    ensures Does(Flushing, eof, s, t, okay)
  {
    hide Worked, Sending;
  }

  lemma BufferDoes(mode: Mode, size: Option<int>, eof: bool, s: Writer, t: Writer)
    requires t == Buffered(mode, match size case None => 4096 case Some(n) => if n < 0 then 0 else n, s.buf, s.sends,
                           s.drains)
    ensures Does(Buffering(mode, size), eof, s, t, true)
  {
  }

  lemma NoLines(buf: seq<byte>)
    ensures LinesTo(buf, [], 0) && buf[0..] == buf
  {
  }

  lemma OneLine(buf: seq<byte>, lines: seq<Drained>, d: Drained, j: nat, nl: nat, wsize: nat)
    requires j + nl < |buf| && LinesTo(buf, lines, j) && d.len == nl + 1
    requires buf[j..][nl] == LF && forall k | 0 <= k < nl :: buf[j..][k] != LF
    ensures d.okay ==> LinesTo(buf, lines + [d], j + nl + 1) && buf[j..][nl + 1..] == buf[j + nl + 1..]
    ensures !d.okay ==> LinedBy(buf, lines + [d], wsize)
  {
    assert (lines + [d])[..|lines|] == lines;
    assert buf[j + nl] == buf[j..][nl];
    forall k | j <= k < j + nl ensures buf[k] != LF {
      assert buf[k] == buf[j..][k - j];
    }
    assert IsLine(buf, j, j + nl + 1);
    if !d.okay {
      assert LinedUp(buf, lines + [d], wsize, |lines|, j);
    }
  }

  lemma RestFull(buf: seq<byte>, lines: seq<Drained>, more: seq<Drained>, j: nat, wsize: nat)
    requires j <= |buf| && LinesTo(buf, lines, j) && LF !in buf[j..] && FullBy(buf[j..], more, wsize)
    ensures LinedBy(buf, lines + more, wsize)
    ensures forall left | |buf| - j < wsize ==> left == buf[j..] :: KeepsRest(buf, left, wsize)
  {
    assert (lines + more)[..|lines|] == lines && (lines + more)[|lines|..] == more;
    assert LinedUp(buf, lines + more, wsize, |lines|, j);
    assert j == 0 || buf[j - 1] == LF;
    NoneFrom(buf, j);
    forall k: nat | IsRest(buf, k) ensures k == j {
      NoneFrom(buf, k);
    }
  }

  lemma NoneFrom(buf: seq<byte>, j: nat)
    requires j <= |buf| && LF !in buf[j..]
    ensures forall i | j <= i < |buf| :: buf[i] != LF
  {
    forall i | j <= i < |buf| ensures buf[i] != LF {
      assert buf[i] == buf[j..][i - j];
    }
  }

  /** All of the drains were to send so many bytes. */
  ghost predicate Only(drains: seq<Drained>, len: nat) {
    forall d | d in drains :: d.len == len
  }

  lemma OneMoreOnly(start: seq<Drained>, before: seq<Drained>, after: seq<Drained>, len: nat)
    requires start <= before <= after && |after| == |before| + 1 && after[|before|].len == len
             && Only(before[|start|..], len)
    ensures Only(after[|start|..], len)
  {
    assert after[|start|..] == before[|start|..] + [after[|before|]];
  }

  lemma OnceMore(start: seq<Drained>, before: seq<Drained>, after: seq<Drained>, okay: bool)
    requires start <= before <= after && Worked(before[|start|..], true) && Worked(after[|before|..], okay)
    ensures Worked(after[|start|..], okay)
  {
    var some, more := before[|start|..], after[|before|..];
    assert after[|start|..] == some + more;
    assert more != [] ==> (some + more)[..|some + more| - 1] == some + more[..|more| - 1];
  }

  lemma GoodSoFar(start: seq<Drained>, before: seq<Drained>, after: seq<Drained>, okay: bool)
    requires start <= before <= after
    ensures Worked(after[|before|..], okay)
            ==> (AllGood(after[|start|..]) <==> AllGood(before[|start|..]) && okay)
    ensures AllGood([])
  {
    var some, more := before[|start|..], after[|before|..];
    assert after[|start|..] == some + more;
    assert !okay && Worked(more, okay) ==> more[|more| - 1] in some + more;
    assert forall d | d in some :: d in some + more;
    assert forall d | d in more :: d in some + more;
  }

  ghost predicate AllTrue(okays: seq<bool>) {
    forall ok | ok in okays :: ok
  }

  lemma TrueSoFar(okays: seq<bool>, okay: bool)
    ensures AllTrue(okays + [okay]) <==> AllTrue(okays) && okay
    ensures AllTrue([])
  {
    assert okay in okays + [okay];
    assert forall ok | ok in okays :: ok in okays + [okay];
  }

  lemma TakenWithin(drains: seq<Drained>, stream: seq<byte>)
    requires Fits(drains, |stream|)
    ensures Taken(drains) <= |stream|
  {
    var _ := Out(drains, stream);
  }

  datatype Call = Writing(data: seq<seq<byte>>) | Flushing | Buffering(mode: Mode, size: Option<int>) {
    /** Sets no empty buffer, but where nothing is buffered. */
    predicate Sized() {
      Buffering? ==> mode == No || size.None? || 0 < size.value
    }
  }

  ghost function Written(calls: seq<Call>): seq<byte> {
    if calls == [] then []
    else
      Written(calls[..|calls| - 1]) + Given(calls[|calls| - 1])
  }

  ghost function Given(c: Call): seq<byte> {
    if c.Writing? then Concat(c.data) else []
  }

  lemma NoChunks()
    ensures Concat([]) == []
  {
  }

  lemma NoEolPast(s: seq<byte>)
    requires Clean(s, |s|)
    ensures LF !in s
  {
  }
}

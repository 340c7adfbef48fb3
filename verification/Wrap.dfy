/** Text wrapping: a single pass over the bytes that goes back to the last place a line may break,
    against a reference that finds the overflow first and then looks back for the break. */
module Wrap {
  import opened Wrappers
  import opened Text

  predicate Counted(c: Class) {
    c == Char || c == Space || c == Hyphen
  }

  /** How many character cells a run of glyphs takes up. */
  ghost function Width(gs: seq<Glyph>): nat {
    if gs == [] then 0
    else Width(gs[..|gs| - 1]) + if Counted(gs[|gs| - 1].cls) then 1 else 0
  }

  // A line ends before glyph `end`; the next one starts at glyph `next`. What is between them is dropped.
  datatype Cut = Cut(end: nat, next: nat)

  /** The line from `f` cannot take in glyph `p`. */
  ghost predicate Over(gs: seq<Glyph>, f: nat, p: nat, margin: nat)
    requires f <= p < |gs|
  {
    gs[p].cls == Reset || margin < Width(gs[f..p + 1])
  }

  ghost function FirstOver(gs: seq<Glyph>, f: nat, p: nat, margin: nat): (r: nat)
    requires f <= p <= |gs|
    ensures p <= r <= |gs| && (r < |gs| ==> Over(gs, f, r, margin))
    ensures forall q | p <= q < r :: !Over(gs, f, q, margin)
    decreases |gs| - p
  {
    if p == |gs| || Over(gs, f, p, margin) then p else FirstOver(gs, f, p + 1, margin)
  }

  /** How glyph `q` lets the line from `f` break. A space or a forced break vanishes into the gap; a hyphen stays at
      the end of its line if there is room for it, and is dropped if it falls just past the margin. */
  ghost function CutAt(gs: seq<Glyph>, f: nat, q: nat, margin: nat): Option<Cut>
    requires f <= q < |gs|
  {
    match gs[q].cls
    case Space | Reset => Some(Cut(q, q + 1))
    case Shy => if Width(gs[f..q]) < margin then Some(Cut(q + 1, q + 1)) else None
    case Hyphen =>
      if Width(gs[f..q]) < margin then Some(Cut(q + 1, q + 1))
      else if Width(gs[f..q]) == margin then Some(Cut(q, q + 1))
      else None
    case _ => None
  }

  /** The last way to break among the glyphs from `f` up to but not including `p`. */
  ghost function LastCut(gs: seq<Glyph>, f: nat, p: nat, margin: nat): (r: Option<Cut>)
    requires f <= p <= |gs|
    ensures r.Some? ==> f <= r.value.end <= r.value.next <= p && f < r.value.next
  {
    if p == f then None
    else if CutAt(gs, f, p - 1, margin).Some? then CutAt(gs, f, p - 1, margin)
    else LastCut(gs, f, p - 1, margin)
  }

  /** Whether wrapping comes to an end: without a margin, a character that no line can be broken at is not got past. */
  ghost predicate Ends(gs: seq<Glyph>, margin: nat) {
    1 <= margin || forall g | g in gs :: g.cls != Char
  }

  lemma {:induction false} NoWidth(gs: seq<Glyph>, f: nat, p: nat)
    requires f <= p <= |gs| && Ends(gs, 0) && LastCut(gs, f, p, 0).None?
    ensures Width(gs[f..p]) == 0
  {
    if f < p {
      NoWidth(gs, f, p - 1);
      assert gs[p - 1] in gs && gs[f..p][..p - 1 - f] == gs[f..p - 1];
    }
  }

  lemma OneFits(gs: seq<Glyph>, f: nat, margin: nat)
    requires f < |gs| && 1 <= margin
    ensures Over(gs, f, f, margin) <==> gs[f].cls == Reset
  {
    assert gs[f..f + 1] == [gs[f]];
    assert Width([gs[f]]) <= 1;
  }

  lemma BreaksSomewhere(gs: seq<Glyph>, f: nat, p: nat, margin: nat)
    requires f <= p < |gs| && Over(gs, f, p, margin) && Ends(gs, margin) && LastCut(gs, f, p + 1, margin).None?
    ensures f < p
  {
    if margin == 0 {
      NoWidth(gs, f, p + 1);
    } else {
      OneFits(gs, f, margin);
    }
  }

  /** Where the line from `f` breaks, given that it overflows at `p`. */
  ghost function Break(gs: seq<Glyph>, f: nat, p: nat, margin: nat): (c: Cut)
    requires f <= p < |gs| && Over(gs, f, p, margin) && Ends(gs, margin)
    ensures f <= c.end <= c.next <= |gs| && f < c.next
  {
    match LastCut(gs, f, p + 1, margin)
    case Some(cut) => cut
    case None =>
      assert CutAt(gs, f, p, margin).None?;
      BreaksSomewhere(gs, f, p, margin);
      Cut(p, p)
  }

  /** The lines of the text from glyph `f` on. */
  ghost function Lines(gs: seq<Glyph>, f: nat, margin: nat): seq<Cut>
    requires f <= |gs| && Ends(gs, margin)
    decreases |gs| - f
  {
    var p := FirstOver(gs, f, f, margin);
    if p == |gs| then [Cut(|gs|, |gs|)]
    else
      var c := Break(gs, f, p, margin);
      [c] + Lines(gs, c.next, margin)
  }

  /** A run of glyphs as printed: no soft hyphen shows but one that ends the run. */
  ghost function Shown(gs: seq<Glyph>): seq<Glyph> {
    if gs == [] then []
    else (if gs[0].cls == Shy && |gs| > 1 then [] else [gs[0]]) + Shown(gs[1..])
  }

  ghost function Render(gs: seq<Glyph>, f: nat, cuts: seq<Cut>): seq<seq<byte>>
    decreases |cuts|
  {
    if cuts == [] || !(f <= cuts[0].end <= |gs|) then []
    else [Bytes(Shown(gs[f..cuts[0].end]))] + Render(gs, cuts[0].next, cuts[1..])
  }

  lemma NothingShown()
    ensures Bytes(Shown([])) == []
  {
  }

  lemma ShownStep(gs: seq<Glyph>)
    requires gs != [] && AllProper(gs)
    ensures Bytes(Shown(gs)) == (if gs[0].cls == Shy && |gs| > 1 then [] else gs[0].bytes) + Bytes(Shown(gs[1..]))
  {
    hide CharsMatch;
    var rest := Shown(gs[1..]);
    if gs[0].cls == Shy && |gs| > 1 {
      assert Shown(gs) == rest;
    } else {
      assert Shown(gs) == [gs[0]] + rest;
      assert ([gs[0]] + rest)[1..] == rest;
    }
  }

  lemma EmptyBytes(gs: seq<Glyph>)
    requires AllProper(gs)
    ensures Bytes(gs) == [] <==> gs == []
  {
    if gs != [] {
      assert gs[0] in gs;
      assert Bytes(gs)[..|gs[0].bytes|] == gs[0].bytes;
    }
  }

  lemma SpanStep(s: seq<byte>, i: nat, e: nat, gs: seq<Glyph>)
    requires i < e <= |s| && AllProper(gs) && gs != [] && s[i..e] == Bytes(gs)
    ensures var n := i + |gs[0].bytes|;
            && n <= e && CharsMatch(s, i, e) == (gs[0].cls, n)
            && s[i..n] == gs[0].bytes && s[n..e] == Bytes(gs[1..])
            && (n == e <==> |gs| == 1)
  {
    hide CharsMatch;
    assert gs[0] in gs;
    var n := i + |gs[0].bytes|;
    assert s[i..e][..|gs[0].bytes|] == s[i..n] && s[i..e][|gs[0].bytes|..] == s[n..e];
    MatchIsLocal(s, i, e, gs[0]);
    EmptyBytes(gs[1..]);
  }

  /** The lines of a text. */
  ghost function Wrapped(s: seq<byte>, margin: nat): seq<seq<byte>>
    requires Ends(Scan(s, 0), margin)
  {
    Render(Scan(s, 0), 0, Lines(Scan(s, 0), 0, margin))
  }

  method RemShy(s: seq<byte>, start: nat, e: nat, ghost gs: seq<Glyph>) returns (buff: seq<byte>)
    requires start <= e <= |s| && AllProper(gs) && s[start..e] == Bytes(gs)
    ensures buff == Bytes(Shown(gs))
  {
    hide CharsMatch, Proper, Bytes, Shown;
    buff := [];
    var i := start;
    ghost var rest := gs;
    EmptyBytes(rest);
    NothingShown();
    while i < e
      invariant i == e <==> rest == []
      invariant start <= i <= e && AllProper(rest) && s[i..e] == Bytes(rest)
      invariant buff + Bytes(Shown(rest)) == Bytes(Shown(gs))
      decreases |rest|
    {
      SpanStep(s, i, e, rest);
      ShownStep(rest);
      var (cls, n) := CharsMatch(s, i, e);
      if cls != Shy {
        buff := buff + s[i..n];
      } else {
        if n >= e {
          buff := buff + s[i..n];
        }
      }
      i := n;
      rest := rest[1..];
    }
  }

  /** Glyph `p` of the text starts at byte `i`. */
  ghost predicate At(s: seq<byte>, gs: seq<Glyph>, p: nat, i: nat) {
    p <= |gs| && i <= |s| && i == |Bytes(gs[..p])| && Scan(s, i) == gs[p..]
  }

  lemma AtStep(s: seq<byte>, gs: seq<Glyph>, p: nat, i: nat)
    requires At(s, gs, p, i) && i < |s|
    ensures CharsMatch(s, i, |s|).0 == Bad <==> p == |gs|
    ensures p < |gs| ==> gs[p].cls == CharsMatch(s, i, |s|).0 && At(s, gs, p + 1, CharsMatch(s, i, |s|).1)
  {
    hide CharsMatch;
    if p < |gs| {
      var n := CharsMatch(s, i, |s|).1;
      assert gs[p] == gs[p..][0] && gs[p..][1..] == gs[p + 1..];
      assert gs[..p + 1] == gs[..p] + [gs[p]];
      BytesOfConcat(gs[..p], [gs[p]]);
      assert Bytes([gs[p]]) == gs[p].bytes;
    }
  }

  lemma BytesSplit(gs: seq<Glyph>, p: nat, q: nat)
    requires p <= q <= |gs|
    ensures Bytes(gs[..q]) == Bytes(gs[..p]) + Bytes(gs[p..q])
  {
    assert gs[..q] == gs[..p] + gs[p..q];
    BytesOfConcat(gs[..p], gs[p..q]);
  }

  /** The bytes between two glyph positions are the bytes of the glyphs between them. */
  lemma BytesBetween(s: seq<byte>, gs: seq<Glyph>, p: nat, i: nat, q: nat, j: nat)
    requires Bytes(gs) <= s && At(s, gs, p, i) && At(s, gs, q, j) && p <= q && AllProper(gs)
    ensures i <= j <= |s| && s[i..j] == Bytes(gs[p..q]) && AllProper(gs[p..q])
  {
    hide CharsMatch, Proper, Scan, Bytes;
    BytesSplit(gs, p, q);
    BytesSplit(gs, q, |gs|);
    assert gs[..|gs|] == gs;
  }

  lemma AtEnds(s: seq<byte>, gs: seq<Glyph>)
    requires gs == Scan(s, 0)
    ensures At(s, gs, 0, 0) && Bytes(gs) <= s && AllProper(gs)
  {
    ScanIsProper(s, 0);
    assert gs[..0] == [] && s[0..] == s;
  }

  lemma AtEnd(s: seq<byte>, gs: seq<Glyph>, p: nat, i: nat)
    requires gs == Scan(s, 0) && At(s, gs, p, i)
    ensures i == |s| ==> p == |gs|
    ensures p == |gs| ==> (i == |s| <==> WellFormed(s))
  {
    ScanIsProper(s, 0);
    assert gs[..|gs|] == gs && s[0..] == s;
  }

  lemma AtOrder(s: seq<byte>, gs: seq<Glyph>, p: nat, i: nat, q: nat, j: nat)
    requires AllProper(gs) && At(s, gs, p, i) && At(s, gs, q, j) && p <= q
    ensures i <= j <= |s| && (p < q ==> i < j)
  {
    hide CharsMatch, Proper, Scan, Bytes;
    BytesSplit(gs, p, q);
    EmptyBytes(gs[p..q]);
  }

  lemma LastCutStep(gs: seq<Glyph>, f: nat, p: nat, margin: nat)
    requires f <= p < |gs|
    ensures LastCut(gs, f, p + 1, margin)
            == if CutAt(gs, f, p, margin).Some? then CutAt(gs, f, p, margin) else LastCut(gs, f, p, margin)
  {
  }

  lemma FirstOverAt(gs: seq<Glyph>, f: nat, q: nat, p: nat, margin: nat)
    requires f <= q <= p <= |gs| && (p < |gs| ==> Over(gs, f, p, margin))
    requires forall k | q <= k < p :: !Over(gs, f, k, margin)
    ensures FirstOver(gs, f, q, margin) == p
  {
  }

  lemma LinesStep(gs: seq<Glyph>, f: nat, p: nat, margin: nat)
    requires f <= p < |gs| && Ends(gs, margin) && Over(gs, f, p, margin)
    requires forall q | f <= q < p :: !Over(gs, f, q, margin)
    ensures var c := Break(gs, f, p, margin);
            Render(gs, f, Lines(gs, f, margin))
            == [Bytes(Shown(gs[f..c.end]))] + Render(gs, c.next, Lines(gs, c.next, margin))
  {
    FirstOverAt(gs, f, f, p, margin);
    var c := Break(gs, f, p, margin);
    assert ([c] + Lines(gs, c.next, margin))[1..] == Lines(gs, c.next, margin);
  }

  lemma LinesEnd(gs: seq<Glyph>, f: nat, margin: nat)
    requires f <= |gs| && Ends(gs, margin)
    requires forall q | f <= q < |gs| :: !Over(gs, f, q, margin)
    ensures Render(gs, f, Lines(gs, f, margin)) == [Bytes(Shown(gs[f..|gs|]))]
  {
    FirstOverAt(gs, f, f, |gs|, margin);
  }

  lemma NoCutYet(gs: seq<Glyph>, f: nat, margin: nat)
    requires f <= |gs|
    ensures Width(gs[f..f]) == 0 && LastCut(gs, f, f, margin).None?
  {
  }

  lemma WidthStep(gs: seq<Glyph>, f: nat, p: nat)
    requires f <= p < |gs|
    ensures Width(gs[f..p + 1]) == Width(gs[f..p]) + if Counted(gs[p].cls) then 1 else 0
  {
    assert gs[f..p + 1][..p - f] == gs[f..p];
  }

  method Wrapt(s: seq<byte>, margin: nat) returns (r: Result<seq<seq<byte>>, string>)
    requires Ends(Scan(s, 0), margin)
    ensures r == if WellFormed(s) then Success(Wrapped(s, margin))
                 else Failure("bad character")
  {
    hide CharsMatch, Proper, Bytes, Scan, At, Shown, Render, Lines, Width, LastCut, WellFormed;
    ghost var gs := Scan(s, 0);
    AtEnds(s, gs);
    NoCutYet(gs, 0, margin);
    var i: nat, front: nat, cnt: nat, breakhere: nat, resume: nat, dobreak := 0, 0, 0, 0, 0, false;
    var lines: seq<seq<byte>> := [];
    ghost var f: nat, p: nat := 0, 0;
    while i < |s|
      invariant f <= p <= |gs| && At(s, gs, p, i) && At(s, gs, f, front) && i <= |s|
      invariant cnt == Width(gs[f..p]) <= margin
      invariant forall q | f <= q < p :: !Over(gs, f, q, margin)
      invariant Marked(s, gs, LastCut(gs, f, p, margin), dobreak, breakhere, resume)
      invariant lines + Render(gs, f, Lines(gs, f, margin)) == Render(gs, 0, Lines(gs, 0, margin))
      decreases |s| - front, |s| - i
    {
      var (cls, n) := CharsMatch(s, i, |s|);
      AtEnd(s, gs, p, i);
      AtStep(s, gs, p, i);
      match cls {
        case Bad =>
          return Failure("bad character");
        case Space =>
          dobreak, breakhere, resume := true, i, n;
          cnt := cnt + 1;
        case Combining =>
        case Shy =>
          if cnt < margin {
            dobreak, breakhere, resume := true, n, n;
          }
        case Hyphen =>
          if cnt < margin {
            dobreak, breakhere := true, n;
            cnt := cnt + 1;
          } else if cnt == margin {
            dobreak, breakhere := true, i;
            cnt := margin + 1;
          }
          resume := n;
        case Reset =>
          dobreak, breakhere, resume := true, i, n;
          cnt := margin + 1;
        case Char =>
          cnt := cnt + 1;
      }
      WidthStep(gs, f, p);
      LastCutStep(gs, f, p, margin);
      assert Marked(s, gs, LastCut(gs, f, p + 1, margin), dobreak, breakhere, resume);
      assert cnt > margin <==> Over(gs, f, p, margin);
      if cnt > margin {
        var line;
        ghost var c := Break(gs, f, p, margin);
        LinesStep(gs, f, p, margin);
        if dobreak {
          BytesBetween(s, gs, f, front, c.end, breakhere);
          AtOrder(s, gs, f, front, c.next, resume);
          line := RemShy(s, front, breakhere, gs[f..c.end]);
          front := resume;
          i := resume;
        } else {
          BytesBetween(s, gs, f, front, p, i);
          AtOrder(s, gs, f, front, p, i);
          line := RemShy(s, front, i, gs[f..p]);
          front := i;
        }
        lines := lines + [line];
        cnt, breakhere, dobreak := 0, 0, false;
        f, p := c.next, c.next;
        NoCutYet(gs, f, margin);
      } else {
        AtOrder(s, gs, p, i, p + 1, n);
        i := n;
        p := p + 1;
      }
    }
    AtEnd(s, gs, p, i);
    LinesEnd(gs, f, margin);
    BytesBetween(s, gs, f, front, p, i);
    var line := RemShy(s, front, i, gs[f..p]);
    lines := lines + [line];
    r := Success(lines);
  }

  /** The cursors of the loop stand for the last possible break. */
  ghost predicate Marked(s: seq<byte>, gs: seq<Glyph>, cut: Option<Cut>, dobreak: bool, breakhere: nat, resume: nat) {
    && (dobreak <==> cut.Some?)
    && (cut.Some? ==> At(s, gs, cut.value.end, breakhere) && At(s, gs, cut.value.next, resume))
  }
}

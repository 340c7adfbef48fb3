/** What wrapping promises: the lines tile the text, fit the margin, break as late as they can, and keep
    every printing character. */
module WrapLaws {
  import opened Wrappers
  import opened Text
  import opened Wrap

  /** What may fall between two lines: nothing, one space, one forced break, or one hyphen just past the margin. */
  ghost predicate GapAllowed(gs: seq<Glyph>, f: nat, c: Cut, margin: nat)
    requires f <= c.end <= c.next <= |gs|
  {
    || c.end == c.next
    || (c.next == c.end + 1 && gs[c.end].cls in {Space, Reset})
    || (c.next == c.end + 1 && gs[c.end].cls == Hyphen && Width(gs[f..c.end]) == margin)
  }

  /** The line from `f` can go on through glyph `q`. */
  ghost predicate RoomFor(gs: seq<Glyph>, f: nat, q: nat, margin: nat)
    requires f <= q < |gs|
  {
    gs[q].cls != Reset && Width(gs[f..q + 1]) <= margin
  }

  ghost predicate Room(gs: seq<Glyph>, f: nat, p: nat, margin: nat)
    requires f <= p <= |gs|
  {
    forall q | f <= q < p :: RoomFor(gs, f, q, margin)
  }

  /** The first glyph that the line from `f` has no room for. */
  ghost predicate TooMuch(gs: seq<Glyph>, f: nat, p: nat, margin: nat) {
    f <= p < |gs| && Room(gs, f, p, margin) && !RoomFor(gs, f, p, margin)
  }

  /** Glyph `k` is no place to break the line at: part of a word, or a soft hyphen with no room to show. */
  ghost predicate InWord(gs: seq<Glyph>, f: nat, k: nat, margin: nat)
    requires f <= k < |gs|
  {
    gs[k].cls !in {Space, Reset, Hyphen} && (gs[k].cls == Shy ==> Width(gs[f..k]) == margin)
  }

  /** The line ends in a hyphen, or in a soft hyphen that has room to show. */
  ghost predicate Hyphened(gs: seq<Glyph>, f: nat, c: Cut, margin: nat)
    requires f <= c.end <= |gs|
  {
    f < c.end && gs[c.end - 1].cls in {Shy, Hyphen} && Width(gs[f..c.end - 1]) < margin
  }

  /** The line ends and the next one starts inside a word. */
  ghost predicate Hard(gs: seq<Glyph>, f: nat, c: Cut, margin: nat)
    requires f <= c.end <= |gs|
  {
    c.end == c.next && !Hyphened(gs, f, c, margin)
  }

  /** A line with no room for glyph `p` is broken at the last place there is, and in the middle of a word only, and
      then just before `p`, if there is none. */
  ghost predicate WellBroken(gs: seq<Glyph>, f: nat, p: nat, c: Cut, margin: nat)
    requires f <= p < |gs|
  {
    && f <= c.end <= p && c.end <= c.next <= p + 1 && f < c.next
    && if Hard(gs, f, c, margin)
       then c.end == p && forall k | f <= k <= p :: InWord(gs, f, k, margin)
       else GapAllowed(gs, f, c, margin) && forall k | c.next <= k <= p :: InWord(gs, f, k, margin)
  }

  /** The lines and the gaps follow one another from glyph `f` to the end, each line within the margin, without a forced
      break in it, and broken only for want of room, where it should be. */
  ghost predicate Tiled(gs: seq<Glyph>, f: nat, cuts: seq<Cut>, margin: nat)
    decreases |cuts|
  {
    && cuts != [] && f <= cuts[0].end <= cuts[0].next <= |gs|
    && Width(gs[f..cuts[0].end]) <= margin && Room(gs, f, cuts[0].end, margin)
    && if |cuts| == 1 then cuts[0] == Cut(|gs|, |gs|)
       else
         && f < cuts[0].next && GapAllowed(gs, f, cuts[0], margin)
         && (exists p :: TooMuch(gs, f, p, margin) && WellBroken(gs, f, p, cuts[0], margin))
         && Tiled(gs, cuts[0].next, cuts[1..], margin)
  }

  lemma {:induction false} WidthGrows(gs: seq<Glyph>, f: nat, p: nat, q: nat)
    requires f <= p <= q <= |gs|
    ensures Width(gs[f..p]) <= Width(gs[f..q])
    decreases q - p
  {
    if p < q {
      WidthStep(gs, f, q - 1);
      WidthGrows(gs, f, p, q - 1);
    }
  }

  lemma {:induction false} LastCutIsLast(gs: seq<Glyph>, f: nat, p: nat, margin: nat)
    requires f <= p <= |gs|
    ensures match LastCut(gs, f, p, margin)
            case None => forall k | f <= k < p :: CutAt(gs, f, k, margin).None?
            case Some(c) => exists q | f <= q < p :: CutAt(gs, f, q, margin) == Some(c)
                                                     && forall k | q < k < p :: CutAt(gs, f, k, margin).None?
    decreases p
  {
    if p > f && CutAt(gs, f, p - 1, margin).None? {
      LastCutIsLast(gs, f, p - 1, margin);
    }
  }

  lemma CutFits(gs: seq<Glyph>, f: nat, q: nat, margin: nat)
    requires f <= q < |gs| && Width(gs[f..q]) <= margin && CutAt(gs, f, q, margin).Some?
    ensures var c := CutAt(gs, f, q, margin).value;
            Width(gs[f..c.end]) <= margin && GapAllowed(gs, f, c, margin) && c.end <= q + 1
    ensures CutAt(gs, f, q, margin).value.end == q + 1 ==> !Over(gs, f, q, margin)
  {
    WidthStep(gs, f, q);
  }

  lemma WithinSoFar(gs: seq<Glyph>, f: nat, p: nat, margin: nat)
    requires f <= p < |gs| && forall q | f <= q < p :: !Over(gs, f, q, margin)
    ensures forall q | f <= q <= p :: Width(gs[f..q]) <= margin
  {
    NoCutYet(gs, f, margin);
    forall q | f <= q <= p ensures Width(gs[f..q]) <= margin {
      if f < q {
        assert !Over(gs, f, q - 1, margin);
      }
    }
  }

  /** The end of a line that overflows is within the margin, and what is dropped after it may be dropped. */
  lemma BreakFits(gs: seq<Glyph>, f: nat, p: nat, margin: nat)
    requires f <= p < |gs| && Ends(gs, margin) && Over(gs, f, p, margin)
    requires forall q | f <= q < p :: !Over(gs, f, q, margin)
    ensures var c := Break(gs, f, p, margin);
            Width(gs[f..c.end]) <= margin && GapAllowed(gs, f, c, margin) && c.end <= p
  {
    hide Ends, Width, CutAt;
    WithinSoFar(gs, f, p, margin);
    LastCutIsLast(gs, f, p + 1, margin);
    var c := Break(gs, f, p, margin);
    if LastCut(gs, f, p + 1, margin).Some? {
      var q :| f <= q <= p && CutAt(gs, f, q, margin) == Some(c);
      CutFits(gs, f, q, margin);
    }
  }

  /** A line could not have been broken any later: every later place to break it lies beyond the margin,
      or beyond a forced break. */
  lemma BreakIsLatest(gs: seq<Glyph>, f: nat, p: nat, margin: nat, q: nat)
    requires f <= p < |gs| && Ends(gs, margin) && Over(gs, f, p, margin)
    requires f <= q < |gs| && CutAt(gs, f, q, margin).Some?
    requires CutAt(gs, f, q, margin).value.end > Break(gs, f, p, margin).end
    ensures var e := CutAt(gs, f, q, margin).value.end;
            margin < Width(gs[f..e]) || exists k | f <= k < e :: gs[k].cls == Reset
  {
    hide Width, Ends, GapAllowed;
    LastCutIsLast(gs, f, p + 1, margin);
    var e := CutAt(gs, f, q, margin).value.end;
    assert q > p;
    WidthGrows(gs, f, p + 1, e);
  }

  /** Where CutAt has no place to break, the glyph is part of a word. */
  lemma NoCutInWord(gs: seq<Glyph>, f: nat, k: nat, margin: nat)
    requires f <= k < |gs| && Width(gs[f..k]) <= margin
    ensures CutAt(gs, f, k, margin).None? <==> InWord(gs, f, k, margin)
  {
  }

  lemma CutIsWell(gs: seq<Glyph>, f: nat, q: nat, p: nat, margin: nat)
    requires f <= q <= p < |gs| && CutAt(gs, f, q, margin).Some? && Width(gs[f..q]) <= margin
    requires TooMuch(gs, f, p, margin) && forall k | q < k <= p :: InWord(gs, f, k, margin)
    ensures WellBroken(gs, f, p, CutAt(gs, f, q, margin).value, margin)
  {
    CutFits(gs, f, q, margin);
  }

  lemma BreakIsWell(gs: seq<Glyph>, f: nat, p: nat, margin: nat)
    requires Ends(gs, margin) && TooMuch(gs, f, p, margin)
    ensures Over(gs, f, p, margin) && WellBroken(gs, f, p, Break(gs, f, p, margin), margin)
  {
    assert forall q | f <= q < p :: RoomFor(gs, f, q, margin) && !Over(gs, f, q, margin);
    WithinSoFar(gs, f, p, margin);
    LastCutIsLast(gs, f, p + 1, margin);
    hide Width, CutAt, WellBroken;
    forall k | f <= k <= p ensures CutAt(gs, f, k, margin).None? <==> InWord(gs, f, k, margin) {
      NoCutInWord(gs, f, k, margin);
    }
    var c := Break(gs, f, p, margin);
    if LastCut(gs, f, p + 1, margin).Some? {
      var q :| f <= q <= p && CutAt(gs, f, q, margin) == Some(c)
               && forall k | q < k <= p :: CutAt(gs, f, k, margin).None?;
      CutIsWell(gs, f, q, p, margin);
    } else {
      BreaksSomewhere(gs, f, p, margin);
      HardCutIsWell(gs, f, p, margin);
    }
  }

  lemma HardCutIsWell(gs: seq<Glyph>, f: nat, p: nat, margin: nat)
    requires f < p && TooMuch(gs, f, p, margin) && forall k | f <= k <= p :: InWord(gs, f, k, margin)
    ensures WellBroken(gs, f, p, Cut(p, p), margin)
  {
    assert InWord(gs, f, p - 1, margin);
  }

  lemma RoomIsWidth(gs: seq<Glyph>, f: nat, p: nat, margin: nat)
    requires f <= p <= |gs| && Room(gs, f, p, margin)
    ensures Width(gs[f..p]) <= margin
  {
    NoCutYet(gs, f, margin);
    assert f < p ==> RoomFor(gs, f, p - 1, margin);
  }

  lemma FirstOverIsTooMuch(gs: seq<Glyph>, f: nat, margin: nat)
    requires f <= |gs|
    ensures var p := FirstOver(gs, f, f, margin);
            Room(gs, f, p, margin) && (p < |gs| ==> TooMuch(gs, f, p, margin))
  {
    var p := FirstOver(gs, f, f, margin);
    forall q | f <= q < p ensures RoomFor(gs, f, q, margin) {
      assert !Over(gs, f, q, margin);
    }
  }

  /** There is no other way to break a line well. */
  lemma BreakIsOnly(gs: seq<Glyph>, f: nat, p: nat, q: nat, b: Cut, c: Cut, margin: nat)
    requires TooMuch(gs, f, p, margin) && WellBroken(gs, f, p, b, margin)
    requires TooMuch(gs, f, q, margin) && WellBroken(gs, f, q, c, margin)
    ensures p == q && b == c
  {
    hide WellBroken;
    NoneTooMuch(gs, f, p, margin);
    NoneTooMuch(gs, f, q, margin);
    BreakIsNoLater(gs, f, p, b, c, margin);
    BreakIsNoLater(gs, f, p, c, b, margin);
    SameEnd(gs, f, p, b, c, margin);
  }

  lemma NoneTooMuch(gs: seq<Glyph>, f: nat, p: nat, margin: nat)
    requires f <= p <= |gs| && Room(gs, f, p, margin)
    ensures forall q: nat | q < p :: !TooMuch(gs, f, q, margin)
  {
  }

  lemma SoftPlace(gs: seq<Glyph>, f: nat, p: nat, c: Cut, margin: nat)
    requires f <= p < |gs| && WellBroken(gs, f, p, c, margin)
    ensures !Hard(gs, f, c, margin) ==> !InWord(gs, f, c.next - 1, margin)
  {
  }

  lemma BreakIsNoLater(gs: seq<Glyph>, f: nat, p: nat, b: Cut, c: Cut, margin: nat)
    requires f <= p < |gs| && WellBroken(gs, f, p, b, margin) && WellBroken(gs, f, p, c, margin)
    ensures b.next <= c.next && (Hard(gs, f, b, margin) <==> Hard(gs, f, c, margin))
  {
    hide InWord, GapAllowed, Hyphened;
    SoftPlace(gs, f, p, b, margin);
    SoftPlace(gs, f, p, c, margin);
  }

  lemma SameEnd(gs: seq<Glyph>, f: nat, p: nat, b: Cut, c: Cut, margin: nat)
    requires f <= p < |gs| && WellBroken(gs, f, p, b, margin) && WellBroken(gs, f, p, c, margin) && b.next == c.next
    requires Hard(gs, f, b, margin) <==> Hard(gs, f, c, margin)
    ensures b.end == c.end
  {
  }

  lemma RoomBefore(gs: seq<Glyph>, f: nat, e: nat, p: nat, margin: nat)
    requires f <= e <= p <= |gs| && Room(gs, f, p, margin)
    ensures Room(gs, f, e, margin)
  {
  }

  lemma TiledStep(gs: seq<Glyph>, f: nat, p: nat, c: Cut, rest: seq<Cut>, margin: nat)
    requires TooMuch(gs, f, p, margin) && WellBroken(gs, f, p, c, margin) && GapAllowed(gs, f, c, margin)
    requires Width(gs[f..c.end]) <= margin && rest != [] && Tiled(gs, c.next, rest, margin)
    ensures Tiled(gs, f, [c] + rest, margin)
  {
    hide Width, InWord, GapAllowed, Hard;
    var cuts := [c] + rest;
    assert cuts[0] == c && cuts[1..] == rest && |cuts| > 1;
    RoomBefore(gs, f, c.end, p, margin);
  }

  lemma {:induction false} LinesTile(gs: seq<Glyph>, f: nat, margin: nat)
    requires f <= |gs| && Ends(gs, margin)
    ensures Tiled(gs, f, Lines(gs, f, margin), margin)
    decreases |gs| - f
  {
    hide Width, WellBroken, Break, CutAt, LastCut, TooMuch, GapAllowed, Over;
    var p := FirstOver(gs, f, f, margin);
    FirstOverIsTooMuch(gs, f, margin);
    if p == |gs| {
      NoCutYet(gs, f, margin);
      RoomIsWidth(gs, f, p, margin);
    } else {
      BreakFits(gs, f, p, margin);
      BreakIsWell(gs, f, p, margin);
      var c := Break(gs, f, p, margin);
      LinesTile(gs, c.next, margin);
      TiledStep(gs, f, p, c, Lines(gs, c.next, margin), margin);
    }
  }

  /** And no other lines tile the text: what they promise says all there is to say of where lines are broken. */
  lemma {:induction false} TilingIsOnly(gs: seq<Glyph>, f: nat, a: seq<Cut>, b: seq<Cut>, margin: nat)
    requires Tiled(gs, f, a, margin) && Tiled(gs, f, b, margin)
    ensures a == b
    decreases |a|
  {
    hide Width, WellBroken, GapAllowed;
    if |a| == 1 || |b| == 1 {
      OneLine(gs, f, a, b, margin);
      OneLine(gs, f, b, a, margin);
    } else {
      var p :| TooMuch(gs, f, p, margin) && WellBroken(gs, f, p, a[0], margin);
      var q :| TooMuch(gs, f, q, margin) && WellBroken(gs, f, q, b[0], margin);
      BreakIsOnly(gs, f, p, q, a[0], b[0], margin);
      TilingIsOnly(gs, a[0].next, a[1..], b[1..], margin);
      assert a == [a[0]] + a[1..] && b == [b[0]] + b[1..];
    }
  }

  /** A text with room in one line is not broken. */
  lemma OneLine(gs: seq<Glyph>, f: nat, a: seq<Cut>, b: seq<Cut>, margin: nat)
    requires Tiled(gs, f, a, margin) && Tiled(gs, f, b, margin) && |a| == 1
    ensures a == b
  {
    hide Width, WellBroken, GapAllowed;
    assert a[0] == Cut(|gs|, |gs|);
    NoneTooMuch(gs, f, |gs|, margin);
  }

  /** Lines and gaps joined up again. */
  ghost function Rejoined(gs: seq<Glyph>, f: nat, cuts: seq<Cut>): seq<byte>
    decreases |cuts|
  {
    if cuts == [] || !(f <= cuts[0].end <= cuts[0].next <= |gs|) then []
    else Bytes(gs[f..cuts[0].end]) + Bytes(gs[cuts[0].end..cuts[0].next]) + Rejoined(gs, cuts[0].next, cuts[1..])
  }

  lemma {:induction false} TilesRejoin(gs: seq<Glyph>, f: nat, cuts: seq<Cut>, margin: nat)
    requires Tiled(gs, f, cuts, margin)
    ensures Rejoined(gs, f, cuts) == Bytes(gs[f..])
    decreases |cuts|
  {
    hide Width, WellBroken, GapAllowed, TooMuch, Room;
    var c := cuts[0];
    assert gs[f..] == gs[f..c.end] + gs[c.end..c.next] + gs[c.next..];
    BytesOfConcat(gs[f..c.end] + gs[c.end..c.next], gs[c.next..]);
    BytesOfConcat(gs[f..c.end], gs[c.end..c.next]);
    if |cuts| > 1 {
      TilesRejoin(gs, c.next, cuts[1..], margin);
    } else {
      assert gs[c.next..] == [];
    }
  }

  /** The glyphs that print in their own right, wherever lines are broken. */
  ghost function Ink(gs: seq<Glyph>): seq<Glyph> {
    if gs == [] then []
    else (if gs[0].cls in {Char, Combining} then [gs[0]] else []) + Ink(gs[1..])
  }

  lemma {:induction false} InkOfConcat(a: seq<Glyph>, b: seq<Glyph>)
    ensures Ink(a + b) == Ink(a) + Ink(b)
  {
    if a == [] {
      assert a + b == b;
    } else {
      InkOfConcat(a[1..], b);
      assert (a + b)[1..] == a[1..] + b && (a + b)[0] == a[0];
    }
  }

  lemma {:induction false} ShownKeeps(gs: seq<Glyph>)
    requires AllProper(gs)
    ensures AllProper(Shown(gs)) && Ink(Shown(gs)) == Ink(gs) && CountedIn(Shown(gs)) == CountedIn(gs)
  {
    if gs != [] {
      ShownKeeps(gs[1..]);
      if gs[0].cls == Shy && |gs| > 1 {
        assert Shown(gs) == Shown(gs[1..]);
      } else {
        assert Shown(gs) == [gs[0]] + Shown(gs[1..]);
        assert Shown(gs)[1..] == Shown(gs[1..]);
      }
    }
  }

  /** How many glyphs take up a cell of their own. */
  ghost function CountedIn(gs: seq<Glyph>): nat {
    if gs == [] then 0 else (if gs[0].cls in {Char, Space, Hyphen} then 1 else 0) + CountedIn(gs[1..])
  }

  lemma {:induction false} WidthIsCounted(gs: seq<Glyph>)
    ensures Width(gs) == CountedIn(gs)
  {
    if gs != [] {
      var front, last := gs[..|gs| - 1], gs[|gs| - 1];
      WidthIsCounted(front);
      CountedOfConcat(front, [last]);
      assert gs == front + [last];
    }
  }

  lemma {:induction false} CountedOfConcat(a: seq<Glyph>, b: seq<Glyph>)
    ensures CountedIn(a + b) == CountedIn(a) + CountedIn(b)
  {
    if a == [] {
      assert a + b == b;
    } else {
      assert (a + b)[1..] == a[1..] + b;
      CountedOfConcat(a[1..], b);
    }
  }

  ghost function NoneSoft(gs: seq<Glyph>): seq<Glyph> {
    if gs == [] then [] else (if gs[0].cls == Shy then [] else [gs[0]]) + NoneSoft(gs[1..])
  }

  /** All that is dropped from a line is its soft hyphens, but for one at its end. */
  lemma {:induction false} ShownIs(gs: seq<Glyph>)
    requires gs != []
    ensures Shown(gs) == NoneSoft(gs[..|gs| - 1]) + [gs[|gs| - 1]]
  {
    var front := gs[..|gs| - 1];
    if |gs| > 1 {
      ShownIs(gs[1..]);
      assert gs[1..][..|gs| - 2] == front[1..] && front[0] == gs[0];
    } else {
      assert gs[1..] == [];
    }
  }

  /** What line `k` is made of. */
  ghost function Span(gs: seq<Glyph>, f: nat, cuts: seq<Cut>, k: nat): seq<Glyph>
    requires k < |cuts|
  {
    var a := if k == 0 then f else cuts[k - 1].next;
    if a <= cuts[k].end <= |gs| then gs[a..cuts[k].end] else []
  }

  lemma {:induction false} RenderIs(gs: seq<Glyph>, f: nat, cuts: seq<Cut>, margin: nat)
    requires Tiled(gs, f, cuts, margin)
    ensures |Render(gs, f, cuts)| == |cuts|
    ensures forall k | 0 <= k < |cuts| :: Render(gs, f, cuts)[k] == Bytes(Shown(Span(gs, f, cuts, k)))
    decreases |cuts|
  {
    hide Shown, Bytes, Width, WellBroken, TooMuch, Room, GapAllowed;
    if |cuts| > 1 {
      RenderIs(gs, cuts[0].next, cuts[1..], margin);
      forall k | 0 < k < |cuts| ensures Span(gs, f, cuts, k) == Span(gs, cuts[0].next, cuts[1..], k - 1) {
        assert cuts[1..][k - 1] == cuts[k];
        assert k > 1 ==> cuts[1..][k - 2] == cuts[k - 1];
      }
    }
  }

  /** An output line read back: it is well formed, no wider than its span, and has all of the span's ink. */
  lemma LineReadsBack(gs: seq<Glyph>)
    requires AllProper(gs)
    ensures var line := Bytes(Shown(gs));
            && WellFormed(line) && Scan(line, 0) == Shown(gs)
            && Width(Scan(line, 0)) == Width(gs) && Ink(Scan(line, 0)) == Ink(gs)
  {
    hide CharsMatch, Proper;
    ShownKeeps(gs);
    assert [] + Bytes(Shown(gs)) == Bytes(Shown(gs));
    ScanOfBytes([], Shown(gs));
    WidthIsCounted(Shown(gs));
    WidthIsCounted(gs);
  }

  ghost function InkOfLines(lines: seq<seq<byte>>): seq<Glyph> {
    if lines == [] then [] else Ink(Scan(lines[0], 0)) + InkOfLines(lines[1..])
  }

  lemma GapHasNoInk(gs: seq<Glyph>, f: nat, c: Cut, margin: nat)
    requires f <= c.end <= c.next <= |gs| && GapAllowed(gs, f, c, margin)
    ensures Ink(gs[f..]) == Ink(gs[f..c.end]) + Ink(gs[c.next..])
  {
    assert gs[f..] == gs[f..c.end] + (gs[c.end..c.next] + gs[c.next..]);
    InkOfConcat(gs[f..c.end], gs[c.end..c.next] + gs[c.next..]);
    InkOfConcat(gs[c.end..c.next], gs[c.next..]);
    if c.next == c.end + 1 {
      assert gs[c.end..c.next] == [gs[c.end]];
    }
  }

  ghost predicate Fits(lines: seq<seq<byte>>, margin: nat) {
    forall line | line in lines :: WellFormed(line) && Width(Scan(line, 0)) <= margin
  }

  lemma {:induction false} RenderKeeps(gs: seq<Glyph>, f: nat, cuts: seq<Cut>, margin: nat)
    requires AllProper(gs) && Tiled(gs, f, cuts, margin)
    ensures var lines := Render(gs, f, cuts);
            |lines| == |cuts| && Fits(lines, margin) && InkOfLines(lines) == Ink(gs[f..])
    decreases |cuts|
  {
    hide CharsMatch, Proper, Shown, Scan, WellFormed, Bytes, Ink, Width, WellBroken, TooMuch, Room;
    var c := cuts[0];
    var line := Bytes(Shown(gs[f..c.end]));
    LineReadsBack(gs[f..c.end]);
    GapHasNoInk(gs, f, c, margin);
    var rest := Render(gs, c.next, cuts[1..]);
    assert Render(gs, f, cuts) == [line] + rest;
    assert ([line] + rest)[1..] == rest;
    if |cuts| > 1 {
      RenderKeeps(gs, c.next, cuts[1..], margin);
    } else {
      assert gs[c.next..] == [];
      NoInk();
    }
  }

  lemma NoInk()
    ensures Ink([]) == []
  {
  }

  /** Every well-formed text, at every margin: the spans printed as lines and the gaps between them make up the text,
      the lines read back as text no wider than the margin, and its ink comes out whole and in order. */
  lemma WrappedLaw(s: seq<byte>, margin: nat)
    requires Ends(Scan(s, 0), margin) && WellFormed(s)
    ensures var gs := Scan(s, 0);
            var cuts := Lines(gs, 0, margin);
            && Tiled(gs, 0, cuts, margin) && Rejoined(gs, 0, cuts) == s
            && |Wrapped(s, margin)| == |cuts| && Fits(Wrapped(s, margin), margin)
            && InkOfLines(Wrapped(s, margin)) == Ink(gs)
            && forall k | 0 <= k < |cuts| :: Wrapped(s, margin)[k] == Bytes(Shown(Span(gs, 0, cuts, k)))
  {
    hide CharsMatch, Proper, Shown, Bytes, Tiled, Rejoined, Ink, InkOfLines, Width, Render, Lines, Fits;
    var gs := Scan(s, 0);
    ScanIsProper(s, 0);
    assert gs[0..] == gs;
    LinesTile(gs, 0, margin);
    TilesRejoin(gs, 0, Lines(gs, 0, margin), margin);
    RenderKeeps(gs, 0, Lines(gs, 0, margin), margin);
    RenderIs(gs, 0, Lines(gs, 0, margin), margin);
  }
}

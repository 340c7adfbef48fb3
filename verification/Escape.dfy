/** The two escapers, and the one reader that undoes them both. */
module Escape {
  import opened Wrappers
  import opened Text

  const BACKSLASH: byte := 0x5C

  /** The letter that stands for a control character with a name of its own. */
  function Letter(c: byte): Option<byte> {
    match c
    case 0x07 => Some(0x61)
    case 0x08 => Some(0x62)
    case 0x0C => Some(0x66)
    case 0x0A => Some(0x6E)
    case 0x0D => Some(0x72)
    case 0x09 => Some(0x74)
    case 0x0B => Some(0x76)
    case _ => None
  }

  function Digit(n: int): byte
    requires 0 <= n < 10
  {
    0x30 + n
  }

  /** A byte that cannot be shown: a backslash, then a letter or three decimal digits. */
  function C0(c: byte): seq<byte> {
    if Letter(c).Some? then [BACKSLASH, Letter(c).value]
    else [BACKSLASH, Digit(c / 100), Digit(c / 10 % 10), Digit(c % 10)]
  }

  function Ascii(c: byte): seq<byte> {
    if c < 0x20 || c > 0x7E then C0(c)
    else if c == BACKSLASH then [BACKSLASH, BACKSLASH]
    else [c]
  }

  ghost function AsciiText(s: seq<byte>): seq<byte> {
    if s == [] then [] else Ascii(s[0]) + AsciiText(s[1..])
  }

  method SafeAscii(s: seq<byte>) returns (buf: seq<byte>)
    ensures buf == AsciiText(s)
  {
    hide Ascii;
    buf := [];
    var i := 0;
    assert s[0..] == s;
    while i < |s|
      invariant 0 <= i <= |s| && buf + AsciiText(s[i..]) == AsciiText(s)
    {
      assert s[i..][1..] == s[i + 1..];
      buf := buf + Ascii(s[i]);
      i := i + 1;
    }
  }

  /** How many bytes of a well-formed character start the text, whose first byte is 0xC2 to 0xF4; 0 if none does. */
  function Sequence(s: seq<byte>): (delta: nat)
    requires s != [] && 0xC2 <= s[0] <= 0xF4
    ensures delta <= |s| && delta != 1
  {
    if s[0] < 0xE0 then
      if |s| >= 2 && IsTail(s[1]) then 2 else 0
    else if s[0] < 0xF0 then
      if |s| >= 3 && IsTail(s[1]) && IsTail(s[2]) then 3 else 0
    else
      if |s| >= 4 && IsTail(s[1]) && IsTail(s[2]) && IsTail(s[3]) then 4 else 0
  }

  ghost function Utf8Text(s: seq<byte>): seq<byte> {
    if s == [] then []
    else if 0xC2 <= s[0] <= 0xF4 && Sequence(s) > 0 then s[..Sequence(s)] + Utf8Text(s[Sequence(s)..])
    else Ascii(s[0]) + Utf8Text(s[1..])
  }

  method Utf8(s: seq<byte>, at: nat, buffer: seq<byte>) returns (buf: seq<byte>, i: nat)
    requires at < |s| && 0xC2 <= s[at] <= 0xF4
    ensures at < i <= |s| && buf + Utf8Text(s[i..]) == buffer + Utf8Text(s[at..])
  {
    hide Sequence, C0, Utf8Text;
    var delta := Sequence(s[at..]);
    Utf8TextHead(s[at..]);
    if delta > 0 {
      buf := buffer + s[at..at + delta];
      i := at + delta;
      assert s[at..][..delta] == s[at..i];
    } else {
      buf := buffer + C0(s[at]);
      i := at + 1;
    }
    assert s[at..][i - at..] == s[i..];
  }

  lemma Utf8TextHead(s: seq<byte>)
    requires s != [] && 0xC2 <= s[0] <= 0xF4
    ensures Utf8Text(s)
            == if Sequence(s) > 0 then s[..Sequence(s)] + Utf8Text(s[Sequence(s)..]) else C0(s[0]) + Utf8Text(s[1..])
  {
    hide Sequence, C0;
  }

  lemma Utf8TextStep(s: seq<byte>, i: nat)
    requires i < |s|
    ensures !(0xC2 <= s[i] <= 0xF4) ==> Utf8Text(s[i..]) == Ascii(s[i]) + Utf8Text(s[i + 1..])
  {
    assert s[i..][1..] == s[i + 1..];
  }

  lemma Utf8TextEnd(s: seq<byte>)
    ensures Utf8Text(s[|s|..]) == []
  {
  }

  method SafeUtf8(s: seq<byte>) returns (buf: seq<byte>)
    ensures buf == Utf8Text(s)
  {
    hide C0, Sequence, Utf8Text;
    buf := [];
    var i: nat := 0;
    assert s[0..] == s;
    Utf8TextEnd(s);
    while i < |s|
      invariant i <= |s| && buf + Utf8Text(s[i..]) == Utf8Text(s)
      decreases |s| - i
    {
      Utf8TextStep(s, i);
      if s[i] < 0x20 {
        buf := buf + C0(s[i]);
        i := i + 1;
      } else if s[i] < 0x7F {
        if s[i] == BACKSLASH {
          buf := buf + [BACKSLASH, BACKSLASH];
        } else {
          buf := buf + [s[i]];
        }
        i := i + 1;
      } else if s[i] < 0xC2 {
        buf := buf + C0(s[i]);
        i := i + 1;
      } else if s[i] < 0xF5 {
        buf, i := Utf8(s, i, buf);
      } else {
        buf := buf + C0(s[i]);
        i := i + 1;
      }
    }
  }

  // ---------- Reading back ----------

  function Named(letter: byte): Option<byte> {
    match letter
    case 0x61 => Some(0x07)
    case 0x62 => Some(0x08)
    case 0x66 => Some(0x0C)
    case 0x6E => Some(0x0A)
    case 0x72 => Some(0x0D)
    case 0x74 => Some(0x09)
    case 0x76 => Some(0x0B)
    case 0x5C => Some(BACKSLASH)
    case _ => None
  }

  predicate IsDigit(b: byte) {
    0x30 <= b <= 0x39
  }

  /** The byte at the front of escaped text and how far it reaches; what is no escape stands for itself. */
  function Front(t: seq<byte>): (r: (byte, nat))
    requires t != []
    ensures 0 < r.1 <= |t|
  {
    if t[0] != BACKSLASH || |t| < 2 then (t[0], 1)
    else if Named(t[1]).Some? then (Named(t[1]).value, 2)
    else if |t| >= 4 && IsDigit(t[1]) && IsDigit(t[2]) && IsDigit(t[3]) then
      var n := (t[1] as int - 0x30) * 100 + (t[2] as int - 0x30) * 10 + (t[3] as int - 0x30);
      if n < 256 then (n, 4) else (t[0], 1)
    else (t[0], 1)
  }

  ghost function Unescape(t: seq<byte>): seq<byte> {
    if t == [] then [] else [Front(t).0] + Unescape(t[Front(t).1..])
  }

  lemma FrontOfAscii(c: byte, rest: seq<byte>)
    ensures Front(Ascii(c) + rest) == (c, |Ascii(c)|)
    ensures forall b | b in Ascii(c) :: 0x20 <= b <= 0x7E
  {
    assert c == c / 100 * 100 + c / 10 % 10 * 10 + c % 10;
  }

  lemma UnescapeAscii(c: byte, rest: seq<byte>)
    ensures Unescape(Ascii(c) + rest) == [c] + Unescape(rest)
  {
    hide Ascii, Front;
    FrontOfAscii(c, rest);
    assert (Ascii(c) + rest)[|Ascii(c)|..] == rest;
  }

  lemma UnescapeNothing()
    ensures Unescape([]) == []
  {
  }

  /** safeascii loses nothing, and shows nothing but printable ASCII. */
  lemma {:induction false} AsciiReadsBack(s: seq<byte>)
    ensures Unescape(AsciiText(s)) == s
    ensures forall b | b in AsciiText(s) :: 0x20 <= b <= 0x7E
  {
    hide Ascii, Front;
    if s != [] {
      AsciiReadsBack(s[1..]);
      UnescapeAscii(s[0], AsciiText(s[1..]));
      FrontOfAscii(s[0], []);
    }
  }

  lemma {:induction false} UnescapePlain(a: seq<byte>, rest: seq<byte>)
    requires forall b | b in a :: b != BACKSLASH
    ensures Unescape(a + rest) == a + Unescape(rest)
  {
    if a == [] {
      assert a + rest == rest;
    } else {
      assert (a + rest)[1..] == a[1..] + rest;
      assert a[0] in a && forall b | b in a[1..] :: b in a;
      UnescapePlain(a[1..], rest);
    }
  }

  /** safeutf8 loses nothing either, and is undone by the same reader. */
  lemma {:induction false} Utf8ReadsBack(s: seq<byte>)
    ensures Unescape(Utf8Text(s)) == s
    decreases |s|
  {
    hide Ascii, Front, Unescape;
    if s == [] {
      UnescapeNothing();
    } else {
      if 0xC2 <= s[0] <= 0xF4 && Sequence(s) > 0 {
        var n := Sequence(s);
        Utf8ReadsBack(s[n..]);
        UnescapePlain(s[..n], Utf8Text(s[n..]));
      } else {
        Utf8ReadsBack(s[1..]);
        UnescapeAscii(s[0], Utf8Text(s[1..]));
      }
    }
  }

  ghost function Single(b: byte): Glyph {
    Glyph(ClassOf(b), [b])
  }

  lemma {:induction false} AsciiGlyphs(a: seq<byte>) returns (gs: seq<Glyph>)
    requires forall b | b in a :: 0x20 <= b <= 0x7E
    ensures AllProper(gs) && Bytes(gs) == a
  {
    if a == [] {
      gs := [];
    } else {
      assert a[0] in a && forall b | b in a[1..] :: b in a;
      var rest := AsciiGlyphs(a[1..]);
      gs := [Single(a[0])] + rest;
      assert gs[1..] == rest;
    }
  }

  lemma {:induction false} Utf8Glyphs(s: seq<byte>) returns (gs: seq<Glyph>)
    ensures AllProper(gs) && Bytes(gs) == Utf8Text(s)
    decreases |s|
  {
    hide ClassOf, Ascii;
    if s == [] {
      gs := [];
    } else if 0xC2 <= s[0] <= 0xF4 && Sequence(s) > 0 {
      var n := Sequence(s);
      var rest := Utf8Glyphs(s[n..]);
      var (cls, m) := CharsMatch(s, 0, |s|);
      MatchIsProper(s, 0, |s|);
      gs := [Glyph(cls, s[0..n])] + rest;
      assert gs[1..] == rest;
    } else {
      var rest := Utf8Glyphs(s[1..]);
      FrontOfAscii(s[0], []);
      var front := AsciiGlyphs(Ascii(s[0]));
      gs := front + rest;
      BytesOfConcat(front, rest);
    }
  }

  /** Whatever the bytes, the output of safeutf8 is text that wrapping accepts. */
  lemma Utf8IsWellFormed(s: seq<byte>)
    ensures WellFormed(Utf8Text(s))
  {
    hide CharsMatch;
    var gs := Utf8Glyphs(s);
    ScanOfBytes([], gs);
    assert [] + Bytes(gs) == Utf8Text(s);
  }

  // ---------- What is left as it is ----------

  predicate Printable(b: byte) {
    0x20 <= b <= 0x7E && b != BACKSLASH
  }

  /** Letters stand for the seven control characters from BEL to CR and for no other byte. */
  lemma LettersAre(c: byte)
    ensures |Ascii(c)| == if Printable(c) then 1 else if 7 <= c <= 13 || c == BACKSLASH then 2 else 4
  {
  }

  lemma {:induction false} AsciiGrows(s: seq<byte>)
    ensures |s| <= |AsciiText(s)|
    ensures |AsciiText(s)| == |s| <==> forall b | b in s :: Printable(b)
    ensures (forall b | b in s :: Printable(b)) ==> AsciiText(s) == s
  {
    if s != [] {
      AsciiGrows(s[1..]);
      assert s == [s[0]] + s[1..];
      assert |Ascii(s[0])| == 1 <==> Printable(s[0]);
    }
  }

  /** safeascii leaves just those texts alone that are all printable ASCII without a backslash. */
  lemma AsciiStaysIff(s: seq<byte>)
    ensures AsciiText(s) == s <==> forall b | b in s :: Printable(b)
  {
    AsciiGrows(s);
  }

  /** No control character, and no backslash. */
  predicate Shows(b: byte) {
    0x20 <= b && b != BACKSLASH
  }

  lemma {:induction false} Utf8Grows(s: seq<byte>)
    ensures |s| <= |Utf8Text(s)|
    ensures |Utf8Text(s)| == |s| ==> forall b | b in s :: Shows(b)
    decreases |s|
  {
    if s != [] {
      if 0xC2 <= s[0] <= 0xF4 && Sequence(s) > 0 {
        var n := Sequence(s);
        Utf8Grows(s[n..]);
        assert s == s[..n] + s[n..];
        assert forall b | b in s[..n] :: b >= 0x80;
      } else {
        Utf8Grows(s[1..]);
        assert s == [s[0]] + s[1..];
        assert |Ascii(s[0])| == 1 <==> Printable(s[0]);
      }
    }
  }

  lemma {:induction false} GlyphsStay(gs: seq<Glyph>)
    requires AllProper(gs) && forall b | b in Bytes(gs) :: Shows(b)
    ensures Utf8Text(Bytes(gs)) == Bytes(gs)
  {
    hide CharsMatch, Sequence, Ascii, ClassOf;
    if gs != [] {
      var g, rest := gs[0].bytes, Bytes(gs[1..]);
      assert gs[0] in gs && Bytes(gs) == g + rest && Bytes(gs)[0] == g[0];
      assert forall b | b in rest :: b in Bytes(gs);
      GlyphsStay(gs[1..]);
      GlyphStays(gs[0], rest);
    }
  }

  lemma GlyphStays(g: Glyph, rest: seq<byte>)
    requires Proper(g) && Shows(g.bytes[0])
    ensures Utf8Text(g.bytes + rest) == g.bytes + Utf8Text(rest)
  {
    hide CharsMatch, ClassOf, Utf8Text;
    var s, n := g.bytes + rest, |g.bytes|;
    GoodIf(g.bytes, 0, n);
    assert forall k | 0 <= k < n :: s[k] == g.bytes[k];
    assert s[..n] == g.bytes && s[n..] == rest;
    if s[0] < 0x7F {
      assert Ascii(s[0]) == [s[0]];
      Utf8TextStep(s, 0);
      assert s[0..] == s;
    } else {
      assert Sequence(s) == n;
      Utf8TextHead(s);
    }
  }

  /** safeutf8 leaves just those texts alone that are well formed and have neither control characters nor
      backslashes. */
  lemma Utf8StaysIff(s: seq<byte>)
    ensures Utf8Text(s) == s <==> WellFormed(s) && forall b | b in s :: Shows(b)
  {
    hide CharsMatch, Proper, Sequence, Ascii, Utf8Text, Scan;
    Utf8Grows(s);
    Utf8IsWellFormed(s);
    ScanIsProper(s, 0);
    if WellFormed(s) && forall b | b in s :: Shows(b) {
      GlyphsStay(Scan(s, 0));
    }
  }

  lemma SequenceIs(s: seq<byte>)
    requires s != []
    ensures var (cls, n) := CharsMatch(s, 0, |s|);
            if 0xC2 <= s[0] <= 0xF4 then (cls == Bad <==> Sequence(s) == 0) && (cls != Bad ==> n == Sequence(s))
            else (cls == Bad <==> s[0] >= 0x7F) && (cls != Bad ==> n == 1)
  {
    hide ClassOf, Low;
  }

  /** Character by character: what begins no character is escaped alone, as is a control character; a backslash is
      doubled; and any other character is left as it is, whatever comes after it. */
  lemma Utf8ByGlyph(s: seq<byte>)
    requires s != []
    ensures var (cls, n) := CharsMatch(s, 0, |s|);
            Utf8Text(s)
            == if cls == Bad || s[0] < 0x20 then C0(s[0]) + Utf8Text(s[1..])
               else if s[0] == BACKSLASH then [BACKSLASH, BACKSLASH] + Utf8Text(s[1..])
               else s[..n] + Utf8Text(s[n..])
  {
    SequenceIs(s);
    hide CharsMatch, Utf8Text, C0, Sequence;
    if 0xC2 <= s[0] <= 0xF4 {
      Utf8TextHead(s);
    } else {
      Utf8TextStep(s, 0);
      assert s[0..] == s && s[..1] == [s[0]];
    }
  }
}

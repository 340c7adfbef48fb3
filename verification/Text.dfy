/** Text as the wrapping and escaping code sees it: bytes, the UTF-8 characters found in them,
    and the class of each character. */
module Text {
  type byte = x: int | 0 <= x < 256

  datatype Class = Bad | Space | Combining | Shy | Hyphen | Reset | Char

  /** The class table, by ranges of character codes. */
  function ClassOf(c: int): (r: Class)
    ensures r != Bad
  {
    if c in {9, 32, 5760, 6158, 8287, 12288} || 8192 <= c <= 8198 || 8200 <= c <= 8205 then Space
    else if c in {45, 1418, 8208, 11799, 12539, 65123, 65293, 65381} || 8210 <= c <= 8212 then Hyphen
    else if c == 133 then Reset
    else if c in {173, 6150} then Shy
    else if 768 <= c <= 848 || 6832 <= c <= 6846 || 7616 <= c <= 7679 || 8400 <= c <= 8432 || 65056 <= c <= 65071
    then Combining
    else Char
  }

  predicate IsTail(b: byte) {
    0x80 <= b < 0xC0
  }

  function Low(b: byte): int {
    b % 0x40
  }

  /** The class of the character at `i` of `s`, looking no further than `len`, and where the next one starts.
      The code of a four-byte character is put together with the mask 0xF1, as the source has it. */
  function CharsMatch(s: seq<byte>, i: nat, len: nat): (r: (Class, nat))
    requires i < len <= |s|
    ensures r.0 != Bad ==> i < r.1 <= len
  {
    var c: int := s[i];
    if c < 0x7F then (ClassOf(c), i + 1)
    else if i + 2 > len || c < 0xC2 || c > 0xF4 then (Bad, i)
    else if c < 0xE0 then
      if IsTail(s[i + 1])
      then (ClassOf((c - 0xC0) * 0x40 + Low(s[i + 1])), i + 2)
      else (Bad, i)
    else if c < 0xF0 then
      if i + 3 <= len && IsTail(s[i + 1]) && IsTail(s[i + 2])
      then (ClassOf((c - 0xE0) * 0x1000 + Low(s[i + 1]) * 0x40 + Low(s[i + 2])), i + 3)
      else (Bad, i)
    else
      if i + 4 <= len && IsTail(s[i + 1]) && IsTail(s[i + 2]) && IsTail(s[i + 3])
      then (ClassOf((0xF0 + c % 2) * 0x40000 + Low(s[i + 1]) * 0x1000 + Low(s[i + 2]) * 0x40 + Low(s[i + 3])), i + 4)
      else (Bad, i)
  }

  /** How many bytes a character has that starts with `b`; none starts with DEL, a byte of a tail, or a byte that no
      character up to the last one needs. */
  ghost function LengthBy(b: byte): nat {
    if b < 0x7F then 1
    else if 0xC2 <= b < 0xE0 then 2
    else if 0xE0 <= b < 0xF0 then 3
    else if 0xF0 <= b <= 0xF4 then 4
    else 0
  }

  /** Bytes are good exactly if all of a character is there. */
  lemma GoodIf(s: seq<byte>, i: nat, len: nat)
    requires i < len <= |s|
    ensures CharsMatch(s, i, len).0 != Bad <==>
            var n := LengthBy(s[i]); 0 < n && i + n <= len && forall k | i < k < i + n :: IsTail(s[k])
    ensures CharsMatch(s, i, len).1 == if CharsMatch(s, i, len).0 == Bad then i else i + LengthBy(s[i])
  {
    hide ClassOf, Low;
    var n := LengthBy(s[i]);
    if 0 < n && i + n <= len {
      assert (forall k | i < k < i + n :: IsTail(s[k])) <==>
             (n >= 2 ==> IsTail(s[i + 1])) && (n >= 3 ==> IsTail(s[i + 2])) && (n >= 4 ==> IsTail(s[i + 3]));
    }
  }

  /** UTF-8, of the characters that take up to three bytes. */
  ghost function Utf8Of(code: int): seq<byte>
    requires 0 <= code < 0x1_0000
  {
    if code < 0x80 then [code]
    else if code < 0x800 then [0xC0 + code / 0x40, 0x80 + code % 0x40]
    else [0xE0 + code / 0x1000, 0x80 + code / 0x40 % 0x40, 0x80 + code % 0x40]
  }

  /** Each of those is found by its own class, and only DEL is bad. */
  lemma ClassOfUtf8(code: int)
    requires 0 <= code < 0x1_0000
    ensures var u := Utf8Of(code);
            CharsMatch(u, 0, |u|) == if code == 0x7F then (Bad, 0) else (ClassOf(code), |u|)
  {
    hide ClassOf;
  }

  /** The code of a four-byte character, by the encoding. */
  function Code4(s: seq<byte>, i: nat): int
    requires i + 4 <= |s|
  {
    s[i] % 8 * 0x40000 + Low(s[i + 1]) * 0x1000 + Low(s[i + 2]) * 0x40 + Low(s[i + 3])
  }

  /** What the mask 0xF1 does: every four-byte character is of the class Char. With the mask of the encoding, another
      class could be found only of a character written in more bytes than it needs. */
  lemma FourBytesAreChar(s: seq<byte>, i: nat, len: nat)
    requires i < len <= |s| && s[i] >= 0xF0 && CharsMatch(s, i, len).0 != Bad
    ensures CharsMatch(s, i, len) == (Char, i + 4)
    ensures ClassOf(Code4(s, i)) != Char ==> Code4(s, i) < 0x1_0000
  {
  }

  datatype Glyph = Glyph(cls: Class, bytes: seq<byte>)

  /** The characters of `s` from `i` on, up to the end or to the first that is bad. */
  ghost function Scan(s: seq<byte>, i: nat): seq<Glyph>
    requires i <= |s|
    decreases |s| - i
  {
    if i == |s| then []
    else
      var (cls, n) := CharsMatch(s, i, |s|);
      if cls == Bad then [] else [Glyph(cls, s[i..n])] + Scan(s, n)
  }

  ghost function Bytes(gs: seq<Glyph>): seq<byte> {
    if gs == [] then [] else gs[0].bytes + Bytes(gs[1..])
  }

  /** Text is well formed when it is all characters. */
  ghost predicate WellFormed(s: seq<byte>) {
    Bytes(Scan(s, 0)) == s
  }

  /** A glyph whose bytes read back as that glyph. */
  ghost predicate Proper(g: Glyph) {
    0 < |g.bytes| && g.cls != Bad && CharsMatch(g.bytes, 0, |g.bytes|) == (g.cls, |g.bytes|)
  }

  ghost predicate AllProper(gs: seq<Glyph>) {
    forall g | g in gs :: Proper(g)
  }

  /** A character is recognised by its own bytes, wherever they stand. */
  lemma MatchIsLocal(s: seq<byte>, i: nat, len: nat, g: Glyph)
    requires Proper(g) && i + |g.bytes| <= len <= |s| && s[i..i + |g.bytes|] == g.bytes
    ensures CharsMatch(s, i, len) == (g.cls, i + |g.bytes|)
  {
    hide ClassOf, Low;
    forall k | 0 <= k < |g.bytes| ensures s[i + k] == g.bytes[k] {
      assert s[i + k] == s[i..i + |g.bytes|][k];
    }
  }

  lemma MatchIsProper(s: seq<byte>, i: nat, len: nat)
    requires i < len <= |s| && CharsMatch(s, i, len).0 != Bad
    ensures var (cls, n) := CharsMatch(s, i, len); Proper(Glyph(cls, s[i..n]))
  {
    hide ClassOf, Low;
    var n := CharsMatch(s, i, len).1;
    var t := s[i..n];
    assert t[0] == s[i];
    assert n - i >= 2 ==> t[1] == s[i + 1];
    assert n - i >= 3 ==> t[2] == s[i + 2];
    assert n - i >= 4 ==> t[3] == s[i + 3];
  }

  lemma {:induction false} BytesOfConcat(a: seq<Glyph>, b: seq<Glyph>)
    ensures Bytes(a + b) == Bytes(a) + Bytes(b)
  {
    if a == [] {
      assert a + b == b;
    } else {
      assert (a + b)[1..] == a[1..] + b;
      BytesOfConcat(a[1..], b);
    }
  }

  lemma {:induction false} ScanIsProper(s: seq<byte>, i: nat)
    requires i <= |s|
    ensures AllProper(Scan(s, i)) && Bytes(Scan(s, i)) <= s[i..]
    decreases |s| - i
  {
    if i < |s| {
      var (cls, n) := CharsMatch(s, i, |s|);
      if cls != Bad {
        MatchIsProper(s, i, |s|);
        ScanIsProper(s, n);
        assert s[i..] == s[i..n] + s[n..];
      }
    }
  }

  /** Scanning undoes joining: proper glyphs are found again in their bytes, whatever comes before. */
  lemma {:induction false} ScanOfBytes(before: seq<byte>, gs: seq<Glyph>)
    requires AllProper(gs)
    ensures Scan(before + Bytes(gs), |before|) == gs
    decreases |gs|
  {
    hide ClassOf, CharsMatch;
    var s := before + Bytes(gs);
    if gs != [] {
      assert s[|before|..|before| + |gs[0].bytes|] == gs[0].bytes;
      assert gs[0] in gs;
      MatchIsLocal(s, |before|, |s|, gs[0]);
      ScanOfBytes(before + gs[0].bytes, gs[1..]);
      assert s == before + gs[0].bytes + Bytes(gs[1..]);
    }
  }
}

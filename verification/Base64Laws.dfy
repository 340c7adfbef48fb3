/** When decoding undoes encoding, and what strict decoding accepts. */
module Base64Laws {
  import opened Wrappers
  import opened Text
  import opened Base64

  /** `d` can read what `e` writes: they share alphabet and padding, and line ends can be told from both. */
  predicate Reads(d: Codec, e: Codec) {
    && Usable(e) && d.table == e.table && d.pad == e.pad
    && (e.len.Some? ==> d.len.Some? && LF !in e.table && e.pad != LF)
  }

  /** An encoding that fills its last line ends in a newline. */
  ghost predicate EndsInNewline(e: Codec, data: seq<byte>, len: nat)
    decreases |data|
  {
    |data| >= 3 &&
    if LineFull(e, len + 4) then |data| == 3 || EndsInNewline(e, data[3..], 0)
    else EndsInNewline(e, data[3..], len + 4)
  }

  lemma {:induction false} FindAt(table: seq<byte>, k: nat)
    requires k < |table| && forall i, j | 0 <= i < j < |table| :: table[i] != table[j]
    ensures Find(table, table[k]) == Some(k)
  {
    if k > 0 {
      assert table[0] != table[k];
      assert table[1..][k - 1] == table[k];
      FindAt(table[1..], k - 1);
    }
  }

  lemma Halves(n: int, m: int)
    requires 0 <= n && 0 <= m < 16
    ensures (n * 16 + m) / 16 == n && (n * 16 + m) % 16 == m
  {
  }

  lemma Quarters(n: int, m: int)
    requires 0 <= n && 0 <= m < 4
    ensures (n * 4 + m) / 4 == n && (n * 4 + m) % 4 == m
  {
  }

  lemma MergeOfSplit(x: byte, y: byte, z: byte)
    ensures var (a, b, c, d) := Split(x, y, z); SixBits([a, b, c, d]) && Merge([a, b, c, d]) == (x, y, z)
  {
    Halves(x % 4, y / 16);
    Quarters(y % 16, z / 64);
    hide SixBits;
    var (a, b, c, d) := Split(x, y, z);
    SixBitsOf(a, b, c, d);
  }

  lemma SixBitsOf(a: int, b: int, c: int, d: int)
    requires 0 <= a < 64 && 0 <= b < 64 && 0 <= c < 64 && 0 <= d < 64
    ensures SixBits([a, b, c, d]) && [a, b, c, d][0] == a && [a, b, c, d][1] == b && [a, b, c, d][2] == c
            && [a, b, c, d][3] == d
  {
  }

  /** What may stand between two groups. */
  predicate Lead(e: Codec, lead: seq<byte>) {
    lead == [] || (lead == [LF] && e.len.Some?)
  }

  lemma ReadLetter(d: Codec, e: Codec, lead: seq<byte>, k: nat, rest: seq<byte>)
    requires Reads(d, e) && Lead(e, lead) && k < 64
    ensures var text := lead + [d.table[k]] + rest;
            Read(d, text, text) == Some(Reading(k, false, rest)) && !Ended(text)
  {
    var text := lead + [d.table[k]] + rest;
    var t := [d.table[k]] + rest;
    FindAt(d.table, k);
    assert d.table[k] in d.table;
    assert t[1..] == rest;
    if lead == [LF] {
      assert text[1..] == t;
      assert Find(d.table, LF).None?;
    } else {
      assert text == t;
    }
  }

  lemma ReadManyStep(d: Codec, n: nat, got: Readings, r: Reading)
    requires n > 0 && Read(d, got.rest, got.rest) == Some(r)
    ensures ReadMany(d, n, got)
            == ReadMany(d, n - 1, Readings(got.values + [r.value], got.missing + if r.missing then 1 else 0, r.rest))
  {
  }

  /** The first two letters of a group; they are always there. */
  lemma ReadTwo(d: Codec, e: Codec, lead: seq<byte>, i: nat, j: nat, rest: seq<byte>)
    requires Reads(d, e) && Lead(e, lead) && i < 64 && j < 64
    ensures var text := lead + [d.table[i], d.table[j]] + rest;
            ReadMany(d, 4, Readings([], 0, text)) == ReadMany(d, 2, Readings([i, j], 0, rest)) && !Ended(text)
  {
    hide ReadMany, Read, Find;
    var text := lead + [d.table[i], d.table[j]] + rest;
    assert text == lead + [d.table[i]] + ([d.table[j]] + rest);
    ReadLetter(d, e, lead, i, [d.table[j]] + rest);
    assert [d.table[j]] + rest == [] + [d.table[j]] + rest;
    ReadLetter(d, e, [], j, rest);
    ReadManyStep(d, 4, Readings([], 0, text), Reading(i, false, [d.table[j]] + rest));
    ReadManyStep(d, 3, Readings([i], 0, [d.table[j]] + rest), Reading(j, false, rest));
    assert [] + [i] == [i] && [i] + [j] == [i, j];
  }

  lemma ReadGroup(d: Codec, e: Codec, lead: seq<byte>, v: seq<int>, rest: seq<byte>)
    requires Reads(d, e) && Lead(e, lead) && SixBits(v)
    ensures v[0] in v && v[1] in v && v[2] in v && v[3] in v
    ensures var text := lead + [d.table[v[0]], d.table[v[1]], d.table[v[2]], d.table[v[3]]] + rest;
            ReadMany(d, 4, Readings([], 0, text)) == Some(Readings(v, 0, rest)) && !Ended(text)
  {
    hide Read, Find;
    assert v[0] in v && v[1] in v && v[2] in v && v[3] in v;
    var text := lead + [d.table[v[0]], d.table[v[1]], d.table[v[2]], d.table[v[3]]] + rest;
    var t3 := [d.table[v[3]]] + rest;
    var t2 := [d.table[v[2]]] + t3;
    assert text == lead + [d.table[v[0]], d.table[v[1]]] + t2;
    ReadTwo(d, e, lead, v[0], v[1], t2);
    assert t2 == [] + [d.table[v[2]]] + t3 && t3 == [] + [d.table[v[3]]] + rest;
    ReadLetter(d, e, [], v[2], t3);
    ReadLetter(d, e, [], v[3], rest);
    ReadManyStep(d, 2, Readings([v[0], v[1]], 0, t2), Reading(v[2], false, t3));
    ReadManyStep(d, 1, Readings([v[0], v[1]] + [v[2]], 0, t3), Reading(v[3], false, rest));
    assert [v[0], v[1]] + [v[2]] + [v[3]] == v;
  }

  lemma ReadPad(d: Codec, n: nat)
    requires |d.table| == 64
    ensures var text := Padding(d, n + 1); Read(d, text, text) == Some(Reading(0, true, Padding(d, n)))
  {
    if d.pad != NUL {
      assert Padding(d, n + 1)[1..] == Padding(d, n);
    }
  }

  lemma ReadNothing(d: Codec)
    ensures Padding(d, 0) == [] && Ended([])
  {
  }

  /** A group of one byte. */
  lemma ReadOne(d: Codec, e: Codec, lead: seq<byte>, i: nat, j: nat)
    requires Reads(d, e) && Lead(e, lead) && i < 64 && j < 64
    ensures var text := lead + [d.table[i], d.table[j]] + Padding(d, 2);
            ReadMany(d, 4, Readings([], 0, text)) == Some(Readings([i, j, 0, 0], 2, [])) && !Ended(text)
  {
    hide Read, Padding;
    ReadTwo(d, e, lead, i, j, Padding(d, 2));
    ReadPad(d, 1);
    ReadPad(d, 0);
    ReadNothing(d);
    ReadManyStep(d, 2, Readings([i, j], 0, Padding(d, 2)), Reading(0, true, Padding(d, 1)));
    ReadManyStep(d, 1, Readings([i, j] + [0], 1, Padding(d, 1)), Reading(0, true, []));
    assert [i, j] + [0] + [0] == [i, j, 0, 0];
  }

  /** A group of two bytes. */
  lemma ReadPair(d: Codec, e: Codec, lead: seq<byte>, i: nat, j: nat, k: nat)
    requires Reads(d, e) && Lead(e, lead) && i < 64 && j < 64 && k < 64
    ensures var text := lead + [d.table[i], d.table[j], d.table[k]] + Padding(d, 1);
            ReadMany(d, 4, Readings([], 0, text)) == Some(Readings([i, j, k, 0], 1, [])) && !Ended(text)
  {
    hide Read, Padding;
    var text := lead + [d.table[i], d.table[j], d.table[k]] + Padding(d, 1);
    var t := [d.table[k]] + Padding(d, 1);
    assert text == lead + [d.table[i], d.table[j]] + t;
    ReadTwo(d, e, lead, i, j, t);
    assert t == [] + [d.table[k]] + Padding(d, 1);
    ReadLetter(d, e, [], k, Padding(d, 1));
    ReadPad(d, 0);
    ReadNothing(d);
    ReadManyStep(d, 2, Readings([i, j], 0, t), Reading(k, false, Padding(d, 1)));
    ReadManyStep(d, 1, Readings([i, j] + [k], 0, Padding(d, 1)), Reading(0, true, []));
    assert [i, j] + [k] + [0] == [i, j, k, 0];
  }

  /** A newline that ends the text is never got past: every value is missing. */
  lemma NewlineAtEnd(d: Codec, e: Codec, buf: seq<byte>)
    requires Reads(d, e) && e.len.Some?
    ensures Decoded(d, [LF], 0, buf) == AssertionFailed
  {
    var r := Reading(0, true, [LF]);
    assert Find(d.table, LF).None?;
    assert [LF][1..] == [];
    assert Read(d, [LF], [LF]) == Some(r);
    ReadManyStep(d, 4, Readings([], 0, [LF]), r);
    ReadManyStep(d, 3, Readings([] + [0], 1, [LF]), r);
    ReadManyStep(d, 2, Readings([] + [0] + [0], 2, [LF]), r);
    ReadManyStep(d, 1, Readings([] + [0] + [0] + [0], 3, [LF]), r);
  }

  lemma DecodedStep(d: Codec, text: seq<byte>, buf: seq<byte>, r: Readings)
    requires |d.table| == 64 && !Ended(text) && ReadMany(d, 4, Readings([], 0, text)) == Some(r)
    requires SixBits(r.values) && r.missing <= 2
    ensures var (x, y, z) := Merge(r.values);
            Decoded(d, text, 0, buf)
            == if d.strict && ((r.missing == 2 && (y != 0 || z != 0)) || (r.missing == 1 && z != 0)) then Rejected
               else Decoded(d, r.rest, r.missing, buf + [x, y, z][..3 - r.missing])
  {
    hide ReadMany, Merge;
    ReadManyShape(d, 4, Readings([], 0, text));
  }

  lemma DecodedOne(d: Codec, e: Codec, lead: seq<byte>, x: byte, buf: seq<byte>)
    requires Reads(d, e) && Lead(e, lead)
    ensures Decoded(d, lead + (Group(e, x, 0, 0)[..2] + Padding(e, 2)), 0, buf) == Value(buf + [x])
  {
    hide ReadMany, Merge, Split, Decoded, SixBits;
    var (a, b, _, _) := Split(x, 0, 0);
    var text := lead + [d.table[a], d.table[b]] + Padding(d, 2);
    assert Group(e, x, 0, 0)[..2] == [d.table[a], d.table[b]];
    assert text == lead + (Group(e, x, 0, 0)[..2] + Padding(e, 2));
    ReadOne(d, e, lead, a, b);
    MergeOfSplit(x, 0, 0);
    ShortSplit(x, 0);
    DecodedStep(d, text, buf, Readings([a, b, 0, 0], 2, []));
    NothingToDecode(d, buf + [x]);
    assert [x, 0, 0][..3 - 2] == [x];
  }

  lemma DecodedPair(d: Codec, e: Codec, lead: seq<byte>, x: byte, y: byte, buf: seq<byte>)
    requires Reads(d, e) && Lead(e, lead)
    ensures Decoded(d, lead + (Group(e, x, y, 0)[..3] + Padding(e, 1)), 0, buf) == Value(buf + [x, y])
  {
    hide ReadMany, Merge, Split, Decoded, SixBits;
    var (a, b, c, _) := Split(x, y, 0);
    var text := lead + [d.table[a], d.table[b], d.table[c]] + Padding(d, 1);
    assert Group(e, x, y, 0)[..3] == [d.table[a], d.table[b], d.table[c]];
    assert text == lead + (Group(e, x, y, 0)[..3] + Padding(e, 1));
    ReadPair(d, e, lead, a, b, c);
    MergeOfSplit(x, y, 0);
    ShortSplit(x, y);
    DecodedStep(d, text, buf, Readings([a, b, c, 0], 1, []));
    NothingToDecode(d, buf + [x, y]);
    assert [x, y, 0][..3 - 1] == [x, y];
  }

  lemma DecodedGroup(d: Codec, e: Codec, lead: seq<byte>, x: byte, y: byte, z: byte, rest: seq<byte>, buf: seq<byte>)
    requires Reads(d, e) && Lead(e, lead)
    ensures Decoded(d, lead + (Group(e, x, y, z) + rest), 0, buf) == Decoded(d, rest, 0, buf + [x, y, z])
  {
    hide ReadMany, Merge, Split, Decoded, SixBits;
    var (a, b, c, f) := Split(x, y, z);
    var text := lead + [d.table[a], d.table[b], d.table[c], d.table[f]] + rest;
    assert text == lead + (Group(e, x, y, z) + rest);
    MergeOfSplit(x, y, z);
    ReadGroup(d, e, lead, [a, b, c, f], rest);
    DecodedStep(d, text, buf, Readings([a, b, c, f], 0, rest));
    assert [x, y, z][..3] == [x, y, z];
  }

  /** Decoding an encoding gives the data back, unless the encoding ends in a newline. */
  lemma {:induction false} DecodedEncoding(d: Codec, e: Codec, data: seq<byte>, len: nat, lead: seq<byte>,
                                           buf: seq<byte>)
    requires Reads(d, e) && Lead(e, lead)
    ensures Decoded(d, lead + Encoded(e, data, len), 0, buf)
            == if (lead == [LF] && data == []) || EndsInNewline(e, data, len) then AssertionFailed
               else Value(buf + data)
    decreases |data|
  {
    hide Group, Padding, Decoded, Reads;
    assert |e.table| == 64 && |d.table| == 64 by { TableSizes(d, e); }
    if |data| == 0 {
      assert lead + Encoded(e, data, len) == lead;
      if lead == [] {
        NothingToDecode(d, buf);
        assert buf + data == buf;
      } else {
        NewlineAtEnd(d, e, buf);
      }
    } else if |data| == 1 {
      DecodedOne(d, e, lead, data[0], buf);
      assert [data[0]] == data;
    } else if |data| == 2 {
      DecodedPair(d, e, lead, data[0], data[1], buf);
      assert [data[0], data[1]] == data;
    } else {
      var full := LineFull(e, len + 4);
      var lead' := if full then [LF] else [];
      var len' := if full then 0 else len + 4;
      var rest := lead' + Encoded(e, data[3..], len');
      assert full || rest == Encoded(e, data[3..], len');
      DecodedGroup(d, e, lead, data[0], data[1], data[2], rest, buf);
      DecodedEncoding(d, e, data[3..], len', lead', buf + [data[0], data[1], data[2]]);
      assert buf + [data[0], data[1], data[2]] + data[3..] == buf + data;
    }
  }

  lemma TableSizes(d: Codec, e: Codec)
    requires Reads(d, e)
    ensures |e.table| == 64 && |d.table| == 64
  {
  }

  lemma NothingToDecode(d: Codec, buf: seq<byte>)
    requires |d.table| == 64
    ensures forall skip: nat | skip <= 2 :: Decoded(d, [], skip, buf) == Value(buf)
  {
  }

  lemma ShortSplit(x: byte, y: byte)
    ensures Split(x, y, 0).3 == 0 && Split(x, 0, 0).2 == 0
  {
  }

  // ---------- Which encodings end in a newline ----------

  /** How many groups of four characters go on a line. */
  function PerLine(e: Codec): (q: nat)
    requires e.len.Some?
    ensures q >= 1 && 4 * q >= e.len.value && (q == 1 || 4 * (q - 1) < e.len.value)
  {
    if e.len.value == 0 then 1 else (e.len.value + 3) / 4
  }

  lemma ModStep(n: nat, q: nat)
    requires q > 0
    ensures (n + q) % q == n % q
  {
    var m := (n + q) / q - n / q;
    assert (n + q) % q - n % q == q - m * q;
    assert q - m * q < q && 0 < q - m * q + q;
    Multiples(m, q);
  }

  lemma Multiples(m: int, q: nat)
    ensures m > 1 ==> m * q >= 2 * q
    ensures m < 1 ==> m * q <= 0
  {
  }

  lemma {:induction false} NewlineWhen(e: Codec, data: seq<byte>, k: nat)
    requires e.len.Some? && k < PerLine(e)
    ensures EndsInNewline(e, data, 4 * k) <==> data != [] && |data| % 3 == 0 && (|data| / 3 + k) % PerLine(e) == 0
    decreases |data|
  {
    hide PerLine;
    var q := PerLine(e);
    if |data| >= 3 {
      var n := |data| / 3;
      assert |data[3..]| / 3 == n - 1 && |data[3..]| % 3 == |data| % 3;
      if k + 1 == q {
        NewlineWhen(e, data[3..], 0);
        LastOfLine(n, k, q);
      } else {
        assert !LineFull(e, 4 * k + 4);
        NewlineWhen(e, data[3..], k + 1);
        SmallMod(k + 1, q);
      }
    }
  }

  lemma LastOfLine(n: nat, k: nat, q: nat)
    requires n >= 1 && k + 1 == q
    ensures (n + k) % q == (n - 1) % q && 0 % q == 0
  {
    ModStep(n - 1, q);
  }

  lemma SmallMod(k: nat, q: nat)
    requires k < q
    ensures k % q == k
  {
  }

  lemma {:induction false} NoLines(e: Codec, data: seq<byte>, len: nat)
    requires e.len.None?
    ensures !EndsInNewline(e, data, len)
    decreases |data|
  {
    if |data| >= 3 {
      NoLines(e, data[3..], len + 4);
    }
  }

  /** Decoding undoes encoding exactly for the data whose encoding does not end in a newline: with lines unlimited all
      data, and otherwise all but the data that fills a whole number of lines. */
  lemma RoundTrip(b64: Codec, data: seq<byte>)
    requires Reads(b64, b64)
    ensures var whole := b64.len.Some? && data != [] && |data| % 3 == 0 && |data| / 3 % PerLine(b64) == 0;
            Decoded(b64, Encoded(b64, data, 0), 0, []) == if whole then AssertionFailed else Value(data)
  {
    hide Encoded, Decoded, EndsInNewline;
    DecodedEncoding(b64, b64, data, 0, [], []);
    assert [] + Encoded(b64, data, 0) == Encoded(b64, data, 0) && [] + data == data;
    if b64.len.Some? {
      NewlineWhen(b64, data, 0);
    } else {
      NoLines(b64, data, 0);
    }
  }

  // ---------- Strict decoding ----------

  predicate Letters(b64: Codec, text: seq<byte>) {
    forall c | c in text :: c in b64.table
  }

  /** Whole groups of letters, the last one or two of which may be padding. */
  predicate Shaped(b64: Codec, text: seq<byte>) {
    && |text| % 4 == 0
    && (text == [] || Letters(b64, text)
        || (b64.pad != NUL && Letters(b64, text[..|text| - 1]) && text[|text| - 1] == b64.pad)
        || (b64.pad != NUL && Letters(b64, text[..|text| - 2]) && text[|text| - 2..] == [b64.pad, b64.pad]))
  }

  lemma SplitOfMerge(a: int, b: int, c: int, d: int)
    requires 0 <= a < 64 && 0 <= b < 64 && 0 <= c < 64 && 0 <= d < 64
    ensures SixBits([a, b, c, d])
    ensures var (x, y, z) := Merge([a, b, c, d]); Split(x, y, z) == (a, b, c, d)
  {
    SixBitsOf(a, b, c, d);
    assert (a * 4 + b / 16) % 4 == b / 16 by { Quarters(a, b / 16); }
    assert (a * 4 + b / 16) / 4 == a by { Quarters(a, b / 16); }
    Halves(b % 16, c / 4);
    Sixtyfours(c % 4, d);
  }

  lemma Sixtyfours(n: int, m: int)
    requires 0 <= n && 0 <= m < 64
    ensures (n * 64 + m) / 64 == n && (n * 64 + m) % 64 == m
  {
  }

  lemma GroupOfMerge(e: Codec, v: seq<int>)
    requires |e.table| == 64 && SixBits(v)
    ensures v[0] in v && v[1] in v && v[2] in v && v[3] in v
    ensures var (x, y, z) := Merge(v);
            Group(e, x, y, z) == [e.table[v[0]], e.table[v[1]], e.table[v[2]], e.table[v[3]]]
  {
    assert v[0] in v && v[1] in v && v[2] in v && v[3] in v;
    assert v == [v[0], v[1], v[2], v[3]];
    SplitOfMerge(v[0], v[1], v[2], v[3]);
  }

  function Unlimited(b64: Codec): Codec {
    b64.(len := None)
  }

  function IndexOf(d: Codec, c: byte): (k: nat)
    requires c in d.table && |d.table| == 64
    ensures k < 64 && d.table[k] == c
  {
    Find(d.table, c).value
  }

  /** Decoding takes the text exactly if it is how the data is encoded, and takes it for nothing else. */
  ghost predicate Strictly(d: Codec, t: seq<byte>, buf: seq<byte>, len: nat, v: seq<byte>)
    requires |d.table| == 64
  {
    || Decoded(d, t, 0, buf) == Rejected
    || (Decoded(d, t, 0, buf) == Value(buf + v) && Encoded(Unlimited(d), v, len) == t)
  }

  lemma StrictThree(d: Codec, t: seq<byte>, buf: seq<byte>, len: nat) returns (v: seq<byte>)
    requires Usable(d) && d.strict && |t| == 4
    requires t[0] in d.table && t[1] in d.table && t[2] in d.table && t[3] in d.table
    ensures Strictly(d, t, buf, len, v)
  {
    hide ReadMany, Merge, Split, Decoded, SixBits, Group;
    var e := Unlimited(d);
    var w := [IndexOf(d, t[0]), IndexOf(d, t[1]), IndexOf(d, t[2]), IndexOf(d, t[3])];
    SixBitsOf(w[0], w[1], w[2], w[3]);
    assert [] + [d.table[w[0]], d.table[w[1]], d.table[w[2]], d.table[w[3]]] + [] == t;
    ReadGroup(d, e, [], w, []);
    DecodedStep(d, t, buf, Readings(w, 0, []));
    GroupOfMerge(e, w);
    var (x, y, z) := Merge(w);
    v := [x, y, z];
    assert [x, y, z][..3 - 0] == v && v[3..] == [];
    NothingToDecode(d, buf + v);
    assert Encoded(e, v, len) == Group(e, x, y, z) + Encoded(e, v[3..], len + 4);
  }

  lemma StrictTwo(d: Codec, t: seq<byte>, buf: seq<byte>, len: nat) returns (v: seq<byte>)
    requires Usable(d) && d.strict && |t| == 4 && d.pad != NUL
    requires t[0] in d.table && t[1] in d.table && t[2] in d.table && t[3] == d.pad
    ensures Strictly(d, t, buf, len, v)
  {
    hide ReadMany, Merge, Split, Decoded, SixBits, Group;
    var e := Unlimited(d);
    var a, b, c := IndexOf(d, t[0]), IndexOf(d, t[1]), IndexOf(d, t[2]);
    SixBitsOf(a, b, c, 0);
    assert [] + [d.table[a], d.table[b], d.table[c]] + Padding(d, 1) == t;
    ReadPair(d, e, [], a, b, c);
    DecodedStep(d, t, buf, Readings([a, b, c, 0], 1, []));
    GroupOfMerge(e, [a, b, c, 0]);
    var (x, y, z) := Merge([a, b, c, 0]);
    v := [x, y];
    assert [x, y, z][..3 - 1] == v;
    NothingToDecode(d, buf + v);
    if z == 0 {
      assert Group(e, x, y, 0)[..3] == t[..3];
      assert t == t[..3] + Padding(e, 1);
    }
  }

  lemma StrictOne(d: Codec, t: seq<byte>, buf: seq<byte>, len: nat) returns (v: seq<byte>)
    requires Usable(d) && d.strict && |t| == 4 && d.pad != NUL
    requires t[0] in d.table && t[1] in d.table && t[2] == d.pad && t[3] == d.pad
    ensures Strictly(d, t, buf, len, v)
  {
    hide ReadMany, Merge, Split, Decoded, SixBits, Group;
    var e := Unlimited(d);
    var a, b := IndexOf(d, t[0]), IndexOf(d, t[1]);
    SixBitsOf(a, b, 0, 0);
    assert [] + [d.table[a], d.table[b]] + Padding(d, 2) == t;
    ReadOne(d, e, [], a, b);
    DecodedStep(d, t, buf, Readings([a, b, 0, 0], 2, []));
    GroupOfMerge(e, [a, b, 0, 0]);
    var (x, y, z) := Merge([a, b, 0, 0]);
    v := [x];
    assert [x, y, z][..3 - 2] == v;
    NothingToDecode(d, buf + v);
    if y == 0 && z == 0 {
      assert Group(e, x, 0, 0)[..2] == t[..2];
      assert t == t[..2] + Padding(e, 2);
    }
  }

  lemma ShapedFour(d: Codec, t: seq<byte>)
    requires Usable(d) && |t| == 4 && Shaped(d, t)
    ensures t[0] in d.table && t[1] in d.table
    ensures if t[2] in d.table then t[3] in d.table || (d.pad != NUL && t[3] == d.pad)
            else d.pad != NUL && t[2] == d.pad && t[3] == d.pad
  {
    assert t[..2] == [t[0], t[1]] && t[..3] == [t[0], t[1], t[2]] && t[2..] == [t[2], t[3]];
    assert t[0] in t && t[1] in t && t[2] in t && t[3] in t;
  }

  lemma {:induction false} StrictDecodes(d: Codec, t: seq<byte>, buf: seq<byte>, len: nat) returns (v: seq<byte>)
    requires Usable(d) && d.strict && Shaped(d, t)
    ensures Strictly(d, t, buf, len, v)
    decreases |t|
  {
    hide ReadMany, Merge, Split, Decoded, SixBits, Group;
    var e := Unlimited(d);
    if t == [] {
      v := [];
      NothingToDecode(d, buf);
      assert buf + v == buf;
    } else if |t| == 4 {
      ShapedFour(d, t);
      if t[3] in d.table {
        v := StrictThree(d, t, buf, len);
      } else if t[2] in d.table {
        v := StrictTwo(d, t, buf, len);
      } else {
        v := StrictOne(d, t, buf, len);
      }
    } else {
      ShapedStep(d, t);
      var w := [IndexOf(d, t[0]), IndexOf(d, t[1]), IndexOf(d, t[2]), IndexOf(d, t[3])];
      SixBitsOf(w[0], w[1], w[2], w[3]);
      var rest := t[4..];
      assert [] + [d.table[w[0]], d.table[w[1]], d.table[w[2]], d.table[w[3]]] + rest == t;
      ReadGroup(d, e, [], w, rest);
      DecodedStep(d, t, buf, Readings(w, 0, rest));
      GroupOfMerge(e, w);
      var (x, y, z) := Merge(w);
      assert [x, y, z][..3 - 0] == [x, y, z];
      var v' := StrictDecodes(d, rest, buf + [x, y, z], len + 4);
      v := [x, y, z] + v';
      assert buf + [x, y, z] + v' == buf + v;
      assert v[3..] == v';
      if Encoded(e, v', len + 4) == rest {
        assert Encoded(e, v, len) == Group(e, x, y, z) + rest;
        assert t == t[..4] + rest;
      }
    }
  }

  lemma ShapedStep(d: Codec, t: seq<byte>)
    requires Shaped(d, t) && |t| > 4
    ensures t[0] in d.table && t[1] in d.table && t[2] in d.table && t[3] in d.table && Shaped(d, t[4..])
  {
    var n, u := |t|, t[4..];
    assert t[0] == t[..n - 2][0] && t[1] == t[..n - 2][1] && t[2] == t[..n - 2][2] && t[3] == t[..n - 2][3];
    assert t[0] == t[..n - 1][0] && t[1] == t[..n - 1][1] && t[2] == t[..n - 1][2] && t[3] == t[..n - 1][3];
    assert t[0] in t && t[1] in t && t[2] in t && t[3] in t;
    assert u[..n - 4 - 1] == t[..n - 1][4..] && u[..n - 4 - 2] == t[..n - 2][4..];
    assert u[n - 4 - 2..] == t[n - 2..];
    LettersDrop(d, t);
    LettersDrop(d, t[..n - 1]);
    LettersDrop(d, t[..n - 2]);
  }

  lemma LettersDrop(d: Codec, t: seq<byte>)
    requires |t| >= 4
    ensures Letters(d, t) ==> Letters(d, t[4..])
  {
    forall c | c in t[4..] ensures c in t {
    }
  }

  /** Strict decoding gives a value for text of whole groups exactly if the text is that value's encoding, with no
      newlines. */
  lemma StrictIsCanonical(d: Codec, t: seq<byte>, v: seq<byte>)
    requires Usable(d) && d.strict && Shaped(d, t)
    ensures Decoded(d, t, 0, []) == Value(v) <==> Encoded(Unlimited(d), v, 0) == t
  {
    hide Decoded, Encoded, Shaped, EndsInNewline;
    var w := StrictDecodes(d, t, [], 0);
    assert [] + w == w && [] + v == v;
    if Encoded(Unlimited(d), v, 0) == t {
      DecodedEncoding(d, Unlimited(d), v, 0, [], []);
      NoLines(Unlimited(d), v, 0);
      assert [] + t == t;
    }
  }

  // ---------- What decoding passes over ----------

  /** A character that is passed over wherever it stands: a line end if lines are limited, or anything foreign. */
  predicate Skipped(d: Codec, c: byte) {
    c != NUL && c != d.pad && c !in d.table && ((d.len.Some? && c in {CR, LF}) || d.ignoring)
  }

  ghost function Stripped(d: Codec, t: seq<byte>): seq<byte> {
    if t == [] then [] else (if Skipped(d, t[0]) then [] else [t[0]]) + Stripped(d, t[1..])
  }

  /** What is read is the first character that is not passed over. */
  lemma {:induction false} ReadIs(d: Codec, text: seq<byte>, t: seq<byte>)
    ensures var u := Stripped(d, t);
            match Read(d, text, t)
            case None => u != [] && u[0] != NUL && u[0] != d.pad && u[0] !in d.table
            case Some(r) =>
              if u == [] || u[0] == NUL then r == Reading(0, true, text)
              else
                && |r.rest| < |t| && r.rest == t[|t| - |r.rest|..] && Stripped(d, r.rest) == u[1..]
                && (if u[0] == d.pad then r.missing && r.value == 0
                    else !r.missing && 0 <= r.value < |d.table| && d.table[r.value] == u[0])
    decreases |t|
  {
    if t != [] {
      var u := Stripped(d, t);
      if Skipped(d, t[0]) {
        ReadIs(d, text, t[1..]);
        assert u == Stripped(d, t[1..]);
      } else {
        assert u[0] == t[0] && u[1..] == Stripped(d, t[1..]);
      }
    }
  }

  /** There is no NUL in the text, and it does not end in something passed over. */
  predicate Solid(d: Codec, t: seq<byte>) {
    NUL !in t && (t != [] ==> !Skipped(d, t[|t| - 1]))
  }

  lemma {:induction false} SolidShows(d: Codec, t: seq<byte>)
    requires Solid(d, t)
    ensures t != [] ==> Stripped(d, t) != [] && Stripped(d, t)[0] != NUL
  {
    if |t| > 1 {
      assert t[1..][|t| - 2] == t[|t| - 1];
      SolidShows(d, t[1..]);
    }
  }

  lemma {:induction false} StrippedTwice(d: Codec, t: seq<byte>)
    ensures Stripped(d, Stripped(d, t)) == Stripped(d, t) && |Stripped(d, t)| <= |t|
  {
    if t != [] {
      StrippedTwice(d, t[1..]);
      var u, rest := Stripped(d, t), Stripped(d, t[1..]);
      if Skipped(d, t[0]) {
        assert u == rest;
      } else {
        assert u == [t[0]] + rest && u[1..] == rest;
        assert Stripped(d, u) == [t[0]] + Stripped(d, rest);
      }
    }
  }

  lemma SolidRest(d: Codec, t: seq<byte>, n: nat)
    requires Solid(d, t) && n <= |t|
    ensures Solid(d, t[n..])
  {
  }

  lemma ReadStripped(d: Codec, t: seq<byte>)
    requires Usable(d) && Solid(d, t)
    ensures var u := Stripped(d, t);
            match Read(d, t, t)
            case None => Read(d, u, u) == None
            case Some(r) =>
              && Solid(d, r.rest) && |r.rest| <= |t| && (t != [] ==> |r.rest| < |t|)
              && Read(d, u, u) == Some(Reading(r.value, r.missing, Stripped(d, r.rest)))
  {
    hide Read, Stripped, Skipped;
    var u := Stripped(d, t);
    ReadIs(d, t, t);
    StrippedTwice(d, t);
    ReadIs(d, u, u);
    SolidShows(d, t);
    var r, r' := Read(d, t, t), Read(d, u, u);
    if t == [] {
      NothingStripped(d);
    } else if r.Some? {
      SolidRest(d, t, |t| - |r.value.rest|);
      StrippedRest(d, u, r'.value.rest);
      assert r'.value.rest == u[1..];
    }
  }

  lemma NothingStripped(d: Codec)
    ensures Stripped(d, []) == [] && Read(d, [], []) == Some(Reading(0, true, []))
  {
  }

  /** Of text that has nothing to pass over, what strips to all but its first character is all but that. */
  lemma StrippedRest(d: Codec, u: seq<byte>, rest: seq<byte>)
    requires u != [] && Stripped(d, u) == u && |rest| < |u| && rest == u[|u| - |rest|..] && Stripped(d, rest) == u[1..]
    ensures rest == u[1..]
  {
    StrippedTwice(d, rest);
  }

  lemma {:induction false} ReadManyStripped(d: Codec, n: nat, got: Readings)
    requires Usable(d) && Solid(d, got.rest)
    ensures match ReadMany(d, n, got)
            case None => ReadMany(d, n, got.(rest := Stripped(d, got.rest))) == None
            case Some(r) =>
              Solid(d, r.rest) && |r.rest| <= |got.rest| && (n > 0 && got.rest != [] ==> |r.rest| < |got.rest|) &&
              ReadMany(d, n, got.(rest := Stripped(d, got.rest))) == Some(r.(rest := Stripped(d, r.rest)))
  {
    hide Read, Stripped, Skipped, Solid;
    if n > 0 {
      ReadStripped(d, got.rest);
      var one := Read(d, got.rest, got.rest);
      if one.Some? {
        var r := one.value;
        ReadManyStripped(d, n - 1,
                         Readings(got.values + [r.value], got.missing + if r.missing then 1 else 0, r.rest));
      }
    }
  }

  /** Decoding goes by what is not passed over, unless the text ends in something that is: then there is more to read,
      and nothing there. */
  lemma {:induction false} DecodesStripped(d: Codec, t: seq<byte>, skip: nat, buf: seq<byte>)
    requires Usable(d) && Solid(d, t) && skip <= 2
    ensures Decoded(d, t, skip, buf) == Decoded(d, Stripped(d, t), skip, buf)
    decreases |t|
  {
    hide Read, Stripped, Skipped, ReadMany, Merge;
    SolidShows(d, t);
    if t == [] {
      NothingStripped(d);
    } else {
      var u := Stripped(d, t);
      ReadManyShape(d, 4, Readings([], skip, t));
      ReadManyShape(d, 4, Readings([], skip, u));
      ReadManyStripped(d, 4, Readings([], skip, t));
      assert !Ended(t) && !Ended(u) by {
        assert t[0] in t;
      }
      var many := ReadMany(d, 4, Readings([], skip, t));
      if many.Some? && many.value.missing <= 2 {
        var (x, y, z) := Merge(many.value.values);
        DecodesStripped(d, many.value.rest, many.value.missing, buf + [x, y, z][..3 - many.value.missing]);
      }
    }
  }

  /** What there is nothing to read in: it is all passed over, or what is not begins with NUL. */
  ghost predicate Blank(d: Codec, w: seq<byte>) {
    Stripped(d, w) == [] || Stripped(d, w)[0] == NUL
  }

  lemma {:induction false} ReadBefore(d: Codec, text: seq<byte>, t: seq<byte>, w: seq<byte>)
    requires Solid(d, t) && Blank(d, w) && (t == [] ==> text == [])
    ensures match Read(d, text, t)
            case None => Read(d, text + w, t + w) == None
            case Some(r) => Read(d, text + w, t + w) == Some(r.(rest := r.rest + w)) && Solid(d, r.rest)
    decreases |t|
  {
    if t == [] {
      ReadIs(d, w, w);
      assert text + w == w && t + w == w;
    } else {
      assert t[0] in t && (t + w)[0] == t[0] && (t + w)[1..] == t[1..] + w;
      SolidRest(d, t, 1);
      if Skipped(d, t[0]) {
        assert t[1..] != [];
        ReadBefore(d, text, t[1..], w);
      }
    }
  }

  lemma {:induction false} ReadManyBefore(d: Codec, n: nat, got: Readings, w: seq<byte>)
    requires Solid(d, got.rest) && Blank(d, w)
    ensures match ReadMany(d, n, got)
            case None => ReadMany(d, n, got.(rest := got.rest + w)) == None
            case Some(r) =>
              Solid(d, r.rest) && ReadMany(d, n, got.(rest := got.rest + w)) == Some(r.(rest := r.rest + w))
  {
    hide Read, Blank, Solid;
    if n > 0 {
      ReadBefore(d, got.rest, got.rest, w);
      var one := Read(d, got.rest, got.rest);
      if one.Some? {
        var r := one.value;
        ReadManyBefore(d, n - 1, Readings(got.values + [r.value], got.missing + if r.missing then 1 else 0, r.rest), w);
      }
    }
  }

  /** From a NUL on the text does not count; but to end it in something passed over makes an assertion fail, where it
      would have been decoded. */
  lemma {:induction false} DecodesBefore(d: Codec, t: seq<byte>, w: seq<byte>, skip: nat, buf: seq<byte>)
    requires Usable(d) && Solid(d, t) && Blank(d, w) && skip <= 2
    ensures Ended(w) ==> Decoded(d, t + w, skip, buf) == Decoded(d, t, skip, buf)
    ensures !Ended(w) && Decoded(d, t, skip, buf).Value? ==> Decoded(d, t + w, skip, buf) == AssertionFailed
    ensures !Decoded(d, t, skip, buf).Value? ==> Decoded(d, t + w, skip, buf) == Decoded(d, t, skip, buf)
    decreases |t|
  {
    hide Read, Blank, ReadMany, Merge, Skipped;
    if t == [] {
      assert t + w == w;
      BlankFails(d, w, skip, buf);
    } else {
      assert t[0] in t && (t + w)[0] == t[0];
      ReadManyShape(d, 4, Readings([], skip, t));
      ReadManyBefore(d, 4, Readings([], skip, t), w);
      var many := ReadMany(d, 4, Readings([], skip, t));
      if many.Some? && many.value.missing <= 2 {
        var (x, y, z) := Merge(many.value.values);
        ReadManyShape(d, 4, Readings([], skip, t + w));
        DecodesBefore(d, many.value.rest, w, many.value.missing, buf + [x, y, z][..3 - many.value.missing]);
      }
    }
  }

  lemma BlankFails(d: Codec, w: seq<byte>, skip: nat, buf: seq<byte>)
    requires Usable(d) && Blank(d, w) && skip <= 2
    ensures Decoded(d, w, skip, buf) == if Ended(w) then Value(buf) else AssertionFailed
  {
    ReadIs(d, w, w);
    hide Read, Merge;
    BlankMany(d, 4, Readings([], skip, w));
  }

  lemma {:induction false} BlankMany(d: Codec, n: nat, got: Readings)
    requires Read(d, got.rest, got.rest) == Some(Reading(0, true, got.rest))
    ensures var r := ReadMany(d, n, got); r.Some? && r.value.missing == got.missing + n
  {
    hide Read;
    if n > 0 {
      BlankMany(d, n - 1, Readings(got.values + [0], got.missing + 1, got.rest));
    }
  }
}

/** Base-64 with a choice of alphabet, padding and line length. */
module Base64 {
  import opened Wrappers
  import opened Text

  const NUL: byte := 0
  const LF: byte := 10
  const CR: byte := 13

  // `len` is the line length, None when lines are unlimited; `pad` is NUL when there is no padding.
  datatype Codec = Codec(len: Option<nat>, pad: byte, ignoring: bool, strict: bool, table: seq<byte>)

  predicate Usable(b64: Codec) {
    && |b64.table| == 64
    && (forall i, j | 0 <= i < j < 64 :: b64.table[i] != b64.table[j])
    && NUL !in b64.table && b64.pad !in b64.table
  }

  // ---------- Encoding ----------

  /** The four six-bit values in three bytes. */
  function Split(x: byte, y: byte, z: byte): (r: (int, int, int, int))
    ensures 0 <= r.0 < 64 && 0 <= r.1 < 64 && 0 <= r.2 < 64 && 0 <= r.3 < 64
  {
    (x / 4, x % 4 * 16 + y / 16, y % 16 * 4 + z / 64, z % 64)
  }

  function Padding(b64: Codec, n: nat): seq<byte> {
    if b64.pad == NUL then [] else seq(n, _ => b64.pad)
  }

  function Group(b64: Codec, x: byte, y: byte, z: byte): (r: seq<byte>)
    requires |b64.table| == 64
    ensures |r| == 4
  {
    var (a, b, c, d) := Split(x, y, z);
    [b64.table[a], b64.table[b], b64.table[c], b64.table[d]]
  }

  predicate LineFull(b64: Codec, len: nat) {
    b64.len.Some? && len >= b64.len.value
  }

  /** The encoding of the data, `len` characters into a line. */
  ghost function Encoded(b64: Codec, data: seq<byte>, len: nat): seq<byte>
    requires |b64.table| == 64
    decreases |data|
  {
    if |data| == 0 then []
    else if |data| == 1 then Group(b64, data[0], 0, 0)[..2] + Padding(b64, 2)
    else if |data| == 2 then Group(b64, data[0], data[1], 0)[..3] + Padding(b64, 1)
    else
      Group(b64, data[0], data[1], data[2]) +
      if LineFull(b64, len + 4) then [LF] + Encoded(b64, data[3..], 0) else Encoded(b64, data[3..], len + 4)
  }

  lemma EncodedStep(b64: Codec, data: seq<byte>, len: nat)
    requires |b64.table| == 64
    ensures |data| == 0 ==> Encoded(b64, data, len) == []
    ensures |data| == 1 ==> Encoded(b64, data, len) == Group(b64, data[0], 0, 0)[..2] + Padding(b64, 2)
    ensures |data| == 2 ==> Encoded(b64, data, len) == Group(b64, data[0], data[1], 0)[..3] + Padding(b64, 1)
    ensures |data| >= 3 ==>
              Encoded(b64, data, len)
              == Group(b64, data[0], data[1], data[2]) +
                 if LineFull(b64, len + 4) then [LF] + Encoded(b64, data[3..], 0)
                 else Encoded(b64, data[3..], len + 4)
  {
    hide Group, Padding, LineFull;
  }

  method Encode(b64: Codec, data: seq<byte>) returns (buf: seq<byte>)
    requires |b64.table| == 64
    ensures buf == Encoded(b64, data, 0)
  {
    hide Group, Padding, Encoded, LineFull;
    buf := [];
    var rest, len: nat := data, 0;
    while true
      invariant buf + Encoded(b64, rest, len) == Encoded(b64, data, 0)
      decreases |rest|
    {
      EncodedStep(b64, rest, len);
      if |rest| == 0 {
        return;
      } else if |rest| == 1 {
        buf := buf + Group(b64, rest[0], 0, 0)[..2] + Padding(b64, 2);
        return;
      } else if |rest| == 2 {
        buf := buf + Group(b64, rest[0], rest[1], 0)[..3] + Padding(b64, 1);
        return;
      } else {
        ghost var before := buf;
        var g := Group(b64, rest[0], rest[1], rest[2]);
        buf := buf + g;
        len := len + 4;
        rest := rest[3..];
        if LineFull(b64, len) {
          buf := buf + [LF];
          len := 0;
          assert buf + Encoded(b64, rest, 0) == before + (g + ([LF] + Encoded(b64, rest, 0)));
        } else {
          assert buf + Encoded(b64, rest, len) == before + (g + Encoded(b64, rest, len));
        }
      }
    }
  }

  // ---------- Decoding ----------

  // What decoding comes to: a value, an error for a character that cannot be there, no value at all for text
  // that strict decoding turns down, or an assertion of the source that fails.
  datatype Outcome = Value(data: seq<byte>) | InvalidCharacter | Rejected | AssertionFailed

  // One six-bit value, whether it stands for missing data, and the text still to read.
  datatype Reading = Reading(value: int, missing: bool, rest: seq<byte>)

  function Find(table: seq<byte>, c: byte): (r: Option<nat>)
    ensures r.Some? ==> r.value < |table| && table[r.value] == c
    ensures r.None? ==> c !in table
  {
    if table == [] then None
    else if table[0] == c then Some(0)
    else match Find(table[1..], c)
      case Some(k) => Some(k + 1)
      case None => None
  }

  predicate Ended(text: seq<byte>) {
    text == [] || text[0] == NUL
  }

  /** The next value, with `t` the text looked at so far. At the end of the text the caller's place does not move. */
  ghost function Read(b64: Codec, text: seq<byte>, t: seq<byte>): Option<Reading>
    decreases |t|
  {
    if Ended(t) then Some(Reading(0, true, text))
    else if t[0] == b64.pad then Some(Reading(0, true, t[1..]))
    else match Find(b64.table, t[0])
      case Some(k) => Some(Reading(k, false, t[1..]))
      case None =>
        if (b64.len.Some? && (t[0] == CR || t[0] == LF)) || b64.ignoring then Read(b64, text, t[1..]) else None
  }

  method ReadOut(b64: Codec, text: seq<byte>) returns (r: Option<Reading>)
    ensures r == Read(b64, text, text)
  {
    var t := text;
    while true
      invariant Read(b64, text, t) == Read(b64, text, text)
      decreases |t|
    {
      if Ended(t) {
        return Some(Reading(0, true, text));
      }
      if t[0] == b64.pad {
        return Some(Reading(0, true, t[1..]));
      }
      var p := Find(b64.table, t[0]);
      if p.Some? {
        return Some(Reading(p.value, false, t[1..]));
      }
      if b64.len.Some? && (t[0] == CR || t[0] == LF) {
        t := t[1..];
        continue;
      }
      if !b64.ignoring {
        return None;
      }
      t := t[1..];
    }
  }

  // Up to four values, how many of them stand for missing data, and the text still to read.
  datatype Readings = Readings(values: seq<int>, missing: nat, rest: seq<byte>)

  ghost function ReadMany(b64: Codec, n: nat, got: Readings): Option<Readings> {
    if n == 0 then Some(got)
    else match Read(b64, got.rest, got.rest)
      case None => None
      case Some(r) =>
        ReadMany(b64, n - 1, Readings(got.values + [r.value], got.missing + if r.missing then 1 else 0, r.rest))
  }

  method ReadOut4(b64: Codec, text: seq<byte>, skip: nat) returns (r: Option<Readings>)
    ensures r == ReadMany(b64, 4, Readings([], skip, text))
  {
    var got := Readings([], skip, text);
    for i := 0 to 4
      invariant ReadMany(b64, 4 - i, got) == ReadMany(b64, 4, Readings([], skip, text))
    {
      var one := ReadOut(b64, got.rest);
      if one.None? {
        return None;
      }
      got := Readings(got.values + [one.value.value], got.missing + if one.value.missing then 1 else 0, one.value.rest);
    }
    return Some(got);
  }

  ghost predicate SixBits(v: seq<int>) {
    |v| == 4 && forall x | x in v :: 0 <= x < 64
  }

  /** The three bytes in four six-bit values; what does not fit a byte is cut off. */
  function Merge(v: seq<int>): (byte, byte, byte)
    requires SixBits(v)
  {
    assert v[0] in v && v[1] in v && v[2] in v && v[3] in v;
    (v[0] * 4 + v[1] / 16, v[1] % 16 * 16 + v[2] / 4, v[2] % 4 * 64 + v[3])
  }

  lemma {:induction false} ReadManyShape(b64: Codec, n: nat, got: Readings)
    requires |b64.table| == 64 && forall x | x in got.values :: 0 <= x < 64
    ensures match ReadMany(b64, n, got)
            case None => true
            case Some(r) =>
              && |r.values| == |got.values| + n && (forall x | x in r.values :: 0 <= x < 64)
              && got.missing <= r.missing <= got.missing + n && |r.rest| + n <= |got.rest| + r.missing - got.missing
  {
    if n > 0 {
      ReadShape(b64, got.rest, got.rest);
      var one := Read(b64, got.rest, got.rest);
      if one.Some? {
        var r := one.value;
        ReadManyShape(b64, n - 1, Readings(got.values + [r.value], got.missing + if r.missing then 1 else 0, r.rest));
      }
    }
  }

  lemma {:induction false} ReadShape(b64: Codec, text: seq<byte>, t: seq<byte>)
    requires |b64.table| == 64 && |t| <= |text|
    ensures match Read(b64, text, t)
            case None => true
            case Some(r) => 0 <= r.value < 64 && |r.rest| <= |text| && (!r.missing ==> |r.rest| < |text|)
    decreases |t|
  {
    if !Ended(t) && t[0] != b64.pad && Find(b64.table, t[0]).None? {
      ReadShape(b64, text, t[1..]);
    }
  }

  /** What is left to do with the text, given what has been skipped and decoded so far. */
  ghost function Decoded(b64: Codec, text: seq<byte>, skip: nat, buf: seq<byte>): Outcome
    requires |b64.table| == 64 && skip <= 2
    decreases |text|
  {
    if Ended(text) then Value(buf)
    else
      ReadManyShape(b64, 4, Readings([], skip, text));
      match ReadMany(b64, 4, Readings([], skip, text))
      case None => InvalidCharacter
      case Some(r) =>
        if r.missing > 2 then AssertionFailed
        else
          var (x, y, z) := Merge(r.values);
          if b64.strict && ((r.missing == 2 && (y != 0 || z != 0)) || (r.missing == 1 && z != 0)) then Rejected
          else Decoded(b64, r.rest, r.missing, buf + [x, y, z][..3 - r.missing])
  }

  method Decode(b64: Codec, text: seq<byte>) returns (r: Outcome)
    requires |b64.table| == 64
    ensures r == Decoded(b64, text, 0, [])
  {
    hide ReadMany, Merge;
    var data, skip: nat, buf: seq<byte> := text, 0, [];
    while !Ended(data)
      invariant skip <= 2 && Decoded(b64, data, skip, buf) == Decoded(b64, text, 0, [])
      decreases |data|
    {
      ReadManyShape(b64, 4, Readings([], skip, data));
      var got := ReadOut4(b64, data, skip);
      if got.None? {
        return InvalidCharacter;
      }
      var (x, y, z) := Merge(got.value.values);
      data, skip := got.value.rest, got.value.missing;
      if skip > 2 {
        return AssertionFailed;
      }
      if b64.strict {
        if (skip == 2 && (y != 0 || z != 0)) || (skip == 1 && z != 0) {
          return Rejected;
        }
      }
      var out := [x];
      if skip < 2 {
        out := out + [y];
      }
      if skip < 1 {
        out := out + [z];
      }
      assert out == [x, y, z][..3 - skip];
      buf := buf + out;
    }
    return Value(buf);
  }
}

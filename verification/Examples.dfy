/** Inputs at which the source does not do what its callers may expect. */
module Examples {
  import opened Wrappers
  import opened Text
  import opened Timers
  import opened Drains
  import opened Ios
  import opened Zip
  import opened ZipBack
  import opened ZipParse
  import opened ZipRead
  import opened ZipTrip
  import opened ZipWrite
  import B = Base64
  import C = Crc
  import D = Date
  import E = Escape
  import L = Base64Laws

  /** A coroutine sets two timers, and then cancels: the first one stays armed. */
  method TwoTimers() returns (armed: bool)
    ensures armed
  {
    hide *;
    var queue := new TimerQueue();
    var first := queue.Insert(0.0, 1.0, 7, []);
    var second := queue.Insert(0.0, 2.0, 7, []);
    assert second in multiset(queue.heap);
    queue.Cancel(7);
    return first.trigger;
  }

  /** Of two timers one goes off, and takes the other out of the index: cancelling then finds none to disarm. */
  method OneLeft() returns (armed: bool, indexed: bool)
    ensures armed && !indexed
  {
    hide *;
    var queue := new TimerQueue();
    var first := queue.Insert(0.0, 1.0, 7, []);
    var second := queue.Insert(0.0, 2.0, 7, []);
    assert first in multiset(queue.heap) && second in multiset(queue.heap);
    assert first in queue.heap && second in queue.heap;
    var gone := queue.Remove();
    assert gone.awake <= first.awake;
    queue.Cancel(7);
    return second.trigger, 7 in queue.index;
  }

  function Letter(i: int): byte
    requires 0 <= i < 64
  {
    if i < 26 then 65 + i else if i < 52 then 71 + i else if i < 62 then i - 4 else if i == 62 then 43 else 47
  }

  /** The alphabet of section 4 of RFC 4648, and lines of four characters. */
  const SHORT_LINES: B.Codec := B.Codec(Some(4), 61, false, false, seq(64, i requires 0 <= i < 64 => Letter(i)))

  /** Three bytes fill a line, and the newline after it cannot be decoded. */
  lemma FullLine()
    ensures B.Decoded(SHORT_LINES, B.Encoded(SHORT_LINES, [77, 97, 110], 0), 0, []) == B.AssertionFailed
  {
    assert L.Reads(SHORT_LINES, SHORT_LINES);
    assert L.PerLine(SHORT_LINES) == 1;
    hide *;
    L.RoundTrip(SHORT_LINES, [77, 97, 110]);
    assert [77 as byte, 97, 110] != [];
  }

  /** A drain sends one byte of two and fails: the next one sends that byte again. */
  method SentTwice() returns (first: bool, second: bool, ghost wire: seq<byte>)
    ensures !first && second && wire == [1, 1, 2]
  {
    hide Sending, Out, Fits, Taken, Wasted, Faithful, Left, Concat, Only;
    ScriptOfTwo();
    WireOfTwo();
    var ios := new Ios([], [Sent(1), Error, Sent(2)]);
    var _ := ios.Write([[1, 2]]);
    assert ios.drains == [] && ios.accepted == [1, 2];
    assert ios.writebuf == [1, 2];
    first := ios.Flush();
    assert ios.drains == [Drained(2, 1, false)];
    second := ios.Flush();
    assert ios.drains == [Drained(2, 1, false), Drained(2, 2, true)];
    wire := ios.wire;
  }

  lemma WireOfTwo()
    ensures var drains := [Drained(2, 1, false), Drained(2, 2, true)];
            Fits(drains, 2) && Out(drains, [1, 2]) == [1, 1, 2]
    ensures Taken([]) == Taken([Drained(2, 1, false)]) == 0
    ensures Left([Sent(1), Error, Sent(2)], []) == [Sent(1), Error, Sent(2)]
    ensures Left([Sent(1), Error, Sent(2)], [Drained(2, 1, false)]) == [Sent(2)]
  {
    var drains, one := [Drained(2, 1, false), Drained(2, 2, true)], [Drained(2, 1, false)];
    assert drains[..1] == one && one[..0] == [];
    ScriptOfTwo();
    assert Taken(one) == 0 && Fits(one, 2) && Out(one, [1, 2]) == [1];
  }

  lemma ScriptOfTwo()
    ensures Sending([Sent(1), Error, Sent(2)], 2) == (Drained(2, 1, false), [Sent(2)])
    ensures Sending([Sent(2)], 2) == (Drained(2, 2, true), [])
    ensures Concat([[1, 2]]) == [1, 2]
  {
    assert Sending([Error, Sent(2)], 1) == (Drained(1, 0, false), [Sent(2)]);
    assert [Sent(1), Error, Sent(2)][1..] == [Error, Sent(2)] && [Error, Sent(2)][1..] == [Sent(2)];
  }

  /** A comment that holds an end record of its own hides the real one. */
  method HiddenEnd() returns (end: End)
    ensures end == Found(EocdRead(0, 0, 0, 0, 0, 0, None))
  {
    var inner := Eocd(0, 0, 0, 0, 0, 0, []);
    var outer := Eocd(0, 0, 1, 1, 0, 0, EocdBytes(inner));
    var sink := new Sink();
    sink.WriteEocd(outer);
    var source := new Source(sink.out);
    end := source.ReadEocd();
    EocdLies([], outer);
    ghost var front := sink.out[..22];
    assert sink.out == front + EocdBytes(inner);
    EndIsThere(front, inner);
  }

  /** A header as it is when new, without a name, and nothing else in the file: it comes back without a name. */
  method BareHeader(modtime: Stamp) returns (r: Parsed<FileRead>)
    requires StampFits(modtime)
    ensures r.Record? && r.value.name == None
  {
    var flags := Flags(false, 0, false, false, false, false, false, false, false, 0);
    var file := File(Version("MS-DOS", 20), About(flags, Some(8), modtime, 0, 0, 0), [], []);
    r := FileReadsBack([], file, [], [1, 2, 3, 4, 5, 6, 7, 8]);
  }

  /** Two lines are buffered when the connection goes: they are read as one. */
  method HungUp() returns (line: Option<seq<byte>>)
    ensures line == Some([97, 10, 98, 10])
  {
    var ios := new Ios([[97, 10, 98, 10]], []);
    var _ := ios.Refill();
    assert ios.readbuf.value == [97, 10, 98, 10];
    ios.HangUp();
    line := ios.ReadLine();
  }

  /** A space written in four bytes is taken for a character that no line can be broken at. */
  lemma LongSpace()
    ensures ClassOf(Code4([0xF0, 0x80, 0x80, 0xA0], 0)) == Space
    ensures CharsMatch([0xF0, 0x80, 0x80, 0xA0], 0, 4) == (Char, 4)
  {
  }

  // ---------- Values anyone can check ----------

  /** The Julian day that begins at noon of the first day of 2000. */
  lemma KnownDay()
    ensures D.ToJulianDay(D.Date(2000, 1, 1)) == 2451545
  {
  }

  /** The CRC of the letter a. */
  lemma KnownCrc()
    ensures C.Crc([0x61], 0) == 0xE8B7BE43
  {
    assert [0x61 as bv8][1..] == [];
  }

  /** The vectors of section 10 of RFC 4648, and a newline where a line is full. */
  lemma KnownBase64()
    ensures B.Encoded(SHORT_LINES, [102], 0) == [90, 103, 61, 61]
    ensures B.Encoded(SHORT_LINES, [102, 111], 0) == [90, 109, 56, 61]
    ensures B.Encoded(SHORT_LINES, [102, 111, 111], 0) == [90, 109, 57, 118, 10]
    ensures B.Encoded(SHORT_LINES, [102, 111, 111, 98], 0) == [90, 109, 57, 118, 10, 89, 103, 61, 61]
  {
    assert [102 as byte, 111, 111][3..] == [] && [102 as byte, 111, 111, 98][3..] == [98];
    B.EncodedStep(SHORT_LINES, [], 0);
    B.EncodedStep(SHORT_LINES, [98], 0);
  }

  /** Characters of each class, and the edges of its ranges. */
  lemma KnownClasses()
    ensures forall c | c in {9, 32, 5760, 6158, 8192, 8198, 8200, 8205, 8287, 12288} :: ClassOf(c) == Space
    ensures forall c | c in {45, 1418, 8208, 8210, 8212, 11799, 12539, 65123, 65293, 65381} :: ClassOf(c) == Hyphen
    ensures ClassOf(133) == Reset && ClassOf(173) == Shy && ClassOf(6150) == Shy
    ensures forall c | c in {768, 848, 6832, 6846, 7616, 7679, 8400, 8432, 65056, 65071} :: ClassOf(c) == Combining
    ensures forall c | c in {10, 65, 160, 767, 849, 8199, 8206, 8209, 8213, 8433, 65055, 65072} :: ClassOf(c) == Char
  {
  }

  /** The control characters of C, and others in decimal. */
  lemma Controls()
    ensures E.AsciiText([7]) == [E.BACKSLASH, 'a' as byte] && E.AsciiText([8]) == [E.BACKSLASH, 'b' as byte]
    ensures E.AsciiText([9]) == [E.BACKSLASH, 't' as byte] && E.AsciiText([10]) == [E.BACKSLASH, 'n' as byte]
    ensures E.AsciiText([11]) == [E.BACKSLASH, 'v' as byte] && E.AsciiText([12]) == [E.BACKSLASH, 'f' as byte]
    ensures E.AsciiText([13]) == [E.BACKSLASH, 'r' as byte]
    ensures E.AsciiText([27]) == [E.BACKSLASH, '0' as byte, '2' as byte, '7' as byte]
    ensures E.AsciiText([255]) == [E.BACKSLASH, '2' as byte, '5' as byte, '5' as byte]
  {
    AsciiOne(7);
    AsciiOne(8);
    AsciiOne(9);
    AsciiOne(10);
    AsciiOne(11);
    AsciiOne(12);
    AsciiOne(13);
    AsciiOne(27);
    AsciiOne(255);
  }

  lemma AsciiOne(c: byte)
    ensures E.AsciiText([c]) == E.Ascii(c)
  {
    assert [c][1..] == [];
  }

  /** The fields that a header and a directory entry have in common, in the order of the format. */
  lemma AboutLayout()
    ensures var flags := Flags(false, 2, false, false, false, false, true, false, false, 0);
            var about := About(flags, Some(8), Stamp(2024, 5, 17, 13, 42, 30), 0x04030201, 0x08070605, 0x0C0B0A09);
            AboutFits(about) &&
            AboutBytes(about) == [4, 8, 8, 0, 0x4F, 0x6D, 0xB1, 0x58, 1, 2, 3, 4, 5, 6, 7, 8, 9, 10, 11, 12]
  {
    var flags := Flags(false, 2, false, false, false, false, true, false, false, 0);
    assert FlagWord(flags) == 0x0804;
    var stamp := Stamp(2024, 5, 17, 13, 42, 30);
    assert TimeWord(stamp) == 0x6D4F && DateWord(stamp) == 0x58B1;
    hide FlagWord, TimeWord, DateWord, B16, B32;
    WordLayout();
    LongLayout();
  }

  lemma WordLayout()
    ensures B16(0x0804) == [4, 8] && B16(8) == [8, 0] && B16(0x6D4F) == [0x4F, 0x6D] && B16(0x58B1) == [0xB1, 0x58]
  {
  }

  lemma LongLayout()
    ensures B32(0x04030201) == [1, 2, 3, 4] && B32(0x08070605) == [5, 6, 7, 8] && B32(0x0C0B0A09) == [9, 10, 11, 12]
  {
  }

  lemma EndLayout()
    ensures EocdBytes(Eocd(1, 2, 3, 4, 0x08070605, 0x0C0B0A09, [65]))
            == [0x50, 0x4B, 5, 6, 1, 0, 2, 0, 3, 0, 4, 0, 5, 6, 7, 8, 9, 10, 11, 12, 1, 0, 65]
  {
  }
}

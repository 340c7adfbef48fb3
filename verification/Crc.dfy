/** CRC-32: the table-driven loop of the source against division one bit at a time (section 8 of RFC 1952). */
module Crc {
  /** The table of 256 remainders, by the high and the low half of the index. */
  function Table(high: bv4, low: bv4): bv32 {
    match high
    case 0x0 => (
      match low
      case 0x0 => 0x00000000 case 0x1 => 0x77073096 case 0x2 => 0xEE0E612C case 0x3 => 0x990951BA
      case 0x4 => 0x076DC419 case 0x5 => 0x706AF48F case 0x6 => 0xE963A535 case 0x7 => 0x9E6495A3
      case 0x8 => 0x0EDB8832 case 0x9 => 0x79DCB8A4 case 0xA => 0xE0D5E91E case 0xB => 0x97D2D988
      case 0xC => 0x09B64C2B case 0xD => 0x7EB17CBD case 0xE => 0xE7B82D07 case _ => 0x90BF1D91)
    case 0x1 => (
      match low
      case 0x0 => 0x1DB71064 case 0x1 => 0x6AB020F2 case 0x2 => 0xF3B97148 case 0x3 => 0x84BE41DE
      case 0x4 => 0x1ADAD47D case 0x5 => 0x6DDDE4EB case 0x6 => 0xF4D4B551 case 0x7 => 0x83D385C7
      case 0x8 => 0x136C9856 case 0x9 => 0x646BA8C0 case 0xA => 0xFD62F97A case 0xB => 0x8A65C9EC
      case 0xC => 0x14015C4F case 0xD => 0x63066CD9 case 0xE => 0xFA0F3D63 case _ => 0x8D080DF5)
    case 0x2 => (
      match low
      case 0x0 => 0x3B6E20C8 case 0x1 => 0x4C69105E case 0x2 => 0xD56041E4 case 0x3 => 0xA2677172
      case 0x4 => 0x3C03E4D1 case 0x5 => 0x4B04D447 case 0x6 => 0xD20D85FD case 0x7 => 0xA50AB56B
      case 0x8 => 0x35B5A8FA case 0x9 => 0x42B2986C case 0xA => 0xDBBBC9D6 case 0xB => 0xACBCF940
      case 0xC => 0x32D86CE3 case 0xD => 0x45DF5C75 case 0xE => 0xDCD60DCF case _ => 0xABD13D59)
    case 0x3 => (
      match low
      case 0x0 => 0x26D930AC case 0x1 => 0x51DE003A case 0x2 => 0xC8D75180 case 0x3 => 0xBFD06116
      case 0x4 => 0x21B4F4B5 case 0x5 => 0x56B3C423 case 0x6 => 0xCFBA9599 case 0x7 => 0xB8BDA50F
      case 0x8 => 0x2802B89E case 0x9 => 0x5F058808 case 0xA => 0xC60CD9B2 case 0xB => 0xB10BE924
      case 0xC => 0x2F6F7C87 case 0xD => 0x58684C11 case 0xE => 0xC1611DAB case _ => 0xB6662D3D)
    case 0x4 => (
      match low
      case 0x0 => 0x76DC4190 case 0x1 => 0x01DB7106 case 0x2 => 0x98D220BC case 0x3 => 0xEFD5102A
      case 0x4 => 0x71B18589 case 0x5 => 0x06B6B51F case 0x6 => 0x9FBFE4A5 case 0x7 => 0xE8B8D433
      case 0x8 => 0x7807C9A2 case 0x9 => 0x0F00F934 case 0xA => 0x9609A88E case 0xB => 0xE10E9818
      case 0xC => 0x7F6A0DBB case 0xD => 0x086D3D2D case 0xE => 0x91646C97 case _ => 0xE6635C01)
    case 0x5 => (
      match low
      case 0x0 => 0x6B6B51F4 case 0x1 => 0x1C6C6162 case 0x2 => 0x856530D8 case 0x3 => 0xF262004E
      case 0x4 => 0x6C0695ED case 0x5 => 0x1B01A57B case 0x6 => 0x8208F4C1 case 0x7 => 0xF50FC457
      case 0x8 => 0x65B0D9C6 case 0x9 => 0x12B7E950 case 0xA => 0x8BBEB8EA case 0xB => 0xFCB9887C
      case 0xC => 0x62DD1DDF case 0xD => 0x15DA2D49 case 0xE => 0x8CD37CF3 case _ => 0xFBD44C65)
    case 0x6 => (
      match low
      case 0x0 => 0x4DB26158 case 0x1 => 0x3AB551CE case 0x2 => 0xA3BC0074 case 0x3 => 0xD4BB30E2
      case 0x4 => 0x4ADFA541 case 0x5 => 0x3DD895D7 case 0x6 => 0xA4D1C46D case 0x7 => 0xD3D6F4FB
      case 0x8 => 0x4369E96A case 0x9 => 0x346ED9FC case 0xA => 0xAD678846 case 0xB => 0xDA60B8D0
      case 0xC => 0x44042D73 case 0xD => 0x33031DE5 case 0xE => 0xAA0A4C5F case _ => 0xDD0D7CC9)
    case 0x7 => (
      match low
      case 0x0 => 0x5005713C case 0x1 => 0x270241AA case 0x2 => 0xBE0B1010 case 0x3 => 0xC90C2086
      case 0x4 => 0x5768B525 case 0x5 => 0x206F85B3 case 0x6 => 0xB966D409 case 0x7 => 0xCE61E49F
      case 0x8 => 0x5EDEF90E case 0x9 => 0x29D9C998 case 0xA => 0xB0D09822 case 0xB => 0xC7D7A8B4
      case 0xC => 0x59B33D17 case 0xD => 0x2EB40D81 case 0xE => 0xB7BD5C3B case _ => 0xC0BA6CAD)
    case 0x8 => (
      match low
      case 0x0 => 0xEDB88320 case 0x1 => 0x9ABFB3B6 case 0x2 => 0x03B6E20C case 0x3 => 0x74B1D29A
      case 0x4 => 0xEAD54739 case 0x5 => 0x9DD277AF case 0x6 => 0x04DB2615 case 0x7 => 0x73DC1683
      case 0x8 => 0xE3630B12 case 0x9 => 0x94643B84 case 0xA => 0x0D6D6A3E case 0xB => 0x7A6A5AA8
      case 0xC => 0xE40ECF0B case 0xD => 0x9309FF9D case 0xE => 0x0A00AE27 case _ => 0x7D079EB1)
    case 0x9 => (
      match low
      case 0x0 => 0xF00F9344 case 0x1 => 0x8708A3D2 case 0x2 => 0x1E01F268 case 0x3 => 0x6906C2FE
      case 0x4 => 0xF762575D case 0x5 => 0x806567CB case 0x6 => 0x196C3671 case 0x7 => 0x6E6B06E7
      case 0x8 => 0xFED41B76 case 0x9 => 0x89D32BE0 case 0xA => 0x10DA7A5A case 0xB => 0x67DD4ACC
      case 0xC => 0xF9B9DF6F case 0xD => 0x8EBEEFF9 case 0xE => 0x17B7BE43 case _ => 0x60B08ED5)
    case 0xA => (
      match low
      case 0x0 => 0xD6D6A3E8 case 0x1 => 0xA1D1937E case 0x2 => 0x38D8C2C4 case 0x3 => 0x4FDFF252
      case 0x4 => 0xD1BB67F1 case 0x5 => 0xA6BC5767 case 0x6 => 0x3FB506DD case 0x7 => 0x48B2364B
      case 0x8 => 0xD80D2BDA case 0x9 => 0xAF0A1B4C case 0xA => 0x36034AF6 case 0xB => 0x41047A60
      case 0xC => 0xDF60EFC3 case 0xD => 0xA867DF55 case 0xE => 0x316E8EEF case _ => 0x4669BE79)
    case 0xB => (
      match low
      case 0x0 => 0xCB61B38C case 0x1 => 0xBC66831A case 0x2 => 0x256FD2A0 case 0x3 => 0x5268E236
      case 0x4 => 0xCC0C7795 case 0x5 => 0xBB0B4703 case 0x6 => 0x220216B9 case 0x7 => 0x5505262F
      case 0x8 => 0xC5BA3BBE case 0x9 => 0xB2BD0B28 case 0xA => 0x2BB45A92 case 0xB => 0x5CB36A04
      case 0xC => 0xC2D7FFA7 case 0xD => 0xB5D0CF31 case 0xE => 0x2CD99E8B case _ => 0x5BDEAE1D)
    case 0xC => (
      match low
      case 0x0 => 0x9B64C2B0 case 0x1 => 0xEC63F226 case 0x2 => 0x756AA39C case 0x3 => 0x026D930A
      case 0x4 => 0x9C0906A9 case 0x5 => 0xEB0E363F case 0x6 => 0x72076785 case 0x7 => 0x05005713
      case 0x8 => 0x95BF4A82 case 0x9 => 0xE2B87A14 case 0xA => 0x7BB12BAE case 0xB => 0x0CB61B38
      case 0xC => 0x92D28E9B case 0xD => 0xE5D5BE0D case 0xE => 0x7CDCEFB7 case _ => 0x0BDBDF21)
    case 0xD => (
      match low
      case 0x0 => 0x86D3D2D4 case 0x1 => 0xF1D4E242 case 0x2 => 0x68DDB3F8 case 0x3 => 0x1FDA836E
      case 0x4 => 0x81BE16CD case 0x5 => 0xF6B9265B case 0x6 => 0x6FB077E1 case 0x7 => 0x18B74777
      case 0x8 => 0x88085AE6 case 0x9 => 0xFF0F6A70 case 0xA => 0x66063BCA case 0xB => 0x11010B5C
      case 0xC => 0x8F659EFF case 0xD => 0xF862AE69 case 0xE => 0x616BFFD3 case _ => 0x166CCF45)
    case 0xE => (
      match low
      case 0x0 => 0xA00AE278 case 0x1 => 0xD70DD2EE case 0x2 => 0x4E048354 case 0x3 => 0x3903B3C2
      case 0x4 => 0xA7672661 case 0x5 => 0xD06016F7 case 0x6 => 0x4969474D case 0x7 => 0x3E6E77DB
      case 0x8 => 0xAED16A4A case 0x9 => 0xD9D65ADC case 0xA => 0x40DF0B66 case 0xB => 0x37D83BF0
      case 0xC => 0xA9BCAE53 case 0xD => 0xDEBB9EC5 case 0xE => 0x47B2CF7F case _ => 0x30B5FFE9)
    case _ => (
      match low
      case 0x0 => 0xBDBDF21C case 0x1 => 0xCABAC28A case 0x2 => 0x53B39330 case 0x3 => 0x24B4A3A6
      case 0x4 => 0xBAD03605 case 0x5 => 0xCDD70693 case 0x6 => 0x54DE5729 case 0x7 => 0x23D967BF
      case 0x8 => 0xB3667A2E case 0x9 => 0xC4614AB8 case 0xA => 0x5D681B02 case 0xB => 0x2A6F2B94
      case 0xC => 0xB40BBE37 case 0xD => 0xC30C8EA1 case 0xE => 0x5A05DF1B case _ => 0x2D02EF8D)
  }

  /** Addition, and subtraction, of polynomials. */
  function Sum(x: bv32, y: bv32): bv32 {
    x ^ y
  }

  /** The remainder, less the polynomial, whose bits are in reverse, if a one has gone out. */
  function Reduce(out: bool, r: bv32): bv32 {
    if out then Sum(r, 0xEDB88320) else r
  }

  /** One step of the division. */
  function Bit(r: bv32): bv32 {
    Reduce(r & 1 == 1, r >> 1)
  }

  function Eight(r: bv32): bv32 {
    Bit(Bit(Bit(Bit(Bit(Bit(Bit(Bit(r))))))))
  }

  lemma TableIsEight(high: bv4, low: bv4)
    ensures Table(high, low) == Eight((high as bv32 << 4) | low as bv32)
  {
    hide Table, Eight;
    if high < 4 {
      FirstRows(high, low);
    } else if high < 8 {
      SecondRows(high, low);
    } else if high < 12 {
      ThirdRows(high, low);
    } else {
      LastRows(high, low);
    }
  }

  lemma FirstRows(high: bv4, low: bv4)
    requires high < 4
    ensures Table(high, low) == Eight((high as bv32 << 4) | low as bv32)
  {
    match low
    case 0x0 => case 0x1 => case 0x2 => case 0x3 => case 0x4 => case 0x5 => case 0x6 => case 0x7 =>
    case 0x8 => case 0x9 => case 0xA => case 0xB => case 0xC => case 0xD => case 0xE => case _ =>
  }

  lemma SecondRows(high: bv4, low: bv4)
    requires 4 <= high < 8
    ensures Table(high, low) == Eight((high as bv32 << 4) | low as bv32)
  {
    match low
    case 0x0 => case 0x1 => case 0x2 => case 0x3 => case 0x4 => case 0x5 => case 0x6 => case 0x7 =>
    case 0x8 => case 0x9 => case 0xA => case 0xB => case 0xC => case 0xD => case 0xE => case _ =>
  }

  lemma ThirdRows(high: bv4, low: bv4)
    requires 8 <= high < 12
    ensures Table(high, low) == Eight((high as bv32 << 4) | low as bv32)
  {
    match low
    case 0x0 => case 0x1 => case 0x2 => case 0x3 => case 0x4 => case 0x5 => case 0x6 => case 0x7 =>
    case 0x8 => case 0x9 => case 0xA => case 0xB => case 0xC => case 0xD => case 0xE => case _ =>
  }

  lemma LastRows(high: bv4, low: bv4)
    requires 12 <= high
    ensures Table(high, low) == Eight((high as bv32 << 4) | low as bv32)
  {
    match low
    case 0x0 => case 0x1 => case 0x2 => case 0x3 => case 0x4 => case 0x5 => case 0x6 => case 0x7 =>
    case 0x8 => case 0x9 => case 0xA => case 0xB => case 0xC => case 0xD => case 0xE => case _ =>
  }

  function Low(x: bv32): bv32 {
    x & 0xFF
  }

  function High(x: bv32): bv32 {
    x & 0xFFFFFF00
  }

  function Entry(index: bv32): bv32
    requires index <= 0xFF
  {
    Table((index >> 4) as bv4, (index & 0xF) as bv4)
  }

  /** One byte, the way the source takes it in. */
  function Update(crc: bv32, b: bv8): bv32 {
    Sum(crc >> 8, Entry(Low(Sum(crc, b as bv32))))
  }

  function Updated(crc: bv32, msg: seq<bv8>): bv32
    decreases |msg|
  {
    if msg == [] then crc else Updated(Update(crc, msg[0]), msg[1..])
  }

  /** The CRC of a message, given the CRC of what came before. */
  function Crc(msg: seq<bv8>, start: bv32): bv32 {
    Flip(Updated(Flip(start), msg))
  }

  function Flip(x: bv32): bv32 {
    !x
  }

  method Crc32(msg: seq<bv8>, start: bv32) returns (r: bv32)
    ensures r == Crc(msg, start)
  {
    hide Update;
    var crc := Flip(start);
    var p := 0;
    assert msg[0..] == msg;
    while p < |msg|
      invariant p <= |msg| && Updated(crc, msg[p..]) == Updated(Flip(start), msg)
    {
      assert msg[p..][1..] == msg[p + 1..];
      crc := Update(crc, msg[p]);
      p := p + 1;
    }
    r := Flip(crc);
  }

  // ---------- Division one bit at a time ----------

  /** One message bit, into a register that holds the remainder so far. */
  function Feed(r: bv32, bit: bool): bv32 {
    Reduce((r & 1 == 1) != bit, r >> 1)
  }

  /** The n lowest bits of a word, the lowest first. */
  ghost function LowBits(n: nat, w: bv32): seq<bool> {
    if n == 0 then [] else [w & 1 == 1] + LowBits(n - 1, w >> 1)
  }

  ghost function Divide(r: bv32, bits: seq<bool>): bv32
    decreases |bits|
  {
    if bits == [] then r else Divide(Feed(r, bits[0]), bits[1..])
  }

  ghost function BitsOf(msg: seq<bv8>): seq<bool> {
    if msg == [] then [] else LowBits(8, msg[0] as bv32) + BitsOf(msg[1..])
  }

  lemma {:induction false} DivideConcat(r: bv32, a: seq<bool>, b: seq<bool>)
    ensures Divide(r, a + b) == Divide(Divide(r, a), b)
    decreases |a|
  {
    if a == [] {
      assert a + b == b;
    } else {
      assert (a + b)[1..] == a[1..] + b;
      DivideConcat(Feed(r, a[0]), a[1..], b);
    }
  }

  // Facts about bits, one at a time: elsewhere these functions are hidden, and the solver meets terms instead of bits.

  lemma SumIs(x: bv32, y: bv32)
    ensures Sum(x, y) == x ^ y
  {
  }

  lemma SumIsAssociative(x: bv32, y: bv32, z: bv32)
    ensures Sum(Sum(x, y), z) == Sum(x, Sum(y, z))
  {
  }

  lemma SumCommutes(x: bv32, y: bv32)
    ensures Sum(x, y) == Sum(y, x)
  {
  }

  lemma SumCancels(x: bv32)
    ensures Sum(x, x) == 0 && Sum(x, 0) == x
  {
  }

  lemma HalfLaws(x: bv32, y: bv32)
    ensures (x ^ y) >> 1 == (x >> 1) ^ (y >> 1)
    ensures ((x ^ y) & 1 == 1) == ((x & 1 == 1) != (y & 1 == 1))
  {
  }

  lemma HighAndLow(x: bv32)
    ensures Sum(High(x), Low(x)) == x
  {
  }

  lemma HighAlone(x: bv32)
    ensures Low(High(x)) == 0
  {
  }

  lemma HighMoves(x: bv32)
    ensures High(x) >> 8 == x >> 8
  {
  }

  lemma HighOfSum(x: bv32, b: bv8)
    ensures Sum(x, b as bv32) >> 8 == x >> 8
  {
  }

  lemma LowIs(x: bv32)
    ensures Low(x) <= 0xFF
  {
  }

  lemma IndexParts(index: bv32)
    requires index <= 0xFF
    ensures ((index >> 4) as bv4 as bv32 << 4) | (index & 0xF) as bv4 as bv32 == index
  {
  }

  lemma FlipTwice(x: bv32)
    ensures Flip(Flip(x)) == x
  {
  }

  lemma NothingLeft(b: bv8)
    ensures (b as bv32) >> 1 >> 1 >> 1 >> 1 >> 1 >> 1 >> 1 >> 1 == 0
  {
  }

  lemma ReduceOfSum(p: bool, x: bv32, q: bool, y: bv32)
    ensures Reduce(p != q, Sum(x, y)) == Sum(Reduce(p, x), Reduce(q, y))
  {
    hide Sum;
    var g: bv32 := 0xEDB88320;
    SumIsAssociative(x, y, g);
    SumIsAssociative(x, g, y);
    SumIsAssociative(Sum(x, g), y, g);
    SumIsAssociative(x, g, Sum(y, g));
    SumIsAssociative(g, y, g);
    SumIsAssociative(y, g, g);
    SumCommutes(g, y);
    SumCommutes(g, Sum(y, g));
    SumCancels(g);
    SumCancels(y);
  }

  lemma HalfOfSum(x: bv32, y: bv32)
    ensures Sum(x, y) >> 1 == Sum(x >> 1, y >> 1)
    ensures (Sum(x, y) & 1 == 1) == ((x & 1 == 1) != (y & 1 == 1))
  {
    hide Sum;
    SumIs(x, y);
    SumIs(x >> 1, y >> 1);
    HalfLaws(x, y);
  }

  lemma BitOfSum(x: bv32, y: bv32)
    ensures Bit(Sum(x, y)) == Sum(Bit(x), Bit(y))
  {
    hide Sum, Reduce;
    HalfOfSum(x, y);
    ReduceOfSum(x & 1 == 1, x >> 1, y & 1 == 1, y >> 1);
  }

  lemma EightOfSum(x: bv32, y: bv32)
    ensures Eight(Sum(x, y)) == Sum(Eight(x), Eight(y))
  {
    hide Bit, Sum;
    var x1, y1 := Bit(x), Bit(y);
    var x2, y2 := Bit(x1), Bit(y1);
    var x3, y3 := Bit(x2), Bit(y2);
    var x4, y4 := Bit(x3), Bit(y3);
    var x5, y5 := Bit(x4), Bit(y4);
    var x6, y6 := Bit(x5), Bit(y5);
    var x7, y7 := Bit(x6), Bit(y6);
    BitOfSum(x, y);
    BitOfSum(x1, y1);
    BitOfSum(x2, y2);
    BitOfSum(x3, y3);
    BitOfSum(x4, y4);
    BitOfSum(x5, y5);
    BitOfSum(x6, y6);
    BitOfSum(x7, y7);
  }

  /** Bits above the lowest eight only move down while those are divided out. */
  lemma EightOfHigh(x: bv32)
    requires Low(x) == 0
    ensures Eight(x) == x >> 8
  {
  }

  lemma EntryIsEight(index: bv32)
    requires index <= 0xFF
    ensures Entry(index) == Eight(index)
  {
    hide Eight, Table;
    IndexParts(index);
    TableIsEight((index >> 4) as bv4, (index & 0xF) as bv4);
  }

  /** Eight steps move the high bits down and divide the low ones out. */
  lemma EightSplits(x: bv32)
    ensures Eight(x) == Sum(x >> 8, Eight(Low(x)))
  {
    hide Eight, Sum, Low, High;
    HighAndLow(x);
    HighAlone(x);
    HighMoves(x);
    EightOfHigh(High(x));
    EightOfSum(High(x), Low(x));
  }

  lemma UpdateIsEight(crc: bv32, b: bv8)
    ensures Update(crc, b) == Eight(Sum(crc, b as bv32))
  {
    hide Eight, Sum, Entry, Low;
    var x := Sum(crc, b as bv32);
    HighOfSum(crc, b);
    LowIs(x);
    EntryIsEight(Low(x));
    EightSplits(x);
  }

  lemma ReduceNot(r: bv32)
    ensures Reduce(false, r) == r
  {
  }

  lemma FeedIsBit(r: bv32, w: bv32)
    ensures Sum(Feed(r, w & 1 == 1), w >> 1) == Bit(Sum(r, w))
  {
    hide Sum, Reduce;
    HalfOfSum(r, w);
    ReduceOfSum((r & 1 == 1) != (w & 1 == 1), r >> 1, false, w >> 1);
    ReduceNot(w >> 1);
  }

  ghost function Drop(n: nat, w: bv32): bv32 {
    if n == 0 then w else Drop(n - 1, w >> 1)
  }

  ghost function Bitwise(n: nat, r: bv32): bv32 {
    if n == 0 then r else Bitwise(n - 1, Bit(r))
  }

  lemma {:induction false} FeedIsBitwise(n: nat, r: bv32, w: bv32)
    ensures Sum(Divide(r, LowBits(n, w)), Drop(n, w)) == Bitwise(n, Sum(r, w))
  {
    hide Bit, Feed, Sum;
    if n > 0 {
      FeedIsBit(r, w);
      var r' := Feed(r, w & 1 == 1);
      FeedIsBitwise(n - 1, r', w >> 1);
      assert LowBits(n, w)[1..] == LowBits(n - 1, w >> 1);
    }
  }

  lemma Step(n: nat, w: bv32, r: bv32)
    ensures Drop(n + 1, w) == Drop(n, w >> 1) && Bitwise(n + 1, r) == Bitwise(n, Bit(r))
    ensures Drop(0, w) == w && Bitwise(0, r) == r
  {
    hide Bit;
  }

  lemma EightSteps(w: bv32, r: bv32)
    ensures Drop(8, w) == w >> 1 >> 1 >> 1 >> 1 >> 1 >> 1 >> 1 >> 1
    ensures Bitwise(8, r) == Eight(r)
  {
    hide Bit, Drop, Bitwise;
    var w1, r1 := w >> 1, Bit(r);
    var w2, r2 := w1 >> 1, Bit(r1);
    var w3, r3 := w2 >> 1, Bit(r2);
    var w4, r4 := w3 >> 1, Bit(r3);
    var w5, r5 := w4 >> 1, Bit(r4);
    var w6, r6 := w5 >> 1, Bit(r5);
    var w7, r7 := w6 >> 1, Bit(r6);
    Step(7, w, r);
    Step(6, w1, r1);
    Step(5, w2, r2);
    Step(4, w3, r3);
    Step(3, w4, r4);
    Step(2, w5, r5);
    Step(1, w6, r6);
    Step(0, w7, r7);
    Step(0, w7 >> 1, Bit(r7));
  }

  /** Feeding in the bits of a byte one at a time is dividing out the byte all at once. */
  lemma ByteAtATime(r: bv32, b: bv8)
    ensures Divide(r, LowBits(8, b as bv32)) == Eight(Sum(r, b as bv32))
  {
    hide Divide, LowBits, Eight, Bitwise, Drop, Sum;
    FeedIsBitwise(8, r, b as bv32);
    EightSteps(b as bv32, Sum(r, b as bv32));
    NothingLeft(b);
    SumCancels(Divide(r, LowBits(8, b as bv32)));
  }

  /** The table-driven CRC is the remainder of the message's bits, for every message and every start. */
  lemma {:induction false} CrcIsDivision(crc: bv32, msg: seq<bv8>)
    ensures Updated(crc, msg) == Divide(crc, BitsOf(msg))
    decreases |msg|
  {
    hide Update, LowBits, Eight, Feed, Sum;
    if msg != [] {
      UpdateIsEight(crc, msg[0]);
      ByteAtATime(crc, msg[0]);
      CrcIsDivision(Update(crc, msg[0]), msg[1..]);
      DivideConcat(crc, LowBits(8, msg[0] as bv32), BitsOf(msg[1..]));
    }
  }

  /** The CRC starts from the complement of that of what came before, and ends with the complement of the remainder. */
  lemma CrcIsComplement(msg: seq<bv8>, start: bv32)
    ensures Crc(msg, start) == !Divide(!start, BitsOf(msg))
  {
    CrcIsDivision(Flip(start), msg);
  }

  lemma {:induction false} UpdatedConcat(crc: bv32, a: seq<bv8>, b: seq<bv8>)
    ensures Updated(crc, a + b) == Updated(Updated(crc, a), b)
    decreases |a|
  {
    hide Update;
    if a == [] {
      assert a + b == b;
    } else {
      assert (a + b)[1..] == a[1..] + b;
      UpdatedConcat(Update(crc, a[0]), a[1..], b);
    }
  }

  /** The CRC of a message in two parts is that of the second part, started from that of the first. */
  lemma CrcComposes(a: seq<bv8>, b: seq<bv8>, start: bv32)
    ensures Crc(a + b, start) == Crc(b, Crc(a, start))
  {
    hide Updated, Flip;
    UpdatedConcat(Flip(start), a, b);
    FlipTwice(Updated(Flip(start), a));
  }

  // ---------- Error detection ----------

  lemma BitIsOneToOne(x: bv32, y: bv32)
    requires Bit(x) == Bit(y)
    ensures x == y
  {
  }

  lemma EightIsOneToOne(x: bv32, y: bv32)
    requires Eight(x) == Eight(y)
    ensures x == y
  {
    hide Bit;
    var x1, y1 := Bit(x), Bit(y);
    var x2, y2 := Bit(x1), Bit(y1);
    var x3, y3 := Bit(x2), Bit(y2);
    var x4, y4 := Bit(x3), Bit(y3);
    var x5, y5 := Bit(x4), Bit(y4);
    var x6, y6 := Bit(x5), Bit(y5);
    var x7, y7 := Bit(x6), Bit(y6);
    BitIsOneToOne(x7, y7);
    BitIsOneToOne(x6, y6);
    BitIsOneToOne(x5, y5);
    BitIsOneToOne(x4, y4);
    BitIsOneToOne(x3, y3);
    BitIsOneToOne(x2, y2);
    BitIsOneToOne(x1, y1);
    BitIsOneToOne(x, y);
  }

  lemma SumIsOneToOne(x: bv32, y: bv32, z: bv32)
    requires Sum(x, z) == Sum(y, z) || Sum(z, x) == Sum(z, y)
    ensures x == y
  {
  }

  lemma {:induction false} UpdatedIsOneToOne(x: bv32, y: bv32, msg: seq<bv8>)
    requires Updated(x, msg) == Updated(y, msg)
    ensures x == y
    decreases |msg|
  {
    hide Update, Eight, Sum;
    if msg != [] {
      UpdatedIsOneToOne(Update(x, msg[0]), Update(y, msg[0]), msg[1..]);
      UpdateIsEight(x, msg[0]);
      UpdateIsEight(y, msg[0]);
      EightIsOneToOne(Sum(x, msg[0] as bv32), Sum(y, msg[0] as bv32));
      SumIsOneToOne(x, y, msg[0] as bv32);
    }
  }

  /** A byte put below a word. */
  function Join(b: bv8, w: bv32): bv32 {
    b as bv32 | (w << 8)
  }

  /** Up to four bytes as one word, the first byte lowest. */
  ghost function Word(bytes: seq<bv8>): bv32
    decreases |bytes|
  {
    if bytes == [] then 0 else Join(bytes[0], Word(bytes[1..]))
  }

  ghost function Times(n: nat, x: bv32): bv32 {
    if n == 0 then x else Times(n - 1, Eight(x))
  }

  lemma {:induction false} TimesIsOneToOne(n: nat, x: bv32, y: bv32)
    requires Times(n, x) == Times(n, y)
    ensures x == y
  {
    hide Eight;
    if n > 0 {
      TimesIsOneToOne(n - 1, Eight(x), Eight(y));
      EightIsOneToOne(x, y);
    }
  }

  ghost predicate Small(k: nat, w: bv32) {
    (k <= 1 ==> w <= 0xFF) && (k <= 2 ==> w <= 0xFFFF) && (k <= 3 ==> w <= 0xFFFFFF) && (k == 0 ==> w == 0)
  }

  lemma PackSmall(k: nat, b: bv8, w: bv32)
    requires Small(k, w)
    ensures Small(k + 1, Join(b, w))
  {
  }

  lemma {:induction false} WordIsSmall(bytes: seq<bv8>)
    requires |bytes| <= 4
    ensures Small(|bytes|, Word(bytes))
    decreases |bytes|
  {
    if bytes != [] {
      WordIsSmall(bytes[1..]);
      PackSmall(|bytes| - 1, bytes[0], Word(bytes[1..]));
    }
  }

  lemma JoinIsSum(b: bv8, w: bv32)
    ensures Join(b, w) == Sum(b as bv32, w << 8)
  {
  }

  lemma UpAndDown(w: bv32)
    requires w <= 0xFFFFFF
    ensures (w << 8) & 0xFF == 0 && (w << 8) >> 8 == w
  {
  }

  /** Dividing out a byte, then adding a word, is adding both at first. */
  lemma Pack(crc: bv32, b: bv8, w: bv32)
    requires w <= 0xFFFFFF
    ensures Sum(Update(crc, b), w) == Eight(Sum(crc, Join(b, w)))
  {
    hide Update, Eight, Sum, Join;
    UpdateIsEight(crc, b);
    UpAndDown(w);
    EightOfHigh(w << 8);
    EightOfSum(Sum(crc, b as bv32), w << 8);
    SumIsAssociative(crc, b as bv32, w << 8);
    JoinIsSum(b, w);
  }

  /** A block of up to four bytes can be added in first and divided out afterwards. */
  lemma {:induction false} BlockAtOnce(crc: bv32, bytes: seq<bv8>)
    requires |bytes| <= 4
    ensures Updated(crc, bytes) == Times(|bytes|, Sum(crc, Word(bytes)))
    decreases |bytes|
  {
    hide Update, Eight, Sum, Join;
    if bytes == [] {
      SumCancels(crc);
    } else {
      var b, w := bytes[0], Word(bytes[1..]);
      WordIsSmall(bytes[1..]);
      Pack(crc, b, w);
      BlockAtOnce(Update(crc, b), bytes[1..]);
    }
  }

  lemma JoinIsOneToOne(b: bv8, w: bv32, b': bv8, w': bv32)
    requires w <= 0xFFFFFF && w' <= 0xFFFFFF && Join(b, w) == Join(b', w')
    ensures b == b' && w == w'
  {
  }

  lemma {:induction false} WordIsOneToOne(a: seq<bv8>, b: seq<bv8>)
    requires |a| == |b| <= 4 && Word(a) == Word(b)
    ensures a == b
    decreases |a|
  {
    hide Join;
    if a != [] {
      WordIsSmall(a[1..]);
      WordIsSmall(b[1..]);
      JoinIsOneToOne(a[0], Word(a[1..]), b[0], Word(b[1..]));
      WordIsOneToOne(a[1..], b[1..]);
      assert a == [a[0]] + a[1..] && b == [b[0]] + b[1..];
    }
  }

  /** No error confined to four consecutive bytes goes unnoticed. */
  lemma BurstIsDetected(before: seq<bv8>, a: seq<bv8>, b: seq<bv8>, after: seq<bv8>, start: bv32)
    requires |a| == |b| <= 4 && a != b
    ensures Crc(before + a + after, start) != Crc(before + b + after, start)
  {
    if Crc(before + a + after, start) == Crc(before + b + after, start) {
      var crc := Updated(Flip(start), before);
      FlipTwice(Updated(Flip(start), before + a + after));
      FlipTwice(Updated(Flip(start), before + b + after));
      UpdatedConcat(Flip(start), before + a, after);
      UpdatedConcat(Flip(start), before + b, after);
      UpdatedConcat(Flip(start), before, a);
      UpdatedConcat(Flip(start), before, b);
      UpdatedIsOneToOne(Updated(crc, a), Updated(crc, b), after);
      BlockAtOnce(crc, a);
      BlockAtOnce(crc, b);
      TimesIsOneToOne(|a|, Sum(crc, Word(a)), Sum(crc, Word(b)));
      SumIsOneToOne(Word(a), Word(b), crc);
      WordIsOneToOne(a, b);
    }
  }
}

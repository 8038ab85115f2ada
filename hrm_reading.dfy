/**
 * The Zephyr HxM heart-rate message and its decoder: the inner class
 * HrmReading of the hxmDemo activity.
 */
module HxmFrame {
  import opened JavaInt

  /** The protocol constants declared by HrmReading. Only ETX is ever compared. */
  const STX: int := 0x02
  const MSGID: int := 0x26
  const DLC: int := 55
  const ETX: int := 0x03

  /** Bytes of a complete message: 3 header bytes, DLC payload bytes, crc and etx. */
  const FrameLength: nat := 60

  /**
   * The fields of one HrmReading. Java `byte` fields stay signed; the `int`
   * and `long` fields hold the unsigned values the decoder computes.
   */
  datatype HrmReading = HrmReading(
    stx: Int8, msgId: Int8, dlc: Int8,
    firmwareId: int, firmwareVersion: int, hardwareId: int, hardwareVersion: int,
    batteryIndicator: int, heartRate: int, heartBeatNumber: int,
    hbTime1: int, hbTime2: int, hbTime3: int, hbTime4: int, hbTime5: int,
    hbTime6: int, hbTime7: int, hbTime8: int, hbTime9: int, hbTime10: int,
    hbTime11: int, hbTime12: int, hbTime13: int, hbTime14: int, hbTime15: int,
    reserved1: int, reserved2: int, reserved3: int,
    distance: int, speed: int,
    strides: Int8, reserved4: Int8, reserved5: int,
    crc: Int8, etx: Int8)

  /** A reading whose fields all still hold Java's default value 0. */
  const Unset := HrmReading(
    0, 0, 0,
    0, 0, 0, 0,
    0, 0, 0,
    0, 0, 0, 0, 0, 0, 0, 0, 0, 0, 0, 0, 0, 0, 0,
    0, 0, 0,
    0, 0,
    0, 0, 0,
    0, 0)

  /**
   * The decoder's byte mask: the byte widened to a Java int (sign-extended),
   * then and-ed with 0xFF, which leaves a value in 0..255.
   */
  function MaskByte(b: Int8): (r: int)
    ensures 0 <= r < 0x100
  {
    And(0xFF, b as int)
  }

  /**
   * The decoder's 16-bit combine: the masked low byte or-ed with the masked
   * high byte shifted left by 8. The two operands share no bit, so the or is
   * the sum low + 256 * high.
   */
  function CombineLe16(lo: Int8, hi: Int8): (r: int)
    ensures r == MaskByte(lo) + 256 * MaskByte(hi)
    ensures 0 <= r < 0x1_0000
  {
    ShiftLeftByte(MaskByte(hi));
    OrLowByte(MaskByte(lo), MaskByte(hi));
    Or(MaskByte(lo), ShiftLeft(MaskByte(hi), 8))
  }

  /** Masking yields the unsigned value of the byte: no sign extension survives. */
  lemma MaskByteValue(b: Int8)
    ensures MaskByte(b) == Unsigned(b)
  {
    AndLowByte(b as int);
    if b < 0 {
      ModUnique(b as int, 256, -1, b as int + 256);
    } else {
      ModUnique(b as int, 256, 0, b as int);
    }
  }

  /** The combined value is the low byte plus 256 times the high byte, both unsigned. */
  lemma CombineLe16Value(lo: Int8, hi: Int8)
    ensures CombineLe16(lo, hi) == Unsigned(lo) + 256 * Unsigned(hi)
    ensures 0 <= CombineLe16(lo, hi) < 0x1_0000
  {
    MaskByteValue(lo);
    MaskByteValue(hi);
  }

  /** The byte fields copied verbatim: byte `k`, or the default 0 past the end of the buffer. */
  function ByteAt(buffer: seq<Int8>, k: nat): Int8
  {
    if k < |buffer| then buffer[k] else 0
  }

  /** The fields masked to one unsigned byte: byte `k` read as 0..255, or 0 past the end. */
  function MaskedAt(buffer: seq<Int8>, k: nat): (v: int)
    ensures 0 <= v < 0x100
  {
    if k < |buffer| then Unsigned(buffer[k]) else 0
  }

  /**
   * The 16-bit little-endian fields: byte `k` is the low byte and `k + 1` the
   * high byte, both read unsigned; 0 when the high byte lies past the end.
   */
  function Le16At(buffer: seq<Int8>, k: nat): (v: int)
    ensures 0 <= v < 0x1_0000
  {
    if k + 1 < |buffer| then Unsigned(buffer[k]) + 256 * Unsigned(buffer[k + 1]) else 0
  }

  /** The value ranges the decoder produces: 16-bit fields in 0..65535, masked bytes in 0..255. */
  predicate InRange(r: HrmReading)
  {
    && Is16(r.firmwareId) && Is16(r.firmwareVersion) && Is16(r.hardwareId) && Is16(r.hardwareVersion)
    && Is8(r.batteryIndicator) && Is8(r.heartRate) && Is8(r.heartBeatNumber)
    && Is16(r.hbTime1) && Is16(r.hbTime2) && Is16(r.hbTime3) && Is16(r.hbTime4) && Is16(r.hbTime5)
    && Is16(r.hbTime6) && Is16(r.hbTime7) && Is16(r.hbTime8) && Is16(r.hbTime9) && Is16(r.hbTime10)
    && Is16(r.hbTime11) && Is16(r.hbTime12) && Is16(r.hbTime13) && Is16(r.hbTime14) && Is16(r.hbTime15)
    && Is16(r.reserved1) && Is16(r.reserved2) && Is16(r.reserved3)
    && Is16(r.distance) && Is16(r.speed) && Is16(r.reserved5)
  }

  predicate Is16(v: int) { 0 <= v < 0x1_0000 }
  predicate Is8(v: int) { 0 <= v < 0x100 }

  /**
   * The reading built from `buffer`, stated by offsets: each field is taken
   * from its fixed position when the buffer holds its last byte, and keeps
   * the default 0 otherwise. Bytes from offset 60 on are never looked at.
   */
  function Decoded(buffer: seq<Int8>): (r: HrmReading)
    ensures InRange(r)
    ensures |buffer| < FrameLength ==> r.etx == 0
  {
    HrmReading(
      ByteAt(buffer, 0), ByteAt(buffer, 1), ByteAt(buffer, 2),
      Le16At(buffer, 3), Le16At(buffer, 5), Le16At(buffer, 7), Le16At(buffer, 9),
      MaskedAt(buffer, 11), MaskedAt(buffer, 12), MaskedAt(buffer, 13),
      Le16At(buffer, 14), Le16At(buffer, 16), Le16At(buffer, 18), Le16At(buffer, 20), Le16At(buffer, 22),
      Le16At(buffer, 24), Le16At(buffer, 26), Le16At(buffer, 28), Le16At(buffer, 30), Le16At(buffer, 32),
      Le16At(buffer, 34), Le16At(buffer, 36), Le16At(buffer, 38), Le16At(buffer, 40), Le16At(buffer, 42),
      Le16At(buffer, 44), Le16At(buffer, 46), Le16At(buffer, 48),
      Le16At(buffer, 50), Le16At(buffer, 52),
      ByteAt(buffer, 54), ByteAt(buffer, 55), Le16At(buffer, 56),
      ByteAt(buffer, 58), ByteAt(buffer, 59))
  }

  /** The check the decoder makes on the last byte; a mismatch is only reported. */
  predicate WellFormed(r: HrmReading)
  {
    r.etx as int == ETX
  }

  /** A decoded reading passes the end-byte check iff the buffer holds a 60th byte and it is ETX. */
  lemma WellFormedDecoded(buffer: seq<Int8>)
    ensures WellFormed(Decoded(buffer)) <==> |buffer| >= FrameLength && buffer[59] as int == ETX
  {
  }

  /**
   * Unset is the reading nothing was read into: the empty buffer decodes to
   * it, truncating any reading to no bytes gives it, and it fails the
   * end-byte check.
   */
  lemma UnsetIsDefault(r: HrmReading)
    ensures Decoded([]) == Unset
    ensures Truncated(r, 0) == Unset
    ensures InRange(Unset) && !WellFormed(Unset)
  {
  }

  // The cursor steps of the decoder. As in Java, where the index expression
  // with its post-increment is evaluated before the array bounds are checked,
  // each read advances the cursor even when it then fails.

  method ReadByte(buffer: seq<Int8>, index: nat) returns (ok: bool, value: Int8, next: nat)
    ensures next == index + 1
    ensures ok == (index < |buffer|)
    ensures value == ByteAt(buffer, index)
  {
    next := index + 1;
    ok := index < |buffer|;
    value := if ok then buffer[index] else 0;
  }

  method ReadMasked(buffer: seq<Int8>, index: nat) returns (ok: bool, value: int, next: nat)
    ensures next == index + 1
    ensures ok == (index < |buffer|)
    ensures value == MaskedAt(buffer, index)
  {
    var b: Int8;
    ok, b, next := ReadByte(buffer, index);
    value := 0;
    if ok {
      value := MaskByte(b);
      MaskByteValue(b);
    }
  }

  /** Reads a low and a high byte; a missing high byte fails after both reads advanced the cursor. */
  method ReadLe16(buffer: seq<Int8>, index: nat) returns (ok: bool, value: int, next: nat)
    ensures next == if index < |buffer| then index + 2 else index + 1
    ensures ok == (index + 1 < |buffer|)
    ensures value == Le16At(buffer, index)
  {
    var lo, hi: Int8;
    value := 0;
    ok, lo, next := ReadByte(buffer, index);
    if ok {
      ok, hi, next := ReadByte(buffer, next);
      if ok {
        value := CombineLe16(lo, hi);
        CombineLe16Value(lo, hi);
      }
    }
  }

  /** Reads the start byte, message id and data length: bytes 0..2, each field assigned as soon as it is read. */
  method ReadHeader(buffer: seq<Int8>, reading0: HrmReading, index: nat) returns (ok: bool, reading: HrmReading, next: nat)
    requires index == 0
    requires reading0.stx == 0 && reading0.msgId == 0 && reading0.dlc == 0
    ensures reading == reading0.(stx := ByteAt(buffer, 0), msgId := ByteAt(buffer, 1), dlc := ByteAt(buffer, 2))
    ensures ok == (|buffer| >= 3)
    ensures next == if ok then 3 else |buffer| + 1
  {
    reading, next := reading0, index;
    var b: Int8;
    ok, b, next := ReadByte(buffer, next);
    if !ok { return; }
    reading := reading.(stx := b);
    ok, b, next := ReadByte(buffer, next);
    if !ok { return; }
    reading := reading.(msgId := b);
    ok, b, next := ReadByte(buffer, next);
    if !ok { return; }
    reading := reading.(dlc := b);
  }

  /** Reads the firmware and hardware ids and versions: bytes 3..10, each field assigned as soon as it is read. */
  method ReadDeviceIds(buffer: seq<Int8>, reading0: HrmReading, index: nat) returns (ok: bool, reading: HrmReading, next: nat)
    requires index == 3 <= |buffer|
    requires reading0.firmwareId == 0 && reading0.firmwareVersion == 0 && reading0.hardwareId == 0 && reading0.hardwareVersion == 0
    ensures reading == reading0.(firmwareId := Le16At(buffer, 3), firmwareVersion := Le16At(buffer, 5), hardwareId := Le16At(buffer, 7), hardwareVersion := Le16At(buffer, 9))
    ensures ok == (|buffer| >= 11)
    ensures next == if ok then 11 else |buffer| + 1
  {
    reading, next := reading0, index;
    var v: int;
    ok, v, next := ReadLe16(buffer, next);
    if !ok { return; }
    reading := reading.(firmwareId := v);
    ok, v, next := ReadLe16(buffer, next);
    if !ok { return; }
    reading := reading.(firmwareVersion := v);
    ok, v, next := ReadLe16(buffer, next);
    if !ok { return; }
    reading := reading.(hardwareId := v);
    ok, v, next := ReadLe16(buffer, next);
    if !ok { return; }
    reading := reading.(hardwareVersion := v);
  }

  /** Reads the battery charge, heart rate and heart beat number: bytes 11..13, each field assigned as soon as it is read. */
  method ReadStatus(buffer: seq<Int8>, reading0: HrmReading, index: nat) returns (ok: bool, reading: HrmReading, next: nat)
    requires index == 11 <= |buffer|
    requires reading0.batteryIndicator == 0 && reading0.heartRate == 0 && reading0.heartBeatNumber == 0
    ensures reading == reading0.(batteryIndicator := MaskedAt(buffer, 11), heartRate := MaskedAt(buffer, 12), heartBeatNumber := MaskedAt(buffer, 13))
    ensures ok == (|buffer| >= 14)
    ensures next == if ok then 14 else |buffer| + 1
  {
    reading, next := reading0, index;
    var v: int;
    ok, v, next := ReadMasked(buffer, next);
    if !ok { return; }
    reading := reading.(batteryIndicator := v);
    ok, v, next := ReadMasked(buffer, next);
    if !ok { return; }
    reading := reading.(heartRate := v);
    ok, v, next := ReadMasked(buffer, next);
    if !ok { return; }
    reading := reading.(heartBeatNumber := v);
  }

  /** Reads the fifteen heart beat timestamps: bytes 14..43, each field assigned as soon as it is read. */
  method ReadBeatTimes(buffer: seq<Int8>, reading0: HrmReading, index: nat) returns (ok: bool, reading: HrmReading, next: nat)
    requires index == 14 <= |buffer|
    requires reading0.hbTime1 == 0 && reading0.hbTime2 == 0 && reading0.hbTime3 == 0 && reading0.hbTime4 == 0 && reading0.hbTime5 == 0 && reading0.hbTime6 == 0 && reading0.hbTime7 == 0 && reading0.hbTime8 == 0 && reading0.hbTime9 == 0 && reading0.hbTime10 == 0 && reading0.hbTime11 == 0 && reading0.hbTime12 == 0 && reading0.hbTime13 == 0 && reading0.hbTime14 == 0 && reading0.hbTime15 == 0
    ensures reading == reading0.(hbTime1 := Le16At(buffer, 14), hbTime2 := Le16At(buffer, 16), hbTime3 := Le16At(buffer, 18), hbTime4 := Le16At(buffer, 20), hbTime5 := Le16At(buffer, 22), hbTime6 := Le16At(buffer, 24), hbTime7 := Le16At(buffer, 26), hbTime8 := Le16At(buffer, 28), hbTime9 := Le16At(buffer, 30), hbTime10 := Le16At(buffer, 32), hbTime11 := Le16At(buffer, 34), hbTime12 := Le16At(buffer, 36), hbTime13 := Le16At(buffer, 38), hbTime14 := Le16At(buffer, 40), hbTime15 := Le16At(buffer, 42))
    ensures ok == (|buffer| >= 44)
    ensures next == if ok then 44 else |buffer| + 1
  {
    reading, next := reading0, index;
    var v: int;
    ok, v, next := ReadLe16(buffer, next);
    if !ok { return; }
    reading := reading.(hbTime1 := v);
    ok, v, next := ReadLe16(buffer, next);
    if !ok { return; }
    reading := reading.(hbTime2 := v);
    ok, v, next := ReadLe16(buffer, next);
    if !ok { return; }
    reading := reading.(hbTime3 := v);
    ok, v, next := ReadLe16(buffer, next);
    if !ok { return; }
    reading := reading.(hbTime4 := v);
    ok, v, next := ReadLe16(buffer, next);
    if !ok { return; }
    reading := reading.(hbTime5 := v);
    ok, v, next := ReadLe16(buffer, next);
    if !ok { return; }
    reading := reading.(hbTime6 := v);
    ok, v, next := ReadLe16(buffer, next);
    if !ok { return; }
    reading := reading.(hbTime7 := v);
    ok, v, next := ReadLe16(buffer, next);
    if !ok { return; }
    reading := reading.(hbTime8 := v);
    ok, v, next := ReadLe16(buffer, next);
    if !ok { return; }
    reading := reading.(hbTime9 := v);
    ok, v, next := ReadLe16(buffer, next);
    if !ok { return; }
    reading := reading.(hbTime10 := v);
    ok, v, next := ReadLe16(buffer, next);
    if !ok { return; }
    reading := reading.(hbTime11 := v);
    ok, v, next := ReadLe16(buffer, next);
    if !ok { return; }
    reading := reading.(hbTime12 := v);
    ok, v, next := ReadLe16(buffer, next);
    if !ok { return; }
    reading := reading.(hbTime13 := v);
    ok, v, next := ReadLe16(buffer, next);
    if !ok { return; }
    reading := reading.(hbTime14 := v);
    ok, v, next := ReadLe16(buffer, next);
    if !ok { return; }
    reading := reading.(hbTime15 := v);
  }

  /** Reads the three reserved words, distance and speed: bytes 44..53, each field assigned as soon as it is read. */
  method ReadMotion(buffer: seq<Int8>, reading0: HrmReading, index: nat) returns (ok: bool, reading: HrmReading, next: nat)
    requires index == 44 <= |buffer|
    requires reading0.reserved1 == 0 && reading0.reserved2 == 0 && reading0.reserved3 == 0 && reading0.distance == 0 && reading0.speed == 0
    ensures reading == reading0.(reserved1 := Le16At(buffer, 44), reserved2 := Le16At(buffer, 46), reserved3 := Le16At(buffer, 48), distance := Le16At(buffer, 50), speed := Le16At(buffer, 52))
    ensures ok == (|buffer| >= 54)
    ensures next == if ok then 54 else |buffer| + 1
  {
    reading, next := reading0, index;
    var v: int;
    ok, v, next := ReadLe16(buffer, next);
    if !ok { return; }
    reading := reading.(reserved1 := v);
    ok, v, next := ReadLe16(buffer, next);
    if !ok { return; }
    reading := reading.(reserved2 := v);
    ok, v, next := ReadLe16(buffer, next);
    if !ok { return; }
    reading := reading.(reserved3 := v);
    ok, v, next := ReadLe16(buffer, next);
    if !ok { return; }
    reading := reading.(distance := v);
    ok, v, next := ReadLe16(buffer, next);
    if !ok { return; }
    reading := reading.(speed := v);
  }

  /** Reads strides, the fourth and fifth reserved fields, crc and etx: bytes 54..59, each field assigned as soon as it is read. */
  method ReadTrailer(buffer: seq<Int8>, reading0: HrmReading, index: nat) returns (ok: bool, reading: HrmReading, next: nat)
    requires index == 54 <= |buffer|
    requires reading0.strides == 0 && reading0.reserved4 == 0 && reading0.reserved5 == 0 && reading0.crc == 0 && reading0.etx == 0
    ensures reading == reading0.(strides := ByteAt(buffer, 54), reserved4 := ByteAt(buffer, 55), reserved5 := Le16At(buffer, 56), crc := ByteAt(buffer, 58), etx := ByteAt(buffer, 59))
    ensures ok == (|buffer| >= 60)
    ensures next == if |buffer| < FrameLength - 1 then |buffer| + 1 else FrameLength - 1
  {
    reading, next := reading0, index;
    var b: Int8;
    var v: int;
    ok, b, next := ReadByte(buffer, next);
    if !ok { return; }
    reading := reading.(strides := b);
    ok, b, next := ReadByte(buffer, next);
    if !ok { return; }
    reading := reading.(reserved4 := b);
    ok, v, next := ReadLe16(buffer, next);
    if !ok { return; }
    reading := reading.(reserved5 := v);
    ok, b, next := ReadByte(buffer, next);
    if !ok { return; }
    reading := reading.(crc := b);
    // etx is read without advancing the cursor
    var after: nat;
    ok, b, after := ReadByte(buffer, next);
    if !ok { return; }
    reading := reading.(etx := b);
  }

  /**
   * The HrmReading constructor: walks a cursor over `buffer`, assigning the
   * fields in order. Running out of bytes ends the walk (Java throws and the
   * handler swallows it) with the remaining fields at 0. `consumed` is the
   * cursor the constructor logs, `complete` tells whether the walk ran to the
   * end, and `wellFormed` is the ETX comparison.
   */
  method Decode(buffer: seq<Int8>) returns (reading: HrmReading, consumed: nat, complete: bool, wellFormed: bool)
    ensures reading == Decoded(buffer)
    ensures consumed == if |buffer| < FrameLength - 1 then |buffer| + 1 else FrameLength - 1
    ensures complete == (|buffer| >= FrameLength)
    ensures wellFormed == WellFormed(reading)
    ensures wellFormed <==> |buffer| >= FrameLength && buffer[FrameLength - 1] as int == ETX
  {
    reading := Unset;
    var i: nat := 0;
    var ok: bool;
    label parse: {
      ok, reading, i := ReadHeader(buffer, reading, i);
      if !ok { break parse; }
      ok, reading, i := ReadDeviceIds(buffer, reading, i);
      if !ok { break parse; }
      ok, reading, i := ReadStatus(buffer, reading, i);
      if !ok { break parse; }
      ok, reading, i := ReadBeatTimes(buffer, reading, i);
      if !ok { break parse; }
      ok, reading, i := ReadMotion(buffer, reading, i);
      if !ok { break parse; }
      ok, reading, i := ReadTrailer(buffer, reading, i);
    }
    consumed := i;
    complete := ok;
    wellFormed := reading.etx as int == ETX;
  }

  // ------------------------------------------------------------------
  // An encoder, the partner of the decoder: it writes every field at the
  // offsets the cursor reads them from, 16-bit values low byte first.
  // ------------------------------------------------------------------

  /** Java's narrowing cast to byte: the low eight bits of `x` read as a signed byte. */
  function ToByte(x: int): (b: Int8)
    ensures Unsigned(b) == x % 256
  {
    var u := x % 256;
    if u < 128 then u as Int8 else (u - 256) as Int8
  }

  /** The fifteen beat times of `r`, oldest first. */
  function BeatTimes(r: HrmReading): (times: seq<int>)
    ensures |times| == 15
  {
    [r.hbTime1, r.hbTime2, r.hbTime3, r.hbTime4, r.hbTime5, r.hbTime6, r.hbTime7, r.hbTime8,
     r.hbTime9, r.hbTime10, r.hbTime11, r.hbTime12, r.hbTime13, r.hbTime14, r.hbTime15]
  }

  /** Byte `j` (0 low, 1 high) of a 16-bit value. */
  function Le16Byte(v: int, j: nat): Int8
  {
    if j == 0 then ToByte(v) else ToByte(v / 256)
  }

  /** Byte `i` of the message that carries `r`. */
  function EncodedByte(r: HrmReading, i: nat): Int8
    requires i < FrameLength
  {
    if i < 3 then [r.stx, r.msgId, r.dlc][i]
    else if i < 11 then Le16Byte([r.firmwareId, r.firmwareVersion, r.hardwareId, r.hardwareVersion][(i - 3) / 2], (i - 3) % 2)
    else if i < 14 then ToByte([r.batteryIndicator, r.heartRate, r.heartBeatNumber][i - 11])
    else if i < 44 then Le16Byte(BeatTimes(r)[(i - 14) / 2], (i - 14) % 2)
    else if i < 54 then Le16Byte([r.reserved1, r.reserved2, r.reserved3, r.distance, r.speed][(i - 44) / 2], (i - 44) % 2)
    else if i == 54 then r.strides
    else if i == 55 then r.reserved4
    else if i < 58 then Le16Byte(r.reserved5, i - 56)
    else if i == 58 then r.crc
    else r.etx
  }

  /** The 60-byte message that carries the fields of `r`. */
  function Encode(r: HrmReading): (bytes: seq<Int8>)
    ensures |bytes| == FrameLength
  {
    seq(FrameLength, i requires 0 <= i < FrameLength => EncodedByte(r, i))
  }

  /** Splitting a 16-bit value into a low and a high byte and combining them again gives it back. */
  lemma SplitCombine(v: int)
    requires 0 <= v < 0x1_0000
    ensures Unsigned(ToByte(v)) + 256 * Unsigned(ToByte(v / 256)) == v
  {
    var h := v / 256;
    assert v == 256 * h + v % 256;
    ModUnique(h, 256, 0, h);
  }

  /** A value in 0..255 survives the round trip through a signed byte. */
  lemma ByteUnsigned(u: int)
    requires 0 <= u < 0x100
    ensures Unsigned(ToByte(u)) == u
  {
    ModUnique(u, 256, 0, u);
  }

  /** Combining two bytes and splitting the result again gives both bytes back. */
  lemma CombineSplit(lo: Int8, hi: Int8)
    ensures ToByte(Unsigned(lo) + 256 * Unsigned(hi)) == lo
    ensures ToByte((Unsigned(lo) + 256 * Unsigned(hi)) / 256) == hi
  {
    var l, h := Unsigned(lo), Unsigned(hi);
    ModUnique(l + 256 * h, 256, h, l);
    DivUnique(l + 256 * h, 256, h, l);
    ModUnique(h, 256, 0, h);
    UnsignedByte(lo);
    UnsignedByte(hi);
  }

  /** Reading a byte unsigned and narrowing it back to a byte is the identity. */
  lemma UnsignedByte(b: Int8)
    ensures ToByte(Unsigned(b)) == b
  {
    ModUnique(Unsigned(b), 256, 0, Unsigned(b));
  }

  lemma Le16AtSplit(bytes: seq<Int8>, k: nat, v: int)
    requires 0 <= v < 0x1_0000
    requires k + 1 < |bytes| && bytes[k] == ToByte(v) && bytes[k + 1] == ToByte(v / 256)
    ensures Le16At(bytes, k) == v
  {
    SplitCombine(v);
  }

  lemma MaskedAtSplit(bytes: seq<Int8>, k: nat, u: int)
    requires 0 <= u < 0x100
    requires k < |bytes| && bytes[k] == ToByte(u)
    ensures MaskedAt(bytes, k) == u
  {
    ByteUnsigned(u);
  }

  /** The round trip for the header. */
  lemma DecodeEncodeHeader(r: HrmReading)
    requires InRange(r)
    ensures Decoded(Encode(r)).stx == r.stx
    ensures Decoded(Encode(r)).msgId == r.msgId
    ensures Decoded(Encode(r)).dlc == r.dlc
  {
  }

  /** The round trip for the device ids and versions. */
  lemma DecodeEncodeDeviceIds(r: HrmReading)
    requires InRange(r)
    ensures Decoded(Encode(r)).firmwareId == r.firmwareId
    ensures Decoded(Encode(r)).firmwareVersion == r.firmwareVersion
    ensures Decoded(Encode(r)).hardwareId == r.hardwareId
    ensures Decoded(Encode(r)).hardwareVersion == r.hardwareVersion
  {
    var bytes := Encode(r);
    Le16AtSplit(bytes, 3, r.firmwareId);
    Le16AtSplit(bytes, 5, r.firmwareVersion);
    Le16AtSplit(bytes, 7, r.hardwareId);
    Le16AtSplit(bytes, 9, r.hardwareVersion);
  }

  /** The round trip for the status bytes. */
  lemma DecodeEncodeStatus(r: HrmReading)
    requires InRange(r)
    ensures Decoded(Encode(r)).batteryIndicator == r.batteryIndicator
    ensures Decoded(Encode(r)).heartRate == r.heartRate
    ensures Decoded(Encode(r)).heartBeatNumber == r.heartBeatNumber
  {
    var bytes := Encode(r);
    MaskedAtSplit(bytes, 11, r.batteryIndicator);
    MaskedAtSplit(bytes, 12, r.heartRate);
    MaskedAtSplit(bytes, 13, r.heartBeatNumber);
  }

  /** The round trip for beat times 1 to 4. */
  lemma DecodeEncodeBeats1To4(r: HrmReading)
    requires InRange(r)
    ensures Decoded(Encode(r)).hbTime1 == r.hbTime1
    ensures Decoded(Encode(r)).hbTime2 == r.hbTime2
    ensures Decoded(Encode(r)).hbTime3 == r.hbTime3
    ensures Decoded(Encode(r)).hbTime4 == r.hbTime4
  {
    var bytes := Encode(r);
    Le16AtSplit(bytes, 14, r.hbTime1);
    Le16AtSplit(bytes, 16, r.hbTime2);
    Le16AtSplit(bytes, 18, r.hbTime3);
    Le16AtSplit(bytes, 20, r.hbTime4);
  }

  /** The round trip for beat times 5 to 8. */
  lemma DecodeEncodeBeats5To8(r: HrmReading)
    requires InRange(r)
    ensures Decoded(Encode(r)).hbTime5 == r.hbTime5
    ensures Decoded(Encode(r)).hbTime6 == r.hbTime6
    ensures Decoded(Encode(r)).hbTime7 == r.hbTime7
    ensures Decoded(Encode(r)).hbTime8 == r.hbTime8
  {
    var bytes := Encode(r);
    Le16AtSplit(bytes, 22, r.hbTime5);
    Le16AtSplit(bytes, 24, r.hbTime6);
    Le16AtSplit(bytes, 26, r.hbTime7);
    Le16AtSplit(bytes, 28, r.hbTime8);
  }

  /** The round trip for beat times 9 to 12. */
  lemma DecodeEncodeBeats9To12(r: HrmReading)
    requires InRange(r)
    ensures Decoded(Encode(r)).hbTime9 == r.hbTime9
    ensures Decoded(Encode(r)).hbTime10 == r.hbTime10
    ensures Decoded(Encode(r)).hbTime11 == r.hbTime11
    ensures Decoded(Encode(r)).hbTime12 == r.hbTime12
  {
    var bytes := Encode(r);
    Le16AtSplit(bytes, 30, r.hbTime9);
    Le16AtSplit(bytes, 32, r.hbTime10);
    Le16AtSplit(bytes, 34, r.hbTime11);
    Le16AtSplit(bytes, 36, r.hbTime12);
  }

  /** The round trip for beat times 13 to 15. */
  lemma DecodeEncodeBeats13To15(r: HrmReading)
    requires InRange(r)
    ensures Decoded(Encode(r)).hbTime13 == r.hbTime13
    ensures Decoded(Encode(r)).hbTime14 == r.hbTime14
    ensures Decoded(Encode(r)).hbTime15 == r.hbTime15
  {
    var bytes := Encode(r);
    Le16AtSplit(bytes, 38, r.hbTime13);
    Le16AtSplit(bytes, 40, r.hbTime14);
    Le16AtSplit(bytes, 42, r.hbTime15);
  }

  /** The round trip for the three reserved words. */
  lemma DecodeEncodeReserved(r: HrmReading)
    requires InRange(r)
    ensures Decoded(Encode(r)).reserved1 == r.reserved1
    ensures Decoded(Encode(r)).reserved2 == r.reserved2
    ensures Decoded(Encode(r)).reserved3 == r.reserved3
  {
    var bytes := Encode(r);
    Le16AtSplit(bytes, 44, r.reserved1);
    Le16AtSplit(bytes, 46, r.reserved2);
    Le16AtSplit(bytes, 48, r.reserved3);
  }

  /** The round trip for distance and speed. */
  lemma DecodeEncodeDistanceSpeed(r: HrmReading)
    requires InRange(r)
    ensures Decoded(Encode(r)).distance == r.distance
    ensures Decoded(Encode(r)).speed == r.speed
  {
    var bytes := Encode(r);
    Le16AtSplit(bytes, 50, r.distance);
    Le16AtSplit(bytes, 52, r.speed);
  }

  /** The round trip for the trailer. */
  lemma DecodeEncodeTrailer(r: HrmReading)
    requires InRange(r)
    ensures Decoded(Encode(r)).strides == r.strides
    ensures Decoded(Encode(r)).reserved4 == r.reserved4
    ensures Decoded(Encode(r)).reserved5 == r.reserved5
    ensures Decoded(Encode(r)).crc == r.crc
    ensures Decoded(Encode(r)).etx == r.etx
  {
    var bytes := Encode(r);
    Le16AtSplit(bytes, 56, r.reserved5);
  }

  /** Decoding an encoded reading gives it back, whenever its fields are in the decoder's ranges. */
  lemma DecodeEncode(r: HrmReading)
    requires InRange(r)
    ensures Decoded(Encode(r)) == r
  {
    DecodeEncodeHeader(r);
    DecodeEncodeDeviceIds(r);
    DecodeEncodeStatus(r);
    DecodeEncodeBeats1To4(r);
    DecodeEncodeBeats5To8(r);
    DecodeEncodeBeats9To12(r);
    DecodeEncodeBeats13To15(r);
    DecodeEncodeReserved(r);
    DecodeEncodeDistanceSpeed(r);
    DecodeEncodeTrailer(r);
  }

  /** The reverse round trip for the header: bytes 0..2. */
  lemma EncodeDecodeHeader(buffer: seq<Int8>)
    requires |buffer| >= FrameLength
    ensures forall i | 0 <= i < 3 :: Encode(Decoded(buffer))[i] == buffer[i]
  {
  }

  /** The reverse round trip for the device ids and versions: bytes 3..10. */
  lemma EncodeDecodeDeviceIds(buffer: seq<Int8>)
    requires |buffer| >= FrameLength
    ensures forall i | 3 <= i < 11 :: Encode(Decoded(buffer))[i] == buffer[i]
  {
    CombineSplit(buffer[3], buffer[4]);
    CombineSplit(buffer[5], buffer[6]);
    CombineSplit(buffer[7], buffer[8]);
    CombineSplit(buffer[9], buffer[10]);
  }

  /** The reverse round trip for the status bytes: bytes 11..13. */
  lemma EncodeDecodeStatus(buffer: seq<Int8>)
    requires |buffer| >= FrameLength
    ensures forall i | 11 <= i < 14 :: Encode(Decoded(buffer))[i] == buffer[i]
  {
    UnsignedByte(buffer[11]);
    UnsignedByte(buffer[12]);
    UnsignedByte(buffer[13]);
  }

  /** The reverse round trip for beat times 1 to 4: bytes 14..21. */
  lemma EncodeDecodeBeats1To4(buffer: seq<Int8>)
    requires |buffer| >= FrameLength
    ensures forall i | 14 <= i < 22 :: Encode(Decoded(buffer))[i] == buffer[i]
  {
    CombineSplit(buffer[14], buffer[15]);
    CombineSplit(buffer[16], buffer[17]);
    CombineSplit(buffer[18], buffer[19]);
    CombineSplit(buffer[20], buffer[21]);
  }

  /** The reverse round trip for beat times 5 to 8: bytes 22..29. */
  lemma EncodeDecodeBeats5To8(buffer: seq<Int8>)
    requires |buffer| >= FrameLength
    ensures forall i | 22 <= i < 30 :: Encode(Decoded(buffer))[i] == buffer[i]
  {
    CombineSplit(buffer[22], buffer[23]);
    CombineSplit(buffer[24], buffer[25]);
    CombineSplit(buffer[26], buffer[27]);
    CombineSplit(buffer[28], buffer[29]);
  }

  /** The reverse round trip for beat times 9 to 12: bytes 30..37. */
  lemma EncodeDecodeBeats9To12(buffer: seq<Int8>)
    requires |buffer| >= FrameLength
    ensures forall i | 30 <= i < 38 :: Encode(Decoded(buffer))[i] == buffer[i]
  {
    CombineSplit(buffer[30], buffer[31]);
    CombineSplit(buffer[32], buffer[33]);
    CombineSplit(buffer[34], buffer[35]);
    CombineSplit(buffer[36], buffer[37]);
  }

  /** The reverse round trip for beat times 13 to 15: bytes 38..43. */
  lemma EncodeDecodeBeats13To15(buffer: seq<Int8>)
    requires |buffer| >= FrameLength
    ensures forall i | 38 <= i < 44 :: Encode(Decoded(buffer))[i] == buffer[i]
  {
    CombineSplit(buffer[38], buffer[39]);
    CombineSplit(buffer[40], buffer[41]);
    CombineSplit(buffer[42], buffer[43]);
  }

  /** The reverse round trip for the three reserved words: bytes 44..49. */
  lemma EncodeDecodeReserved(buffer: seq<Int8>)
    requires |buffer| >= FrameLength
    ensures forall i | 44 <= i < 50 :: Encode(Decoded(buffer))[i] == buffer[i]
  {
    CombineSplit(buffer[44], buffer[45]);
    CombineSplit(buffer[46], buffer[47]);
    CombineSplit(buffer[48], buffer[49]);
  }

  /** The reverse round trip for distance and speed: bytes 50..53. */
  lemma EncodeDecodeDistanceSpeed(buffer: seq<Int8>)
    requires |buffer| >= FrameLength
    ensures forall i | 50 <= i < 54 :: Encode(Decoded(buffer))[i] == buffer[i]
  {
    CombineSplit(buffer[50], buffer[51]);
    CombineSplit(buffer[52], buffer[53]);
  }

  /** The reverse round trip for the trailer: bytes 54..59. */
  lemma EncodeDecodeTrailer(buffer: seq<Int8>)
    requires |buffer| >= FrameLength
    ensures forall i | 54 <= i < 60 :: Encode(Decoded(buffer))[i] == buffer[i]
  {
    CombineSplit(buffer[56], buffer[57]);
  }

  /** Encoding what a buffer of at least 60 bytes decodes to gives back its first 60 bytes. */
  lemma EncodeDecode(buffer: seq<Int8>)
    requires |buffer| >= FrameLength
    ensures Encode(Decoded(buffer)) == buffer[..FrameLength]
  {
    EncodeDecodeHeader(buffer);
    EncodeDecodeDeviceIds(buffer);
    EncodeDecodeStatus(buffer);
    EncodeDecodeBeats1To4(buffer);
    EncodeDecodeBeats5To8(buffer);
    EncodeDecodeBeats9To12(buffer);
    EncodeDecodeBeats13To15(buffer);
    EncodeDecodeReserved(buffer);
    EncodeDecodeDistanceSpeed(buffer);
    EncodeDecodeTrailer(buffer);
  }

  // ------------------------------------------------------------------
  // Short buffers: the fields that fit, and nothing else.
  // ------------------------------------------------------------------

  function KeepByte(v: Int8, last: nat, n: nat): Int8 { if last < n then v else 0 }
  function KeepInt(v: int, last: nat, n: nat): int { if last < n then v else 0 }

  /**
   * `r` with every field whose last byte lies at index `n` or beyond reset
   * to 0: what remains of `r` when only `n` bytes of its message arrived.
   */
  function Truncated(r: HrmReading, n: nat): HrmReading
  {
    HrmReading(
      KeepByte(r.stx, 0, n), KeepByte(r.msgId, 1, n), KeepByte(r.dlc, 2, n), KeepInt(r.firmwareId, 4, n),
      KeepInt(r.firmwareVersion, 6, n), KeepInt(r.hardwareId, 8, n), KeepInt(r.hardwareVersion, 10, n),
      KeepInt(r.batteryIndicator, 11, n), KeepInt(r.heartRate, 12, n), KeepInt(r.heartBeatNumber, 13, n),
      KeepInt(r.hbTime1, 15, n), KeepInt(r.hbTime2, 17, n), KeepInt(r.hbTime3, 19, n),
      KeepInt(r.hbTime4, 21, n), KeepInt(r.hbTime5, 23, n), KeepInt(r.hbTime6, 25, n),
      KeepInt(r.hbTime7, 27, n), KeepInt(r.hbTime8, 29, n), KeepInt(r.hbTime9, 31, n),
      KeepInt(r.hbTime10, 33, n), KeepInt(r.hbTime11, 35, n), KeepInt(r.hbTime12, 37, n),
      KeepInt(r.hbTime13, 39, n), KeepInt(r.hbTime14, 41, n), KeepInt(r.hbTime15, 43, n),
      KeepInt(r.reserved1, 45, n), KeepInt(r.reserved2, 47, n), KeepInt(r.reserved3, 49, n),
      KeepInt(r.distance, 51, n), KeepInt(r.speed, 53, n), KeepByte(r.strides, 54, n),
      KeepByte(r.reserved4, 55, n), KeepInt(r.reserved5, 57, n), KeepByte(r.crc, 58, n),
      KeepByte(r.etx, 59, n))
  }

  lemma Le16AtPrefix(buffer: seq<Int8>, n: nat, k: nat)
    requires n <= |buffer|
    ensures Le16At(buffer[..n], k) == KeepInt(Le16At(buffer, k), k + 1, n)
  {
  }

  lemma MaskedAtPrefix(buffer: seq<Int8>, n: nat, k: nat)
    requires n <= |buffer|
    ensures MaskedAt(buffer[..n], k) == KeepInt(MaskedAt(buffer, k), k, n)
  {
  }

  lemma DecodePrefixHeader(buffer: seq<Int8>, n: nat)
    requires n <= |buffer|
    ensures Decoded(buffer[..n]).stx == Truncated(Decoded(buffer), n).stx
    ensures Decoded(buffer[..n]).msgId == Truncated(Decoded(buffer), n).msgId
    ensures Decoded(buffer[..n]).dlc == Truncated(Decoded(buffer), n).dlc
  {
  }

  lemma DecodePrefixDeviceIds(buffer: seq<Int8>, n: nat)
    requires n <= |buffer|
    ensures Decoded(buffer[..n]).firmwareId == Truncated(Decoded(buffer), n).firmwareId
    ensures Decoded(buffer[..n]).firmwareVersion == Truncated(Decoded(buffer), n).firmwareVersion
    ensures Decoded(buffer[..n]).hardwareId == Truncated(Decoded(buffer), n).hardwareId
    ensures Decoded(buffer[..n]).hardwareVersion == Truncated(Decoded(buffer), n).hardwareVersion
  {
    Le16AtPrefix(buffer, n, 3);
    Le16AtPrefix(buffer, n, 5);
    Le16AtPrefix(buffer, n, 7);
    Le16AtPrefix(buffer, n, 9);
  }

  lemma DecodePrefixStatus(buffer: seq<Int8>, n: nat)
    requires n <= |buffer|
    ensures Decoded(buffer[..n]).batteryIndicator == Truncated(Decoded(buffer), n).batteryIndicator
    ensures Decoded(buffer[..n]).heartRate == Truncated(Decoded(buffer), n).heartRate
    ensures Decoded(buffer[..n]).heartBeatNumber == Truncated(Decoded(buffer), n).heartBeatNumber
  {
    MaskedAtPrefix(buffer, n, 11);
    MaskedAtPrefix(buffer, n, 12);
    MaskedAtPrefix(buffer, n, 13);
  }

  lemma DecodePrefixBeats1To4(buffer: seq<Int8>, n: nat)
    requires n <= |buffer|
    ensures Decoded(buffer[..n]).hbTime1 == Truncated(Decoded(buffer), n).hbTime1
    ensures Decoded(buffer[..n]).hbTime2 == Truncated(Decoded(buffer), n).hbTime2
    ensures Decoded(buffer[..n]).hbTime3 == Truncated(Decoded(buffer), n).hbTime3
    ensures Decoded(buffer[..n]).hbTime4 == Truncated(Decoded(buffer), n).hbTime4
  {
    Le16AtPrefix(buffer, n, 14);
    Le16AtPrefix(buffer, n, 16);
    Le16AtPrefix(buffer, n, 18);
    Le16AtPrefix(buffer, n, 20);
  }

  lemma DecodePrefixBeats5To8(buffer: seq<Int8>, n: nat)
    requires n <= |buffer|
    ensures Decoded(buffer[..n]).hbTime5 == Truncated(Decoded(buffer), n).hbTime5
    ensures Decoded(buffer[..n]).hbTime6 == Truncated(Decoded(buffer), n).hbTime6
    ensures Decoded(buffer[..n]).hbTime7 == Truncated(Decoded(buffer), n).hbTime7
    ensures Decoded(buffer[..n]).hbTime8 == Truncated(Decoded(buffer), n).hbTime8
  {
    Le16AtPrefix(buffer, n, 22);
    Le16AtPrefix(buffer, n, 24);
    Le16AtPrefix(buffer, n, 26);
    Le16AtPrefix(buffer, n, 28);
  }

  lemma DecodePrefixBeats9To12(buffer: seq<Int8>, n: nat)
    requires n <= |buffer|
    ensures Decoded(buffer[..n]).hbTime9 == Truncated(Decoded(buffer), n).hbTime9
    ensures Decoded(buffer[..n]).hbTime10 == Truncated(Decoded(buffer), n).hbTime10
    ensures Decoded(buffer[..n]).hbTime11 == Truncated(Decoded(buffer), n).hbTime11
    ensures Decoded(buffer[..n]).hbTime12 == Truncated(Decoded(buffer), n).hbTime12
  {
    Le16AtPrefix(buffer, n, 30);
    Le16AtPrefix(buffer, n, 32);
    Le16AtPrefix(buffer, n, 34);
    Le16AtPrefix(buffer, n, 36);
  }

  lemma DecodePrefixBeats13To15(buffer: seq<Int8>, n: nat)
    requires n <= |buffer|
    ensures Decoded(buffer[..n]).hbTime13 == Truncated(Decoded(buffer), n).hbTime13
    ensures Decoded(buffer[..n]).hbTime14 == Truncated(Decoded(buffer), n).hbTime14
    ensures Decoded(buffer[..n]).hbTime15 == Truncated(Decoded(buffer), n).hbTime15
  {
    Le16AtPrefix(buffer, n, 38);
    Le16AtPrefix(buffer, n, 40);
    Le16AtPrefix(buffer, n, 42);
  }

  lemma DecodePrefixReserved(buffer: seq<Int8>, n: nat)
    requires n <= |buffer|
    ensures Decoded(buffer[..n]).reserved1 == Truncated(Decoded(buffer), n).reserved1
    ensures Decoded(buffer[..n]).reserved2 == Truncated(Decoded(buffer), n).reserved2
    ensures Decoded(buffer[..n]).reserved3 == Truncated(Decoded(buffer), n).reserved3
  {
    Le16AtPrefix(buffer, n, 44);
    Le16AtPrefix(buffer, n, 46);
    Le16AtPrefix(buffer, n, 48);
  }

  lemma DecodePrefixDistanceSpeed(buffer: seq<Int8>, n: nat)
    requires n <= |buffer|
    ensures Decoded(buffer[..n]).distance == Truncated(Decoded(buffer), n).distance
    ensures Decoded(buffer[..n]).speed == Truncated(Decoded(buffer), n).speed
  {
    Le16AtPrefix(buffer, n, 50);
    Le16AtPrefix(buffer, n, 52);
  }

  lemma DecodePrefixTrailer(buffer: seq<Int8>, n: nat)
    requires n <= |buffer|
    ensures Decoded(buffer[..n]).strides == Truncated(Decoded(buffer), n).strides
    ensures Decoded(buffer[..n]).reserved4 == Truncated(Decoded(buffer), n).reserved4
    ensures Decoded(buffer[..n]).reserved5 == Truncated(Decoded(buffer), n).reserved5
    ensures Decoded(buffer[..n]).crc == Truncated(Decoded(buffer), n).crc
    ensures Decoded(buffer[..n]).etx == Truncated(Decoded(buffer), n).etx
  {
    Le16AtPrefix(buffer, n, 56);
  }

  /**
   * Decoding the first `n` bytes of a buffer gives the fields the whole
   * buffer decodes to that lie entirely within those bytes, and 0 for the
   * field that straddles the end and for every later one.
   */
  lemma DecodePrefix(buffer: seq<Int8>, n: nat)
    requires n <= |buffer|
    ensures Decoded(buffer[..n]) == Truncated(Decoded(buffer), n)
  {
    DecodePrefixHeader(buffer, n);
    DecodePrefixDeviceIds(buffer, n);
    DecodePrefixStatus(buffer, n);
    DecodePrefixBeats1To4(buffer, n);
    DecodePrefixBeats5To8(buffer, n);
    DecodePrefixBeats9To12(buffer, n);
    DecodePrefixBeats13To15(buffer, n);
    DecodePrefixReserved(buffer, n);
    DecodePrefixDistanceSpeed(buffer, n);
    DecodePrefixTrailer(buffer, n);
  }

  /** Bytes after the first 60 are never decoded. */
  lemma TrailingBytesIgnored(buffer: seq<Int8>, extra: seq<Int8>)
    requires |buffer| >= FrameLength
    ensures Decoded(buffer + extra) == Decoded(buffer)
  {
  }

  /** The spot checks of the little-endian combine: no sign extension for bytes of 0x80 and above. */
  lemma CombineExamples()
    ensures CombineLe16(0x34, 0x12) == 0x1234
    ensures CombineLe16(-1, 0) == 0x00FF
    ensures CombineLe16(0, -128) == 0x8000
    ensures CombineLe16(-1, -1) == 0xFFFF
  {
    CombineLe16Value(0x34, 0x12);
    CombineLe16Value(-1, 0);
    CombineLe16Value(0, -128);
    CombineLe16Value(-1, -1);
  }
}

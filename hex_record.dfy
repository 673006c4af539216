/** Decoding of one Intel HEX record line (Intel Hexadecimal Object File Format
    Specification, Rev. A), as the bootloader reads it: fixed-width hex pairs, a
    two's-complement checksum over every transmitted byte, and the bit packing
    the bootloader applies to payload bytes. */
module HexRecord {
  import opened Ascii

  const START_CODE: char := ':'

  /** Capacity of the bootloader's payload buffer (`uint8_t data[64]`). */
  const DATA_CAPACITY: nat := 64

  /** Shortest record line: start code, count, address, type, checksum. */
  const MIN_LINE: nat := 11

  // Record types
  const DATA_RECORD: nat := 0x00
  const EOF_RECORD: nat := 0x01
  const EXT_SEG_ADDR: nat := 0x02
  const START_SEG_ADDR: nat := 0x03
  const EXT_LINEAR_ADDR: nat := 0x04
  const START_LINEAR_ADDR: nat := 0x05

  /** The nibble a character contributes to `Bootloader_HexToByte`: its digit
      value when it is a hex digit of either case, and 0 for anything else. */
  function Nibble(c: char): (v: nat)
    ensures v < 16
    ensures IsHexDigit(c) ==> v == HexDigitValue(c)
    ensures !IsHexDigit(c) ==> v == 0
  {
    if '0' <= c <= '9' then c as int - '0' as int
    else if 'A' <= c <= 'F' then c as int - 'A' as int + 10
    else if 'a' <= c <= 'f' then c as int - 'a' as int + 10
    else 0
  }

  /** `Bootloader_HexToByte`: two steps of "shift the 8-bit accumulator left by
      four, then or in the next nibble" (the freed low bits are zero, so the or
      adds). Nothing is lost to the 8-bit truncation. */
  function HexToByte(hi: char, lo: char): (b: nat)
    ensures b < 256
    ensures b == 16 * Nibble(hi) + Nibble(lo)
  {
    var v1 := (0 * 16) % 256 + Nibble(hi);
    (v1 * 16) % 256 + Nibble(lo)
  }

  /** The two-character encoding of a byte, in upper or lower case. */
  function HexPair(b: nat, upper: bool): (s: string)
    requires b < 256
    ensures |s| == 2 && IsHexDigit(s[0]) && IsHexDigit(s[1])
  {
    if upper then [UpperHexDigit(b / 16), UpperHexDigit(b % 16)]
    else [LowerHexDigit(b / 16), LowerHexDigit(b % 16)]
  }

  /** `HexToByte` inverts the two-digit encoding of every byte, in either case. */
  lemma HexToByteOfHexPair(b: nat, upper: bool)
    requires b < 256
    ensures HexToByte(HexPair(b, upper)[0], HexPair(b, upper)[1]) == b
  {
  }

  /** `(hi << 8) | lo`: the two address bytes as one 16-bit value (the shift
      and the or act on disjoint bits, so they add). */
  function Address16(hi: nat, lo: nat): (a: nat)
    requires hi < 256 && lo < 256
    ensures a < 0x1_0000 && a / 256 == hi && a % 256 == lo
  {
    hi * 0x100 + lo
  }

  /** `data[i] | data[i+1] << 8 | data[i+2] << 16`: the 24-bit program word
      carried little-endian by the first three bytes of a four-byte group. */
  function InstructionWord(b0: nat, b1: nat, b2: nat): (w: nat)
    requires b0 < 256 && b1 < 256 && b2 < 256
    ensures w < 0x100_0000
    ensures w % 0x100 == b0 && w / 0x100 % 0x100 == b1 && w / 0x1_0000 == b2
  {
    b0 + b1 * 0x100 + b2 * 0x1_0000
  }

  /** Extended Linear Address: `d0 << 24 | d1 << 16`, the payload as the upper
      16 bits of a 32-bit byte address. */
  function LinearBase(d0: nat, d1: nat): (a: nat)
    requires d0 < 256 && d1 < 256
    ensures a < 0x1_0000_0000 && a % 0x1_0000 == 0 && a / 0x1_0000 == Address16(d0, d1)
  {
    d0 * 0x100_0000 + d1 * 0x1_0000
  }

  /** Extended Segment Address: `d0 << 12 | d1 << 4`, the payload as a paragraph
      number (times 16). */
  function SegmentBase(d0: nat, d1: nat): (a: nat)
    requires d0 < 256 && d1 < 256
    ensures a < 0x10_0000 && a % 16 == 0 && a / 16 == Address16(d0, d1)
  {
    d0 * 0x1000 + d1 * 0x10
  }

  function Sum(s: seq<nat>): nat
  {
    if s == [] then 0 else Sum(s[..|s| - 1]) + s[|s| - 1]
  }

  /** `(~c) + 1` truncated to 8 bits, for the 8-bit running sum `c` of `s`. */
  function TwosComplement(s: nat): (c: nat)
    ensures c < 256 && (s + c) % 256 == 0
  {
    (256 - s % 256) % 256
  }

  /** The checksum a record must carry: the two's complement of the 8-bit sum of
      the byte count, both address bytes, the type and every data byte. */
  function RecordChecksum(address: nat, kind: nat, data: seq<nat>): nat
  {
    TwosComplement(|data| + address / 256 + address % 256 + kind + Sum(data))
  }

  datatype HexError = MissingStartCode | TooShort | TooLong | ChecksumMismatch

  datatype Record = Record(address: nat, kind: nat, data: seq<nat>, checksum: nat)
  {
    /** Every field fits its transmitted width, the payload fits the bootloader's
        buffer, and the checksum is the one the fields call for. */
    predicate WellFormed()
    {
      && address < 0x1_0000 && kind < 256 && checksum < 256
      && |data| <= DATA_CAPACITY
      && (forall i :: 0 <= i < |data| ==> data[i] < 256)
      && checksum == RecordChecksum(address, kind, data)
    }
  }

  datatype Result<T> = Success(value: T) | Failure(error: HexError)

  /** The payload bytes of a line whose count field says `count`. */
  function DataField(line: string, count: nat): (data: seq<nat>)
    requires |line| >= MIN_LINE + 2 * count
    ensures |data| == count
    ensures forall k :: 0 <= k < count ==> data[k] == HexToByte(line[9 + 2 * k], line[10 + 2 * k]) < 256
  {
    seq(count, k requires 0 <= k < count => HexToByte(line[9 + 2 * k], line[10 + 2 * k]))
  }

  /** The acceptance rules of `Bootloader_ParseHexLine` up to (and including) the
      checksum test. A line whose count field asks for more payload than the line
      holds, or for more than the 64-byte buffer, is rejected here rather than
      read out of bounds. */
  function Decode(line: string): (r: Result<Record>)
    ensures r.Success? ==> r.value.WellFormed()
    ensures r.Success? ==> |line| >= MIN_LINE + 2 * |r.value.data| && line[0] == START_CODE
  {
    if |line| == 0 || line[0] != START_CODE then Failure(MissingStartCode)
    else if |line| < MIN_LINE then Failure(TooShort)
    else
      var count := HexToByte(line[1], line[2]);
      if count > DATA_CAPACITY then Failure(TooLong)
      else if |line| < MIN_LINE + 2 * count then Failure(TooShort)
      else
        var address := Address16(HexToByte(line[3], line[4]), HexToByte(line[5], line[6]));
        var kind := HexToByte(line[7], line[8]);
        var data := DataField(line, count);
        var expected := HexToByte(line[9 + 2 * count], line[10 + 2 * count]);
        if RecordChecksum(address, kind, data) != expected then Failure(ChecksumMismatch)
        else Success(Record(address, kind, data, expected))
  }

  /** The hex digits of a payload, two per byte. */
  function DataDigits(data: seq<nat>): (s: string)
    requires forall i :: 0 <= i < |data| ==> data[i] < 256
    ensures |s| == 2 * |data|
    ensures forall k :: 0 <= k < |data| ==> s[2 * k] == HexPair(data[k], true)[0] && s[2 * k + 1] == HexPair(data[k], true)[1]
  {
    seq(2 * |data|, i requires 0 <= i < 2 * |data| => HexPair(data[i / 2], true)[i % 2])
  }

  /** The first nine characters of a record line: start code, count, address
      (high byte first) and type. */
  function Header(count: nat, address: nat, kind: nat): (h: string)
    requires count < 256 && address < 0x1_0000 && kind < 256
    ensures |h| == 9
  {
    [START_CODE] + HexPair(count, true) + HexPair(address / 256, true) + HexPair(address % 256, true) + HexPair(kind, true)
  }

  /** The line a HEX-file writer emits for a record (upper-case digits). */
  function Encode(r: Record): (line: string)
    requires r.address < 0x1_0000 && r.kind < 256 && r.checksum < 256 && |r.data| < 256
    requires forall i :: 0 <= i < |r.data| ==> r.data[i] < 256
    ensures |line| == MIN_LINE + 2 * |r.data|
  {
    Header(|r.data|, r.address, r.kind) + DataDigits(r.data) + HexPair(r.checksum, true)
  }

  lemma HeaderFields(count: nat, address: nat, kind: nat)
    requires count < 256 && address < 0x1_0000 && kind < 256
    ensures var h := Header(count, address, kind);
      && h[0] == START_CODE && HexToByte(h[1], h[2]) == count
      && Address16(HexToByte(h[3], h[4]), HexToByte(h[5], h[6])) == address
      && HexToByte(h[7], h[8]) == kind
  {
    HexToByteOfHexPair(count, true);
    HexToByteOfHexPair(address / 256, true);
    HexToByteOfHexPair(address % 256, true);
    HexToByteOfHexPair(kind, true);
  }

  lemma EncodeHeaderFields(r: Record)
    requires r.address < 0x1_0000 && r.kind < 256 && r.checksum < 256 && |r.data| < 256
    requires forall i :: 0 <= i < |r.data| ==> r.data[i] < 256
    ensures var line := Encode(r);
      && line[0] == START_CODE && HexToByte(line[1], line[2]) == |r.data|
      && Address16(HexToByte(line[3], line[4]), HexToByte(line[5], line[6])) == r.address
      && HexToByte(line[7], line[8]) == r.kind
  {
    var line := Encode(r);
    var h := Header(|r.data|, r.address, r.kind);
    HeaderFields(|r.data|, r.address, r.kind);
    assert line[..9] == h;
    assert forall i :: 0 <= i < 9 ==> line[i] == h[i];
  }

  lemma EncodeDataField(r: Record)
    requires r.address < 0x1_0000 && r.kind < 256 && r.checksum < 256 && |r.data| < 256
    requires forall i :: 0 <= i < |r.data| ==> r.data[i] < 256
    ensures DataField(Encode(r), |r.data|) == r.data
  {
    var line, n := Encode(r), |r.data|;
    var d := DataDigits(r.data);
    assert line[9..9 + 2 * n] == d;
    forall k | 0 <= k < n
      ensures HexToByte(line[9 + 2 * k], line[10 + 2 * k]) == r.data[k]
    {
      HexToByteOfHexPair(r.data[k], true);
      assert line[9 + 2 * k] == d[2 * k] && line[10 + 2 * k] == d[2 * k + 1];
    }
  }

  lemma EncodeChecksumField(r: Record)
    requires r.address < 0x1_0000 && r.kind < 256 && r.checksum < 256 && |r.data| < 256
    requires forall i :: 0 <= i < |r.data| ==> r.data[i] < 256
    ensures var line, n := Encode(r), |r.data|;
      HexToByte(line[9 + 2 * n], line[10 + 2 * n]) == r.checksum
  {
    var line, n := Encode(r), |r.data|;
    var c := HexPair(r.checksum, true);
    assert line[9 + 2 * n..] == c;
    HexToByteOfHexPair(r.checksum, true);
  }

  lemma EncodeFields(r: Record)
    requires r.address < 0x1_0000 && r.kind < 256 && r.checksum < 256 && |r.data| < 256
    requires forall i :: 0 <= i < |r.data| ==> r.data[i] < 256
    ensures var line, n := Encode(r), |r.data|;
      && line[0] == START_CODE && HexToByte(line[1], line[2]) == n
      && Address16(HexToByte(line[3], line[4]), HexToByte(line[5], line[6])) == r.address
      && HexToByte(line[7], line[8]) == r.kind
      && DataField(line, n) == r.data
      && HexToByte(line[9 + 2 * n], line[10 + 2 * n]) == r.checksum
  {
    EncodeHeaderFields(r);
    EncodeDataField(r);
    EncodeChecksumField(r);
  }

  /** Past the start code and the length checks, `Decode` is decided by the
      checksum comparison alone. */
  lemma DecodeFields(line: string)
    requires |line| >= MIN_LINE && line[0] == START_CODE
    requires HexToByte(line[1], line[2]) <= DATA_CAPACITY && |line| >= MIN_LINE + 2 * HexToByte(line[1], line[2])
    ensures var count := HexToByte(line[1], line[2]);
      var address := Address16(HexToByte(line[3], line[4]), HexToByte(line[5], line[6]));
      var kind := HexToByte(line[7], line[8]);
      var expected := HexToByte(line[9 + 2 * count], line[10 + 2 * count]);
      Decode(line) == if RecordChecksum(address, kind, DataField(line, count)) == expected
        then Success(Record(address, kind, DataField(line, count), expected))
        else Failure(ChecksumMismatch)
  {
  }

  /** Every well-formed record survives encoding and decoding unchanged. */
  lemma DecodeEncode(r: Record)
    requires r.WellFormed()
    ensures Decode(Encode(r)) == Success(r)
  {
    EncodeFields(r);
    DecodeFields(Encode(r));
  }

  /** A record line with well-formed fields is accepted exactly when its
      checksum field carries the checksum of the other fields; otherwise the
      rejection is a checksum mismatch. */
  lemma DecodeChecksOnlyChecksum(r: Record)
    requires r.address < 0x1_0000 && r.kind < 256 && r.checksum < 256 && |r.data| <= DATA_CAPACITY
    requires forall i :: 0 <= i < |r.data| ==> r.data[i] < 256
    ensures Decode(Encode(r)).Success? <==> r.checksum == RecordChecksum(r.address, r.kind, r.data)
    ensures Decode(Encode(r)).Failure? ==> Decode(Encode(r)).error == ChecksumMismatch
  {
    EncodeFields(r);
    DecodeFields(Encode(r));
  }

  lemma {:induction false} SumUpdate(s: seq<nat>, k: nat, v: nat)
    requires k < |s|
    ensures Sum(s[k := v]) + s[k] == Sum(s) + v
  {
    var t := s[k := v];
    if k < |s| - 1 {
      assert t[..|t| - 1] == s[..|s| - 1][k := v];
      SumUpdate(s[..|s| - 1], k, v);
    } else {
      assert t[..|t| - 1] == s[..|s| - 1];
    }
  }

  /** Two numbers less than 256 apart, and not equal, differ modulo 256. */
  lemma DistinctModulo(x: int, y: int)
    requires 0 < x - y < 256 || 0 < y - x < 256
    ensures x % 256 != y % 256
  {
    var qx, qy, rx, ry := x / 256, y / 256, x % 256, y % 256;
    assert x == 256 * qx + rx && y == 256 * qy + ry;
  }

  /** Sums that differ modulo 256 call for different checksums. */
  lemma TwosComplementDistinct(x: nat, y: nat)
    requires x % 256 != y % 256
    ensures TwosComplement(x) != TwosComplement(y)
  {
    var a, b := x % 256, y % 256;
    assert TwosComplement(x) == if a == 0 then 0 else 256 - a;
    assert TwosComplement(y) == if b == 0 then 0 else 256 - b;
  }

  /** Changing any one payload byte to another byte value changes the checksum
      the record calls for, so the old checksum field no longer matches. */
  lemma ChecksumDetectsChangedDataByte(address: nat, kind: nat, data: seq<nat>, k: nat, v: nat)
    requires k < |data| && data[k] < 256 && v < 256 && v != data[k]
    ensures RecordChecksum(address, kind, data[k := v]) != RecordChecksum(address, kind, data)
  {
    SumUpdate(data, k, v);
    var h := |data| + address / 256 + address % 256 + kind;
    DistinctModulo(h + Sum(data), h + Sum(data[k := v]));
    TwosComplementDistinct(h + Sum(data[k := v]), h + Sum(data));
  }

  /** Changing the type byte changes the checksum the record calls for. */
  lemma ChecksumDetectsChangedKind(address: nat, kind: nat, data: seq<nat>, v: nat)
    requires kind < 256 && v < 256 && v != kind
    ensures RecordChecksum(address, v, data) != RecordChecksum(address, kind, data)
  {
    var h := |data| + address / 256 + address % 256 + Sum(data);
    DistinctModulo(h + kind, h + v);
    TwosComplementDistinct(h + v, h + kind);
  }
}

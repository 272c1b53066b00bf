/** Fixed-width integers and the rows that record block and cursor positions. */
module BlockRows {
  import opened Bytes
  import opened Wrappers

  const UINT32: nat := 0x1_0000_0000
  type uint32 = x: int | 0 <= x < 0x1_0000_0000

  /** Little-endian, the store's preferred order. */
  function PutUint32(x: uint32): (b: seq<byte>)
    ensures |b| == 4 && Uint32(b) == x
  {
    FourBytes(x);
    [x % 256, x / 0x100 % 256, x / 0x10000 % 256, x / 0x1000000]
  }

  function Uint32(b: seq<byte>): (x: uint32)
    requires |b| == 4
  {
    Join(b[3], b[2], b[1], b[0])
  }

  /** Big-endian, used for the checksum of a block record. */
  function PutUint32BigEndian(x: uint32): (b: seq<byte>)
    ensures |b| == 4 && Uint32BigEndian(b) == x
  {
    FourBytes(x);
    [x / 0x1000000, x / 0x10000 % 256, x / 0x100 % 256, x % 256]
  }

  function Uint32BigEndian(b: seq<byte>): (x: uint32)
    requires |b| == 4
  {
    Join(b[0], b[1], b[2], b[3])
  }

  lemma FourBytes(x: uint32)
    ensures Join(x / 0x1000000, x / 0x10000 % 256, x / 0x100 % 256, x % 256) == x
  {
    var n: nat := x;
    DivTwice(n, 0x100, 0x100);
    DivTwice(n, 0x10000, 0x100);
    var p := n / 0x100;
    var q := n / 0x10000;
    assert n == 0x100 * p + n % 0x100 && p == 0x100 * q + p % 0x100 && q == 0x100 * (n / 0x1000000) + q % 0x100;
  }

  function Join(a: byte, b: byte, c: byte, d: byte): (x: uint32) {
    var high: int, mid: int, low: int := a, b, c;
    ((high * 256 + mid) * 256 + low) * 256 + d
  }

  /** A checksum is any function of bytes to 32-bit words. */
  type Checksum = seq<byte> -> uint32

  /** Where a block record starts and how long it is, framing included. */
  datatype Location = Location(blockFileNum: uint32, fileOffset: uint32, blockLen: uint32)

  function SerializeBlockLoc(loc: Location): (b: seq<byte>)
    ensures |b| == 12
  {
    PutUint32(loc.blockFileNum) + PutUint32(loc.fileOffset) + PutUint32(loc.blockLen)
  }

  function DeserializeBlockLoc(b: seq<byte>): (loc: Location)
    requires |b| >= 12
  {
    Location(Uint32(b[0..4]), Uint32(b[4..8]), Uint32(b[8..12]))
  }

  lemma BlockLocRoundTrip(loc: Location)
    ensures DeserializeBlockLoc(SerializeBlockLoc(loc)) == loc
  {
    hide PutUint32, Uint32;
    var b := SerializeBlockLoc(loc);
    assert b[0..4] == PutUint32(loc.blockFileNum) && b[4..8] == PutUint32(loc.fileOffset)
           && b[8..12] == PutUint32(loc.blockLen);
  }

  /** The write cursor. */
  datatype Position = Position(file: uint32, off: uint32)

  function SerializeWriteRow(p: Position, crc: Checksum): (b: seq<byte>)
    ensures |b| == 12
  {
    var row := PutUint32(p.file) + PutUint32(p.off);
    row + PutUint32(crc(row))
  }

  /** None stands for the checksum error. */
  function DeserializeWriteRow(row: seq<byte>, crc: Checksum): (p: Option<Position>)
    requires |row| >= 12
  {
    if crc(row[..8]) != Uint32(row[8..12]) then None
    else Some(Position(Uint32(row[0..4]), Uint32(row[4..8])))
  }

  lemma WriteRowRoundTrip(p: Position, crc: Checksum)
    ensures DeserializeWriteRow(SerializeWriteRow(p, crc), crc) == Some(p)
  {
    hide PutUint32, Uint32;
    var row := PutUint32(p.file) + PutUint32(p.off);
    var b := SerializeWriteRow(p, crc);
    assert b[..8] == row && b[8..12] == PutUint32(crc(row));
    assert b[0..4] == PutUint32(p.file) && b[4..8] == PutUint32(p.off);
  }

  /** An accepted row is the serialisation of the position read from it. */
  lemma WriteRowUnique(row: seq<byte>, crc: Checksum)
    requires |row| == 12 && DeserializeWriteRow(row, crc).Some?
    ensures row == SerializeWriteRow(DeserializeWriteRow(row, crc).value, crc)
  {
    PutOfUint32(row[0..4]);
    PutOfUint32(row[4..8]);
    PutOfUint32(row[8..12]);
    hide PutUint32, Uint32;
    assert row[..8] == row[0..4] + row[4..8];
    assert row == row[..8] + row[8..12];
  }

  lemma PutOfUint32(b: seq<byte>)
    requires |b| == 4
    ensures PutUint32(Uint32(b)) == b
  {
    Digits(b[3], b[2], b[1], b[0]);
  }

  lemma Digits(a: byte, b: byte, c: byte, d: byte)
    ensures var x := Join(a, b, c, d);
            x % 256 == d && x / 0x100 % 256 == c && x / 0x10000 % 256 == b && x / 0x1000000 == a
  {
    var y: int := c + 256 * (b + 256 * (a as int));
    var x: int := Join(a, b, c, d);
    assert x == d + 256 * y;
    assert x / 0x100 == y;
    assert y / 0x100 == b + 256 * (a as int);
    assert x / 0x10000 == y / 0x100;
    assert x / 0x1000000 == y / 0x10000;
  }
}

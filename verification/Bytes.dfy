/** Machine integers and their big-endian bytes. */
module Bytes {

  newtype byte = x: int | 0 <= x < 256
  type uint32 = x: int | 0 <= x < 0x1_0000_0000
  type uint64 = x: int | 0 <= x < 0x1_0000_0000_0000_0000

  /** htonl. */
  function Put32(u: uint32): (b: seq<byte>)
    ensures |b| == 4
  {
    [(u / 0x100_0000) as byte, (u / 0x1_0000 % 0x100) as byte, (u / 0x100 % 0x100) as byte, (u % 0x100) as byte]
  }

  /** ntohl. */
  function Get32(b: seq<byte>): uint32
    requires |b| >= 4
  {
    b[0] as int * 0x100_0000 + b[1] as int * 0x1_0000 + b[2] as int * 0x100 + b[3] as int
  }

  function Put64(u: uint64): (b: seq<byte>)
    ensures |b| == 8
  {
    Put32(High(u)) + Put32(Low(u))
  }

  function High(u: uint64): uint32 {
    u / 0x1_0000_0000
  }

  function Low(u: uint64): uint32 {
    u % 0x1_0000_0000
  }

  function Get64(b: seq<byte>): uint64
    requires |b| >= 8
  {
    Words(Get32(b), Get32(b[4..]))
  }

  function Words(hi: uint32, lo: uint32): uint64 {
    hi * 0x1_0000_0000 + lo
  }

  /** The four digits of a number in base 256. */
  lemma Digits(u: uint32)
    ensures u == u / 0x100_0000 * 0x100_0000 + u / 0x1_0000 % 0x100 * 0x1_0000 + u / 0x100 % 0x100 * 0x100 + u % 0x100
  {
    var a := u / 0x100;
    var b := a / 0x100;
    assert b == u / 0x1_0000 && b / 0x100 == u / 0x100_0000;
    assert a == b * 0x100 + a % 0x100 && b == b / 0x100 * 0x100 + b % 0x100;
  }

  lemma GetPut32(u: uint32, tail: seq<byte>)
    ensures Get32(Put32(u) + tail) == u
  {
    Digits(u);
    var b := Put32(u) + tail;
    assert b[0] == Put32(u)[0] && b[1] == Put32(u)[1] && b[2] == Put32(u)[2] && b[3] == Put32(u)[3];
  }

  lemma GetPut64(u: uint64, tail: seq<byte>)
    ensures Get64(Put64(u) + tail) == u
  {
    GetPut32(High(u), Put32(Low(u)) + tail);
    GetPut32(Low(u), tail);
    assert Put64(u) + tail == Put32(High(u)) + (Put32(Low(u)) + tail);
    assert (Put64(u) + tail)[4..] == Put32(Low(u)) + tail;
  }

  /** (n + 3) & ~3. */
  function Pad4(n: nat): (p: nat)
    ensures p % 4 == 0 && n <= p < n + 4
  {
    (n + 3) / 4 * 4
  }

  function Zeros(n: nat): (z: seq<byte>)
    ensures |z| == n
  {
    seq(n, _ => 0)
  }

  function Min(a: nat, b: nat): nat {
    if a < b then a else b
  }
}

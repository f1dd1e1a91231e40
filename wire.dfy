/**
 * Byte-level vocabulary of the A2S_INFO wire format: bytes, the fixed-width
 * unsigned integers the reply carries, the error values the decoder can
 * return, little-endian integer layout and Go's conversion of one byte to a
 * string.
 */
module Wire {

  /** One octet of a datagram (Go's `byte`). */
  newtype Byte = x: int | 0 <= x < 0x100

  /** Go's `uint16`, `uint32` and `uint64`. */
  newtype u16 = x: int | 0 <= x < 0x1_0000
  newtype u32 = x: int | 0 <= x < 0x1_0000_0000
  newtype u64 = x: int | 0 <= x < 0x1_0000_0000_0000_0000

  /** `io.EOF` from the cursor, and `ErrUnexpectedResponse` from the decoder. */
  datatype Error = EOF | UnexpectedResponse

  /** A value or the error that replaced it (Go's `(T, error)` pair). */
  datatype Result<+T> = Ok(value: T) | Err(error: Error) {
    predicate IsFailure() { Err? }

    function PropagateFailure<U>(): Result<U>
      requires Err?
    {
      Err(error)
    }

    function Extract(): T
      requires Ok?
    {
      value
    }
  }

  /** A value read from a byte sequence, with the offset just past it. */
  datatype Read<+T> = Read(value: T, next: nat)

  /** Forgets the offset of a successful read. */
  function Project<T>(r: Result<Read<T>>): Result<T>
  {
    match r
    case Ok(rd) => Ok(rd.value)
    case Err(e) => Err(e)
  }

  /** No byte of `s` is a NUL terminator. */
  predicate NulFree(s: seq<Byte>)
  {
    forall i :: 0 <= i < |s| ==> s[i] != 0
  }

  /** 256 to the power `w`: one more than the largest `w`-byte unsigned value. */
  function Pow256(w: nat): (r: nat)
    ensures r > 0
  {
    if w == 0 then 1 else 256 * Pow256(w - 1)
  }

  /** The unsigned integer whose little-endian layout is `s`: the sum of s[i] * 256^i. */
  function LittleEndian(s: seq<Byte>): (v: nat)
    ensures v < Pow256(|s|)
  {
    if s == [] then 0 else s[0] as nat + 256 * LittleEndian(s[1..])
  }

  /** The `w` least significant bytes of `v`, least significant first. */
  function LeBytes(v: nat, w: nat): (r: seq<Byte>)
    ensures |r| == w
  {
    if w == 0 then [] else [(v % 256) as Byte] + LeBytes(v / 256, w - 1)
  }

  /** Every value that fits in `w` bytes is recovered from its layout. */
  lemma {:induction false} LeBytesDecodes(v: nat, w: nat)
    requires v < Pow256(w)
    ensures LittleEndian(LeBytes(v, w)) == v
  {
    if w > 0 {
      var q, r := v / 256, v % 256;
      assert v == 256 * q + r;
      assert q < Pow256(w - 1);
      LeBytesDecodes(q, w - 1);
      var e := LeBytes(v, w);
      assert e[0] as nat == r;
      assert e[1..] == LeBytes(q, w - 1);
    }
  }

  /** Every byte sequence is the layout of the value it denotes. */
  lemma {:induction false} LittleEndianEncodes(s: seq<Byte>)
    ensures LeBytes(LittleEndian(s), |s|) == s
  {
    if s != [] {
      var rest := LittleEndian(s[1..]);
      LittleEndianEncodes(s[1..]);
      var v := LittleEndian(s);
      assert v == s[0] as nat + 256 * rest;
      DivModByte(s[0] as nat, rest);
    }
  }

  lemma DivModByte(lo: nat, hi: nat)
    requires lo < 256
    ensures (lo + 256 * hi) % 256 == lo && (lo + 256 * hi) / 256 == hi
  {
  }

  /** Two sequences of one length with the same value are the same sequence. */
  lemma LittleEndianInjective(s: seq<Byte>, t: seq<Byte>)
    requires |s| == |t| && LittleEndian(s) == LittleEndian(t)
    ensures s == t
  {
    LittleEndianEncodes(s);
    LittleEndianEncodes(t);
  }

  /**
   * Go's `string(b)` for a byte `b`: the UTF-8 encoding of code point `b`,
   * one byte below 0x80 and two bytes from 0x80 up: 0xC0 | (b >> 6), which
   * is 0xC2 or 0xC3, then the continuation byte 0x80 | (b & 0x3F). The bit
   * operations are written as the sums they equal here.
   */
  function CharString(b: Byte): (r: seq<Byte>)
    ensures IsCharString(r) && CharByte(r) == b
  {
    if b < 0x80 then [b] else [0xC0 + b / 64, 0x80 + b % 64]
  }

  /** `r` is what Go's `string(b)` yields for some byte `b`. */
  predicate IsCharString(r: seq<Byte>)
  {
    || (|r| == 1 && r[0] < 0x80)
    || (|r| == 2 && 0xC2 <= r[0] <= 0xC3 && 0x80 <= r[1] < 0xC0)
  }

  /** The code point a one-character string encodes: (r[0] << 6) | (r[1] & 0x3F) for two bytes. */
  function CharByte(r: seq<Byte>): Byte
  {
    if |r| == 1 then r[0]
    else if |r| == 2 then (r[0] % 4) * 64 + r[1] % 64
    else 0
  }

  /** Every one-character string is the conversion of the byte it encodes. */
  lemma CharStringOnto(r: seq<Byte>)
    requires IsCharString(r)
    ensures CharString(CharByte(r)) == r
  {
    if |r| == 2 {
      assert CharByte(r) >= 0x80;
    }
  }
}

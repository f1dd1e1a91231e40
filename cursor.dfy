/**
 * The byte cursor of hldsinfo: a received datagram and a read offset.
 *
 * The functions `ByteAt`, `CharAt`, `UIntAt` and `StringAt` say what one read
 * starting at a given offset yields: the value and the offset after it, or
 * `EOF`. The class `Buffer` is the cursor itself; each of its methods performs
 * one read in place and is proved to agree with the function of the same read.
 */
module Cursor {
  import opened Wire

  /** `readByte`: the byte at `off`. */
  function ByteAt(s: seq<Byte>, off: nat): Result<Read<Byte>>
  {
    if off < |s| then Ok(Read(s[off], off + 1)) else Err(EOF)
  }

  /** `readChar`: Go's one-character string of the byte at `off`. */
  function CharAt(s: seq<Byte>, off: nat): Result<Read<seq<Byte>>>
  {
    if off < |s| then Ok(Read(CharString(s[off]), off + 1)) else Err(EOF)
  }

  /** `readUInt16/32/64` with `w` = 2, 4, 8: the little-endian integer in the next `w` bytes. */
  function UIntAt(s: seq<Byte>, off: nat, w: nat): (r: Result<Read<nat>>)
    ensures r.Ok? <==> off + w <= |s|
    ensures r.Ok? ==> r.value.next == off + w && r.value.value < Pow256(w)
    ensures r.Err? ==> r.error == EOF
  {
    if off + w <= |s| then Ok(Read(LittleEndian(s[off..off + w]), off + w)) else Err(EOF)
  }

  /** `readUInt16`, `readUInt32` and `readUInt64` as Go types them. */
  function U16At(s: seq<Byte>, off: nat): Result<Read<u16>>
  {
    var v :- UIntAt(s, off, 2);
    Ok(Read(v.value as u16, v.next))
  }

  function U32At(s: seq<Byte>, off: nat): Result<Read<u32>>
  {
    var v :- UIntAt(s, off, 4);
    Ok(Read(v.value as u32, v.next))
  }

  function U64At(s: seq<Byte>, off: nat): Result<Read<u64>>
  {
    var v :- UIntAt(s, off, 8);
    Ok(Read(v.value as u64, v.next))
  }

  /** The value read is the one whose little-endian layout is the bytes consumed. */
  lemma UIntAtLayout(s: seq<Byte>, off: nat, w: nat)
    requires UIntAt(s, off, w).Ok?
    ensures LeBytes(UIntAt(s, off, w).value.value, w) == s[off..off + w]
  {
    LittleEndianEncodes(s[off..off + w]);
  }

  /** The index of the first NUL at or after `off`, or `off` itself once past the end. */
  function NulIndex(s: seq<Byte>, off: nat): (i: nat)
    ensures off <= i && (i < |s| ==> s[i] == 0)
    ensures i >= |s| ==> i == off || i == |s|
    decreases |s| - off
  {
    if off >= |s| || s[off] == 0 then off else NulIndex(s, off + 1)
  }

  /** No NUL lies between `off` and the index `NulIndex` finds. */
  lemma {:induction false} NulIndexFirst(s: seq<Byte>, off: nat)
    ensures forall j :: off <= j < NulIndex(s, off) ==> j < |s| && s[j] != 0
    decreases |s| - off
  {
    if off < |s| && s[off] != 0 {
      NulIndexFirst(s, off + 1);
      assert NulIndex(s, off) == NulIndex(s, off + 1);
    } else {
      assert NulIndex(s, off) == off;
    }
  }

  /**
   * `readString`: the bytes from `off` up to the first NUL, which is consumed
   * but not returned; `EOF` if no NUL follows `off`.
   */
  function StringAt(s: seq<Byte>, off: nat): (r: Result<Read<seq<Byte>>>)
    ensures r.Ok? ==> off < r.value.next <= |s|
    ensures r.Err? ==> r.error == EOF
  {
    var i := NulIndex(s, off);
    if i < |s| then Ok(Read(s[off..i], i + 1)) else Err(EOF)
  }

  /**
   * A string read succeeds exactly when a NUL occurs at or after `off`; it
   * then returns the bytes before the first such NUL and stops just past it.
   */
  lemma StringAtSpec(s: seq<Byte>, off: nat)
    ensures StringAt(s, off).Ok? <==> exists i :: off <= i < |s| && s[i] == 0
    ensures StringAt(s, off).Ok? ==>
      var rd := StringAt(s, off).value;
      && s[rd.next - 1] == 0
      && rd.value == s[off..rd.next - 1]
      && NulFree(rd.value)
  {
    NulIndexFirst(s, off);
    var i := NulIndex(s, off);
    if i < |s| {
      assert forall j :: 0 <= j < i - off ==> s[off..i][j] == s[off + j];
    }
  }

  /** `seg` occurs in `s` at offset `off`. */
  ghost predicate Window(s: seq<Byte>, off: nat, seg: seq<Byte>)
  {
    off + |seg| <= |s| && s[off..off + |seg|] == seg
  }

  lemma WindowSplit(s: seq<Byte>, off: nat, a: seq<Byte>, b: seq<Byte>)
    requires Window(s, off, a + b)
    ensures Window(s, off, a) && Window(s, off + |a|, b)
  {
    assert s[off..off + |a|] == (a + b)[..|a|];
    assert s[off + |a|..off + |a| + |b|] == (a + b)[|a|..];
  }

  lemma WindowJoin(s: seq<Byte>, off: nat, a: seq<Byte>, b: seq<Byte>)
    requires Window(s, off, a) && Window(s, off + |a|, b)
    ensures Window(s, off, a + b)
  {
    assert s[off..off + |a| + |b|] == s[off..off + |a|] + s[off + |a|..off + |a| + |b|];
  }

  /** A string read whose terminator is cut off fails with `EOF`. */
  lemma StringTruncated(s: seq<Byte>, off: nat, j: nat)
    requires StringAt(s, off).Ok? && j < StringAt(s, off).value.next
    ensures StringAt(s[..j], off) == Err(EOF)
  {
    StringAtSpec(s, off);
    StringAtSpec(s[..j], off);
    var rd := StringAt(s, off).value;
    forall i | off <= i < j ensures s[..j][i] != 0 {
      assert rd.value[i - off] == s[i];
    }
  }

  /** A NUL-free string followed by its terminator is read back exactly. */
  lemma StringFromWindow(s: seq<Byte>, off: nat, str: seq<Byte>)
    requires NulFree(str) && Window(s, off, str + [0])
    ensures StringAt(s, off) == Ok(Read(str, off + |str| + 1))
  {
    var k := off + |str|;
    assert s[k] == (str + [0])[|str|];
    forall i | off <= i < k ensures s[i] != 0 {
      assert str[i - off] == s[i];
    }
    NulIndexFirst(s, off);
    assert NulIndex(s, off) == k;
    assert s[off..k] == (str + [0])[..|str|];
  }

  /** A successful string read consumed exactly the string and its terminator. */
  lemma StringToWindow(s: seq<Byte>, off: nat)
    requires StringAt(s, off).Ok?
    ensures var rd := StringAt(s, off).value;
      && NulFree(rd.value)
      && rd.next == off + |rd.value| + 1
      && Window(s, off, rd.value + [0])
  {
    StringAtSpec(s, off);
    var rd := StringAt(s, off).value;
    assert s[off..rd.next] == s[off..rd.next - 1] + [s[rd.next - 1]];
  }

  /** A one-byte window is what a byte or character read sees. */
  lemma ByteWindow(s: seq<Byte>, off: nat, b: Byte)
    requires off < |s|
    ensures Window(s, off, [b]) <==> s[off] == b
  {
    if s[off] == b {
      assert s[off..off + 1] == [b];
    }
  }

  /** A value that fits in `w` bytes is read back from its little-endian layout. */
  lemma UIntFromWindow(s: seq<Byte>, off: nat, v: nat, w: nat)
    requires v < Pow256(w) && Window(s, off, LeBytes(v, w))
    ensures UIntAt(s, off, w) == Ok(Read(v, off + w))
  {
    LeBytesDecodes(v, w);
  }

  /**
   * The cursor of hldsinfo/hldsinfo.go: the received bytes `data[..n]` (Go's
   * slice `buf.data[:n]`) and the offset of the next read.
   */
  class Buffer {
    const data: array<Byte>
    const n: nat
    var offset: nat
    /** The bytes the cursor reads from. */
    ghost const Contents: seq<Byte>

    ghost predicate Valid()
      reads this, data
    {
      n <= data.Length && offset <= n && Contents == data[..n]
    }

    constructor (data: array<Byte>, n: nat)
      requires n <= data.Length
      ensures Valid() && this.data == data && this.n == n && offset == 0 && Contents == data[..n]
    {
      this.data := data;
      this.n := n;
      Contents := data[..n];
      offset := 0;
    }

    method ReadByte() returns (r: Result<Byte>)
      requires Valid()
      modifies this
      ensures Valid()
      ensures ByteAt(Contents, old(offset)) == if r.Ok? then Ok(Read(r.value, offset)) else Err(r.error)
      ensures r.Err? ==> offset == old(offset)
    {
      if offset >= n {
        return Err(EOF);
      }
      r := Ok(data[offset]);
      offset := offset + 1;
    }

    method ReadChar() returns (r: Result<seq<Byte>>)
      requires Valid()
      modifies this
      ensures Valid()
      ensures CharAt(Contents, old(offset)) == if r.Ok? then Ok(Read(r.value, offset)) else Err(r.error)
      ensures r.Err? ==> offset == old(offset)
    {
      if offset >= n {
        return Err(EOF);
      }
      r := Ok(CharString(data[offset]));
      offset := offset + 1;
    }

    /** The common loop of `readUInt16/32/64`: read `width` bytes one by one, then combine them. */
    method ReadLittleEndian(width: nat) returns (r: Result<nat>)
      requires Valid()
      modifies this
      ensures Valid()
      ensures UIntAt(Contents, old(offset), width) == if r.Ok? then Ok(Read(r.value, offset)) else Err(r.error)
      ensures r.Err? ==> offset == n
    {
      var bytes := new Byte[width];
      var i := 0;
      while i < width
        invariant Valid() && i <= width
        invariant offset == old(offset) + i
        invariant bytes[..i] == Contents[old(offset)..offset]
      {
        var b := ReadByte();
        if b.Err? {
          return Err(b.error);
        }
        bytes[i] := b.value;
        i := i + 1;
      }
      assert bytes[..] == bytes[..i];
      return Ok(LittleEndian(bytes[..]));
    }

    method ReadUInt16() returns (r: Result<u16>)
      requires Valid()
      modifies this
      ensures Valid()
      ensures U16At(Contents, old(offset)) == if r.Ok? then Ok(Read(r.value, offset)) else Err(r.error)
      ensures r.Err? ==> offset == n
    {
      var v :- ReadLittleEndian(2);
      return Ok(v as u16);
    }

    method ReadUInt32() returns (r: Result<u32>)
      requires Valid()
      modifies this
      ensures Valid()
      ensures U32At(Contents, old(offset)) == if r.Ok? then Ok(Read(r.value, offset)) else Err(r.error)
      ensures r.Err? ==> offset == n
    {
      var v :- ReadLittleEndian(4);
      return Ok(v as u32);
    }

    method ReadUInt64() returns (r: Result<u64>)
      requires Valid()
      modifies this
      ensures Valid()
      ensures U64At(Contents, old(offset)) == if r.Ok? then Ok(Read(r.value, offset)) else Err(r.error)
      ensures r.Err? ==> offset == n
    {
      var v :- ReadLittleEndian(8);
      return Ok(v as u64);
    }

    method ReadString() returns (r: Result<seq<Byte>>)
      requires Valid()
      modifies this
      ensures Valid()
      ensures StringAt(Contents, old(offset)) == if r.Ok? then Ok(Read(r.value, offset)) else Err(r.error)
      ensures r.Err? ==> offset == n
    {
      var bytes: seq<Byte> := [];
      while true
        invariant Valid()
        invariant offset == old(offset) + |bytes|
        invariant bytes == Contents[old(offset)..offset] && NulFree(bytes)
        decreases n - offset
      {
        var b := ReadByte();
        if b.Err? {
          StringAtSpec(Contents, old(offset));
          assert !exists i :: old(offset) <= i < |Contents| && Contents[i] == 0 by {
            forall i | old(offset) <= i < |Contents| ensures Contents[i] != 0 {
              assert bytes[i - old(offset)] == Contents[i];
            }
          }
          return Err(b.error);
        }
        if b.value == 0 {
          break;
        }
        bytes := bytes + [b.value];
      }
      StringFromWindow(Contents, old(offset), bytes);
      return Ok(bytes);
    }
  }
}

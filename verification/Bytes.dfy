/** Bytes, the big-endian integers of `main.h`, and byte streams read through a cursor. */
module Bytes {
  import opened CStrings

  type Byte = b: int | 0 <= b < 256
  type Data = seq<Byte>

  const WORD: int := 0x1_0000_0000
  const INT_MAX: int := 0x7fff_ffff

  /** WRITE_BE_INT32: the low 32 bits, most significant byte first. */
  function WriteBe(i: int): (r: Data)
    ensures |r| == 4
  {
    [i / 0x100_0000 % 256, i / 0x1_0000 % 256, i / 0x100 % 256, i % 256]
  }

  /** READ_BE_INT32. */
  function ReadBe(p: Data): (r: nat)
    requires |p| == 4
    ensures r < WORD
  {
    var a: int, b: int, c: int, d: int := p[0], p[1], p[2], p[3];
    a * 0x100_0000 + b * 0x1_0000 + c * 0x100 + d
  }

  lemma ReadOfWrite(i: int)
    ensures ReadBe(WriteBe(i)) == i % WORD
  {
    Digits(i);
    Remainder(i, i / WORD, ReadBe(WriteBe(i)));
  }

  /** The four bytes are the digits of the number to base 256. */
  lemma Digits(i: int)
    ensures i == WORD * (i / WORD) + ReadBe(WriteBe(i))
  {
    var b, c, d := i / 0x100, i / 0x1_0000, i / 0x100_0000;
    assert b / 0x100 == c && c / 0x100 == d && d / 0x100 == i / WORD;
  }

  lemma Remainder(i: int, k: int, r: nat)
    requires i == WORD * k + r && r < WORD
    ensures i % WORD == r
  {
  }

  lemma WriteOfRead(p: Data)
    requires |p| == 4
    ensures WriteBe(ReadBe(p)) == p
  {
    var a: int, b: int, c: int := p[0], p[1], p[2];
    assert ReadBe(p) / 0x100 == a * 0x1_0000 + b * 0x100 + c;
    assert ReadBe(p) / 0x1_0000 == a * 0x100 + b;
    assert ReadBe(p) / 0x100_0000 == a;
  }

  /** A value of type int holding the given bits. */
  function Signed(n: nat): int
    requires n < WORD
  {
    if n > INT_MAX then n - WORD else n
  }

  /** A stdio stream over a file that does not change. */
  class Stream {
    const bytes: Data
    var pos: nat

    constructor (bytes: Data)
      ensures this.bytes == bytes && pos == 0
    {
      this.bytes := bytes;
      pos := 0;
    }

    /** fread: what there is, at most `n` bytes. */
    method Read(n: nat) returns (r: Data)
      modifies this
      ensures r == ReadAt(bytes, old(pos), n) && pos == old(pos) + |r|
    {
      var end := if pos > |bytes| then pos else if pos + n > |bytes| then |bytes| else pos + n;
      r := if pos > |bytes| then [] else bytes[pos..end];
      pos := pos + |r|;
    }

    /** fseek to `back` bytes before the end. */
    method SeekEnd(back: int) returns (ok: bool)
      modifies this
      ensures ok <==> back <= |bytes|
      ensures pos == if ok then |bytes| - back else old(pos)
    {
      ok := back <= |bytes|;
      if ok {
        pos := |bytes| - back;
      }
    }
  }

  function ReadAt(bytes: Data, pos: nat, n: nat): (r: Data)
    ensures |r| <= n
    ensures pos + n <= |bytes| ==> r == bytes[pos..pos + n]
    ensures |r| == n && n > 0 ==> pos + n <= |bytes|
  {
    if pos > |bytes| then [] else if pos + n > |bytes| then bytes[pos..] else bytes[pos..pos + n]
  }
}

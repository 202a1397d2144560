/**
 * GDB remote protocol encoding: hexadecimal digits, and the conversion between bytes in
 * memory and strings of digits.
 */
module GdbPacket {
  import opened Wrappers

  const START: Byte := 36   // '$'
  const END: Byte := 35     // '#'
  const GOOD: Byte := 43    // '+'
  const BAD: Byte := 45     // '-'
  const COLON: Byte := 58   // ':'

  // ----- hexadecimal -----

  function Digit2I(c: Byte): (d: int)
    ensures -1 <= d < 16
  {
    if 48 <= c <= 57 then c - 48
    else if 97 <= c <= 102 then c - 97 + 10
    else if 65 <= c <= 70 then c - 65 + 10
    else -1
  }

  function I2Digit(n: nat): (c: Byte)
    ensures Digit2I(c) == n % 16
  {
    var d := n % 16;
    if d < 10 then 48 + d else 97 + d - 10
  }

  /** Two digits per byte, high one first. */
  function HexOf(src: seq<Byte>): (dst: seq<Byte>)
    ensures |dst| == 2 * |src|
  {
    if src == [] then [] else HexOf(src[..|src| - 1]) + [I2Digit(src[|src| - 1] / 16), I2Digit(src[|src| - 1])]
  }

  lemma {:induction false} HexOfAt(src: seq<Byte>, i: nat)
    requires i < |src|
    ensures HexOf(src)[2 * i] == I2Digit(src[i] / 16) && HexOf(src)[2 * i + 1] == I2Digit(src[i])
  {
    if i < |src| - 1 { HexOfAt(src[..|src| - 1], i); }
  }

  method Mem2Hex(src: seq<Byte>) returns (dst: seq<Byte>)
    ensures dst == HexOf(src) + [0]
  {
    dst := [];
    for i := 0 to |src|
      invariant dst == HexOf(src[..i])
    {
      dst := dst + [I2Digit(src[i] / 16)];
      dst := dst + [I2Digit(src[i])];
      assert src[..i + 1][..i] == src[..i];
    }
    assert src[..|src|] == src;
    dst := dst + [0];
  }

  /** Where hex2mem stopped: at a position, or with half a byte. */
  datatype HexEnd = At(pos: nat) | HalfByte

  predicate Terminated(src: seq<Byte>) { |src| > 0 && src[|src| - 1] == 0 }

  /** The bytes that the digits from position p on stand for, at most maxlen, and where they end. */
  function Unhex(src: seq<Byte>, p: nat, maxlen: nat): (seq<Byte>, HexEnd)
    requires Terminated(src) && p < |src|
    decreases |src| - p
  {
    if src[p] == 0 || maxlen == 0 then ([], At(p))
    else if Digit2I(src[p]) < 0 then ([], At(p))
    else if Digit2I(src[p + 1]) < 0 then ([], HalfByte)
    else
      var (rest, end) := Unhex(src, p + 2, maxlen - 1);
      ([16 * Digit2I(src[p]) + Digit2I(src[p + 1])] + rest, end)
  }

  /** hex2mem on a zero-terminated string. */
  method Hex2Mem(src: seq<Byte>, maxlen: nat) returns (dst: seq<Byte>, end: HexEnd)
    requires Terminated(src)
    ensures (dst, end) == Unhex(src, 0, maxlen)
  {
    dst := [];
    var p, room := 0, maxlen;
    assert [] + Unhex(src, 0, maxlen).0 == Unhex(src, 0, maxlen).0;
    while src[p] != 0 && room > 0
      invariant p < |src|
      invariant Unhex(src, 0, maxlen) == (dst + Unhex(src, p, room).0, Unhex(src, p, room).1)
      decreases |src| - p
    {
      ghost var rest := Unhex(src, p, room);
      room := room - 1;
      var msb := Digit2I(src[p]);
      if msb < 0 {
        assert dst + [] == dst;
        return dst, At(p);
      }
      var lsb := Digit2I(src[p + 1]);
      if lsb < 0 {
        assert dst + [] == dst;
        return dst, HalfByte;
      }
      assert dst + rest.0 == (dst + [16 * msb + lsb]) + Unhex(src, p + 2, room).0;
      dst := dst + [16 * msb + lsb];
      p := p + 2;
    }
    assert dst + [] == dst;
    end := At(p);
  }

  lemma Nibbles(b: Byte)
    ensures 16 * Digit2I(I2Digit(b / 16)) + Digit2I(I2Digit(b)) == b
    ensures Digit2I(I2Digit(b / 16)) >= 0 && Digit2I(I2Digit(b)) >= 0 && I2Digit(b / 16) != 0
  {
  }

  lemma HexDigitsAt(mem: seq<Byte>, src: seq<Byte>, i: nat)
    requires src == HexOf(mem) + [0] && i < |mem|
    ensures 2 * i + 2 < |src| && src[2 * i] != 0 && Digit2I(src[2 * i]) >= 0 && Digit2I(src[2 * i + 1]) >= 0
    ensures 16 * Digit2I(src[2 * i]) + Digit2I(src[2 * i + 1]) == mem[i]
  {
    HexOfAt(mem, i);
    assert src[2 * i] == HexOf(mem)[2 * i] && src[2 * i + 1] == HexOf(mem)[2 * i + 1];
    Nibbles(mem[i]);
  }

  /** hex2mem undoes mem2hex for every byte array, up to its length limit. */
  lemma {:induction false} UnhexOfHex(mem: seq<Byte>, src: seq<Byte>, i: nat, maxlen: nat, n: nat)
    requires src == HexOf(mem) + [0] && i <= n <= |mem| && n == if |mem| - i < maxlen then |mem| else i + maxlen
    ensures Unhex(src, 2 * i, maxlen) == (mem[i..n], At(2 * n))
    decreases maxlen
  {
    if i == |mem| {
      assert src[2 * i] == 0;
    } else if maxlen > 0 {
      UnhexOfHex(mem, src, i + 1, maxlen - 1, n);
      HexDigitsAt(mem, src, i);
      var p := 2 * i;
      assert Unhex(src, p + 2, maxlen - 1) == (mem[i + 1..n], At(2 * n));
      assert mem[i..n] == [mem[i]] + mem[i + 1..n];
    }
  }
}

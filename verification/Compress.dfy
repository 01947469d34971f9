/** The variable-byte code of the index files: pkg/compress/compress.go, lines 26-48, 104-133.
  *
  * A byte is a number below 256; masks, shifts and ors are written as remainders, divisions and sums.
  * The decoder of encoding/binary reads unsigned LEB128, section 7.6 of the DWARF Debugging Information
  * Format, Version 4, limited to 64 bits.
  */
module Compress {

  const TWO_TO_THE_63 := 0x8000_0000_0000_0000
  const TWO_TO_THE_64 := 0x1_0000_0000_0000_0000

  type Byte = b: int | 0 <= b < 256
  type Int64 = v: int | -0x8000_0000_0000_0000 <= v < 0x8000_0000_0000_0000
  type UInt64 = v: int | 0 <= v < 0x1_0000_0000_0000_0000

  /** The conversion uint64(v). */
  function Unsigned(v: Int64): UInt64 {
    if v >= 0 then v else v + TWO_TO_THE_64
  }

  /** The conversion int(v). */
  function Signed(v: UInt64): Int64 {
    if v < TWO_TO_THE_63 then v else v - TWO_TO_THE_64
  }

  /** Arithmetic on int wraps around at 64 bits. */
  function Wrapped(v: int): Int64 {
    Signed(v % TWO_TO_THE_64)
  }

  // ---- little-endian base 128, the continuation bit on every byte but the last

  ghost function Leb(x: nat): (bytes: seq<Byte>)
    ensures |bytes| >= 1
  {
    if x < 128 then [x] else [x % 128 + 128] + Leb(x / 128)
  }

  /** 128^k. */
  ghost function Scale(k: nat): (p: nat)
    ensures p >= 1
  {
    if k == 0 then 1 else 128 * Scale(k - 1)
  }

  lemma ScaleOfNine()
    ensures Scale(9) == TWO_TO_THE_63
  {
    assert Scale(3) == 0x20_0000;
    assert Scale(6) == 0x20_0000 * 0x20_0000;
  }

  /** A value takes k bytes exactly when it has k digits in base 128: 1 to 10 bytes for 64 bits. */
  lemma {:induction false} LebLength(x: nat, k: nat)
    requires k >= 1
    ensures |Leb(x)| <= k <==> x < Scale(k)
  {
    if x < 128 {
      assert Scale(k) == 128 * Scale(k - 1);
    } else if k == 1 {
      assert Scale(1) == 128 * Scale(0);
    } else {
      LebLength(x / 128, k - 1);
      assert Scale(k) == 128 * Scale(k - 1);
    }
  }

  lemma {:induction false} LebAtMostTenBytes(x: UInt64)
    ensures 1 <= |Leb(x)| <= 10
  {
    ScaleOfNine();
    LebLength(x, 10);
  }

  lemma DivideTwice(x: nat, k: nat)
    ensures x / 128 / Scale(k) == x / Scale(k + 1)
  {
    var p, q, r := Scale(k), x / 128 / Scale(k), x / 128 % Scale(k);
    assert x / 128 == q * p + r && 0 <= r < p;
    assert x == 128 * (q * p + r) + x % 128;
    assert x == q * (128 * p) + (128 * r + x % 128) && 0 <= 128 * r + x % 128 < 128 * p;
    QuotientIs(x, 128 * p, q, 128 * r + x % 128);
  }

  lemma QuotientIs(x: nat, m: nat, q: nat, r: nat)
    requires m > 0 && x == q * m + r && r < m
    ensures x / m == q
  {
    var d := x / m - q;
    assert d * m == r - x % m;
    OnlyZero(d, m);
  }

  lemma OnlyZero(d: int, m: int)
    ensures d >= 1 && m > 0 ==> d * m >= m
    ensures d <= -1 && m > 0 ==> d * m <= -m
  {
  }

  /** The k-th byte holds the k-th digit in base 128, lowest first, and is above 127 unless it is the last. */
  lemma {:induction false} LebDigits(x: nat, k: nat)
    requires k < |Leb(x)|
    ensures Leb(x)[k] == x / Scale(k) % 128 + if k < |Leb(x)| - 1 then 128 else 0
  {
    if k > 0 {
      LebDigits(x / 128, k - 1);
      DivideTwice(x, k - 1);
    }
  }

  function ShiftWidth(i: nat): nat {
    if i < 9 then 7 else 1
  }

  /** getLSB(byte(x), 7) and getLSB(byte(x), 1). */
  function LowBits(x: nat, width: nat): (b: Byte)
    requires width == 7 || width == 1
    ensures b < 128
  {
    if width == 7 then x % 128 else x % 2
  }

  lemma ScaleStep(k: nat)
    ensures Scale(k + 1) == 128 * Scale(k)
    ensures Scale(0) == 1
  {}

  lemma LebStep(x: nat)
    ensures x < 128 ==> Leb(x) == [x]
    ensures x >= 128 ==> Leb(x) == [x % 128 + 128] + Leb(x / 128)
  {}

  /** encodeUVarint, lines 28-43: ten shifts, of which the last is by one bit only. */
  method EncodeUVarint(x0: UInt64) returns (bytes: seq<Byte>)
    ensures bytes == Leb(x0)
  {
    hide Leb, Scale;
    var buf := new Byte[11](_ => 0);
    var x: nat := x0;
    var i := 0;
    ScaleOfNine();
    while i < 10
      invariant 0 <= i <= 9
      invariant x < 2 * Scale(9 - i)
      invariant Leb(x0) == buf[..i] + Leb(x)
      decreases 10 - i
    {
      var width := ShiftWidth(i);
      ghost var before := x;
      LebStep(x);
      if i < 9 { ScaleStep(9 - (i + 1)); } else { ScaleStep(0); }
      buf[i] := LowBits(x, width) + 128;
      x := if width == 7 then x / 128 else x / 2;
      if x == 0 {
        assert buf[i] == before + 128;
        break;
      }
      assert buf[..i + 1] == buf[..i] + [buf[i]];
      i := i + 1;
    }
    buf[i] := buf[i] % 128;
    bytes := buf[..i + 1];
    assert bytes == buf[..i] + [buf[i]];
  }

  /** What binary.Uvarint reports: a value and its length, 0 for a buffer that ends too early, or a
    * negative length for a value that does not fit into 64 bits. */
  datatype Reading = Value(v: nat, length: nat) | TooShort | Overflow

  /** The reading of a buffer that is entered after i bytes. */
  function ReadLeb(buf: seq<Byte>, i: nat): (r: Reading)
    requires i <= 10
    ensures r.Value? ==> 1 <= r.length <= |buf|
    decreases 10 - i
  {
    if buf == [] then TooShort
    else if i == 10 then Overflow
    else if buf[0] < 128 then
      if i == 9 && buf[0] > 1 then Overflow else Value(buf[0], 1)
    else
      var rest := ReadLeb(buf[1..], i + 1);
      if rest.Value? then Value(buf[0] % 128 + 128 * rest.v, rest.length + 1) else rest
  }

  /** What is read fits into the bits that are left, after ten bytes at most. */
  lemma {:induction false} ReadFits(buf: seq<Byte>, i: nat)
    requires i <= 9 && ReadLeb(buf, i).Value?
    ensures ReadLeb(buf, i).v < 2 * Scale(9 - i) && ReadLeb(buf, i).length <= 10 - i
    decreases 10 - i
  {
    if i < 9 { ScaleStep(9 - (i + 1)); }
    if buf[0] >= 128 && i < 9 {
      ReadFits(buf[1..], i + 1);
    }
  }

  /** The reader undoes the writer, whatever follows. */
  lemma {:induction false} ReadUndoesWrite(x: nat, rest: seq<Byte>, i: nat)
    requires i <= 9 && x < 2 * Scale(9 - i)
    ensures ReadLeb(Leb(x) + rest, i) == Value(x, |Leb(x)|)
    decreases 10 - i
  {
    var bytes := Leb(x) + rest;
    if x >= 128 {
      assert i < 9 && Scale(9 - i) == 128 * Scale(9 - (i + 1));
      assert bytes[1..] == Leb(x / 128) + rest;
      ReadUndoesWrite(x / 128, rest, i + 1);
    } else if i == 9 {
      assert Scale(0) == 1;
    }
  }

  lemma ReadStep(buf: seq<Byte>, i: nat)
    requires i <= 9 && ReadLeb(buf, i).Value?
    ensures buf[0] < 128 ==> ReadLeb(buf, i) == Value(buf[0], 1)
    ensures buf[0] >= 128 ==> ReadLeb(buf[1..], i + 1).Value? && i < 9
    ensures buf[0] >= 128 ==> ReadLeb(buf, i) == Value(buf[0] % 128 + 128 * ReadLeb(buf[1..], i + 1).v, ReadLeb(buf[1..], i + 1).length + 1)
  {}

  /** The other round trip: what is read is written as the same bytes exactly when the last byte read
    * is not a padding zero. */
  lemma {:induction false} WriteUndoesRead(buf: seq<Byte>, i: nat)
    requires i <= 9 && ReadLeb(buf, i).Value?
    ensures var r := ReadLeb(buf, i);
      Leb(r.v) == buf[..r.length] <==> r.length == 1 || buf[r.length - 1] != 0
    decreases 10 - i
  {
    hide Leb, ReadLeb;
    var r := ReadLeb(buf, i);
    ReadStep(buf, i);
    LebStep(r.v);
    if buf[0] < 128 {
      assert buf[..1] == [buf[0]];
    } else {
      var tail := buf[1..];
      var rest := ReadLeb(tail, i + 1);
      WriteUndoesRead(tail, i + 1);
      LebStep(rest.v);
      assert r.v == buf[0] % 128 + 128 * rest.v && r.length == rest.length + 1;
      assert tail[rest.length - 1] == buf[r.length - 1];
      assert buf[..r.length] == [buf[0]] + tail[..rest.length];
      LastIsZero(tail, i + 1);
      if rest.v > 0 {
        assert Leb(r.v) == [buf[0]] + Leb(rest.v);
        SameTail(buf[0], Leb(rest.v), tail[..rest.length]);
      }
    }
  }

  lemma SameTail(b: Byte, s: seq<Byte>, t: seq<Byte>)
    ensures [b] + s == [b] + t <==> s == t
  {
    assert ([b] + s)[1..] == s && ([b] + t)[1..] == t;
  }

  /** Only padding reads as zero. */
  lemma {:induction false} LastIsZero(buf: seq<Byte>, i: nat)
    requires i <= 9 && ReadLeb(buf, i).Value?
    ensures ReadLeb(buf, i).v == 0 ==> buf[ReadLeb(buf, i).length - 1] == 0
    ensures ReadLeb(buf, i).v != 0 && ReadLeb(buf, i).length == 1 ==> buf[0] != 0
    decreases 10 - i
  {
    hide ReadLeb;
    ReadStep(buf, i);
    if buf[0] >= 128 {
      LastIsZero(buf[1..], i + 1);
    }
  }

  // ---- posting lists in the first code

  /** The list decoded so far, or the panic of buf[n:] for a negative n. */
  datatype Decoding = Decoded(numbers: seq<Int64>) | Crash

  ghost function Encoded(list: seq<Int64>): seq<Byte> {
    if list == [] then [] else Leb(Unsigned(list[0])) + Encoded(list[1..])
  }

  ghost function Prepend(v: Int64, d: Decoding): Decoding {
    match d
    case Decoded(numbers) => Decoded([v] + numbers)
    case Crash => Crash
  }

  /** Values are read until the buffer is empty or ends within a value. */
  ghost function DecodedFrom(buf: seq<Byte>): Decoding
    decreases |buf|
  {
    if buf == [] then Decoded([]) else
      match ReadLeb(buf, 0)
      case TooShort => Decoded([])
      case Overflow => Crash
      case Value(v, n) =>
        ReadFits(buf, 0);
        ScaleOfNine();
        Prepend(Signed(v), DecodedFrom(buf[n..]))
  }

  lemma {:induction false} EncodedAppend(list: seq<Int64>, v: Int64)
    ensures Encoded(list + [v]) == Encoded(list) + Leb(Unsigned(v))
  {
    if list != [] {
      EncodedAppend(list[1..], v);
      assert (list + [v])[1..] == list[1..] + [v];
    } else {
      assert [v][1..] == [];
    }
  }

  /** EncodePostingsList, lines 118-125. */
  method EncodePostingsList(postingsList: seq<Int64>) returns (bytes: seq<Byte>)
    ensures bytes == Encoded(postingsList)
  {
    hide Leb, Encoded;
    assert Encoded([]) == [] by { EncodedEmpty(); }
    bytes := [];
    for k := 0 to |postingsList|
      invariant bytes == Encoded(postingsList[..k])
    {
      var code := EncodeUVarint(Unsigned(postingsList[k]));
      EncodedAppend(postingsList[..k], postingsList[k]);
      assert postingsList[..k + 1] == postingsList[..k] + [postingsList[k]];
      bytes := bytes + code;
    }
    assert postingsList[..|postingsList|] == postingsList;
  }

  lemma EncodedEmpty()
    ensures Encoded([]) == []
  {}

  /** The numbers in front of a decoding. */
  ghost function Joined(numbers: seq<Int64>, d: Decoding): Decoding {
    match d
    case Decoded(more) => Decoded(numbers + more)
    case Crash => Crash
  }

  /** DecodePostingsList with vebDecode2, lines 104-116 and 127-133. */
  method DecodePostingsList(bs: seq<Byte>) returns (result: Decoding)
    ensures result == DecodedFrom(bs)
  {
    hide ReadLeb, Scale;
    var buf, results: seq<Int64> := bs, [];
    while |buf| > 0
      invariant DecodedFrom(bs) == Joined(results, DecodedFrom(buf))
      decreases |buf|
    {
      var r := ReadLeb(buf, 0);
      if r.TooShort? {
        break;
      }
      if r.Overflow? {
        return Crash;
      }
      ReadFits(buf, 0);
      ScaleOfNine();
      results := results + [Signed(r.v)];
      buf := buf[r.length..];
    }
    result := Decoded(results);
  }

  /** Decoding undoes encoding for every list of 64-bit values, negative ones included. */
  lemma {:induction false} DecodeUndoesEncode(list: seq<Int64>)
    ensures DecodedFrom(Encoded(list)) == Decoded(list)
  {
    hide ReadLeb, Leb, Scale;
    if list != [] {
      var v, rest := Unsigned(list[0]), Encoded(list[1..]);
      ScaleOfNine();
      ReadUndoesWrite(v, rest, 0);
      assert (Leb(v) + rest)[|Leb(v)|..] == rest;
      DecodeUndoesEncode(list[1..]);
      assert Signed(v) == list[0];
      assert list == [list[0]] + list[1..];
    }
  }
}

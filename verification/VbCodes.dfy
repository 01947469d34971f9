/** The second variable-byte code: pkg/compress/compress.go, lines 74-102 and 135-150. Big-endian base
  * 128, the stop bit on the last byte.
  */
module VbCodes {
  import opened Compress

  /** The digits of n; of a negative n the lowest digit only. */
  ghost function Digits(n: int): (digits: seq<Byte>)
    ensures |digits| >= 1
  {
    (if n < 128 then [] else Digits(n / 128)) + [n % 128]
  }

  /** The bytes are the digits in base 128, highest first. */
  lemma {:induction false} DigitsAre(n: nat, k: nat)
    requires k < |Digits(n)|
    ensures Digits(n)[|Digits(n)| - 1 - k] == n / Scale(k) % 128
  {
    if k > 0 {
      DigitsAre(n / 128, k - 1);
      DivideTwice(n, k - 1);
    }
  }

  ghost function Stopped(digits: seq<Byte>): seq<Byte>
    requires digits != [] && digits[|digits| - 1] < 128
  {
    digits[|digits| - 1 := digits[|digits| - 1] + 128]
  }

  lemma LastDigit(n: int)
    ensures Digits(n)[|Digits(n)| - 1] == n % 128
  {}

  ghost function Vb(n: int): (bytes: seq<Byte>) {
    LastDigit(n);
    Stopped(Digits(n))
  }

  /** vbEncodeNum, lines 74-87. */
  method VbEncodeNum(n0: Int64) returns (buf: seq<Byte>)
    ensures buf == Vb(n0)
  {
    hide Digits;
    var n: int := n0;
    buf := [];
    while true
      invariant n0 < 128 ==> n == n0
      invariant Digits(n0) == Digits(n) + buf
      decreases if n < 0 then 0 else n
    {
      DigitsStep(n);
      ghost var before := buf;
      buf := [n % 128] + buf;
      if n < 128 {
        break;
      }
      assert Digits(n) + before == Digits(n / 128) + buf;
      n := n / 128;
    }
    LastDigit(n0);
    assert buf == Digits(n0);
    buf := buf[|buf| - 1 := buf[|buf| - 1] + 128];
  }

  /** Bytes below 128 are further digits of n, any other ends a number. */
  ghost function VbDecodedFrom(bs: seq<Byte>, n: Int64): seq<Int64> {
    if bs == [] then []
    else if bs[0] < 128 then VbDecodedFrom(bs[1..], Wrapped(n * 128 + bs[0]))
    else [Wrapped(n * 128 + (bs[0] - 128))] + VbDecodedFrom(bs[1..], 0)
  }

  /** DecodePostingsList2 with vbDecode, lines 89-102 and 144-150. */
  method DecodePostingsList2(bs: seq<Byte>) returns (numbers: seq<Int64>)
    ensures numbers == VbDecodedFrom(bs, 0)
  {
    hide Wrapped;
    numbers := [];
    var n: Int64 := 0;
    for i := 0 to |bs|
      invariant VbDecodedFrom(bs, 0) == numbers + VbDecodedFrom(bs[i..], n)
    {
      assert bs[i..][0] == bs[i] && bs[i..][1..] == bs[i + 1..];
      if bs[i] < 128 {
        n := Wrapped(n * 128 + bs[i]);
      } else {
        n := Wrapped(n * 128 + (bs[i] - 128));
        numbers := numbers + [n];
        n := 0;
      }
    }
  }

  ghost function VbEncoded(list: seq<Int64>): seq<Byte> {
    if list == [] then [] else Vb(list[0]) + VbEncoded(list[1..])
  }

  lemma {:induction false} VbEncodedAppend(list: seq<Int64>, v: Int64)
    ensures VbEncoded(list + [v]) == VbEncoded(list) + Vb(v)
  {
    hide Vb;
    if list != [] {
      VbEncodedAppend(list[1..], v);
      assert (list + [v])[1..] == list[1..] + [v];
    } else {
      assert [v][1..] == [];
    }
  }

  /** EncodePostingsList2, lines 135-142. */
  method EncodePostingsList2(postingsList: seq<Int64>) returns (bytes: seq<Byte>)
    ensures bytes == VbEncoded(postingsList)
  {
    hide Vb;
    bytes := [];
    for k := 0 to |postingsList|
      invariant bytes == VbEncoded(postingsList[..k])
    {
      var code := VbEncodeNum(postingsList[k]);
      VbEncodedAppend(postingsList[..k], postingsList[k]);
      assert postingsList[..k + 1] == postingsList[..k] + [postingsList[k]];
      bytes := bytes + code;
    }
    assert postingsList[..|postingsList|] == postingsList;
  }

  lemma DigitsStep(n: int)
    ensures n < 128 ==> Digits(n) == [n % 128]
    ensures n >= 128 ==> Digits(n) == Digits(n / 128) + [n % 128]
  {}

  lemma WrappedInRange(v: Int64)
    ensures Wrapped(v) == v
  {}

  lemma DigitIsRead(d: Byte, rest: seq<Byte>, n: Int64)
    requires d < 128 && 0 <= n * 128 + d < TWO_TO_THE_63
    ensures VbDecodedFrom([d] + rest, n) == VbDecodedFrom(rest, n * 128 + d)
  {
    hide Wrapped;
    WrappedInRange(n * 128 + d);
    assert ([d] + rest)[1..] == rest;
  }

  lemma {:induction false} DigitsAreRead(n: Int64, rest: seq<Byte>)
    requires n >= 0
    ensures VbDecodedFrom(Digits(n) + rest, 0) == VbDecodedFrom(rest, n)
    decreases n
  {
    hide VbDecodedFrom, Digits;
    DigitsStep(n);
    if n < 128 {
      DigitIsRead(n, rest, 0);
    } else {
      var d: Byte := n % 128;
      assert n == n / 128 * 128 + d;
      assert Digits(n) + rest == Digits(n / 128) + ([d] + rest);
      DigitsAreRead(n / 128, [d] + rest);
      DigitIsRead(d, rest, n / 128);
    }
  }

  /** The value that the second code keeps of v. */
  ghost function Kept(v: Int64): Int64 {
    if v < 0 then v % 128 else v
  }

  lemma CodeIsRead(v: Int64, rest: seq<Byte>)
    ensures VbDecodedFrom(Vb(v) + rest, 0) == [Kept(v)] + VbDecodedFrom(rest, 0)
  {
    hide VbDecodedFrom;
    var stop: Byte := v % 128 + 128;
    LastDigit(v);
    StopIsRead(stop, rest, if v < 128 then 0 else v / 128);
    if v < 128 {
      assert Vb(v) + rest == [stop] + rest;
    } else {
      assert Vb(v) + rest == Digits(v / 128) + ([stop] + rest);
      DigitsAreRead(v / 128, [stop] + rest);
    }
  }

  lemma StopIsRead(stop: Byte, rest: seq<Byte>, n: Int64)
    requires stop >= 128 && 0 <= n * 128 + (stop - 128) < TWO_TO_THE_63
    ensures VbDecodedFrom([stop] + rest, n) == [n * 128 + (stop - 128)] + VbDecodedFrom(rest, 0)
  {
    hide Wrapped;
    WrappedInRange(n * 128 + (stop - 128));
    assert ([stop] + rest)[1..] == rest;
  }

  ghost function AllKept(list: seq<Int64>): seq<Int64> {
    seq(|list|, k requires 0 <= k < |list| => Kept(list[k]))
  }

  lemma {:induction false} VbDecodeEncode(list: seq<Int64>)
    ensures VbDecodedFrom(VbEncoded(list), 0) == AllKept(list)
  {
    hide Vb, Kept, Digits;
    if list != [] {
      CodeIsRead(list[0], VbEncoded(list[1..]));
      VbDecodeEncode(list[1..]);
      assert AllKept(list) == [Kept(list[0])] + AllKept(list[1..]);
    }
  }

  /** The second code is undone exactly when no value is negative. */
  lemma {:induction false} VbDecodeUndoesEncode(list: seq<Int64>)
    ensures VbDecodedFrom(VbEncoded(list), 0) == list <==> forall k :: 0 <= k < |list| ==> list[k] >= 0
  {
    VbDecodeEncode(list);
    if forall k :: 0 <= k < |list| ==> list[k] >= 0 {
      assert AllKept(list) == list;
    } else {
      var k :| 0 <= k < |list| && list[k] < 0;
      assert AllKept(list)[k] >= 0;
    }
  }

  /** Both codes spend the same number of bytes on a value that is not negative. */
  lemma {:induction false} SameLength(n: nat)
    ensures |Leb(n)| == |Digits(n)|
  {
    if n >= 128 { SameLength(n / 128); }
  }

  lemma {:induction false} EncodingsHaveEqualLength(list: seq<Int64>)
    requires forall k :: 0 <= k < |list| ==> list[k] >= 0
    ensures |Encoded(list)| == |VbEncoded(list)|
  {
    hide Leb, Digits;
    if list != [] {
      SameLength(list[0]);
      EncodingsHaveEqualLength(list[1..]);
    }
  }
}

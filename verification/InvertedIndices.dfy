/** One inverted index and its metadata: pkg/index/inverted_index.go, lines 178-275 and 293-414.
  *
  * The index file is a sequence of bytes; opening, closing and their errors are not modelled. The
  * average field length is an eight-byte payload.
  */
module InvertedIndices {
  import opened Collections
  import opened Compress

  /** postingMetadata's triple: position in the file, number of postings, number of bytes. */
  datatype Extent = Extent(start: int, count: int, length: int)

  datatype Answer<T> = Found(value: T) | ReadError | Panic

  datatype IndexItem = IndexItem(termID: int, termSize: nat, postingList: seq<Int64>)

  // ---- four-byte little-endian numbers

  const TWO_TO_THE_32 := 0x1_0000_0000

  predicate Fits32(v: int) {
    0 <= v < TWO_TO_THE_32
  }

  /** The bytes PutUint32 writes for uint32(v). */
  function Put32(v: int): (bytes: seq<Byte>)
    ensures |bytes| == 4
  {
    var u := v % TWO_TO_THE_32;
    [u % 256, u / 256 % 256, u / 65536 % 256, u / 16777216]
  }

  function Get32(bytes: seq<Byte>): (v: nat)
    requires |bytes| >= 4
    ensures Fits32(v)
  {
    var b0: int, b1: int, b2: int, b3: int := bytes[0], bytes[1], bytes[2], bytes[3];
    b0 + 256 * b1 + 65536 * b2 + 16777216 * b3
  }

  lemma GetUndoesPut(v: int, rest: seq<Byte>)
    ensures Get32(Put32(v) + rest) == v % TWO_TO_THE_32
    ensures (Put32(v) + rest)[4..] == rest
  {
    var u := v % TWO_TO_THE_32;
    assert u / 65536 == u / 256 / 256 && u / 16777216 == u / 65536 / 256;
  }

  // ---- the metadata as bytes

  datatype Metadata = Metadata(terms: seq<int>, extents: map<int, Extent>, lens: map<int, int>, average: seq<Byte>)

  ghost predicate ExtentFits(e: Extent) {
    Fits32(e.start) && Fits32(e.count) && Fits32(e.length)
  }

  /** Every number that is stored is a 32-bit one. */
  ghost predicate MetadataFits(m: Metadata) {
    && Fits32(|m.terms|) && Fits32(|m.extents|) && Fits32(|m.lens|)
    && (forall k :: 0 <= k < |m.terms| ==> Fits32(m.terms[k]))
    && (forall t :: t in m.extents ==> Fits32(t) && ExtentFits(m.extents[t]))
    && (forall d :: d in m.lens ==> Fits32(d) && Fits32(m.lens[d]))
  }

  /** Some order in which a map is iterated. */
  ghost predicate IsOrder(order: seq<int>, keys: set<int>) {
    && (forall i, j :: 0 <= i < j < |order| ==> order[i] != order[j])
    && (set k | k in order) == keys
  }

  ghost function TermBytes(terms: seq<int>): (bytes: seq<Byte>)
    ensures |bytes| == 4 * |terms|
  {
    if terms == [] then [] else TermBytes(terms[..|terms| - 1]) + Put32(terms[|terms| - 1])
  }

  ghost function ExtentBytes(t: int, e: Extent): (bytes: seq<Byte>)
    ensures |bytes| == 16
  {
    Put32(t) + Put32(e.length) + Put32(e.count) + Put32(e.start)
  }

  ghost function ExtentsBytes(order: seq<int>, extents: map<int, Extent>): (bytes: seq<Byte>)
    requires forall k :: 0 <= k < |order| ==> order[k] in extents
    ensures |bytes| == 16 * |order|
  {
    if order == [] then [] else
      var t := order[|order| - 1];
      ExtentsBytes(order[..|order| - 1], extents) + ExtentBytes(t, extents[t])
  }

  ghost function LenBytes(d: int, n: int): (bytes: seq<Byte>)
    ensures |bytes| == 8
  {
    Put32(d) + Put32(n)
  }

  ghost function LensBytes(order: seq<int>, lens: map<int, int>): (bytes: seq<Byte>)
    requires forall k :: 0 <= k < |order| ==> order[k] in lens
    ensures |bytes| == 8 * |order|
  {
    if order == [] then [] else
      var d := order[|order| - 1];
      LensBytes(order[..|order| - 1], lens) + LenBytes(d, lens[d])
  }

  ghost function Header(m: Metadata): (bytes: seq<Byte>)
    ensures |bytes| == 12
  {
    Put32(|m.terms|) + Put32(|m.extents|) + Put32(|m.lens|)
  }

  ghost function Layout(m: Metadata, extentOrder: seq<int>, lenOrder: seq<int>): seq<Byte>
    requires IsOrder(extentOrder, m.extents.Keys) && IsOrder(lenOrder, m.lens.Keys)
  {
    OrderIsWithin(extentOrder, m.extents.Keys);
    OrderIsWithin(lenOrder, m.lens.Keys);
    Header(m) + TermBytes(m.terms) + ExtentsBytes(extentOrder, m.extents) + LensBytes(lenOrder, m.lens) + m.average
  }

  lemma OrderIsWithin(order: seq<int>, keys: set<int>)
    requires IsOrder(order, keys)
    ensures forall k :: 0 <= k < |order| ==> order[k] in keys
  {
    forall k | 0 <= k < |order| ensures order[k] in keys {
      assert order[k] in (set x | x in order);
    }
  }

  lemma {:induction false} OrderLength(order: seq<int>, keys: set<int>)
    requires IsOrder(order, keys)
    ensures |order| == |keys|
    decreases |order|
  {
    if order == [] {
      assert keys == {};
    } else {
      var last := order[|order| - 1];
      var init := order[..|order| - 1];
      assert (set k | k in init) == keys - {last} by {
        forall k ensures k in (set x | x in init) <==> k in keys - {last} {
          assert k in keys <==> k in order;
          assert order == init + [last];
        }
      }
      OrderIsWithin(order, keys);
      OrderLength(init, keys - {last});
    }
  }

  // ---- reading it back

  // ---- the layout, number by number

  /** The four bytes from `at` on hold the low 32 bits of v, the lowest byte first. */
  ghost predicate Holds32(buf: seq<Byte>, at: nat, v: int) {
    at + 4 <= |buf| &&
    var b0: int, b1: int, b2: int, b3: int := buf[at], buf[at + 1], buf[at + 2], buf[at + 3];
    b0 + 256 * b1 + 65536 * b2 + 16777216 * b3 == v % 0x1_0000_0000
  }

  lemma PutHolds(before: seq<Byte>, v: int, rest: seq<Byte>)
    ensures Holds32(before + Put32(v) + rest, |before|, v)
  {
    GetUndoesPut(v, []);
    assert Put32(v) + [] == Put32(v);
    var buf, at := before + Put32(v) + rest, |before|;
    assert buf[at] == Put32(v)[0] && buf[at + 1] == Put32(v)[1] && buf[at + 2] == Put32(v)[2] && buf[at + 3] == Put32(v)[3];
  }

  lemma HoldsWithin(before: seq<Byte>, part: seq<Byte>, rest: seq<Byte>, at: nat, v: int)
    requires Holds32(part, at, v)
    ensures Holds32(before + part + rest, |before| + at, v)
  {
    var buf, from := before + part + rest, |before| + at;
    assert buf[from] == part[at] && buf[from + 1] == part[at + 1] && buf[from + 2] == part[at + 2] && buf[from + 3] == part[at + 3];
  }

  lemma {:induction false} TermBytesAt(terms: seq<int>, k: nat)
    requires k < |terms|
    ensures Holds32(TermBytes(terms), 4 * k, terms[k])
  {
    hide Holds32, Put32;
    var n := |terms| - 1;
    var before := TermBytes(terms[..n]);
    if k == n {
      PutHolds(before, terms[n], []);
      assert before + Put32(terms[n]) + [] == TermBytes(terms);
    } else {
      TermBytesAt(terms[..n], k);
      HoldsWithin([], before, Put32(terms[n]), 4 * k, terms[k]);
      assert [] + before + Put32(terms[n]) == TermBytes(terms);
    }
  }

  /** A term with its extent: length in bytes, number of postings, start. */
  ghost predicate HoldsExtent(buf: seq<Byte>, at: nat, t: int, e: Extent) {
    Holds32(buf, at, t) && Holds32(buf, at + 4, e.length) && Holds32(buf, at + 8, e.count) && Holds32(buf, at + 12, e.start)
  }

  lemma ExtentBytesAt(before: seq<Byte>, t: int, e: Extent, rest: seq<Byte>)
    ensures HoldsExtent(before + ExtentBytes(t, e) + rest, |before|, t, e)
  {
    hide Holds32, Put32;
    var a, b, c, d := Put32(t), Put32(e.length), Put32(e.count), Put32(e.start);
    var buf := before + ExtentBytes(t, e) + rest;
    PutHolds(before, t, b + c + d + rest);
    PutHolds(before + a, e.length, c + d + rest);
    PutHolds(before + a + b, e.count, d + rest);
    PutHolds(before + a + b + c, e.start, rest);
    assert before + a + (b + c + d + rest) == buf && before + a + b + (c + d + rest) == buf;
    assert before + a + b + c + (d + rest) == buf && before + a + b + c + d + rest == buf;
  }

  lemma HoldsExtentWithin(before: seq<Byte>, part: seq<Byte>, rest: seq<Byte>, at: nat, t: int, e: Extent)
    requires HoldsExtent(part, at, t, e)
    ensures HoldsExtent(before + part + rest, |before| + at, t, e)
  {
    hide Holds32;
    HoldsWithin(before, part, rest, at, t);
    HoldsWithin(before, part, rest, at + 4, e.length);
    HoldsWithin(before, part, rest, at + 8, e.count);
    HoldsWithin(before, part, rest, at + 12, e.start);
  }

  lemma {:induction false} ExtentsBytesAt(order: seq<int>, extents: map<int, Extent>, k: nat)
    requires k < |order| && forall i :: 0 <= i < |order| ==> order[i] in extents
    ensures HoldsExtent(ExtentsBytes(order, extents), 16 * k, order[k], extents[order[k]])
  {
    hide HoldsExtent, ExtentBytes;
    var n := |order| - 1;
    var before, last := ExtentsBytes(order[..n], extents), ExtentBytes(order[n], extents[order[n]]);
    if k == n {
      ExtentBytesAt(before, order[n], extents[order[n]], []);
      assert before + last + [] == ExtentsBytes(order, extents);
    } else {
      ExtentsBytesAt(order[..n], extents, k);
      HoldsExtentWithin([], before, last, 16 * k, order[k], extents[order[k]]);
      assert [] + before + last == ExtentsBytes(order, extents);
    }
  }

  /** A document with its length. */
  ghost predicate HoldsLen(buf: seq<Byte>, at: nat, d: int, n: int) {
    Holds32(buf, at, d) && Holds32(buf, at + 4, n)
  }

  lemma LenBytesAt(before: seq<Byte>, d: int, n: int, rest: seq<Byte>)
    ensures HoldsLen(before + LenBytes(d, n) + rest, |before|, d, n)
  {
    hide Holds32, Put32;
    var buf := before + LenBytes(d, n) + rest;
    PutHolds(before, d, Put32(n) + rest);
    PutHolds(before + Put32(d), n, rest);
    assert before + Put32(d) + (Put32(n) + rest) == buf && before + Put32(d) + Put32(n) + rest == buf;
  }

  lemma {:induction false} LensBytesAt(order: seq<int>, lens: map<int, int>, k: nat)
    requires k < |order| && forall i :: 0 <= i < |order| ==> order[i] in lens
    ensures HoldsLen(LensBytes(order, lens), 8 * k, order[k], lens[order[k]])
  {
    hide Holds32, LenBytes;
    var n := |order| - 1;
    var before, last := LensBytes(order[..n], lens), LenBytes(order[n], lens[order[n]]);
    if k == n {
      LenBytesAt(before, order[n], lens[order[n]], []);
      assert before + last + [] == LensBytes(order, lens);
    } else {
      LensBytesAt(order[..n], lens, k);
      HoldsWithin([], before, last, 8 * k, order[k]);
      HoldsWithin([], before, last, 8 * k + 4, lens[order[k]]);
      assert [] + before + last == LensBytes(order, lens);
    }
  }

  lemma HeaderAt(m: Metadata, rest: seq<Byte>)
    ensures var buf := Header(m) + rest;
      Holds32(buf, 0, |m.terms|) && Holds32(buf, 4, |m.extents|) && Holds32(buf, 8, |m.lens|)
  {
    hide Holds32, Put32;
    var a, b, c := Put32(|m.terms|), Put32(|m.extents|), Put32(|m.lens|);
    var buf := Header(m) + rest;
    PutHolds([], |m.terms|, b + c + rest);
    PutHolds(a, |m.extents|, c + rest);
    PutHolds(a + b, |m.lens|, rest);
    assert [] + a + (b + c + rest) == buf && a + b + (c + rest) == buf && a + b + c + rest == buf;
  }

  lemma TermsAt(before: seq<Byte>, terms: seq<int>, rest: seq<Byte>)
    ensures forall k :: 0 <= k < |terms| ==> Holds32(before + TermBytes(terms) + rest, |before| + 4 * k, terms[k])
  {
    hide Holds32;
    forall k | 0 <= k < |terms| ensures Holds32(before + TermBytes(terms) + rest, |before| + 4 * k, terms[k]) {
      TermBytesAt(terms, k);
      HoldsWithin(before, TermBytes(terms), rest, 4 * k, terms[k]);
    }
  }

  lemma ExtentsAt(before: seq<Byte>, order: seq<int>, extents: map<int, Extent>, rest: seq<Byte>)
    requires forall i :: 0 <= i < |order| ==> order[i] in extents
    ensures forall k :: 0 <= k < |order| ==>
      HoldsExtent(before + ExtentsBytes(order, extents) + rest, |before| + 16 * k, order[k], extents[order[k]])
  {
    hide HoldsExtent;
    var part := ExtentsBytes(order, extents);
    forall k | 0 <= k < |order| ensures HoldsExtent(before + part + rest, |before| + 16 * k, order[k], extents[order[k]]) {
      ExtentsBytesAt(order, extents, k);
      HoldsExtentWithin(before, part, rest, 16 * k, order[k], extents[order[k]]);
    }
  }

  lemma LensAt(before: seq<Byte>, order: seq<int>, lens: map<int, int>, rest: seq<Byte>)
    requires forall i :: 0 <= i < |order| ==> order[i] in lens
    ensures forall k :: 0 <= k < |order| ==>
      HoldsLen(before + LensBytes(order, lens) + rest, |before| + 8 * k, order[k], lens[order[k]])
  {
    hide Holds32;
    var part := LensBytes(order, lens);
    forall k | 0 <= k < |order| ensures HoldsLen(before + part + rest, |before| + 8 * k, order[k], lens[order[k]]) {
      LensBytesAt(order, lens, k);
      HoldsWithin(before, part, rest, 8 * k, order[k]);
      HoldsWithin(before, part, rest, 8 * k + 4, lens[order[k]]);
    }
  }

  lemma Regrouped(h: seq<Byte>, a: seq<Byte>, b: seq<Byte>, c: seq<Byte>, d: seq<Byte>)
    ensures var buf := h + a + b + c + d;
      buf == h + (a + b + c + d) && buf == h + a + (b + c + d) && buf == h + a + b + (c + d) && buf[|buf| - |d|..] == d
  {}

  /** Where each number of the metadata stands: three counts, the terms, each term with its extent, each
    * document with its length, and the average in the last eight bytes. */
  lemma LayoutAt(m: Metadata, extentOrder: seq<int>, lenOrder: seq<int>)
    requires IsOrder(extentOrder, m.extents.Keys) && IsOrder(lenOrder, m.lens.Keys) && |m.average| == 8
    ensures |extentOrder| == |m.extents| && forall k :: 0 <= k < |extentOrder| ==> extentOrder[k] in m.extents
    ensures |lenOrder| == |m.lens| && forall k :: 0 <= k < |lenOrder| ==> lenOrder[k] in m.lens
    ensures var buf, T, E := Layout(m, extentOrder, lenOrder), |m.terms|, |m.extents|;
      && |buf| == 12 + 4 * T + 16 * E + 8 * |m.lens| + 8
      && Holds32(buf, 0, T) && Holds32(buf, 4, E) && Holds32(buf, 8, |m.lens|)
      && (forall k :: 0 <= k < T ==> Holds32(buf, 12 + 4 * k, m.terms[k]))
      && (forall k :: 0 <= k < E ==> HoldsExtent(buf, 12 + 4 * T + 16 * k, extentOrder[k], m.extents[extentOrder[k]]))
      && (forall k :: 0 <= k < |m.lens| ==> HoldsLen(buf, 12 + 4 * T + 16 * E + 8 * k, lenOrder[k], m.lens[lenOrder[k]]))
      && buf[|buf| - 8..] == m.average
  {
    hide Holds32, HoldsExtent, HoldsLen, Header, TermBytes, ExtentsBytes, LensBytes, IsOrder;
    OrderIsWithin(extentOrder, m.extents.Keys);
    OrderIsWithin(lenOrder, m.lens.Keys);
    OrderLength(extentOrder, m.extents.Keys);
    OrderLength(lenOrder, m.lens.Keys);
    assert |m.extents.Keys| == |m.extents| && |m.lens.Keys| == |m.lens|;
    var h, a, b, c := Header(m), TermBytes(m.terms), ExtentsBytes(extentOrder, m.extents), LensBytes(lenOrder, m.lens);
    Regrouped(h, a, b, c, m.average);
    HeaderAt(m, a + b + c + m.average);
    TermsAt(h, m.terms, b + c + m.average);
    ExtentsAt(h + a, extentOrder, m.extents, c + m.average);
    LensAt(h + a + b, lenOrder, m.lens, m.average);
  }

  ghost function TakeTerms(bytes: seq<Byte>, n: nat): (terms: seq<int>)
    requires |bytes| >= 4 * n
    ensures |terms| == n && forall k :: 0 <= k < n ==> Fits32(terms[k])
  {
    if n == 0 then [] else TakeTerms(bytes, n - 1) + [Get32(bytes[4 * (n - 1)..])]
  }

  ghost function TakeExtents(bytes: seq<Byte>, n: nat): (m: map<int, Extent>)
    requires |bytes| >= 16 * n
    ensures |m| <= n && forall t :: t in m ==> Fits32(t) && ExtentFits(m[t])
  {
    if n == 0 then map[] else
      var b := bytes[16 * (n - 1)..];
      TakeExtents(bytes, n - 1)[Get32(b) := Extent(Get32(b[12..]), Get32(b[8..]), Get32(b[4..]))]
  }

  ghost function TakeLens(bytes: seq<Byte>, n: nat): (m: map<int, int>)
    requires |bytes| >= 8 * n
    ensures |m| <= n && forall d :: d in m ==> Fits32(d) && Fits32(m[d])
  {
    if n == 0 then map[] else
      var b := bytes[8 * (n - 1)..];
      TakeLens(bytes, n - 1)[Get32(b) := Get32(b[4..])]
  }

  function NeededSize(terms: nat, extents: nat, lens: nat): nat {
    12 + 4 * terms + 16 * extents + 8 * lens + 8
  }

  /** The metadata in a buffer; a buffer that is too short panics. */
  ghost function Parsed(buf: seq<Byte>): Option<Metadata> {
    if |buf| < 12 then None else
      var t, p, d := Get32(buf), Get32(buf[4..]), Get32(buf[8..]);
      if |buf| < NeededSize(t, p, d) then None else
        var afterTerms := 12 + 4 * t;
        var afterExtents := afterTerms + 16 * p;
        var afterLens := afterExtents + 8 * d;
        Some(Metadata(TakeTerms(buf[12..], t), TakeExtents(buf[afterTerms..], p), TakeLens(buf[afterExtents..], d), buf[afterLens..afterLens + 8]))
  }

  // ---- the round trip

  lemma GetPut(v: int, rest: seq<Byte>)
    requires Fits32(v)
    ensures Get32(Put32(v) + rest) == v && (Put32(v) + rest)[4..] == rest
  {
    GetUndoesPut(v, rest);
  }

  lemma {:induction false} TermsComeBack(terms: seq<int>, rest: seq<Byte>)
    requires forall k :: 0 <= k < |terms| ==> Fits32(terms[k])
    ensures TakeTerms(TermBytes(terms) + rest, |terms|) == terms
    decreases |terms|
  {
    hide Put32, Get32;
    if terms != [] {
      var n := |terms| - 1;
      assert TermBytes(terms) + rest == TermBytes(terms[..n]) + (Put32(terms[n]) + rest);
      TermsComeBack(terms[..n], Put32(terms[n]) + rest);
      assert (TermBytes(terms) + rest)[4 * n..] == Put32(terms[n]) + rest;
      GetPut(terms[n], rest);
      assert terms == terms[..n] + [terms[n]];
    }
  }

  lemma {:induction false} ExtentComesBack(t: int, e: Extent, rest: seq<Byte>)
    requires Fits32(t) && ExtentFits(e)
    ensures var b := ExtentBytes(t, e) + rest;
      Get32(b) == t && Extent(Get32(b[12..]), Get32(b[8..]), Get32(b[4..])) == e
  {
    hide Put32, Get32;
    var b := ExtentBytes(t, e) + rest;
    assert b == Put32(t) + (Put32(e.length) + (Put32(e.count) + (Put32(e.start) + rest)));
    GetPut(t, Put32(e.length) + (Put32(e.count) + (Put32(e.start) + rest)));
    GetPut(e.length, Put32(e.count) + (Put32(e.start) + rest));
    GetPut(e.count, Put32(e.start) + rest);
    GetPut(e.start, rest);
    assert b[8..] == b[4..][4..] && b[12..] == b[8..][4..];
  }

  /** The entries of a map with the given keys. */
  ghost function Only<V>(order: seq<int>, m: map<int, V>): (r: map<int, V>)
    requires forall k :: 0 <= k < |order| ==> order[k] in m
    ensures order == [] ==> r == map[]
  {
    map t | t in order :: m[t]
  }

  lemma OnlyOneMore<V>(order: seq<int>, m: map<int, V>)
    requires order != [] && forall k :: 0 <= k < |order| ==> order[k] in m
    ensures var n := |order| - 1;
      Only(order, m) == Only(order[..n], m)[order[n] := m[order[n]]]
  {
    var n := |order| - 1;
    assert order == order[..n] + [order[n]];
  }

  lemma {:induction false} ExtentsComeBack(order: seq<int>, extents: map<int, Extent>, rest: seq<Byte>)
    requires forall k :: 0 <= k < |order| ==> order[k] in extents && Fits32(order[k]) && ExtentFits(extents[order[k]])
    ensures TakeExtents(ExtentsBytes(order, extents) + rest, |order|) == Only(order, extents)
    decreases |order|
  {
    hide Put32, Get32, ExtentBytes, Only;
    if order != [] {
      var n := |order| - 1;
      var t := order[n];
      var entry := ExtentBytes(t, extents[t]);
      assert ExtentsBytes(order, extents) + rest == ExtentsBytes(order[..n], extents) + (entry + rest);
      ExtentsComeBack(order[..n], extents, entry + rest);
      assert (ExtentsBytes(order, extents) + rest)[16 * n..] == entry + rest;
      ExtentComesBack(t, extents[t], rest);
      OnlyOneMore(order, extents);
    }
  }

  lemma {:induction false} LensComeBack(order: seq<int>, lens: map<int, int>, rest: seq<Byte>)
    requires forall k :: 0 <= k < |order| ==> order[k] in lens && Fits32(order[k]) && Fits32(lens[order[k]])
    ensures TakeLens(LensBytes(order, lens) + rest, |order|) == Only(order, lens)
    decreases |order|
  {
    hide Put32, Get32, Only;
    if order != [] {
      var n := |order| - 1;
      var d := order[n];
      var entry := Put32(d) + (Put32(lens[d]) + rest);
      assert LensBytes(order, lens) + rest == LensBytes(order[..n], lens) + entry;
      LensComeBack(order[..n], lens, entry);
      assert (LensBytes(order, lens) + rest)[8 * n..] == entry;
      GetPut(d, Put32(lens[d]) + rest);
      GetPut(lens[d], rest);
      OnlyOneMore(order, lens);
    }
  }

  lemma OrderCovers<V>(order: seq<int>, m: map<int, V>)
    requires IsOrder(order, m.Keys)
    ensures |order| == |m| && forall k :: 0 <= k < |order| ==> order[k] in m
    ensures Only(order, m) == m
  {
    OrderIsWithin(order, m.Keys);
    OrderLength(order, m.Keys);
    assert |m| == |m.Keys|;
    forall t ensures t in order <==> t in m {
      assert t in m.Keys <==> t in (set k | k in order);
    }
  }

  lemma {:induction false} HeaderComesBack(m: Metadata, rest: seq<Byte>)
    requires Fits32(|m.terms|) && Fits32(|m.extents|) && Fits32(|m.lens|)
    ensures var b := Header(m) + rest;
      Get32(b) == |m.terms| && Get32(b[4..]) == |m.extents| && Get32(b[8..]) == |m.lens| && b[12..] == rest
  {
    hide Put32, Get32;
    var b := Header(m) + rest;
    assert b == Put32(|m.terms|) + (Put32(|m.extents|) + (Put32(|m.lens|) + rest));
    GetPut(|m.terms|, Put32(|m.extents|) + (Put32(|m.lens|) + rest));
    GetPut(|m.extents|, Put32(|m.lens|) + rest);
    GetPut(|m.lens|, rest);
    assert b[8..] == b[4..][4..] && b[12..] == b[8..][4..];
  }

  lemma Pieces(h: seq<Byte>, t: seq<Byte>, e: seq<Byte>, l: seq<Byte>, a: seq<Byte>)
    ensures h + t + e + l + a == h + (t + (e + (l + a)))
    ensures (h + t + e + l + a)[|h|..] == t + (e + (l + a))
    ensures (h + t + e + l + a)[|h| + |t|..] == e + (l + a)
    ensures (h + t + e + l + a)[|h| + |t| + |e|..] == l + a
    ensures (h + t + e + l + a)[|h| + |t| + |e| + |l|..][..|a|] == a
  {}

  lemma {:induction false} ParsedFrom(buf: seq<Byte>, m: Metadata)
    requires |buf| == NeededSize(|m.terms|, |m.extents|, |m.lens|)
    requires Get32(buf) == |m.terms| && Get32(buf[4..]) == |m.extents| && Get32(buf[8..]) == |m.lens|
    requires TakeTerms(buf[12..], |m.terms|) == m.terms
    requires TakeExtents(buf[12 + 4 * |m.terms|..], |m.extents|) == m.extents
    requires TakeLens(buf[12 + 4 * |m.terms| + 16 * |m.extents|..], |m.lens|) == m.lens
    requires buf[12 + 4 * |m.terms| + 16 * |m.extents| + 8 * |m.lens|..][..8] == m.average
    ensures Parsed(buf) == Some(m)
  {
    hide Get32, TakeTerms, TakeExtents, TakeLens;
    var end := 12 + 4 * |m.terms| + 16 * |m.extents| + 8 * |m.lens|;
    assert buf[end..end + 8] == buf[end..][..8];
  }

  /** What follows the header, the terms and the extents in a layout. */
  lemma LayoutPieces(m: Metadata, extentOrder: seq<int>, lenOrder: seq<int>)
    requires IsOrder(extentOrder, m.extents.Keys) && IsOrder(lenOrder, m.lens.Keys) && |m.average| == 8
    ensures (forall k :: 0 <= k < |extentOrder| ==> extentOrder[k] in m.extents) && |extentOrder| == |m.extents|
    ensures (forall k :: 0 <= k < |lenOrder| ==> lenOrder[k] in m.lens) && |lenOrder| == |m.lens|
    ensures var extents, lens := ExtentsBytes(extentOrder, m.extents), LensBytes(lenOrder, m.lens);
      var buf := Layout(m, extentOrder, lenOrder);
      && |buf| == NeededSize(|m.terms|, |m.extents|, |m.lens|)
      && buf == Header(m) + (TermBytes(m.terms) + (extents + (lens + m.average)))
      && buf[12..] == TermBytes(m.terms) + (extents + (lens + m.average))
      && buf[12 + 4 * |m.terms|..] == extents + (lens + m.average)
      && buf[12 + 4 * |m.terms| + 16 * |m.extents|..] == lens + m.average
      && buf[12 + 4 * |m.terms| + 16 * |m.extents| + 8 * |m.lens|..][..8] == m.average
  {
    hide Put32, TermBytes, ExtentsBytes, LensBytes, IsOrder;
    OrderCovers(extentOrder, m.extents);
    OrderCovers(lenOrder, m.lens);
    Pieces(Header(m), TermBytes(m.terms), ExtentsBytes(extentOrder, m.extents), LensBytes(lenOrder, m.lens), m.average);
  }

  lemma {:induction false} FittingComesBack(m: Metadata, extentOrder: seq<int>, lenOrder: seq<int>)
    requires IsOrder(extentOrder, m.extents.Keys) && IsOrder(lenOrder, m.lens.Keys) && |m.average| == 8
    requires MetadataFits(m)
    ensures Parsed(Layout(m, extentOrder, lenOrder)) == Some(m)
  {
    hide Parsed, Put32, Get32, TakeTerms, TakeExtents, TakeLens, TermBytes, ExtentsBytes, LensBytes, IsOrder, Header, Only,
      Layout;
    OrderCovers(extentOrder, m.extents);
    OrderCovers(lenOrder, m.lens);
    LayoutPieces(m, extentOrder, lenOrder);
    var afterExtents := LensBytes(lenOrder, m.lens) + m.average;
    var afterTerms := ExtentsBytes(extentOrder, m.extents) + afterExtents;
    HeaderComesBack(m, TermBytes(m.terms) + afterTerms);
    TermsComeBack(m.terms, afterTerms);
    ExtentsComeBack(extentOrder, m.extents, afterExtents);
    LensComeBack(lenOrder, m.lens, m.average);
    ParsedFrom(Layout(m, extentOrder, lenOrder), m);
  }

  lemma ParsedFits(buf: seq<Byte>)
    requires Parsed(buf).Some?
    ensures MetadataFits(Parsed(buf).value)
  {
    hide TakeTerms, TakeExtents, TakeLens, Get32;
  }

  /** Reading undoes writing, for every order of iteration, exactly when all numbers are 32-bit ones. */
  lemma {:induction false} MetadataRoundTrip(m: Metadata, extentOrder: seq<int>, lenOrder: seq<int>)
    requires IsOrder(extentOrder, m.extents.Keys) && IsOrder(lenOrder, m.lens.Keys) && |m.average| == 8
    ensures Parsed(Layout(m, extentOrder, lenOrder)) == Some(m) <==> MetadataFits(m)
  {
    hide Parsed, Layout, MetadataFits, IsOrder;
    if MetadataFits(m) {
      FittingComesBack(m, extentOrder, lenOrder);
    } else if Parsed(Layout(m, extentOrder, lenOrder)) == Some(m) {
      ParsedFits(Layout(m, extentOrder, lenOrder));
    }
  }

  // ---- the index file

  /** Seek and Read: n bytes from pos on; a read that starts at the end of the file fails, one that
    * runs into the end leaves the rest of the buffer zero. */
  function ReadAt(file: seq<Byte>, pos: nat, n: nat): Option<seq<Byte>> {
    if n == 0 then Some([])
    else if pos >= |file| then None
    else if pos + n <= |file| then Some(file[pos..pos + n])
    else Some(file[pos..] + seq(pos + n - |file|, _ => 0))
  }

  /** The extent lies within the file and holds an encoded list of the stated length. */
  ghost predicate HoldsList(file: seq<Byte>, e: Extent, list: seq<Int64>) {
    && 0 <= e.start && 0 <= e.length && e.start + e.length <= |file|
    && file[e.start..e.start + e.length] == Encoded(list)
    && e.count == |list|
  }

  /** The extents of the terms, in the order of the terms, tile the file from position base on. */
  ghost predicate Tiles(terms: seq<int>, extents: map<int, Extent>, base: int, end: int) {
    && (forall k :: 0 <= k < |terms| ==> terms[k] in extents)
    && (if terms == [] then base == end else
          var e := extents[terms[|terms| - 1]];
          Tiles(terms[..|terms| - 1], extents, base, e.start) && e.start + e.length == end && e.length >= 0)
  }

  lemma {:induction false} TilesGrow(terms: seq<int>, extents: map<int, Extent>, base: int, end: int, t: int, e: Extent)
    requires Tiles(terms, extents, base, end) && t !in terms
    ensures Tiles(terms, extents[t := e], base, end)
  {
    if terms != [] {
      TilesGrow(terms[..|terms| - 1], extents, base, extents[terms[|terms| - 1]].start, t, e);
    }
  }

  lemma {:induction false} TilesWithin(terms: seq<int>, extents: map<int, Extent>, base: int, end: int, k: nat)
    requires Tiles(terms, extents, base, end)
    ensures base <= end
    ensures k < |terms| ==> base <= extents[terms[k]].start <= extents[terms[k]].start + extents[terms[k]].length <= end
  {
    if terms != [] {
      var n := |terms| - 1;
      TilesWithin(terms[..n], extents, base, extents[terms[n]].start, k);
      if k < n { assert terms[..n][k] == terms[k]; }
    }
  }

  /** Extents of different terms do not overlap. */
  lemma {:induction false} ExtentsAreDisjoint(terms: seq<int>, extents: map<int, Extent>, base: int, end: int, i: nat,
                                              j: nat)
    requires Tiles(terms, extents, base, end) && i < j < |terms|
    ensures extents[terms[i]].start + extents[terms[i]].length <= extents[terms[j]].start
  {
    var n := |terms| - 1;
    var start := extents[terms[n]].start;
    if j == n {
      TilesWithin(terms[..n], extents, base, start, i);
    } else {
      ExtentsAreDisjoint(terms[..n], extents, base, start, i, j);
    }
    assert terms[..n][i] == terms[i];
  }

  /** Every byte of the region belongs to some term's extent. */
  lemma {:induction false} ExtentsCover(terms: seq<int>, extents: map<int, Extent>, base: int, end: int,
                                        b: int) returns (k: nat)
    requires Tiles(terms, extents, base, end) && base <= b < end
    ensures k < |terms| && extents[terms[k]].start <= b < extents[terms[k]].start + extents[terms[k]].length
  {
    var n := |terms| - 1;
    k := n;
    if b < extents[terms[n]].start {
      k := ExtentsCover(terms[..n], extents, base, extents[terms[n]].start, b);
      assert terms[..n][k] == terms[k];
    }
  }

  class InvertedIndex {
    var terms: seq<int>
    var postingMetadata: map<int, Extent>
    var lenFieldInDoc: map<int, int>
    var averageFieldLength: seq<Byte>
    var currTermPosition: nat
    var indexFile: seq<Byte>
    /** The list last appended for each term, as any reader should see it. */
    ghost var Contents: map<int, seq<Int64>>
    /** The length of the file before the first list was appended. */
    ghost var base: nat

    /** NewInvertedIndex and OpenWriter, which keeps what the file holds already. */
    constructor (file: seq<Byte>)
      ensures Valid() && Contents == map[] && terms == [] && indexFile == file
      ensures Tiled() && base == |file|
      ensures lenFieldInDoc == map[] && currTermPosition == 0
    {
      terms, postingMetadata, lenFieldInDoc := [], map[], map[];
      averageFieldLength := [0, 0, 0, 0, 0, 0, 0, 0];
      currTermPosition, indexFile, Contents, base := 0, file, map[], |file|;
    }

    /** SetLenFieldInDoc, lines 49-51. */
    method SetLenFieldInDoc(lenFieldInDoc: map<int, int>)
      requires Valid()
      modifies this`lenFieldInDoc
      ensures Valid() && this.lenFieldInDoc == lenFieldInDoc && (old(Tiled()) ==> Tiled())
    {
      hide HoldsList, Tiles;
      this.lenFieldInDoc := lenFieldInDoc;
    }

    ghost predicate Valid()
      reads this
    {
      && |averageFieldLength| == 8
      && postingMetadata.Keys == Contents.Keys == (set t | t in terms)
      && forall t :: t in Contents ==> HoldsList(indexFile, postingMetadata[t], Contents[t])
    }

    /** The lists lie one after the other, in the order of the terms, from base to the end of the file. */
    ghost predicate Tiled()
      reads this
    {
      NoDup(terms) && Tiles(terms, postingMetadata, base, |indexFile|)
    }

    /** AppendPostingList, lines 195-212. A second list for a term replaces the first. */
    method AppendPostingList(termID: int, postingList: seq<Int64>)
      requires Valid()
      modifies this
      ensures Valid() && terms == old(terms) + [termID]
      ensures Contents == old(Contents)[termID := postingList]
      ensures lenFieldInDoc == old(lenFieldInDoc) && currTermPosition == old(currTermPosition)
      ensures indexFile == old(indexFile) + Encoded(postingList)
      ensures base == old(base) && (old(Tiled()) && termID !in old(terms) ==> Tiled())
    {
      hide Encoded, HoldsList, Tiles, NoDup;
      var encoded := EncodePostingsList(postingList);
      var startPosition := |indexFile|;
      var e := Extent(startPosition, |postingList|, |encoded|);
      forall t | t in Contents ensures HoldsList(indexFile + encoded, postingMetadata[t], Contents[t]) {
        StillHolds(indexFile, postingMetadata[t], Contents[t], encoded);
      }
      NewHolds(indexFile, postingList);
      if Tiled() && termID !in terms {
        AppendTiles(terms, postingMetadata, base, |indexFile|, termID, e);
      }
      indexFile := indexFile + encoded;
      terms := terms + [termID];
      postingMetadata := postingMetadata[termID := e];
      Contents := Contents[termID := postingList];
    }

    /** GetPostingList, lines 178-193. */
    method GetPostingList(termID: int) returns (answer: Answer<seq<Int64>>)
      requires Valid()
      ensures answer == Found(if termID in Contents then Contents[termID] else [])
    {
      if termID !in postingMetadata {
        return Found([]);
      }
      answer := ReadList(termID);
    }

    /** The read that GetPostingList and the iterator share. */
    method ReadList(termID: int) returns (answer: Answer<seq<Int64>>)
      requires Valid() && termID in postingMetadata
      ensures answer == Found(Contents[termID])
    {
      hide Encoded;
      var e := postingMetadata[termID];
      assert HoldsList(indexFile, e, Contents[termID]);
      var buf := ReadAt(indexFile, e.start, e.length);
      if buf.None? {
        return ReadError;
      }
      DecodeUndoesEncode(Contents[termID]);
      var decoding := DecodePostingsList(buf.value);
      answer := match decoding case Decoded(list) => Found(list) case Crash => Panic;
    }

    /** One step of IterateInvertedIndex, lines 249-275: the terms in the order of appending. */
    method Next() returns (item: Option<IndexItem>)
      requires Valid()
      modifies this`currTermPosition
      ensures Valid()
      ensures old(currTermPosition) >= |terms| ==> item == None && currTermPosition == old(currTermPosition)
      ensures old(currTermPosition) < |terms| ==>
        currTermPosition == old(currTermPosition) + 1 && terms[old(currTermPosition)] in Contents
        && item == Some(IndexItem(terms[old(currTermPosition)], |terms|, Contents[terms[old(currTermPosition)]]))
    {
      if currTermPosition >= |terms| {
        return None;
      }
      var termID := terms[currTermPosition];
      assert termID in postingMetadata.Keys;
      currTermPosition := currTermPosition + 1;
      var answer := ReadList(termID);
      return Some(IndexItem(termID, |terms|, answer.value));
    }

    ghost function Meta(): Metadata
      reads this
    {
      Metadata(terms, postingMetadata, lenFieldInDoc, averageFieldLength)
    }

    /** The loop over the terms, lines 315-320. */
    method PutTerms(buf: array<Byte>, leftPos: nat)
      requires leftPos + 4 * |terms| <= buf.Length
      modifies buf
      ensures buf[..leftPos + 4 * |terms|] == old(buf[..leftPos]) + TermBytes(terms)
    {
      hide Put32;
      ghost var before := buf[..leftPos];
      for k := 0 to |terms|
        invariant buf[..leftPos + 4 * k] == before + TermBytes(terms[..k])
      {
        PutUint32(buf, leftPos + 4 * k, terms[k]);
        assert terms[..k + 1][..k] == terms[..k];
      }
      assert terms[..|terms|] == terms;
    }

    /** The loop over the posting metadata, lines 322-340, in any order. */
    method PutExtents(buf: array<Byte>, leftPos: nat) returns (ghost order: seq<int>)
      requires leftPos + 16 * |postingMetadata| <= buf.Length
      modifies buf
      ensures IsOrder(order, postingMetadata.Keys) && |order| == |postingMetadata|
      ensures forall k :: 0 <= k < |order| ==> order[k] in postingMetadata
      ensures buf[..leftPos + 16 * |postingMetadata|] == old(buf[..leftPos]) + ExtentsBytes(order, postingMetadata)
    {
      hide ExtentBytes, ExtentsBytes, IsOrder, Parted;
      ghost var before := buf[..leftPos];
      var todo, pos := postingMetadata.Keys, leftPos;
      ghost var done, written := {}, ExtentsBytes([], postingMetadata);
      order := [];
      NoOrder();
      PartStarts(todo);
      while todo != {}
        invariant Parted(done, todo, postingMetadata.Keys) && IsOrder(order, done)
        invariant |order| + |todo| == |postingMetadata| && pos == leftPos + 16 * |order|
        invariant forall k :: 0 <= k < |order| ==> order[k] in postingMetadata
        invariant written == ExtentsBytes(order, postingMetadata) && buf[..pos] == before + written
        decreases |todo|
      {
        var term := AnyOf(todo);
        PartMoves(done, todo, postingMetadata.Keys, term);
        PutExtent(buf, pos, term, postingMetadata[term]);
        OrderGrows(order, done, term);
        ExtentsBytesGrow(order, postingMetadata, term);
        Associate(before, written, ExtentBytes(term, postingMetadata[term]));
        written := written + ExtentBytes(term, postingMetadata[term]);
        pos, order, done, todo := pos + 16, order + [term], done + {term}, todo - {term};
      }
      PartEnds(done, postingMetadata.Keys);
    }

    /** The loop over the field lengths, lines 342-352, in any order. */
    method PutLens(buf: array<Byte>, leftPos: nat) returns (ghost order: seq<int>)
      requires leftPos + 8 * |lenFieldInDoc| <= buf.Length
      modifies buf
      ensures IsOrder(order, lenFieldInDoc.Keys) && |order| == |lenFieldInDoc|
      ensures forall k :: 0 <= k < |order| ==> order[k] in lenFieldInDoc
      ensures buf[..leftPos + 8 * |lenFieldInDoc|] == old(buf[..leftPos]) + LensBytes(order, lenFieldInDoc)
    {
      hide LenBytes, LensBytes, IsOrder, Parted;
      ghost var before := buf[..leftPos];
      var todo, pos := lenFieldInDoc.Keys, leftPos;
      ghost var done, written := {}, LensBytes([], lenFieldInDoc);
      order := [];
      NoOrder();
      PartStarts(todo);
      while todo != {}
        invariant Parted(done, todo, lenFieldInDoc.Keys) && IsOrder(order, done)
        invariant |order| + |todo| == |lenFieldInDoc| && pos == leftPos + 8 * |order|
        invariant forall k :: 0 <= k < |order| ==> order[k] in lenFieldInDoc
        invariant written == LensBytes(order, lenFieldInDoc) && buf[..pos] == before + written
        decreases |todo|
      {
        var docID := AnyOf(todo);
        PartMoves(done, todo, lenFieldInDoc.Keys, docID);
        PutLen(buf, pos, docID, lenFieldInDoc[docID]);
        OrderGrows(order, done, docID);
        LensBytesGrow(order, lenFieldInDoc, docID);
        Associate(before, written, LenBytes(docID, lenFieldInDoc[docID]));
        written := written + LenBytes(docID, lenFieldInDoc[docID]);
        pos, order, done, todo := pos + 8, order + [docID], done + {docID}, todo - {docID};
      }
      PartEnds(done, lenFieldInDoc.Keys);
    }

    /** The body of SerializeMetadata but for the update of the average. */
    method Fill(bytes: array<Byte>, average: seq<Byte>) returns (ghost extentOrder: seq<int>, ghost lenOrder: seq<int>)
      requires |average| == 8 && bytes.Length == NeededSize(|terms|, |postingMetadata|, |lenFieldInDoc|)
      modifies bytes
      ensures IsOrder(extentOrder, postingMetadata.Keys) && IsOrder(lenOrder, lenFieldInDoc.Keys)
      ensures bytes[..] == Layout(Metadata(terms, postingMetadata, lenFieldInDoc, average), extentOrder, lenOrder)
    {
      hide Put32, TermBytes, ExtentsBytes, LensBytes, IsOrder;
      PutUint32(bytes, 0, |terms|);
      PutUint32(bytes, 4, |postingMetadata|);
      PutUint32(bytes, 8, |lenFieldInDoc|);
      ghost var m := Metadata(terms, postingMetadata, lenFieldInDoc, average);
      assert bytes[..12] == Header(m);
      var leftPos := 12;
      PutTerms(bytes, leftPos);
      leftPos := leftPos + 4 * |terms|;
      extentOrder := PutExtents(bytes, leftPos);
      leftPos := leftPos + 16 * |postingMetadata|;
      lenOrder := PutLens(bytes, leftPos);
      leftPos := leftPos + 8 * |lenFieldInDoc|;
      PutBytes(bytes, leftPos, average);
      assert bytes[..] == bytes[..leftPos + 8];
    }

    /** SerializeMetadata, lines 301-359. The bits of the new average are given. */
    method SerializeMetadata(average: seq<Byte>)
    returns (buf: seq<Byte>, ghost extentOrder: seq<int>, ghost lenOrder: seq<int>)
      requires Valid() && |average| == 8
      modifies this`averageFieldLength
      ensures Valid() && averageFieldLength == average
      ensures IsOrder(extentOrder, postingMetadata.Keys) && IsOrder(lenOrder, lenFieldInDoc.Keys)
      ensures buf == Layout(Meta(), extentOrder, lenOrder)
      ensures |buf| == NeededSize(|terms|, |postingMetadata|, |lenFieldInDoc|)
    {
      hide Layout, HoldsList, IsOrder;
      var bytes := new Byte[NeededSize(|terms|, |postingMetadata|, |lenFieldInDoc|)](_ => 0);
      extentOrder, lenOrder := Fill(bytes, average);
      averageFieldLength := average;
      buf := bytes[..];
    }

    /** The loop over the terms, lines 378-383. */
    method GetTerms(buf: seq<Byte>, from: nat, n: nat)
      requires |buf| >= from + 4 * n
      modifies this`terms
      ensures terms == TakeTerms(buf[from..], n)
    {
      hide Get32, Fits32;
      terms := [];
      for i := 0 to n
        invariant terms == TakeTerms(buf[from..], i)
      {
        var leftPos := from + 4 * i;
        assert buf[from..][4 * i..] == buf[leftPos..];
        terms := terms + [Get32(buf[leftPos..])];
      }
    }

    /** The loop over the posting metadata, lines 385-400. */
    method GetExtents(buf: seq<Byte>, from: nat, n: nat)
      requires |buf| >= from + 16 * n
      modifies this`postingMetadata
      ensures postingMetadata == TakeExtents(buf[from..], n)
    {
      hide Get32, Fits32, TakeExtents, ExtentFits;
      postingMetadata := map[];
      assert TakeExtents(buf[from..], 0) == map[] by { NoExtents(buf[from..]); }
      for i := 0 to n
        invariant postingMetadata == TakeExtents(buf[from..], i)
      {
        var leftPos := from + 16 * i;
        ghost var b := buf[leftPos..];
        assert b[4..] == buf[leftPos + 4..] && b[8..] == buf[leftPos + 8..] && b[12..] == buf[leftPos + 12..];
        ExtentRead(buf, i, from);
        var term := Get32(buf[leftPos..]);
        var lengthInBytes := Get32(buf[leftPos + 4..]);
        var lenPostingList := Get32(buf[leftPos + 8..]);
        var startPosition := Get32(buf[leftPos + 12..]);
        postingMetadata := postingMetadata[term := Extent(startPosition, lenPostingList, lengthInBytes)];
      }
    }

    /** The loop over the field lengths, lines 402-411. */
    method GetLens(buf: seq<Byte>, from: nat, n: nat)
      requires |buf| >= from + 8 * n
      modifies this`lenFieldInDoc
      ensures lenFieldInDoc == TakeLens(buf[from..], n)
    {
      hide Get32, Fits32;
      lenFieldInDoc := map[];
      for i := 0 to n
        invariant lenFieldInDoc == TakeLens(buf[from..], i)
      {
        var leftPos := from + 8 * i;
        ghost var b := buf[from..][8 * i..];
        assert b == buf[leftPos..] && b[4..] == buf[leftPos + 4..];
        lenFieldInDoc := lenFieldInDoc[Get32(buf[leftPos..]) := Get32(buf[leftPos + 4..])];
      }
    }

    /** DeserializeMetadata, lines 362-414. A slice beyond the end of the buffer panics. The lists that
      * the file holds are given as contents. */
    method DeserializeMetadata(buf: seq<Byte>, ghost contents: map<int, seq<Int64>>) returns (panicked: bool)
      modifies this
      ensures panicked <==> Parsed(buf) == None
      ensures !panicked ==> Meta() == Parsed(buf).value
      ensures Contents == contents && indexFile == old(indexFile) && currTermPosition == old(currTermPosition)
    {
      hide Get32, Fits32, TakeTerms, TakeExtents, TakeLens;
      Contents := contents;
      if |buf| < 12 {
        return true;
      }
      var termCount, extentCount, lenCount := Get32(buf), Get32(buf[4..]), Get32(buf[8..]);
      if |buf| < NeededSize(termCount, extentCount, lenCount) {
        return true;
      }
      var leftPos := 12;
      GetTerms(buf, leftPos, termCount);
      leftPos := leftPos + 4 * termCount;
      GetExtents(buf, leftPos, extentCount);
      leftPos := leftPos + 16 * extentCount;
      GetLens(buf, leftPos, lenCount);
      leftPos := leftPos + 8 * lenCount;
      averageFieldLength := buf[leftPos..leftPos + 8];
      return false;
    }
  }

  lemma ExtentsBytesGrow(order: seq<int>, extents: map<int, Extent>, t: int)
    requires t in extents && forall k :: 0 <= k < |order| ==> order[k] in extents
    ensures ExtentsBytes(order + [t], extents) == ExtentsBytes(order, extents) + ExtentBytes(t, extents[t])
  {
    assert (order + [t])[..|order|] == order;
  }

  lemma LensBytesGrow(order: seq<int>, lens: map<int, int>, d: int)
    requires d in lens && forall k :: 0 <= k < |order| ==> order[k] in lens
    ensures LensBytes(order + [d], lens) == LensBytes(order, lens) + LenBytes(d, lens[d])
  {
    assert (order + [d])[..|order|] == order;
  }

  method PutExtent(buf: array<Byte>, pos: nat, term: int, val: Extent)
    requires pos + 16 <= buf.Length
    modifies buf
    ensures buf[..pos + 16] == old(buf[..pos]) + ExtentBytes(term, val)
  {
    hide Put32;
    PutUint32(buf, pos, term);
    PutUint32(buf, pos + 4, val.length);
    PutUint32(buf, pos + 8, val.count);
    PutUint32(buf, pos + 12, val.start);
  }

  method PutLen(buf: array<Byte>, pos: nat, docID: int, termCount: int)
    requires pos + 8 <= buf.Length
    modifies buf
    ensures buf[..pos + 8] == old(buf[..pos]) + LenBytes(docID, termCount)
  {
    hide Put32;
    PutUint32(buf, pos, docID);
    PutUint32(buf, pos + 4, termCount);
  }

  lemma Associate(a: seq<Byte>, b: seq<Byte>, c: seq<Byte>)
    ensures (a + b) + c == a + (b + c)
  {}

  method PutBytes(buf: array<Byte>, pos: nat, bytes: seq<Byte>)
    requires pos + |bytes| <= buf.Length
    modifies buf
    ensures buf[..pos + |bytes|] == old(buf[..pos]) + bytes
  {
    ghost var before := buf[..pos];
    for k := 0 to |bytes|
      invariant buf[..pos + k] == before + bytes[..k]
    {
      buf[pos + k] := bytes[k];
    }
  }

  lemma NoExtents(bytes: seq<Byte>)
    ensures TakeExtents(bytes, 0) == map[]
  {}

  lemma {:induction false} ExtentRead(bytes: seq<Byte>, n: nat, pos: nat)
    requires pos <= |bytes| && |bytes| - pos >= 16 * (n + 1)
    ensures var b := bytes[pos + 16 * n..];
      TakeExtents(bytes[pos..], n + 1) == TakeExtents(bytes[pos..], n)[Get32(b) := Extent(Get32(b[12..]), Get32(b[8..]), Get32(b[4..]))]
  {
    hide Get32, Fits32;
    assert bytes[pos..][16 * n..] == bytes[pos + 16 * n..];
  }

  /** PutUint32 of encoding/binary. */
  method PutUint32(buf: array<Byte>, pos: nat, v: int)
    requires pos + 4 <= buf.Length
    modifies buf
    ensures buf[..pos] == old(buf[..pos])
    ensures buf[..pos + 4] == old(buf[..pos]) + Put32(v)
  {
    var u := v % TWO_TO_THE_32;
    buf[pos], buf[pos + 1], buf[pos + 2], buf[pos + 3] := u % 256, u / 256 % 256, u / 65536 % 256, u / 16777216;
  }

  /** A set of keys while it is being iterated. */
  ghost predicate Parted(done: set<int>, todo: set<int>, keys: set<int>) {
    done !! todo && done + todo == keys
  }

  lemma PartStarts(keys: set<int>)
    ensures Parted({}, keys, keys)
  {}

  lemma PartMoves(done: set<int>, todo: set<int>, keys: set<int>, k: int)
    requires Parted(done, todo, keys) && k in todo
    ensures Parted(done + {k}, todo - {k}, keys) && k in keys && k !in done
  {}

  lemma PartEnds(done: set<int>, keys: set<int>)
    requires Parted(done, {}, keys)
    ensures done == keys
  {}

  lemma NoOrder()
    ensures IsOrder([], {})
  {}

  lemma OrderGrows(order: seq<int>, keys: set<int>, k: int)
    requires IsOrder(order, keys) && k !in keys
    ensures IsOrder(order + [k], keys + {k})
  {
    var longer := order + [k];
    OrderIsWithin(order, keys);
    forall x ensures x in longer <==> x in keys + {k} {
      assert x in (set y | y in order) <==> x in keys;
    }
    assert (set x | x in longer) == keys + {k};
  }

  lemma StillHolds(file: seq<Byte>, e: Extent, list: seq<Int64>, more: seq<Byte>)
    requires HoldsList(file, e, list)
    ensures HoldsList(file + more, e, list)
  {
    assert (file + more)[e.start..e.start + e.length] == file[e.start..e.start + e.length];
  }

  lemma NewHolds(file: seq<Byte>, list: seq<Int64>)
    ensures HoldsList(file + Encoded(list), Extent(|file|, |list|, |Encoded(list)|), list)
  {}

  lemma AppendTiles(terms: seq<int>, extents: map<int, Extent>, base: int, end: int, t: int, e: Extent)
    requires NoDup(terms) && t !in terms && Tiles(terms, extents, base, end) && e.start == end && e.length >= 0
    ensures NoDup(terms + [t]) && Tiles(terms + [t], extents[t := e], base, end + e.length)
  {
    TilesGrow(terms, extents, base, end, t, e);
    assert (terms + [t])[..|terms|] == terms;
  }

  lemma {:induction false} AByteEach(list: seq<Int64>)
    ensures |Encoded(list)| >= |list|
  {
    if list != [] { AByteEach(list[1..]); }
  }

  /** The metadata fits if the index file is shorter than 2^32 bytes and terms, documents and lengths are
    * 32-bit numbers: positions and counts then are as well. */
  lemma SmallIndexFits(idx: InvertedIndex)
    requires idx.Valid() && Fits32(|idx.indexFile|) && Fits32(|idx.terms|) && Fits32(|idx.lenFieldInDoc|)
    requires NoDup(idx.terms) && forall k :: 0 <= k < |idx.terms| ==> Fits32(idx.terms[k])
    requires forall d :: d in idx.lenFieldInDoc ==> Fits32(d) && Fits32(idx.lenFieldInDoc[d])
    ensures MetadataFits(idx.Meta())
  {
    hide Encoded;
    forall t | t in idx.postingMetadata ensures Fits32(t) && ExtentFits(idx.postingMetadata[t]) {
      assert t in idx.postingMetadata.Keys;
      assert HoldsList(idx.indexFile, idx.postingMetadata[t], idx.Contents[t]);
      AByteEach(idx.Contents[t]);
    }
    AsManyTerms(idx.terms);
    assert |idx.postingMetadata| == |idx.postingMetadata.Keys|;
  }

  lemma {:induction false} AsManyTerms(terms: seq<int>)
    requires NoDup(terms)
    ensures |set t | t in terms| == |terms|
  {
    if terms != [] {
      var n := |terms| - 1;
      AsManyTerms(terms[..n]);
      assert (set t | t in terms) == (set t | t in terms[..n]) + {terms[n]};
    }
  }

  /** Close and OpenReader without their files: an index that is written out and read again answers every
    * lookup as before, if its numbers are 32-bit ones. */
  method Reopen(idx: InvertedIndex, average: seq<Byte>) returns (reader: InvertedIndex)
    requires idx.Valid() && |average| == 8 && MetadataFits(idx.Meta())
    modifies idx`averageFieldLength
    ensures idx.Valid() && idx.averageFieldLength == average
    ensures fresh(reader) && reader.Valid() && reader.Meta() == idx.Meta() && reader.currTermPosition == 0
    ensures reader.Contents == idx.Contents && reader.indexFile == idx.indexFile
  {
    hide Parsed, Layout, IsOrder, HoldsList;
    var buf, extentOrder, lenOrder := idx.SerializeMetadata(average);
    MetadataRoundTrip(idx.Meta(), extentOrder, lenOrder);
    reader := new InvertedIndex(idx.indexFile);
    var panicked := reader.DeserializeMetadata(buf, idx.Contents);
  }
}

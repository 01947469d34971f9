/** The dictionary of terms: pkg/util.go, lines 16-58. */
module IDMaps {

  // ---- the order of strings that sort.Strings uses

  /** Lexicographic order by character code. */
  predicate AtMost(a: string, b: string) {
    a == [] || (b != [] && (a[0] < b[0] || (a[0] == b[0] && AtMost(a[1..], b[1..]))))
  }

  /** The words agree up to the first k characters, and there a has the smaller one. */
  ghost predicate SmallerAt(a: string, b: string, k: nat) {
    k < |a| && k < |b| && a[..k] == b[..k] && a[k] < b[k]
  }

  /** A word comes first exactly if it is a prefix, or has the smaller character where they first differ. */
  lemma {:induction false} AtMostMeaning(a: string, b: string)
    ensures AtMost(a, b) <==> a <= b || exists k :: SmallerAt(a, b, k)
  {
    if a != [] && b != [] {
      if a[0] == b[0] {
        AtMostMeaning(a[1..], b[1..]);
        forall k: nat ensures SmallerAt(a[1..], b[1..], k) <==> SmallerAt(a, b, k + 1) {
          SmallerShifts(a, b, k);
        }
        assert !SmallerAt(a, b, 0);
        if k: nat :| SmallerAt(a, b, k) { assert SmallerAt(a[1..], b[1..], k - 1); }
        if k: nat :| SmallerAt(a[1..], b[1..], k) { assert SmallerAt(a, b, k + 1); }
        assert a == [a[0]] + a[1..] && b == [b[0]] + b[1..];
        assert a <= b <==> a[1..] <= b[1..];
      } else {
        assert SmallerAt(a, b, 0) <==> a[0] < b[0];
        forall k: nat | k > 0 ensures !SmallerAt(a, b, k) {
          if k < |a| && k < |b| { assert a[..k][0] != b[..k][0]; }
        }
      }
    }
  }

  lemma SmallerShifts(a: string, b: string, k: nat)
    requires a != [] && b != [] && a[0] == b[0]
    ensures SmallerAt(a[1..], b[1..], k) <==> SmallerAt(a, b, k + 1)
  {
    if k + 1 <= |a| && k + 1 <= |b| {
      assert a[..k + 1] == [a[0]] + a[1..][..k] && b[..k + 1] == [b[0]] + b[1..][..k];
    }
  }

  lemma {:induction false} AtMostTotal(a: string, b: string)
    ensures AtMost(a, b) || AtMost(b, a)
  {
    if a != [] && b != [] && a[0] == b[0] { AtMostTotal(a[1..], b[1..]); }
  }

  lemma {:induction false} AtMostTransitive(a: string, b: string, c: string)
    requires AtMost(a, b) && AtMost(b, c)
    ensures AtMost(a, c)
  {
    if a != [] && a[0] == b[0] == c[0] { AtMostTransitive(a[1..], b[1..], c[1..]); }
  }

  ghost predicate SortedStrings(s: seq<string>) {
    forall i, j :: 0 <= i < j < |s| ==> AtMost(s[i], s[j])
  }

  function InsertString(x: string, s: seq<string>): (r: seq<string>)
    requires SortedStrings(s)
    ensures SortedStrings(r) && multiset(r) == multiset(s) + multiset{x}
  {
    if s == [] then [x]
    else if AtMost(x, s[0]) then
      Prepended(x, s);
      [x] + s
    else
      AtMostTotal(x, s[0]);
      HeadStays(x, s, InsertString(x, s[1..]));
      [s[0]] + InsertString(x, s[1..])
  }

  lemma Prepended(x: string, s: seq<string>)
    requires SortedStrings(s) && s != [] && AtMost(x, s[0])
    ensures SortedStrings([x] + s)
  {
    forall j | 1 <= j < |s| ensures AtMost(x, s[j]) {
      AtMostTransitive(x, s[0], s[j]);
    }
  }

  lemma HeadStays(x: string, s: seq<string>, rest: seq<string>)
    requires s != [] && SortedStrings(s) && AtMost(s[0], x) && SortedStrings(rest) && multiset(rest) == multiset(s[1..]) + multiset{x}
    ensures SortedStrings([s[0]] + rest) && multiset([s[0]] + rest) == multiset(s) + multiset{x}
  {
    hide AtMost;
    assert s == [s[0]] + s[1..];
    forall k | 0 <= k < |rest| ensures AtMost(s[0], rest[k]) {
      assert rest[k] in multiset(rest);
    }
  }

  /** sort.Strings. */
  function SortStrings(s: seq<string>): (r: seq<string>)
    ensures SortedStrings(r) && multiset(r) == multiset(s)
  {
    if s == [] then [] else
      assert s == [s[0]] + s[1..];
      InsertString(s[0], SortStrings(s[1..]))
  }

  // ---- the map

  class IDMap {
    var StrToID: map<string, int>
    var IDToStr: map<int, string>

    /** The identifiers are 0, 1, 2, … without a gap, and the two maps are inverse to each other. */
    ghost predicate Valid()
      reads this
    {
      && (forall id :: id in IDToStr <==> 0 <= id < |StrToID|)
      && (forall id :: id in IDToStr ==> IDToStr[id] in StrToID && StrToID[IDToStr[id]] == id)
      && (forall s :: s in StrToID ==> StrToID[s] in IDToStr && IDToStr[StrToID[s]] == s)
    }

    constructor ()
      ensures Valid() && StrToID == map[]
    {
      StrToID, IDToStr := map[], map[];
    }

    /** GetID, lines 30-42: a known word keeps its identifier, a new one gets the next. */
    method GetID(str: string) returns (id: int)
      requires Valid()
      modifies this
      ensures Valid() && str in StrToID && StrToID[str] == id
      ensures StrToID == if str in old(StrToID) then old(StrToID) else old(StrToID)[str := |old(StrToID)|]
    {
      if str in StrToID {
        return StrToID[str];
      }
      id := |StrToID|;
      StrToID := StrToID[str := id];
      IDToStr := IDToStr[id := str];
    }

    /** GetStr, lines 44-49: the inverse, and the empty string for an identifier not given out. */
    method GetStr(id: int) returns (str: string)
      requires Valid()
      ensures str == "" || (str in StrToID && StrToID[str] == id)
      ensures str == "" <==> id !in StrToID.Values || ("" in StrToID && StrToID[""] == id)
    {
      if id in IDToStr {
        assert IDToStr[id] in StrToID;
        return IDToStr[id];
      }
      return "";
    }

    /** GetSortedTerms, lines 51-58: every word once, in order. */
    method GetSortedTerms() returns (sorted: seq<string>)
      requires Valid()
      ensures SortedStrings(sorted) && |sorted| == |StrToID|
      ensures forall s :: multiset(sorted)[s] == if s in StrToID then 1 else 0
    {
      var sortedTerms := new string[|StrToID|](_ => "");
      var todo := StrToID.Keys;
      while todo != {}
        invariant todo <= StrToID.Keys
        invariant forall s :: s in StrToID && s !in todo ==> sortedTerms[StrToID[s]] == s
        decreases |todo|
      {
        var term :| term in todo;
        assert term in StrToID.Keys && StrToID[term] in IDToStr;
        sortedTerms[StrToID[term]] := term;
        todo := todo - {term};
      }
      sorted := SortStrings(sortedTerms[..]);
      SameLength(sorted, sortedTerms[..]);
      forall s ensures multiset(sorted)[s] == if s in StrToID then 1 else 0 {
        EachOnce(sortedTerms[..], s);
      }
    }

    lemma SameLength(s: seq<string>, t: seq<string>)
      requires multiset(s) == multiset(t)
      ensures |s| == |t|
    {
      assert |multiset(s)| == |s| && |multiset(t)| == |t|;
    }

    lemma EachOnce(terms: seq<string>, s: string)
      requires Valid() && |terms| == |StrToID| && forall t :: t in StrToID ==> terms[StrToID[t]] == t
      ensures multiset(terms)[s] == if s in StrToID then 1 else 0
    {
      forall i | 0 <= i < |terms| ensures i in IDToStr && terms[i] == IDToStr[i] {}
      if s in StrToID {
        var k := StrToID[s];
        assert terms == terms[..k] + [s] + terms[k + 1..];
        forall i | 0 <= i < |terms| && i != k ensures terms[i] != s {}
        assert s !in terms[..k] && s !in terms[k + 1..];
        assert multiset(terms) == multiset(terms[..k]) + multiset{s} + multiset(terms[k + 1..]);
      } else {
        forall i | 0 <= i < |terms| ensures terms[i] != s {}
        assert s !in terms;
      }
    }
  }
}

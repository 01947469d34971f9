/** Run-length encoding: pkg/compress/compress.go, lines 50-73. */
module RunLengths {
  import opened Collections

  ghost function Copies(x: int, n: nat): (r: seq<int>)
    ensures |r| == n
  {
    seq(n, _ => x)
  }

  /** The list that a flat list of values and counts stands for. */
  ghost function Expanded(encoded: seq<int>): seq<int> {
    if |encoded| < 2 then [] else
      var x, count := encoded[|encoded| - 2], encoded[|encoded| - 1];
      Expanded(encoded[..|encoded| - 2]) + Copies(x, if count < 0 then 0 else count)
  }

  /** Values with positive counts, neighbouring values different. */
  ghost predicate Runs(encoded: seq<int>) {
    encoded == [] ||
    (|encoded| >= 2 && encoded[|encoded| - 1] > 0 && Runs(encoded[..|encoded| - 2])
     && (|encoded| >= 4 ==> encoded[|encoded| - 4] != encoded[|encoded| - 2]))
  }

  lemma {:induction false} RunEnds(encoded: seq<int>, x: int, count: nat)
    requires Runs(encoded) && count > 0
    requires |encoded| >= 2 ==> encoded[|encoded| - 2] != x
    ensures Runs(encoded + [x] + [count]) && Expanded(encoded + [x] + [count]) == Expanded(encoded) + Copies(x, count)
  {
    var longer := encoded + [x] + [count];
    assert longer[..|longer| - 2] == encoded;
  }

  /** RunLengthEncoding, lines 50-73. An empty list panics at arr[s]. */
  method RunLengthEncoding(arr: seq<int>) returns (result: Outcome<seq<int>>)
    ensures result == Panicked <==> arr == []
    ensures arr != [] ==> Runs(result.value) && Expanded(result.value) == arr
  {
    hide Runs, Expanded;
    assert Runs([]) && Expanded([]) == [] by { NoRuns(); }
    var encoded: seq<int>, s, count := [], 0, 0;
    for i := 0 to |arr|
      invariant 0 <= s <= i && count == i - s && (i > 0 ==> s < i)
      invariant Runs(encoded)
      invariant if s == 0 then encoded == [] else |encoded| >= 2 && encoded[|encoded| - 2] != arr[s]
      invariant Expanded(encoded) == arr[..s]
      invariant forall k :: s <= k < i ==> arr[k] == arr[s]
    {
      if arr[i] != arr[s] {
        RunEnds(encoded, arr[s], count);
        assert arr[..s] + Copies(arr[s], count) == arr[..i];
        encoded := encoded + [arr[s]] + [count];
        s := i;
        count := 0;
      }
      count := count + 1;
    }
    if |arr| == 0 {
      return Panicked;
    }
    RunEnds(encoded, arr[s], count);
    assert arr[..s] + Copies(arr[s], count) == arr;
    encoded := encoded + [arr[s]] + [count];
    return Returned(encoded);
  }

  lemma NoRuns()
    ensures Runs([]) && Expanded([]) == []
  {}
}

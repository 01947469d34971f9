/** The batch workers of SpimiBatchIndex as a state machine: pkg/index/indexer.go, lines 113-360 and the
  * critical sections of SpimiInvert, lines 711-757.
  *
  * Every step is one critical section, or one action outside of the lock that other workers can see.
  * Whether an object is accepted, and which calls fail, is left open.
  */
module BatchProtocol {
  import opened Collections

  const BATCH_SIZE := 100000

  datatype Field = Name | Address

  function Text(f: Field): string {
    match f case Name => "name" case Address => "address"
  }

  // ---- index names

  /** strconv.Itoa. */
  function Itoa(n: nat): (s: string)
    ensures |s| >= 1 && (|s| == 1 <==> n < 10) && forall k :: 0 <= k < |s| ==> '0' <= s[k] <= '9'
  {
    if n < 10 then [Digit(n)] else Itoa(n / 10) + [Digit(n % 10)]
  }

  function Digit(d: nat): char
    requires d < 10
  {
    "0123456789"[d]
  }

  lemma DigitsDiffer(a: nat, b: nat)
    requires a < 10 && b < 10 && Digit(a) == Digit(b)
    ensures a == b
  {}

  lemma {:induction false} ItoaInjective(a: nat, b: nat)
    requires Itoa(a) == Itoa(b)
    ensures a == b
    decreases a
  {
    var s := Itoa(a);
    if a < 10 {
      DigitsDiffer(a, b);
    } else {
      assert Itoa(a / 10) == s[..|s| - 1] == Itoa(b / 10);
      ItoaInjective(a / 10, b / 10);
      assert s[|s| - 1] == Digit(a % 10) == Digit(b % 10);
      DigitsDiffer(a % 10, b % 10);
    }
  }

  function IndexName(f: Field, block: nat): string {
    "index_" + Text(f) + "_" + Itoa(block)
  }

  /** Different block numbers give different names, also across fields. */
  lemma NamesDiffer(f: Field, m: nat, g: Field, n: nat)
    requires IndexName(f, m) == IndexName(g, n)
    ensures f == g && m == n
  {
    var a, b := IndexName(f, m), IndexName(g, n);
    assert a[6] == Text(f)[0] && b[6] == Text(g)[0];
    assert f == g;
    var p := "index_" + Text(f) + "_";
    assert a == p + Itoa(m) && b == p + Itoa(n);
    assert Itoa(m) == a[|p|..] && Itoa(n) == b[|p|..];
    ItoaInjective(m, n);
  }

  /** strings.Contains. */
  ghost predicate Contains(s: string, part: string) {
    exists k :: PartAt(s, part, k)
  }

  ghost predicate PartAt(s: string, part: string, k: int) {
    0 <= k <= |s| - |part| && s[k..k + |part|] == part
  }

  /** The test by which the merge picks the indexes of a field, lines 510 and 546, picks exactly those. */
  lemma ContainsField(f: Field, block: nat, g: Field)
    ensures Contains(IndexName(f, block), Text(g)) <==> f == g
  {
    var s := IndexName(f, block);
    if f == g {
      assert PartAt(s, Text(f), 6);
    } else {
      var p := "index_" + Text(f) + "_";
      StartsElsewhere(f, g);
      forall k ensures !PartAt(s, Text(g), k) {
        PartStarts(s, Text(g), k);
        if 0 <= k < |s| - 1 { NoPair(p, Itoa(block), Text(g)[0], Text(g)[1], k); }
      }
    }
  }

  lemma PartStarts(s: string, part: string, k: int)
    requires |part| >= 2
    ensures PartAt(s, part, k) ==> 0 <= k < |s| - 1 && s[k] == part[0] && s[k + 1] == part[1]
  {
    if PartAt(s, part, k) {
      assert s[k..k + |part|][0] == s[k] && s[k..k + |part|][1] == s[k + 1];
    }
  }

  /** The first two letters of the other field's name do not follow each other in the fixed part. */
  lemma StartsElsewhere(f: Field, g: Field)
    requires f != g
    ensures var p := "index_" + Text(f) + "_"; var x, y := Text(g)[0], Text(g)[1];
      p[|p| - 1] != x && !('0' <= x <= '9') && forall k :: 0 <= k < |p| - 1 ==> !(p[k] == x && p[k + 1] == y)
  {
    match f
    case Name => assert "index_" + Text(f) + "_" == "index_name_";
    case Address => assert "index_" + Text(f) + "_" == "index_address_";
  }

  lemma NoPair(p: string, digits: string, x: char, y: char, k: nat)
    requires p != [] && p[|p| - 1] != x && !('0' <= x <= '9') && forall i :: 0 <= i < |digits| ==> '0' <= digits[i] <= '9'
    requires forall i :: 0 <= i < |p| - 1 ==> !(p[i] == x && p[i + 1] == y)
    requires k + 1 < |p + digits|
    ensures !((p + digits)[k] == x && (p + digits)[k + 1] == y)
  {
    if k >= |p| {
      assert (p + digits)[k] == digits[k - |p|];
    }
  }

  // ---- the state

  /** An accepted object: its number and the OSM object it was made from. */
  datatype Doc = Doc(ID: nat, source: int)

  /** How far one SpimiInvert call has come: not started, started, owner of an index name, index listed
    * in intermediateIndices, index closed. */
  datatype Progress = Idle | Ready | Named(name: string) | Listed | Closed

  datatype Inverters = Inverters(ofName: Progress, ofAddress: Progress) {
    function At(f: Field): Progress {
      match f case Name => ofName case Address => ofAddress
    }

    function With(f: Field, p: Progress): Inverters {
      match f case Name => this.(ofName := p) case Address => this.(ofAddress := p)
    }
  }

  datatype Control = Reading | Waiting | Saving | Appending | Finished | Failed

  /** A way or node worker with its two SpimiInvert calls. */
  datatype Worker = Worker(control: Control, items: seq<int>, searchNodes: seq<Doc>, inverters: Inverters)

  /** An intermediate index: its name, field and documents. */
  datatype Batch = Batch(name: string, field: Field, docs: seq<Doc>)

  /** The shared variables and the workers; named lists the index names given out so far. */
  datatype State = State(workers: seq<Worker>, nodeIDX: nat, block: nat, osmData: seq<Doc>,
                         intermediateIndices: seq<Batch>, allSearchNodes: seq<Doc>, named: seq<string>)

  const IDLE := Inverters(Idle, Idle)
  const READY := Inverters(Ready, Ready)

  datatype Step =
    | Skip(w: nat)
    | Accept(w: nat)
    | ItemsDone(w: nat)
    | Cancel(w: nat)
    | TakeBlock(w: nat, f: Field)
    | Register(w: nat, f: Field)
    | CloseIndex(w: nat, f: Field)
    | Collect(w: nat)
    | GiveUp(w: nat)
    | Save(w: nat)
    | SaveFails(w: nat)
    | Append(w: nat)

  ghost predicate Enabled(s: State, step: Step) {
    step.w < |s.workers| && Possible(s.workers[step.w], step)
  }

  ghost predicate Possible(k: Worker, step: Step) {
    match step
    case Skip(_) => k.control == Reading && k.items != []
    case Accept(_) => k.control == Reading && k.items != []
    case ItemsDone(_) => k.control == Reading && k.items == []
    case Cancel(_) => k.control == Reading
    case TakeBlock(_, f) => k.inverters.At(f) == Ready
    case Register(_, f) => k.inverters.At(f).Named?
    case CloseIndex(_, f) => k.inverters.At(f) == Listed
    case Collect(_) => k.control == Waiting && k.inverters == Inverters(Closed, Closed)
    case GiveUp(_) => k.control == Waiting
    case Save(_) => k.control == Saving
    case SaveFails(_) => k.control == Saving
    case Append(_) => k.control == Appending
  }

  /** The step of worker k alone; the shared variables are updated in Apply. */
  ghost function After(s: State, step: Step): Worker
    requires Enabled(s, step)
  {
    var k := s.workers[step.w];
    match step
    case Skip(_) => k.(items := k.items[1..])
    case Accept(_) =>
      var searchNodes := k.searchNodes + [Doc(s.nodeIDX, k.items[0])];
      if |searchNodes| == BATCH_SIZE
      then Worker(Waiting, k.items[1..], searchNodes, READY)
      else Worker(Reading, k.items[1..], searchNodes, IDLE)
    case ItemsDone(_) => if k.searchNodes == [] then k.(control := Finished) else k.(control := Waiting, inverters := READY)
    case Cancel(_) => k.(control := Failed)
    case TakeBlock(_, f) => k.(inverters := k.inverters.With(f, Named(IndexName(f, s.block))))
    case Register(_, f) => k.(inverters := k.inverters.With(f, Listed))
    case CloseIndex(_, f) => k.(inverters := k.inverters.With(f, Closed))
    case Collect(_) => k.(control := Saving)
    case GiveUp(_) => k.(control := Failed)
    case Save(_) => k.(control := Appending)
    case SaveFails(_) => k.(control := Failed)
    case Append(_) => k.(control := Reading, searchNodes := [], inverters := IDLE)
  }

  ghost function Apply(s: State, step: Step): State
    requires Enabled(s, step)
  {
    var k := s.workers[step.w];
    var t := s.(workers := s.workers[step.w := After(s, step)]);
    match step
    case Accept(_) => t.(nodeIDX := s.nodeIDX + 1, osmData := s.osmData + [Doc(s.nodeIDX, k.items[0])])
    case TakeBlock(_, f) => t.(block := s.block + 1, named := s.named + [IndexName(f, s.block)])
    case Register(_, f) => t.(intermediateIndices := s.intermediateIndices + [Batch(k.inverters.At(f).name, f, k.searchNodes)])
    case Append(_) => t.(allSearchNodes := s.allSearchNodes + k.searchNodes)
    case _ => t
  }

  // ---- what every step keeps

  ghost function Sum<T>(workers: seq<Worker>, part: Worker -> multiset<T>): multiset<T> {
    if workers == [] then multiset{} else Sum(workers[..|workers| - 1], part) + part(workers[|workers| - 1])
  }

  lemma {:induction false} SumUpdate<T>(workers: seq<Worker>, part: Worker -> multiset<T>, w: nat, k: Worker)
    requires w < |workers|
    ensures Sum(workers[w := k], part) + part(workers[w]) == Sum(workers, part) + part(k)
  {
    var n := |workers| - 1;
    if w == n {
      assert workers[w := k][..n] == workers[..n];
    } else {
      var last := workers[n];
      assert workers[w := k][..n] == workers[..n][w := k];
      SumUpdate(workers[..n], part, w, k);
      assert Sum(workers[w := k], part) + part(workers[w]) == (Sum(workers[..n][w := k], part) + part(workers[w])) + part(last);
    }
  }

  /** The documents a worker has accepted but not yet handed over. */
  ghost function Pending(k: Worker): multiset<Doc> {
    multiset(k.searchNodes)
  }

  /** Those of them that are in a listed index of field f. */
  ghost function ListedIn(f: Field): Worker -> multiset<Doc> {
    (k: Worker) => ListedDocs(k.inverters.At(f), k.searchNodes)
  }

  ghost function ListedDocs(p: Progress, docs: seq<Doc>): multiset<Doc> {
    if p == Listed || p == Closed then multiset(docs) else multiset{}
  }

  ghost function NameIn(p: Progress): multiset<string> {
    if p.Named? then multiset{p.name} else multiset{}
  }

  /** The names a worker owns that are not listed yet. */
  ghost function Unlisted(k: Worker): multiset<string> {
    UnlistedOf(k.inverters)
  }

  ghost function UnlistedOf(inv: Inverters): multiset<string> {
    NameIn(inv.ofName) + NameIn(inv.ofAddress)
  }

  ghost function NamesOf(batches: seq<Batch>): multiset<string> {
    if batches == [] then multiset{} else NamesOf(batches[..|batches| - 1]) + multiset{batches[|batches| - 1].name}
  }

  /** The documents in the listed indexes of field f. */
  ghost function DocsOf(batches: seq<Batch>, f: Field): multiset<Doc> {
    if batches == [] then multiset{} else
      var last := batches[|batches| - 1];
      DocsOf(batches[..|batches| - 1], f) + (if last.field == f then multiset(last.docs) else multiset{})
  }

  ghost predicate WorkerOk(k: Worker) {
    && (k.control == Reading || k.control == Finished ==> k.inverters == IDLE)
    && (k.control == Finished ==> k.searchNodes == [] && k.items == [])
    && (k.control == Saving || k.control == Appending ==> k.inverters == Inverters(Closed, Closed))
  }

  ghost predicate Numbered(s: State) {
    |s.osmData| == s.nodeIDX && forall i :: 0 <= i < |s.osmData| ==> s.osmData[i].ID == i
  }

  ghost predicate NamedInOrder(s: State) {
    |s.named| == s.block && forall i :: 0 <= i < |s.named| ==> IsIndexName(s.named[i], i)
  }

  ghost predicate IsIndexName(name: string, block: nat) {
    exists f :: name == IndexName(f, block)
  }

  ghost predicate Invariant(s: State) {
    && (forall w :: 0 <= w < |s.workers| ==> WorkerOk(s.workers[w]))
    && Numbered(s) && NamedInOrder(s)
    && multiset(s.allSearchNodes) + Sum(s.workers, Pending) == multiset(s.osmData)
    && NamesOf(s.intermediateIndices) + Sum(s.workers, Unlisted) == multiset(s.named)
    && forall f :: DocsOf(s.intermediateIndices, f) == multiset(s.allSearchNodes) + Sum(s.workers, ListedIn(f))
  }

  ghost predicate Initial(s: State) {
    && s.nodeIDX == 0 && s.block == 0 && s.osmData == [] && s.intermediateIndices == [] && s.allSearchNodes == [] && s.named == []
    && forall w :: 0 <= w < |s.workers| ==> s.workers[w].control == Reading && s.workers[w].searchNodes == [] && s.workers[w].inverters == IDLE
  }

  lemma {:induction false} NothingSummed<T>(workers: seq<Worker>, part: Worker -> multiset<T>)
    requires forall w :: 0 <= w < |workers| ==> part(workers[w]) == multiset{}
    ensures Sum(workers, part) == multiset{}
  {
    if workers != [] { NothingSummed(workers[..|workers| - 1], part); }
  }

  lemma InitialKeeps(s: State)
    requires Initial(s)
    ensures Invariant(s)
  {
    NothingSummed(s.workers, Pending);
    NothingSummed(s.workers, Unlisted);
    forall f ensures Sum(s.workers, ListedIn(f)) == multiset{} { NothingSummed(s.workers, ListedIn(f)); }
  }

  lemma StepNumbers(s: State, step: Step)
    requires Numbered(s) && Enabled(s, step)
    ensures Numbered(Apply(s, step))
  {
    var t := Apply(s, step);
    if step.Accept? {
      assert t.osmData == s.osmData + [Doc(s.nodeIDX, s.workers[step.w].items[0])];
    } else {
      assert t.osmData == s.osmData;
    }
    assert |t.osmData| == t.nodeIDX;
    forall i | 0 <= i < |t.osmData| ensures t.osmData[i].ID == i {}
    assert Numbered(t);
  }

  lemma StepNamesInOrder(s: State, step: Step)
    requires NamedInOrder(s) && Enabled(s, step)
    ensures NamedInOrder(Apply(s, step))
  {
    hide IndexName;
    var t := Apply(s, step);
    if step.TakeBlock? {
      assert t.named == s.named + [IndexName(step.f, s.block)];
      assert IsIndexName(t.named[s.block], s.block);
    } else {
      assert t.named == s.named && t.block == s.block;
    }
  }

  /** What a step does to the shared variables. */
  lemma Shared(s: State, step: Step)
    requires Enabled(s, step)
    ensures var t, k := Apply(s, step), s.workers[step.w];
      && t.workers == s.workers[step.w := After(s, step)]
      && t.osmData == s.osmData + (if step.Accept? then [Doc(s.nodeIDX, k.items[0])] else [])
      && t.allSearchNodes == s.allSearchNodes + (if step.Append? then k.searchNodes else [])
      && t.named == s.named + (if step.TakeBlock? then [IndexName(step.f, s.block)] else [])
      && t.intermediateIndices == s.intermediateIndices
         + (if step.Register? then [Batch(k.inverters.At(step.f).name, step.f, k.searchNodes)] else [])
  {
    hide After, IndexName;
  }

  lemma UnlistedWith(inv: Inverters, f: Field, p: Progress)
    ensures UnlistedOf(inv.With(f, p)) + NameIn(inv.At(f)) == UnlistedOf(inv) + NameIn(p)
  {
    hide NameIn;
    if f == Name {
      assert inv.With(f, p) == Inverters(p, inv.ofAddress);
    } else {
      assert inv.With(f, p) == Inverters(inv.ofName, p);
    }
  }

  lemma {:induction false} UnlistedAfter(s: State, step: Step)
    requires Enabled(s, step) && WorkerOk(s.workers[step.w])
    ensures var k, k' := s.workers[step.w], After(s, step);
      Unlisted(k') + (if step.Register? then multiset{k.inverters.At(step.f).name} else multiset{})
      == Unlisted(k) + (if step.TakeBlock? then multiset{IndexName(step.f, s.block)} else multiset{})
  {
    hide IndexName, UnlistedOf;
    var k := s.workers[step.w];
    match step
    case TakeBlock(_, f) => UnlistedWith(k.inverters, f, Named(IndexName(f, s.block)));
    case Register(_, f) => UnlistedWith(k.inverters, f, Listed);
    case CloseIndex(_, f) => UnlistedWith(k.inverters, f, Closed);
    case _ => UnlistedElsewhere(s, step);
  }

  lemma UnlistedElsewhere(s: State, step: Step)
    requires Enabled(s, step) && WorkerOk(s.workers[step.w]) && !step.TakeBlock? && !step.Register? && !step.CloseIndex?
    ensures Unlisted(After(s, step)) == Unlisted(s.workers[step.w])
  {
    hide IndexName, UnlistedOf;
    NothingOwned();
  }

  lemma NothingOwned()
    ensures UnlistedOf(IDLE) == UnlistedOf(READY) == UnlistedOf(Inverters(Closed, Closed)) == multiset{}
  {}

  lemma ListedFacts(f: Field)
    ensures forall docs {:trigger ListedDocs(Idle, docs)} :: ListedDocs(Idle, docs) == multiset{}
    ensures forall docs {:trigger ListedDocs(Ready, docs)} :: ListedDocs(Ready, docs) == multiset{}
    ensures forall docs {:trigger ListedDocs(Listed, docs)} :: ListedDocs(Listed, docs) == multiset(docs)
    ensures forall docs {:trigger ListedDocs(Closed, docs)} :: ListedDocs(Closed, docs) == multiset(docs)
    ensures forall name, docs {:trigger ListedDocs(Named(name), docs)} :: ListedDocs(Named(name), docs) == multiset{}
    ensures forall k {:trigger ListedIn(f)(k)} :: ListedIn(f)(k) == ListedDocs(k.inverters.At(f), k.searchNodes)
  {}

  lemma WithAt(inv: Inverters, f: Field, g: Field, p: Progress)
    ensures inv.With(f, p).At(g) == if f == g then p else inv.At(g)
  {}

  lemma ListedAfter(s: State, step: Step, f: Field)
    requires Enabled(s, step) && WorkerOk(s.workers[step.w])
    ensures var k, k' := s.workers[step.w], After(s, step);
      ListedIn(f)(k') + (if step.Append? then multiset(k.searchNodes) else multiset{})
      == ListedIn(f)(k) + (if step.Register? && step.f == f then multiset(k.searchNodes) else multiset{})
  {
    hide IndexName, ListedDocs, ListedIn, Inverters.With;
    var k := s.workers[step.w];
    ListedFacts(f);
    match step
    case TakeBlock(_, g) => WithAt(k.inverters, g, f, Named(IndexName(g, s.block)));
    case Register(_, g) => WithAt(k.inverters, g, f, Listed);
    case CloseIndex(_, g) => WithAt(k.inverters, g, f, Closed);
    case _ =>
  }

  lemma StepWorkers(s: State, step: Step)
    requires Enabled(s, step) && forall w :: 0 <= w < |s.workers| ==> WorkerOk(s.workers[w])
    ensures forall w :: 0 <= w < |s.workers| ==> WorkerOk(Apply(s, step).workers[w])
  {
    hide IndexName;
    assert WorkerOk(s.workers[step.w]);
    assert WorkerOk(After(s, step));
  }

  /** A sum over the workers stays balanced when x moves out of one worker's part into a, and y comes
    * into that part from outside. */
  lemma Balanced<T>(a: multiset<T>, sum: multiset<T>, o: multiset<T>, p: multiset<T>,
                    sum': multiset<T>, p': multiset<T>, x: multiset<T>, y: multiset<T>)
    requires a + sum == o && sum' + p == sum + p' && p' + x == p + y
    ensures (a + x) + sum' == o + y
  {
    forall e: T ensures ((a + x) + sum')[e] == (o + y)[e] {
      assert (a + sum)[e] == o[e] && (sum' + p)[e] == (sum + p')[e] && (p' + x)[e] == (p + y)[e];
    }
  }

  /** No accepted document is lost or doubled on its way to allSearchNodes. */
  lemma {:induction false} StepPending(s: State, step: Step)
    requires Enabled(s, step) && WorkerOk(s.workers[step.w])
    requires multiset(s.allSearchNodes) + Sum(s.workers, Pending) == multiset(s.osmData)
    ensures multiset(Apply(s, step).allSearchNodes) + Sum(Apply(s, step).workers, Pending) == multiset(Apply(s, step).osmData)
  {
    hide Sum, IndexName, Pending, After, Apply;
    var k, k', t := s.workers[step.w], After(s, step), Apply(s, step);
    SumUpdate(s.workers, Pending, step.w, k');
    Shared(s, step);
    PendingAfter(s, step);
    var handed := if step.Append? then k.searchNodes else [];
    var accepted := if step.Accept? then [Doc(s.nodeIDX, k.items[0])] else [];
    Balanced(multiset(s.allSearchNodes), Sum(s.workers, Pending), multiset(s.osmData), Pending(k),
             Sum(t.workers, Pending), Pending(k'), multiset(handed), multiset(accepted));
    assert multiset(s.allSearchNodes + handed) == multiset(s.allSearchNodes) + multiset(handed);
    assert multiset(s.osmData + accepted) == multiset(s.osmData) + multiset(accepted);
  }

  lemma PendingAfter(s: State, step: Step)
    requires Enabled(s, step)
    ensures var k, k' := s.workers[step.w], After(s, step);
      Pending(k') + multiset(if step.Append? then k.searchNodes else [])
      == Pending(k) + multiset(if step.Accept? then [Doc(s.nodeIDX, k.items[0])] else [])
  {
    hide IndexName;
    var k, k' := s.workers[step.w], After(s, step);
    if step.Accept? {
      assert k'.searchNodes == k.searchNodes + [Doc(s.nodeIDX, k.items[0])];
    } else if step.Append? {
      assert k'.searchNodes == [];
    } else {
      assert k'.searchNodes == k.searchNodes;
    }
  }

  lemma MoreNames(batches: seq<Batch>, b: Batch)
    ensures NamesOf(batches + [b]) == NamesOf(batches) + multiset{b.name}
    ensures forall f :: DocsOf(batches + [b], f) == DocsOf(batches, f) + (if b.field == f then multiset(b.docs) else multiset{})
  {
    assert (batches + [b])[..|batches|] == batches;
  }

  /** Every name given out is either listed or still with the worker that took it. */
  lemma StepUnlisted(s: State, step: Step)
    requires Enabled(s, step) && WorkerOk(s.workers[step.w])
    requires NamesOf(s.intermediateIndices) + Sum(s.workers, Unlisted) == multiset(s.named)
    ensures NamesOf(Apply(s, step).intermediateIndices) + Sum(Apply(s, step).workers, Unlisted) == multiset(Apply(s, step).named)
  {
    hide Sum, IndexName, NamesOf, DocsOf, Unlisted, After, Apply;
    var k, k', t := s.workers[step.w], After(s, step), Apply(s, step);
    SumUpdate(s.workers, Unlisted, step.w, k');
    Shared(s, step);
    UnlistedAfter(s, step);
    var listed := if step.Register? then multiset{k.inverters.At(step.f).name} else multiset{};
    var taken := if step.TakeBlock? then multiset{IndexName(step.f, s.block)} else multiset{};
    Balanced(NamesOf(s.intermediateIndices), Sum(s.workers, Unlisted), multiset(s.named), Unlisted(k),
             Sum(t.workers, Unlisted), Unlisted(k'), listed, taken);
    if step.Register? {
      MoreNames(s.intermediateIndices, Batch(k.inverters.At(step.f).name, step.f, k.searchNodes));
    } else {
      assert t.intermediateIndices == s.intermediateIndices;
    }
    assert multiset(t.named) == multiset(s.named) + taken;
  }

  /** A document is in a listed index of f exactly when it has been handed over or its worker's call for
    * f has got that far. */
  lemma StepListed(s: State, step: Step, f: Field)
    requires Enabled(s, step) && WorkerOk(s.workers[step.w])
    requires DocsOf(s.intermediateIndices, f) == multiset(s.allSearchNodes) + Sum(s.workers, ListedIn(f))
    ensures DocsOf(Apply(s, step).intermediateIndices, f) == multiset(Apply(s, step).allSearchNodes) + Sum(Apply(s, step).workers, ListedIn(f))
  {
    hide Sum, IndexName, NamesOf, DocsOf, ListedIn, After, Apply;
    var k, k', t := s.workers[step.w], After(s, step), Apply(s, step);
    SumUpdate(s.workers, ListedIn(f), step.w, k');
    Shared(s, step);
    ListedAfter(s, step, f);
    var handed := if step.Append? then multiset(k.searchNodes) else multiset{};
    var listed := if step.Register? && step.f == f then multiset(k.searchNodes) else multiset{};
    Balanced(multiset(s.allSearchNodes), Sum(s.workers, ListedIn(f)), DocsOf(s.intermediateIndices, f), ListedIn(f)(k),
             Sum(t.workers, ListedIn(f)), ListedIn(f)(k'), handed, listed);
    if step.Register? {
      MoreNames(s.intermediateIndices, Batch(k.inverters.At(step.f).name, step.f, k.searchNodes));
    } else {
      assert t.intermediateIndices == s.intermediateIndices;
    }
    assert multiset(t.allSearchNodes) == multiset(s.allSearchNodes) + handed;
  }

  /** Every step of every worker keeps the invariant. */
  lemma StepKeeps(s: State, step: Step)
    requires Invariant(s) && Enabled(s, step)
    ensures Invariant(Apply(s, step))
  {
    hide Numbered, NamedInOrder, Sum, NamesOf, DocsOf, After, Apply, WorkerOk;
    StepNumbers(s, step);
    StepNamesInOrder(s, step);
    StepWorkers(s, step);
    StepPending(s, step);
    StepUnlisted(s, step);
    forall f ensures DocsOf(Apply(s, step).intermediateIndices, f) == multiset(Apply(s, step).allSearchNodes) + Sum(Apply(s, step).workers, ListedIn(f)) {
      StepListed(s, step, f);
    }
    assert |Apply(s, step).workers| == |s.workers| by { SameWorkers(s, step); }
  }

  lemma SameWorkers(s: State, step: Step)
    requires Enabled(s, step)
    ensures |Apply(s, step).workers| == |s.workers|
  {}

  // ---- whole runs

  ghost predicate IsRun(states: seq<State>, steps: seq<Step>) {
    && |states| == |steps| + 1 && Initial(states[0])
    && forall i :: 0 <= i < |steps| ==> Enabled(states[i], steps[i]) && states[i + 1] == Apply(states[i], steps[i])
  }

  lemma {:induction false} RunKeeps(states: seq<State>, steps: seq<Step>, i: nat)
    requires IsRun(states, steps) && i <= |steps|
    ensures Invariant(states[i])
  {
    hide Invariant, Enabled, Apply, Initial;
    if i == 0 {
      InitialKeeps(states[0]);
    } else {
      RunKeeps(states, steps, i - 1);
      assert Enabled(states[i - 1], steps[i - 1]);
      StepKeeps(states[i - 1], steps[i - 1]);
    }
  }

  /** At every unlocked state of every run: document numbers are 0, 1, … without a gap or a repetition,
    * and each object stands at its own number. */
  lemma NumbersAreExact(states: seq<State>, steps: seq<Step>, i: nat)
    requires IsRun(states, steps) && i <= |steps|
    ensures var s := states[i];
      |s.osmData| == s.nodeIDX && forall k :: 0 <= k < s.nodeIDX ==> s.osmData[k].ID == k
  {
    hide Enabled, Apply, Initial;
    RunKeeps(states, steps, i);
  }

  lemma NamesDistinct(s: State)
    requires NamedInOrder(s)
    ensures NoDup(s.named)
  {
    hide IndexName;
    forall i, j | 0 <= i < j < |s.named| ensures s.named[i] != s.named[j] {
      var f :| s.named[i] == IndexName(f, i);
      var g :| s.named[j] == IndexName(g, j);
      if s.named[i] == s.named[j] { NamesDiffer(f, i, g, j); }
    }
  }

  lemma {:induction false} NameOccurs(batches: seq<Batch>, i: nat, j: nat)
    requires i < j < |batches| && batches[i].name == batches[j].name
    ensures NamesOf(batches)[batches[i].name] >= 2
  {
    var n := |batches| - 1;
    if j == n {
      NameIn1(batches[..n], i);
    } else {
      NameOccurs(batches[..n], i, j);
    }
  }

  lemma {:induction false} NameIn1(batches: seq<Batch>, i: nat)
    requires i < |batches|
    ensures NamesOf(batches)[batches[i].name] >= 1
  {
    var n := |batches| - 1;
    if i < n { NameIn1(batches[..n], i); }
  }

  /** At every unlocked state, no two intermediate indexes have the same name. */
  lemma IndexNamesAreDistinct(states: seq<State>, steps: seq<Step>, n: nat, i: nat, j: nat)
    requires IsRun(states, steps) && n <= |steps| && i < j < |states[n].intermediateIndices|
    ensures states[n].intermediateIndices[i].name != states[n].intermediateIndices[j].name
  {
    hide Enabled, Apply, Initial, NamedInOrder, NamesOf, Sum;
    RunKeeps(states, steps, n);
    var s := states[n];
    NamesDistinct(s);
    var name := s.intermediateIndices[i].name;
    NoDupIsMultisetSet(s.named);
    assert multiset(s.named)[name] <= 1;
    if name == s.intermediateIndices[j].name {
      NameOccurs(s.intermediateIndices, i, j);
    }
  }

  /** A run without error is complete when every worker has finished. */
  ghost predicate Complete(s: State) {
    forall w :: 0 <= w < |s.workers| ==> s.workers[w].control == Finished
  }

  /** In a run without error every accepted document is in allSearchNodes exactly once, and exactly once
    * in the intermediate indexes of either field, all of whose names are listed. */
  lemma CompleteRun(states: seq<State>, steps: seq<Step>)
    requires IsRun(states, steps) && Complete(states[|steps|])
    ensures var s := states[|steps|];
      && multiset(s.allSearchNodes) == multiset(s.osmData)
      && (forall f :: DocsOf(s.intermediateIndices, f) == multiset(s.osmData))
      && NamesOf(s.intermediateIndices) == multiset(s.named)
  {
    hide Enabled, Apply, Initial, NamedInOrder, NamesOf, Sum, DocsOf, Numbered;
    var s := states[|steps|];
    RunKeeps(states, steps, |steps|);
    forall w | 0 <= w < |s.workers| ensures s.workers[w].searchNodes == [] && s.workers[w].inverters == IDLE {
      assert WorkerOk(s.workers[w]);
    }
    NothingSummed(s.workers, Pending);
    NothingSummed(s.workers, Unlisted);
    forall f ensures DocsOf(s.intermediateIndices, f) == multiset(s.osmData) { NothingSummed(s.workers, ListedIn(f)); }
  }

  // ---- every object is looked at once

  /** How many of its objects worker w has skipped or accepted in the first i steps. */
  ghost function Handled(steps: seq<Step>, i: nat, w: nat): nat
    requires i <= |steps|
  {
    if i == 0 then 0 else
      Handled(steps, i - 1, w) + (if steps[i - 1].w == w && (steps[i - 1].Skip? || steps[i - 1].Accept?) then 1 else 0)
  }

  /** The accepted objects, in order: each by its worker and its place among that worker's objects. */
  ghost function Accepts(steps: seq<Step>, i: nat): seq<(nat, nat)>
    requires i <= |steps|
  {
    if i == 0 then [] else
      Accepts(steps, i - 1) + (if steps[i - 1].Accept? then [(steps[i - 1].w, Handled(steps, i - 1, steps[i - 1].w))] else [])
  }

  lemma ItemsAfter(s: State, step: Step, w: nat)
    requires Enabled(s, step) && w < |s.workers|
    ensures |Apply(s, step).workers| == |s.workers|
    ensures var items := s.workers[w].items;
      if step.w == w && (step.Skip? || step.Accept?) then items != [] && Apply(s, step).workers[w].items == items[1..]
      else Apply(s, step).workers[w].items == items
  {
    hide IndexName;
  }

  /** What worker w still has to look at, at any moment: all but the first objects that it was given. */
  lemma {:induction false} ItemsLeft(states: seq<State>, steps: seq<Step>, i: nat, w: nat)
    requires IsRun(states, steps) && i <= |steps| && w < |states[0].workers|
    ensures |states[i].workers| == |states[0].workers| && Handled(steps, i, w) <= |states[0].workers[w].items|
    ensures states[i].workers[w].items == states[0].workers[w].items[Handled(steps, i, w)..]
  {
    hide Enabled, Apply, Initial;
    if i > 0 {
      ItemsLeft(states, steps, i - 1, w);
      assert Enabled(states[i - 1], steps[i - 1]);
      ItemsAfter(states[i - 1], steps[i - 1], w);
    }
  }

  /** The k-th number goes to the k-th object accepted. */
  lemma {:induction false} NumberedAsAccepted(states: seq<State>, steps: seq<Step>, i: nat)
    requires IsRun(states, steps) && i <= |steps|
    ensures var accepts, s := Accepts(steps, i), states[i];
      |accepts| == |s.osmData| && forall k {:trigger accepts[k]} :: 0 <= k < |accepts| ==>
        var (w, j) := accepts[k];
        && w < |states[0].workers| && j < Handled(steps, i, w) <= |states[0].workers[w].items|
        && s.osmData[k].source == states[0].workers[w].items[j]
  {
    hide Enabled, Apply, Initial;
    if i == 0 {
      NothingYet(states[0]);
    } else {
      var s, step := states[i - 1], steps[i - 1];
      NumberedAsAccepted(states, steps, i - 1);
      assert Enabled(s, step);
      WorkersStay(states, steps, i - 1);
      assert step.w < |s.workers| by { EnabledAt(s, step); }
      ItemsLeft(states, steps, i - 1, step.w);
      ItemsLeft(states, steps, i, step.w);
      Shared(s, step);
      ItemsAfter(s, step, step.w);
    }
  }

  lemma EnabledAt(s: State, step: Step)
    requires Enabled(s, step)
    ensures step.w < |s.workers|
  {}

  lemma NothingYet(s: State)
    requires Initial(s)
    ensures s.osmData == []
  {}

  lemma {:induction false} WorkersStay(states: seq<State>, steps: seq<Step>, i: nat)
    requires IsRun(states, steps) && i <= |steps|
    ensures |states[i].workers| == |states[0].workers|
  {
    hide Enabled, Apply, Initial;
    if i > 0 {
      WorkersStay(states, steps, i - 1);
      assert Enabled(states[i - 1], steps[i - 1]);
      SameWorkers(states[i - 1], steps[i - 1]);
    }
  }

  ghost predicate HandlesAt(steps: seq<Step>, i: nat, w: nat, j: nat) {
    i < |steps| && steps[i].w == w && (steps[i].Skip? || steps[i].Accept?) && Handled(steps, i, w) == j
  }

  /** The step that handled the j-th object of worker w; the object is accepted exactly if that step
    * accepts it. */
  lemma {:induction false} HandledBy(steps: seq<Step>, n: nat, w: nat, j: nat) returns (i: nat)
    requires n <= |steps| && j < Handled(steps, n, w)
    ensures i < n && HandlesAt(steps, i, w, j)
    ensures (w, j) in Accepts(steps, n) <==> steps[i].Accept?
  {
    if j < Handled(steps, n - 1, w) {
      i := HandledBy(steps, n - 1, w, j);
    } else {
      i := n - 1;
      NotYetAccepted(steps, n - 1, w, j);
    }
  }

  lemma {:induction false} NotYetAccepted(steps: seq<Step>, n: nat, w: nat, j: nat)
    requires n <= |steps| && j >= Handled(steps, n, w)
    ensures (w, j) !in Accepts(steps, n)
  {
    if n > 0 { NotYetAccepted(steps, n - 1, w, j); }
  }

  lemma HandledNext(steps: seq<Step>, n: nat, w: nat)
    requires 1 <= n <= |steps|
    ensures var step := steps[n - 1];
      Handled(steps, n, w) == Handled(steps, n - 1, w) + (if step.w == w && (step.Skip? || step.Accept?) then 1 else 0)
  {}

  lemma AcceptsNone(steps: seq<Step>)
    ensures Accepts(steps, 0) == []
  {}

  lemma AcceptsNext(steps: seq<Step>, n: nat)
    requires 1 <= n <= |steps|
    ensures var step := steps[n - 1];
      Accepts(steps, n) == Accepts(steps, n - 1) + (if step.Accept? then [(step.w, Handled(steps, n - 1, step.w))] else [])
  {}

  /** No object is accepted twice, and each worker accepts its objects in order. */
  lemma {:induction false} AcceptsInOrder(steps: seq<Step>, n: nat)
    requires n <= |steps|
    ensures var accepts := Accepts(steps, n);
      && (forall k {:trigger accepts[k]} :: 0 <= k < |accepts| ==> accepts[k].1 < Handled(steps, n, accepts[k].0))
      && forall k, l :: 0 <= k < l < |accepts| && accepts[k].0 == accepts[l].0 ==> accepts[k].1 < accepts[l].1
  {
    hide Accepts, Handled;
    if n == 0 {
      AcceptsNone(steps);
    } else {
      AcceptsInOrder(steps, n - 1);
      var before, accepts := Accepts(steps, n - 1), Accepts(steps, n);
      AcceptsNext(steps, n);
      forall k {:trigger accepts[k]} | 0 <= k < |accepts| ensures accepts[k].1 < Handled(steps, n, accepts[k].0) {
        HandledNext(steps, n, accepts[k].0);
        if k < |before| { assert accepts[k] == before[k]; }
      }
      forall k, l | 0 <= k < l < |accepts| && accepts[k].0 == accepts[l].0 ensures accepts[k].1 < accepts[l].1 {
        assert accepts[k] == before[k];
        if l < |before| { assert accepts[l] == before[l]; }
      }
    }
  }

  /** Some step handles the j-th object of worker w, which counts as accepted exactly if that step accepts. */
  ghost predicate HandledRightly(steps: seq<Step>, w: nat, j: nat) {
    exists i: nat :: i < |steps| && HandlesAt(steps, i, w, j) && ((w, j) in Accepts(steps, |steps|) <==> steps[i].Accept?)
  }

  /** In a run without error each object that a worker was given has been skipped or accepted by exactly
    * one step, in order, and osmData holds the accepted ones. */
  lemma EachObjectOnce(states: seq<State>, steps: seq<Step>)
    requires IsRun(states, steps) && Complete(states[|steps|])
    ensures var n, accepts, osmData := |steps|, Accepts(steps, |steps|), states[|steps|].osmData;
      && (forall w :: 0 <= w < |states[0].workers| ==> Handled(steps, n, w) == |states[0].workers[w].items|)
      && |accepts| == |osmData|
      && (forall k {:trigger accepts[k]} :: 0 <= k < |accepts| ==>
            var (w, j) := accepts[k];
            && w < |states[0].workers| && j < |states[0].workers[w].items|
            && osmData[k] == Doc(k, states[0].workers[w].items[j]))
      && (forall k, l :: 0 <= k < l < |accepts| && accepts[k].0 == accepts[l].0 ==> accepts[k].1 < accepts[l].1)
      && (forall w: nat, j: nat :: w < |states[0].workers| && j < |states[0].workers[w].items| ==>
            HandledRightly(steps, w, j))
  {
    hide Enabled, Apply, Initial, Accepts, Handled, HandlesAt;
    var n := |steps|;
    NumberedAsAccepted(states, steps, n);
    NumbersAreExact(states, steps, n);
    AcceptsInOrder(steps, n);
    WorkersStay(states, steps, n);
    forall w | 0 <= w < |states[0].workers| ensures Handled(steps, n, w) == |states[0].workers[w].items| {
      ItemsLeft(states, steps, n, w);
      RunKeeps(states, steps, n);
      assert WorkerOk(states[n].workers[w]);
    }
    forall w: nat, j: nat | w < |states[0].workers| && j < |states[0].workers[w].items|
      ensures HandledRightly(steps, w, j)
    {
      var i := HandledBy(steps, n, w, j);
    }
  }

  // ---- batch sizes

  /** A worker reads on below 100000 documents, and inverts 100000, or fewer only when it has nothing left. */
  ghost predicate FullOrLast(k: Worker) {
    && (k.control == Reading ==> |k.searchNodes| < 100000)
    && (k.inverters != IDLE ==> |k.searchNodes| == 100000 || (1 <= |k.searchNodes| < 100000 && k.items == []))
  }

  lemma FullOrLastAfter(s: State, step: Step)
    requires Enabled(s, step) && WorkerOk(s.workers[step.w]) && FullOrLast(s.workers[step.w])
    ensures FullOrLast(After(s, step))
  {
    hide IndexName;
  }

  /** At every unlocked state of every run. */
  lemma {:induction false} BatchesAreFull(states: seq<State>, steps: seq<Step>, i: nat, w: nat)
    requires IsRun(states, steps) && i <= |steps| && w < |states[i].workers|
    ensures FullOrLast(states[i].workers[w])
  {
    hide Enabled, Apply, After, FullOrLast, WorkerOk, Initial, Numbered, NamedInOrder, Sum, NamesOf, DocsOf, Invariant;
    if i == 0 {
      StartsShort(states[0], w);
    } else {
      var s, step := states[i - 1], steps[i - 1];
      assert Enabled(s, step);
      EnabledAt(s, step);
      SameWorkers(s, step);
      Shared(s, step);
      RunKeeps(states, steps, i - 1);
      BatchesAreFull(states, steps, i - 1, w);
      assert states[i].workers[w] == if step.w == w then After(s, step) else s.workers[w];
      if step.w == w {
        OkAt(s, w);
        FullOrLastAfter(s, step);
      }
    }
  }

  lemma OkAt(s: State, w: nat)
    requires Invariant(s) && w < |s.workers|
    ensures WorkerOk(s.workers[w])
  {}

  lemma StartsShort(s: State, w: nat)
    requires Initial(s) && w < |s.workers|
    ensures FullOrLast(s.workers[w])
  {}

  /** The documents of field f, index by index: what the merge of f is given. */
  ghost function Flat(batches: seq<Batch>, f: Field): (docs: seq<Doc>)
    ensures multiset(docs) == DocsOf(batches, f)
  {
    if batches == [] then [] else
      var last := batches[|batches| - 1];
      Flat(batches[..|batches| - 1], f) + (if last.field == f then last.docs else [])
  }

  lemma OnceInOsmData(s: State, x: Doc)
    requires Numbered(s)
    ensures multiset(s.osmData)[x] <= 1
    ensures x in multiset(s.osmData) ==> x.ID < |s.osmData| && s.osmData[x.ID] == x
  {
    if x in multiset(s.osmData) {
      assert x in s.osmData;
      var k := x.ID;
      assert s.osmData == s.osmData[..k] + [x] + s.osmData[k + 1..];
      assert x !in s.osmData[..k] && x !in s.osmData[k + 1..];
      assert multiset(s.osmData) == multiset(s.osmData[..k]) + multiset{x} + multiset(s.osmData[k + 1..]);
    }
  }

  lemma TwiceInSeq(docs: seq<Doc>, i: nat, j: nat)
    requires i < j < |docs| && docs[i] == docs[j]
    ensures multiset(docs)[docs[i]] >= 2
  {
    assert docs == docs[..i] + [docs[i]] + docs[i + 1..j] + [docs[j]] + docs[j + 1..];
  }

  /** In a run without error, the documents given to the merge of a field have distinct numbers. */
  lemma FieldDocsAreDistinct(states: seq<State>, steps: seq<Step>, f: Field, i: nat, j: nat)
    requires IsRun(states, steps) && Complete(states[|steps|])
    requires i < j < |Flat(states[|steps|].intermediateIndices, f)|
    ensures Flat(states[|steps|].intermediateIndices, f)[i].ID != Flat(states[|steps|].intermediateIndices, f)[j].ID
  {
    hide Enabled, Apply, Initial, Numbered, NamedInOrder, Sum, Flat, DocsOf, NamesOf, Complete;
    var s := states[|steps|];
    var flat := Flat(s.intermediateIndices, f);
    RunKeeps(states, steps, |steps|);
    CompleteRun(states, steps);
    assert multiset(flat) == multiset(s.osmData);
    assert flat[i] in multiset(flat) && flat[j] in multiset(flat);
    OnceInOsmData(s, flat[i]);
    OnceInOsmData(s, flat[j]);
    if flat[i].ID == flat[j].ID { TwiceInSeq(flat, i, j); }
  }
}

/** One XSI semaphore set: batches of operations, waiting, undo records and process exit. Every method is one section
    under the IPC lock. */
module XsiSem {

  const MAX_VALUE: int := 32767

  datatype SemBuf = SemBuf(num: nat, op: int, noWait: bool, undo: bool)

  datatype UndoRec = UndoRec(pid: int, adj: seq<int>)

  /** A thread waiting for its batch. */
  datatype Request = Request(pid: int, sops: seq<SemBuf>)

  /** Conversions to unsigned short and to short. */
  function UShort(x: int): int {
    x % 0x1_0000
  }

  function Short(x: int): (r: int)
    ensures -0x8000 <= r < 0x8000
  {
    (x + 0x8000) % 0x1_0000 - 0x8000
  }

  predicate ValidOps(n: nat, sops: seq<SemBuf>) {
    forall i :: 0 <= i < |sops| ==> sops[i].num < n && -0x8000 <= sops[i].op < 0x8000
  }

  predicate InRange(vals: seq<int>) {
    forall i :: 0 <= i < |vals| ==> 0 <= vals[i] <= MAX_VALUE
  }

  predicate IsAdj(n: nat, adj: seq<int>) {
    |adj| == n && forall i :: 0 <= i < n ==> -0x8000 <= adj[i] < 0x8000
  }

  /** The values after the first k operations of a batch. */
  function ValsAfter(vals: seq<int>, sops: seq<SemBuf>, k: nat): (r: seq<int>)
    requires ValidOps(|vals|, sops) && k <= |sops|
    ensures |r| == |vals|
  {
    if k == 0 then vals
    else
      var p := ValsAfter(vals, sops, k - 1);
      p[sops[k - 1].num := p[sops[k - 1].num] + sops[k - 1].op]
  }

  datatype Verdict = Passes | Blocks | TooBig

  /** What happens at operation i if all before it have passed. The undo check looks at the adjustment from before the
      batch. */
  function Judge(vals: seq<int>, adj: seq<int>, sops: seq<SemBuf>, i: nat): Verdict
    requires ValidOps(|vals|, sops) && |adj| == |vals| && i < |sops|
  {
    var s, v := sops[i], ValsAfter(vals, sops, i)[sops[i].num];
    if s.op == 0 && v != 0 then Blocks
    else if v + s.op < 0 then Blocks
    else if v + s.op > MAX_VALUE then TooBig
    else if s.undo && (adj[s.num] - s.op < -MAX_VALUE - 1 || adj[s.num] - s.op > MAX_VALUE) then TooBig
    else Passes
  }

  /** The first k operations pass. */
  predicate PassesUpTo(vals: seq<int>, adj: seq<int>, sops: seq<SemBuf>, k: nat)
    requires ValidOps(|vals|, sops) && |adj| == |vals| && k <= |sops|
  {
    forall i :: 0 <= i < k ==> Judge(vals, adj, sops, i) == Passes
  }

  /** The batch has to wait: its first operation that does not pass blocks and may wait. */
  predicate MustWait(vals: seq<int>, adj: seq<int>, sops: seq<SemBuf>)
    requires ValidOps(|vals|, sops) && |adj| == |vals|
  {
    exists k ::
      0 <= k < |sops| && PassesUpTo(vals, adj, sops, k) && Judge(vals, adj, sops, k) == Blocks && !sops[k].noWait
  }

  lemma {:induction false} ValsStayInRange(vals: seq<int>, adj: seq<int>, sops: seq<SemBuf>, k: nat)
    requires ValidOps(|vals|, sops) && |adj| == |vals| && k <= |sops| && InRange(vals) && PassesUpTo(vals, adj, sops, k)
    ensures InRange(ValsAfter(vals, sops, k))
  {
    if k > 0 {
      ValsStayInRange(vals, adj, sops, k - 1);
      assert Judge(vals, adj, sops, k - 1) == Passes;
    }
  }

  /** What the operations of a batch from k on add up to at semaphore i: all of them, or only those to be undone. */
  function OpSum(sops: seq<SemBuf>, i: nat, k: nat, undoOnly: bool): int
    requires k <= |sops|
  {
    if k == 0 then 0
    else OpSum(sops, i, k - 1,
        undoOnly) + (if sops[k - 1].num == i && (sops[k - 1].undo || !undoOnly) then sops[k - 1].op else 0)
  }

  lemma {:induction false} ValsAreSums(vals: seq<int>, sops: seq<SemBuf>, k: nat, i: nat)
    requires ValidOps(|vals|, sops) && k <= |sops| && i < |vals|
    ensures ValsAfter(vals, sops, k)[i] == vals[i] + OpSum(sops, i, k, false)
  {
    if k > 0 {
      ValsAreSums(vals, sops, k - 1, i);
    }
  }

  /** The adjustments after operations k and up have been recorded, last one first, in shorts. */
  function AdjAfter(adj: seq<int>, sops: seq<SemBuf>, k: nat): (r: seq<int>)
    requires ValidOps(|adj|, sops) && k <= |sops|
    ensures |r| == |adj|
    decreases |sops| - k
  {
    if k == |sops| then adj
    else
      var p := AdjAfter(adj, sops, k + 1);
      if sops[k].undo then p[sops[k].num := Short(p[sops[k].num] - sops[k].op)] else p
  }

  lemma {:induction false} AdjIsSum(adj: seq<int>, sops: seq<SemBuf>, k: nat, i: nat)
    requires ValidOps(|adj|, sops) && IsAdj(|adj|, adj) && k <= |sops| && i < |adj|
    ensures AdjAfter(adj, sops, k)[i] == Short(adj[i] - (OpSum(sops, i, |sops|, true) - OpSum(sops, i, k, true)))
    decreases |sops| - k
  {
    if k < |sops| {
      AdjIsSum(adj, sops, k + 1, i);
      ShortTwice(adj[i] - (OpSum(sops, i, |sops|, true) - OpSum(sops, i, k + 1, true)), sops[k].op);
    }
  }

  lemma {:induction false} AdjStaysShort(adj: seq<int>, sops: seq<SemBuf>, k: nat)
    requires ValidOps(|adj|, sops) && IsAdj(|adj|, adj) && k <= |sops|
    ensures IsAdj(|adj|, AdjAfter(adj, sops, k))
    decreases |sops| - k
  {
    if k < |sops| {
      AdjStaysShort(adj, sops, k + 1);
    }
  }

  lemma ShortTwice(x: int, y: int)
    ensures Short(Short(x) - y) == Short(x - y)
    ensures (Short(x) - x) % 0x1_0000 == 0
    ensures -0x8000 <= x < 0x8000 ==> Short(x) == x
  {}

  // ---- the undo list ----

  predicate UndoOk(n: nat, undos: seq<UndoRec>) {
    && (forall j :: 0 <= j < |undos| ==> IsAdj(n, undos[j].adj))
    && (forall j, k :: 0 <= j < k < |undos| ==> undos[j].pid != undos[k].pid)
  }

  /** All adjustments of semaphore i that are on record. */
  function AdjSum(undos: seq<UndoRec>, i: nat): int
    requires forall j :: 0 <= j < |undos| ==> i < |undos[j].adj|
  {
    if undos == [] then 0 else AdjSum(undos[..|undos| - 1], i) + undos[|undos| - 1].adj[i]
  }

  lemma {:induction false} AdjSumUpdate(undos: seq<UndoRec>, i: nat, j: nat, rec: UndoRec)
    requires forall k :: 0 <= k < |undos| ==> i < |undos[k].adj|
    requires j < |undos| && i < |rec.adj|
    ensures AdjSum(undos[j := rec], i) == AdjSum(undos, i) - undos[j].adj[i] + rec.adj[i]
    decreases |undos|
  {
    var init := undos[..|undos| - 1];
    if j < |undos| - 1 {
      AdjSumUpdate(init, i, j, rec);
      assert undos[j := rec][..|undos| - 1] == init[j := rec];
    } else {
      assert undos[j := rec][..|undos| - 1] == init;
    }
  }

  lemma {:induction false} AdjSumRemove(undos: seq<UndoRec>, i: nat, j: nat)
    requires forall k :: 0 <= k < |undos| ==> i < |undos[k].adj|
    requires j < |undos|
    ensures AdjSum(undos[..j] + undos[j + 1..], i) == AdjSum(undos, i) - undos[j].adj[i]
    decreases |undos|
  {
    var init := undos[..|undos| - 1];
    if j < |undos| - 1 {
      AdjSumRemove(init, i, j);
      assert (undos[..j] + undos[j + 1..])[..|undos| - 2] == init[..j] + init[j + 1..];
    } else {
      assert undos[..j] + undos[j + 1..] == init;
    }
  }

  // ---- exit ----

  /** What process exit makes of a semaphore: the sum as an unsigned short, cut down to the maximum. */
  function ExitValue(v: int, adj: int): int {
    var x := UShort(v + adj);
    if x > MAX_VALUE then MAX_VALUE else x
  }

  /** What the comment in the code promises: the sum, cut off at 0 and at the maximum. */
  function Capped(x: int): int {
    if x < 0 then 0 else if x > MAX_VALUE then MAX_VALUE else x
  }

  /** The lower cap never takes effect, for the value is unsigned: a sum below 0 becomes the maximum instead. */
  lemma ExitValueMeaning(v: int, adj: int)
    requires 0 <= v <= MAX_VALUE && -0x8000 <= adj < 0x8000
    ensures ExitValue(v, adj) == Capped(v + adj) <==> v + adj >= 0
    ensures v + adj < 0 ==> ExitValue(v, adj) == MAX_VALUE
    ensures 0 <= ExitValue(v, adj) <= MAX_VALUE
  {}

  lemma ExitBelowZero()
    ensures ExitValue(0, -1) == MAX_VALUE && Capped(0 - 1) == 0
  {}

  // ---- runs ----

  datatype State = State(vals: seq<int>, undos: seq<UndoRec>)

  datatype Event =
    | Batch(j: nat, sops: seq<SemBuf>)  // the process of record j gets through a batch
    | FirstUse(pid: int)                // a process gets a record
    | Exit(j: nat)                      // the process of record j exits

  ghost predicate StateOk(s: State) {
    InRange(s.vals) && UndoOk(|s.vals|, s.undos)
  }

  function Exited(vals: seq<int>, adj: seq<int>): (r: seq<int>)
    requires |adj| == |vals|
    ensures |r| == |vals|
  {
    seq(|vals|, i requires 0 <= i < |vals| => if adj[i] == 0 then vals[i] else ExitValue(vals[i], adj[i]))
  }

  ghost predicate Enabled(s: State, e: Event)
    requires StateOk(s)
  {
    match e
    case Batch(j, sops) => j < |s.undos| && ValidOps(|s.vals|, sops) && PassesUpTo(s.vals, s.undos[j].adj, sops, |sops|)
    case FirstUse(pid) => forall k :: 0 <= k < |s.undos| ==> s.undos[k].pid != pid
    case Exit(j) => j < |s.undos|
  }

  ghost function After(s: State, e: Event): State
    requires StateOk(s) && Enabled(s, e)
  {
    match e
    case Batch(j, sops) =>
      State(ValsAfter(s.vals, sops, |sops|), s.undos[j := UndoRec(s.undos[j].pid, AdjAfter(s.undos[j].adj, sops, 0))])
    case FirstUse(pid) => State(s.vals, s.undos + [UndoRec(pid, seq(|s.vals|, _ => 0))])
    case Exit(j) => State(Exited(s.vals, s.undos[j].adj), s.undos[..j] + s.undos[j + 1..])
  }

  lemma StaysOk(s: State, e: Event)
    requires StateOk(s) && Enabled(s, e)
    ensures StateOk(After(s, e)) && |After(s, e).vals| == |s.vals|
  {
    match e {
      case Batch(j, sops) =>
        ValsStayInRange(s.vals, s.undos[j].adj, sops, |sops|);
        AdjStaysShort(s.undos[j].adj, sops, 0);
      case FirstUse(pid) =>
      case Exit(j) =>
        forall i | 0 <= i < |s.vals| ensures 0 <= After(s, e).vals[i] <= MAX_VALUE {
          ExitValueMeaning(s.vals[i], s.undos[j].adj[i]);
        }
    }
  }

  /** The value of semaphore i together with everything that exits will still add to it. */
  function Balance(s: State, i: nat): int
    requires i < |s.vals| && UndoOk(|s.vals|, s.undos)
  {
    s.vals[i] + AdjSum(s.undos, i)
  }

  /** What an event adds for good: the operations that are not to be undone. */
  function Plain(e: Event, i: nat): int {
    if e.Batch? then OpSum(e.sops, i, |e.sops|, false) - OpSum(e.sops, i, |e.sops|, true) else 0
  }

  /** An exit hits no cap at semaphore i. */
  predicate Uncapped(s: State, e: Event, i: nat)
    requires i < |s.vals| && UndoOk(|s.vals|, s.undos)
  {
    e.Exit? && e.j < |s.undos| ==> 0 <= s.vals[i] + s.undos[e.j].adj[i] <= MAX_VALUE
  }

  /** No adjustment overflows its short. */
  predicate Unwrapped(s: State, e: Event, i: nat)
    requires i < |s.vals| && UndoOk(|s.vals|, s.undos)
  {
    e.Batch? && e.j < |s.undos| ==> -0x8000 <= s.undos[e.j].adj[i] - OpSum(e.sops, i, |e.sops|, true) < 0x8000
  }

  lemma BatchConserves(s: State, j: nat, sops: seq<SemBuf>, i: nat)
    requires StateOk(s) && Enabled(s, Batch(j, sops)) && i < |s.vals| && StateOk(After(s, Batch(j, sops)))
    ensures |After(s, Batch(j, sops)).vals| == |s.vals|
    ensures (Balance(After(s, Batch(j, sops)), i) - Balance(s, i) - Plain(Batch(j, sops), i)) % 0x1_0000 == 0
    ensures Balance(After(s, Batch(j, sops)), i) == Balance(s, i) + Plain(Batch(j, sops), i)
       <==> Unwrapped(s, Batch(j, sops), i)
  {
    hide UndoOk, InRange, PassesUpTo, AdjAfter, ValsAfter, OpSum, Short, AdjSum, IsAdj, ValidOps;
    SizesOf(s, j, i);
    ValsAreSums(s.vals, sops, |sops|, i);
    AdjIsSum(s.undos[j].adj, sops, 0, i);
    NoOps(sops, i);
    AdjSumUpdate(s.undos, i, j, UndoRec(s.undos[j].pid, AdjAfter(s.undos[j].adj, sops, 0)));
    ShortTwice(s.undos[j].adj[i] - OpSum(sops, i, |sops|, true), 0);
  }

  lemma SizesOf(s: State, j: nat, i: nat)
    requires UndoOk(|s.vals|, s.undos) && j < |s.undos| && i < |s.vals|
    ensures IsAdj(|s.vals|, s.undos[j].adj) && forall k :: 0 <= k < |s.undos| ==> i < |s.undos[k].adj|
  {}

  lemma NoOps(sops: seq<SemBuf>, i: nat)
    ensures OpSum(sops, i, 0, true) == 0
  {}

  lemma ExitConserves(s: State, j: nat, i: nat)
    requires StateOk(s) && j < |s.undos| && i < |s.vals| && StateOk(After(s, Exit(j)))
    ensures Uncapped(s, Exit(j), i) <==> Balance(After(s, Exit(j)), i) == Balance(s, i)
  {
    hide InRange, AdjSum, Exited, ExitValue;
    SizesOf(s, j, i);
    AdjSumRemove(s.undos, i, j);
    ExitedAt(s.vals, s.undos[j].adj, i);
  }

  /** The sum itself becomes the value exactly if it needs no cap. */
  lemma ExitedAt(vals: seq<int>, adj: seq<int>, i: nat)
    requires |adj| == |vals| && i < |vals| && InRange(vals) && IsAdj(|vals|, adj)
    ensures Exited(vals, adj)[i] == vals[i] + adj[i] <==> 0 <= vals[i] + adj[i] <= MAX_VALUE
  {
    ExitValueMeaning(vals[i], adj[i]);
  }

  /** One event changes the balance by its plain operations exactly if no exit needs a cap and no adjustment overflows;
      an overflow is a matter of multiples of 2^16. */
  lemma EventConserves(s: State, e: Event, i: nat)
    requires StateOk(s) && Enabled(s, e) && i < |s.vals|
    ensures StateOk(After(s, e)) && i < |After(s, e).vals|
    ensures Uncapped(s, e, i) ==> (Balance(After(s, e), i) - Balance(s, i) - Plain(e, i)) % 0x1_0000 == 0
    ensures Balance(After(s, e), i) == Balance(s, i) + Plain(e, i) <==> Uncapped(s, e, i) && Unwrapped(s, e, i)
  {
    StaysOk(s, e);
    match e {
      case Batch(j, sops) => BatchConserves(s, j, sops, i);
      case FirstUse(pid) =>
        var undos' := s.undos + [UndoRec(pid, seq(|s.vals|, _ => 0))];
        assert undos'[..|undos'| - 1] == s.undos;
      case Exit(j) => ExitConserves(s, j, i);
    }
  }

  /** A batch of three operations on one semaphore, two of them to be undone. */
  function OverflowOps(): seq<SemBuf> {
    [SemBuf(0, -20000, false, true), SemBuf(0, 20000, false, false), SemBuf(0, -20000, false, true)]
  }

  lemma OverflowVals(vals: seq<int>)
    requires vals == [30000]
    ensures ValidOps(1, OverflowOps())
    ensures ValsAfter(vals, OverflowOps(), 1) == [10000] && ValsAfter(vals, OverflowOps(), 2) == [30000]
    ensures ValsAfter(vals, OverflowOps(), 3) == [10000] && PassesUpTo(vals, [0], OverflowOps(), 3)
  {
    var sops := OverflowOps();
    assert ValsAfter(vals, sops, 0) == [30000];
    assert ValsAfter(vals, sops, 1) == [10000];
    assert ValsAfter(vals, sops, 2) == [30000];
  }

  lemma OverflowAdj()
    ensures ValidOps(1, OverflowOps()) && AdjAfter([0], OverflowOps(), 0) == [-25536]
    ensures OpSum(OverflowOps(), 0, 3, true) == -40000
  {
    var sops := OverflowOps();
    assert AdjAfter([0], sops, 3) == [0] && AdjAfter([0], sops, 2) == [20000];
    assert AdjAfter([0], sops, 1) == [20000];
    assert OpSum(sops, 0, 1, true) == -20000 && OpSum(sops, 0, 2, true) == -20000;
  }

  /** A batch that passes every check and whose adjustment overflows: the check looks at each operation alone. The
      adjustment should be 40000. */
  lemma AdjustmentOverflows()
    ensures var s, e := State([30000], [UndoRec(1, [0])]), Batch(0, OverflowOps());
            && StateOk(s) && Enabled(s, e) && After(s, e) == State([10000], [UndoRec(1, [-25536])])
            && !Unwrapped(s, e, 0) && Balance(After(s, e), 0) != Balance(s, 0) + Plain(e, 0)
  {
    hide OverflowOps, ValsAfter, AdjAfter, OpSum, PassesUpTo, ValidOps, Balance, Plain;
    var s, sops := State([30000], [UndoRec(1, [0])]), OverflowOps();
    OverflowVals(s.vals);
    OverflowAdj();
    OpsLength();
    assert s.undos[0 := UndoRec(1, [-25536])] == [UndoRec(1, [-25536])];
    EventConserves(s, Batch(0, sops), 0);
  }

  lemma OpsLength()
    ensures |OverflowOps()| == 3
  {}

  function Last(run: seq<State>): State
    requires run != []
  {
    run[|run| - 1]
  }

  /** A run: every state follows from the one before by the event between them. */
  ghost predicate IsRun(run: seq<State>, events: seq<Event>) {
    && |run| == |events| + 1 && StateOk(run[0])
    && forall k ::
      0 <= k < |events| ==> StateOk(run[k]) && Enabled(run[k], events[k]) && run[k + 1] == After(run[k], events[k])
  }

  function PlainSum(events: seq<Event>, i: nat): int {
    if events == [] then 0 else PlainSum(events[..|events| - 1], i) + Plain(events[|events| - 1], i)
  }

  /** No exit of the run hits a cap at semaphore i, and no adjustment overflows. */
  ghost predicate Clean(run: seq<State>, events: seq<Event>, i: nat)
    requires IsRun(run, events)
  {
    forall k ::
      0 <= k < |events| ==> i < |run[k].vals| && Uncapped(run[k], events[k], i) && Unwrapped(run[k], events[k], i)
  }

  /** Over a whole run, undone operations leave no trace: only the plain ones change the balance. */
  lemma {:induction false} RunConserves(run: seq<State>, events: seq<Event>, i: nat)
    requires IsRun(run, events) && i < |run[0].vals|
    requires Clean(run, events, i)
    ensures StateOk(Last(run)) && i < |Last(run).vals|
    ensures Balance(Last(run), i) == Balance(run[0], i) + PlainSum(events, i)
    decreases |events|
  {
    hide InRange, Enabled, After, AdjSum, Plain, Uncapped, Unwrapped;
    if events != [] {
      var n := |events| - 1;
      Shorter(run, events);
      var front, evs := run[..n + 1], events[..n];
      forall k | 0 <= k < |evs|
        ensures i < |front[k].vals| && Uncapped(front[k], evs[k], i) && Unwrapped(front[k], evs[k], i)
      {
        assert evs[k] == events[k] && front[k] == run[k];
      }
      RunConserves(front, evs, i);
      assert events[n] == events[|events| - 1];
      EventConserves(run[n], events[n], i);
    }
  }

  /** With overflows, but no cap, that is so modulo 2^16. */
  lemma {:induction false} RunConservesModulo(run: seq<State>, events: seq<Event>, i: nat)
    requires IsRun(run, events) && i < |run[0].vals|
    requires forall k :: 0 <= k < |events| ==> i < |run[k].vals| && Uncapped(run[k], events[k], i)
    ensures StateOk(Last(run)) && i < |Last(run).vals|
    ensures (Balance(Last(run), i) - Balance(run[0], i) - PlainSum(events, i)) % 0x1_0000 == 0
    decreases |events|
  {
    hide InRange, Enabled, After, AdjSum, Plain, Uncapped;
    if events != [] {
      var n := |events| - 1;
      Shorter(run, events);
      var front, evs := run[..n + 1], events[..n];
      forall k | 0 <= k < |evs| ensures i < |front[k].vals| && Uncapped(front[k], evs[k], i) {
        assert evs[k] == events[k] && front[k] == run[k];
      }
      RunConservesModulo(front, evs, i);
      assert events[n] == events[|events| - 1];
      EventConserves(run[n], events[n], i);
      MultiplesAdd(Balance(run[n + 1], i), Balance(run[n], i), Balance(run[0], i), PlainSum(events[..n], i),
          Plain(events[n], i));
    } else {
      NoDifference(Balance(run[0], i));
    }
  }

  lemma Shorter(run: seq<State>, events: seq<Event>)
    requires IsRun(run, events) && events != []
    ensures var n := |events| - 1;
            && IsRun(run[..n + 1], events[..n]) && Last(run[..n + 1]) == run[n] && StateOk(run[n])
              && Enabled(run[n], events[n])
            && run[n + 1] == After(run[n], events[n]) == Last(run)
  {
    hide StateOk, Enabled, After;
    var n := |events| - 1;
    var front, evs := run[..n + 1], events[..n];
    forall k | 0 <= k < n
      ensures StateOk(front[k]) && Enabled(front[k], evs[k]) && front[k + 1] == After(front[k], evs[k])
    {
      assert evs[k] == events[k] && front[k] == run[k] && front[k + 1] == run[k + 1];
    }
    assert front[0] == run[0] && events[n] == events[|events| - 1];
  }

  lemma NoDifference(x: int)
    ensures (x - x - 0) % 0x1_0000 == 0
  {}

  lemma MultiplesAdd(z: int, y: int, x: int, p: int, q: int)
    requires (y - x - p) % 0x1_0000 == 0 && (z - y - q) % 0x1_0000 == 0
    ensures (z - x - (p + q)) % 0x1_0000 == 0
  {}

  /** When every process that used SEM_UNDO has exited, the values are those of the plain operations alone. */
  lemma NothingLeft(run: seq<State>, events: seq<Event>, i: nat)
    requires IsRun(run, events) && i < |run[0].vals| && run[0].undos == [] && Last(run).undos == []
    requires Clean(run, events, i)
    ensures i < |Last(run).vals| && Last(run).vals[i] == run[0].vals[i] + PlainSum(events, i)
  {
    RunConserves(run, events, i);
  }

  // ---- the set itself ----

  datatype Result = Ok | Wait | Again | OutOfRange | NoMemory

  /** How a try ends, by its first operation that does not pass. */
  ghost predicate Tried(vals: seq<int>, adj: seq<int>, sops: seq<SemBuf>, r: Result)
    requires ValidOps(|vals|, sops) && |adj| == |vals|
  {
    if PassesUpTo(vals, adj, sops, |sops|) then r == Ok
    else exists k :: 0 <= k < |sops| && PassesUpTo(vals, adj, sops, k) && Judge(vals, adj, sops, k) != Passes
           && r == (if Judge(vals, adj, sops, k) == TooBig then OutOfRange else if sops[k].noWait then Again else Wait)
  }

  /** One call of semop, seen from outside: without memory for an undo record nothing happens; else the batch is tried
      on the state in which the process has one. */
  ghost predicate Outcome(before: State, req: Request, after: State, r: Result) {
    if r == NoMemory then after == before && forall k :: 0 <= k < |before.undos| ==> before.undos[k].pid != req.pid
    else exists s: State, j: nat :: TriedOn(before, req, after, r, s, j)
  }

  ghost predicate TriedOn(before: State, req: Request, after: State, r: Result, s: State, j: nat) {
    && StateOk(before) && Recorded(before, req.pid, s) && StateOk(s) && j < |s.undos| && s.undos[j].pid == req.pid
    && ValidOps(|s.vals|, req.sops) && |s.undos[j].adj| == |s.vals| && Tried(s.vals, s.undos[j].adj, req.sops, r)
    && (if r == Ok then Enabled(s, Batch(j, req.sops)) && after == After(s, Batch(j, req.sops)) else after == s)
  }

  /** The process has got a record, or had one. */
  ghost predicate Recorded(before: State, pid: int, s: State)
    requires StateOk(before)
  {
    s == before || (Enabled(before, FirstUse(pid)) && s == After(before, FirstUse(pid)))
  }

  /** Every call is a short run, so that what holds of runs holds of sequences of calls. */
  lemma CallIsRun(before: State, req: Request, after: State, r: Result) returns (run: seq<State>, events: seq<Event>)
    requires StateOk(before) && Outcome(before, req, after, r)
    ensures IsRun(run, events) && run[0] == before && Last(run) == after
  {
    hide StateOk, Enabled, After, Tried, ValidOps;
    run, events := [before], [];
    if r != NoMemory {
      var s := CallState(before, req, after, r);
      if s != before {
        run, events := [before, s], [FirstUse(req.pid)];
        OneStep(before, FirstUse(req.pid), s);
      }
      if r == Ok {
        var j: nat :| Enabled(s, Batch(j, req.sops)) && after == After(s, Batch(j, req.sops));
        OneStep(s, Batch(j, req.sops), after);
        RunsJoin(run, events, [s, after], [Batch(j, req.sops)]);
        run, events := run + [s, after][1..], events + [Batch(j, req.sops)];
      }
    }
  }

  lemma CallState(before: State, req: Request, after: State, r: Result) returns (s: State)
    requires StateOk(before) && Outcome(before, req, after, r) && r != NoMemory
    ensures StateOk(s) && Recorded(before, req.pid, s)
    ensures if r == Ok then exists j: nat ::
      Enabled(s, Batch(j, req.sops)) && after == After(s, Batch(j, req.sops)) else after == s
  {
    hide Enabled, After, Tried, Recorded;
    var j: nat;
    s, j :| TriedOn(before, req, after, r, s, j);
  }

  lemma OneStep(s: State, e: Event, s': State)
    requires StateOk(s) && Enabled(s, e) && s' == After(s, e)
    ensures IsRun([s, s'], [e])
  {
    hide StateOk, Enabled, After;
  }

  /** Runs one after the other are a run. */
  lemma RunsJoin(a: seq<State>, d: seq<Event>, b: seq<State>, e: seq<Event>)
    requires IsRun(a, d) && IsRun(b, e) && Last(a) == b[0]
    ensures IsRun(a + b[1..], d + e) && (a + b[1..])[0] == a[0] && Last(a + b[1..]) == Last(b)
  {
    hide StateOk, Enabled, After;
    var run, events := a + b[1..], d + e;
    forall k | 0 <= k < |events|
      ensures StateOk(run[k]) && Enabled(run[k], events[k]) && run[k + 1] == After(run[k], events[k])
    {
      if k < |d| {
        assert events[k] == d[k];
      } else {
        assert events[k] == e[k - |d|] && run[k] == b[k - |d|] && run[k + 1] == b[k - |d| + 1];
      }
    }
  }

  ghost predicate WaitsIn(s: State, req: Request) {
    exists j {:trigger s.undos[j]} :: 0 <= j < |s.undos| && s.undos[j].pid == req.pid && |s.undos[j].adj| == |s.vals|
      && ValidOps(|s.vals|, req.sops) && MustWait(s.vals, s.undos[j].adj, req.sops)
  }

  /** A new record makes nobody's batch go through. */
  lemma WaitsAfterFirstUse(s: State, req: Request, rec: UndoRec)
    requires WaitsIn(s, req)
    ensures WaitsIn(State(s.vals, s.undos + [rec]), req)
  {
    var j :| 0 <= j < |s.undos| && s.undos[j].pid == req.pid && |s.undos[j].adj| == |s.vals|
             && ValidOps(|s.vals|, req.sops) && MustWait(s.vals, s.undos[j].adj, req.sops);
    assert (s.undos + [rec])[j] == s.undos[j];
  }

  lemma TriedWaits(vals: seq<int>, adj: seq<int>, sops: seq<SemBuf>)
    requires ValidOps(|vals|, sops) && |adj| == |vals| && Tried(vals, adj, sops, Wait)
    ensures MustWait(vals, adj, sops)
  {}

  /** The threads of other processes. */
  function Others(threads: map<nat, Request>, pid: int): map<nat, Request> {
    map t | t in threads && threads[t].pid != pid :: threads[t]
  }

  lemma OthersOfBoth(a: map<nat, Request>, b: map<nat, Request>, pid: int)
    requires forall t {:trigger t in b} :: t in b ==> t !in a
    ensures Others(a, pid) + Others(b, pid) == Others(a + b, pid)
  {}

  class SemSet {
    const semval: array<int>
    const sempid: array<int>
    const scarce: bool               // may memory run out?
    var undos: seq<UndoRec>
    var blocked: map<nat, Request>   // threads waiting on the set's notification
    var ready: map<nat, Request>     // threads notified that have yet to take the lock and try again

    constructor (n: nat, scarce: bool)
      requires 0 < n
      ensures this.scarce == scarce
      ensures Valid() && semval.Length == n && fresh(semval) && fresh(sempid)
      ensures forall i :: 0 <= i < n ==> semval[i] == 0
    {
      semval := new int[n](_ => 0);
      sempid := new int[n](_ => 0);
      this.scarce := scarce;
      undos, blocked, ready := [], map[], map[];
    }

    ghost function Now(): State
      reads this`undos, semval
    {
      State(semval[..], undos)
    }

    /** The thread's batch cannot go through, and its process has an undo record. */
    ghost predicate StillWaits(req: Request)
      reads this`undos, semval
    {
      WaitsIn(Now(), req)
    }

    ghost predicate Sound()
      reads this, semval, sempid
    {
      && semval.Length == sempid.Length && semval != sempid && 0 < semval.Length && StateOk(Now())
      && (forall t {:trigger blocked[t]} {:trigger t in blocked} ::
           t in blocked ==> t !in ready && ValidOps(semval.Length, blocked[t].sops))
      && (forall t {:trigger ready[t]} {:trigger t in ready} :: t in ready ==> ValidOps(semval.Length, ready[t].sops))
    }

    /** No wakeup is lost: while the lock is free, nobody waits whose batch could go through or fail. */
    ghost predicate Valid()
      reads this, semval, sempid
    {
      Sound() && forall t {:trigger t in blocked} :: t in blocked ==> StillWaits(blocked[t])
    }

    /** do_try_semop: all of the batch or nothing. */
    method TrySemop(j: nat, sops: seq<SemBuf>, pid: int) returns (r: Result)
      requires semval.Length == sempid.Length && semval != sempid && StateOk(Now()) && j < |undos|
        && ValidOps(semval.Length, sops)
      modifies this`undos, semval, sempid
      ensures Tried(old(semval[..]), old(undos)[j].adj, sops, r)
      ensures r == Ok ==> Enabled(old(Now()), Batch(j, sops)) && Now() == After(old(Now()), Batch(j, sops))
      ensures r == Ok ==>
        forall i :: 0 <= i < sempid.Length ==> sempid[i] == if Touched(sops, i) then pid else old(sempid[i])
      ensures r != Ok ==> Now() == old(Now()) && sempid[..] == old(sempid[..])
    {
      ghost var vals, adj := semval[..], undos[j].adj;
      r := Ok;
      var i := 0;
      while i < |sops|
        invariant 0 <= i <= |sops| && r == Ok && undos == old(undos) && sempid[..] == old(sempid[..])
        invariant semval[..] == ValsAfter(vals, sops, i) && PassesUpTo(vals, adj, sops, i)
      {
        ValsStayInRange(vals, adj, sops, i);
        var sop := sops[i];
        assert semval[sop.num] == ValsAfter(vals, sops, i)[sop.num];
        var result := semval[sop.num];
        if sop.op == 0 && result != 0 {
          r := if sop.noWait then Again else Wait;
          break;
        }
        result := result + sop.op;
        if result < 0 {
          r := if sop.noWait then Again else Wait;
          break;
        }
        if result > MAX_VALUE {
          r := OutOfRange;
          break;
        }
        if sop.undo {
          var undo := undos[j].adj[sop.num] - sop.op;
          if undo < -MAX_VALUE - 1 || undo > MAX_VALUE {
            r := OutOfRange;
            break;
          }
        }
        semval[sop.num] := result;
        i := i + 1;
      }
      if r != Ok {
        assert Judge(vals, adj, sops, i) != Passes;
        RollBack(i, sops, vals, adj);
        return;
      }
      Record(j, sops, pid);
    }

    /** Take the operations that went through back, last one first. */
    method RollBack(n: nat, sops: seq<SemBuf>, ghost vals: seq<int>, ghost adj: seq<int>)
      requires n <= |sops| && |vals| == |adj| == semval.Length && ValidOps(semval.Length, sops) && InRange(vals)
      requires PassesUpTo(vals, adj, sops, n) && semval[..] == ValsAfter(vals, sops, n)
      modifies semval
      ensures semval[..] == vals
    {
      var i := n;
      while i > 0
        invariant 0 <= i <= n && semval[..] == ValsAfter(vals, sops, i)
      {
        i := i - 1;
        ValsStayInRange(vals, adj, sops, i);
        ghost var p := ValsAfter(vals, sops, i);
        assert semval[sops[i].num] == ValsAfter(vals, sops, i + 1)[sops[i].num] == p[sops[i].num] + sops[i].op;
        semval[sops[i].num] := UShort(semval[sops[i].num] - sops[i].op);
        assert semval[..] == p;
      }
    }

    /** Note the process, and what has to be undone when it exits. */
    method Record(j: nat, sops: seq<SemBuf>, pid: int)
      requires j < |undos| && semval.Length == sempid.Length && |undos[j].adj| == sempid.Length
        && ValidOps(sempid.Length, sops)
      modifies this`undos, sempid
      ensures undos == old(undos)[j := UndoRec(old(undos)[j].pid, AdjAfter(old(undos)[j].adj, sops, 0))]
      ensures forall i :: 0 <= i < sempid.Length ==> sempid[i] == if Touched(sops, i) then pid else old(sempid[i])
    {
      var i := |sops|;
      while i > 0
        invariant 0 <= i <= |sops| && |undos| == |old(undos)|
          && undos == old(undos)[j := UndoRec(old(undos)[j].pid, AdjAfter(old(undos)[j].adj, sops, i))]
        invariant forall k ::
          0 <= k < sempid.Length ==> sempid[k] == if Touched(sops[i..], k) then pid else old(sempid[k])
      {
        i := i - 1;
        assert sops[i..] == [sops[i]] + sops[i + 1..];
        sempid[sops[i].num] := pid;
        if sops[i].undo {
          var adj := undos[j].adj;
          undos := undos[j := undos[j].(adj := adj[sops[i].num := Short(adj[sops[i].num] - sops[i].op)])];
        }
      }
      assert sops[0..] == sops;
    }

    method FindUndo(pid: int) returns (j: int)
      requires UndoOk(semval.Length, undos)
      ensures -1 <= j < |undos| && (j >= 0 ==> undos[j].pid == pid)
      ensures j < 0 ==> forall k :: 0 <= k < |undos| ==> undos[k].pid != pid
    {
      j := 0;
      while j < |undos|
        invariant 0 <= j <= |undos| && forall k :: 0 <= k < j ==> undos[k].pid != pid
      {
        if undos[j].pid == pid {
          return;
        }
        j := j + 1;
      }
      j := -1;
    }

    /** Wake every thread that waits. */
    method Notify()
      requires Sound()
      modifies this`blocked, this`ready
      ensures Valid() && blocked == map[] && ready == old(ready) + old(blocked)
    {
      ready := ready + blocked;
      blocked := map[];
    }

    /** A first undo record of a process. */
    method AddUndo(pid: int)
      requires Valid() && Enabled(Now(), FirstUse(pid))
      modifies this`undos
      ensures Valid() && Now() == After(old(Now()), FirstUse(pid))
      ensures |undos| == |old(undos)| + 1 && undos[|undos| - 1].pid == pid
    {
      hide StateOk, WaitsIn;
      ghost var s := Now();
      undos := undos + [UndoRec(pid, seq(semval.Length, _ => 0))];
      StaysOk(s, FirstUse(pid));
      forall t | t in blocked ensures StillWaits(blocked[t]) {
        WaitsAfterFirstUse(s, blocked[t], undos[|undos| - 1]);
      }
    }

    /** The undo record of a process, made on first use; -1 if there is no memory for it. */
    method HaveUndo(pid: int) returns (j: int)
      requires Valid()
      modifies this`undos
      ensures Valid() && -1 <= j < |undos| && (j >= 0 ==> undos[j].pid == pid)
      ensures Now() == old(Now()) || (Enabled(old(Now()), FirstUse(pid)) && Now() == After(old(Now()), FirstUse(pid)))
      ensures j < 0 ==> scarce && Now() == old(Now()) && forall k :: 0 <= k < |undos| ==> undos[k].pid != pid
    {
      hide After, StillWaits;
      j := FindUndo(pid);
      if j < 0 {
        var haveMemory: bool := *;
        if haveMemory || !scarce {
          AddUndo(pid);
          j := |undos| - 1;
        }
      }
    }

    /** Who waits and who was woken, after thread t's call ended with r. */
    ghost predicate Scheduled(t: nat, req: Request, r: Result, blocked0: map<nat, Request>, ready0: map<nat, Request>)
      reads this`blocked, this`ready
    {
      match r
      case Ok => blocked == map[] && ready == ready0 + blocked0
      case Wait => blocked == blocked0[t := req] && ready == ready0
      case _ => blocked == blocked0 && ready == ready0
    }

    /** One round of do_semop under the lock. It ends with the batch done and everybody woken, with an error and nothing
        changed, or with the thread waiting because its batch has to. */
    method Round(t: nat, req: Request) returns (r: Result)
      requires Valid() && t !in blocked && t !in ready && ValidOps(semval.Length, req.sops)
      modifies this, semval, sempid
      ensures Valid() && Outcome(old(Now()), req, Now(), r) && Scheduled(t, req, r, old(blocked), old(ready))
      ensures r == NoMemory ==> scarce
      ensures forall i ::
        0 <= i < sempid.Length ==> sempid[i] == if r == Ok && Touched(req.sops, i) then req.pid else old(sempid[i])
    {
      hide UndoOk, InRange, PassesUpTo, Judge, Touched, ValsAfter, Tried;
      ghost var before := Now();
      var j := HaveUndo(req.pid);
      if j < 0 {
        return NoMemory;
      }
      ghost var s := Now();
      SizesOf(s, j, 0);
      r := Settle(t, req, j);
      assert TriedOn(before, req, Now(), r, s, j);
    }

    /** Try, and then wake everybody or wait. */
    method Settle(t: nat, req: Request, j: nat) returns (r: Result)
      requires Valid() && t !in blocked && t !in ready && ValidOps(semval.Length, req.sops) && j < |undos|
        && undos[j].pid == req.pid
      modifies this, semval, sempid
      ensures Valid() && r != NoMemory && Scheduled(t, req, r, old(blocked), old(ready))
      ensures |old(undos)[j].adj| == semval.Length && Tried(old(semval[..]), old(undos)[j].adj, req.sops, r)
      ensures r == Ok ==> Enabled(old(Now()), Batch(j, req.sops)) && Now() == After(old(Now()), Batch(j, req.sops))
      ensures r != Ok ==> Now() == old(Now())
      ensures forall i ::
        0 <= i < sempid.Length ==> sempid[i] == if r == Ok && Touched(req.sops, i) then req.pid else old(sempid[i])
    {
      hide UndoOk, InRange, PassesUpTo, Judge, Touched, ValsAfter, MustWait;
      ghost var s, pids := Now(), sempid[..];
      SizesOf(s, j, 0);
      r := TrySemop(j, req.sops, req.pid);
      assert r != Ok ==> forall i :: 0 <= i < sempid.Length ==> sempid[i] == sempid[..][i] == pids[i];
      if r == Ok {
        StaysOk(s, Batch(j, req.sops));
        Notify();
      } else if r == Wait {
        TriedWaits(s.vals, s.undos[j].adj, req.sops);
        blocked := blocked[t := req];
        assert WaitsIn(s, req);
      }
    }

    /** semop by a thread that is not yet waiting. */
    method Semop(t: nat, pid: int, sops: seq<SemBuf>) returns (r: Result)
      requires Valid() && t !in blocked && t !in ready && ValidOps(semval.Length, sops)
      modifies this, semval, sempid
      ensures Valid() && Outcome(old(Now()), Request(pid, sops), Now(), r)
        && Scheduled(t, Request(pid, sops), r, old(blocked), old(ready))
      ensures r == NoMemory ==> scarce
      ensures forall i ::
        0 <= i < sempid.Length ==> sempid[i] == if r == Ok && Touched(sops, i) then pid else old(sempid[i])
    {
      hide Outcome, Touched;
      r := Round(t, Request(pid, sops));
    }

    /** A notified thread tries again. */
    method Retry(t: nat) returns (r: Result)
      requires Valid() && t in ready
      modifies this, semval, sempid
      ensures var req := old(ready)[t];
              Valid() && Outcome(old(Now()), req, Now(), r) && Scheduled(t, req, r, old(blocked), old(ready) - {t})
      ensures r == NoMemory ==> scarce
      ensures forall i :: 0 <= i < sempid.Length ==>
        sempid[i] == if r == Ok && Touched(old(ready)[t].sops, i) then old(ready)[t].pid else old(sempid[i])
    {
      hide Outcome, Touched;
      var req := ready[t];
      ready := ready - {t};
      r := Round(t, req);
    }

    /** The wait of a thread times out. */
    method TimeOut(t: nat) returns (r: Result)
      requires Valid() && t in blocked
      modifies this`blocked
      ensures Valid() && r == Again && blocked == old(blocked) - {t}
    {
      blocked := blocked - {t};
      r := Again;
    }

    method SetVal(num: int, val: int, pid: int) returns (ok: bool)
      requires Valid()
      modifies this`blocked, this`ready, semval, sempid
      ensures Valid() && (ok <==> 0 <= num < semval.Length && 0 <= val <= MAX_VALUE)
      ensures semval[..] == if ok then old(semval[..])[num := val] else old(semval[..])
      ensures sempid[..] == if ok then old(sempid[..])[num := pid] else old(sempid[..])
      ensures if ok then blocked == map[] && ready == old(ready) + old(blocked)
        else blocked == old(blocked) && ready == old(ready)
    {
      ok := 0 <= num < semval.Length && 0 <= val <= MAX_VALUE;
      if ok {
        semval[num] := val;
        sempid[num] := pid;
        Notify();
      }
    }

    method SetAll(vals: seq<int>, pid: int) returns (ok: bool)
      requires Valid() && |vals| >= semval.Length && forall i :: 0 <= i < |vals| ==> vals[i] == UShort(vals[i])
      modifies this`blocked, this`ready, semval, sempid
      ensures Valid() && (ok <==> InRange(vals[..semval.Length]))
      ensures semval[..] == if ok then vals[..semval.Length] else old(semval[..])
      ensures forall i :: 0 <= i < sempid.Length ==> sempid[i] == if ok then pid else old(sempid[i])
      ensures if ok then blocked == map[] && ready == old(ready) + old(blocked)
        else blocked == old(blocked) && ready == old(ready)
    {
      var i := 0;
      while i < semval.Length
        invariant 0 <= i <= semval.Length && forall k :: 0 <= k < i ==> vals[k] <= MAX_VALUE
      {
        if vals[i] > MAX_VALUE {
          assert !InRange(vals[..semval.Length]) by {
            assert vals[..semval.Length][i] > MAX_VALUE;
          }
          return false;
        }
        i := i + 1;
      }
      i := 0;
      while i < semval.Length
        invariant 0 <= i <= semval.Length
        invariant forall k :: 0 <= k < i ==> semval[k] == vals[k] && sempid[k] == pid
        modifies semval, sempid
      {
        semval[i] := vals[i];
        sempid[i] := pid;
        i := i + 1;
      }
      assert semval[..] == vals[..semval.Length];
      Notify();
      ok := true;
    }

    /** Add the adjustments of an exiting process. */
    method ApplyAdj(adj: seq<int>, pid: int)
      requires |adj| == semval.Length == sempid.Length && semval != sempid && InRange(semval[..])
      modifies semval, sempid
      ensures semval[..] == Exited(old(semval[..]), adj)
      ensures forall k :: 0 <= k < sempid.Length ==> sempid[k] == if adj[k] != 0 then pid else old(sempid[k])
    {
      ghost var vals := semval[..];
      var i := 0;
      while i < semval.Length
        invariant 0 <= i <= semval.Length
        invariant forall k :: 0 <= k < semval.Length ==> semval[k] == if k < i then Exited(vals, adj)[k] else vals[k]
        invariant forall k ::
          0 <= k < sempid.Length ==> sempid[k] == if k < i && adj[k] != 0 then pid else old(sempid[k])
      {
        if adj[i] != 0 {
          semval[i] := UShort(semval[i] + adj[i]);
          // the value is unsigned: the source's cap at 0 has no effect
          if semval[i] > MAX_VALUE {
            semval[i] := MAX_VALUE;
          }
          sempid[i] := pid;
        }
        i := i + 1;
      }
      assert semval[..] == Exited(vals, adj);
    }

    /** A process exits. Its own threads are gone. If it has an undo record that is applied and dropped, and every other
        thread that waits is woken; if it has none the others go on waiting. */
    method ExitPid(pid: int) returns (ghost j: int)
      requires Valid()
      modifies this, semval, sempid
      ensures Valid() && j < |old(undos)|
      ensures if j >= 0
              then && old(undos)[j].pid == pid && Now() == After(old(Now()), Exit(j))
                   && blocked == map[] && ready == Others(old(ready) + old(blocked), pid)
              else && (forall k :: 0 <= k < |old(undos)| ==> old(undos)[k].pid != pid) && Now() == old(Now())
                   && blocked == Others(old(blocked), pid) && ready == Others(old(ready), pid)
      ensures j >= 0 ==> |old(undos)[j].adj| == sempid.Length
      ensures forall i :: 0 <= i < sempid.Length ==>
        sempid[i] == if j >= 0 && old(undos)[j].adj[i] != 0 then pid else old(sempid[i])
      ensures forall k :: 0 <= k < |undos| ==> undos[k].pid != pid
    {
      hide MustWait, UndoOk, InRange, Others, WaitsIn, ValidOps, Exited;
      DropThreads(pid);
      var i := FindUndo(pid);
      j := i;
      if i >= 0 {
        SizesOf(Now(), i, 0);
        ApplyRecord(i, pid);
        Notify();
        OthersOfBoth(old(ready), old(blocked), pid);
      }
    }

    method DropThreads(pid: int)
      requires Valid()
      modifies this`blocked, this`ready
      ensures Valid() && blocked == Others(old(blocked), pid) && ready == Others(old(ready), pid)
    {
      hide MustWait, UndoOk, InRange, WaitsIn;
      blocked := Others(blocked, pid);
      ready := Others(ready, pid);
    }

    method ApplyRecord(j: nat, pid: int)
      requires Sound() && j < |undos| && undos[j].pid == pid
      modifies this`undos, semval, sempid
      ensures Sound() && Now() == After(old(Now()), Exit(j))
      ensures forall k :: 0 <= k < |undos| ==> undos[k].pid != pid
      ensures |old(undos)[j].adj| == sempid.Length
      ensures forall i ::
        0 <= i < sempid.Length ==> sempid[i] == if old(undos)[j].adj[i] != 0 then pid else old(sempid[i])
    {
      hide MustWait, InRange, Exited;
      StaysOk(Now(), Exit(j));
      ApplyAdj(undos[j].adj, pid);
      undos := undos[..j] + undos[j + 1..];
    }
  }

  predicate Touched(sops: seq<SemBuf>, i: int) {
    exists k :: 0 <= k < |sops| && sops[k].num == i
  }
}

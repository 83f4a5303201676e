/** Runs of the statistics state machine from a fresh server, and what the
    count reads after them. The rotation negates the new current slot instead
    of zeroing it, so the amount folded in for interval `m` is
    `d[m] == w[m] - d[m - C]` (`w[m]` the GET requests of that interval):
    the count is cumulative for the first `C` ticks, a sliding sum of the last
    `C` intervals up to `2 * C` ticks, and after that in general neither. */
module History {
  import opened Results
  import opened Ints
  import opened Stats

  /** What drives the statistics: a request with its HTTP method, or a tick of
      the rotation ticker. */
  datatype Event = Request(verb: string) | Tick

  function Step(s: Server, e: Event): Result<Server> {
    match e
    case Request(v) => Increment(s, v)
    case Tick => UpdateStats(s)
  }

  /** The state after the events in order, or the first panic. A valid state
      stays valid: the buffer keeps its `statsBuffSize` slots forever. */
  function Run(s: Server, evs: seq<Event>): (r: Result<Server>)
    ensures Valid(s) ==> r.Ok? && Valid(r.value) && r.value.statsBuffSize == s.statsBuffSize
    decreases |evs|
  {
    if evs == [] then Ok(s)
    else
      var t :- Run(s, evs[..|evs| - 1]);
      Step(t, evs[|evs| - 1])
  }

  function Ticks(evs: seq<Event>): nat
    decreases |evs|
  {
    if evs == [] then 0
    else Ticks(evs[..|evs| - 1]) + (if evs[|evs| - 1].Tick? then 1 else 0)
  }

  predicate IsGet(e: Event) {
    e.Request? && e.verb == MethodGet
  }

  /** GET requests that arrived before the last tick, the ones a rotation has
      already folded into the count. */
  function GetsBeforeLastTick(evs: seq<Event>): nat
    decreases |evs|
  {
    if evs == [] then 0
    else if evs[|evs| - 1].Tick? then Gets(evs[..|evs| - 1])
    else GetsBeforeLastTick(evs[..|evs| - 1])
  }

  function Gets(evs: seq<Event>): nat
    decreases |evs|
  {
    if evs == [] then 0
    else Gets(evs[..|evs| - 1]) + (if IsGet(evs[|evs| - 1]) then 1 else 0)
  }

  /** GET requests per tick interval: entry `m` counts those between tick `m`
      and tick `m + 1`; the last entry is the interval still open. */
  function Intervals(evs: seq<Event>): (w: seq<int>)
    ensures |w| == Ticks(evs) + 1
    ensures forall m :: 0 <= m < |w| ==> w[m] >= 0
    decreases |evs|
  {
    if evs == [] then [0] else Record(Intervals(evs[..|evs| - 1]), evs[|evs| - 1])
  }

  /** One event entered into the interval counts: a tick opens a new interval,
      a GET request counts in the open one. */
  function Record(w: seq<int>, e: Event): (w': seq<int>)
    requires |w| >= 1
    ensures |w'| == |w| + (if e.Tick? then 1 else 0)
    ensures (forall m :: 0 <= m < |w| ==> w[m] >= 0) ==> forall m :: 0 <= m < |w'| ==> w'[m] >= 0
  {
    if e.Tick? then w + [0]
    else if IsGet(e) then w[|w| - 1 := w[|w| - 1] + 1]
    else w
  }

  /** The intervals account for every GET request, and the closed ones for
      exactly those before the last tick. */
  lemma {:induction false} IntervalsCount(evs: seq<Event>)
    ensures var w := Intervals(evs);
            Sum(w) == Gets(evs) && Sum(w[..|w| - 1]) == GetsBeforeLastTick(evs)
    decreases |evs|
  {
    if evs != [] {
      var pre, e := evs[..|evs| - 1], evs[|evs| - 1];
      IntervalsCount(pre);
      var w := Intervals(pre);
      var n := |w| - 1;
      if e.Tick? {
        assert Intervals(evs) == w + [0];
        assert (w + [0])[..|w|] == w;
        SumConcat(w, [0]);
      } else if IsGet(e) {
        SumUpdate(w, n, w[n] + 1);
        assert w[n := w[n] + 1][..n] == w[..n];
      }
    }
  }

  /** The amount each interval contributes to the count, as written: an
      interval's slot starts at the negation of what the same slot contributed
      one cycle (`c` intervals) earlier. */
  function Folded(w: seq<int>, c: nat): (d: seq<int>)
    requires c > 0
    ensures |d| == |w|
    decreases |w|
  {
    if w == [] then []
    else
      var n := |w| - 1;
      var p := Folded(w[..n], c);
      p + [w[n] - (if n >= c then p[n - c] else 0)]
  }

  /** The state a run from a fresh server reaches, described by the folded
      amounts `d` (the last one is the open interval): the cursor sits on slot
      `(|d| - 1) mod c`, the count is the sum of the closed intervals' amounts,
      each of the last `c` intervals owns its slot, and slots never reached are 0. */
  predicate Mirrors(s: Server, d: seq<int>, c: int) {
    && c > 0 && |d| >= 1
    && s.statsBuffSize == c
    && s.stats.iter == Wrap(|d| - 1, c)
    && s.stats.currentCount == Sum(d[..|d| - 1])
    && Window(s.stats.buffer, d, c)
  }

  /** The buffer holds the amounts of the last `c` intervals, each in its
      slot, and 0 in the slots no interval has reached yet. */
  predicate Window(b: seq<int>, d: seq<int>, c: int) {
    && c > 0 && |b| == c
    && (forall m {:trigger b[Wrap(m, c)]} :: 0 <= m < |d| && |d| - c <= m ==> b[Wrap(m, c)] == d[m])
    && (forall j :: |d| <= j < c ==> b[j] == 0)
  }

  /** `m mod c` by repeated subtraction: the slot interval `m` is counted in. */
  function Wrap(m: nat, c: nat): (j: nat)
    requires c > 0
    ensures j < c
    ensures m < c ==> j == m
    decreases m
  {
    if m < c then m else Wrap(m - c, c)
  }

  /** The slot after interval `m`'s is the next one, or slot 0 after the last. */
  lemma {:induction false} WrapSucc(m: nat, c: nat)
    requires c > 0
    ensures Wrap(m + 1, c) == if Wrap(m, c) + 1 < c then Wrap(m, c) + 1 else 0
    decreases m
  {
    if m >= c {
      WrapSucc(m - c, c);
    }
  }

  /** Intervals less than a cycle apart use different slots. */
  lemma {:induction false} WrapDistinct(a: nat, b: nat, c: nat)
    requires c > 0 && a < b < a + c
    ensures Wrap(a, c) != Wrap(b, c)
    decreases a
  {
    if a >= c {
      WrapDistinct(a - c, b - c, c);
    } else if b >= c {
      assert Wrap(b, c) == Wrap(b - c, c);
    }
  }

  /** `Wrap` is the Euclidean remainder. */
  lemma {:induction false} WrapIsMod(m: nat, c: nat)
    requires c > 0
    ensures Wrap(m, c) == m % c
    decreases m
  {
    if m < c {
      ModSmall(m, c);
    } else {
      WrapIsMod(m - c, c);
      ModShift(m - c, c);
    }
  }

  lemma FoldedBumpLast(w: seq<int>, c: nat)
    requires c > 0 && |w| >= 1
    ensures var n := |w| - 1;
            Folded(w[n := w[n] + 1], c) == Folded(w, c)[n := Folded(w, c)[n] + 1]
  {
    var n := |w| - 1;
    assert w[n := w[n] + 1][..n] == w[..n];
  }

  lemma FoldedTick(w: seq<int>, c: nat)
    requires c > 0
    ensures var n, d := |w|, Folded(w, c);
            Folded(w + [0], c) == d + [0 - (if n >= c then d[n - c] else 0)]
  {
    assert (w + [0])[..|w|] == w;
  }

  /** A GET request keeps the description, with one more request in the open interval. */
  lemma {:induction false} GetMirrors(s: Server, d: seq<int>, d': seq<int>, c: nat)
    requires Mirrors(s, d, c)
    requires d' == d[|d| - 1 := d[|d| - 1] + 1]
    ensures Increment(s, MethodGet).Ok?
    ensures Mirrors(Increment(s, MethodGet).value, d', c)
  {
    var n := |d| - 1;
    var s' := Increment(s, MethodGet).value;
    var b, b' := s.stats.buffer, s'.stats.buffer;
    assert d'[..n] == d[..n];
    assert b[Wrap(n, c)] == d[n];
    forall m | 0 <= m < |d'| && |d'| - c <= m
      ensures b'[Wrap(m, c)] == d'[m]
    {
      if m < n {
        WrapDistinct(m, n, c);
        assert b[Wrap(m, c)] == d[m];
      }
    }
  }

  /** A tick keeps the description, with a new open interval that starts at
      the negated amount of the interval one cycle back (zero in the first cycle). */
  lemma {:induction false} TickMirrors(s: Server, d: seq<int>, d': seq<int>, c: nat)
    requires Mirrors(s, d, c)
    requires d' == d + [0 - (if |d| >= c then d[|d| - c] else 0)]
    ensures UpdateStats(s).Ok?
    ensures Mirrors(UpdateStats(s).value, d', c)
  {
    var k := |d| - 1;
    var b := s.stats.buffer;
    var i' := Wrap(k + 1, c);
    var s' := Server(c, Stats(b[i' := -b[i']], i', s.stats.currentCount + b[Wrap(k, c)]));
    assert UpdateStats(s) == Ok(s') by {
      WrapSucc(k, c);
    }
    TickDescribed(s, d, 0 - (if |d| >= c then d[|d| - c] else 0), c);
  }

  /** The state after the rotation of `TickMirrors`, written out, is
      described by the amounts with the new open interval. */
  lemma TickDescribed(s: Server, d: seq<int>, x: int, c: nat)
    requires Mirrors(s, d, c)
    requires x == 0 - (if |d| >= c then d[|d| - c] else 0)
    ensures var b, k := s.stats.buffer, |d| - 1;
            var i' := Wrap(k + 1, c);
            Mirrors(Server(c, Stats(b[i' := -b[i']], i', s.stats.currentCount + b[Wrap(k, c)])), d + [x], c)
  {
    var k := |d| - 1;
    var b := s.stats.buffer;
    assert b[Wrap(k, c)] == d[k];
    assert Sum((d + [x])[..k + 1]) == Sum(d[..k]) + d[k] by {
      assert (d + [x])[..k + 1] == d;
      SumPrefixStep(d, k);
    }
    TickSlots(b, d, x, c);
  }

  /** The slot part of `TickMirrors`: negating the slot of interval `k + 1`
      gives it the amount `x` and leaves the other slots of the window alone. */
  lemma TickSlots(b: seq<int>, d: seq<int>, x: int, c: nat)
    requires |d| >= 1 && Window(b, d, c)
    requires x == 0 - (if |d| >= c then d[|d| - c] else 0)
    ensures var i' := Wrap(|d|, c);
            Window(b[i' := -b[i']], d + [x], c)
  {
    var k := |d| - 1;
    var i' := Wrap(k + 1, c);
    var b', d' := b[i' := -b[i']], d + [x];
    if k + 1 >= c {
      assert Wrap(k + 1, c) == Wrap(k + 1 - c, c);
      assert b[Wrap(k + 1 - c, c)] == d[k + 1 - c];
    }
    forall m | 0 <= m < |d'| && |d'| - c <= m
      ensures b'[Wrap(m, c)] == d'[m]
    {
      if m <= k {
        WrapDistinct(m, k + 1, c);
        assert b[Wrap(m, c)] == d[m];
      }
    }
  }

  /** A fresh server is described by a single open interval with no requests. */
  lemma FreshMirrors(c: int)
    requires c > 0
    ensures Mirrors(NewServer(c).value, [0], c)
  {
    var s0 := NewServer(c).value;
    assert s0.stats.buffer[0] == 0;
    assert [0][..0] == [];
  }

  lemma TickRecorded(s: Server, w: seq<int>, c: int)
    requires c > 0 && |w| >= 1 && Mirrors(s, Folded(w, c), c)
    ensures UpdateStats(s).Ok? && Mirrors(UpdateStats(s).value, Folded(w + [0], c), c)
  {
    FoldedTick(w, c);
    TickMirrors(s, Folded(w, c), Folded(w + [0], c), c);
  }

  lemma GetRecorded(s: Server, w: seq<int>, c: int)
    requires c > 0 && |w| >= 1 && Mirrors(s, Folded(w, c), c)
    ensures var n := |w| - 1;
            Increment(s, MethodGet).Ok? && Mirrors(Increment(s, MethodGet).value, Folded(w[n := w[n] + 1], c), c)
  {
    FoldedBumpLast(w, c);
    var n := |w| - 1;
    GetMirrors(s, Folded(w, c), Folded(w[n := w[n] + 1], c), c);
  }

  /** One event keeps the description, with the event recorded. */
  lemma StepMirrors(s: Server, w: seq<int>, c: int, e: Event)
    requires c > 0 && |w| >= 1 && Mirrors(s, Folded(w, c), c)
    ensures Step(s, e).Ok? && Mirrors(Step(s, e).value, Folded(Record(w, e), c), c)
  {
    if e.Tick? {
      TickRecorded(s, w, c);
    } else if IsGet(e) {
      GetRecorded(s, w, c);
    } else {
      assert Step(s, e) == Ok(s) && Record(w, e) == w;
    }
  }

  /** Every run from a freshly constructed server with `c > 0` slots succeeds
      and reaches the state described by the folded amounts of its intervals. */
  lemma {:induction false} RunMirrorsFolded(c: int, evs: seq<Event>)
    requires c > 0
    ensures Run(NewServer(c).value, evs).Ok?
    ensures Mirrors(Run(NewServer(c).value, evs).value, Folded(Intervals(evs), c), c)
    decreases |evs|
  {
    if evs == [] {
      assert Folded([0], c) == [0];
      FreshMirrors(c);
    } else {
      var pre, e := evs[..|evs| - 1], evs[|evs| - 1];
      RunMirrorsFolded(c, pre);
      StepMirrors(Run(NewServer(c).value, pre).value, Intervals(pre), c, e);
    }
  }

  /** Each folded amount: the interval's requests minus the amount folded for
      the same slot one cycle earlier. */
  lemma {:induction false} FoldedAt(w: seq<int>, c: nat, m: int)
    requires c > 0 && 0 <= m < |w|
    ensures Folded(w, c)[m] == w[m] - (if m >= c then Folded(w, c)[m - c] else 0)
    decreases |w|
  {
    var n := |w| - 1;
    var p := Folded(w[..n], c);
    assert Folded(w, c) == p + [w[n] - (if n >= c then p[n - c] else 0)];
    if m < n {
      FoldedAt(w[..n], c, m);
      assert w[..n][m] == w[m];
    }
  }

  /** Before the first rotation wraps around, nothing is folded back: the
      amounts are the requests themselves. */
  lemma FoldedFirstCycle(w: seq<int>, c: nat, k: int)
    requires c > 0 && 0 <= k <= c && k <= |w|
    ensures Folded(w, c)[..k] == w[..k]
  {
    forall m | 0 <= m < k
      ensures Folded(w, c)[m] == w[m]
    {
      FoldedAt(w, c, m);
    }
  }

  /** The amounts folded over the last `c` intervals and the previous ones
      together give all requests: `S(d, k) + S(d, k - c) == S(w, k)` for
      prefix sums `S` and `k >= c`. */
  lemma {:induction false} FoldedSums(w: seq<int>, c: nat, k: int)
    requires c > 0 && c <= k <= |w|
    ensures Sum(Folded(w, c)[..k]) + Sum(Folded(w, c)[..k - c]) == Sum(w[..k])
    decreases k
  {
    var d := Folded(w, c);
    if k == c {
      FoldedFirstCycle(w, c, k);
      assert d[..0] == [];
    } else {
      FoldedSums(w, c, k - 1);
      FoldedAt(w, c, k - 1);
      SumsStep(d, w, c, k);
    }
  }

  /** The inductive step of `FoldedSums`, for any sequences related at
      position `k - 1` the way folded amounts and requests are. */
  lemma SumsStep(d: seq<int>, w: seq<int>, c: nat, k: int)
    requires c > 0 && c < k <= |d| && |d| == |w|
    requires d[k - 1] == w[k - 1] - d[k - 1 - c]
    requires Sum(d[..k - 1]) + Sum(d[..k - 1 - c]) == Sum(w[..k - 1])
    ensures Sum(d[..k]) + Sum(d[..k - c]) == Sum(w[..k])
  {
    SumPrefixStep(d, k - 1);
    SumPrefixStep(d, k - 1 - c);
    SumPrefixStep(w, k - 1);
  }

  /** As long as the requests per interval are non-negative, so is every
      prefix sum of the folded amounts, and it never exceeds the requests. */
  lemma {:induction false} FoldedPrefixBounds(w: seq<int>, c: nat, k: int)
    requires c > 0 && 0 <= k <= |w|
    requires forall m :: 0 <= m < |w| ==> w[m] >= 0
    ensures 0 <= Sum(Folded(w, c)[..k]) <= Sum(w[..k])
    decreases k
  {
    if k <= c {
      FoldedFirstCycle(w, c, k);
      SumPrefixMonotone(w, k, k);
    } else {
      FoldedSums(w, c, k);
      FoldedPrefixBounds(w, c, k - c);
      SumPrefixMonotone(w, k - c, k);
    }
  }

  /** The count read after a run from a fresh server. */
  function CountAfter(c: int, evs: seq<Event>): int
    requires c > 0
  {
    Run(NewServer(c).value, evs).value.stats.currentCount
  }

  /** Requests in the last `c` closed intervals: what a sliding window of
      `c` ticks would report. */
  function WindowCount(evs: seq<Event>, c: nat): int {
    var w := Intervals(evs);
    var k := |w| - 1;
    var from := if k >= c then k - c else 0;
    Sum(w[from..k])
  }

  /** The count after a run is the sum of the folded amounts of its closed
      intervals. */
  lemma CountIsFolded(c: int, evs: seq<Event>)
    requires c > 0
    ensures var w := Intervals(evs);
            CountAfter(c, evs) == Sum(Folded(w, c)[..|w| - 1])
  {
    RunMirrorsFolded(c, evs);
  }

  /** For the first cycle (at most `c` ticks) the count is exactly the number
      of GET requests made before the last tick. */
  lemma FirstCycleCountsAll(c: int, evs: seq<Event>)
    requires c > 0 && Ticks(evs) <= c
    ensures CountAfter(c, evs) == GetsBeforeLastTick(evs)
  {
    CountIsFolded(c, evs);
    IntervalsCount(evs);
    var w := Intervals(evs);
    FoldedFirstCycle(w, c, |w| - 1);
  }

  /** In the second cycle the amounts folded so far add up to the requests of
      the last `c` intervals: `S(d, k) == S(w, k) - S(w, k - c)`. */
  lemma FoldedWindow(w: seq<int>, c: nat, k: int)
    requires c > 0 && c < k <= 2 * c && k <= |w|
    ensures Sum(Folded(w, c)[..k]) == Sum(w[k - c..k])
  {
    FoldedSums(w, c, k);
    FoldedFirstCycle(w, c, k - c);
    assert w[..k] == w[..k - c] + w[k - c..k];
    SumConcat(w[..k - c], w[k - c..k]);
  }

  /** Up to two cycles (at most `2 * c` ticks) the count is the number of GET
      requests in the last `c` closed intervals. */
  lemma TwoCyclesSlide(c: int, evs: seq<Event>)
    requires c > 0 && Ticks(evs) <= 2 * c
    ensures CountAfter(c, evs) == WindowCount(evs, c)
  {
    CountIsFolded(c, evs);
    FoldedSlides(Intervals(evs), c);
  }

  /** `TwoCyclesSlide` for the interval counts alone. */
  lemma FoldedSlides(w: seq<int>, c: nat)
    requires c > 0 && 1 <= |w| <= 2 * c + 1
    ensures var k := |w| - 1;
            Sum(Folded(w, c)[..k]) == Sum(w[if k >= c then k - c else 0..k])
  {
    var k := |w| - 1;
    if k <= c {
      FoldedFirstCycle(w, c, k);
      assert w[0..k] == w[..k];
    } else {
      FoldedWindow(w, c, k);
    }
  }

  /** For every run the count lies between zero and the GET requests made
      before the last tick. */
  lemma CountBounds(c: int, evs: seq<Event>)
    requires c > 0
    ensures 0 <= CountAfter(c, evs) <= GetsBeforeLastTick(evs)
  {
    CountIsFolded(c, evs);
    IntervalsCount(evs);
    var w := Intervals(evs);
    FoldedPrefixBounds(w, c, |w| - 1);
  }

  /** With one slot, one GET request and two ticks the count is 0 although
      the request was made before the last tick: the count is not cumulative. */
  lemma NotCumulative(evs: seq<Event>)
    requires evs == [Request(MethodGet), Tick, Tick]
    ensures CountAfter(1, evs) == 0 && GetsBeforeLastTick(evs) == 1
  {
    GetTwoTicks(evs);
    CountIsFolded(1, evs);
    FoldedOneSlot(Intervals(evs));
  }

  /** With one slot, one GET request and three ticks the count is 1 although
      the last closed interval saw no request: the count is not a sliding
      window either. */
  lemma NotSliding(evs: seq<Event>)
    requires evs == [Request(MethodGet), Tick, Tick, Tick]
    ensures CountAfter(1, evs) == 1 && WindowCount(evs, 1) == 0
  {
    GetTwoTicks(evs[..3]);
    assert evs == evs[..3] + [Tick];
    assert Intervals(evs) == [1, 0, 0, 0];
    CountIsFolded(1, evs);
    FoldedOneSlot(Intervals(evs));
    assert [1, 0, 0, 0][2..3] == [0];
  }

  /** With one slot, one GET request and four ticks, past the two cycles of
      `TwoCyclesSlide`, the count is 0 again: later on the count is still not
      cumulative. */
  lemma NotCumulativeLater(evs: seq<Event>)
    requires evs == [Request(MethodGet), Tick, Tick, Tick, Tick]
    ensures Ticks(evs) == 4 && CountAfter(1, evs) == 0 && GetsBeforeLastTick(evs) == 1
  {
    var e3, e4 := evs[..3], evs[..4];
    GetTwoTicks(e3);
    assert e4 == e3 + [Tick] && e4[..3] == e3;
    assert evs == e4 + [Tick] && evs[..4] == e4;
    assert Intervals(e4) == [1, 0, 0, 0];
    assert Intervals(evs) == [1, 0, 0, 0, 0];
    assert Gets(e3) == 1;
    assert Gets(e4) == 1;
    CountIsFolded(1, evs);
    FoldedOneSlotLater(Intervals(evs));
  }

  lemma GetTwoTicks(evs: seq<Event>)
    requires evs == [Request(MethodGet), Tick, Tick]
    ensures Intervals(evs) == [1, 0, 0] && GetsBeforeLastTick(evs) == 1
  {
    var e0, e1 := evs[..1], evs[..2];
    assert e1[..1] == e0 && e0[..0] == [] && evs[..2] == e1;
    assert Intervals(e0) == [1];
    assert Intervals(e1) == [1, 0];
    assert Gets(e0) == 1;
    assert Gets(e1) == 1;
  }

  /** With one slot, the folded amounts of one request followed by quiet
      intervals alternate `1, -1, 1`, so the count alternates `0, 1`. */
  lemma FoldedOneSlot(w: seq<int>)
    requires |w| >= 3 && w[0] == 1 && w[1] == 0 && w[2] == 0
    ensures Sum(Folded(w, 1)[..2]) == 0 && Sum(Folded(w, 1)[..3]) == 1
  {
    var d := Folded(w, 1);
    FoldedAt(w, 1, 0);
    FoldedAt(w, 1, 1);
    FoldedAt(w, 1, 2);
    assert d[..0] == [];
    SumPrefixStep(d, 0);
    SumPrefixStep(d, 1);
    SumPrefixStep(d, 2);
  }

  /** One more quiet interval folds in `-1`, and the count is back at 0. */
  lemma FoldedOneSlotLater(w: seq<int>)
    requires |w| >= 4 && w[0] == 1 && w[1] == 0 && w[2] == 0 && w[3] == 0
    ensures Sum(Folded(w, 1)[..4]) == 0
  {
    var d := Folded(w, 1);
    FoldedOneSlot(w);
    SumPrefixStep(d, 2);
    FoldedAt(w, 1, 3);
    SumPrefixStep(d, 3);
  }

}

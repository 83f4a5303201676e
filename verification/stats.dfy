/** The request-statistics state of the server and its three atomic steps:
    count a request, rotate the ring buffer, read the count. Each step is one
    critical section under the server's mutex, so it is one transition here. */
module Stats {
  import opened Results
  import opened Ints
  import opened Decimal

  /** Per-interval counts in a ring buffer, the cursor of the current slot,
      and the count folded in by rotations. */
  datatype Stats = Stats(buffer: seq<int>, iter: int, currentCount: int)

  /** The part of the server the statistics use: the configured capacity
      `statsBuffSize` (a field of its own, used by the cursor arithmetic) and
      the `Stats` record. */
  datatype Server = Server(statsBuffSize: int, stats: Stats)

  /** States the server can be in once constructed with a positive capacity:
      the buffer has exactly `statsBuffSize` slots and the cursor indexes one. */
  predicate Valid(s: Server) {
    && 0 < s.statsBuffSize == |s.stats.buffer|
    && 0 <= s.stats.iter < |s.stats.buffer|
  }

  const MethodGet: string := "GET"

  /** `NewServer`: `make([]int, statsBuffSize)` (zeroed; a panic for a negative
      size), cursor 0, count 0. */
  function NewServer(statsBuffSize: int): (r: Result<Server>)
    ensures r.Err? <==> statsBuffSize < 0
    ensures r.Err? ==> r.error == MakeLenOutOfRange
    ensures r.Ok? ==> && r.value.statsBuffSize == |r.value.stats.buffer| == statsBuffSize
                      && r.value.stats.iter == 0
                      && r.value.stats.currentCount == 0
                      && Sum(r.value.stats.buffer) == 0
                      && forall j :: 0 <= j < statsBuffSize ==> r.value.stats.buffer[j] == 0
    ensures (r.Ok? && Valid(r.value)) <==> statsBuffSize > 0
  {
    if statsBuffSize < 0 then Err(MakeLenOutOfRange)
    else
      var zeros := seq(statsBuffSize, _ => 0);
      ZerosSum(statsBuffSize);
      Ok(Server(statsBuffSize, Stats(zeros, 0, 0)))
  }

  lemma {:induction false} ZerosSum(n: nat)
    ensures Sum(seq(n, _ => 0)) == 0
  {
    if n > 0 {
      assert seq(n, _ => 0)[..n - 1] == seq(n - 1, _ => 0);
      ZerosSum(n - 1);
    }
  }

  /** The counting middleware `statsIncrement`: a GET request adds one to the
      current slot; a request with any other HTTP method changes nothing. An out-of-range cursor
      (only possible with an empty buffer) is a panic. */
  function Increment(s: Server, verb: string): (r: Result<Server>)
    ensures verb != MethodGet ==> r == Ok(s)
    ensures r.Err? <==> verb == MethodGet && !(0 <= s.stats.iter < |s.stats.buffer|)
    ensures r.Err? ==> r.error == IndexOutOfRange
    ensures Valid(s) ==> r.Ok? && Valid(r.value)
    ensures r.Ok? ==> && r.value.statsBuffSize == s.statsBuffSize
                      && r.value.stats.iter == s.stats.iter
                      && r.value.stats.currentCount == s.stats.currentCount
                      && |r.value.stats.buffer| == |s.stats.buffer|
                      && forall j :: 0 <= j < |s.stats.buffer| && j != s.stats.iter ==>
                           r.value.stats.buffer[j] == s.stats.buffer[j]
    ensures r.Ok? && verb == MethodGet ==>
              && 0 <= s.stats.iter < |s.stats.buffer|
              && r.value.stats.buffer[s.stats.iter] == s.stats.buffer[s.stats.iter] + 1
              && Sum(r.value.stats.buffer) == Sum(s.stats.buffer) + 1
  {
    if verb != MethodGet then Ok(s)
    else if !(0 <= s.stats.iter < |s.stats.buffer|) then Err(IndexOutOfRange)
    else
      var b := s.stats.buffer;
      var i := s.stats.iter;
      SumUpdate(b, i, b[i] + 1);
      Ok(s.(stats := s.stats.(buffer := b[i := b[i] + 1])))
  }

  /** `UpdateStats`, run once per tick: fold the current slot into
      `currentCount`, move the cursor to `((iter+1) % C + C) % C` with Go's
      truncated `%`, and NEGATE the slot that is now current (it is not
      zeroed). Panics on an out-of-range index or a zero capacity. */
  function UpdateStats(s: Server): (r: Result<Server>)
    ensures |s.stats.buffer| == 0 ==> r == Err(IndexOutOfRange)
    ensures 0 <= s.stats.iter < |s.stats.buffer| && s.statsBuffSize == 0 ==> r == Err(DivideByZero)
    ensures Valid(s) ==> r.Ok? && Valid(r.value)
    ensures Valid(s) ==>
              var b, i, c := s.stats.buffer, s.stats.iter, s.statsBuffSize;
              var i' := if i + 1 < c then i + 1 else 0;
              && r == Ok(Server(c, Stats(b[i' := -b[i']], i', s.stats.currentCount + b[i])))
              && Sum(r.value.stats.buffer) == Sum(b) - 2 * b[i']
  {
    var st := s.stats;
    var c := s.statsBuffSize;
    if !(0 <= st.iter < |st.buffer|) then Err(IndexOutOfRange)
    else if c == 0 then Err(DivideByZero)
    else
      var count := st.currentCount + st.buffer[st.iter];
      var next := Rem(Rem(st.iter + 1, c) + c, c);
      if !(0 <= next < |st.buffer|) then Err(IndexOutOfRange)
      else
        assert 0 <= st.iter < c ==> next == if st.iter + 1 < c then st.iter + 1 else 0 by {
          if 0 <= st.iter < c {
            WrapIndex(st.iter, c);
            if st.iter + 1 < c { ModSmall(st.iter + 1, c); } else { ModUnique(c, c, 1, 0); }
          }
        }
        SumUpdate(st.buffer, next, 0 - st.buffer[next]);
        Ok(Server(c, Stats(st.buffer[next := 0 - st.buffer[next]], next, count)))
  }

  /** The count field of the `getStats` reply, `strconv.Itoa(currentCount)`:
      text that parses back to exactly the folded count. The read changes no state. */
  function GetStats(s: Server): (text: string)
    ensures Atoi(text) == Ok(s.stats.currentCount)
  {
    FormatRoundTrip(s.stats.currentCount);
    Format(s.stats.currentCount)
  }
}

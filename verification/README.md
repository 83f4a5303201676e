# requests-count: the request-statistics core, in Dafny

`requests-count` is a small Go HTTP server. It counts GET requests in a
ring buffer of per-interval slots. A ticker rotates the buffer, folding the
current slot into a running count. The count is reported on `/stats`, and
the buffer is checkpointed to a file on shutdown and read back on start.
This project models that core (`server.go`) as pure functions over an
immutable state and proves what the code, as written, actually computes.

- `results.dfy` (`Results`): Go panics (index out of range, `%` by zero,
  `make` with a negative length) and `strconv.Atoi` syntax errors, as `Err`
  values of one `Result` type.
- `ints.dfy` (`Ints`): Go's truncated `%` (`Rem`), and sums of sequences.
- `stats.dfy` (`Stats`): the `Stats` record and the server's capacity;
  construction, the GET-counting middleware, the rotation `UpdateStats`,
  and the `getStats` read. Each critical section under the mutex is one
  function.
- `history.dfy` (`History`): runs of requests and ticks from a fresh server.
  It gives an exact description of the reached state in terms of the GET
  requests per tick interval. From that it proves the count's behaviour:
  - cumulative for the first `C` ticks;
  - a sliding window of the last `C` intervals up to `2C` ticks;
  - always between 0 and the number of requests;
  - by concrete runs with one slot: not cumulative after `C` ticks, and
    neither cumulative nor sliding after `2C` ticks.
- `decimal.dfy` (`Decimal`): `%d` / `strconv.Itoa` formatting and
  `strconv.Atoi` parsing, with their round trip.
- `lines.dfy` (`Scanner`): `bufio.Scanner` with `ScanLines`, including the
  carriage-return drop, and the newline-terminated writer.
- `checkpoint.dfy` (`Checkpoint`): the `Stop` writer and the restore loop of
  `Run`, both as written and with the loop index advancing.

Consequences of `server.go` as written:
- The rotation negates the new current slot (`0 - slot`) instead of
  clearing it. So the amount folded in for interval `m` is
  `w[m] - d[m - C]`, where `w[m]` is the GET requests of that interval and
  `d` the amounts folded before. After `C` rotations without requests the
  slots need not all be zero, and the GET requests made need not equal the
  count plus the slots.
- A capacity of 0 is accepted by `make`. The first GET or tick then panics.
- The restore loop stores every line in slot 0 (see Findings).
- The checkpoint file is opened with `O_CREATE`, so a missing file is
  created empty and restores as empty text.

## Model

| member | source | states |
|---|---|---|
| `Stats.NewServer` | server.go:42-46 | a negative capacity is the `make` panic; otherwise the buffer has exactly `statsBuffSize` zero slots, cursor 0 and count 0; the state is valid exactly when the capacity is positive |
| `Stats.Increment` | server.go:64-78 | a non-GET request changes nothing; a GET adds exactly 1 to the cursor's slot (the buffer sum grows by 1), leaves every other slot, the cursor and the count unchanged, and panics exactly when the cursor is out of range; validity is preserved |
| `Stats.UpdateStats` | server.go:81-88 | the count gains the old current slot; the cursor moves to the next slot, or to slot 0 after the last; the new current slot is negated and all others are unchanged; panics on an empty buffer or a zero capacity; validity is preserved |
| `Ints.WrapIndex` | server.go:84 | the double truncated remainder `((i+1)%C + C)%C` is never negative and equals `(i + 1) mod C`, for every `i` |
| `Ints.RemTruncates` | server.go:84 | `Rem` is Go's truncated remainder: `a % abs(b)` for `a >= 0` and `-((-a) % abs(b))` for `a < 0`, with Euclidean `%` |
| `Stats.GetStats` | server.go:137-141 | the reported count text parses back to exactly `currentCount` |
| `History.Run` | server.go:64-88 | from a valid state every sequence of requests and ticks succeeds, stays valid and keeps the capacity, so the buffer length never changes |
| `History.IntervalsCount` | server.go:64-78 | the per-interval request counts add up to all GET requests, and the closed intervals to those before the last tick |
| `History.RunMirrorsFolded` | server.go:64-88 | after any run from a fresh server, the state is exactly described by the folded amounts `d[m] = w[m] - d[m - C]`: cursor at `(ticks) mod C`, count the sum of the closed intervals' amounts, slot of interval `m` holding `d[m]` for the last `C` intervals, unreached slots 0 |
| `History.FoldedAt` | server.go:83-85 | each folded amount is the interval's requests minus the amount folded for the same slot one cycle earlier |
| `History.FoldedSums` | server.go:83-85 | the amounts folded over the first `k` intervals plus those over the first `k - C` add up to the requests of the first `k` intervals |
| `History.CountIsFolded` | server.go:83 | the count read after a run is the sum of the folded amounts of its closed intervals |
| `History.FirstCycleCountsAll` | server_test.go:86 | with at most `C` ticks the count equals the number of GET requests made before the last tick |
| `History.TwoCyclesSlide` | server.go:83-85 | with at most `2C` ticks the count equals the GET requests of the last `C` closed intervals |
| `History.CountBounds` | server.go:83-85 | after every run the count lies between 0 and the GET requests made before the last tick |
| `History.NotCumulative` | server.go:85 | one slot, one GET, two ticks (past the first cycle): the count is 0 though one request was folded |
| `History.NotSliding` | server.go:85 | one slot, one GET, three ticks (past two cycles): the count is 1 though the last closed interval had no request |
| `History.NotCumulativeLater` | server.go:85 | one slot, one GET, four ticks (past two cycles): the count is 0 though one request was folded |
| `Decimal.Atoi` | server.go:102 | succeeds exactly on an optional sign followed by one or more decimal digits (so a blank line fails), with the syntax error naming the text |
| `Decimal.FormatRoundTrip` | server.go:124 | parsing what `%d` printed gives back the number, negative numbers included |
| `Scanner.LinesOfJoin` | server.go:101 | scanning newline-terminated lines that contain no newline and do not end in a carriage return gives back exactly those lines |
| `Checkpoint.Save` | server.go:123-125 | the checkpoint scans as one line per slot, in slot order, each parsing back to that slot's value |
| `Checkpoint.Fill` | server.go:99-110 | empty input succeeds unchanged; a first line that is not an integer is its syntax error; an integer line with the index at the capacity stops with the state unchanged; every failure is a panic or a syntax error of one of the lines; success changes only the buffer and leaves slots before the index alone |
| `Checkpoint.Restore` | server.go:98-114 | empty checkpoint text leaves the server unchanged; on a valid server the restore succeeds exactly when every line is an integer; it never changes capacity, cursor, count or buffer length |
| `Checkpoint.LoadSlotZero` | server.go:99-110 | with a non-zero capacity, the loop as written succeeds exactly when every line is an integer, and then only slot 0 changed: it holds the last line's value |
| `Checkpoint.RestoreOwnCheckpoint` | server.go:99-110 | restoring any checkpoint into a valid server only sets slot 0 to the checkpoint's last slot |
| `Checkpoint.RestoreLossless` | server.go:99-110 | writing a checkpoint and restoring it into the same server is lossless exactly when its first and last slots are equal |
| `Checkpoint.RestoreKeepsOnlyLast` | server.go:100-109 | a fresh two-slot server restoring the checkpoint `1, 2` ends with `2, 0` as written, and with `1, 2` when the index advances |
| `Checkpoint.RestoreAdvancing` | server.go:99-110 | with the index advancing, empty text leaves the server unchanged; on a valid server and at most `C` lines it succeeds exactly when every line is an integer; it changes only the buffer |
| `Checkpoint.FillAdvancing` | server.go:99-110 | the advancing loop stores the lines' values in consecutive slots from the index and leaves the other slots alone |
| `Checkpoint.FillAdvancingAll` | server.go:99-110 | the advancing loop over one valid line per slot, from index 0, replaces the whole buffer with the lines' values and changes nothing else |
| `Checkpoint.RestoreAdvancingRoundTrip` | server.go:99-110 | with the index advancing, restoring a checkpoint of the same capacity brings back every slot and changes nothing else |
| `Checkpoint.RestartResetsCount` | server.go:119-125 | a restart restores only the slots: cursor and count start again from 0, whatever they were when the checkpoint was written |

## Left out

- The HTTP server, gin router, `helloworld` handler and the JSON reply of
  `getStats` are framework plumbing. `GetStats` models only the
  `strconv.Itoa(currentCount)` text.
- `sync.Mutex` and goroutines: each locked region is one atomic step, and
  interleavings are not modelled.
- File opening, writing and their error logging (`os.OpenFile`,
  `os.WriteFile`, `log.Fatal`, `log.Printf`) are I/O. The checkpoint file is
  a `text` parameter, and an absent file is the empty text.
- `scanner.Err()` and the scanner's maximum token size are not modelled:
  every line, however long, is a token.
- `strconv.Atoi`'s 64-bit range error: out-of-range numbers are parsed as
  unbounded integers.
- Go's 64-bit `int` wrap-around in the slot and count arithmetic is not
  modelled. Counts are unbounded integers, since they stay far from the
  limit in practice.
- Restore: the slots already written before a syntax error are not
  returned. An error ends `Run` and `main` exits through `log.Fatal`, so
  that state is never observed.
- `NewServer`'s host, port and file-name parameters only configure I/O, and
  are not modelled.
- `main.go`: signal handling, the ticker loop, and the capacity
  `40 / 10 = 4`. The ticker is the `Tick` event, and the capacity is a
  parameter.
- `server_test.go` is a timing-based concurrent integration test. Only its
  expectation about the first cycle is reflected, in
  `FirstCycleCountsAll`.
- `Restore`: the success condition is stated only for valid servers. With
  capacity 0 the loop stops after its first integer line; `Fill` states
  that case.
- `RestoreAdvancing`: the success condition is stated only for texts of at
  most `statsBuffSize` lines. A longer text stops once a line is parsed with
  the index at the capacity; `Fill` states that case.

## Findings

| source | as written | input that shows it | evidently intended | confidence | as-written member | corrected member |
|---|---|---|---|---|---|---|
| server.go:100-109 | the restore index `i` is never incremented, so every parsed line is stored in slot 0 and the `i == statsBuffSize` break never fires for a positive capacity | capacity 2, checkpoint written from slots `1, 2` (text `"1\n2\n"`): a fresh server restores slots `2, 0` | `i` advances after each stored line, so line `k` restores slot `k` and the checkpoint round-trips | high; not executed | `Checkpoint.RestoreKeepsOnlyLast` | `Checkpoint.RestoreAdvancingRoundTrip` |

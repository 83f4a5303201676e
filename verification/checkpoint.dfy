/** The checkpoint file: `Stop` writes every slot of the buffer, `Run` reads
    the file back into the buffer before serving. The file itself is the
    `text` parameter; an absent file reads as empty text, since it is opened
    with `O_CREATE`. */
module Checkpoint {
  import opened Results
  import opened Decimal
  import opened Scanner
  import opened Stats

  /** Each slot value printed with `%d`, in slot order. */
  function FormatAll(b: seq<int>): (ls: seq<string>)
    ensures |ls| == |b|
  {
    seq(|b|, k requires 0 <= k < |b| => Format(b[k]))
  }

  /** Every printed slot is a line the scanner returns unchanged and that
      `Atoi` reads back as the slot's value. */
  lemma FormatAllReads(b: seq<int>)
    ensures forall k :: 0 <= k < |b| ==> Plain(FormatAll(b)[k]) && Atoi(FormatAll(b)[k]) == Ok(b[k])
  {
    forall k | 0 <= k < |b|
      ensures Plain(FormatAll(b)[k]) && Atoi(FormatAll(b)[k]) == Ok(b[k])
    {
      FormatRoundTrip(b[k]);
    }
  }

  /** The text `Stop` writes: one `%d` line per slot, each ending in a
      newline. Scanning it gives one line per slot, read back as that slot. */
  function Save(s: Server): (text: string)
    ensures |Lines(text)| == |s.stats.buffer|
    ensures forall k :: 0 <= k < |s.stats.buffer| ==> Atoi(Lines(text)[k]) == Ok(s.stats.buffer[k])
  {
    var ls := FormatAll(s.stats.buffer);
    FormatAllReads(s.stats.buffer);
    LinesOfJoin(ls);
    Join(ls)
  }

  /** The restore loop of `Run` over the scanned lines, writing at index `i`:
      parse the line (a syntax error ends the restore), stop once `i` equals
      the capacity, otherwise store the value at slot `i` (a panic when `i`
      is out of range). As written the index never moves (`advance` false);
      with `advance` the index steps by one per line. */
  function Fill(s: Server, ls: seq<string>, i: int, advance: bool): (r: Result<Server>)
    ensures ls == [] ==> r == Ok(s)
    ensures ls != [] && !IsInteger(ls[0]) ==> r == Err(InvalidSyntax(ls[0]))
    ensures ls != [] && IsInteger(ls[0]) && i == s.statsBuffSize ==> r == Ok(s)
    ensures r.Err? ==> r.error == IndexOutOfRange ||
                       exists k :: 0 <= k < |ls| && !IsInteger(ls[k]) && r.error == InvalidSyntax(ls[k])
    ensures r.Ok? ==> && r.value.statsBuffSize == s.statsBuffSize
                      && r.value.stats.iter == s.stats.iter
                      && r.value.stats.currentCount == s.stats.currentCount
                      && |r.value.stats.buffer| == |s.stats.buffer|
                      && forall j :: 0 <= j < |s.stats.buffer| && j < i ==>
                           r.value.stats.buffer[j] == s.stats.buffer[j]
    decreases |ls|
  {
    if ls == [] then Ok(s)
    else
      var num :- Atoi(ls[0]);
      if i == s.statsBuffSize then Ok(s)
      else if !(0 <= i < |s.stats.buffer|) then Err(IndexOutOfRange)
      else
        var r := Fill(s.(stats := s.stats.(buffer := s.stats.buffer[i := num])), ls[1..],
                      if advance then i + 1 else i, advance);
        assert r.Err? && r.error != IndexOutOfRange ==> exists k :: 0 <= k < |ls| && !IsInteger(ls[k]) && r.error == InvalidSyntax(ls[k]) by {
          if r.Err? && r.error != IndexOutOfRange {
            var k :| 0 <= k < |ls[1..]| && !IsInteger(ls[1..][k]) && r.error == InvalidSyntax(ls[1..][k]);
            assert ls[k + 1] == ls[1..][k];
          }
        }
        r
  }

  /** Every line is text `Atoi` accepts. */
  predicate AllIntegers(ls: seq<string>) {
    forall k :: 0 <= k < |ls| ==> IsInteger(ls[k])
  }

  /** Restoring the buffer from checkpoint text, as written: every line is
      stored in slot 0 (see `LoadSlotZero`). */
  function Restore(s: Server, text: string): (r: Result<Server>)
    ensures text == [] ==> r == Ok(s)
    ensures Valid(s) ==> (r.Ok? <==> AllIntegers(Lines(text)))
    ensures r.Ok? ==> && r.value.statsBuffSize == s.statsBuffSize
                      && r.value.stats.iter == s.stats.iter
                      && r.value.stats.currentCount == s.stats.currentCount
                      && |r.value.stats.buffer| == |s.stats.buffer|
  {
    var ls := Lines(text);
    var r := Fill(s, ls, 0, false);
    assert Valid(s) ==> (r.Ok? <==> AllIntegers(ls)) by {
      if Valid(s) { LoadSlotZero(s, ls); }
    }
    r
  }

  /** Restoring with the index advancing one slot per line. */
  function RestoreAdvancing(s: Server, text: string): (r: Result<Server>)
    ensures text == [] ==> r == Ok(s)
    ensures Valid(s) && |Lines(text)| <= s.statsBuffSize ==> (r.Ok? <==> AllIntegers(Lines(text)))
    ensures r.Ok? ==> && r.value.statsBuffSize == s.statsBuffSize
                      && r.value.stats.iter == s.stats.iter
                      && r.value.stats.currentCount == s.stats.currentCount
                      && |r.value.stats.buffer| == |s.stats.buffer|
  {
    var ls := Lines(text);
    var r := Fill(s, ls, 0, true);
    assert Valid(s) && |ls| <= s.statsBuffSize ==> (r.Ok? <==> AllIntegers(ls)) by {
      if Valid(s) && |ls| <= s.statsBuffSize { FillAdvancingOk(s, ls, 0); }
    }
    r
  }

  /** The loop as written, with a capacity that never equals the index 0:
      it succeeds exactly when every line is an integer, and then slot 0
      holds the value of the last line and nothing else has changed. */
  lemma {:induction false} LoadSlotZero(s: Server, ls: seq<string>)
    requires s.statsBuffSize != 0 && |s.stats.buffer| > 0
    ensures Fill(s, ls, 0, false).Ok? <==> AllIntegers(ls)
    ensures Fill(s, ls, 0, false).Ok? && ls != [] ==>
              Fill(s, ls, 0, false).value == s.(stats := s.stats.(buffer := s.stats.buffer[0 := Atoi(ls[|ls| - 1]).value]))
    decreases |ls|
  {
    if ls != [] && IsInteger(ls[0]) {
      var s1 := s.(stats := s.stats.(buffer := s.stats.buffer[0 := Atoi(ls[0]).value]));
      assert Fill(s, ls, 0, false) == Fill(s1, ls[1..], 0, false);
      LoadSlotZero(s1, ls[1..]);
      if ls[1..] != [] && Fill(s, ls, 0, false).Ok? {
        assert ls[1..][|ls[1..]| - 1] == ls[|ls| - 1];
        assert s1.stats.buffer[0 := Atoi(ls[|ls| - 1]).value] == s.stats.buffer[0 := Atoi(ls[|ls| - 1]).value];
      }
      forall k | 0 <= k < |ls| - 1
        ensures ls[1..][k] == ls[k + 1]
      {
      }
    }
  }

  /** The advancing loop over at most as many lines as slots remain after
      `i` never reaches the break: it succeeds exactly when every line is an
      integer. */
  lemma {:induction false} FillAdvancingOk(s: Server, ls: seq<string>, i: int)
    requires s.statsBuffSize == |s.stats.buffer| && 0 <= i && i + |ls| <= |s.stats.buffer|
    ensures Fill(s, ls, i, true).Ok? <==> AllIntegers(ls)
    decreases |ls|
  {
    if ls != [] && IsInteger(ls[0]) {
      var s1 := s.(stats := s.stats.(buffer := s.stats.buffer[i := Atoi(ls[0]).value]));
      assert Fill(s, ls, i, true) == Fill(s1, ls[1..], i + 1, true);
      FillAdvancingOk(s1, ls[1..], i + 1);
      forall k | 0 <= k < |ls| - 1
        ensures ls[1..][k] == ls[k + 1]
      {
      }
    }
  }

  /** The advancing loop stores the values of the lines in consecutive slots
      from `i`, leaving the other slots alone. */
  lemma {:induction false} FillAdvancing(s: Server, ls: seq<string>, vs: seq<int>, i: int)
    requires s.statsBuffSize == |s.stats.buffer| && 0 <= i && i + |vs| <= |s.stats.buffer|
    requires |ls| == |vs| && forall k :: 0 <= k < |ls| ==> Atoi(ls[k]) == Ok(vs[k])
    ensures var b := s.stats.buffer;
            Fill(s, ls, i, true) == Ok(s.(stats := s.stats.(buffer := b[..i] + vs + b[i + |vs|..])))
    decreases |ls|
  {
    var b := s.stats.buffer;
    if ls == [] {
      assert vs == [];
      assert b[..i] + vs + b[i..] == b;
    } else {
      var s1 := s.(stats := s.stats.(buffer := b[i := vs[0]]));
      assert Fill(s, ls, i, true) == Fill(s1, ls[1..], i + 1, true);
      forall k | 0 <= k < |ls| - 1
        ensures Atoi(ls[1..][k]) == Ok(vs[1..][k])
      {
        assert ls[1..][k] == ls[k + 1] && vs[1..][k] == vs[k + 1];
      }
      FillAdvancing(s1, ls[1..], vs[1..], i + 1);
      Splice(b, vs, i);
    }
  }

  /** Storing the first value at `i` and the rest from `i + 1` on stores
      them all from `i` on. */
  lemma Splice(b: seq<int>, vs: seq<int>, i: int)
    requires 0 <= i && i + |vs| <= |b| && vs != []
    ensures var b1 := b[i := vs[0]];
            b1[..i + 1] + vs[1..] + b1[i + 1 + |vs[1..]|..] == b[..i] + vs + b[i + |vs|..]
  {
    var b1 := b[i := vs[0]];
    assert b1[..i + 1] == b[..i] + [vs[0]];
    assert b1[i + |vs|..] == b[i + |vs|..];
    assert [vs[0]] + vs[1..] == vs;
  }

  /** As written, restoring a server from a checkpoint keeps only the last
      slot of the checkpoint, in slot 0; the other slots keep their values. */
  lemma RestoreOwnCheckpoint(s: Server, t: Server)
    requires Valid(s) && |t.stats.buffer| > 0
    ensures var b := t.stats.buffer;
            Restore(s, Save(t)) == Ok(s.(stats := s.stats.(buffer := s.stats.buffer[0 := b[|b| - 1]])))
  {
    var ls := Lines(Save(t));
    var b := t.stats.buffer;
    assert AllIntegers(ls) by {
      forall k | 0 <= k < |ls|
        ensures IsInteger(ls[k])
      {
        assert Atoi(ls[k]) == Ok(b[k]);
      }
    }
    LoadSlotZero(s, ls);
    assert Restore(s, Save(t)) == Fill(s, ls, 0, false);
    assert Atoi(ls[|ls| - 1]) == Ok(b[|b| - 1]);
  }

  /** As written, writing a checkpoint and reading it straight back into the
      same server loses nothing exactly when its first and last slots agree
      (always so with one slot). */
  lemma RestoreLossless(s: Server)
    requires Valid(s)
    ensures Restore(s, Save(s)) == Ok(s) <==> s.stats.buffer[0] == s.stats.buffer[|s.stats.buffer| - 1]
  {
    RestoreOwnCheckpoint(s, s);
    var b := s.stats.buffer;
    if b[0] == b[|b| - 1] {
      assert b[0 := b[|b| - 1]] == b;
    } else {
      assert b[0 := b[|b| - 1]][0] != b[0];
    }
  }

  /** As written: a fresh two-slot server restoring the checkpoint `1, 2`
      ends with slots `2, 0`, where the advancing loop gives back `1, 2`. */
  lemma RestoreKeepsOnlyLast(s: Server, t: Server)
    requires s == NewServer(2).value && t.stats.buffer == [1, 2]
    ensures Restore(s, Save(t)) == Ok(Server(2, Stats([2, 0], 0, 0)))
    ensures RestoreAdvancing(s, Save(t)) == Ok(Server(2, Stats([1, 2], 0, 0)))
  {
    RestoreOwnCheckpoint(s, t);
    RestoreAdvancingRoundTrip(s, t);
    assert s.stats.buffer == [0, 0];
    assert [0, 0][0 := 2] == [2, 0];
  }

  /** With the index advancing, a server restores every slot of a checkpoint
      taken with the same capacity; everything else stays as it was. */
  lemma RestoreAdvancingRoundTrip(s: Server, t: Server)
    requires Valid(s) && |t.stats.buffer| == s.statsBuffSize
    ensures RestoreAdvancing(s, Save(t)) == Ok(s.(stats := s.stats.(buffer := t.stats.buffer)))
  {
    var ls := Lines(Save(t));
    assert RestoreAdvancing(s, Save(t)) == Fill(s, ls, 0, true);
    FillAdvancingAll(s, ls, t.stats.buffer);
  }

  /** `FillAdvancing` over every slot from index 0. */
  lemma FillAdvancingAll(s: Server, ls: seq<string>, vs: seq<int>)
    requires s.statsBuffSize == |s.stats.buffer| == |vs|
    requires |ls| == |vs| && forall k :: 0 <= k < |ls| ==> Atoi(ls[k]) == Ok(vs[k])
    ensures Fill(s, ls, 0, true) == Ok(s.(stats := s.stats.(buffer := vs)))
  {
    var b := s.stats.buffer;
    FillAdvancing(s, ls, vs, 0);
    assert b[..0] == [] && b[|vs|..] == [];
    assert b[..0] + vs + b[|vs|..] == vs;
  }

  /** Even with the index advancing, a restart brings back only the slots:
      the cursor and the count start again from 0, whatever they were when
      the checkpoint was written. */
  lemma RestartResetsCount(t: Server)
    requires Valid(t)
    ensures var c := t.statsBuffSize;
            RestoreAdvancing(NewServer(c).value, Save(t)) == Ok(Server(c, Stats(t.stats.buffer, 0, 0)))
  {
    RestoreAdvancingRoundTrip(NewServer(t.statsBuffSize).value, t);
  }
}

/** Line splitting as done by a `bufio.Scanner` with its default split
    function `bufio.ScanLines`, and the matching line writer. */
module Scanner {

  predicate NoNewline(t: string) {
    forall i :: 0 <= i < |t| ==> t[i] != '\n'
  }

  /** `ScanLines` drops one carriage return at the end of each line. */
  function DropCR(t: string): (u: string)
    ensures t == u || (|t| > 0 && t[|t| - 1] == '\r' && u == t[..|t| - 1])
  {
    if |t| > 0 && t[|t| - 1] == '\r' then t[..|t| - 1] else t
  }

  /** Length of the first line of `t`: the index of the first newline, or
      `|t|` when there is none. */
  function LineEnd(t: string): (n: nat)
    ensures n <= |t|
    ensures n < |t| ==> t[n] == '\n'
    ensures NoNewline(t[..n])
    decreases |t|
  {
    if t == [] || t[0] == '\n' then 0 else 1 + LineEnd(t[1..])
  }

  /** The tokens `ScanLines` yields from `t`: the text between newlines, a
      last line without a newline included, and no token after a final newline. */
  function Lines(t: string): (ls: seq<string>)
    ensures ls == [] <==> t == []
    decreases |t|
  {
    if t == [] then []
    else
      var n := LineEnd(t);
      [DropCR(t[..n])] + (if n == |t| then [] else Lines(t[n + 1..]))
  }

  /** Each line followed by a newline. */
  function Join(ls: seq<string>): string
    decreases |ls|
  {
    if ls == [] then "" else ls[0] + "\n" + Join(ls[1..])
  }

  /** A line the scanner gives back unchanged. */
  predicate Plain(l: string) {
    NoNewline(l) && (|l| == 0 || l[|l| - 1] != '\r')
  }

  /** Splitting what `Join` wrote gives back the lines, one token per line. */
  lemma {:induction false} LinesOfJoin(ls: seq<string>)
    requires forall i :: 0 <= i < |ls| ==> Plain(ls[i])
    ensures Lines(Join(ls)) == ls
    decreases |ls|
  {
    if ls != [] {
      var l := ls[0];
      var t := Join(ls);
      assert t == l + ("\n" + Join(ls[1..]));
      FirstLine(l, Join(ls[1..]));
      assert t[|l| + 1..] == Join(ls[1..]);
      LinesOfJoin(ls[1..]);
    }
  }

  lemma {:induction false} FirstLine(l: string, rest: string)
    requires NoNewline(l)
    ensures LineEnd(l + "\n" + rest) == |l|
    ensures (l + "\n" + rest)[..|l|] == l
    decreases |l|
  {
    if l != [] {
      assert (l + "\n" + rest)[1..] == l[1..] + "\n" + rest;
      FirstLine(l[1..], rest);
    }
  }
}

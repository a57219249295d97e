/**
 * Newline-terminated lines of text: joining a list of lines into a text and
 * splitting a text back into its lines. These give a way to read a rendered
 * digest line by line.
 */
module TextLines {

  /** A line holds no newline character. */
  predicate IsLine(l: string)
  {
    '\n' !in l
  }

  /** Every line followed by a newline, in order. */
  function JoinLines(ls: seq<string>): string
  {
    if ls == [] then "" else JoinLines(ls[..|ls| - 1]) + ls[|ls| - 1] + "\n"
  }

  /** The index of the first newline of `s`, or `|s|` when there is none. */
  function FirstNewline(s: string): (k: nat)
    ensures k <= |s|
    ensures forall j | 0 <= j < k :: s[j] != '\n'
    ensures k < |s| ==> s[k] == '\n'
  {
    if s == [] || s[0] == '\n' then 0 else 1 + FirstNewline(s[1..])
  }

  /** The lines of `s`: the text before each newline, and the text after the
      last newline when it is not empty. */
  function SplitLines(s: string): (ls: seq<string>)
    ensures AllLines(ls)
    decreases |s|
  {
    if s == [] then []
    else
      var k := FirstNewline(s);
      if k == |s| then [s] else [s[..k]] + SplitLines(s[k + 1..])
  }

  /** Joining distributes over concatenation of the line lists. */
  lemma {:induction false} JoinLinesAppend(a: seq<string>, b: seq<string>)
    ensures JoinLines(a + b) == JoinLines(a) + JoinLines(b)
    decreases |b|
  {
    if b == [] {
      assert a + b == a;
    } else {
      var n := |b| - 1;
      assert (a + b)[..|a + b| - 1] == a + b[..n];
      assert (a + b)[|a + b| - 1] == b[n];
      JoinLinesAppend(a, b[..n]);
    }
  }

  /** Splitting the text of a list of lines gives that list back. */
  lemma {:induction false} SplitJoin(ls: seq<string>)
    requires AllLines(ls)
    ensures SplitLines(JoinLines(ls)) == ls
    decreases |ls|
  {
    if ls != [] {
      var rest := ls[1..];
      assert ls == [ls[0]] + rest;
      JoinLinesAppend([ls[0]], rest);
      assert JoinLines([ls[0]]) == ls[0] + "\n" by {
        assert [ls[0]][..0] == [];
      }
      var s := JoinLines(ls);
      assert s == ls[0] + "\n" + JoinLines(rest);
      FirstNewlineOf(ls[0], JoinLines(rest));
      assert s[..|ls[0]|] == ls[0];
      assert s[|ls[0]| + 1..] == JoinLines(rest);
      SplitJoin(rest);
    }
  }

  /** In a line followed by a newline, the first newline ends the line. */
  lemma FirstNewlineOf(l: string, t: string)
    requires IsLine(l)
    ensures FirstNewline(l + "\n" + t) == |l|
  {
    var s := l + "\n" + t;
    assert s[|l|] == '\n';
    assert forall j | 0 <= j < |l| :: s[j] == l[j];
  }

  /** The number of lines of `ls` equal to `x`. */
  function CountOf(x: string, ls: seq<string>): (n: nat)
    ensures n <= |ls|
  {
    if ls == [] then 0 else CountOf(x, ls[..|ls| - 1]) + (if ls[|ls| - 1] == x then 1 else 0)
  }

  /** Counting distributes over concatenation. */
  lemma {:induction false} CountOfAppend(x: string, a: seq<string>, b: seq<string>)
    ensures CountOf(x, a + b) == CountOf(x, a) + CountOf(x, b)
    decreases |b|
  {
    if b == [] {
      assert a + b == a;
    } else {
      var n := |b| - 1;
      assert (a + b)[..|a + b| - 1] == a + b[..n];
      assert (a + b)[|a + b| - 1] == b[n];
      CountOfAppend(x, a, b[..n]);
    }
  }

  /** A list in which no line is `x` counts no `x`. */
  lemma {:induction false} CountOfAbsent(x: string, ls: seq<string>)
    requires forall j | 0 <= j < |ls| :: ls[j] != x
    ensures CountOf(x, ls) == 0
    decreases |ls|
  {
    if ls != [] {
      CountOfAbsent(x, ls[..|ls| - 1]);
    }
  }

  /** Joining one more line appends it and its newline. */
  lemma JoinLinesSnoc(ls: seq<string>, l: string)
    ensures JoinLines(ls + [l]) == JoinLines(ls) + (l + "\n")
  {
  }

  /** A slice that lies within the first part of a concatenation. */
  lemma SliceOfFront(x: seq<string>, y: seq<string>, lo: nat, hi: nat)
    requires lo <= hi <= |x|
    ensures (x + y)[lo..hi] == x[lo..hi]
  {
  }

  /** A slice that lies within the second part of a concatenation. */
  lemma SliceWithinBack(x: seq<string>, y: seq<string>, lo: nat, hi: nat)
    requires lo <= hi <= |y|
    ensures (x + y)[|x| + lo..|x| + hi] == y[lo..hi]
  {
  }

  /** The second part of a concatenation, sliced out again. */
  lemma SliceOfBack(x: seq<string>, y: seq<string>)
    ensures (x + y)[|x|..|x| + |y|] == y
  {
  }

  /** Concatenation of strings is associative. */
  lemma ConcatAssoc(h: string, x: string, y: string)
    ensures h + (x + y) == h + x + y
  {
  }

  lemma ConcatFive(x: string, t: string, j: string, p: string, b: string, r: string)
    ensures x + t + j + p + b + r == x + (t + j + p + b + r)
  {
  }

  /** The text of five lines. */
  lemma JoinFive(t: string, j: string, p: string, b: string, r: string)
    ensures JoinLines([t, j, p, b, r]) == (t + "\n") + (j + "\n") + (p + "\n") + (b + "\n") + (r + "\n")
  {
    JoinLinesSnoc([], t);
    assert "" + (t + "\n") == t + "\n";
    JoinLinesSnoc([t], j);
    JoinLinesSnoc([t, j], p);
    JoinLinesSnoc([t, j, p], b);
    JoinLinesSnoc([t, j, p, b], r);
    assert [t] + [j] == [t, j] && [t, j] + [p] == [t, j, p];
    assert [t, j, p] + [b] == [t, j, p, b] && [t, j, p, b] + [r] == [t, j, p, b, r];
  }

  /** Every element of the list is a line. */
  predicate AllLines(ls: seq<string>)
  {
    forall i | 0 <= i < |ls| :: IsLine(ls[i])
  }

  /** Two lists of lines make a list of lines. */
  lemma AllLinesAppend(x: seq<string>, y: seq<string>)
    requires AllLines(x) && AllLines(y)
    ensures AllLines(x + y)
  {
  }
}

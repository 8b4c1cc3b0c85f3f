/**
 * The line buffer of the chat stream reader: every decoded chunk is appended to
 * a pending buffer, the buffer is split on LF, all pieces but the last are
 * complete lines and the last piece is kept for the next chunk.
 */
module SseLines {
  import opened JsText

  /** The line feed, the only separator the reader splits on. */
  const LF: CodeUnit := 10

  /** Each line followed by its LF, all concatenated. */
  function Terminated(lines: seq<Text>): Text
  {
    if lines == [] then [] else lines[0] + [LF] + Terminated(lines[1..])
  }

  /** The concatenation of all chunks, in order. */
  function Concat(chunks: seq<Text>): Text
  {
    if chunks == [] then [] else chunks[0] + Concat(chunks[1..])
  }

  /** Index of the first LF of a text that has one. */
  function FirstLF(s: Text): (i: nat)
    requires LF in s
    ensures i < |s| && s[i] == LF && LF !in s[..i]
  {
    if s[0] == LF then 0 else FirstLF(s[1..]) + 1
  }

  /**
   * `s.split('\n')`: the pieces between the LFs; the pieces joined back with LF
   * give `s`, so every piece but the last was ended by an LF.
   */
  function Split(s: Text): (pieces: seq<Text>)
    ensures |pieces| >= 1
    ensures forall k :: 0 <= k < |pieces| ==> LF !in pieces[k]
    ensures Terminated(pieces[..|pieces| - 1]) + pieces[|pieces| - 1] == s
    decreases |s|
  {
    if LF !in s then [s]
    else
      var i := FirstLF(s);
      var rest := Split(s[i + 1..]);
      SplitCons(s, i, rest);
      [s[..i]] + rest
  }

  lemma SplitCons(s: Text, i: nat, rest: seq<Text>)
    requires i < |s| && s[i] == LF && |rest| >= 1
    requires Terminated(rest[..|rest| - 1]) + rest[|rest| - 1] == s[i + 1..]
    ensures var p := [s[..i]] + rest; Terminated(p[..|p| - 1]) + p[|p| - 1] == s
  {
    var p := [s[..i]] + rest;
    var last := rest[|rest| - 1];
    TerminatedCons(s[..i], rest);
    assert p[|p| - 1] == last;
    calc {
      Terminated(p[..|p| - 1]) + last;
      s[..i] + [LF] + Terminated(rest[..|rest| - 1]) + last;
      s[..i] + [LF] + (Terminated(rest[..|rest| - 1]) + last);
      s[..i] + [LF] + s[i + 1..];
      { assert s == s[..i] + [s[i]] + s[i + 1..]; }
      s;
    }
  }

  lemma TerminatedCons(x: Text, rest: seq<Text>)
    requires |rest| >= 1
    ensures Terminated(([x] + rest)[..|rest|]) == x + [LF] + Terminated(rest[..|rest| - 1])
  {
    var l := ([x] + rest)[..|rest|];
    assert l[0] == x && l[1..] == rest[..|rest| - 1];
  }

  /** The complete lines of `s`: `split` with the last piece popped. */
  function CompleteLines(s: Text): seq<Text>
  {
    var pieces := Split(s); pieces[..|pieces| - 1]
  }

  /** The unfinished tail of `s`, which the reader keeps as its new buffer. */
  function Tail(s: Text): Text
  {
    var pieces := Split(s); pieces[|pieces| - 1]
  }

  predicate NoLF(lines: seq<Text>)
  {
    forall k :: 0 <= k < |lines| ==> LF !in lines[k]
  }

  lemma CompleteLinesAndTail(s: Text)
    ensures NoLF(CompleteLines(s)) && LF !in Tail(s)
    ensures Terminated(CompleteLines(s)) + Tail(s) == s
  {
  }

  /** The first LF of a terminated text sits right after its first line. */
  lemma {:induction false} FirstLFOfTerminated(lines: seq<Text>, t: Text)
    requires lines != [] && NoLF(lines)
    ensures LF in Terminated(lines) + t
    ensures FirstLF(Terminated(lines) + t) == |lines[0]|
  {
    var s := Terminated(lines) + t;
    assert s == lines[0] + ([LF] + Terminated(lines[1..]) + t);
    assert s[|lines[0]|] == LF;
    assert s[..|lines[0]|] == lines[0];
    FirstLFUnique(s, |lines[0]|);
  }

  lemma FirstLFUnique(s: Text, i: nat)
    requires i < |s| && s[i] == LF && LF !in s[..i]
    ensures LF in s && FirstLF(s) == i
  {
    var j := FirstLF(s);
  }

  /**
   * A text cut into LF-free lines, each ended by an LF, and an LF-free tail is
   * cut in only one way.
   */
  lemma {:induction false} TerminatedUnique(a: seq<Text>, ta: Text, b: seq<Text>, tb: Text)
    requires NoLF(a) && NoLF(b) && LF !in ta && LF !in tb
    requires Terminated(a) + ta == Terminated(b) + tb
    ensures a == b && ta == tb
  {
    var s := Terminated(a) + ta;
    if a == [] && b == [] {
      assert Terminated(a) == [] == Terminated(b);
      assert s == ta;
      assert s == tb;
    } else if a == [] {
      FirstLFOfTerminated(b, tb);
      assert false;
    } else if b == [] {
      FirstLFOfTerminated(a, ta);
      assert false;
    } else {
      FirstLFOfTerminated(a, ta);
      FirstLFOfTerminated(b, tb);
      TerminatedHead(a, ta);
      TerminatedHead(b, tb);
      assert NoLF(a[1..]) && NoLF(b[1..]);
      TerminatedUnique(a[1..], ta, b[1..], tb);
      assert a == [a[0]] + a[1..];
      assert b == [b[0]] + b[1..];
    }
  }

  /** A terminated text starts with its first line and its LF. */
  lemma TerminatedHead(a: seq<Text>, t: Text)
    requires a != []
    ensures var s := Terminated(a) + t; var n := |a[0]|;
            n < |s| && s[..n] == a[0] && s[n + 1..] == Terminated(a[1..]) + t
  {
    var x, u := a[0], Terminated(a[1..]) + t;
    var r := [LF] + u;
    assert Terminated(a) + t == x + r by {
      assert Terminated(a) == x + [LF] + Terminated(a[1..]);
    }
    assert (x + r)[..|x|] == x;
    assert (x + r)[|x|..] == r;
    assert r[1..] == u;
    assert (x + r)[|x| + 1..] == (x + r)[|x|..][1..];
  }

  /** Splitting is determined by the terminated-lines-plus-tail decomposition. */
  lemma SplitUnique(s: Text, lines: seq<Text>, tail: Text)
    requires NoLF(lines) && LF !in tail
    requires Terminated(lines) + tail == s
    ensures CompleteLines(s) == lines && Tail(s) == tail
  {
    CompleteLinesAndTail(s);
    TerminatedUnique(CompleteLines(s), Tail(s), lines, tail);
  }

  /** Joining LF-free lines and splitting again gives the same lines back. */
  lemma SplitTerminated(lines: seq<Text>, tail: Text)
    requires NoLF(lines) && LF !in tail
    ensures CompleteLines(Terminated(lines) + tail) == lines
    ensures Tail(Terminated(lines) + tail) == tail
  {
    SplitUnique(Terminated(lines) + tail, lines, tail);
  }

  lemma {:induction false} TerminatedAppend(a: seq<Text>, b: seq<Text>)
    ensures Terminated(a + b) == Terminated(a) + Terminated(b)
    decreases |a|
  {
    if a == [] {
      assert a + b == b;
    } else {
      assert (a + b)[1..] == a[1..] + b;
      TerminatedAppend(a[1..], b);
    }
  }

  /**
   * Feeding `c` and then `d` through the buffer yields the same lines as feeding
   * `c + d` at once, and leaves the same tail: the line boundaries do not depend
   * on where the chunks are cut.
   */
  lemma TwoChunks(buf: Text, c: Text, d: Text)
    ensures CompleteLines(buf + c) + CompleteLines(Tail(buf + c) + d) == CompleteLines(buf + c + d)
    ensures Tail(Tail(buf + c) + d) == Tail(buf + c + d)
  {
    var s1 := buf + c;
    var l1, t1 := CompleteLines(s1), Tail(s1);
    var l2, t2 := CompleteLines(t1 + d), Tail(t1 + d);
    CompleteLinesAndTail(s1);
    CompleteLinesAndTail(t1 + d);
    TerminatedAppend(l1, l2);
    AppendTail(Terminated(l1), t1, d, Terminated(l2), t2);
    assert NoLF(l1 + l2);
    SplitUnique(s1 + d, l1 + l2, t2);
  }

  lemma AppendTail(p: Text, t1: Text, d: Text, q: Text, t2: Text)
    requires t1 + d == q + t2
    ensures p + t1 + d == p + q + t2
  {
    assert p + t1 + d == p + (t1 + d);
    assert p + q + t2 == p + (q + t2);
  }
}

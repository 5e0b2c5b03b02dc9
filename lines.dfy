/** Strings cut at newline characters, the way Python's `str.split("\n")`
    cuts them, and the two ways of putting the pieces back together. */
module Lines {

  const Newline: char := '\n'

  /** No line of `lines` holds a newline. */
  predicate NoNewlines(lines: seq<string>)
  {
    forall i :: 0 <= i < |lines| ==> Newline !in lines[i]
  }

  lemma NoNewlinesAppend(a: seq<string>, b: seq<string>)
    requires NoNewlines(a) && NoNewlines(b)
    ensures NoNewlines(a + b)
  {
  }

  /** The number of newline characters in `s`. */
  function NewlineCount(s: string): (n: nat)
    ensures n <= |s|
    ensures n == 0 <==> Newline !in s
  {
    if s == [] then 0
    else (if s[0] == Newline then 1 else 0) + NewlineCount(s[1..])
  }

  /** `s.split("\n")`: the maximal newline-free pieces of `s`, in order.
      There is always one more piece than there are newlines, and the
      pieces themselves hold no newline. */
  function Split(s: string): (pieces: seq<string>)
    ensures |pieces| == NewlineCount(s) + 1
    ensures NoNewlines(pieces)
  {
    if s == [] then [""]
    else
      var rest := Split(s[1..]);
      if s[0] == Newline then [""] + rest
      else [[s[0]] + rest[0]] + rest[1..]
  }

  /** `"\n".join(lines)`. */
  function Join(lines: seq<string>): string
  {
    if |lines| == 0 then ""
    else if |lines| == 1 then lines[0]
    else lines[0] + [Newline] + Join(lines[1..])
  }

  /** Every line followed by its newline, as a line-oriented log shows them. */
  function Terminated(lines: seq<string>): string
  {
    if lines == [] then "" else lines[0] + [Newline] + Terminated(lines[1..])
  }

  /** The complete lines of `s`: every piece of `s.split("\n")` but the last. */
  function Complete(s: string): (lines: seq<string>)
    ensures |lines| == NewlineCount(s)
    ensures NoNewlines(lines)
    ensures Terminated(lines) + Pending(s) == s
  {
    var pieces := Split(s);
    SplitIsTerminated(s);
    pieces[..|pieces| - 1]
  }

  /** The unterminated tail of `s`: the part after its last newline, or all
      of `s` when it has none. */
  function Pending(s: string): (tail: string)
    ensures Newline !in tail
    ensures |tail| <= |s| && tail == s[|s| - |tail|..]
    ensures |tail| < |s| ==> s[|s| - |tail| - 1] == Newline
    ensures Newline !in s ==> tail == s
  {
    var pieces := Split(s);
    SplitIsTerminated(s);
    var init := pieces[..|pieces| - 1];
    var tail := pieces[|pieces| - 1];
    assert s == Terminated(init) + tail;
    if init != [] then
      TerminatedEndsWithNewline(init);
      assert s[|s| - |tail| - 1] == Terminated(init)[|Terminated(init)| - 1];
      tail
    else tail
  }

  lemma {:induction false} NewlineCountAppend(a: string, b: string)
    ensures NewlineCount(a + b) == NewlineCount(a) + NewlineCount(b)
  {
    if a != [] {
      assert (a + b)[1..] == a[1..] + b;
      NewlineCountAppend(a[1..], b);
    } else {
      assert a + b == b;
    }
  }

  lemma {:induction false} TerminatedAppend(a: seq<string>, b: seq<string>)
    ensures Terminated(a + b) == Terminated(a) + Terminated(b)
  {
    if a != [] {
      assert (a + b)[1..] == a[1..] + b;
      TerminatedAppend(a[1..], b);
    } else {
      assert a + b == b;
    }
  }

  lemma {:induction false} TerminatedEndsWithNewline(lines: seq<string>)
    requires lines != []
    ensures |Terminated(lines)| > 0 && Terminated(lines)[|Terminated(lines)| - 1] == Newline
  {
    if lines[1..] != [] {
      TerminatedEndsWithNewline(lines[1..]);
    }
  }

  /** A non-empty list of lines joined with newlines is every line but the
      last terminated, followed by the last. */
  lemma {:induction false} JoinIsTerminated(lines: seq<string>)
    requires |lines| >= 1
    ensures Join(lines) == Terminated(lines[..|lines| - 1]) + lines[|lines| - 1]
  {
    if |lines| > 1 {
      JoinIsTerminated(lines[1..]);
      assert lines[1..][..|lines| - 2] == lines[..|lines| - 1][1..];
    }
  }

  /** Appending terminated lines to a transcript whose tail they complete. */
  lemma TerminatedExtend(done: seq<string>, pending: string, lines: seq<string>, tail: string, s: string)
    requires Terminated(lines) + tail == pending + s
    ensures Terminated(done + lines) + tail == (Terminated(done) + pending) + s
  {
    TerminatedAppend(done, lines);
    var d, l := Terminated(done), Terminated(lines);
    assert (d + l) + tail == d + (l + tail);
    assert d + (pending + s) == (d + pending) + s;
  }

  /** Terminating every line of a non-empty list is joining them with
      newlines and adding one final newline. */
  lemma TerminatedIsJoin(lines: seq<string>)
    requires lines != []
    ensures Terminated(lines) == Join(lines) + [Newline]
  {
  }

  /** Joining with newlines after appending lines: the first part comes out
      terminated. */
  lemma JoinAppend(a: seq<string>, b: seq<string>)
    requires |b| >= 1
    ensures Join(a + b) == Terminated(a) + Join(b)
  {
    var ab := a + b;
    var front := b[..|b| - 1];
    var last := b[|b| - 1];
    assert ab[..|ab| - 1] == a + front;
    assert ab[|ab| - 1] == last;
    calc {
      Join(ab);
      { JoinIsTerminated(ab); }
      Terminated(a + front) + last;
      { TerminatedAppend(a, front); }
      (Terminated(a) + Terminated(front)) + last;
      Terminated(a) + (Terminated(front) + last);
      { JoinIsTerminated(b); }
      Terminated(a) + Join(b);
    }
  }

  /** Joining the pieces of `s.split("\n")` with newlines gives back `s`. */
  lemma {:induction false} JoinSplit(s: string)
    ensures Join(Split(s)) == s
  {
    if s != [] {
      var rest := Split(s[1..]);
      JoinSplit(s[1..]);
      if s[0] == Newline {
        assert Split(s) == [""] + rest;
        assert ([""] + rest)[1..] == rest;
      } else {
        assert Split(s) == [[s[0]] + rest[0]] + rest[1..];
        if |rest| > 1 {
          assert Join(rest) == rest[0] + [Newline] + Join(rest[1..]);
          assert ([[s[0]] + rest[0]] + rest[1..])[1..] == rest[1..];
        }
      }
    }
  }

  lemma SplitIsTerminated(s: string)
    ensures Terminated(Split(s)[..|Split(s)| - 1]) + Split(s)[|Split(s)| - 1] == s
  {
    JoinSplit(s);
    JoinIsTerminated(Split(s));
  }

  lemma {:induction false} SplitWithoutNewline(s: string)
    requires Newline !in s
    ensures Split(s) == [s]
  {
    if s != [] {
      assert Newline !in s[1..] by {
        forall i | 0 <= i < |s[1..]| ensures s[1..][i] != Newline {
          assert s[1..][i] == s[i + 1];
        }
      }
      SplitWithoutNewline(s[1..]);
      assert [s[0]] + s[1..] == s;
    }
  }

  /** A first character other than a newline joins the first piece. */
  lemma SplitCons(c: char, r: string)
    requires c != Newline
    ensures Split([c] + r) == [[c] + Split(r)[0]] + Split(r)[1..]
  {
    assert ([c] + r)[1..] == r;
  }

  /** A newline-free first line followed by a newline splits off as one piece. */
  lemma {:induction false} SplitAfterLine(line: string, t: string)
    requires Newline !in line
    ensures Split(line + [Newline] + t) == [line] + Split(t)
  {
    if line == [] {
      assert line + [Newline] + t == [Newline] + t;
      assert ([Newline] + t)[1..] == t;
    } else {
      var more := line[1..] + [Newline] + t;
      assert line + [Newline] + t == [line[0]] + more;
      assert Newline !in line[1..] by {
        forall i | 0 <= i < |line[1..]| ensures line[1..][i] != Newline {
          assert line[1..][i] == line[i + 1];
        }
      }
      SplitAfterLine(line[1..], t);
      SplitCons(line[0], more);
      assert [line[0]] + line[1..] == line;
    }
  }

  /** `s.split("\n")` is the only list of newline-free pieces that joins to
      `s`: splitting undoes joining. */
  lemma {:induction false} SplitJoin(lines: seq<string>)
    requires |lines| >= 1
    requires NoNewlines(lines)
    ensures Split(Join(lines)) == lines
  {
    if |lines| == 1 {
      SplitWithoutNewline(lines[0]);
    } else {
      SplitJoin(lines[1..]);
      SplitAfterLine(lines[0], Join(lines[1..]));
      assert [lines[0]] + lines[1..] == lines;
    }
  }

  /** Splitting `t + u` cuts off the complete lines of `t` first, then splits
      what is left of `t` together with `u`. */
  lemma SplitAfterComplete(t: string, u: string)
    ensures Split(t + u) == Complete(t) + Split(Pending(t) + u)
  {
    var first := Complete(t);
    var second := Split(Pending(t) + u);
    var both := first + second;
    NoNewlinesAppend(first, second);
    calc {
      Join(both);
      { JoinAppend(first, second); }
      Terminated(first) + Join(second);
      { JoinSplit(Pending(t) + u); }
      Terminated(first) + (Pending(t) + u);
      (Terminated(first) + Pending(t)) + u;
      t + u;
    }
    SplitJoin(both);
  }

  /** The last element of `a + b`, and all before it, for a non-empty `b`. */
  lemma DropLast<T>(a: seq<T>, b: seq<T>)
    requires |b| >= 1
    ensures (a + b)[..|a + b| - 1] == a + b[..|b| - 1]
    ensures (a + b)[|a + b| - 1] == b[|b| - 1]
  {
  }

  /** Cutting text into chunks does not change its complete lines: those
      of `t`, then those of its tail followed by `u`, are those of `t + u`. */
  lemma CompleteInChunks(t: string, u: string)
    ensures Complete(t) + Complete(Pending(t) + u) == Complete(t + u)
  {
    SplitAfterComplete(t, u);
    DropLast(Complete(t), Split(Pending(t) + u));
  }

  /** The last element of a sequence made of `a` and a non-empty `b`. */
  lemma LastOfAppend<T>(whole: seq<T>, a: seq<T>, b: seq<T>)
    requires whole == a + b && |b| >= 1
    ensures whole[|whole| - 1] == b[|b| - 1]
  {
  }

  /** The last piece of `t + u` is the last piece of the tail of `t`
      followed by `u`. */
  lemma LastPieceInChunks(t: string, u: string)
    ensures Split(t + u)[|Split(t + u)| - 1] == Split(Pending(t) + u)[|Split(Pending(t) + u)| - 1]
  {
    SplitAfterComplete(t, u);
    LastOfAppend(Split(t + u), Complete(t), Split(Pending(t) + u));
  }

  /** Cutting text into chunks does not change its tail. */
  lemma PendingInChunks(t: string, u: string)
    ensures Pending(Pending(t) + u) == Pending(t + u)
  {
    LastPieceInChunks(t, u);
  }
}

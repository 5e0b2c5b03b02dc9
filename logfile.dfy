/** The `LogFile` object that the bootstrap code installs as the
    interpreter's `sys.stdout` and `sys.stderr`: it collects written text and
    sends each complete line to the platform log as one record. */
module Logging {
  import opened Lines

  /** `androidembed.log(l)` parses its argument as a C string, which
      raises `TypeError` for a line holding a NUL character. */
  predicate Loggable(line: string)
  {
    '\0' !in line
  }

  predicate AllLoggable(lines: seq<string>)
  {
    forall i :: 0 <= i < |lines| ==> Loggable(lines[i])
  }

  /** The lines that reach the log before the first one `androidembed.log`
      rejects: the longest prefix of loggable lines. */
  function LoggablePrefix(lines: seq<string>): (logged: seq<string>)
    ensures |logged| <= |lines| && logged == lines[..|logged|]
    ensures AllLoggable(logged)
    ensures |logged| < |lines| ==> !Loggable(lines[|logged|])
  {
    if lines == [] || !Loggable(lines[0]) then []
    else [lines[0]] + LoggablePrefix(lines[1..])
  }

  /** A loggable prefix that stops at the end or at a rejected line is the
      one `LoggablePrefix` gives. */
  lemma {:induction false} LoggablePrefixIs(lines: seq<string>, k: nat)
    requires k <= |lines| && AllLoggable(lines[..k])
    requires k < |lines| ==> !Loggable(lines[k])
    ensures LoggablePrefix(lines) == lines[..k]
  {
    if k > 0 {
      assert Loggable(lines[0]) by {
        assert lines[..k][0] == lines[0];
      }
      var rest := lines[1..][..k - 1];
      assert AllLoggable(rest) by {
        forall j | 0 <= j < k - 1 ensures Loggable(rest[j]) {
          assert rest[j] == lines[..k][j + 1];
        }
      }
      assert k - 1 < |lines[1..]| ==> lines[1..][k - 1] == lines[k];
      LoggablePrefixIs(lines[1..], k - 1);
      assert [lines[0]] + lines[1..][..k - 1] == lines[..k];
    }
  }

  /** When every line is loggable, all of them reach the log. */
  lemma {:induction false} AllLogged(lines: seq<string>)
    requires AllLoggable(lines)
    ensures LoggablePrefix(lines) == lines
  {
    if lines != [] {
      assert Loggable(lines[0]);
      assert AllLoggable(lines[1..]) by {
        forall j | 0 <= j < |lines| - 1 ensures Loggable(lines[1..][j]) {
          assert lines[1..][j] == lines[j + 1];
        }
      }
      AllLogged(lines[1..]);
      assert [lines[0]] + lines[1..] == lines;
    }
  }

  /** A character absent from the terminated transcript is absent from
      every line in it. */
  lemma {:induction false} AbsentFromLines(lines: seq<string>, c: char)
    requires c !in Terminated(lines)
    ensures forall i :: 0 <= i < |lines| ==> c !in lines[i]
  {
    if lines != [] {
      var t := Terminated(lines);
      assert t == lines[0] + [Newline] + Terminated(lines[1..]);
      assert c !in lines[0] by {
        forall j | 0 <= j < |lines[0]| ensures lines[0][j] != c {
          assert lines[0][j] == t[j];
        }
      }
      assert c !in Terminated(lines[1..]) by {
        var off := |lines[0]| + 1;
        forall j | 0 <= j < |Terminated(lines[1..])| ensures Terminated(lines[1..])[j] != c {
          assert Terminated(lines[1..])[j] == t[off + j];
        }
      }
      AbsentFromLines(lines[1..], c);
      forall i | 1 <= i < |lines| ensures c !in lines[i] {
        assert lines[i] == lines[1..][i - 1];
      }
    }
  }

  /** A write never raises when the buffered text and the new text hold no
      NUL character: every complete line is then loggable. */
  lemma NoNulNeverRaises(buffer: string, s: string)
    requires '\0' !in buffer + s
    ensures AllLoggable(Complete(buffer + s))
    ensures LoggablePrefix(Complete(buffer + s)) == Complete(buffer + s)
  {
    var joined := buffer + s;
    var lines := Complete(joined);
    assert '\0' !in Terminated(lines) by {
      var t := Terminated(lines);
      assert joined == t + Pending(joined);
      forall j | 0 <= j < |t| ensures t[j] != '\0' {
        assert t[j] == joined[j];
      }
    }
    AbsentFromLines(lines, '\0');
    AllLogged(lines);
  }

  /** A write whose `i`-th complete line is the first one rejected has
      logged exactly the lines before it, and the records stay
      newline-free. */
  lemma StopsAt(emitted: seq<string>, joined: string, i: nat)
    requires NoNewlines(emitted)
    requires i < |Complete(joined)|
    requires AllLoggable(Complete(joined)[..i]) && !Loggable(Complete(joined)[i])
    ensures !AllLoggable(Complete(joined))
    ensures LoggablePrefix(Complete(joined)) == Complete(joined)[..i]
    ensures NoNewlines(emitted + Complete(joined)[..i])
  {
    var lines := Complete(joined);
    LoggablePrefixIs(lines, i);
    assert NoNewlines(lines[..i]) by {
      forall j | 0 <= j < i ensures Newline !in lines[..i][j] {
        assert lines[..i][j] == lines[j];
      }
    }
    NoNewlinesAppend(emitted, lines[..i]);
  }

  class LogFile {
    /** The unterminated tail of everything written so far. */
    var buffer: string
    /** The records sent to the platform log, oldest first. */
    var emitted: seq<string>
    /** Everything ever passed to `Write`, in order. */
    ghost var written: string
    /** Whether some write has stopped at a line the log rejected. */
    ghost var failed: bool

    /** Records and buffer are newline-free, and until a write has stopped
        at a rejected line all input is accounted for: the emitted records,
        each with the newline that ended it, followed by the pending
        buffer. */
    ghost predicate Valid()
      reads this
    {
      && Newline !in buffer
      && NoNewlines(emitted)
      && (!failed ==> Terminated(emitted) + buffer == written)
    }

    constructor ()
      ensures Valid()
      ensures buffer == "" && emitted == [] && written == "" && !failed
    {
      buffer := "";
      emitted := [];
      written := "";
      failed := false;
    }

    /** `write(s)`: the complete lines of `buffer + s` go to the log in
        order, and the tail after the last newline stays buffered. When the
        log rejects a line, the lines before it are logged, the write raises
        (`raised`), and the buffer keeps its old value. `Complete(joined)`
        and `Pending(joined)` are `lines[:-1]` and `lines[-1]` of
        `lines = joined.split("\n")`. */
    method Write(s: string) returns (raised: bool)
      requires Valid()
      modifies this
      ensures Valid()
      ensures written == old(written) + s
      ensures var lines := Complete(old(buffer) + s);
        && (raised <==> !AllLoggable(lines))
        && emitted == old(emitted) + LoggablePrefix(lines)
      ensures raised ==> buffer == old(buffer) && failed
      ensures !raised ==> buffer == Pending(old(buffer) + s) && failed == old(failed)
      ensures !raised ==> |emitted| == |old(emitted)| + NewlineCount(s)
      ensures Newline !in s ==> !raised && emitted == old(emitted) && buffer == old(buffer) + s
    {
      var joined := buffer + s;
      var complete := Complete(joined);
      for i := 0 to |complete|
        invariant emitted == old(emitted) + complete[..i]
        invariant AllLoggable(complete[..i])
        invariant buffer == old(buffer) && written == old(written) && failed == old(failed)
      {
        if !Loggable(complete[i]) {
          StopsAt(old(emitted), joined, i);
          written := written + s;
          failed := true;
          return true;
        }
        emitted := emitted + [complete[i]];
        assert complete[..i + 1] == complete[..i] + [complete[i]];
      }
      assert complete[..|complete|] == complete;
      buffer := Pending(joined);
      written := written + s;
      CompletesWrite(old(emitted), old(buffer), old(written), old(failed), s);
      raised := false;
    }

    /** `flush()` does nothing: it changes no field. */
    method Flush()
      requires Valid()
      ensures Valid()
    {
    }
  }

  /** One `write(s)` on the state (`emitted`, `buffer`, `written`) keeps the
      invariant of `LogFile` and emits one record per newline of `s`; a write
      without a newline only extends the buffer. */
  lemma WriteKeepsInvariant(emitted: seq<string>, buffer: string, written: string, s: string)
    requires Newline !in buffer
    requires NoNewlines(emitted)
    requires Terminated(emitted) + buffer == written
    ensures NoNewlines(emitted + Complete(buffer + s))
    ensures Terminated(emitted + Complete(buffer + s)) + Pending(buffer + s) == written + s
    ensures |Complete(buffer + s)| == NewlineCount(s)
    ensures Newline !in s ==> Complete(buffer + s) == [] && Pending(buffer + s) == buffer + s
  {
    var joined := buffer + s;
    var lines := Complete(joined);
    var tail := Pending(joined);
    NoNewlinesAppend(emitted, lines);
    TerminatedExtend(emitted, buffer, lines, tail, s);
    NewlineCountAppend(buffer, s);
    if Newline !in s {
      assert NewlineCount(joined) == 0;
    }
  }

  /** A write that logs every complete line of `buffer + s` keeps the
      `LogFile` invariant, whether or not an earlier write has failed. */
  lemma CompletesWrite(emitted: seq<string>, buffer: string, written: string, failed: bool, s: string)
    requires Newline !in buffer
    requires NoNewlines(emitted)
    requires !failed ==> Terminated(emitted) + buffer == written
    requires AllLoggable(Complete(buffer + s))
    ensures LoggablePrefix(Complete(buffer + s)) == Complete(buffer + s)
    ensures NoNewlines(emitted + Complete(buffer + s))
    ensures !failed ==> Terminated(emitted + Complete(buffer + s)) + Pending(buffer + s) == written + s
    ensures |Complete(buffer + s)| == NewlineCount(s)
    ensures Newline !in s ==> Complete(buffer + s) == [] && Pending(buffer + s) == buffer + s
  {
    var lines := Complete(buffer + s);
    AllLogged(lines);
    if failed {
      NoNewlinesAppend(emitted, lines);
      NewlineCountAppend(buffer, s);
    } else {
      WriteKeepsInvariant(emitted, buffer, written, s);
    }
  }

  /** The log transcript, as the platform log shows it: the emitted records
      joined with newlines, then a newline and the pending buffer (just the
      buffer while nothing has been emitted), are exactly the text written. */
  lemma Transcript(emitted: seq<string>, buffer: string, written: string)
    requires Terminated(emitted) + buffer == written
    ensures emitted == [] ==> buffer == written
    ensures emitted != [] ==> Join(emitted) + [Newline] + buffer == written
  {
    if emitted != [] {
      TerminatedIsJoin(emitted);
    }
  }

  /** The records emitted do not depend on how the output is cut into
      writes: writing `s1` and then `s2` emits the same lines, and leaves the
      same buffer, as writing `s1 + s2` at once. */
  lemma WriteChunking(buffer: string, s1: string, s2: string)
    ensures Complete(buffer + s1) + Complete(Pending(buffer + s1) + s2) == Complete(buffer + s1 + s2)
    ensures Pending(Pending(buffer + s1) + s2) == Pending(buffer + s1 + s2)
  {
    CompleteInChunks(buffer + s1, s2);
    PendingInChunks(buffer + s1, s2);
  }
}

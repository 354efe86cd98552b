// The `LogFile` stream that the bootstrap code installs as `sys.stdout` and
// `sys.stderr`: it keeps the text of an unfinished line in `buffer` and hands
// every completed line, without its newline, to `androidembed.log`.

module LogStream {
  import opened Lines

  const Newline: char := '\n'

  /** What one write hands to the platform log (`lines`, in order) and what it
      leaves buffered (`rest`). */
  datatype Flushed = Flushed(lines: seq<string>, rest: string)

  /** The effect of `write(s)` on a stream whose buffer holds `buffer`: the
      text `buffer + s` is split on newlines, every fragment but the last is
      logged and the last one is kept. */
  function Step(buffer: string, s: string): (f: Flushed)
    ensures Newline !in f.rest
    ensures forall i :: 0 <= i < |f.lines| ==> Newline !in f.lines[i]
    ensures Terminated(f.lines, Newline) + f.rest == buffer + s
  {
    var fragments := Split(buffer + s, Newline);
    SplitRecombine(buffer + s, Newline);
    Flushed(fragments[..|fragments| - 1], fragments[|fragments| - 1])
  }

  /** The state of a fresh stream after the writes `ws`, in order: every line
      logged so far and the text still buffered. */
  function Run(ws: seq<string>): (f: Flushed)
    ensures Newline !in f.rest
  {
    if ws == [] then Flushed([], "")
    else
      var before := Run(ws[..|ws| - 1]);
      var step := Step(before.rest, ws[|ws| - 1]);
      Flushed(before.lines + step.lines, step.rest)
  }

  /** All the text of `ws`, concatenated in order. */
  function Concat(ws: seq<string>): string {
    if ws == [] then "" else Concat(ws[..|ws| - 1]) + ws[|ws| - 1]
  }

  /** `Step` is the only way to cut `buffer + s` into newline-free complete
      lines and a newline-free rest. */
  lemma StepUnique(buffer: string, s: string, lines: seq<string>, rest: string)
    requires forall i :: 0 <= i < |lines| ==> Newline !in lines[i]
    requires Newline !in rest
    requires Terminated(lines, Newline) + rest == buffer + s
    ensures Step(buffer, s) == Flushed(lines, rest)
  {
    SplitTerminated(lines, rest, Newline);
    assert Split(buffer + s, Newline) == lines + [rest];
    assert (lines + [rest])[..|lines|] == lines;
  }

  /** The buffer kept after a write is the text of `buffer + s` that follows
      its last newline (all of it when there is none). */
  lemma StepRestFollowsLastNewline(buffer: string, s: string)
    ensures var t, rest := buffer + s, Step(buffer, s).rest;
      |rest| <= |t| && t[|t| - |rest|..] == rest && Newline !in rest &&
      (|rest| < |t| ==> t[|t| - |rest| - 1] == Newline)
  {
    var t, f := buffer + s, Step(buffer, s);
    var prefix := Terminated(f.lines, Newline);
    assert t == prefix + f.rest;
    assert t[|t| - |f.rest|..] == f.rest;
    if |f.rest| < |t| {
      assert t[|t| - |f.rest| - 1] == prefix[|prefix| - 1];
    }
  }

  /** Given a newline-free buffer, a write logs one line per newline it
      contains. */
  lemma StepLineCount(buffer: string, s: string)
    requires Newline !in buffer
    ensures |Step(buffer, s).lines| == Count(s, Newline)
  {
    SplitCount(buffer + s, Newline);
    assert multiset(buffer + s) == multiset(buffer) + multiset(s);
  }

  /** A write whose combined text holds no newline logs nothing and only grows
      the buffer; in particular writing "" to a newline-free buffer changes
      nothing. */
  lemma StepWithoutNewline(buffer: string, s: string)
    requires Newline !in buffer + s
    ensures Step(buffer, s) == Flushed([], buffer + s)
    ensures s == "" ==> Step(buffer, s) == Flushed([], buffer)
  {
    SplitWithoutSep(buffer + s, Newline);
    if s == "" {
      assert buffer + s == buffer;
    }
  }

  /** A write leaves the buffer empty exactly when the combined text is empty
      or ends with a newline. */
  lemma StepEmptiesBuffer(buffer: string, s: string)
    ensures var t := buffer + s; Step(buffer, s).rest == "" <==> (t == "" || t[|t| - 1] == Newline)
  {
    SplitLastEmpty(buffer + s, Newline);
  }

  /** Content preservation across any sequence of writes: the logged lines,
      each followed by a newline, and then the buffer, give back all the text
      written; the buffer never holds a newline. */
  lemma {:induction false} RunPreservesContent(ws: seq<string>)
    ensures Newline !in Run(ws).rest
    ensures Terminated(Run(ws).lines, Newline) + Run(ws).rest == Concat(ws)
  {
    if ws != [] {
      var init, last := ws[..|ws| - 1], ws[|ws| - 1];
      var before := Run(init);
      var step := Step(before.rest, last);
      assert Run(ws) == Flushed(before.lines + step.lines, step.rest);
      RunPreservesContent(init);
      TerminatedAppend(before.lines, step.lines, Newline);
      AppendRegroup(Terminated(before.lines, Newline), Terminated(step.lines, Newline),
                    step.rest, before.rest, last, Concat(init));
    }
  }

  /** Regrouping for one write: the text logged before, the text logged by the
      write and its rest give what was written before followed by the write. */
  lemma AppendRegroup(tb: string, ts: string, rest: string, br: string, s: string, before: string)
    requires ts + rest == br + s
    requires tb + br == before
    ensures (tb + ts) + rest == before + s
  {
    calc {
      (tb + ts) + rest;
      tb + (ts + rest);
      tb + (br + s);
      (tb + br) + s;
    }
  }

  /** Over a whole session, one line has been logged per newline written. */
  lemma {:induction false} RunLineCount(ws: seq<string>)
    ensures |Run(ws).lines| == Count(Concat(ws), Newline)
  {
    if ws != [] {
      var before := Run(ws[..|ws| - 1]);
      RunLineCount(ws[..|ws| - 1]);
      RunPreservesContent(ws[..|ws| - 1]);
      StepLineCount(before.rest, ws[|ws| - 1]);
      assert multiset(Concat(ws)) == multiset(Concat(ws[..|ws| - 1])) + multiset(ws[|ws| - 1]);
    }
  }

  /** The Python `LogFile` object. `logged` stands for the calls made to
      `androidembed.log`, in order; the ghost `written` records every string
      passed to `write`. */
  class LogFile {
    var buffer: string
    var logged: seq<string>
    ghost var written: seq<string>

    /** The stream is in the state that its writes so far produce. */
    ghost predicate Valid()
      reads this
    {
      Run(written) == Flushed(logged, buffer)
    }

    /** `LogFile()`: nothing buffered, nothing logged. */
    constructor ()
      ensures Valid()
      ensures buffer == "" && logged == [] && written == []
    {
      buffer := "";
      logged := [];
      written := [];
    }

    /** `write(s)`: log every complete line of `buffer + s`, keep the rest. */
    method Write(s: string)
      requires Valid()
      modifies this
      ensures Valid()
      ensures written == old(written) + [s]
      ensures logged == old(logged) + Step(old(buffer), s).lines
      ensures buffer == Step(old(buffer), s).rest
    {
      var text := buffer + s;
      var fragments := Split(text, Newline);
      for i := 0 to |fragments| - 1
        invariant logged == old(logged) + fragments[..i]
        invariant buffer == old(buffer) && written == old(written)
      {
        // androidembed.log(fragments[i])
        logged := logged + [fragments[i]];
      }
      buffer := fragments[|fragments| - 1];
      written := written + [s];
      assert written[..|written| - 1] == old(written);
    }
  }

  /** Example: a write holding two newlines logs two lines and keeps the
      rest. */
  method ExampleThreeFragments()
  {
    var f := new LogFile();
    assert "" + "a\nb\nc" == "a\nb\nc";
    assert Terminated(["a", "b"], Newline) == "a\nb\n";
    StepUnique("", "a\nb\nc", ["a", "b"], "c");
    f.Write("a\nb\nc");
    assert f.logged == ["a", "b"] && f.buffer == "c";
  }

  /** Example: a write ending in a newline empties the buffer, and a
      following empty write changes nothing. */
  method ExampleTrailingNewline()
  {
    var g := new LogFile();
    assert "" + "a\n" == "a\n";
    assert Terminated(["a"], Newline) + "" == "a\n";
    StepUnique("", "a\n", ["a"], "");
    g.Write("a\n");
    StepWithoutNewline("", "");
    g.Write("");
    assert g.logged == ["a"] && g.buffer == "";
  }
}

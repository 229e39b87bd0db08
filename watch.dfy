/**
 * Watch mode (src/index.ts): the diagnostic reporter and the status
 * reporter the wrapper hands to the compiler's watch host, sharing one
 * buffer of diagnostics. A start status (6031, starting compilation, or
 * 6032, file change detected) empties the buffer and prints the status; the
 * done status (6194) joins the buffer, which is then printed and counted.
 */
module Watch {
  import opened Diagnostics

  const StartingCompilation: int := 6031
  const FileChangeDetected: int := 6032
  const CompilationDone: int := 6194

  /** One callback from the watch host, in arrival order. */
  datatype Signal = Reported(d: Diagnostic) | Status(d: Diagnostic)

  predicate IsStart(s: Signal)
  {
    s.Status? && (s.d.code == StartingCompilation || s.d.code == FileChangeDetected)
  }

  /** A reported diagnostic or the done status: what the buffer keeps. */
  predicate IsKept(s: Signal)
  {
    s.Reported? || s.d.code == CompilationDone
  }

  /** The diagnostics of the kept signals, in order. */
  function Kept(signals: seq<Signal>): seq<Diagnostic>
  {
    if signals == [] then []
    else (if IsKept(signals[0]) then [signals[0].d] else []) + Kept(signals[1..])
  }

  /** Where the current cycle begins: just past the last start signal, or 0 before the first one. */
  function CycleStart(signals: seq<Signal>): (r: nat)
    ensures r <= |signals|
    ensures r > 0 ==> IsStart(signals[r - 1])
    ensures forall k :: r <= k < |signals| ==> !IsStart(signals[k])
  {
    if signals == [] then 0
    else if IsStart(signals[|signals| - 1]) then |signals|
    else CycleStart(signals[..|signals| - 1])
  }

  /** The diagnostics kept since the last start signal: what the buffer should hold. */
  function Buffered(signals: seq<Signal>): seq<Diagnostic>
  {
    Kept(signals[CycleStart(signals)..])
  }

  lemma {:induction false} KeptAppend(a: seq<Signal>, b: seq<Signal>)
    ensures Kept(a + b) == Kept(a) + Kept(b)
  {
    if a == [] {
      assert a + b == b;
    } else {
      KeptAppend(a[1..], b);
      assert (a + b)[1..] == a[1..] + b;
    }
  }

  /** How one more signal changes what the buffer should hold. */
  lemma BufferedStep(signals: seq<Signal>, s: Signal)
    ensures IsStart(s) ==> Buffered(signals + [s]) == []
    ensures !IsStart(s) && IsKept(s) ==> Buffered(signals + [s]) == Buffered(signals) + [s.d]
    ensures !IsStart(s) && !IsKept(s) ==> Buffered(signals + [s]) == Buffered(signals)
  {
    var all := signals + [s];
    assert all[..|all| - 1] == signals;
    if !IsStart(s) {
      var c := CycleStart(signals);
      assert all[c..] == signals[c..] + [s];
      KeptAppend(signals[c..], [s]);
      assert Kept([s]) == (if IsKept(s) then [s.d] else []) by {
        assert [s][1..] == [];
      }
    }
  }

  /**
   * No leakage between cycles: whatever came before a start signal has no
   * bearing on the buffer afterwards.
   */
  lemma {:induction false} CycleIsolation(before: seq<Signal>, start: Signal, after: seq<Signal>)
    requires IsStart(start)
    decreases |after|
    ensures Buffered(before + [start] + after) == Buffered(after)
  {
    var all := before + [start] + after;
    if after == [] {
      assert all == before + [start];
      BufferedStep(before, start);
      assert Buffered([]) == [];
    } else {
      var init, last := after[..|after| - 1], after[|after| - 1];
      CycleIsolation(before, start, init);
      assert all == (before + [start] + init) + [last];
      assert after == init + [last];
      BufferedStep(before + [start] + init, last);
      BufferedStep(init, last);
    }
  }

  /** The buffered diagnostics and the history of callbacks they come from. */
  class WatchSession {
    var buffer: seq<Diagnostic>
    ghost var signals: seq<Signal>

    ghost predicate Valid()
      reads this
    {
      buffer == Buffered(signals)
    }

    /** `const watchDiagnostics = []`, before any callback. */
    constructor ()
      ensures Valid() && signals == [] && buffer == []
    {
      buffer := [];
      signals := [];
    }

    /** The diagnostic reporter: every diagnostic joins the buffer. */
    method OnDiagnostic(d: Diagnostic)
      requires Valid()
      modifies this
      ensures Valid()
      ensures signals == old(signals) + [Reported(d)]
      ensures buffer == old(buffer) + [d]
    {
      BufferedStep(signals, Reported(d));
      buffer := buffer + [d];
      signals := signals + [Reported(d)];
    }

    /**
     * The status reporter. A start status empties the buffer and is printed
     * on its own; the done status joins the buffer, which is printed, counted
     * and followed by the watching notice; any other status does nothing.
     */
    method OnStatus(d: Diagnostic) returns (out: seq<Output>)
      requires Valid()
      modifies this
      ensures Valid()
      ensures signals == old(signals) + [Status(d)]
      ensures IsStart(Status(d)) ==> buffer == [] && out == [Formatted([d])]
      ensures d.code == CompilationDone ==>
                buffer == old(buffer) + [d] &&
                out == [Formatted(buffer)] + PrintSuppression(|buffer|) + [WatchingForChanges]
      ensures !IsStart(Status(d)) && d.code != CompilationDone ==> buffer == old(buffer) && out == []
      ensures NoErrorsFound !in out
    {
      BufferedStep(signals, Status(d));
      signals := signals + [Status(d)];
      if d.code == StartingCompilation || d.code == FileChangeDetected {
        buffer := [];
        out := Printed(One(d));
      } else if d.code == CompilationDone {
        buffer := buffer + [d];
        out := Printed(Many(buffer));
        out := out + PrintSuppression(|buffer|) + [WatchingForChanges];
      } else {
        out := [];
      }
    }
  }

  /**
   * The watch session opens by printing the configuration errors, then
   * starts with an empty buffer.
   */
  method StartWatch(configErrors: seq<Diagnostic>) returns (session: WatchSession, out: seq<Output>)
    ensures fresh(session) && session.Valid() && session.buffer == [] && session.signals == []
    ensures out == (if configErrors == [] then [] else [Formatted(configErrors)])
  {
    out := Printed(Many(configErrors));
    session := new WatchSession();
  }

  /**
   * One compilation cycle: a start status, the diagnostics `ds`, then the
   * done status. Whatever the session held before, the summary prints and
   * counts exactly `ds` and the done status.
   */
  method RunCycle(session: WatchSession, start: Diagnostic, ds: seq<Diagnostic>, done: Diagnostic) returns (summary: seq<Output>)
    requires session.Valid()
    requires IsStart(Status(start)) && done.code == CompilationDone
    modifies session
    ensures session.Valid() && session.buffer == ds + [done]
    ensures summary == [Formatted(ds + [done]), SuppressedErrors(|ds| + 1), CompletedSuccessfully, WatchingForChanges]
  {
    var printed := session.OnStatus(start);
    var i := 0;
    while i < |ds|
      invariant 0 <= i <= |ds|
      invariant session.Valid() && session.buffer == ds[..i]
    {
      session.OnDiagnostic(ds[i]);
      assert ds[..i + 1] == ds[..i] + [ds[i]];
      i := i + 1;
    }
    assert ds[..i] == ds;
    summary := session.OnStatus(done);
    assert PrintSuppression(|ds| + 1) == [SuppressedErrors(|ds| + 1), CompletedSuccessfully];
  }

  /**
   * Two cycles, [start, A, B, done, start, C, done]: the first summary
   * counts A, B and the done status, the second only C and the done status.
   */
  method TwoCycles(a: Diagnostic, b: Diagnostic, c: Diagnostic) returns (first: seq<Output>, second: seq<Output>)
    ensures first == [Formatted([a, b, Diagnostic(CompilationDone, "")]), SuppressedErrors(3), CompletedSuccessfully, WatchingForChanges]
    ensures second == [Formatted([c, Diagnostic(CompilationDone, "")]), SuppressedErrors(2), CompletedSuccessfully, WatchingForChanges]
  {
    var done := Diagnostic(CompilationDone, "");
    var session := new WatchSession();
    first := RunCycle(session, Diagnostic(StartingCompilation, ""), [a, b], done);
    assert [a, b] + [done] == [a, b, done];
    second := RunCycle(session, Diagnostic(FileChangeDetected, ""), [c], done);
    assert [c] + [done] == [c, done];
  }

  /**
   * What a done status reports: the diagnostics kept since the last start
   * plus the done status itself, so the count is never 0 and watch mode
   * never prints "No Typescript errors found".
   */
  lemma DoneCountsCycle(signals: seq<Signal>, done: Diagnostic)
    requires done.code == CompilationDone
    ensures Buffered(signals + [Status(done)]) == Buffered(signals) + [done]
    ensures PrintSuppression(|Buffered(signals + [Status(done)])|)[0] == SuppressedErrors(|Buffered(signals)| + 1)
  {
    BufferedStep(signals, Status(done));
  }

  /**
   * A second done status with no start in between does not begin afresh:
   * it reports the earlier cycle's diagnostics and done status again,
   * followed by what arrived since.
   */
  lemma {:induction false} SecondDoneRecounts(start: Diagnostic, a: Diagnostic, b: Diagnostic, done: Diagnostic)
    requires IsStart(Status(start)) && done.code == CompilationDone
    ensures Buffered([Status(start), Reported(a), Status(done), Reported(b), Status(done)]) == [a, done, b, done]
  {
    var s1 := [Status(start)];
    BufferedStep([], Status(start));
    assert [] + [Status(start)] == s1;
    BufferedStep(s1, Reported(a));
    BufferedStep(s1 + [Reported(a)], Status(done));
    BufferedStep(s1 + [Reported(a)] + [Status(done)], Reported(b));
    BufferedStep(s1 + [Reported(a)] + [Status(done)] + [Reported(b)], Status(done));
    assert s1 + [Reported(a)] + [Status(done)] + [Reported(b)] + [Status(done)] ==
           [Status(start), Reported(a), Status(done), Reported(b), Status(done)];
  }
}

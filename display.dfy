/**
 * The display task: decimal formatting of the readings and the redraw
 * protocol of one display session and of the supervisory retry loop.
 */
module Display {
  import opened Units
  import opened Heapless

  // ---------------------------------------------------------------------
  // Decimal formatting
  // ---------------------------------------------------------------------

  /** Capacity of the string a formatted reading is stored in. */
  const DIGITS_CAPACITY: nat := 5

  /** The ASCII digit for `d`: code 48 ('0') plus `d`. */
  function DigitChar(d: nat): (c: char)
    requires d < 10
    ensures '0' <= c <= '9'
  {
    (48 + d) as char
  }

  predicate IsDigit(c: char)
  {
    '0' <= c <= '9'
  }

  predicate AllDigits(s: seq<char>)
  {
    forall i :: 0 <= i < |s| ==> IsDigit(s[i])
  }

  /** A digit string with no leading zero (the empty string included). */
  predicate Canonical(s: seq<char>)
  {
    AllDigits(s) && (s != [] ==> s[0] != '0')
  }

  /**
   * The decimal digits of `n`, most significant first; zero has no digits,
   * because the formatting loop stops as soon as the remaining value is zero.
   */
  function Decimal(n: nat): (s: seq<char>)
    ensures Canonical(s)
    ensures n == 0 <==> s == []
    decreases n
  {
    if n == 0 then [] else Decimal(n / 10) + [DigitChar(n % 10)]
  }

  /** The value of a digit string read in base 10 (the empty string reads as zero). */
  function ParseDecimal(s: seq<char>): nat
    requires AllDigits(s)
  {
    if s == [] then 0
    else ParseDecimal(s[..|s| - 1]) * 10 + (s[|s| - 1] as int - 48)
  }

  function Pow10(k: nat): (p: nat)
    ensures p >= 1
  {
    if k == 0 then 1 else 10 * Pow10(k - 1)
  }

  /** Reading the formatted digits back gives the number that was formatted. */
  lemma {:induction false} ParseDecimalOfDecimal(n: nat)
    ensures ParseDecimal(Decimal(n)) == n
    decreases n
  {
    if n != 0 {
      var s := Decimal(n);
      assert s[..|s| - 1] == Decimal(n / 10);
      ParseDecimalOfDecimal(n / 10);
    }
  }

  /** A non-empty canonical digit string reads as a positive number. */
  lemma {:induction false} CanonicalIsPositive(s: seq<char>)
    requires Canonical(s) && s != []
    ensures ParseDecimal(s) > 0
    decreases |s|
  {
    if |s| > 1 {
      CanonicalIsPositive(s[..|s| - 1]);
    }
  }

  /**
   * Every canonical digit string is the formatting of the number it reads as:
   * together with ParseDecimalOfDecimal, formatting is a bijection between
   * the naturals and the canonical digit strings.
   */
  lemma {:induction false} DecimalOfParseDecimal(s: seq<char>)
    requires Canonical(s)
    ensures Decimal(ParseDecimal(s)) == s
    decreases |s|
  {
    if s != [] {
      var t := s[..|s| - 1];
      var n := ParseDecimal(s);
      CanonicalIsPositive(s);
      assert n / 10 == ParseDecimal(t) && n % 10 == s[|s| - 1] as int - 48;
      DecimalOfParseDecimal(t);
      assert s == t + [s[|s| - 1]];
    }
  }

  /** A number below 10^k has at most k decimal digits. */
  lemma {:induction false} DecimalLength(n: nat, k: nat)
    requires n < Pow10(k)
    ensures |Decimal(n)| <= k
    decreases k
  {
    if n != 0 {
      DecimalLength(n / 10, k - 1);
    }
  }

  /** Every `u16` formats into at most five digits, so it fits the string it is pushed into. */
  lemma U16DecimalFits(n: u16)
    ensures |Decimal(n)| <= DIGITS_CAPACITY
  {
    assert Pow10(5) == 100000;
    DecimalLength(n, 5);
  }

  /** `s` backwards. */
  function Reversed(s: seq<char>): (r: seq<char>)
    ensures |r| == |s|
  {
    if s == [] then [] else Reversed(s[1..]) + [s[0]]
  }

  lemma {:induction false} ReversedSnoc(s: seq<char>, c: char)
    ensures Reversed(s + [c]) == [c] + Reversed(s)
    decreases |s|
  {
    if s != [] {
      assert (s + [c])[1..] == s[1..] + [c];
      ReversedSnoc(s[1..], c);
    }
  }

  /**
   * Formats `n`: pushes its digits, least significant first, into a
   * five-character string, then collects them again in reverse order.
   * No push is ever refused, and the result is exactly Decimal(n).
   */
  method U16ToString(n: u16) returns (s: seq<char>)
    ensures s == Decimal(n)
    ensures |s| <= DIGITS_CAPACITY
  {
    U16DecimalFits(n);
    var m: u16 := n;
    var digits := new BoundedString(DIGITS_CAPACITY);
    while m != 0
      invariant fresh(digits) && fresh(digits.buf)
      invariant digits.Valid() && digits.capacity == DIGITS_CAPACITY
      invariant Decimal(n) == Decimal(m) + Reversed(digits.Chars())
      decreases m
    {
      var d := DigitChar(m % 10);
      ghost var before := digits.Chars();
      var ok := digits.Push(d);
      assert ok;
      ReversedSnoc(before, d);
      assert Decimal(m) == Decimal(m / 10) + [d];
      m := m / 10;
    }
    assert Reversed(digits.Chars()) == Decimal(n);
    s := CollectReversed(digits);
  }

  /** The characters of `src` in reverse order, collected into a new string of the same capacity. */
  method CollectReversed(src: BoundedString) returns (s: seq<char>)
    requires src.Valid()
    ensures s == Reversed(src.Chars())
  {
    var out := new BoundedString(src.capacity);
    var i := src.len;
    while i > 0
      invariant fresh(out) && fresh(out.buf)
      invariant out.Valid() && out.capacity == src.capacity
      invariant 0 <= i <= src.len
      invariant out.Chars() == Reversed(src.Chars()[i..])
    {
      i := i - 1;
      var c := src.buf[i];
      assert src.Chars()[i..] == [c] + src.Chars()[i + 1..];
      var ok := out.Push(c);
      assert ok;
    }
    assert src.Chars()[0..] == src.Chars();
    s := out.Chars();
  }

  // ---------------------------------------------------------------------
  // Redraw protocol
  // ---------------------------------------------------------------------

  /** Pause between two redraws: one second. */
  const UPDATE_DELAY: Millis := 1000
  /** Pause before a failed session is started again: one second. */
  const DISPLAY_RETRY_DELAY: Millis := 1000

  /**
   * A rectangle on the panel. The layout library computes the bounds of each
   * rendered table; the model takes them as given.
   */
  datatype Rect = Rect(left: int, top: int, width: nat, height: nat)

  /** The zero rectangle: what the first frame of a session erases. */
  const ZERO_RECT := Rect(0, 0, 0, 0)

  /** The colour the task clears the panel to and erases old tables with. */
  datatype Color = Black

  /**
   * What one joint wait on the two reading signals delivers: the light reading
   * (already narrowed to a `u16`), the moisture reading, and the bounds the
   * layout gives the table rendered from them.
   */
  datatype Frame = Frame(light: u16, moisture: u16, table: Rect)

  /** One entry of the display task's trace: a call on the panel, or a timer wait. */
  datatype Op =
    | Wake
    | Clear(color: Color)
    | Fill(area: Rect, color: Color)
    | Draw(table: Rect, lightText: seq<char>, moistureText: seq<char>)
    | UpdateDelay(ms: Millis)
    | RetryDelay(ms: Millis)

  /** Calls on the panel may fail; timer waits never do. */
  predicate IsBusOp(op: Op)
  {
    !op.UpdateDelay? && !op.RetryDelay?
  }

  /** Whether `op`, issued as entry `at` of the trace, fails on a panel whose failing entries are `faults`. */
  predicate Faults(op: Op, at: nat, faults: set<nat>)
  {
    IsBusOp(op) && at in faults
  }

  /** None of the entries of `ops`, issued from position `at` on, fails. */
  predicate Completes(ops: seq<Op>, at: nat, faults: set<nat>)
  {
    forall k :: 0 <= k < |ops| ==> !Faults(ops[k], at + k, faults)
  }

  /**
   * How a session stops being observed: it is still waiting for readings
   * (the input ended), or a panel call failed. There is no successful return.
   */
  datatype SessionEnd = Waiting | Failed(op: Op)

  datatype Run = Run(ops: seq<Op>, end: SessionEnd)

  /** The three entries of one frame: erase the previous table, draw the new one, pause. */
  function FrameOps(f: Frame, last: Rect): seq<Op>
  {
    [Fill(last, Black), Draw(f.table, Decimal(f.light), Decimal(f.moisture)), UpdateDelay(UPDATE_DELAY)]
  }

  /** The entries of the frames `fs` when the table drawn before them had bounds `last`. */
  function Frames(fs: seq<Frame>, last: Rect): (ops: seq<Op>)
    decreases |fs|
  {
    if fs == [] then [] else FrameOps(fs[0], last) + Frames(fs[1..], fs[0].table)
  }

  /** What a session does when no panel call fails: wake, clear to black, then the frames. */
  function SessionScript(fs: seq<Frame>): seq<Op>
  {
    [Wake, Clear(Black)] + Frames(fs, ZERO_RECT)
  }

  /**
   * What a session performs of `script`, its first entry issued at trace
   * position `at`: the entries up to and including the first panel call
   * that fails, which ends the session.
   */
  function Execute(script: seq<Op>, at: nat, faults: set<nat>): (r: Run)
    decreases |script|
  {
    if script == [] then Run([], Waiting)
    else if Faults(script[0], at, faults) then Run([script[0]], Failed(script[0]))
    else
      var rest := Execute(script[1..], at + 1, faults);
      Run([script[0]] + rest.ops, rest.end)
  }

  /**
   * What a session performs is a prefix of its script. Either it performed
   * the whole script without a failing call and is left waiting, or the last
   * call it performed is the first failing one and is the one it reports.
   */
  lemma ExecuteShape(script: seq<Op>, at: nat, faults: set<nat>)
    ensures var r := Execute(script, at, faults);
      && r.ops <= script
      && (r.end.Waiting? <==> Completes(script, at, faults))
      && (r.end.Waiting? ==> r.ops == script)
      && (r.end.Failed? ==>
            && r.ops != [] && r.end.op == r.ops[|r.ops| - 1]
            && Faults(r.end.op, at + |r.ops| - 1, faults)
            && Completes(r.ops[..|r.ops| - 1], at, faults))
  {
    ExecutePrefix(script, at, faults);
    ExecuteFailure(script, at, faults);
  }

  /** A session left waiting performed its whole script. */
  lemma WaitingRunIsScript(script: seq<Op>, at: nat, faults: set<nat>)
    requires Execute(script, at, faults).end.Waiting?
    ensures Execute(script, at, faults).ops == script
  {
    ExecuteShape(script, at, faults);
  }

  lemma {:induction false} ExecutePrefix(script: seq<Op>, at: nat, faults: set<nat>)
    ensures var r := Execute(script, at, faults);
      && r.ops <= script
      && (r.end.Waiting? <==> Completes(script, at, faults))
      && (r.end.Waiting? ==> r.ops == script)
    decreases |script|
  {
    if script != [] {
      CompletesCons(script, at, faults);
      if !Faults(script[0], at, faults) {
        ExecutePrefix(script[1..], at + 1, faults);
        var tail := Execute(script[1..], at + 1, faults);
        assert Execute(script, at, faults).ops == [script[0]] + tail.ops;
        assert script == [script[0]] + script[1..];
      }
    }
  }

  lemma {:induction false} ExecuteFailure(script: seq<Op>, at: nat, faults: set<nat>)
    ensures var r := Execute(script, at, faults);
      r.end.Failed? ==>
        && r.ops != [] && r.end.op == r.ops[|r.ops| - 1]
        && Faults(r.end.op, at + |r.ops| - 1, faults)
        && Completes(r.ops[..|r.ops| - 1], at, faults)
    decreases |script|
  {
    if script != [] && !Faults(script[0], at, faults) {
      ExecuteFailure(script[1..], at + 1, faults);
      var tail := Execute(script[1..], at + 1, faults);
      var r := Execute(script, at, faults);
      if r.end.Failed? {
        assert r.ops == [script[0]] + tail.ops;
        var done := r.ops[..|r.ops| - 1];
        assert done == [script[0]] + tail.ops[..|tail.ops| - 1];
        CompletesCons(done, at, faults);
        assert done[1..] == tail.ops[..|tail.ops| - 1];
      }
    }
  }

  /** A sequence of calls completes when its first call does not fail and the rest complete. */
  lemma CompletesCons(ops: seq<Op>, at: nat, faults: set<nat>)
    requires ops != []
    ensures Completes(ops, at, faults) <==> !Faults(ops[0], at, faults) && Completes(ops[1..], at + 1, faults)
  {
    if !Faults(ops[0], at, faults) && Completes(ops[1..], at + 1, faults) {
      forall k | 0 <= k < |ops| ensures !Faults(ops[k], at + k, faults) {
        if k > 0 {
          assert ops[k] == ops[1..][k - 1];
        }
      }
    }
    if Completes(ops, at, faults) {
      forall k | 0 <= k < |ops[1..]| ensures !Faults(ops[1..][k], at + 1 + k, faults) {
        assert ops[1..][k] == ops[k + 1];
      }
    }
  }

  /** `r` with `done` performed before it. */
  function Prepend(done: seq<Op>, r: Run): Run
  {
    Run(done + r.ops, r.end)
  }

  /** Running `ops + rest`: if `ops` fails that is the whole run, otherwise `rest` runs after `ops`. */
  lemma ExecuteConcat(ops: seq<Op>, rest: seq<Op>, at: nat, faults: set<nat>)
    ensures Execute(ops + rest, at, faults)
         == if Execute(ops, at, faults).end.Failed? then Execute(ops, at, faults)
            else Prepend(ops, Execute(rest, at + |ops|, faults))
  {
    if Execute(ops, at, faults).end.Failed? {
      ExecuteStopsInPrefix(ops, rest, at, faults);
    } else {
      ExecuteShape(ops, at, faults);
      ExecuteAfterCompleted(ops, rest, at, faults);
    }
  }

  /** A redraw that fails ends the frames with it. */
  lemma FramesStop(at: nat, fs: seq<Frame>, last: Rect, faults: set<nat>)
    requires fs != [] && Execute(FrameOps(fs[0], last), at, faults).end.Failed?
    ensures Execute(Frames(fs, last), at, faults) == Execute(FrameOps(fs[0], last), at, faults)
  {
    ExecuteConcat(FrameOps(fs[0], last), Frames(fs[1..], fs[0].table), at, faults);
  }

  /** A redraw that completes is followed by the redraws of the remaining frames, erasing its table first. */
  lemma FramesContinue(before: seq<Op>, after: seq<Op>, fs: seq<Frame>, last: Rect, faults: set<nat>)
    requires fs != [] && Execute(FrameOps(fs[0], last), |before|, faults).end.Waiting?
    requires after == before + Execute(FrameOps(fs[0], last), |before|, faults).ops
    ensures before + Execute(Frames(fs, last), |before|, faults).ops
         == after + Execute(Frames(fs[1..], fs[0].table), |after|, faults).ops
    ensures Execute(Frames(fs, last), |before|, faults).end
         == Execute(Frames(fs[1..], fs[0].table), |after|, faults).end
  {
    var ops := FrameOps(fs[0], last);
    var rest := Frames(fs[1..], fs[0].table);
    assert Frames(fs, last) == ops + rest;
    WaitingRunIsScript(ops, |before|, faults);
    ContinueAt(ops, rest, |before|, |after|, faults);
    JoinRuns(before, after, ops, Execute(ops + rest, |before|, faults), Execute(rest, |after|, faults));
  }

  /** A script whose first part completes performs that part, then the rest from where the part ended. */
  lemma ContinueAt(ops: seq<Op>, rest: seq<Op>, at: nat, next: nat, faults: set<nat>)
    requires Execute(ops, at, faults).end.Waiting? && next == at + |ops|
    ensures Execute(ops + rest, at, faults) == Prepend(ops, Execute(rest, next, faults))
  {
    ExecuteConcat(ops, rest, at, faults);
  }

  /**
   * A trace that grows by `ops` and then by `tail` holds what `whole` adds after `before`.
   * Like SameErases and SameRetries below, this only restates a fact about
   * plain sequence and run values, so that the loops and inductions that use
   * it need not unfold Execute or DriverRun to see it.
   */
  lemma JoinRuns(before: seq<Op>, after: seq<Op>, ops: seq<Op>, whole: Run, tail: Run)
    requires after == before + ops && whole == Prepend(ops, tail)
    ensures before + whole.ops == after + tail.ops && whole.end == tail.end
  {
  }

  /** A fault-free prefix is performed in full, and the rest of the script runs from where it stopped. */
  lemma {:induction false} ExecuteAfterCompleted(p: seq<Op>, rest: seq<Op>, at: nat, faults: set<nat>)
    requires Completes(p, at, faults)
    ensures Execute(p + rest, at, faults)
         == Run(p + Execute(rest, at + |p|, faults).ops, Execute(rest, at + |p|, faults).end)
    decreases |p|
  {
    if p == [] {
      assert p + rest == rest;
    } else {
      assert !Faults(p[0], at, faults);
      assert (p + rest)[1..] == p[1..] + rest;
      assert Completes(p[1..], at + 1, faults) by {
        forall k | 0 <= k < |p[1..]| ensures !Faults(p[1..][k], at + 1 + k, faults) {
          assert p[1..][k] == p[k + 1];
        }
      }
      ExecuteAfterCompleted(p[1..], rest, at + 1, faults);
      var tail := Execute(rest, at + |p|, faults);
      assert [p[0]] + (p[1..] + tail.ops) == p + tail.ops;
    }
  }

  /** A session whose every call succeeds performs its whole script and is left waiting. */
  lemma CompletedRun(done: seq<Op>, at: nat, faults: set<nat>)
    requires Completes(done, at, faults)
    ensures Execute(done, at, faults) == Run(done, Waiting)
  {
    ExecuteAfterCompleted(done, [], at, faults);
    assert done + [] == done;
  }

  /** The first failing call is the last one a session performs, and it ends the session. */
  lemma FailedRun(done: seq<Op>, op: Op, rest: seq<Op>, at: nat, faults: set<nat>)
    requires Completes(done, at, faults) && Faults(op, at + |done|, faults)
    ensures Execute(done + [op] + rest, at, faults) == Run(done + [op], Failed(op))
  {
    assert done + [op] + rest == done + ([op] + rest);
    ExecuteAfterCompleted(done, [op] + rest, at, faults);
  }

  /** Once a prefix of the script fails, what follows it is never performed. */
  lemma {:induction false} ExecuteStopsInPrefix(p: seq<Op>, rest: seq<Op>, at: nat, faults: set<nat>)
    requires Execute(p, at, faults).end.Failed?
    ensures Execute(p + rest, at, faults) == Execute(p, at, faults)
    decreases |p|
  {
    assert p != [];
    assert (p + rest)[0] == p[0];
    if !Faults(p[0], at, faults) {
      assert (p + rest)[1..] == p[1..] + rest;
      ExecuteStopsInPrefix(p[1..], rest, at + 1, faults);
    }
  }

  lemma CompletedSnoc(done: seq<Op>, op: Op, at: nat, faults: set<nat>)
    requires Completes(done, at, faults) && !Faults(op, at + |done|, faults)
    ensures Completes(done + [op], at, faults)
  {
    forall k | 0 <= k < |done| + 1 ensures !Faults((done + [op])[k], at + k, faults) {
      if k < |done| {
        assert (done + [op])[k] == done[k];
      }
    }
  }

  /**
   * The display handle: the panel's calls and the task's timer waits, in the
   * order they happen. Panel calls whose trace position is in `faults` fail.
   */
  class Panel {
    var trace: seq<Op>
    const faults: set<nat>

    constructor (faults: set<nat>)
      ensures trace == [] && this.faults == faults
    {
      trace := [];
      this.faults := faults;
    }

    /** Issues `op`, recording it; `ok` is false when it is a failing panel call. */
    method Issue(op: Op) returns (ok: bool)
      modifies this`trace
      ensures trace == old(trace) + [op]
      ensures ok == !Faults(op, |old(trace)|, faults)
    {
      ok := !Faults(op, |trace|, faults);
      trace := trace + [op];
    }
  }

  /**
   * The body of the redraw loop for one pair of readings: format both
   * readings, erase `lastBounds`, draw the new table, pause. It stops at the
   * first panel call that fails.
   */
  method RedrawFrame(panel: Panel, f: Frame, lastBounds: Rect) returns (end: SessionEnd)
    modifies panel
    ensures panel.trace
         == old(panel.trace) + Execute(FrameOps(f, lastBounds), |old(panel.trace)|, panel.faults).ops
    ensures end == Execute(FrameOps(f, lastBounds), |old(panel.trace)|, panel.faults).end
  {
    ghost var at := |panel.trace|;
    var lightText := U16ToString(f.light);
    var moistureText := U16ToString(f.moisture);
    var erase, draw, pause := Fill(lastBounds, Black), Draw(f.table, lightText, moistureText), UpdateDelay(UPDATE_DELAY);
    assert FrameOps(f, lastBounds) == [] + [erase] + [draw, pause];
    var ok := panel.Issue(erase);
    if !ok {
      FailedRun([], erase, [draw, pause], at, panel.faults);
      return Failed(erase);
    }
    CompletedSnoc([], erase, at, panel.faults);
    assert FrameOps(f, lastBounds) == [erase] + [draw] + [pause];
    ok := panel.Issue(draw);
    if !ok {
      FailedRun([erase], draw, [pause], at, panel.faults);
      return Failed(draw);
    }
    CompletedSnoc([erase], draw, at, panel.faults);
    ok := panel.Issue(pause);
    CompletedSnoc([erase, draw], pause, at, panel.faults);
    CompletedRun([erase, draw, pause], at, panel.faults);
    end := Waiting;
  }

  /** The opening of a session: wake the panel, then clear it to black. */
  method WakeAndClear(panel: Panel) returns (end: SessionEnd)
    modifies panel
    ensures panel.trace
         == old(panel.trace) + Execute([Wake, Clear(Black)], |old(panel.trace)|, panel.faults).ops
    ensures end == Execute([Wake, Clear(Black)], |old(panel.trace)|, panel.faults).end
  {
    ghost var at := |panel.trace|;
    var ok := panel.Issue(Wake);
    if !ok {
      FailedRun([], Wake, [Clear(Black)], at, panel.faults);
      assert [] + [Wake] + [Clear(Black)] == [Wake, Clear(Black)] && [] + [Wake] == [Wake];
      return Failed(Wake);
    }
    CompletedSnoc([], Wake, at, panel.faults);
    ok := panel.Issue(Clear(Black));
    if !ok {
      FailedRun([Wake], Clear(Black), [], at, panel.faults);
      assert [Wake] + [Clear(Black)] + [] == [Wake, Clear(Black)];
      return Failed(Clear(Black));
    }
    CompletedSnoc([Wake], Clear(Black), at, panel.faults);
    CompletedRun([Wake, Clear(Black)], at, panel.faults);
    end := Waiting;
  }

  /**
   * One display session: wake the panel and clear it to black, then run the
   * redraw loop. The first panel call that fails ends the session with that
   * failure; there is no other way out.
   */
  method TryDrive(panel: Panel, frames: seq<Frame>) returns (end: SessionEnd)
    modifies panel
    ensures panel.trace
         == old(panel.trace) + Execute(SessionScript(frames), |old(panel.trace)|, panel.faults).ops
    ensures end == Execute(SessionScript(frames), |old(panel.trace)|, panel.faults).end
  {
    ghost var t0 := panel.trace;
    ghost var whole := Execute(SessionScript(frames), |t0|, panel.faults);
    ExecuteConcat([Wake, Clear(Black)], Frames(frames, ZERO_RECT), |t0|, panel.faults);
    end := WakeAndClear(panel);
    if end.Failed? {
      return;
    }
    ExecuteShape([Wake, Clear(Black)], |t0|, panel.faults);
    var lastBounds := ZERO_RECT;
    var rest := frames;
    assert t0 + whole.ops == panel.trace + Execute(Frames(rest, lastBounds), |panel.trace|, panel.faults).ops;
    while rest != []
      invariant end == Waiting
      invariant panel.trace + Execute(Frames(rest, lastBounds), |panel.trace|, panel.faults).ops == t0 + whole.ops
      invariant Execute(Frames(rest, lastBounds), |panel.trace|, panel.faults).end == whole.end
      decreases |rest|
    {
      ghost var before := panel.trace;
      end := RedrawFrame(panel, rest[0], lastBounds);
      if end.Failed? {
        FramesStop(|before|, rest, lastBounds, panel.faults);
        return;
      }
      FramesContinue(before, panel.trace, rest, lastBounds, panel.faults);
      lastBounds := rest[0].table;
      rest := rest[1..];
    }
    assert panel.trace + [] == panel.trace;
  }

  /**
   * The display task's supervisory loop over successive sessions, each given
   * the readings it receives: a session that fails is followed by the retry
   * pause and a fresh session; a session still waiting for readings when its
   * input ends is where the observation stops.
   */
  function DriverRun(sessions: seq<seq<Frame>>, at: nat, faults: set<nat>): seq<Op>
    decreases |sessions|
  {
    if sessions == [] then []
    else
      var r := Execute(SessionScript(sessions[0]), at, faults);
      if r.end.Waiting? then r.ops
      else r.ops + [RetryDelay(DISPLAY_RETRY_DELAY)] + DriverRun(sessions[1..], at + |r.ops| + 1, faults)
  }

  /** Where the driver loop stands before session `i`: that session's run, then, if it failed, the pause and the rest. */
  lemma DriverStep(before: seq<Op>, sessions: seq<seq<Frame>>, i: nat, faults: set<nat>)
    requires i < |sessions|
    ensures var r := Execute(SessionScript(sessions[i]), |before|, faults);
      var run := DriverRun(sessions[i..], |before|, faults);
      && (r.end.Waiting? ==> run == r.ops)
      && (r.end.Failed? ==>
            var after := before + r.ops + [RetryDelay(DISPLAY_RETRY_DELAY)];
            before + run == after + DriverRun(sessions[i + 1..], |after|, faults))
  {
    assert sessions[i..][1..] == sessions[i + 1..];
    var r := Execute(SessionScript(sessions[i]), |before|, faults);
    if r.end.Failed? {
      var rest := DriverRun(sessions[i + 1..], |before| + |r.ops| + 1, faults);
      assert before + (r.ops + [RetryDelay(DISPLAY_RETRY_DELAY)] + rest)
          == before + r.ops + [RetryDelay(DISPLAY_RETRY_DELAY)] + rest;
    }
  }

  /**
   * The display task: run a session; when it fails, pause for the retry
   * delay and start a fresh one (wake, clear, and the zero rectangle as the
   * previous table). The task never ends on its own: it stops being
   * observed only while a session waits for readings that do not come.
   */
  method Driver(panel: Panel, sessions: seq<seq<Frame>>)
    modifies panel
    ensures panel.trace == old(panel.trace) + DriverRun(sessions, |old(panel.trace)|, panel.faults)
  {
    ghost var t0 := panel.trace;
    var i := 0;
    assert sessions[0..] == sessions;
    while i < |sessions|
      invariant 0 <= i <= |sessions|
      invariant panel.trace + DriverRun(sessions[i..], |panel.trace|, panel.faults)
             == t0 + DriverRun(sessions, |t0|, panel.faults)
    {
      DriverStep(panel.trace, sessions, i, panel.faults);
      var end := TryDrive(panel, sessions[i]);
      if end.Waiting? {
        return;
      }
      var _ := panel.Issue(RetryDelay(DISPLAY_RETRY_DELAY));
      i := i + 1;
    }
    assert panel.trace + [] == panel.trace;
  }

  // ---------------------------------------------------------------------
  // Properties of the redraw protocol
  // ---------------------------------------------------------------------

  /** The operations of `n` frames are `3 * n` fills, draws and pauses. */
  lemma {:induction false} FramesKinds(fs: seq<Frame>, last: Rect)
    ensures |Frames(fs, last)| == 3 * |fs|
    ensures forall k :: 0 <= k < |Frames(fs, last)| ==>
              Frames(fs, last)[k].Fill? || Frames(fs, last)[k].Draw? || Frames(fs, last)[k].UpdateDelay?
    decreases |fs|
  {
    if fs != [] {
      FramesKinds(fs[1..], fs[0].table);
    }
  }

  /**
   * Frame `i` erases the table of frame `i - 1` (for the first frame, the
   * rectangle the session started from), then draws its own table with the
   * decimal text of both readings, then pauses.
   */
  lemma {:induction false} FrameSlots(fs: seq<Frame>, last: Rect, i: nat)
    requires i < |fs|
    ensures |Frames(fs, last)| == 3 * |fs|
    ensures Frames(fs, last)[3 * i .. 3 * i + 3]
         == [Fill(if i == 0 then last else fs[i - 1].table, Black),
             Draw(fs[i].table, Decimal(fs[i].light), Decimal(fs[i].moisture)),
             UpdateDelay(UPDATE_DELAY)]
    decreases i
  {
    FramesKinds(fs, last);
    if i > 0 {
      FrameSlots(fs[1..], fs[0].table, i - 1);
      var ops := Frames(fs, last);
      var tail := Frames(fs[1..], fs[0].table);
      assert ops == FrameOps(fs[0], last) + tail;
      SliceOfSuffix(FrameOps(fs[0], last), tail, 3 * (i - 1), 3 * (i - 1) + 3);
    }
  }

  lemma SliceOfSuffix(a: seq<Op>, b: seq<Op>, x: nat, y: nat)
    requires x <= y <= |b|
    ensures (a + b)[|a| + x .. |a| + y] == b[x..y]
  {
    assert forall j :: 0 <= j < y - x ==> (a + b)[|a| + x .. |a| + y][j] == b[x..y][j];
  }

  /**
   * Every session performs wake first and clear to black second; no fill,
   * draw or pause comes before them, and neither is performed again later
   * in the session.
   */
  lemma SessionOpening(fs: seq<Frame>, at: nat, faults: set<nat>)
    ensures var ops := Execute(SessionScript(fs), at, faults).ops;
      && ops != [] && ops[0] == Wake
      && (|ops| > 1 ==> ops[1] == Clear(Black))
      && forall k :: 2 <= k < |ops| ==> ops[k].Fill? || ops[k].Draw? || ops[k].UpdateDelay?
  {
    var script := SessionScript(fs);
    ExecuteShape(script, at, faults);
    FramesKinds(fs, ZERO_RECT);
    var ops := Execute(script, at, faults).ops;
    assert ops != [] by {
      if !Faults(Wake, at, faults) {
        assert script[1..] == [Clear(Black)] + Frames(fs, ZERO_RECT);
      }
    }
    forall k | 2 <= k < |ops| ensures ops[k].Fill? || ops[k].Draw? || ops[k].UpdateDelay? {
      assert ops[k] == script[k] == Frames(fs, ZERO_RECT)[k - 2];
    }
  }

  /**
   * The rectangle a redraw must erase after the trace `ops`: the bounds of
   * the last table drawn since the last wake, or the zero rectangle when the
   * current session has drawn nothing yet.
   */
  function ExpectedErase(ops: seq<Op>): Rect
    decreases |ops|
  {
    if ops == [] then ZERO_RECT
    else match ops[|ops| - 1]
      case Draw(table, _, _) => table
      case Wake => ZERO_RECT
      case _ => ExpectedErase(ops[..|ops| - 1])
  }

  /** Every draw in `ops` comes right after a fill to black of the rectangle it must erase. */
  predicate ErasesPrevious(ops: seq<Op>)
  {
    forall k :: 0 <= k < |ops| && ops[k].Draw? ==>
      1 <= k && ops[k - 1] == Fill(ExpectedErase(ops[..k - 1]), Black)
  }

  lemma AppendKeepsErases(ops: seq<Op>, op: Op)
    requires ErasesPrevious(ops)
    requires op.Draw? ==> ops != [] && ops[|ops| - 1] == Fill(ExpectedErase(ops[..|ops| - 1]), Black)
    ensures ErasesPrevious(ops + [op])
  {
    var ext := ops + [op];
    forall k | 0 <= k < |ext| && ext[k].Draw?
      ensures 1 <= k && ext[k - 1] == Fill(ExpectedErase(ext[..k - 1]), Black)
    {
      if k < |ops| {
        assert ext[k] == ops[k] && ext[..k - 1] == ops[..k - 1];
      } else {
        assert ext[..k - 1] == ops[..|ops| - 1];
      }
    }
  }

  /** Appending frames to a trace that already erases correctly keeps it so. */
  lemma {:induction false} FramesErase(pre: seq<Op>, fs: seq<Frame>, last: Rect)
    requires ErasesPrevious(pre) && ExpectedErase(pre) == last
    ensures ErasesPrevious(pre + Frames(fs, last))
    decreases |fs|
  {
    if fs == [] {
      assert pre + Frames(fs, last) == pre;
    } else {
      var f := fs[0];
      var erase := Fill(last, Black);
      var draw := Draw(f.table, Decimal(f.light), Decimal(f.moisture));
      var pause := UpdateDelay(UPDATE_DELAY);
      AppendKeepsErases(pre, erase);
      assert (pre + [erase])[..|pre + [erase]| - 1] == pre;
      AppendKeepsErases(pre + [erase], draw);
      AppendKeepsErases(pre + [erase] + [draw], pause);
      var next := pre + [erase] + [draw] + [pause];
      assert next[..|next| - 1] == pre + [erase] + [draw];
      assert ExpectedErase(next) == f.table;
      FramesErase(next, fs[1..], f.table);
      assert pre + Frames(fs, last) == next + Frames(fs[1..], f.table);
    }
  }

  lemma ErasesPrefix(ops: seq<Op>, p: seq<Op>)
    requires ErasesPrevious(ops) && p <= ops
    ensures ErasesPrevious(p)
  {
    forall k | 0 <= k < |p| && p[k].Draw? ensures 1 <= k && p[k - 1] == Fill(ExpectedErase(p[..k - 1]), Black) {
      assert ops[k] == p[k];
      assert ops[..k - 1] == p[..k - 1];
    }
  }

  /** Whatever precedes a wake, what a redraw must erase after it depends only on what follows it. */
  lemma {:induction false} EraseAfterWake(a: seq<Op>, c: seq<Op>)
    requires c != [] && c[0] == Wake
    ensures ExpectedErase(a + c) == ExpectedErase(c)
    decreases |c|
  {
    var ac := a + c;
    assert ac[|ac| - 1] == c[|c| - 1];
    if |c| > 1 {
      assert ac[..|ac| - 1] == a + c[..|c| - 1];
      EraseAfterWake(a, c[..|c| - 1]);
    }
  }

  lemma ErasesConcatAtWake(a: seq<Op>, b: seq<Op>)
    requires ErasesPrevious(a) && ErasesPrevious(b)
    requires b != [] ==> b[0] == Wake
    ensures ErasesPrevious(a + b)
  {
    var ab := a + b;
    forall k | 0 <= k < |ab| && ab[k].Draw? ensures 1 <= k && ab[k - 1] == Fill(ExpectedErase(ab[..k - 1]), Black) {
      if k < |a| {
        assert ab[k] == a[k] && ab[..k - 1] == a[..k - 1];
      } else {
        var j := k - |a|;
        assert ab[k] == b[j];
        assert ab[k - 1] == b[j - 1];
        if j > 1 {
          assert ab[..k - 1] == a + b[..j - 1];
          EraseAfterWake(a, b[..j - 1]);
        }
      }
    }
  }

  /** Every performed session erases, before each draw, the rectangle it must erase. */
  lemma SessionErases(fs: seq<Frame>, at: nat, faults: set<nat>)
    ensures ErasesPrevious(Execute(SessionScript(fs), at, faults).ops)
  {
    var opening := [Wake, Clear(Black)];
    assert opening[..1] == [Wake];
    assert ExpectedErase(opening) == ZERO_RECT;
    FramesErase(opening, fs, ZERO_RECT);
    ExecuteShape(SessionScript(fs), at, faults);
    ErasesPrefix(SessionScript(fs), Execute(SessionScript(fs), at, faults).ops);
  }

  /** When the first session is left waiting, the task performs that session and nothing more. */
  lemma DriverRunWaiting(sessions: seq<seq<Frame>>, at: nat, faults: set<nat>)
    requires sessions != [] && Execute(SessionScript(sessions[0]), at, faults).end.Waiting?
    ensures DriverRun(sessions, at, faults) == Execute(SessionScript(sessions[0]), at, faults).ops
  {
  }

  /** When the first session fails, the task pauses and then runs the sessions after it. */
  lemma DriverRunFailed(sessions: seq<seq<Frame>>, at: nat, faults: set<nat>)
    requires sessions != [] && Execute(SessionScript(sessions[0]), at, faults).end.Failed?
    ensures var r := Execute(SessionScript(sessions[0]), at, faults);
      DriverRun(sessions, at, faults)
        == r.ops + [RetryDelay(DISPLAY_RETRY_DELAY)] + DriverRun(sessions[1..], at + |r.ops| + 1, faults)
  {
  }

  /** Whatever the display task does starts with a wake. */
  lemma DriverRunStartsWithWake(sessions: seq<seq<Frame>>, at: nat, faults: set<nat>)
    ensures var ops := DriverRun(sessions, at, faults);
      ops != [] ==> ops[0] == Wake
  {
    if sessions != [] {
      var r := Execute(SessionScript(sessions[0]), at, faults);
      SessionOpening(sessions[0], at, faults);
      assert DriverRun(sessions, at, faults)[0] == r.ops[0];
    }
  }

  /**
   * Across the whole life of the display task, every draw comes right after
   * a fill to black of the previous table of the same session, and the first
   * draw of every session, the first one included, comes after a fill of the
   * zero rectangle: a restart forgets the old table's bounds.
   */
  lemma {:induction false} DriverErasesPrevious(sessions: seq<seq<Frame>>, at: nat, faults: set<nat>)
    ensures ErasesPrevious(DriverRun(sessions, at, faults))
    decreases |sessions|
  {
    if sessions != [] {
      var r := Execute(SessionScript(sessions[0]), at, faults);
      SessionErases(sessions[0], at, faults);
      if r.end.Failed? {
        var rest := DriverRun(sessions[1..], at + |r.ops| + 1, faults);
        DriverRunFailed(sessions, at, faults);
        DriverErasesPrevious(sessions[1..], at + |r.ops| + 1, faults);
        DriverRunStartsWithWake(sessions[1..], at + |r.ops| + 1, faults);
        RestartErases(r.ops, rest, DriverRun(sessions, at, faults));
      } else {
        DriverRunWaiting(sessions, at, faults);
        SameErases(r.ops, DriverRun(sessions, at, faults));
      }
    }
  }

  /**
   * A session left waiting is all the task performs, so its erasing discipline
   * is the task's. The `whole` parameter names the task's trace as a plain
   * value: stated about it, the fact is cheaper to use than one about DriverRun.
   */
  lemma SameErases(ops: seq<Op>, whole: seq<Op>)
    requires ErasesPrevious(ops) && whole == ops
    ensures ErasesPrevious(whole)
  {
  }

  /** A failed session, the retry pause, then a restart that begins with a wake, erase as each part does. */
  lemma RestartErases(failed: seq<Op>, rest: seq<Op>, whole: seq<Op>)
    requires ErasesPrevious(failed) && ErasesPrevious(rest)
    requires rest != [] ==> rest[0] == Wake
    requires whole == failed + [RetryDelay(DISPLAY_RETRY_DELAY)] + rest
    ensures ErasesPrevious(whole)
  {
    AppendKeepsErases(failed, RetryDelay(DISPLAY_RETRY_DELAY));
    ErasesConcatAtWake(failed + [RetryDelay(DISPLAY_RETRY_DELAY)], rest);
  }

  /**
   * Every failed call is followed at once by the retry pause, and the retry
   * pause comes only right after a failed call and is followed by a wake.
   */
  predicate RetriesAfterFailures(ops: seq<Op>, at: nat, faults: set<nat>)
  {
    && (forall k :: 0 <= k < |ops| && Faults(ops[k], at + k, faults) ==>
          k + 1 < |ops| && ops[k + 1] == RetryDelay(DISPLAY_RETRY_DELAY))
    && (forall k :: 0 <= k < |ops| && ops[k].RetryDelay? ==>
          1 <= k && Faults(ops[k - 1], at + k - 1, faults) && (k + 1 < |ops| ==> ops[k + 1] == Wake))
  }

  /** A session's script holds no retry pause. */
  lemma SessionScriptRetryFree(fs: seq<Frame>)
    ensures forall k :: 0 <= k < |SessionScript(fs)| ==> !SessionScript(fs)[k].RetryDelay?
  {
    var script := SessionScript(fs);
    FramesKinds(fs, ZERO_RECT);
    forall k | 2 <= k < |script| ensures !script[k].RetryDelay? {
      assert script[k] == Frames(fs, ZERO_RECT)[k - 2];
    }
  }

  /** What a session performs of a script is drawn from it, and only its last call can fail. */
  lemma ExecuteKeepsScript(script: seq<Op>, at: nat, faults: set<nat>)
    ensures var r := Execute(script, at, faults);
      && |r.ops| <= |script|
      && (forall k :: 0 <= k < |r.ops| ==> r.ops[k] == script[k])
      && (forall k :: 0 <= k < |r.ops| && Faults(r.ops[k], at + k, faults) ==> r.end.Failed? && k == |r.ops| - 1)
      && (r.end.Failed? ==> r.ops != [] && Faults(r.ops[|r.ops| - 1], at + |r.ops| - 1, faults))
  {
    ExecuteShape(script, at, faults);
    var r := Execute(script, at, faults);
    if r.end.Failed? {
      forall k | 0 <= k < |r.ops| - 1 ensures !Faults(r.ops[k], at + k, faults) {
        assert r.ops[k] == r.ops[..|r.ops| - 1][k];
      }
    }
  }

  /** A session never pauses for a retry, and only its last call, when it fails, faults. */
  lemma SessionRetryFree(fs: seq<Frame>, at: nat, faults: set<nat>)
    ensures var r := Execute(SessionScript(fs), at, faults);
      && (forall k :: 0 <= k < |r.ops| ==> !r.ops[k].RetryDelay?)
      && (forall k :: 0 <= k < |r.ops| && Faults(r.ops[k], at + k, faults) ==> r.end.Failed? && k == |r.ops| - 1)
      && (r.end.Failed? ==> r.ops != [] && Faults(r.ops[|r.ops| - 1], at + |r.ops| - 1, faults))
  {
    SessionScriptRetryFree(fs);
    ExecuteKeepsScript(SessionScript(fs), at, faults);
  }

  /**
   * `failed` holds no retry pause, and its last panel call, issued at
   * position `at + |failed| - 1`, is its only failing one.
   */
  predicate FailsAtLastCall(failed: seq<Op>, at: nat, faults: set<nat>)
  {
    && failed != [] && Faults(failed[|failed| - 1], at + |failed| - 1, faults)
    && (forall k :: 0 <= k < |failed| ==> !failed[k].RetryDelay?)
    && (forall k :: 0 <= k < |failed| - 1 ==> !Faults(failed[k], at + k, faults))
  }

  /** A session left waiting satisfies the retry discipline on its own; a failed one fails at its last call only. */
  lemma SessionRetries(fs: seq<Frame>, at: nat, faults: set<nat>)
    ensures var r := Execute(SessionScript(fs), at, faults);
      && (r.end.Waiting? ==> RetriesAfterFailures(r.ops, at, faults))
      && (r.end.Failed? ==> FailsAtLastCall(r.ops, at, faults))
  {
    SessionRetryFree(fs, at, faults);
  }

  /** A session left waiting is all the task performs, so its retry discipline is the task's (see SameErases). */
  lemma SameRetries(ops: seq<Op>, whole: seq<Op>, at: nat, faults: set<nat>)
    requires RetriesAfterFailures(ops, at, faults) && whole == ops
    ensures RetriesAfterFailures(whole, at, faults)
  {
  }

  /** A failed session, the retry pause, then a restart that begins with a wake, keep the retry discipline. */
  lemma RestartRetries(failed: seq<Op>, rest: seq<Op>, whole: seq<Op>, at: nat, faults: set<nat>)
    requires FailsAtLastCall(failed, at, faults)
    requires RetriesAfterFailures(rest, at + |failed| + 1, faults)
    requires rest != [] ==> rest[0] == Wake
    requires whole == failed + [RetryDelay(DISPLAY_RETRY_DELAY)] + rest
    ensures RetriesAfterFailures(whole, at, faults)
  {
    var ops := whole;
    var n := |failed| + 1;
    assert forall j :: 0 <= j < |failed| ==> ops[j] == failed[j];
    assert ops[n - 1] == RetryDelay(DISPLAY_RETRY_DELAY);
    assert forall j :: n <= j < |ops| ==> ops[j] == rest[j - n];
    forall k | 0 <= k < |ops| && Faults(ops[k], at + k, faults)
      ensures k + 1 < |ops| && ops[k + 1] == RetryDelay(DISPLAY_RETRY_DELAY)
    {
      if k >= n {
        assert Faults(rest[k - n], at + n + (k - n), faults);
      }
    }
    forall k | 0 <= k < |ops| && ops[k].RetryDelay?
      ensures 1 <= k && Faults(ops[k - 1], at + k - 1, faults) && (k + 1 < |ops| ==> ops[k + 1] == Wake)
    {
      if k > n {
        assert rest[k - n].RetryDelay? && ops[k - 1] == rest[k - n - 1];
      } else if k == n - 1 {
        assert ops[k - 1] == failed[|failed| - 1];
      }
    }
  }

  /** Across the whole life of the display task, a failed call is what brings the retry pause, and the pause is what brings a fresh wake. */
  lemma {:induction false} DriverRetriesAfterFailures(sessions: seq<seq<Frame>>, at: nat, faults: set<nat>)
    ensures RetriesAfterFailures(DriverRun(sessions, at, faults), at, faults)
    decreases |sessions|
  {
    if sessions != [] {
      var r := Execute(SessionScript(sessions[0]), at, faults);
      SessionRetries(sessions[0], at, faults);
      if r.end.Failed? {
        var rest := DriverRun(sessions[1..], at + |r.ops| + 1, faults);
        DriverRunFailed(sessions, at, faults);
        DriverRetriesAfterFailures(sessions[1..], at + |r.ops| + 1, faults);
        DriverRunStartsWithWake(sessions[1..], at + |r.ops| + 1, faults);
        RestartRetries(r.ops, rest, DriverRun(sessions, at, faults), at, faults);
      } else {
        DriverRunWaiting(sessions, at, faults);
        SameRetries(r.ops, DriverRun(sessions, at, faults), at, faults);
      }
    }
  }
}

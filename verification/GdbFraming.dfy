/**
 What the packet layer guarantees: exactly which byte streams a receiver turns into a
 packet, the framing round trip, and stop-and-wait delivery over a damaging channel.
 */
module GdbFraming {
  import opened Bytes
  import opened GdbLink

  /**
   One packet as it may appear on the line: bytes before the first '$', packets the host
   abandoned by starting again, the body, and the two checksum characters.
   */
  datatype Attempt = Attempt(noise: seq<Byte>, partials: seq<seq<Byte>>, body: seq<Byte>, high: Byte, low: Byte)

  ghost predicate PartialsOk(partials: seq<seq<Byte>>, size: nat) {
    forall i :: 0 <= i < |partials| ==> Clean(partials[i]) && |partials[i]| + 1 < size
  }

  ghost predicate AttemptOk(a: Attempt, size: nat) {
    DOLLAR !in a.noise && PartialsOk(a.partials, size) && Clean(a.body) && |a.body| + 1 <= size
  }

  predicate Passes(a: Attempt) {
    SumOk(a.body, a.high, a.low)
  }

  function Partials(partials: seq<seq<Byte>>): (s: seq<Byte>)
  {
    if partials == [] then [] else Partials(partials[..|partials| - 1]) + ([DOLLAR] + partials[|partials| - 1])
  }

  /** A body that fills the buffer is cut off without its '#'. */
  function Terminator(body: seq<Byte>, size: nat): (s: seq<Byte>)
  {
    if |body| + 1 < size then [HASH] else []
  }

  function Render(a: Attempt, size: nat): (s: seq<Byte>)
  {
    a.noise + Partials(a.partials) + ([DOLLAR] + a.body) + Terminator(a.body, size) + [a.high, a.low]
  }

  function RenderAll(attempts: seq<Attempt>, size: nat): (s: seq<Byte>)
  {
    if attempts == [] then []
    else RenderAll(attempts[..|attempts| - 1], size) + Render(attempts[|attempts| - 1], size)
  }

  // ----- What the receiver does with each piece -----

  lemma {:induction false} RunNoise(r: Rx, noise: seq<Byte>, size: nat)
    requires r.state == Hunting && DOLLAR !in noise
    ensures Run(r, noise, size) == r
  {
    if noise != [] {
      RunNoise(r, noise[..|noise| - 1], size);
    }
  }

  lemma {:induction false} RunBody(r: Rx, s: seq<Byte>, size: nat)
    requires Clean(s) && |s| + 1 <= size
    requires r.state == Collect([], size)
    ensures Run(r, s, size) == r.(state := Collect(s, size))
  {
    if s != [] {
      var t := s[..|s| - 1];
      RunBody(r, t, size);
      assert t + [s[|s| - 1]] == s;
    }
  }

  /** '$' starts a body afresh while hunting and inside a body. */
  lemma RunStarted(r: Rx, s: seq<Byte>, size: nat)
    requires r.state.Hunting? || r.state.Body?
    requires Clean(s) && |s| + 1 <= size
    ensures Run(r, [DOLLAR] + s, size) == r.(state := Collect(s, size))
  {
    RunAppend(r, [DOLLAR], s, size);
    RunSnoc(r, [], DOLLAR, size);
    assert [] + [DOLLAR] == [DOLLAR];
    RunBody(r.(state := Collect([], size)), s, size);
  }

  lemma {:induction false} RunPartials(r: Rx, partials: seq<seq<Byte>>, size: nat)
    requires r.state == Hunting && PartialsOk(partials, size)
    ensures var r' := Run(r, Partials(partials), size);
            r'.acks == r.acks && (r'.state.Hunting? || r'.state.Body?)
  {
    if partials != [] {
      var init, last := partials[..|partials| - 1], partials[|partials| - 1];
      RunPartials(r, init, size);
      RunAppend(r, Partials(init), [DOLLAR] + last, size);
      RunStarted(Run(r, Partials(init), size), last, size);
    }
  }

  lemma RunTerminator(r: Rx, body: seq<Byte>, size: nat)
    requires r.state == Collect(body, size) && |body| + 1 <= size
    ensures Run(r, Terminator(body, size), size) == r.(state := SumHigh(body))
  {
    if |body| + 1 < size {
      RunSnoc(r, [], HASH, size);
      assert [] + [HASH] == [HASH];
    }
  }

  lemma RunUpToSum(r: Rx, a: Attempt, size: nat)
    requires r.state == Hunting && AttemptOk(a, size)
    ensures Run(r, a.noise + Partials(a.partials) + ([DOLLAR] + a.body) + Terminator(a.body, size), size)
         == r.(state := SumHigh(a.body))
  {
    var p1 := a.noise;
    var p2 := p1 + Partials(a.partials);
    var p3 := p2 + ([DOLLAR] + a.body);
    RunNoise(r, p1, size);
    RunAppend(r, p1, Partials(a.partials), size);
    RunPartials(r, a.partials, size);
    RunAppend(r, p2, [DOLLAR] + a.body, size);
    RunStarted(Run(r, p2, size), a.body, size);
    RunAppend(r, p3, Terminator(a.body, size), size);
    RunTerminator(Run(r, p3, size), a.body, size);
  }

  lemma RunSum(r: Rx, high: Byte, low: Byte, size: nat)
    requires r.state.SumHigh?
    ensures Run(r, [high, low], size)
         == if SumOk(r.state.data, high, low) then Rx(Done(r.state.data), r.acks + [PLUS])
            else Rx(Hunting, r.acks + [MINUS])
  {
    RunSnoc(r, [], high, size);
    RunSnoc(r, [high], low, size);
    assert [] + [high] == [high] && [high] + [low] == [high, low];
  }

  /** A whole attempt ends in one acknowledgement. */
  lemma RunAttempt(r: Rx, a: Attempt, size: nat)
    requires r.state == Hunting && AttemptOk(a, size)
    ensures Run(r, Render(a, size), size)
         == if Passes(a) then Rx(Done(a.body), r.acks + [PLUS]) else Rx(Hunting, r.acks + [MINUS])
  {
    var s := a.noise + Partials(a.partials) + ([DOLLAR] + a.body) + Terminator(a.body, size);
    RunUpToSum(r, a, size);
    RunAppend(r, s, [a.high, a.low], size);
    RunSum(Run(r, s, size), a.high, a.low, size);
  }

  // ----- Exactly which streams are accepted -----

  /** Attempts that all fail their checksum. */
  ghost predicate Rejected(attempts: seq<Attempt>, size: nat) {
    forall i :: 0 <= i < |attempts| ==> AttemptOk(attempts[i], size) && !Passes(attempts[i])
  }

  /** A line that starts with failed attempts and then a good one. */
  ghost predicate Accepted(failed: seq<Attempt>, good: Attempt, size: nat) {
    Rejected(failed, size) && AttemptOk(good, size) && Passes(good)
  }

  lemma {:induction false} RunRejected(attempts: seq<Attempt>, size: nat)
    requires Rejected(attempts, size)
    ensures Run(IDLE, RenderAll(attempts, size), size) == Rx(Hunting, Repeat(MINUS, |attempts|))
  {
    if attempts == [] {
      assert Repeat(MINUS, 0) == [];
    } else {
      var n := |attempts| - 1;
      RunRejected(attempts[..n], size);
      RunAppend(IDLE, RenderAll(attempts[..n], size), Render(attempts[n], size), size);
      RunAttempt(Rx(Hunting, Repeat(MINUS, n)), attempts[n], size);
      assert Repeat(MINUS, n) + [MINUS] == Repeat(MINUS, n + 1);
    }
  }

  /** Every stream of that shape is accepted, with one '-' per failure and then '+'. */
  lemma AcceptedIsReceived(failed: seq<Attempt>, good: Attempt, size: nat)
    requires Accepted(failed, good, size)
    ensures Run(IDLE, RenderAll(failed, size) + Render(good, size), size)
         == Rx(Done(good.body), Repeat(MINUS, |failed|) + [PLUS])
  {
    RunRejected(failed, size);
    RunAppend(IDLE, RenderAll(failed, size), Render(good, size), size);
    RunAttempt(Rx(Hunting, Repeat(MINUS, |failed|)), good, size);
  }

  /** The bytes of the attempt the receiver is inside. */
  function Open(noise: seq<Byte>, partials: seq<seq<Byte>>, st: RxState, size: nat): (s: seq<Byte>)
  {
    noise + Partials(partials) +
    match st
    case Body(data) => [DOLLAR] + data
    case SumHigh(data) => [DOLLAR] + data + Terminator(data, size)
    case SumLow(data, high) => [DOLLAR] + data + Terminator(data, size) + [high]
    case _ => []
  }

  ghost predicate OpenOk(noise: seq<Byte>, partials: seq<seq<Byte>>, st: RxState, size: nat) {
    && DOLLAR !in noise && PartialsOk(partials, size)
    && match st {
         case Hunting => partials == []
         case Body(data) => Clean(data) && |data| + 1 < size
         case SumHigh(data) => Clean(data) && |data| + 1 <= size
         case SumLow(data, _) => Clean(data) && |data| + 1 <= size
         case Done(_) => false
       }
  }

  /** One more byte extends the open attempt, unless it closes it. */
  lemma OpenStep(noise: seq<Byte>, partials: seq<seq<Byte>>, r: Rx, c: Byte, size: nat)
    returns (noise': seq<Byte>, partials': seq<seq<Byte>>)
    requires size >= 1 && OpenOk(noise, partials, r.state, size) && !r.state.SumLow?
    ensures var r' := Step(r, c, size);
            && r'.acks == r.acks
            && OpenOk(noise', partials', r'.state, size)
            && Open(noise', partials', r'.state, size) == Open(noise, partials, r.state, size) + [c]
  {
    hide Open, OpenOk, Step;
    noise' := if r.state.Hunting? && c != DOLLAR then noise + [c] else noise;
    partials' := if r.state.Body? && c == DOLLAR then partials + [r.state.data] else partials;
    OpenStays(noise, partials, noise', partials', r, c, size);
    OpenGrows(noise, partials, noise', partials', r, c, size);
  }

  lemma OpenStays(noise: seq<Byte>, partials: seq<seq<Byte>>, noise': seq<Byte>, partials': seq<seq<Byte>>,
                  r: Rx, c: Byte, size: nat)
    requires size >= 1 && OpenOk(noise, partials, r.state, size) && !r.state.SumLow?
    requires noise' == if r.state.Hunting? && c != DOLLAR then noise + [c] else noise
    requires partials' == if r.state.Body? && c == DOLLAR then partials + [r.state.data] else partials
    ensures Step(r, c, size).acks == r.acks && OpenOk(noise', partials', Step(r, c, size).state, size)
  {
  }

  lemma OpenGrows(noise: seq<Byte>, partials: seq<seq<Byte>>, noise': seq<Byte>, partials': seq<seq<Byte>>,
                  r: Rx, c: Byte, size: nat)
    requires size >= 1 && OpenOk(noise, partials, r.state, size) && !r.state.SumLow?
    requires noise' == if r.state.Hunting? && c != DOLLAR then noise + [c] else noise
    requires partials' == if r.state.Body? && c == DOLLAR then partials + [r.state.data] else partials
    ensures Open(noise', partials', Step(r, c, size).state, size) == Open(noise, partials, r.state, size) + [c]
  {
    if r.state.Body? && c == DOLLAR {
      assert partials'[..|partials|] == partials;
      assert Partials(partials') == Partials(partials) + ([DOLLAR] + r.state.data);
    }
  }

  lemma CloseAttempt(attempts: seq<Attempt>, a: Attempt, size: nat)
    ensures RenderAll(attempts + [a], size) == RenderAll(attempts, size) + Render(a, size)
    ensures Render(a, size) == Open(a.noise, a.partials, SumLow(a.body, a.high), size) + [a.low]
  {
    assert (attempts + [a])[..|attempts|] == attempts;
  }

  /** `taken` is some failed attempts followed by the one the receiver `r` is inside. */
  ghost predicate Explained(taken: seq<Byte>, r: Rx, attempts: seq<Attempt>, noise: seq<Byte>,
                            partials: seq<seq<Byte>>, size: nat) {
    && Rejected(attempts, size)
    && OpenOk(noise, partials, r.state, size)
    && r.acks == Repeat(MINUS, |attempts|)
    && taken == RenderAll(attempts, size) + Open(noise, partials, r.state, size)
  }

  lemma ExplainClosed(taken: seq<Byte>, r: Rx, attempts: seq<Attempt>, noise: seq<Byte>,
                      partials: seq<seq<Byte>>, c: Byte, size: nat) returns (a: Attempt)
    requires Explained(taken, r, attempts, noise, partials, size) && r.state.SumLow?
    ensures a == Attempt(noise, partials, r.state.data, r.state.high, c) && AttemptOk(a, size)
    ensures taken + [c] == RenderAll(attempts, size) + Render(a, size)
    ensures Step(r, c, size) == if Passes(a) then Rx(Done(a.body), Repeat(MINUS, |attempts|) + [PLUS])
                                else Rx(Hunting, Repeat(MINUS, |attempts| + 1))
  {
    a := Attempt(noise, partials, r.state.data, r.state.high, c);
    CloseAttempt(attempts, a, size);
    var open := Open(noise, partials, r.state, size);
    assert taken + [c] == RenderAll(attempts, size) + (open + [c]);
    assert Repeat(MINUS, |attempts|) + [MINUS] == Repeat(MINUS, |attempts| + 1);
  }

  lemma ExplainMore(taken: seq<Byte>, r: Rx, attempts: seq<Attempt>, noise: seq<Byte>,
                    partials: seq<seq<Byte>>, c: Byte, size: nat)
    returns (attempts': seq<Attempt>, noise': seq<Byte>, partials': seq<seq<Byte>>)
    requires size >= 1 && Explained(taken, r, attempts, noise, partials, size)
    requires !Step(r, c, size).state.Done?
    ensures Explained(taken + [c], Step(r, c, size), attempts', noise', partials', size)
  {
    hide Open, OpenOk, Render, RenderAll, Step;
    if r.state.SumLow? {
      var a := ExplainClosed(taken, r, attempts, noise, partials, c, size);
      CloseAttempt(attempts, a, size);
      attempts', noise', partials' := attempts + [a], [], [];
      NothingOpen(size);
      assert RenderAll(attempts', size) + [] == RenderAll(attempts', size);
    } else {
      attempts' := attempts;
      noise', partials' := OpenStep(noise, partials, r, c, size);
      var open := Open(noise, partials, r.state, size);
      assert taken + [c] == RenderAll(attempts, size) + (open + [c]);
    }
  }

  lemma NothingOpen(size: nat)
    ensures OpenOk([], [], Hunting, size) && Open([], [], Hunting, size) == []
  {
  }

  lemma {:induction false} Explain(taken: seq<Byte>, size: nat)
    returns (attempts: seq<Attempt>, noise: seq<Byte>, partials: seq<seq<Byte>>)
    requires size >= 1 && !Run(IDLE, taken, size).state.Done?
    ensures Explained(taken, Run(IDLE, taken, size), attempts, noise, partials, size)
  {
    if taken == [] {
      attempts, noise, partials := [], [], [];
      assert Explained([], IDLE, [], [], [], size);
    } else {
      var before, c := taken[..|taken| - 1], taken[|taken| - 1];
      assert taken == before + [c];
      assert Run(IDLE, taken, size) == Step(Run(IDLE, before, size), c, size);
      var attempts0, noise0, partials0 := Explain(before, size);
      attempts, noise, partials :=
        ExplainMore(before, Run(IDLE, before, size), attempts0, noise0, partials0, c, size);
    }
  }

  /**
   Only streams of that shape are accepted: whenever ReceivePacket returns, what it read
   is some failed attempts, each answered '-', and one good one, answered '+'.
   */
  lemma ReceivedIsAccepted(line: seq<Byte>, taken: seq<Byte>, left: seq<Byte>, r: Rx, size: nat)
    returns (failed: seq<Attempt>, good: Attempt)
    requires size >= 1 && Reading(line, taken, left, r, size) && r.state.Done?
    ensures Accepted(failed, good, size)
    ensures line == RenderAll(failed, size) + Render(good, size) + left
    ensures r == Rx(Done(good.body), Repeat(MINUS, |failed|) + [PLUS])
  {
    hide Open, OpenOk, Render, RenderAll;
    var before, c := taken[..|taken| - 1], taken[|taken| - 1];
    var noise, partials;
    failed, noise, partials := Explain(before, size);
    good := ExplainClosed(before, Run(IDLE, before, size), failed, noise, partials, c, size);
    assert taken == before + [c];
  }

  // ----- The framing round trip -----

  lemma {:induction false} DoneStays(r: Rx, input: seq<Byte>, size: nat)
    requires r.state.Done?
    ensures Run(r, input, size) == r
  {
    if input != [] {
      DoneStays(r, input[..|input| - 1], size);
    }
  }

  /** Until its last byte an attempt decides nothing. */
  lemma AttemptUndecided(r: Rx, a: Attempt, size: nat)
    requires r.state == Hunting && AttemptOk(a, size)
    ensures var s := Render(a, size);
            s != [] && Run(r, s[..|s| - 1], size).state == SumLow(a.body, a.high)
  {
    var s := Render(a, size);
    var r' := Run(r, s[..|s| - 1], size);
    assert s == s[..|s| - 1] + [a.low];
    RunAttempt(r, a, size);
    RunSnoc(r, s[..|s| - 1], a.low, size);
    var p3 := a.noise + Partials(a.partials) + ([DOLLAR] + a.body) + Terminator(a.body, size);
    assert s[..|s| - 1] == p3 + [a.high];
    RunSnoc(r, p3, a.high, size);
    RunUpToSum(r, a, size);
  }

  /**
   On a line that starts with accepted attempts, ReceivePacket does return, with the last
   body, and leaves exactly the bytes after them. (Its contract gives the requires: it
   stops at the first packet, or has read everything.)
   */
  lemma ReceivesExactly(failed: seq<Attempt>, good: Attempt, rest: seq<Byte>,
                        taken: seq<Byte>, left: seq<Byte>, r: Rx, size: nat)
    requires Accepted(failed, good, size)
    requires Reading(RenderAll(failed, size) + Render(good, size) + rest, taken, left, r, size)
    requires !r.state.Done? ==> left == []
    ensures r == Rx(Done(good.body), Repeat(MINUS, |failed|) + [PLUS])
    ensures left == rest
  {
    hide Render, RenderAll;
    AcceptedIsReceived(failed, good, size);
    AcceptedIsFirst(failed, good, size);
    FirstAcceptUnique(RenderAll(failed, size) + Render(good, size), rest, taken, left, r, size);
  }

  lemma AcceptedIsFirst(failed: seq<Attempt>, good: Attempt, size: nat)
    requires Accepted(failed, good, size)
    ensures var goal := RenderAll(failed, size) + Render(good, size);
            goal != [] && !Run(IDLE, goal[..|goal| - 1], size).state.Done?
  {
    RunRejected(failed, size);
    UndecidedAfter(RenderAll(failed, size), |failed|, good, size);
  }

  lemma UndecidedAfter(before: seq<Byte>, n: nat, a: Attempt, size: nat)
    requires Run(IDLE, before, size) == Rx(Hunting, Repeat(MINUS, n)) && AttemptOk(a, size)
    ensures var goal := before + Render(a, size);
            goal != [] && !Run(IDLE, goal[..|goal| - 1], size).state.Done?
  {
    var goal, last := before + Render(a, size), Render(a, size);
    AttemptUndecided(Rx(Hunting, Repeat(MINUS, n)), a, size);
    RunAppend(IDLE, before, last[..|last| - 1], size);
    assert goal[..|goal| - 1] == before + last[..|last| - 1];
  }

  lemma FirstAcceptUnique(goal: seq<Byte>, rest: seq<Byte>, taken: seq<Byte>, left: seq<Byte>, r: Rx, size: nat)
    requires goal != []
    requires Run(IDLE, goal, size).state.Done? && !Run(IDLE, goal[..|goal| - 1], size).state.Done?
    requires Reading(goal + rest, taken, left, r, size)
    requires !r.state.Done? ==> left == []
    ensures r == Run(IDLE, goal, size) && left == rest
  {
    TakenIsGoal(goal, rest, taken, left, r, size);
    assert left == (goal + rest)[|goal|..];
  }

  lemma TakenIsGoal(goal: seq<Byte>, rest: seq<Byte>, taken: seq<Byte>, left: seq<Byte>, r: Rx, size: nat)
    requires goal != []
    requires Run(IDLE, goal, size).state.Done? && !Run(IDLE, goal[..|goal| - 1], size).state.Done?
    requires Reading(goal + rest, taken, left, r, size)
    requires !r.state.Done? ==> left == []
    ensures taken == goal
  {
    assert taken == (goal + rest)[..|taken|] && goal == (goal + rest)[..|goal|];
    if |taken| < |goal| {
      var init := goal[..|goal| - 1];
      assert init == taken + init[|taken|..];
      RunAppend(IDLE, taken, init[|taken|..], size);
      if r.state.Done? {
        DoneStays(r, init[|taken|..], size);
        assert false;
      }
    } else if |taken| > |goal| {
      var init := taken[..|taken| - 1];
      assert init == goal + init[|goal|..];
      RunAppend(IDLE, goal, init[|goal|..], size);
      DoneStays(Run(IDLE, goal, size), init[|goal|..], size);
      assert false;
    }
  }

  function FrameAttempt(noise: seq<Byte>, partials: seq<seq<Byte>>, p: seq<Byte>): (a: Attempt)
  {
    Attempt(noise, partials, p, HexDigit(Sum(p) / 16), HexDigit(Sum(p) % 16))
  }

  lemma FrameIsAttempt(noise: seq<Byte>, partials: seq<seq<Byte>>, p: seq<Byte>, size: nat)
    requires |p| + 2 <= size
    ensures Render(FrameAttempt(noise, partials, p), size) == noise + Partials(partials) + Frame(p)
    ensures Passes(FrameAttempt(noise, partials, p))
  {
    ByteHexRoundTrip(Sum(p));
    var sum := [HexDigit(Sum(p) / 16), HexDigit(Sum(p) % 16)];
    CStringClean(sum);
  }

  /**
   The framing round trip with resynchronisation: after any '$'-free noise and any number
   of abandoned packets, SendPacket's bytes come back as exactly the payload.
   */
  lemma FramingRoundTrip(noise: seq<Byte>, partials: seq<seq<Byte>>, p: seq<Byte>, rest: seq<Byte>,
                         taken: seq<Byte>, left: seq<Byte>, r: Rx, size: nat)
    requires DOLLAR !in noise && PartialsOk(partials, size)
    requires Clean(p) && |p| + 2 <= size
    requires Reading(noise + Partials(partials) + Frame(p) + rest, taken, left, r, size)
    requires !r.state.Done? ==> left == []
    ensures r == Rx(Done(p), [PLUS]) && left == rest
  {
    FrameIsAttempt(noise, partials, p, size);
    var line := noise + Partials(partials) + Frame(p);
    assert RenderAll([], size) + line + rest == line + rest;
    ReceivesExactly([], FrameAttempt(noise, partials, p), rest, taken, left, r, size);
  }

  /**
   The bound and the two forbidden characters are exact: a frame is taken whole and gives
   back its payload if and only if the payload is clean and at most size - 2 long.
   */
  lemma FrameSurvivesIff(p: seq<Byte>, size: nat)
    requires size >= 1
    ensures Reading(Frame(p), Frame(p), [], Rx(Done(p), [PLUS]), size) <==> Clean(p) && |p| + 2 <= size
  {
    if Clean(p) && |p| + 2 <= size {
      FrameAccepted(p, size);
    }
    if Reading(Frame(p), Frame(p), [], Rx(Done(p), [PLUS]), size) {
      var failed, a := ReceivedIsAccepted(Frame(p), Frame(p), [], Rx(Done(p), [PLUS]), size);
      assert |failed| == 0;
      assert Frame(p) == Render(a, size);
      if |p| + 1 == size {
        FullBodyHasNoFrame(a, size);
        assert false;
      }
    }
  }

  lemma FrameAccepted(p: seq<Byte>, size: nat)
    requires Clean(p) && |p| + 2 <= size
    ensures Reading(Frame(p), Frame(p), [], Rx(Done(p), [PLUS]), size)
  {
    var a := FrameAttempt([], [], p);
    FrameIsAttempt([], [], p, size);
    assert [] + Partials([]) + Frame(p) == Frame(p);
    RunAttempt(IDLE, a, size);
    AttemptUndecided(IDLE, a, size);
  }

  /** A body that filled the buffer cannot have come from its own frame. */
  lemma FullBodyHasNoFrame(a: Attempt, size: nat)
    requires AttemptOk(a, size) && |a.body| + 1 == size
    ensures Render(a, size) != Frame(a.body)
  {
    var s, f := Render(a, size), Frame(a.body);
    if |s| == |f| {
      if a.noise != [] {
        assert s[0] == a.noise[0] != f[0];
      } else {
        assert s[1] == DOLLAR != f[1];
      }
    }
  }

  // ----- Stop and wait -----

  datatype SenderEnd = Acked | GaveUp | Waiting

  datatype Exchange = Exchange(frames: nat, rx: Rx, sender: SenderEnd)

  /**
   The two ends together. For its i-th frame the sender puts one frame, the channel hands
   the receiver deliveries[i], and the sender reads the i-th acknowledgement.
   */
  function Converse(i: nat, retries: nat, deliveries: seq<seq<Byte>>, r: Rx, size: nat): (e: Exchange)
    requires i <= retries <= |deliveries|
    decreases retries - i
  {
    if i == retries then Exchange(i, r, GaveUp)
    else
      var r' := Run(r, deliveries[i], size);
      if i >= |r'.acks| then Exchange(i + 1, r', Waiting)
      else if r'.acks[i] == PLUS then Exchange(i + 1, r', Acked)
      else Converse(i + 1, retries, deliveries, r', size)
  }

  /** The channel delivers the first `|damaged|` frames with a wrong checksum, framing kept. */
  ghost predicate Damages(deliveries: seq<seq<Byte>>, damaged: seq<Attempt>, size: nat) {
    && |damaged| <= |deliveries|
    && Rejected(damaged, size)
    && forall i :: 0 <= i < |damaged| ==> deliveries[i] == Render(damaged[i], size)
  }

  lemma {:induction false} ConverseDamaged(i: nat, retries: nat, deliveries: seq<seq<Byte>>, damaged: seq<Attempt>, size: nat)
    requires i <= |damaged| <= retries <= |deliveries| && Damages(deliveries, damaged, size)
    ensures Converse(i, retries, deliveries, Rx(Hunting, Repeat(MINUS, i)), size)
         == Converse(|damaged|, retries, deliveries, Rx(Hunting, Repeat(MINUS, |damaged|)), size)
    decreases |damaged| - i
  {
    if i < |damaged| {
      RunAttempt(Rx(Hunting, Repeat(MINUS, i)), damaged[i], size);
      assert Repeat(MINUS, i) + [MINUS] == Repeat(MINUS, i + 1);
      ConverseDamaged(i + 1, retries, deliveries, damaged, size);
    }
  }

  /**
   Stop-and-wait delivery: when the channel damages the first k frames, k below the retry
   count, and passes the next, the receiver answers k times '-' and once '+', returns the
   payload once, and the sender stops after k + 1 frames, reporting the payload's length.
   */
  lemma StopAndWait(p: seq<Byte>, retries: nat, deliveries: seq<seq<Byte>>, damaged: seq<Attempt>, size: nat)
    requires Clean(p) && |p| + 2 <= size
    requires |damaged| < retries <= |deliveries| && Damages(deliveries, damaged, size)
    requires deliveries[|damaged|] == Frame(p)
    ensures var k := |damaged|;
            var acks := Repeat(MINUS, k) + [PLUS];
            && Converse(0, retries, deliveries, IDLE, size) == Exchange(k + 1, Rx(Done(p), acks), Acked)
            && forall frames, result :: Sent(p, retries, acks, frames, result) ==>
                 frames == k + 1 && result == Some(|p|)
  {
    var k := |damaged|;
    var acks := Repeat(MINUS, k) + [PLUS];
    assert Repeat(MINUS, 0) == [];
    ConverseDamaged(0, retries, deliveries, damaged, size);
    FrameIsAttempt([], [], p, size);
    assert [] + Partials([]) + Frame(p) == Frame(p);
    RunAttempt(Rx(Hunting, Repeat(MINUS, k)), FrameAttempt([], [], p), size);
    forall frames, result | Sent(p, retries, acks, frames, result)
      ensures frames == k + 1 && result == Some(|p|)
    {
      assert acks[k] == PLUS;
    }
  }

  /** When every frame is damaged the sender gives up after the retry count and nothing is delivered. */
  lemma StopAndWaitGivesUp(p: seq<Byte>, retries: nat, deliveries: seq<seq<Byte>>, damaged: seq<Attempt>, size: nat)
    requires |damaged| == retries <= |deliveries| && Damages(deliveries, damaged, size)
    ensures Converse(0, retries, deliveries, IDLE, size)
         == Exchange(retries, Rx(Hunting, Repeat(MINUS, retries)), GaveUp)
    ensures forall frames, result :: Sent(p, retries, Repeat(MINUS, retries), frames, result) ==>
              frames == retries && result == Some(if retries == 0 then 0 else |p|)
  {
    assert Repeat(MINUS, 0) == [];
    ConverseDamaged(0, retries, deliveries, damaged, size);
  }
}

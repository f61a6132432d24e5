/**
 Why the run properties have a scope: counter-runs for what lies outside it, and the exact
 conditions under which a step keeps the table's promises.
 */
module StreamScope {
  import opened Common
  import opened StreamState
  import opened StreamInvariant
  import opened StreamTheorems

  // ---------- the scope is exact ----------

  lemma {:induction false} CloseAllLogs(s: State, handles: seq<Handle>, i: nat)
    requires Shaped(s) && i < |s.ids|
    ensures s.log <= CloseAll(s, handles).log
    ensures CurrentHandle(s, i) in handles ==> TerminateSent(s.ids[i]) in CloseAll(s, handles).log
    decreases |handles|
  {
    if handles != [] {
      var h := handles[0];
      var t := CloseHandle(s, h);
      ValidIsCurrent(s, h);
      CloseAllLogs(t, handles[1..], i);
      if h == CurrentHandle(s, i) {
        assert t.log == s.log + [TerminateSent(s.ids[i])];
        assert t.log[|s.log|] == CloseAll(t, handles[1..]).log[|s.log|];
      }
    }
  }

  /**
   When a response callback closes the handle of its own waiting call, TERMINATE goes out; the stream
   is live again afterwards exactly if the response is handled without error, does not itself
   terminate the stream, and the call is a subscription.
   */
  lemma RevivedIff(s: State, i: nat, call: nat, pkt: Packet, out: Outcome)
    requires Inv(s) && i < |s.ids| && s.ids[i] == pkt.id > 0 && s.handlers[i] == Awaiting(call)
    requires CurrentHandle(s, i) in out.closes
    ensures call in s.calls
    ensures var t := Respond(s, i, call, pkt, out);
            && TerminateSent(pkt.id) in t.log
            && (t.ids[i] == pkt.id <==> !HasTerminate(pkt.flags) && out.ret == Ok && s.calls[call].callback.Some?)
  {
    hide SlotsOk, IssuesOk, EndsOk, SentOk, FinishedOk, HandlesOk, CallsOk, Orderly, CallLinks;
    var s1 := if out.reached then Append(s, ResponseDelivered(pkt.id, call)) else s;
    CloseAllSlot(s1, out.closes, i);
    CloseAllLogs(s1, out.closes, i);
  }

  /** The table then holds a stream that has ended. */
  lemma RevivedBreaks(s: State, i: nat, call: nat, pkt: Packet, out: Outcome)
    requires Inv(s) && i < |s.ids| && s.ids[i] == pkt.id > 0 && s.handlers[i] == Awaiting(call)
    requires CurrentHandle(s, i) in out.closes && Subscribes(s, i, pkt, out)
    ensures !Inv(Respond(s, i, call, pkt, out))
  {
    RevivedIff(s, i, call, pkt, out);
    var t := Respond(s, i, call, pkt, out);
    var k :| 0 <= k < |t.log| && t.log[k] == TerminateSent(pkt.id);
    EndedAt(t.log, k);
  }

  /** A slot other than the one a packet is for is only changed by closing its handle. */
  lemma {:induction false} OtherSlot(s: State, i: nat, j: nat, pkt: Packet, out: Outcome)
    requires Shaped(s) && i == Target(s, pkt) < |s.ids| && j < |s.ids| && j != i && s.handlers[i] != Empty
    requires s.handlers[i].Awaiting? ==> s.handlers[i].call in s.calls
    requires CurrentHandle(s, j) in out.closes
    ensures var t := Dispatch(s, pkt, out);
            && t.ids[j] == 0
            && forall c :: c in s.calls && s.handlers[i] != Awaiting(c) ==> c in t.calls && t.calls[c] == s.calls[c]
  {
    var e := if s.handlers[i].Awaiting? then ResponseDelivered(pkt.id, s.handlers[i].call)
             else MessageDelivered(pkt.id, CurrentHandle(s, i), s.handlers[i].callback);
    var s1 := if out.reached then Append(s, e) else s;
    CloseAllSlot(s1, out.closes, j);
  }

  /** Closing the handle of another waiting call strands that call. */
  lemma StrandedBreaks(s: State, j: nat, pkt: Packet, out: Outcome)
    requires Inv(s) && Target(s, pkt) < |s.ids| && j < |s.ids| && j != Target(s, pkt)
    requires s.handlers[j].Awaiting? && CurrentHandle(s, j) in out.closes
    ensures !Inv(Dispatch(s, pkt, out))
  {
    var c := s.handlers[j].call;
    OtherSlot(s, Target(s, pkt), j, pkt, out);
    var t := Dispatch(s, pkt, out);
    assert c in t.calls && t.calls[c].phase == Blocked && t.calls[c].slot == j && t.calls[c].id != 0;
  }

  /** A late timeout leaves the call that has the slot now blocked without one. */
  lemma AbandonedBreaks(s: State, call: nat, other: nat)
    requires Inv(s) && call in s.calls && s.calls[call].phase.Ready? && s.calls[call].slot < |s.ids|
    requires s.handlers[s.calls[call].slot] == Awaiting(other)
    ensures !Inv(Expire(s, call))
  {
    var t := Expire(s, call);
    assert other != call && t.calls[other] == s.calls[other];
    assert t.handlers[s.calls[call].slot] == Empty;
  }

  lemma CloseBreaks(s: State, i: nat)
    requires Inv(s) && i < |s.ids| && s.handlers[i].Awaiting?
    ensures !Inv(CloseHandle(s, CurrentHandle(s, i)))
  {
    ValidIsCurrent(s, CurrentHandle(s, i));
    var t := CloseHandle(s, CurrentHandle(s, i));
    assert t.handlers[i] == Empty && s.calls[s.handlers[i].call].phase == Blocked;
  }

  /**
   The scope is exact: of the steps that the code can take, those and only those that respect it keep
   the invariant.
   */
  lemma ScopeIsExact(s: State, step: Step)
    requires Inv(s) && Enabled(s, step)
    ensures Inv(Apply(s, step)) <==> Harmless(s, step)
  {
    hide SlotsOk, IssuesOk, EndsOk, SentOk, FinishedOk, HandlesOk, CallsOk, Orderly, CallLinks;
    if Harmless(s, step) {
      StepKeeps(s, step);
    } else if step.TimeOut? {
      AbandonedBreaks(s, step.call, s.handlers[s.calls[step.call].slot].call);
    } else if step.Close? {
      var i :| 0 <= i < |s.ids| && s.handlers[i].Awaiting? && step.handle == CurrentHandle(s, i);
      CloseBreaks(s, i);
    } else {
      var i := Target(s, step.pkt);
      var j :| 0 <= j < |s.ids| && s.handlers[j].Awaiting? && CurrentHandle(s, j) in step.out.closes
               && !(j == i && !Subscribes(s, i, step.pkt, step.out));
      if j == i {
        RevivedBreaks(s, i, s.handlers[i].call, step.pkt, step.out);
      } else {
        StrandedBreaks(s, j, step.pkt, step.out);
      }
    }
  }

  // ---------- counter-runs ----------

  lemma Extend(s: State, step: Step, rest: seq<Step>)
    requires Shaped(s) && Enabled(s, step) && AnyRun(Apply(s, step), rest)
    ensures AnyRun(s, [step] + rest) && Final(s, [step] + rest) == Final(Apply(s, step), rest)
  {
    assert ([step] + rest)[1..] == rest;
  }

  const START := Start(0, Some(7), Ok)

  /** A table of one slot whose first call, a subscription, is waiting. */
  const WAITING :=
    State([1], [1], [Awaiting(0)], 2, map[0 := Call(0, 1, Some(7), Blocked)], [1], map[1 := Issue(0, FIRST_HANDLE, 1)],
          [RequestSent(1)])

  const FIRST_HANDLE: Handle := 65537

  lemma FirstCall()
    ensures Apply(InitState(1), START) == WAITING
  {
    var s := InitState(1);
    assert s.ids == [0] && s.gens == [0] && s.handlers == [Empty] && s.moves == [0];
  }

  const ANSWER := Receive(Packet(1, APPLICATION_MESSAGE, 2), Outcome(false, [], Ok))

  lemma AnsweredState()
    ensures var s := Apply(WAITING, ANSWER);
            s.ids == [0] && s.nextId == 2 && s.calls == map[0 := Call(0, 1, Some(7), Ready(Ok))]
  {
  }

  lemma SecondCall(s: State)
    requires Shaped(s) && s.ids == [0] && s.nextId == 2 && s.calls == map[0 := Call(0, 1, Some(7), Ready(Ok))]
    ensures var t := Apply(s, Start(1, None, Ok));
            && t.ids == [2]
            && t.calls == map[0 := Call(0, 1, Some(7), Ready(Ok)), 1 := Call(0, 2, None, Blocked)]
  {
  }

  /**
   A wait that times out although its answer has arrived closes a slot that may already belong to
   another call: call 1 is left blocked with no slot, so nothing can ever complete it but its own
   timeout.
   */
  lemma LateTimeoutStealsASlot()
    ensures var steps := [START] + ([ANSWER] + ([Start(1, None, Ok)] + ([TimeOut(0)] + [])));
            && AnyRun(InitState(1), steps)
            && var t := Final(InitState(1), steps);
               1 in t.calls && t.calls[1].phase == Blocked && t.ids == [0] && TerminateSent(2) in t.log
  {
    FirstCall();
    AnsweredState();
    var s2 := Apply(WAITING, ANSWER);
    SecondCall(s2);
    var s3 := Apply(s2, Start(1, None, Ok));
    var s4 := Apply(s3, TimeOut(0));
    assert s4.ids == [0] && s4.log[|s4.log| - 1] == TerminateSent(2);
    Extend(s3, TimeOut(0), []);
    Extend(s2, Start(1, None, Ok), [TimeOut(0)] + []);
    Extend(WAITING, ANSWER, [Start(1, None, Ok)] + ([TimeOut(0)] + []));
    Extend(InitState(1), START, [ANSWER] + ([Start(1, None, Ok)] + ([TimeOut(0)] + [])));
  }

  const CLOSED_IN_RESPONSE := Receive(Packet(1, APPLICATION_MESSAGE, 0), Outcome(true, [FIRST_HANDLE], Ok))

  const NEXT_MESSAGE := Receive(Packet(1, APPLICATION_MESSAGE, 0), Outcome(true, [], Ok))

  lemma CloseOne(s: State, handle: Handle)
    requires Shaped(s)
    ensures CloseAll(s, [handle]) == CloseHandle(s, handle)
  {
    assert [handle][1..] == [];
  }

  lemma RevivedState()
    ensures var s := Apply(WAITING, CLOSED_IN_RESPONSE);
            && s.ids == [1] && s.handlers == [Subscribed(7)]
            && s.log == [RequestSent(1), ResponseDelivered(1, 0), TerminateSent(1), Completed(0)]
  {
    var s := Append(WAITING, ResponseDelivered(1, 0));
    CloseOne(s, FIRST_HANDLE);
    assert Validate(s, FIRST_HANDLE) == Some(0);
  }

  /**
   Closing the handle of a call from its own response callback, while the call is still waiting,
   sends TERMINATE and then subscribes anyway: later packets reach the callback of an ended stream.
   */
  lemma ClosingWhileWaitingRevivesTheStream()
    ensures var steps := [START] + ([CLOSED_IN_RESPONSE] + ([NEXT_MESSAGE] + []));
            && AnyRun(InitState(1), steps)
            && var log := Final(InitState(1), steps).log;
               |log| == 5 && log[2] == TerminateSent(1) && Reaches(log[4], 1)
  {
    FirstCall();
    RevivedState();
    var s := Apply(WAITING, CLOSED_IN_RESPONSE);
    assert Apply(s, NEXT_MESSAGE).log == s.log + [MessageDelivered(1, CurrentHandle(s, 0), 7)];
    Extend(s, NEXT_MESSAGE, []);
    Extend(WAITING, CLOSED_IN_RESPONSE, [NEXT_MESSAGE] + []);
    Extend(InitState(1), START, [CLOSED_IN_RESPONSE] + ([NEXT_MESSAGE] + []));
  }

  // ---------- timeouts of calls that have their answer ----------

  const SECOND := Start(1, Some(9), Ok)

  const SECOND_ANSWER := Receive(Packet(2, APPLICATION_MESSAGE, 0), Outcome(true, [], Ok))

  /** The slot's second user: call 1 has subscribed in the slot that call 0 was given. */
  lemma SecondSubscription(s: State)
    requires Shaped(s) && s.ids == [0] && s.nextId == 2 && s.calls == map[0 := Call(0, 1, Some(7), Ready(Ok))]
    ensures var t := Apply(s, SECOND);
            && t.ids == [2] && t.handlers == [Awaiting(1)]
            && t.calls == map[0 := Call(0, 1, Some(7), Ready(Ok)), 1 := Call(0, 2, Some(9), Blocked)]
  {
  }

  lemma SecondAnswered(s: State)
    requires Shaped(s) && s.ids == [2] && s.handlers == [Awaiting(1)]
    requires s.calls == map[0 := Call(0, 1, Some(7), Ready(Ok)), 1 := Call(0, 2, Some(9), Blocked)]
    ensures var t := Apply(s, SECOND_ANSWER);
            && t.ids == [2] && t.handlers == [Subscribed(9)]
            && t.calls == map[0 := Call(0, 1, Some(7), Ready(Ok)), 1 := Call(0, 2, Some(9), Ready(Ok))]
  {
    assert Target(s, SECOND_ANSWER.pkt) == 0;
  }

  lemma ExtendScoped(s: State, step: Step, rest: seq<Step>)
    requires Shaped(s) && Enabled(s, step) && InScope(s, step) && ScopedRun(Apply(s, step), rest) && AnyRun(Apply(s, step), rest)
    ensures ScopedRun(s, [step] + rest) && AnyRun(s, [step] + rest)
    ensures Final(s, [step] + rest) == Final(Apply(s, step), rest)
  {
    assert ([step] + rest)[1..] == rest;
  }

  const LATE := [Wake(1)] + ([TimeOut(0)] + [])

  lemma LateTail(s: State)
    requires Shaped(s) && s.ids == [2] && s.handlers == [Subscribed(9)]
    requires s.calls == map[0 := Call(0, 1, Some(7), Ready(Ok)), 1 := Call(0, 2, Some(9), Ready(Ok))]
    ensures ScopedRun(s, LATE) && AnyRun(s, LATE)
    ensures var t := Final(s, LATE);
            1 in t.calls && t.calls[1].phase == Returned(Ok) && t.ids == [0] && t.log == s.log + [TerminateSent(2)]
  {
    var t := Apply(s, Wake(1));
    assert Apply(t, TimeOut(0)).ids == [0];
    ExtendScoped(t, TimeOut(0), []);
    ExtendScoped(s, Wake(1), [TimeOut(0)] + []);
  }

  lemma LateMiddle(s: State)
    requires Shaped(s) && s.ids == [0] && s.nextId == 2 && s.calls == map[0 := Call(0, 1, Some(7), Ready(Ok))]
    ensures var steps := [SECOND] + ([SECOND_ANSWER] + LATE);
            && ScopedRun(s, steps) && AnyRun(s, steps)
            && var t := Final(s, steps);
               1 in t.calls && t.calls[1].phase == Returned(Ok) && t.ids == [0] && TerminateSent(2) in t.log
  {
    SecondSubscription(s);
    var t := Apply(s, SECOND);
    SecondAnswered(t);
    var u := Apply(t, SECOND_ANSWER);
    LateTail(u);
    ExtendScoped(t, SECOND_ANSWER, LATE);
    ExtendScoped(s, SECOND, [SECOND_ANSWER] + LATE);
  }

  /**
   Inside the scope the table stays sound, but a late timeout may still end another call's stream:
   here call 0, whose answer terminated its own stream, times out and closes the live subscription
   of call 1. TimeoutClosesOwnSlot says exactly when that happens.
   */
  lemma LateTimeoutEndsAnotherSubscription()
    ensures var steps := [START] + ([ANSWER] + ([SECOND] + ([SECOND_ANSWER] + LATE)));
            && ScopedRun(InitState(1), steps) && AnyRun(InitState(1), steps)
            && var t := Final(InitState(1), steps);
               1 in t.calls && t.calls[1].phase == Returned(Ok) && t.ids == [0] && TerminateSent(2) in t.log
  {
    FirstCall();
    AnsweredState();
    LateMiddle(Apply(WAITING, ANSWER));
    var rest := [SECOND] + ([SECOND_ANSWER] + LATE);
    ExtendScoped(WAITING, ANSWER, rest);
    ExtendScoped(InitState(1), START, [ANSWER] + rest);
  }
}

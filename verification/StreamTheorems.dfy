/** The promises of the stream table over whole runs. */
module StreamTheorems {
  import opened Common
  import opened StreamState
  import opened StreamInvariant

  lemma StepKeeps(s: State, step: Step)
    requires Inv(s) && Enabled(s, step) && Harmless(s, step)
    ensures Inv(Apply(s, step))
  {
    match step
    case Start(call, callback, sendRet) => StartKeeps(s, call, callback, sendRet);
    case Receive(pkt, out) => ReceiveKeeps(s, pkt, out);
    case Wake(call) => WakeKeeps(s, call);
    case TimeOut(call) => ExpireKeeps(s, call);
    case Close(handle) => CloseHandleKeeps(s, handle, None);
  }

  lemma ReceiveKeeps(s: State, pkt: Packet, out: Outcome)
    requires Inv(s) && ClosesHarmless(s, pkt, out)
    ensures Inv(Dispatch(s, pkt, out))
  {
    hide SlotsOk, IssuesOk, EndsOk, SentOk, FinishedOk, HandlesOk, CallsOk, Orderly, CallLinks;
    var i := Target(s, pkt);
    if i < |s.ids| && s.handlers[i].Awaiting? {
      RespondKeeps(s, i, s.handlers[i].call, pkt, out);
    } else if i < |s.ids| && s.handlers[i].Subscribed? {
      DeliverKeeps(s, i, s.handlers[i].callback, pkt, out);
    }
  }

  lemma WakeKeeps(s: State, call: nat)
    requires Inv(s) && call in s.calls && s.calls[call].phase.Ready?
    ensures Inv(Wakeup(s, call))
  {
  }

  /** Every scoped run can be executed to its end and ends in a state satisfying the invariant. */
  lemma {:induction false} RunKeeps(s: State, steps: seq<Step>)
    requires Inv(s) && ScopedRun(s, steps)
    ensures AnyRun(s, steps) && Inv(Final(s, steps))
    decreases |steps|
  {
    if steps != [] {
      StepKeeps(s, steps[0]);
      RunKeeps(Apply(s, steps[0]), steps[1..]);
    }
  }

  lemma {:induction false} FromInit(slots: nat, steps: seq<Step>)
    requires 1 <= slots <= UINT16_MAX && ScopedRun(InitState(slots), steps)
    ensures AnyRun(InitState(slots), steps) && Inv(Final(InitState(slots), steps))
  {
    InitInv(slots);
    RunKeeps(InitState(slots), steps);
  }

  // ---------- calls and slots ----------

  /**
   The table between steps: no slot is left half claimed, ids are distinct and already handed out,
   and waiting slots correspond one to one to the calls still blocked.
   */
  lemma TableInvariant(slots: nat, steps: seq<Step>)
    requires 1 <= slots <= UINT16_MAX && ScopedRun(InitState(slots), steps)
    ensures AnyRun(InitState(slots), steps)
    ensures var s := Final(InitState(slots), steps);
            && (forall i :: 0 <= i < slots ==> s.ids[i] != -1 && (s.ids[i] == 0 || 1 <= s.ids[i] < s.nextId))
            && (forall i, j :: 0 <= i < j < slots && s.ids[i] == s.ids[j] ==> s.ids[i] == 0)
            && (forall i :: 0 <= i < slots && s.handlers[i].Awaiting? ==>
                  var c := s.handlers[i].call;
                  c in s.calls && s.calls[c] == Call(i, s.ids[i], s.calls[c].callback, Blocked))
            && (forall c :: c in s.calls && s.calls[c].phase == Blocked ==>
                  s.calls[c].slot < slots && s.handlers[s.calls[c].slot] == Awaiting(c))
  {
    FromInit(slots, steps);
  }

  /**
   A packet for a waiting slot finds the frame of a call that is still blocked, and completes that
   call and no other with the code its handling produced.
   */
  lemma ResponseReachesLiveCall(s: State, pkt: Packet, out: Outcome, i: nat)
    requires Inv(s) && Possible(pkt, out) && i < |s.ids| && s.ids[i] == pkt.id > 0 && s.handlers[i].Awaiting?
    ensures var c := s.handlers[i].call;
            && c in s.calls && s.calls[c].phase == Blocked && s.calls[c].id == pkt.id
            && Dispatch(s, pkt, out).calls == s.calls[c := s.calls[c].(phase := Ready(out.ret))]
  {
    assert Find(s.ids, pkt.id) == i;
  }

  /**
   A call that gives up clears the slot it was given and sends TERMINATE for the stream that holds it
   now. That is the call's own stream if and only if the slot's generation has not moved since the
   call's handle was issued, which is while the stream still holds the slot; so it always is for
   a call that is still blocked.
   */
  lemma TimeoutClosesOwnSlot(s: State, call: nat)
    requires Inv(s) && Enabled(s, TimeOut(call))
    ensures var i, id, t := s.calls[call].slot, s.calls[call].id, Apply(s, TimeOut(call));
            && id in s.issues && s.issues[id].slot == i
            && t.ids == s.ids[i := 0] && t.handlers == s.handlers[i := Empty]
            && t.log == s.log + [TerminateSent(s.ids[i])]
            && (s.ids[i] == id <==> s.moves[i] == s.issues[id].moves)
            && (s.ids[i] == id <==> id in s.ids)
            && (s.calls[call].phase == Blocked ==> s.ids[i] == id)
  {
    hide EndsOk, SentOk, FinishedOk, HandlesOk, Orderly, SlotLinks;
    var i, id := s.calls[call].slot, s.calls[call].id;
    if id in s.ids {
      var j :| 0 <= j < |s.ids| && s.ids[j] == id;
    }
  }

  // ---------- accounting ----------

  /**
   For two events of a run in order: a stream that ended reaches no callback afterwards, and no call
   is completed twice.
   */
  lemma NothingAfterTheEnd(slots: nat, steps: seq<Step>, i: nat, j: nat, id: int)
    requires 1 <= slots <= UINT16_MAX && ScopedRun(InitState(slots), steps)
    ensures AnyRun(InitState(slots), steps)
    ensures var log := Final(InitState(slots), steps).log;
            i < j < |log| ==>
              && (log[i] == TerminateSent(id) || log[i] == TerminateReceived(id) ==> !Reaches(log[j], id))
              && (log[i].Completed? && log[j].Completed? ==> log[i].call != log[j].call)
  {
    FromInit(slots, steps);
    var log := Final(InitState(slots), steps).log;
    if i < j < |log| {
      OrderlyMeans(log, i, j, id);
    }
  }

  lemma {:induction false} EndedHow(log: seq<Event>, id: int)
    requires id in Ended(log)
    ensures TerminateSent(id) in log || TerminateReceived(id) in log
  {
    if id !in Ends(log[|log| - 1]) {
      EndedHow(log[..|log| - 1], id);
    }
  }

  /** Every stream whose request went out either still holds a slot or was terminated by one side. */
  lemma EveryStreamIsAccountedFor(slots: nat, steps: seq<Step>, id: int)
    requires 1 <= slots <= UINT16_MAX && ScopedRun(InitState(slots), steps)
    ensures AnyRun(InitState(slots), steps)
    ensures var s := Final(InitState(slots), steps);
            RequestSent(id) in s.log ==>
              id in s.ids || TerminateSent(id) in s.log || TerminateReceived(id) in s.log
  {
    FromInit(slots, steps);
    var s := Final(InitState(slots), steps);
    if RequestSent(id) in s.log && id !in s.ids {
      EndedHow(s.log, id);
    }
  }

  // ---------- handles ----------

  /** Issued handles are never reissued or forgotten, and generations only move forward. */
  ghost predicate Later(s: State, t: State)
    requires Shaped(s)
  {
    && Shaped(t) && |t.ids| == |s.ids|
    && (forall id :: id in s.issues ==> id in t.issues && t.issues[id] == s.issues[id])
    && (forall i :: 0 <= i < |s.ids| ==> t.moves[i] >= s.moves[i])
  }

  lemma {:induction false} CloseAllLater(s: State, handles: seq<Handle>)
    requires Shaped(s)
    ensures Later(s, CloseAll(s, handles))
    decreases |handles|
  {
    if handles != [] {
      CloseAllLater(CloseHandle(s, handles[0]), handles[1..]);
    }
  }

  lemma LaterTrans(s: State, t: State, u: State)
    requires Shaped(s) && Later(s, t) && Later(t, u)
    ensures Later(s, u)
  {
  }

  lemma SettleLater(s: State, i: nat, call: nat, pkt: Packet, ret: Error)
    requires Shaped(s) && i < |s.ids| && call in s.calls
    ensures Later(s, Settle(s, i, call, pkt, ret))
  {
  }

  lemma RespondLater(s: State, i: nat, call: nat, pkt: Packet, out: Outcome)
    requires Shaped(s) && i < |s.ids| && call in s.calls
    ensures Later(s, Respond(s, i, call, pkt, out))
  {
    var s1 := if out.reached then Append(s, ResponseDelivered(pkt.id, call)) else s;
    assert Later(s, s1);
    CloseAllLater(s1, out.closes);
    var s2 := CloseAll(s1, out.closes);
    SettleLater(s2, i, call, pkt, out.ret);
    LaterTrans(s, s1, s2);
    LaterTrans(s, s2, Settle(s2, i, call, pkt, out.ret));
  }

  lemma DeliverLater(s: State, i: nat, callback: nat, pkt: Packet, out: Outcome)
    requires Shaped(s) && i < |s.ids|
    ensures Later(s, Deliver(s, i, callback, pkt, out))
  {
    var s1 := if out.reached then Append(s, MessageDelivered(pkt.id, CurrentHandle(s, i), callback)) else s;
    assert Later(s, s1);
    CloseAllLater(s1, out.closes);
    var s2 := CloseAll(s1, out.closes);
    LaterTrans(s, s1, s2);
    var s3 := Deliver(s, i, callback, pkt, out);
    assert Later(s2, s3);
    LaterTrans(s, s2, s3);
  }

  lemma DispatchLater(s: State, pkt: Packet, out: Outcome)
    requires Shaped(s)
    ensures Later(s, Dispatch(s, pkt, out))
  {
    var i := Target(s, pkt);
    if i < |s.ids| {
      match s.handlers[i]
      case Empty =>
      case Awaiting(call) => if call in s.calls { RespondLater(s, i, call, pkt, out); }
      case Subscribed(callback) => DeliverLater(s, i, callback, pkt, out);
    }
  }

  lemma StartLater(s: State, call: nat, callback: Option<nat>, sendRet: Error)
    requires Shaped(s) && s.nextId !in s.issues
    ensures Later(s, StartCall(s, call, callback, sendRet))
  {
  }

  lemma StepLater(s: State, step: Step)
    requires Inv(s) && Enabled(s, step)
    ensures Later(s, Apply(s, step))
  {
    hide SlotsOk, IssuesOk, EndsOk, SentOk, FinishedOk, HandlesOk, CallsOk, Orderly, SlotLinks, CallLinks;
    match step
    case Start(call, callback, sendRet) =>
      FreshId(s);
      StartLater(s, call, callback, sendRet);
    case Receive(pkt, out) => DispatchLater(s, pkt, out);
    case Wake(_) =>
    case TimeOut(_) =>
    case Close(_) =>
  }

  lemma {:induction false} RunLater(s: State, steps: seq<Step>)
    requires Inv(s) && ScopedRun(s, steps)
    ensures AnyRun(s, steps) && Later(s, Final(s, steps))
    decreases |steps|
  {
    if steps != [] {
      StepKeeps(s, steps[0]);
      StepLater(s, steps[0]);
      RunLater(Apply(s, steps[0]), steps[1..]);
    }
  }

  /**
   A handle is never 0 and names its slot; it validates exactly when the slot's generation has moved
   a multiple of 65536 times since issue, and it has not moved at all exactly while the stream holds
   the slot.
   */
  lemma HandleValidity(s: State, id: int)
    requires Inv(s) && id in s.issues
    ensures var issue := s.issues[id];
            issue.slot < |s.ids| &&
            var moved := s.moves[issue.slot] - issue.moves;
            && issue.handle != 0 && issue.handle % 65536 == issue.slot + 1
            && moved >= 0 && (moved == 0 <==> id in s.ids)
            && (Validate(s, issue.handle) == if moved % GENERATIONS == 0 then Some(issue.slot) else None)
  {
    var issue := s.issues[id];
    var now := s.moves[issue.slot];
    assert issue.handle / 65536 == issue.moves % GENERATIONS;
    SameGeneration(issue.moves, now);
    if id in s.ids {
      var i :| 0 <= i < |s.ids| && s.ids[i] == id;
    }
  }

  lemma SameGeneration(a: nat, b: nat)
    requires a <= b
    ensures a % GENERATIONS == b % GENERATIONS <==> (b - a) % GENERATIONS == 0
  {
  }

  /**
   What an issued handle is worth in a later state: while the stream keeps its slot it validates, and
   once the slot has been cleared it does not validate again before the slot's generation has moved
   65536 times since issue. A stream never regains a slot.
   */
  ghost predicate HandleKept(s: State, t: State, id: int)
    requires Shaped(s) && id in s.issues
  {
    var issue := s.issues[id];
    && Shaped(t) && issue.slot < |t.ids|
    && id in t.issues && t.issues[id] == issue
    && (id in t.ids ==> id in s.ids && Validate(t, issue.handle) == Some(issue.slot))
    && (id !in t.ids && t.moves[issue.slot] < issue.moves + GENERATIONS ==> Validate(t, issue.handle) == None)
  }

  lemma HandleSafety(s: State, steps: seq<Step>, id: int)
    requires Inv(s) && id in s.issues && ScopedRun(s, steps)
    ensures AnyRun(s, steps) && HandleKept(s, Final(s, steps), id)
  {
    RunLater(s, steps);
    RunKeeps(s, steps);
    HandleLater(s, Final(s, steps), id);
  }

  lemma HandleLater(s: State, t: State, id: int)
    requires Inv(s) && Inv(t) && Later(s, t) && id in s.issues
    ensures HandleKept(s, t, id)
  {
    hide SlotsOk, IssuesOk, EndsOk, SentOk, FinishedOk, HandlesOk, CallsOk, Orderly, SlotLinks, CallLinks;
    HandleValidity(s, id);
    HandleValidity(t, id);
  }

  /** Every subscription callback is passed the handle that was issued for its stream. */
  lemma CallbackSeesIssuedHandle(slots: nat, steps: seq<Step>, j: nat)
    requires 1 <= slots <= UINT16_MAX && ScopedRun(InitState(slots), steps)
    ensures AnyRun(InitState(slots), steps)
    ensures var s := Final(InitState(slots), steps);
            j < |s.log| && s.log[j].MessageDelivered? ==>
              s.log[j].id in s.issues && s.issues[s.log[j].id].handle == s.log[j].handle
  {
    FromInit(slots, steps);
  }
}

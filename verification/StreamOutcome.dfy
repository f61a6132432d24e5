/**
 What each step does to the table, the calls and the log, said outright, and where the code that a
 call returns comes from.
 */
module StreamOutcome {
  import opened Common
  import opened StreamState
  import opened StreamInvariant
  import opened StreamTheorems
  import opened StreamScope
  import opened StreamZero

  /** Bit 1 of the message flags: the peer ends the stream. */
  predicate TerminateBit(pkt: Packet) {
    pkt.flags / 2 % 2 == 1
  }

  /** A slot that the packet is not for is emptied if its handle is closed, and otherwise left alone. */
  ghost predicate OthersClosed(s: State, t: State, i: nat, closes: seq<Handle>)
    requires Shaped(s)
  {
    && |t.ids| == |s.ids| && |t.handlers| == |s.ids| && |t.gens| == |s.ids|
    && forall j :: 0 <= j < |s.ids| && j != i ==>
         if CurrentHandle(s, j) in closes then t.ids[j] == 0 && t.handlers[j] == Empty
         else t.ids[j] == s.ids[j] && t.handlers[j] == s.handlers[j] && t.gens[j] == s.gens[j]
  }

  /** Nothing but TERMINATE packets, at most one per close. */
  ghost predicate CloseEvents(closed: seq<Event>, closes: seq<Handle>) {
    |closed| <= |closes| && forall e :: e in closed ==> e.TerminateSent?
  }

  lemma {:induction false} ClosesLog(s: State, handles: seq<Handle>) returns (closed: seq<Event>)
    requires Shaped(s)
    ensures CloseAll(s, handles).log == s.log + closed && CloseEvents(closed, handles)
    ensures CloseAll(s, handles).nextId == s.nextId && CloseAll(s, handles).issues == s.issues
    decreases |handles|
  {
    if handles == [] {
      closed := [];
      assert s.log + [] == s.log;
    } else {
      var t := CloseHandle(s, handles[0]);
      var rest := ClosesLog(t, handles[1..]);
      var first := t.log[|s.log|..];
      closed := first + rest;
      assert t.log == s.log + first;
      assert s.log + first + rest == s.log + (first + rest);
    }
  }

  lemma ClosesOthers(s: State, s1: State, i: nat, closes: seq<Handle>)
    requires Shaped(s) && Shaped(s1) && s1.ids == s.ids && s1.gens == s.gens && s1.handlers == s.handlers
    ensures OthersClosed(s, CloseAll(s1, closes), i, closes)
  {
    var t := CloseAll(s1, closes);
    forall j | 0 <= j < |s.ids| && j != i
      ensures if CurrentHandle(s, j) in closes then t.ids[j] == 0 && t.handlers[j] == Empty
              else t.ids[j] == s.ids[j] && t.handlers[j] == s.handlers[j] && t.gens[j] == s.gens[j]
    {
      CloseAllSlot(s1, closes, j);
    }
  }

  /**
   A packet for a live subscription. The slot stays subscribed exactly if the packet does not end the
   stream, the callback succeeds, and the callback does not close its own handle; otherwise it is
   empty. The callback is logged first with the slot's current handle, then what it closes, then the end
   of the stream: by the peer if the flag says so, by the client if only the callback failed.
   */
  lemma MessageOutcome(s: State, pkt: Packet, out: Outcome, i: nat, callback: nat) returns (closed: seq<Event>)
    requires Inv(s) && Possible(pkt, out) && i < |s.ids| && s.ids[i] == pkt.id > 0 && s.handlers[i] == Subscribed(callback)
    ensures var t := Apply(s, Receive(pkt, out)); var own := CurrentHandle(s, i) in out.closes;
            var live := !TerminateBit(pkt) && out.ret == Ok && !own;
            && OthersClosed(s, t, i, out.closes) && t.calls == s.calls && t.nextId == s.nextId && t.issues == s.issues
            && t.ids[i] == (if live then pkt.id else 0)
            && t.handlers[i] == (if live then Subscribed(callback) else Empty)
            && CloseEvents(closed, out.closes)
            && t.log == s.log + (if out.reached then [MessageDelivered(pkt.id, CurrentHandle(s, i), callback)] else []) + closed +
                        (if TerminateBit(pkt) then [TerminateReceived(pkt.id)]
                         else if out.ret != Ok then [TerminateSent(if own then 0 else pkt.id)]
                         else [])
  {
    hide SlotsOk, IssuesOk, EndsOk, SentOk, FinishedOk, HandlesOk, CallsOk, Orderly, SlotLinks, CallLinks, OthersClosed, CloseEvents;
    FoundSlot(s, pkt, i);
    var e := MessageDelivered(pkt.id, CurrentHandle(s, i), callback);
    var s1 := if out.reached then Append(s, e) else s;
    assert s.log + [] == s.log;
    closed := ClosesLog(s1, out.closes);
    CloseAllSlot(s1, out.closes, i);
    ClosesOthers(s, s1, i, out.closes);
    var s2 := CloseAll(s1, out.closes);
    OthersKept(s, s2, Dispatch(s, pkt, out), i, out.closes);
    assert s2.log + [] == s2.log;
  }

  /** The id's slot is the one that is found. */
  lemma FoundSlot(s: State, pkt: Packet, i: nat)
    requires Inv(s) && i < |s.ids| && s.ids[i] == pkt.id > 0
    ensures Target(s, pkt) == i
  {
    hide IssuesOk, EndsOk, SentOk, FinishedOk, HandlesOk, CallsOk, Orderly, SlotLinks, CallLinks;
    var j := Target(s, pkt);
    assert j <= i;
  }

  lemma OthersKept(s: State, t: State, u: State, i: nat, closes: seq<Handle>)
    requires Shaped(s) && OthersClosed(s, t, i, closes) && |u.ids| == |t.ids| && |u.handlers| == |t.handlers| && |u.gens| == |t.gens|
    requires forall j :: 0 <= j < |t.ids| && j != i ==> u.ids[j] == t.ids[j] && u.handlers[j] == t.handlers[j] && u.gens[j] == t.gens[j]
    ensures OthersClosed(s, u, i, closes)
  {
  }

  /**
   A packet for a waiting call. The call is completed with the code its handling returned; the slot is
   subscribed exactly if the packet does not end the stream, the handling succeeds and the call is a
   subscription, and is otherwise empty, ended by whichever side ends it.
   */
  lemma ResponseOutcome(s: State, pkt: Packet, out: Outcome, i: nat, call: nat) returns (closed: seq<Event>)
    requires Inv(s) && Possible(pkt, out) && i < |s.ids| && s.ids[i] == pkt.id > 0 && s.handlers[i] == Awaiting(call)
    ensures call in s.calls && s.calls[call].phase == Blocked
    ensures var t := Apply(s, Receive(pkt, out)); var own := CurrentHandle(s, i) in out.closes;
            var callback := s.calls[call].callback; var live := !TerminateBit(pkt) && out.ret == Ok && callback.Some?;
            && OthersClosed(s, t, i, out.closes) && t.nextId == s.nextId && t.issues == s.issues
            && t.calls == s.calls[call := s.calls[call].(phase := Ready(out.ret))]
            && t.ids[i] == (if live then pkt.id else 0)
            && t.handlers[i] == (if live then Subscribed(callback.value) else Empty)
            && CloseEvents(closed, out.closes)
            && t.log == s.log + (if out.reached then [ResponseDelivered(pkt.id, call)] else []) + closed +
                        (if TerminateBit(pkt) then [TerminateReceived(pkt.id)]
                         else if !live then [TerminateSent(if own then 0 else pkt.id)]
                         else []) + [Completed(call)]
  {
    hide SlotsOk, IssuesOk, EndsOk, SentOk, FinishedOk, HandlesOk, CallsOk, Orderly, CallLinks, OthersClosed, CloseEvents;
    FoundSlot(s, pkt, i);
    var e := ResponseDelivered(pkt.id, call);
    var s1 := if out.reached then Append(s, e) else s;
    assert s.log + [] == s.log;
    closed := ClosesLog(s1, out.closes);
    CloseAllSlot(s1, out.closes, i);
    ClosesOthers(s, s1, i, out.closes);
    var s2 := CloseAll(s1, out.closes);
    hide Settle, CloseAll;
    Settled(s2, i, call, pkt, out.ret);
    OthersKept(s, s2, Dispatch(s, pkt, out), i, out.closes);
  }

  /** The end of a response, on the table as the callback left it. */
  lemma Settled(s: State, i: nat, call: nat, pkt: Packet, ret: Error)
    requires Shaped(s) && i < |s.ids| && call in s.calls
    ensures var t := Settle(s, i, call, pkt, ret);
            var callback := s.calls[call].callback; var live := !TerminateBit(pkt) && ret == Ok && callback.Some?;
            && (forall j :: 0 <= j < |s.ids| && j != i ==> t.ids[j] == s.ids[j] && t.handlers[j] == s.handlers[j] && t.gens[j] == s.gens[j])
            && |t.ids| == |s.ids| && |t.handlers| == |s.ids| && |t.gens| == |s.ids| && t.nextId == s.nextId && t.issues == s.issues
            && t.calls == s.calls[call := s.calls[call].(phase := Ready(ret))]
            && t.ids[i] == (if live then pkt.id else 0)
            && t.handlers[i] == (if live then Subscribed(callback.value) else Empty)
            && t.log == s.log + (if TerminateBit(pkt) then [TerminateReceived(pkt.id)] else if !live then [TerminateSent(s.ids[i])] else [])
                        + [Completed(call)]
  {
    assert s.log + [] == s.log;
  }

  /** A packet whose id is not positive, or of no stream in the table, changes nothing. */
  lemma UnknownIgnored(s: State, pkt: Packet, out: Outcome)
    requires Inv(s) && Possible(pkt, out) && (pkt.id <= 0 || pkt.id !in s.ids)
    ensures Apply(s, Receive(pkt, out)) == s
  {
    hide SlotsOk, IssuesOk, EndsOk, SentOk, FinishedOk, HandlesOk, CallsOk, Orderly, SlotLinks, CallLinks;
    FoundIff(s.ids, pkt.id);
  }

  lemma FoundIff(ids: seq<int>, id: int)
    ensures Find(ids, id) < |ids| <==> id in ids
  {
    var r := Find(ids, id);
    if r < |ids| {
      assert ids[r] in ids;
    }
  }

  /**
   A new call takes the first free slot, moves its generation and waits there under the next id; if no
   slot is free it returns NOMEM and if the request cannot be sent it returns the code of the send and
   the slot is free again.
   */
  lemma StartOutcome(s: State, call: nat, callback: Option<nat>, sendRet: Error, i: nat)
    requires Inv(s) && Enabled(s, Start(call, callback, sendRet)) && i <= |s.ids|
    requires (forall j :: 0 <= j < i ==> s.ids[j] != 0) && (i < |s.ids| ==> s.ids[i] == 0)
    ensures var t := Apply(s, Start(call, callback, sendRet));
            && |t.ids| == |s.ids| && |t.handlers| == |s.ids| && |t.gens| == |s.ids|
            && (forall j :: 0 <= j < |s.ids| && j != i ==> t.ids[j] == s.ids[j] && t.handlers[j] == s.handlers[j] && t.gens[j] == s.gens[j])
            && call in t.calls && (forall c :: c in s.calls ==> c in t.calls && t.calls[c] == s.calls[c])
            && if i == |s.ids| then
                 t.log == s.log && t.nextId == s.nextId && t.calls[call].phase == Returned(NoMem)
               else
                 && t.nextId == s.nextId + 1 && t.calls[call].slot == i && t.calls[call].id == s.nextId
                 && t.calls[call].callback == callback
                 && if sendRet == Ok then
                      && t.ids[i] == s.nextId && t.handlers[i] == Awaiting(call) && t.gens[i] == (s.gens[i] + 1) % 65536
                      && t.calls[call].phase == Blocked && t.log == s.log + [RequestSent(s.nextId)]
                    else
                      && t.ids[i] == 0 && t.handlers[i] == Empty && t.gens[i] == (s.gens[i] + 2) % 65536
                      && t.calls[call].phase == Returned(sendRet) && t.log == s.log + [RequestFailed(s.nextId)]
  {
    hide IssuesOk, EndsOk, SentOk, FinishedOk, HandlesOk, CallsOk, Orderly, SlotLinks, CallLinks;
    assert Find(s.ids, 0) == i;
    if i < |s.ids| && sendRet != Ok {
      TwoMoves(s.gens[i]);
    }
  }

  lemma TwoMoves(g: nat)
    ensures ((g + 1) % 65536 + 1) % 65536 == (g + 2) % 65536
  {
  }

  /**
   Closing a handle: TERMINATE for whatever id the slot holds, and the slot is empty with its generation
   moved; a handle that is no slot's current one does nothing.
   */
  lemma CloseOutcome(s: State, handle: Handle, i: nat)
    requires Inv(s) && i < |s.ids|
    ensures var t := Apply(s, Close(handle));
            if handle == s.gens[i] * 65536 + i + 1 then
              && t.ids == s.ids[i := 0] && t.handlers == s.handlers[i := Empty] && t.gens == s.gens[i := (s.gens[i] + 1) % 65536]
              && t.log == s.log + [TerminateSent(s.ids[i])] && t.calls == s.calls && t.nextId == s.nextId
            else (forall j :: 0 <= j < |s.ids| ==> handle != s.gens[j] * 65536 + j + 1) ==> t == s
  {
    hide SlotsOk, IssuesOk, EndsOk, SentOk, FinishedOk, HandlesOk, CallsOk, Orderly, SlotLinks, CallLinks;
    ValidIsCurrent(s, handle);
    if Validate(s, handle).Some? {
      var j := Validate(s, handle).value;
      assert handle == CurrentHandle(s, j) == s.gens[j] * 65536 + j + 1;
    }
  }

  /** Waking and timing out only end the call; a timeout also closes the slot. */
  lemma ReturnOutcome(s: State, call: nat)
    requires Inv(s) && call in s.calls
    ensures s.calls[call].phase.Ready? ==>
              Apply(s, Wake(call)) == s.(calls := s.calls[call := s.calls[call].(phase := Returned(s.calls[call].phase.ret))])
    ensures Enabled(s, TimeOut(call)) ==>
              Apply(s, TimeOut(call)).calls == s.calls[call := s.calls[call].(phase := Returned(Timeout))]
  {
    hide SlotsOk, IssuesOk, EndsOk, SentOk, FinishedOk, HandlesOk, CallsOk, Orderly, SlotLinks, CallLinks;
  }

  // ---------- return codes ----------

  /** How one step changes what a call is doing. */
  ghost predicate PhaseStep(s: State, step: Step, t: State, c: nat) {
    if c !in s.calls then
      c in t.calls ==>
        && step.Start? && step.call == c
        && t.calls[c].phase == if 0 !in s.ids then Returned(NoMem) else if step.sendRet == Ok then Blocked else Returned(step.sendRet)
    else
      c in t.calls &&
      match step
      case Wake(call) =>
        if call == c then s.calls[c].phase.Ready? && t.calls[c].phase == Returned(s.calls[c].phase.ret) else t.calls[c] == s.calls[c]
      case TimeOut(call) => if call == c then t.calls[c].phase == Returned(Timeout) else t.calls[c] == s.calls[c]
      case Receive(pkt, out) => t.calls[c] == s.calls[c] || (Answers(s, step, c) && t.calls[c].phase == Ready(out.ret))
      case _ => t.calls[c] == s.calls[c]
  }

  /** The packet is for the slot in which the call is waiting. */
  ghost predicate Answers(s: State, step: Step, c: nat) {
    step.Receive? && exists i :: 0 <= i < |s.ids| && i < |s.handlers| && s.ids[i] == step.pkt.id > 0 && s.handlers[i] == Awaiting(c)
  }

  lemma PhaseSteps(s: State, step: Step, c: nat)
    requires Inv(s) && Enabled(s, step)
    ensures PhaseStep(s, step, Apply(s, step), c)
  {
    hide SlotsOk, IssuesOk, EndsOk, SentOk, FinishedOk, HandlesOk, CallsOk, Orderly, CallLinks, SlotLinks;
    if step.Start? {
      if Find(s.ids, 0) < |s.ids| {
        assert s.ids[Find(s.ids, 0)] in s.ids;
      }
    } else if step.Receive? {
      PhaseReceive(s, step.pkt, step.out, c);
    }
  }

  lemma PhaseReceive(s: State, pkt: Packet, out: Outcome, c: nat)
    requires Inv(s) && Possible(pkt, out)
    ensures PhaseStep(s, Receive(pkt, out), Dispatch(s, pkt, out), c)
  {
    hide SlotsOk, IssuesOk, EndsOk, SentOk, FinishedOk, HandlesOk, CallsOk, Orderly, CallLinks;
    var i := Target(s, pkt);
    if i < |s.ids| && s.handlers[i].Awaiting? && s.handlers[i].call == c {
      assert Answers(s, Receive(pkt, out), c);
    }
  }

  /** The state after the first `k` steps. */
  ghost function At(s: State, steps: seq<Step>, k: nat): (t: State)
    requires Inv(s) && ScopedRun(s, steps) && k <= |steps|
    ensures Inv(t) && (k < |steps| ==> Enabled(t, steps[k]))
    decreases |steps|
  {
    if k == 0 then s
    else
      StepKeeps(s, steps[0]);
      At(Apply(s, steps[0]), steps[1..], k - 1)
  }

  lemma {:induction false} AtNext(s: State, steps: seq<Step>, k: nat)
    requires Inv(s) && ScopedRun(s, steps) && k < |steps|
    ensures At(s, steps, k + 1) == Apply(At(s, steps, k), steps[k])
    decreases |steps|
  {
    hide Core, Linked, Apply, Enabled, Harmless;
    if k > 0 {
      StepKeeps(s, steps[0]);
      AtNext(Apply(s, steps[0]), steps[1..], k - 1);
    } else {
      StepKeeps(s, steps[0]);
      assert At(Apply(s, steps[0]), steps[1..], 0) == Apply(s, steps[0]);
    }
  }

  /** Why a call has the code `ret`: a step of the run gave it that code. */
  ghost predicate Gives(s: State, step: Step, c: nat, ret: Error) {
    match step
    case Start(call, _, sendRet) => call == c && c !in s.calls && ret == if 0 !in s.ids then NoMem else sendRet
    case TimeOut(call) => call == c && ret == Timeout
    case Receive(_, out) => Answers(s, step, c) && ret == out.ret
    case _ => false
  }

  lemma {:induction false} AtEnd(s: State, steps: seq<Step>)
    requires Inv(s) && ScopedRun(s, steps)
    ensures AnyRun(s, steps) && At(s, steps, |steps|) == Final(s, steps)
    decreases |steps|
  {
    hide Core, Linked, Apply, Enabled, Harmless;
    if steps != [] {
      StepKeeps(s, steps[0]);
      AtEnd(Apply(s, steps[0]), steps[1..]);
    }
  }

  /** The state of a run from the empty table after its first `k` steps. */
  ghost function RunAt(slots: nat, steps: seq<Step>, k: nat): State
    requires 1 <= slots <= UINT16_MAX && ScopedRun(InitState(slots), steps) && k <= |steps|
  {
    InitInv(slots);
    At(InitState(slots), steps, k)
  }

  /**
   In every scoped run, a call that has its answer or has returned has the code with which its
   response was handled, or TIMEOUT if it timed out, or NOMEM if the table was full when it started, or
   the code with which sending its request failed.
   */
  lemma {:induction false} CodeComesFrom(slots: nat, steps: seq<Step>, n: nat, c: nat) returns (k: nat)
    requires 1 <= slots <= UINT16_MAX && ScopedRun(InitState(slots), steps) && n <= |steps|
    requires c in RunAt(slots, steps, n).calls && RunAt(slots, steps, n).calls[c].phase != Blocked
    ensures k < n && Gives(RunAt(slots, steps, k), steps[k], c, Code(RunAt(slots, steps, n).calls[c].phase))
    ensures n == |steps| ==> AnyRun(InitState(slots), steps) && RunAt(slots, steps, n) == Final(InitState(slots), steps)
    decreases n
  {
    hide Core, Linked, Apply, Enabled, ScopedRun, Gives, PhaseStep, At, Explained;
    InitInv(slots);
    var s := InitState(slots);
    FirstState(s, steps);
    AtEnd(s, steps);
    assert n > 0;
    var t, step := At(s, steps, n - 1), steps[n - 1];
    AtNext(s, steps, n - 1);
    PhaseSteps(t, step, c);
    NewCode(t, step, Apply(t, step), c);
    if Explained(t, Apply(t, step), c) {
      ExplainedMeans(t, Apply(t, step), c);
      k := CodeComesFrom(slots, steps, n - 1, c);
    } else {
      k := n - 1;
    }
  }

  lemma NewCode(s: State, step: Step, t: State, c: nat)
    requires PhaseStep(s, step, t, c) && c in t.calls && t.calls[c].phase != Blocked
    ensures Explained(s, t, c) || Gives(s, step, c, Code(t.calls[c].phase))
  {
    hide Answers;
  }

  lemma ExplainedMeans(s: State, t: State, c: nat)
    requires Explained(s, t, c)
    ensures c in s.calls && c in t.calls && s.calls[c].phase != Blocked && Code(s.calls[c].phase) == Code(t.calls[c].phase)
  {
  }

  lemma FirstState(s: State, steps: seq<Step>)
    requires Inv(s) && ScopedRun(s, steps)
    ensures At(s, steps, 0) == s
  {
  }

  /** The code was already there: it is kept, or carried from Ready to Returned. */
  ghost predicate Explained(s: State, t: State, c: nat) {
    c in s.calls && c in t.calls && s.calls[c].phase != Blocked && t.calls[c].phase != Blocked &&
    Code(s.calls[c].phase) == Code(t.calls[c].phase)
  }

  function Code(p: Phase): Error {
    if p.Ready? then p.ret else if p.Returned? then p.result else Ok
  }
}

/**
 The stream table of the IPC client as a transition system.

 Everything that happens while `stream_state_mtx` is held is one step: starting a
 call, dispatching one received packet (including whatever the user callback closes),
 waking a blocked caller, timing out, and closing a subscription handle.
 */
module StreamState {
  import opened Common

  /** `StreamHandler`: a null `fn` with a context is a caller waiting for its response. */
  datatype Handler =
    | Empty
    | Awaiting(call: nat)
    | Subscribed(callback: nat)

  /** What a call of ggipc_subscribe is doing; its ResponseHandlerCtx lives until it returns. */
  datatype Phase =
    | Blocked
    | Ready(ret: Error)
    | Returned(result: Error)

  datatype Call = Call(slot: nat, id: int, callback: Option<nat>, phase: Phase)

  /** The handle handed out for a stream and how often its slot's generation had moved by then. */
  datatype Issue = Issue(slot: nat, handle: Handle, moves: nat)

  datatype Event =
    | RequestSent(id: int)
    | RequestFailed(id: int)
    | TerminateSent(id: int)
    | TerminateReceived(id: int)
    | ResponseDelivered(id: int, call: nat)
    | MessageDelivered(id: int, handle: Handle, callback: nat)
    | Completed(call: nat)

  /**
   `ids`, `gens`, `handlers` and `nextId` are the C globals. `calls` holds the stack frames of
   ggipc_subscribe. `moves`, `issues` and `log` are history.
   */
  datatype State = State(
    ids: seq<int>,
    gens: seq<nat>,
    handlers: seq<Handler>,
    nextId: int,
    calls: map<nat, Call>,
    moves: seq<nat>,
    issues: map<int, Issue>,
    log: seq<Event>)

  const GENERATIONS := 65536

  /** GgIpcSubscriptionHandle: generation in the high half, slot index plus one in the low half. */
  type Handle = h: int | 0 <= h < 0x1_0000_0000

  /** A received packet's common headers. */
  datatype Packet = Packet(id: int, kind: int, flags: int)

  const APPLICATION_MESSAGE := 0
  const APPLICATION_ERROR := 1

  predicate HasTerminate(flags: int) {
    flags / 2 % 2 == 1
  }

  /**
   What decoding the payload and running the user callback amounted to: whether the callback was
   reached, the handles it passed to ggipc_close_subscription in order, and the code returned.
   */
  datatype Outcome = Outcome(reached: bool, closes: seq<Handle>, ret: Error)

  /** The outcomes the code can produce for a packet (pass_response_to_user_callback, call_sub_callback). */
  predicate Possible(pkt: Packet, out: Outcome) {
    && (!out.reached ==> out.closes == [])
    && (pkt.kind == APPLICATION_ERROR ==> out.ret != Ok)
    && (pkt.kind != APPLICATION_ERROR && pkt.kind != APPLICATION_MESSAGE ==> !out.reached && out.ret == Failure)
  }

  datatype Step =
    | Start(call: nat, callback: Option<nat>, sendRet: Error)
    | Receive(pkt: Packet, out: Outcome)
    | Wake(call: nat)
    | TimeOut(call: nat)
    | Close(handle: Handle)

  // ---------- table primitives ----------

  predicate Shaped(s: State) {
    && 1 <= |s.ids| <= UINT16_MAX
    && |s.gens| == |s.ids| && |s.handlers| == |s.ids| && |s.moves| == |s.ids|
    && forall i :: 0 <= i < |s.gens| ==> s.gens[i] < GENERATIONS
  }

  function InitState(slots: nat): (s: State)
    requires 1 <= slots <= UINT16_MAX
    ensures Shaped(s)
  {
    State(seq(slots, _ => 0), seq(slots, _ => 0), seq(slots, _ => Empty), 1, map[], seq(slots, _ => 0), map[], [])
  }

  /** The first slot at or after `from` holding `id`, or the table size. */
  function Find(ids: seq<int>, id: int, from: nat := 0): (r: nat)
    requires from <= |ids|
    ensures from <= r <= |ids|
    ensures r < |ids| ==> ids[r] == id
    ensures forall j :: from <= j < r ==> ids[j] != id
    decreases |ids| - from
  {
    if from == |ids| || ids[from] == id then from else Find(ids, id, from + 1)
  }

  function Append(s: State, e: Event): State {
    s.(log := s.log + [e])
  }

  function Bump(s: State, i: nat): State
    requires Shaped(s) && i < |s.ids|
  {
    s.(gens := s.gens[i := (s.gens[i] + 1) % GENERATIONS], moves := s.moves[i := s.moves[i] + 1])
  }

  function SetIndex(s: State, i: nat, id: int, h: Handler): State
    requires Shaped(s) && i < |s.ids|
  {
    s.(ids := s.ids[i := id], handlers := s.handlers[i := h])
  }

  function Clear(s: State, i: nat): (r: State)
    requires Shaped(s) && i < |s.ids|
    ensures Shaped(r) && |r.ids| == |s.ids|
  {
    SetIndex(Bump(s, i), i, 0, Empty)
  }

  /** close_stream: send TERMINATE for whatever id the slot holds, then clear the slot. */
  function CloseStream(s: State, i: nat): (r: State)
    requires Shaped(s) && i < |s.ids|
    ensures Shaped(r) && |r.ids| == |s.ids|
  {
    Clear(Append(s, TerminateSent(s.ids[i])), i)
  }

  function MakeHandle(gen: nat, i: nat): Handle
    requires gen < GENERATIONS && i < UINT16_MAX
  {
    gen * 65536 + (i + 1)
  }

  function CurrentHandle(s: State, i: nat): Handle
    requires Shaped(s) && i < |s.ids|
  {
    MakeHandle(s.gens[i], i)
  }

  /** validate_handle; the index wraps to 65535 when the low half of the handle is 0. */
  function Validate(s: State, handle: Handle): (r: Option<nat>)
    requires Shaped(s)
    ensures r.Some? ==> r.value < |s.ids|
  {
    var index := (handle % 65536 + 65535) % 65536;
    if index >= |s.ids| || handle / 65536 != s.gens[index] then None else Some(index)
  }

  function CloseHandle(s: State, handle: Handle): (r: State)
    requires Shaped(s)
    ensures Shaped(r) && |r.ids| == |s.ids| && r.calls == s.calls
  {
    match Validate(s, handle)
    case None => s
    case Some(i) => CloseStream(s, i)
  }

  function CloseAll(s: State, handles: seq<Handle>): (r: State)
    requires Shaped(s)
    ensures Shaped(r) && |r.ids| == |s.ids| && r.calls == s.calls
    decreases |handles|
  {
    if handles == [] then s else CloseAll(CloseHandle(s, handles[0]), handles[1..])
  }

  // ---------- steps ----------

  /** The slot, id and handle that a new call is given. */
  function Claimed(s: State, i: nat, call: nat): (t: State)
    requires Shaped(s) && i < |s.ids|
    ensures Shaped(t)
  {
    var t := SetIndex(Bump(s, i), i, s.nextId, Awaiting(call)).(nextId := s.nextId + 1);
    t.(issues := t.issues[s.nextId := Issue(i, CurrentHandle(t, i), t.moves[i])])
  }

  function StartCall(s: State, call: nat, callback: Option<nat>, sendRet: Error): (r: State)
    requires Shaped(s)
    ensures Shaped(r) && |r.ids| == |s.ids|
  {
    var i, id := Find(s.ids, 0), s.nextId;
    if i == |s.ids| then
      s.(calls := s.calls[call := Call(0, 0, callback, Returned(NoMem))])
    else if sendRet == Ok then
      Append(Claimed(s, i, call), RequestSent(id)).(calls := s.calls[call := Call(i, id, callback, Blocked)])
    else
      Clear(Append(Claimed(s, i, call), RequestFailed(id)), i).(
      calls := s.calls[call := Call(i, id, callback, Returned(sendRet))])
  }

  /** The end of response_handler: the slot's fate, then the completion of the waiting call. */
  function Settle(s: State, i: nat, call: nat, pkt: Packet, ret: Error): (r: State)
    requires Shaped(s) && i < |s.ids| && call in s.calls
    ensures Shaped(r) && |r.ids| == |s.ids|
  {
    var t :=
      if HasTerminate(pkt.flags) then Clear(Append(s, TerminateReceived(pkt.id)), i)
      else if ret != Ok || s.calls[call].callback.None? then CloseStream(s, i)
      else SetIndex(s, i, pkt.id, Subscribed(s.calls[call].callback.value));
    Append(t, Completed(call)).(calls := s.calls[call := s.calls[call].(phase := Ready(ret))])
  }

  function Respond(s: State, i: nat, call: nat, pkt: Packet, out: Outcome): (r: State)
    requires Shaped(s) && i < |s.ids| && call in s.calls
    ensures Shaped(r) && |r.ids| == |s.ids|
  {
    var s1 := if out.reached then Append(s, ResponseDelivered(pkt.id, call)) else s;
    Settle(CloseAll(s1, out.closes), i, call, pkt, out.ret)
  }

  /** A packet for a live subscription; the slot is cleared again even if the callback closed it. */
  function Deliver(s: State, i: nat, callback: nat, pkt: Packet, out: Outcome): (r: State)
    requires Shaped(s) && i < |s.ids|
    ensures Shaped(r) && |r.ids| == |s.ids|
  {
    var s1 := if out.reached then Append(s, MessageDelivered(pkt.id, CurrentHandle(s, i), callback)) else s;
    var s2 := CloseAll(s1, out.closes);
    if HasTerminate(pkt.flags) then Clear(Append(s2, TerminateReceived(pkt.id)), i)
    else if out.ret != Ok then CloseStream(s2, i)
    else s2
  }

  /** The slot that a packet is handed to, or the table size. */
  function Target(s: State, pkt: Packet): (i: nat)
    ensures i <= |s.ids| && (i < |s.ids| ==> s.ids[i] == pkt.id > 0)
  {
    if pkt.id <= 0 then |s.ids| else Find(s.ids, pkt.id)
  }

  function Dispatch(s: State, pkt: Packet, out: Outcome): (r: State)
    requires Shaped(s)
    ensures Shaped(r) && |r.ids| == |s.ids|
  {
    var i := Target(s, pkt);
    if i == |s.ids| then s
    else match s.handlers[i]
      case Empty => s
      case Awaiting(call) => if call in s.calls then Respond(s, i, call, pkt, out) else s
      case Subscribed(callback) => Deliver(s, i, callback, pkt, out)
  }

  /** The blocked caller sees ETIMEDOUT and closes the slot it was given, whoever holds it now. */
  function Expire(s: State, call: nat): (r: State)
    requires Shaped(s) && call in s.calls && s.calls[call].slot < |s.ids|
    ensures Shaped(r) && |r.ids| == |s.ids|
  {
    CloseStream(s, s.calls[call].slot).(calls := s.calls[call := s.calls[call].(phase := Returned(Timeout))])
  }

  function Wakeup(s: State, call: nat): State
    requires call in s.calls && s.calls[call].phase.Ready?
  {
    s.(calls := s.calls[call := s.calls[call].(phase := Returned(s.calls[call].phase.ret))])
  }

  /** What the code itself allows: the call is new, or really is in its wait loop. */
  predicate Enabled(s: State, step: Step)
    requires Shaped(s)
  {
    match step
    case Start(call, _, _) => call !in s.calls
    case Receive(pkt, out) => Possible(pkt, out)
    case Wake(call) => call in s.calls && s.calls[call].phase.Ready?
    case TimeOut(call) => call in s.calls && !s.calls[call].phase.Returned? && s.calls[call].slot < |s.ids|
    case Close(_) => true
  }

  function Apply(s: State, step: Step): (r: State)
    requires Shaped(s) && Enabled(s, step)
    ensures Shaped(r) && |r.ids| == |s.ids|
  {
    match step
    case Start(call, callback, sendRet) => StartCall(s, call, callback, sendRet)
    case Receive(pkt, out) => Dispatch(s, pkt, out)
    case Wake(call) => Wakeup(s, call)
    case TimeOut(call) => Expire(s, call)
    case Close(handle) => CloseHandle(s, handle)
  }

  // ---------- the scope of the run properties ----------

  /** The handle is not the current handle of a call that is still waiting. */
  predicate NotWaiting(s: State, handle: Handle)
    requires Shaped(s)
  {
    forall i :: 0 <= i < |s.ids| && s.handlers[i].Awaiting? ==> handle != CurrentHandle(s, i)
  }

  /** A response that leaves its slot subscribed. */
  predicate Subscribes(s: State, i: nat, pkt: Packet, out: Outcome)
    requires Shaped(s) && i < |s.ids|
  {
    && s.handlers[i].Awaiting? && s.handlers[i].call in s.calls
    && !HasTerminate(pkt.flags) && out.ret == Ok && s.calls[s.handlers[i].call].callback.Some?
  }

  /**
   The callback run for a packet closes no handle of a waiting call, except that of the very call it
   answers if the response ends that call's stream anyway.
   */
  predicate ClosesHarmless(s: State, pkt: Packet, out: Outcome)
    requires Shaped(s)
  {
    var i := Target(s, pkt);
    i < |s.ids| ==>
      forall j :: 0 <= j < |s.ids| && s.handlers[j].Awaiting? && CurrentHandle(s, j) in out.closes ==>
        j == i && !Subscribes(s, i, pkt, out)
  }

  /**
   What a client and the scheduler must respect: a wait that has its answer does not time out after
   its slot was given to another waiting call, and nobody closes the handle of a call that is still
   waiting.
   */
  predicate Harmless(s: State, step: Step)
    requires Shaped(s)
  {
    match step
    case Start(_, _, _) => true
    case Receive(pkt, out) => ClosesHarmless(s, pkt, out)
    case Wake(_) => true
    case TimeOut(call) =>
      call in s.calls && s.calls[call].slot < |s.ids| &&
      (s.calls[call].phase.Blocked? || !s.handlers[s.calls[call].slot].Awaiting?)
    case Close(handle) => NotWaiting(s, handle)
  }

  /** In addition, stream ids do not run out. */
  predicate InScope(s: State, step: Step)
    requires Shaped(s)
  {
    Harmless(s, step) && (step.Start? ==> s.nextId < INT32_MAX)
  }

  predicate ScopedRun(s: State, steps: seq<Step>)
    requires Shaped(s)
    decreases |steps|
  {
    steps == [] ||
    (Enabled(s, steps[0]) && InScope(s, steps[0]) && ScopedRun(Apply(s, steps[0]), steps[1..]))
  }

  predicate AnyRun(s: State, steps: seq<Step>)
    requires Shaped(s)
    decreases |steps|
  {
    steps == [] || (Enabled(s, steps[0]) && AnyRun(Apply(s, steps[0]), steps[1..]))
  }

  function Final(s: State, steps: seq<Step>): (r: State)
    requires Shaped(s) && AnyRun(s, steps)
    ensures Shaped(r) && |r.ids| == |s.ids|
    decreases |steps|
  {
    if steps == [] then s else Final(Apply(s, steps[0]), steps[1..])
  }
}

/**
 What every scoped run of the stream table keeps, and what that means for calls, streams and handles.
 */
module StreamInvariant {
  import opened Common
  import opened StreamState

  // ---------- reading the log ----------

  /** The stream ids that an event ends. */
  function Ends(e: Event): set<int> {
    match e
    case TerminateSent(id) => {id}
    case TerminateReceived(id) => {id}
    case _ => {}
  }

  function Fails(e: Event): set<int> {
    if e.RequestFailed? then {e.id} else {}
  }

  function Finishes(e: Event): set<nat> {
    if e.Completed? then {e.call} else {}
  }

  /** The packet reached a user callback. */
  predicate Reaches(e: Event, id: int) {
    (e.ResponseDelivered? || e.MessageDelivered?) && e.id == id
  }

  function Ended(log: seq<Event>): set<int> {
    if log == [] then {} else Ended(log[..|log| - 1]) + Ends(log[|log| - 1])
  }

  function Failed(log: seq<Event>): set<int> {
    if log == [] then {} else Failed(log[..|log| - 1]) + Fails(log[|log| - 1])
  }

  function Finished(log: seq<Event>): set<nat> {
    if log == [] then {} else Finished(log[..|log| - 1]) + Finishes(log[|log| - 1])
  }

  /** No delivery after the end of a stream, and no second completion of a call. */
  predicate Orderly(log: seq<Event>) {
    log == [] ||
    (var init, e := log[..|log| - 1], log[|log| - 1];
     && Orderly(init)
     && (e.ResponseDelivered? || e.MessageDelivered? ==> e.id !in Ended(init))
     && (e.Completed? ==> e.call !in Finished(init)))
  }

  lemma Snoc(log: seq<Event>, e: Event)
    ensures Ended(log + [e]) == Ended(log) + Ends(e)
    ensures Failed(log + [e]) == Failed(log) + Fails(e)
    ensures Finished(log + [e]) == Finished(log) + Finishes(e)
    ensures Orderly(log + [e]) <==>
              && Orderly(log)
              && (e.ResponseDelivered? || e.MessageDelivered? ==> e.id !in Ended(log))
              && (e.Completed? ==> e.call !in Finished(log))
  {
    assert (log + [e])[..|log|] == log;
  }

  lemma {:induction false} EndedAt(log: seq<Event>, i: nat)
    requires i < |log|
    ensures Ends(log[i]) <= Ended(log) && Finishes(log[i]) <= Finished(log)
  {
    if i < |log| - 1 {
      EndedAt(log[..|log| - 1], i);
    }
  }

  /** The recursive reading of the log says what it should about any two positions. */
  lemma {:induction false} OrderlyMeans(log: seq<Event>, i: nat, j: nat, id: int)
    requires Orderly(log) && i < j < |log|
    ensures id in Ends(log[i]) ==> !Reaches(log[j], id)
    ensures log[i].Completed? && log[j].Completed? ==> log[i].call != log[j].call
  {
    var init := log[..|log| - 1];
    if j < |log| - 1 {
      OrderlyMeans(init, i, j, id);
    } else {
      EndedAt(init, i);
    }
  }

  // ---------- the invariant ----------

  ghost predicate SlotsOk(ids: seq<int>, gens: seq<nat>, handlers: seq<Handler>, moves: seq<nat>, nextId: int)
    requires |gens| == |ids| && |handlers| == |ids| && |moves| == |ids|
  {
    && nextId >= 1
    && (forall i :: 0 <= i < |ids| ==> 0 <= ids[i] < nextId)
    && (forall i :: 0 <= i < |ids| ==> (ids[i] == 0 <==> handlers[i] == Empty))
    && (forall i, j :: 0 <= i < j < |ids| && ids[i] != 0 ==> ids[i] != ids[j])
    && (forall i :: 0 <= i < |ids| ==> gens[i] == moves[i] % GENERATIONS)
  }

  /** Every waiting slot belongs to a blocked call that knows that slot. */
  ghost predicate SlotLinks(handlers: seq<Handler>, calls: map<nat, Call>, except: Option<nat>) {
    forall i :: 0 <= i < |handlers| && handlers[i].Awaiting? && Some(handlers[i].call) != except ==>
      var c := handlers[i].call;
      c in calls && calls[c].phase == Blocked && calls[c].slot == i
  }

  /** Every blocked call still has its slot. */
  ghost predicate CallLinks(ids: seq<int>, handlers: seq<Handler>, calls: map<nat, Call>, except: Option<nat>)
    requires |handlers| == |ids|
  {
    forall c :: c in calls && calls[c].phase == Blocked && Some(c) != except ==>
      var i := calls[c].slot;
      i < |ids| && ids[i] == calls[c].id && handlers[i] == Awaiting(c)
  }

  /** Waiting slots and blocked calls pair up, `except` for a call whose response is being handled. */
  ghost predicate Linked(s: State, except: Option<nat>)
    requires Shaped(s)
  {
    SlotLinks(s.handlers, s.calls, except) && CallLinks(s.ids, s.handlers, s.calls, except)
  }

  ghost predicate IssuesOk(ids: seq<int>, moves: seq<nat>, issues: map<int, Issue>, nextId: int)
    requires |moves| == |ids| <= UINT16_MAX
  {
    && (forall id :: id in issues <==> 1 <= id < nextId)
    && (forall id :: id in issues ==>
          && issues[id].slot < |ids|
          && issues[id].handle == MakeHandle(issues[id].moves % GENERATIONS, issues[id].slot)
          && issues[id].moves <= moves[issues[id].slot]
          && (ids[issues[id].slot] == id <==> issues[id].moves == moves[issues[id].slot]))
    && (forall i :: 0 <= i < |ids| && ids[i] != 0 ==> ids[i] in issues && issues[ids[i]].slot == i)
  }

  /** A stream that holds a slot has not ended; one that lost its slot ended, or was never sent. */
  ghost predicate EndsOk(ids: seq<int>, nextId: int, log: seq<Event>) {
    && (forall i :: 0 <= i < |ids| && ids[i] != 0 ==> ids[i] !in Ended(log))
    && (forall id :: id in Ended(log) ==> id < nextId)
    && (forall id :: 1 <= id < nextId && id !in ids ==> id in Ended(log) || id in Failed(log))
  }

  /** A request that went out did not also fail. */
  ghost predicate SentOk(nextId: int, log: seq<Event>) {
    && (forall id :: id in Failed(log) ==> id < nextId)
    && (forall j :: 0 <= j < |log| && log[j].RequestSent? ==> 1 <= log[j].id < nextId && log[j].id !in Failed(log))
  }

  ghost predicate FinishedOk(calls: map<nat, Call>, log: seq<Event>) {
    forall c :: c in Finished(log) ==> c in calls && calls[c].phase != Blocked
  }

  ghost predicate HandlesOk(issues: map<int, Issue>, log: seq<Event>) {
    forall j :: 0 <= j < |log| && log[j].MessageDelivered? ==>
      log[j].id in issues && log[j].handle == issues[log[j].id].handle
  }

  /** A call that has not returned knows the slot that was issued for its stream. */
  ghost predicate CallsOk(calls: map<nat, Call>, issues: map<int, Issue>) {
    forall c :: c in calls && !calls[c].phase.Returned? ==>
      calls[c].id in issues && issues[calls[c].id].slot == calls[c].slot
  }

  ghost predicate Core(s: State)
    requires Shaped(s)
  {
    && SlotsOk(s.ids, s.gens, s.handlers, s.moves, s.nextId)
    && IssuesOk(s.ids, s.moves, s.issues, s.nextId)
    && EndsOk(s.ids, s.nextId, s.log)
    && SentOk(s.nextId, s.log)
    && FinishedOk(s.calls, s.log)
    && HandlesOk(s.issues, s.log)
    && CallsOk(s.calls, s.issues)
    && Orderly(s.log)
  }

  ghost predicate Inv(s: State) {
    Shaped(s) && Core(s) && Linked(s, None)
  }

  // ---------- every primitive keeps it ----------

  lemma InitInv(slots: nat)
    requires 1 <= slots <= UINT16_MAX
    ensures Inv(InitState(slots))
  {
  }

  lemma NextGeneration(moves: nat)
    ensures (moves % GENERATIONS + 1) % GENERATIONS == (moves + 1) % GENERATIONS
  {
  }

  lemma ClearIds(s: State, i: nat, id: int)
    requires Shaped(s) && i < |s.ids| && id in s.ids && id != s.ids[i]
    ensures id in Clear(s, i).ids
  {
    var j :| 0 <= j < |s.ids| && s.ids[j] == id;
    assert Clear(s, i).ids[j] == id;
  }

  lemma ClearSlots(s: State, i: nat)
    requires Shaped(s) && i < |s.ids| && SlotsOk(s.ids, s.gens, s.handlers, s.moves, s.nextId)
    ensures var t := Clear(s, i); SlotsOk(t.ids, t.gens, t.handlers, t.moves, t.nextId)
  {
    NextGeneration(s.moves[i]);
  }

  lemma ClearIssues(s: State, i: nat)
    requires Shaped(s) && i < |s.ids| && IssuesOk(s.ids, s.moves, s.issues, s.nextId)
    ensures var t := Clear(s, i); IssuesOk(t.ids, t.moves, t.issues, t.nextId)
  {
  }

  lemma ClearEnds(s: State, i: nat, e: Event)
    requires Shaped(s) && i < |s.ids| && EndsOk(s.ids, s.nextId, s.log)
    requires e.TerminateSent? || e.TerminateReceived?
    requires e.id < s.nextId && (s.ids[i] == 0 || s.ids[i] == e.id)
    requires forall j :: 0 <= j < |s.ids| && j != i && s.ids[j] != 0 ==> s.ids[j] != e.id
    ensures EndsOk(s.ids[i := 0], s.nextId, s.log + [e])
  {
    var t := Clear(Append(s, e), i);
    Snoc(s.log, e);
    forall id | 1 <= id < s.nextId && id !in t.ids ensures id in Ended(t.log) || id in Failed(t.log) {
      if id in s.ids && id != s.ids[i] {
        ClearIds(s, i, id);
      }
    }
  }

  lemma ClearLinks(s: State, i: nat, except: Option<nat>)
    requires Shaped(s) && i < |s.ids| && Linked(s, except)
    requires s.handlers[i].Awaiting? ==> Some(s.handlers[i].call) == except
    ensures Linked(Clear(s, i), except)
  {
  }

  /** Clearing a slot while logging the end of whatever stream it held. */
  lemma ClearKeeps(s: State, i: nat, e: Event, except: Option<nat>)
    requires Shaped(s) && i < |s.ids| && Core(s) && Linked(s, except)
    requires s.handlers[i].Awaiting? ==> Some(s.handlers[i].call) == except
    requires e.TerminateSent? || e.TerminateReceived?
    requires e.id < s.nextId && (s.ids[i] == 0 || s.ids[i] == e.id)
    requires forall j :: 0 <= j < |s.ids| && j != i && s.ids[j] != 0 ==> s.ids[j] != e.id
    ensures Core(Clear(Append(s, e), i)) && Linked(Clear(Append(s, e), i), except)
  {
    hide SlotsOk, IssuesOk, EndsOk, SlotLinks, CallLinks;
    ClearSlots(s, i);
    ClearIssues(s, i);
    Snoc(s.log, e);
    ClearEnds(s, i, e);
    ClearLinks(Append(s, e), i, except);
  }

  lemma CloseKeeps(s: State, i: nat, except: Option<nat>)
    requires Shaped(s) && i < |s.ids| && Core(s) && Linked(s, except)
    requires s.handlers[i].Awaiting? ==> Some(s.handlers[i].call) == except
    ensures Core(CloseStream(s, i)) && Linked(CloseStream(s, i), except)
  {
    ClearKeeps(s, i, TerminateSent(s.ids[i]), except);
  }

  /** Among the handles are none of waiting calls, `except` that of one call. */
  ghost predicate ClosesOnly(s: State, handles: seq<Handle>, except: Option<nat>)
    requires Shaped(s)
  {
    forall j :: 0 <= j < |s.ids| && s.handlers[j].Awaiting? && CurrentHandle(s, j) in handles ==>
      Some(s.handlers[j].call) == except
  }

  lemma CloseHandleKeeps(s: State, handle: Handle, except: Option<nat>)
    requires Shaped(s) && Core(s) && Linked(s, except)
    requires ClosesOnly(s, [handle], except)
    ensures Core(CloseHandle(s, handle)) && Linked(CloseHandle(s, handle), except)
  {
    if Validate(s, handle).Some? {
      var i := Validate(s, handle).value;
      ValidIsCurrent(s, handle);
      assert handle in [handle];
      CloseKeeps(s, i, except);
    }
  }

  /** A handle that validates is, in 32 bits, the current handle of the slot it names. */
  lemma ValidIsCurrent(s: State, handle: Handle)
    requires Shaped(s)
    ensures forall i :: 0 <= i < |s.ids| ==> (Validate(s, handle) == Some(i) <==> handle == CurrentHandle(s, i))
  {
  }

  /** What a callback does to the table by closing handles. */
  ghost predicate ClosedSome(s: State, t: State)
    requires Shaped(s)
  {
    && Shaped(t) && |t.ids| == |s.ids|
    && t.nextId == s.nextId && t.calls == s.calls && t.issues == s.issues
    && (forall i :: 0 <= i < |s.ids| ==> (t.ids[i] == s.ids[i] && t.handlers[i] == s.handlers[i]) || (t.ids[i] == 0 && t.handlers[i] == Empty))
  }

  lemma ClosesTail(s: State, handles: seq<Handle>, except: Option<nat>)
    requires Shaped(s) && handles != [] && ClosesOnly(s, handles, except)
    ensures ClosesOnly(s, [handles[0]], except) && ClosesOnly(CloseHandle(s, handles[0]), handles[1..], except)
    ensures ClosedSome(s, CloseHandle(s, handles[0]))
  {
    ValidIsCurrent(s, handles[0]);
    assert handles[0] in handles;
  }

  lemma {:induction false} CloseAllKeeps(s: State, handles: seq<Handle>, except: Option<nat>)
    requires Shaped(s) && Core(s) && Linked(s, except) && ClosesOnly(s, handles, except)
    ensures Core(CloseAll(s, handles)) && Linked(CloseAll(s, handles), except)
    ensures ClosedSome(s, CloseAll(s, handles))
    decreases |handles|
  {
    hide Core, Linked, ClosesOnly, CloseHandle;
    if handles != [] {
      ClosesTail(s, handles, except);
      CloseHandleKeeps(s, handles[0], except);
      CloseAllKeeps(CloseHandle(s, handles[0]), handles[1..], except);
    }
  }

  /** A run of closes empties an occupied slot exactly when the slot's current handle is among them. */
  lemma {:induction false} CloseAllSlot(s: State, handles: seq<Handle>, i: nat)
    requires Shaped(s) && i < |s.ids|
    ensures var t := CloseAll(s, handles);
            if CurrentHandle(s, i) in handles then t.ids[i] == 0 && t.handlers[i] == Empty
            else t.ids[i] == s.ids[i] && t.handlers[i] == s.handlers[i] && t.gens[i] == s.gens[i]
    decreases |handles|
  {
    if handles != [] {
      var h := handles[0];
      ValidIsCurrent(s, h);
      CloseAllSlot(CloseHandle(s, h), handles[1..], i);
      if h == CurrentHandle(s, i) {
        CloseAllEmpty(CloseHandle(s, h), handles[1..], i);
      }
    }
  }

  lemma {:induction false} CloseAllEmpty(s: State, handles: seq<Handle>, i: nat)
    requires Shaped(s) && i < |s.ids| && s.ids[i] == 0 && s.handlers[i] == Empty
    ensures CloseAll(s, handles).ids[i] == 0 && CloseAll(s, handles).handlers[i] == Empty
    decreases |handles|
  {
    if handles != [] {
      CloseAllEmpty(CloseHandle(s, handles[0]), handles[1..], i);
    }
  }

  lemma AppendDelivery(s: State, e: Event, except: Option<nat>)
    requires Shaped(s) && Core(s) && Linked(s, except)
    requires e.ResponseDelivered? || (e.MessageDelivered? && e.id in s.issues && e.handle == s.issues[e.id].handle)
    requires e.id != 0 && e.id in s.ids
    ensures Core(Append(s, e)) && Linked(Append(s, e), except)
  {
    hide SlotsOk, IssuesOk, CallsOk, SlotLinks, CallLinks;
    Snoc(s.log, e);
  }

  lemma DeliverKeeps(s: State, i: nat, callback: nat, pkt: Packet, out: Outcome)
    requires Inv(s) && i < |s.ids| && s.ids[i] == pkt.id > 0 && s.handlers[i] == Subscribed(callback)
    requires ClosesOnly(s, out.closes, None)
    ensures Inv(Deliver(s, i, callback, pkt, out))
  {
    var e := MessageDelivered(pkt.id, CurrentHandle(s, i), callback);
    var s1 := if out.reached then Append(s, e) else s;
    if out.reached {
      AppendDelivery(s, e, None);
    }
    CloseAllKeeps(s1, out.closes, None);
    var s2 := CloseAll(s1, out.closes);
    if HasTerminate(pkt.flags) {
      ClearKeeps(s2, i, TerminateReceived(pkt.id), None);
    } else if out.ret != Ok {
      CloseKeeps(s2, i, None);
    }
  }

  /** Completing the call whose slot has just been cleared or turned into a subscription. */
  lemma CompleteKeeps(s: State, call: nat, ret: Error)
    requires Shaped(s) && Core(s) && Linked(s, Some(call))
    requires call in s.calls && s.calls[call].phase == Blocked
    requires forall i :: 0 <= i < |s.ids| ==> s.handlers[i] != Awaiting(call)
    ensures Inv(Append(s, Completed(call)).(calls := s.calls[call := s.calls[call].(phase := Ready(ret))]))
  {
    hide SlotsOk, IssuesOk;
    Snoc(s.log, Completed(call));
  }

  lemma SubscribeKeeps(s: State, i: nat, callback: nat, except: Option<nat>)
    requires Shaped(s) && Core(s) && Linked(s, except) && i < |s.ids|
    requires s.handlers[i].Awaiting? && Some(s.handlers[i].call) == except
    ensures Core(SetIndex(s, i, s.ids[i], Subscribed(callback)))
    ensures Linked(SetIndex(s, i, s.ids[i], Subscribed(callback)), except)
  {
    assert s.ids[i := s.ids[i]] == s.ids;
  }

  /** The slot's fate once the user's response callback has run. */
  lemma SettleKeeps(s: State, i: nat, call: nat, pkt: Packet, ret: Error)
    requires Shaped(s) && Core(s) && Linked(s, Some(call)) && i < |s.ids| && 0 < pkt.id < s.nextId
    requires call in s.calls && s.calls[call].phase == Blocked
    requires if s.ids[i] == pkt.id then s.handlers[i] == Awaiting(call)
             else s.ids[i] == 0 && (HasTerminate(pkt.flags) || ret != Ok || s.calls[call].callback.None?)
    requires forall j :: 0 <= j < |s.ids| && j != i ==> s.handlers[j] != Awaiting(call) && s.ids[j] != pkt.id
    ensures Inv(Settle(s, i, call, pkt, ret))
  {
    hide IssuesOk, EndsOk, SentOk, CallLinks, SlotLinks;
    if HasTerminate(pkt.flags) {
      ClearKeeps(s, i, TerminateReceived(pkt.id), Some(call));
      CompleteKeeps(Clear(Append(s, TerminateReceived(pkt.id)), i), call, ret);
    } else if ret != Ok || s.calls[call].callback.None? {
      CloseKeeps(s, i, Some(call));
      CompleteKeeps(CloseStream(s, i), call, ret);
    } else {
      SubscribeKeeps(s, i, s.calls[call].callback.value, Some(call));
      CompleteKeeps(SetIndex(s, i, pkt.id, Subscribed(s.calls[call].callback.value)), call, ret);
    }
  }

  lemma RespondKeeps(s: State, i: nat, call: nat, pkt: Packet, out: Outcome)
    requires Inv(s) && i < |s.ids| && s.ids[i] == pkt.id > 0 && s.handlers[i] == Awaiting(call) && call in s.calls
    requires ClosesOnly(s, out.closes, Some(call)) && (CurrentHandle(s, i) in out.closes ==> !Subscribes(s, i, pkt, out))
    ensures Inv(Respond(s, i, call, pkt, out))
  {
    hide IssuesOk, EndsOk, SentOk, FinishedOk, HandlesOk, CallsOk, Orderly;
    var e := ResponseDelivered(pkt.id, call);
    var s1 := if out.reached then Append(s, e) else s;
    if out.reached {
      AppendDelivery(s, e, None);
    }
    CloseAllKeeps(s1, out.closes, Some(call));
    CloseAllSlot(s1, out.closes, i);
    SettleKeeps(CloseAll(s1, out.closes), i, call, pkt, out.ret);
  }

  lemma StartSlots(s: State, i: nat, call: nat)
    requires Inv(s) && i < |s.ids| && s.ids[i] == 0
    ensures var t := SetIndex(Bump(s, i), i, s.nextId, Awaiting(call));
            SlotsOk(t.ids, t.gens, t.handlers, t.moves, s.nextId + 1)
  {
    NextGeneration(s.moves[i]);
  }

  lemma StartIssues(s: State, i: nat, issue: Issue)
    requires Inv(s) && i < |s.ids| && s.ids[i] == 0
    requires issue == Issue(i, MakeHandle((s.gens[i] + 1) % GENERATIONS, i), s.moves[i] + 1)
    ensures IssuesOk(s.ids[i := s.nextId], s.moves[i := s.moves[i] + 1], s.issues[s.nextId := issue], s.nextId + 1)
  {
    NextGeneration(s.moves[i]);
  }

  lemma StartSent(s: State, e: Event)
    requires s.nextId >= 1 && SentOk(s.nextId, s.log) && (e == RequestSent(s.nextId) || e == RequestFailed(s.nextId))
    ensures SentOk(s.nextId + 1, s.log + [e])
  {
    Snoc(s.log, e);
  }

  lemma SetIds(ids: seq<int>, i: nat, v: int)
    requires i < |ids| && ids[i] == 0
    ensures v in ids[i := v] && forall id :: id in ids && id != 0 ==> id in ids[i := v]
  {
    assert ids[i := v][i] == v;
    forall id | id in ids && id != 0 ensures id in ids[i := v] {
      var j :| 0 <= j < |ids| && ids[j] == id;
      assert ids[i := v][j] == id;
    }
  }

  lemma StartEnds(s: State, i: nat, e: Event)
    requires i < |s.ids| && s.ids[i] == 0 && s.nextId >= 1 && EndsOk(s.ids, s.nextId, s.log)
    requires e == RequestSent(s.nextId) || e == RequestFailed(s.nextId)
    ensures EndsOk(s.ids[i := s.nextId], s.nextId + 1, s.log + [e])
    ensures e.RequestFailed? ==> EndsOk(s.ids, s.nextId + 1, s.log + [e])
  {
    Snoc(s.log, e);
    SetIds(s.ids, i, s.nextId);
  }

  lemma StartLinks(s: State, i: nat, call: nat, frame: Call)
    requires Shaped(s) && Linked(s, None) && i < |s.ids| && s.handlers[i] == Empty && call !in s.calls
    ensures frame.phase == Blocked && frame.slot == i ==>
              && SlotLinks(s.handlers[i := Awaiting(call)], s.calls[call := frame], None)
              && CallLinks(s.ids[i := frame.id], s.handlers[i := Awaiting(call)], s.calls[call := frame], None)
    ensures frame.phase != Blocked ==>
              SlotLinks(s.handlers, s.calls[call := frame], None) && CallLinks(s.ids, s.handlers, s.calls[call := frame], None)
  {
  }

  lemma FreshId(s: State)
    requires Inv(s)
    ensures s.nextId !in s.issues
  {
    hide SlotsOk, EndsOk, SentOk, FinishedOk, HandlesOk, CallsOk, Orderly, SlotLinks, CallLinks;
  }

  lemma StartCalls(s: State, call: nat, frame: Call, issue: Issue)
    requires CallsOk(s.calls, s.issues) && s.nextId !in s.issues
    requires frame.phase.Returned? || (frame.id == s.nextId && frame.slot == issue.slot)
    ensures CallsOk(s.calls[call := frame], s.issues[s.nextId := issue])
  {
  }

  lemma StartLog(s: State, call: nat, frame: Call, issue: Issue, e: Event)
    requires Inv(s) && call !in s.calls && (e == RequestSent(s.nextId) || e == RequestFailed(s.nextId))
    ensures Orderly(s.log + [e]) && FinishedOk(s.calls[call := frame], s.log + [e])
    ensures s.nextId !in s.issues ==> HandlesOk(s.issues[s.nextId := issue], s.log + [e])
  {
    hide IssuesOk, SlotsOk, EndsOk, SentOk, SlotLinks, CallLinks, CallsOk;
    Snoc(s.log, e);
  }

  lemma ClaimedOk(s: State, i: nat, call: nat)
    requires Inv(s) && i < |s.ids| && s.ids[i] == 0
    ensures var t := Claimed(s, i, call);
            && SlotsOk(t.ids, t.gens, t.handlers, t.moves, t.nextId)
            && IssuesOk(t.ids, t.moves, t.issues, t.nextId)
  {
    StartSlots(s, i, call);
    StartIssues(s, i, Claimed(s, i, call).issues[s.nextId]);
  }

  lemma StartSentKeeps(s: State, i: nat, call: nat, callback: Option<nat>)
    requires Inv(s) && call !in s.calls && i < |s.ids| && s.ids[i] == 0 && s.handlers[i] == Empty && s.nextId >= 1
    ensures Inv(Append(Claimed(s, i, call), RequestSent(s.nextId)).(
                  calls := s.calls[call := Call(i, s.nextId, callback, Blocked)]))
  {
    hide SlotsOk, IssuesOk, EndsOk, SentOk, FinishedOk, HandlesOk, CallsOk, Orderly, SlotLinks, CallLinks;
    ClaimedOk(s, i, call);
    StartEnds(s, i, RequestSent(s.nextId));
    StartSent(s, RequestSent(s.nextId));
    FreshId(s);
    StartLog(s, call, Call(i, s.nextId, callback, Blocked), Claimed(s, i, call).issues[s.nextId], RequestSent(s.nextId));
    StartCalls(s, call, Call(i, s.nextId, callback, Blocked), Claimed(s, i, call).issues[s.nextId]);
    StartLinks(s, i, call, Call(i, s.nextId, callback, Blocked));
  }

  lemma StartFailedKeeps(s: State, i: nat, call: nat, callback: Option<nat>, ret: Error)
    requires Inv(s) && call !in s.calls && i < |s.ids| && s.ids[i] == 0 && s.handlers[i] == Empty && s.nextId >= 1
    ensures Inv(Clear(Append(Claimed(s, i, call), RequestFailed(s.nextId)), i).(
                  calls := s.calls[call := Call(i, s.nextId, callback, Returned(ret))]))
  {
    hide SlotsOk, IssuesOk, EndsOk, SentOk, FinishedOk, HandlesOk, CallsOk, Orderly, SlotLinks, CallLinks;
    var t := Claimed(s, i, call);
    ClaimedOk(s, i, call);
    ClearSlots(t, i);
    ClearIssues(t, i);
    assert t.ids[i := 0] == s.ids && t.handlers[i := Empty] == s.handlers;
    StartEnds(s, i, RequestFailed(s.nextId));
    StartSent(s, RequestFailed(s.nextId));
    FreshId(s);
    StartLog(s, call, Call(i, s.nextId, callback, Returned(ret)), t.issues[s.nextId], RequestFailed(s.nextId));
    StartCalls(s, call, Call(i, s.nextId, callback, Returned(ret)), t.issues[s.nextId]);
    StartLinks(s, i, call, Call(i, s.nextId, callback, Returned(ret)));
  }

  lemma StartKeeps(s: State, call: nat, callback: Option<nat>, sendRet: Error)
    requires Inv(s) && call !in s.calls
    ensures Inv(StartCall(s, call, callback, sendRet))
  {
    var i := Find(s.ids, 0);
    if i == |s.ids| {
    } else if sendRet == Ok {
      StartSentKeeps(s, i, call, callback);
    } else {
      StartFailedKeeps(s, i, call, callback, sendRet);
    }
  }

  lemma ExpireKeeps(s: State, call: nat)
    requires Inv(s) && call in s.calls && !s.calls[call].phase.Returned? && s.calls[call].slot < |s.ids|
    requires s.calls[call].phase == Blocked || !s.handlers[s.calls[call].slot].Awaiting?
    ensures Inv(Expire(s, call))
  {
    hide SlotsOk, IssuesOk, EndsOk, SentOk, HandlesOk, Orderly;
    CloseKeeps(s, s.calls[call].slot, Some(call));
  }
}

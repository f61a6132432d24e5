/**
 The IPC client's stream table as it is kept in memory: three arrays indexed by slot and a counter.
 Every method is the part of a C function that runs under `stream_state_mtx`; its contract is the
 step of the transition system in StreamState that it takes.
 */
module StreamTable {
  import opened Common
  import opened StreamState

  class Table {
    const ids: array<int>
    const gens: array<nat>
    const handlers: array<Handler>
    var nextId: int
    var calls: map<nat, Call>
    var log: seq<Event>
    ghost var moves: seq<nat>
    ghost var issues: map<int, Issue>

    ghost function View(): State
      reads this, ids, gens, handlers
    {
      State(ids[..], gens[..], handlers[..], nextId, calls, moves, issues, log)
    }

    ghost predicate Valid()
      reads this, ids, gens, handlers
    {
      && ids as object != gens as object && ids as object != handlers as object && gens as object != handlers as object
      && Shaped(View())
    }

    constructor (slots: nat)
      requires 1 <= slots <= UINT16_MAX
      ensures Valid() && fresh(ids) && fresh(gens) && fresh(handlers)
      ensures View() == InitState(slots)
    {
      ids := new int[slots](_ => 0);
      gens := new nat[slots](_ => 0);
      handlers := new Handler[slots](_ => Empty);
      nextId, calls, log := 1, map[], [];
      moves, issues := seq(slots, _ => 0), map[];
      new;
      var s := InitState(slots);
      assert ids[..] == s.ids && gens[..] == s.gens && handlers[..] == s.handlers;
    }

    /** get_stream_index_from_id. */
    method GetStreamIndexFromId(id: int) returns (found: bool, index: nat)
      requires Valid()
      ensures found <==> id > 0 && id in ids[..]
      ensures found ==> index == Find(ids[..], id) < ids.Length
    {
      index := ids.Length;
      if id <= 0 {
        return false, index;
      }
      index := Scan(id);
      found := index < ids.Length;
      if found {
        assert ids[..][index] == id;
      }
    }

    /** The first slot that holds an id; claim_stream_index looks for 0. */
    method Scan(id: int) returns (index: nat)
      requires Valid()
      ensures index == Find(ids[..], id)
    {
      index := 0;
      while index < ids.Length && ids[index] != id
        invariant index <= ids.Length
        invariant Find(ids[..], id, index) == Find(ids[..], id)
      {
        index := index + 1;
      }
    }

    method ClaimStreamIndex() returns (found: bool, index: nat)
      requires Valid()
      modifies ids, gens, `moves
      ensures Valid()
      ensures found <==> 0 in old(ids[..])
      ensures found ==> index == Find(old(ids[..]), 0) && index < ids.Length
      ensures View() == if found then var s := Bump(old(View()), index); s.(ids := s.ids[index := -1]) else old(View())
    {
      index := Scan(0);
      found := index < ids.Length;
      if found {
        assert ids[index] in ids[..];
        gens[index] := (gens[index] + 1) % GENERATIONS;
        moves := moves[index := moves[index] + 1];
        ids[index] := -1;
      }
    }

    method SetStreamIndex(index: nat, id: int, handler: Handler)
      requires Valid() && index < ids.Length
      modifies ids, handlers
      ensures Valid() && View() == SetIndex(old(View()), index, id, handler)
    {
      ids[index] := id;
      handlers[index] := handler;
    }

    method ClearStreamIndex(index: nat)
      requires Valid() && index < ids.Length
      modifies ids, gens, handlers, `moves
      ensures Valid() && View() == Clear(old(View()), index)
    {
      gens[index] := (gens[index] + 1) % GENERATIONS;
      moves := moves[index := moves[index] + 1];
      ids[index] := 0;
      handlers[index] := Empty;
    }

    method GetCurrentHandle(index: nat) returns (handle: Handle)
      requires Valid() && index < ids.Length
      ensures handle == CurrentHandle(View(), index)
    {
      handle := gens[index] * 65536 + (index + 1);
    }

    method ValidateHandle(handle: Handle) returns (ret: Error, index: nat)
      requires Valid()
      ensures ret == Ok <==> Validate(View(), handle) == Some(index)
      ensures ret != Ok <==> Validate(View(), handle).None?
      ensures ret == Invalid <==> (handle % 65536 == 0 || handle % 65536 > ids.Length)
    {
      index := (handle % 65536 + 65535) % 65536;
      if index >= ids.Length {
        return Invalid, index;
      }
      if handle / 65536 != gens[index] {
        return NoEntry, index;
      }
      return Ok, index;
    }

    method Close(index: nat)
      requires Valid() && index < ids.Length
      modifies ids, gens, handlers, `moves, `log
      ensures Valid() && View() == CloseStream(old(View()), index)
    {
      log := log + [TerminateSent(ids[index])];
      ClearStreamIndex(index);
    }

    /** ggipc_close_subscription. */
    method CloseSubscription(handle: Handle)
      requires Valid()
      modifies ids, gens, handlers, `moves, `log
      ensures Valid() && View() == Apply(old(View()), StreamState.Close(handle))
    {
      var ret, index := ValidateHandle(handle);
      if ret == Ok {
        Close(index);
      }
    }

    /** The handles a user callback closes while the receive thread holds the recursive mutex. */
    method RunCallback(closes: seq<Handle>)
      requires Valid()
      modifies ids, gens, handlers, `moves, `log
      ensures Valid() && View() == CloseAll(old(View()), closes)
    {
      var i := 0;
      while i < |closes|
        invariant i <= |closes| && Valid()
        invariant CloseAll(View(), closes[i..]) == CloseAll(old(View()), closes)
        invariant calls == old(calls) && nextId == old(nextId) && issues == old(issues)
      {
        assert closes[i..][1..] == closes[i + 1..];
        CloseSubscription(closes[i]);
        i := i + 1;
      }
    }

    /** Give a claimed slot its stream id and the waiting call's context. */
    method Assign(index: nat, call: nat) returns (handle: Handle)
      requires Valid() && index < ids.Length
      modifies ids, handlers, `nextId, `issues
      ensures Valid()
      ensures handle == CurrentHandle(View(), index)
      ensures View() == SetIndex(old(View()), index, old(nextId), Awaiting(call)).(
                          nextId := old(nextId) + 1, issues := old(issues)[old(nextId) := Issue(index, handle, moves[index])])
    {
      var id := nextId;
      nextId := nextId + 1;
      SetStreamIndex(index, id, Awaiting(call));
      handle := GetCurrentHandle(index);
      issues := issues[id := Issue(index, handle, moves[index])];
    }

    /** ggipc_subscribe from taking the mutex to the first wait; `sendRet` is what the socket write returned. */
    method Subscribe(call: nat, callback: Option<nat>, sendRet: Error) returns (ret: Option<Error>, handle: Handle)
      requires Valid() && call !in calls
      modifies this, ids, gens, handlers
      ensures Valid() && View() == Apply(old(View()), Start(call, callback, sendRet))
      ensures ret == if 0 !in old(ids[..]) then Some(NoMem) else if sendRet == Ok then None else Some(sendRet)
      ensures calls[call].phase == if ret == None then Blocked else Returned(ret.value)
      ensures 0 in old(ids[..]) ==> old(nextId) in issues && handle == issues[old(nextId)].handle
    {
      handle := 0;
      ghost var s := View();
      var found, index := ClaimStreamIndex();
      if !found {
        calls := calls[call := Call(0, 0, callback, Returned(NoMem))];
        return Some(NoMem), handle;
      }
      var id := nextId;
      handle := Assign(index, call);
      assert View() == Claimed(s, index, call);
      if sendRet != Ok {
        log := log + [RequestFailed(id)];
        ClearStreamIndex(index);
        calls := calls[call := Call(index, id, callback, Returned(sendRet))];
        return Some(sendRet), handle;
      }
      log := log + [RequestSent(id)];
      calls := calls[call := Call(index, id, callback, Blocked)];
      ret := None;
    }

    /** response_handler: the user's response callback, the slot's fate, and the waiting call's result. */
    method HandleResponse(index: nat, call: nat, pkt: Packet, out: Outcome)
      requires Valid() && index < ids.Length && call in calls
      modifies this, ids, gens, handlers
      ensures Valid() && View() == Respond(old(View()), index, call, pkt, out)
    {
      if out.reached {
        log := log + [ResponseDelivered(pkt.id, call)];
      }
      RunCallback(out.closes);
      if HasTerminate(pkt.flags) {
        log := log + [TerminateReceived(pkt.id)];
        ClearStreamIndex(index);
      } else if out.ret != Ok || calls[call].callback.None? {
        Close(index);
      } else {
        SetStreamIndex(index, pkt.id, Subscribed(calls[call].callback.value));
      }
      log := log + [Completed(call)];
      calls := calls[call := calls[call].(phase := Ready(out.ret))];
    }

    /**
     dispatch_incoming_packet from reading the stream id on; `out` is what decoding and the callback did.
     A negative id is an error, on which the caller closes the connection.
     */
    method DispatchPacket(pkt: Packet, out: Outcome) returns (ret: Error)
      requires Valid() && Possible(pkt, out)
      requires forall i :: 0 <= i < ids.Length && handlers[i].Awaiting? ==> handlers[i].call in calls
      modifies this, ids, gens, handlers
      ensures Valid() && View() == Apply(old(View()), Receive(pkt, out))
      ensures ret == if pkt.id < 0 then Failure else Ok
    {
      if pkt.id < 0 {
        return Failure;
      }
      var found, index := GetStreamIndexFromId(pkt.id);
      if !found || handlers[index] == Empty {
        return Ok;
      }
      if handlers[index].Awaiting? {
        HandleResponse(index, handlers[index].call, pkt, out);
        return Ok;
      }
      if out.reached {
        var handle := GetCurrentHandle(index);
        log := log + [MessageDelivered(pkt.id, handle, handlers[index].callback)];
      }
      RunCallback(out.closes);
      if HasTerminate(pkt.flags) {
        log := log + [TerminateReceived(pkt.id)];
        ClearStreamIndex(index);
      } else if out.ret != Ok {
        Close(index);
      }
      ret := Ok;
    }

    /** The wait loop's ETIMEDOUT branch. */
    method GiveUp(call: nat)
      requires Valid() && Enabled(View(), TimeOut(call))
      modifies this, ids, gens, handlers
      ensures Valid() && View() == Apply(old(View()), TimeOut(call))
    {
      Close(calls[call].slot);
      calls := calls[call := calls[call].(phase := Returned(Timeout))];
    }
  }
}

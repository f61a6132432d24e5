/**
 TERMINATE packets that name stream 0, which is no stream: close_stream sends whatever id the slot
 holds, and validate_handle looks at the slot's generation but not at its id.
 */
module StreamZero {
  import opened Common
  import opened StreamState
  import opened StreamInvariant
  import opened StreamTheorems
  import opened StreamScope

  /** One of the events from position `from` on is a TERMINATE sent for stream 0. */
  predicate NamesZero(log: seq<Event>, from: nat) {
    exists k :: from <= k < |log| && log[k] == TerminateSent(0)
  }

  /** The handle that a slot has after its generation has moved once more. */
  function NextHandle(s: State, j: nat): Handle
    requires Shaped(s) && j < |s.ids|
  {
    MakeHandle((s.gens[j] + 1) % GENERATIONS, j)
  }

  /** The handles close slot `j` when it is already empty: its handle is among them, or its next handle after it. */
  predicate ClosesEmptyAt(s: State, handles: seq<Handle>, j: nat)
    requires Shaped(s) && j < |s.ids|
  {
    if s.ids[j] == 0 then CurrentHandle(s, j) in handles
    else exists p, q :: 0 <= p < q < |handles| && handles[p] == CurrentHandle(s, j) && handles[q] == NextHandle(s, j)
  }

  predicate ClosesEmpty(s: State, handles: seq<Handle>)
    requires Shaped(s)
  {
    exists j :: 0 <= j < |s.ids| && ClosesEmptyAt(s, handles, j)
  }

  /** close_stream runs for the packet's slot once the callback is done. */
  predicate EndsSlot(s: State, i: nat, pkt: Packet, out: Outcome)
    requires Shaped(s) && i < |s.ids|
  {
    !HasTerminate(pkt.flags) &&
    match s.handlers[i]
    case Empty => false
    case Awaiting(call) => call in s.calls && (out.ret != Ok || s.calls[call].callback.None?)
    case Subscribed(_) => out.ret != Ok
  }

  /** The slot to be closed is empty, or a callback has emptied it by then. */
  predicate SendsZero(s: State, step: Step)
    requires Shaped(s) && Enabled(s, step)
  {
    match step
    case Start(_, _, _) => false
    case Wake(_) => false
    case TimeOut(call) => s.ids[s.calls[call].slot] == 0
    case Close(handle) => ClosesEmpty(s, [handle])
    case Receive(pkt, out) =>
      var i := Target(s, pkt);
      i < |s.ids| && (ClosesEmpty(s, out.closes) || (CurrentHandle(s, i) in out.closes && EndsSlot(s, i, pkt, out)))
  }

  lemma OneMore(log: seq<Event>, e: Event, from: nat)
    requires from <= |log|
    ensures NamesZero(log + [e], from) <==> NamesZero(log, from) || e == TerminateSent(0)
  {
    if e == TerminateSent(0) {
      assert (log + [e])[|log|] == e;
    }
    if NamesZero(log, from) {
      var k :| from <= k < |log| && log[k] == TerminateSent(0);
      assert (log + [e])[k] == TerminateSent(0);
    }
  }

  lemma Later(log: seq<Event>, from: nat, from': nat)
    requires from <= from' <= |log| && forall k :: from <= k < from' ==> log[k] != TerminateSent(0)
    ensures NamesZero(log, from) <==> NamesZero(log, from')
  {
  }

  lemma HandlesDiffer(s: State, i: nat, j: nat)
    requires Shaped(s) && i < |s.ids| && j < |s.ids| && i != j
    ensures CurrentHandle(s, i) != CurrentHandle(s, j) && CurrentHandle(s, i) != NextHandle(s, j)
  {
  }

  /** A first close that does not concern slot `j`. */
  lemma SkipFirst(s: State, t: State, handles: seq<Handle>, j: nat)
    requires Shaped(s) && Shaped(t) && |t.ids| == |s.ids| && j < |s.ids| && handles != []
    requires t.ids[j] == s.ids[j] && t.gens[j] == s.gens[j] && handles[0] != CurrentHandle(s, j)
    ensures ClosesEmptyAt(s, handles, j) <==> ClosesEmptyAt(t, handles[1..], j)
  {
    var rest := handles[1..];
    if s.ids[j] != 0 {
      if ClosesEmptyAt(s, handles, j) {
        var p, q :| 0 <= p < q < |handles| && handles[p] == CurrentHandle(s, j) && handles[q] == NextHandle(s, j);
        assert rest[p - 1] == CurrentHandle(t, j) && rest[q - 1] == NextHandle(t, j);
      }
      if ClosesEmptyAt(t, rest, j) {
        var p, q :| 0 <= p < q < |rest| && rest[p] == CurrentHandle(t, j) && rest[q] == NextHandle(t, j);
        assert handles[p + 1] == CurrentHandle(s, j) && handles[q + 1] == NextHandle(s, j);
      }
    }
  }

  /** A first close that empties slot `i`: from now on its next handle closes it empty. */
  lemma EmptyFirst(s: State, handles: seq<Handle>, i: nat)
    requires Shaped(s) && i < |s.ids| && s.ids[i] != 0 && handles != [] && handles[0] == CurrentHandle(s, i)
    ensures ClosesEmptyAt(s, handles, i) <==> ClosesEmptyAt(CloseStream(s, i), handles[1..], i)
  {
    var t, rest := CloseStream(s, i), handles[1..];
    assert CurrentHandle(t, i) == NextHandle(s, i) && t.ids[i] == 0;
    if NextHandle(s, i) in rest {
      var q :| 0 <= q < |rest| && rest[q] == NextHandle(s, i);
      assert handles[0] == CurrentHandle(s, i) && handles[q + 1] == NextHandle(s, i);
    }
    if ClosesEmptyAt(s, handles, i) {
      var p, q :| 0 <= p < q < |handles| && handles[p] == CurrentHandle(s, i) && handles[q] == NextHandle(s, i);
      assert rest[q - 1] == NextHandle(s, i);
    }
  }

  /** ClosesEmpty one handle at a time. */
  lemma ClosesEmptyStep(s: State, handles: seq<Handle>)
    requires Shaped(s) && handles != []
    ensures ClosesEmpty(s, handles) <==>
            (exists i :: 0 <= i < |s.ids| && s.ids[i] == 0 && handles[0] == CurrentHandle(s, i))
            || ClosesEmpty(CloseHandle(s, handles[0]), handles[1..])
  {
    hide ClosesEmptyAt;
    var h, rest := handles[0], handles[1..];
    var t := CloseHandle(s, h);
    ValidIsCurrent(s, h);
    if exists i :: 0 <= i < |s.ids| && s.ids[i] == 0 && h == CurrentHandle(s, i) {
      var i :| 0 <= i < |s.ids| && s.ids[i] == 0 && h == CurrentHandle(s, i);
      assert ClosesEmptyAt(s, handles, i) by { AtOnce(s, handles, i); }
    } else {
      forall j | 0 <= j < |s.ids| ensures ClosesEmptyAt(s, handles, j) <==> ClosesEmptyAt(t, rest, j) {
        if h == CurrentHandle(s, j) {
          EmptyFirst(s, handles, j);
        } else {
          SkipFirst(s, t, handles, j);
        }
      }
    }
  }

  lemma AtOnce(s: State, handles: seq<Handle>, i: nat)
    requires Shaped(s) && i < |s.ids| && s.ids[i] == 0 && handles != [] && handles[0] == CurrentHandle(s, i)
    ensures ClosesEmptyAt(s, handles, i)
  {
  }

  /** A run of closes sends TERMINATE for stream 0 exactly if it closes a slot that is already empty. */
  lemma {:induction false} CloseAllZeroIff(s: State, handles: seq<Handle>)
    requires Shaped(s)
    ensures s.log <= CloseAll(s, handles).log
    ensures NamesZero(CloseAll(s, handles).log, |s.log|) <==> ClosesEmpty(s, handles)
    decreases |handles|
  {
    hide ClosesEmpty;
    if handles == [] {
      NothingClosed(s);
    } else {
      var h := handles[0];
      var t := CloseHandle(s, h);
      var log := CloseAll(t, handles[1..]).log;
      ValidIsCurrent(s, h);
      ClosesEmptyStep(s, handles);
      CloseAllZeroIff(t, handles[1..]);
      if t.log != s.log {
        var i := Validate(s, h).value;
        assert h == CurrentHandle(s, i) && t.log == s.log + [TerminateSent(s.ids[i])];
        assert log[|s.log|] == t.log[|s.log|] == TerminateSent(s.ids[i]);
        if s.ids[i] != 0 {
          forall j | 0 <= j < |s.ids| && j != i ensures h != CurrentHandle(s, j) {
            HandlesDiffer(s, i, j);
          }
          Later(log, |s.log|, |t.log|);
        }
      }
    }
  }

  lemma NothingClosed(s: State)
    requires Shaped(s)
    ensures !ClosesEmpty(s, [])
  {
  }

  lemma CloseZeroIff(s: State, handle: Handle)
    requires Shaped(s)
    ensures NamesZero(CloseHandle(s, handle).log, |s.log|) <==> ClosesEmpty(s, [handle])
  {
    hide ClosesEmpty, NamesZero;
    CloseOne(s, handle);
    CloseAllZeroIff(s, [handle]);
  }

  /** What the callback's closes and the end of the handling log, in order. */
  lemma ReceiveZeroIff(s: State, pkt: Packet, out: Outcome)
    requires Inv(s) && Target(s, pkt) < |s.ids|
    ensures NamesZero(Dispatch(s, pkt, out).log, |s.log|) <==>
            ClosesEmpty(s, out.closes) || (CurrentHandle(s, Target(s, pkt)) in out.closes && EndsSlot(s, Target(s, pkt), pkt, out))
  {
    hide SlotsOk, IssuesOk, EndsOk, SentOk, FinishedOk, HandlesOk, CallsOk, Orderly, CallLinks, ClosesEmpty, NamesZero;
    var i := Target(s, pkt);
    OccupiedSlot(s, i);
    var e := if s.handlers[i].Awaiting? then ResponseDelivered(pkt.id, s.handlers[i].call)
             else MessageDelivered(pkt.id, CurrentHandle(s, i), s.handlers[i].callback);
    var s1 := if out.reached then Append(s, e) else s;
    var s2 := CloseAll(s1, out.closes);
    CloseAllZeroIff(s1, out.closes);
    SameTable(s, s1, out.closes);
    CloseAllSlot(s1, out.closes, i);
    DeliveryFirst(s, s1, s2.log, e);
    OneMore(s2.log, TerminateReceived(pkt.id), |s.log|);
    OneMore(s2.log, TerminateSent(s2.ids[i]), |s.log|);
    if s.handlers[i].Awaiting? {
      var c := Completed(s.handlers[i].call);
      OneMore(s2.log, c, |s.log|);
      OneMore(s2.log + [TerminateReceived(pkt.id)], c, |s.log|);
      OneMore(s2.log + [TerminateSent(s2.ids[i])], c, |s.log|);
    }
  }

  lemma OccupiedSlot(s: State, i: nat)
    requires Inv(s) && i < |s.ids| && s.ids[i] > 0
    ensures s.handlers[i] != Empty && (s.handlers[i].Awaiting? ==> s.handlers[i].call in s.calls)
  {
    hide IssuesOk, EndsOk, SentOk, FinishedOk, HandlesOk, CallsOk, Orderly, CallLinks;
  }

  lemma SameTable(s: State, s1: State, handles: seq<Handle>)
    requires Shaped(s) && Shaped(s1) && s1.ids == s.ids && s1.gens == s.gens
    ensures ClosesEmpty(s1, handles) <==> ClosesEmpty(s, handles)
  {
    forall j | 0 <= j < |s.ids| ensures ClosesEmptyAt(s1, handles, j) <==> ClosesEmptyAt(s, handles, j) {
      assert CurrentHandle(s1, j) == CurrentHandle(s, j) && NextHandle(s1, j) == NextHandle(s, j);
    }
  }

  lemma DeliveryFirst(s: State, s1: State, log: seq<Event>, e: Event)
    requires s1.log <= log && (s1.log == s.log || s1.log == s.log + [e]) && !e.TerminateSent?
    ensures NamesZero(log, |s.log|) <==> NamesZero(log, |s1.log|)
  {
    if s1.log != s.log {
      assert log[|s.log|] == s1.log[|s.log|] == e;
    }
    Later(log, |s.log|, |s1.log|);
  }

  /**
   For every step the code can take: a TERMINATE for stream 0 goes out if and only if a slot is closed
   that is empty, be it by a handle that names one, by a callback that closes its own slot before
   the handling of its packet does, or by a late timeout.
   */
  lemma StreamZeroIff(s: State, step: Step)
    requires Inv(s) && Enabled(s, step)
    ensures NamesZero(Apply(s, step).log, |s.log|) <==> SendsZero(s, step)
  {
    hide SlotsOk, IssuesOk, EndsOk, SentOk, FinishedOk, HandlesOk, CallsOk, Orderly, CallLinks, SlotLinks, ClosesEmpty;
    match step
    case Start(call, callback, sendRet) =>
    case Wake(_) =>
    case TimeOut(call) => OneMore(s.log, TerminateSent(s.ids[s.calls[call].slot]), |s.log|);
    case Close(handle) => CloseZeroIff(s, handle);
    case Receive(pkt, out) =>
      if Target(s, pkt) < |s.ids| {
        ReceiveZeroIff(s, pkt, out);
      }
  }

  // ---------- three short runs, all in scope ----------

  const OPENED := Receive(Packet(1, APPLICATION_MESSAGE, 0), Outcome(true, [], Ok))

  const FAILING := Receive(Packet(1, APPLICATION_MESSAGE, 0), Outcome(true, [FIRST_HANDLE], Failure))

  lemma OpenedState()
    ensures var s := Apply(WAITING, OPENED);
            && s.ids == [1] && s.gens == [1] && s.handlers == [Subscribed(7)] && s.calls == map[0 := Call(0, 1, Some(7), Ready(Ok))]
            && s.log == [RequestSent(1), ResponseDelivered(1, 0), Completed(0)]
  {
    assert Target(WAITING, OPENED.pkt) == 0;
  }

  lemma FailedState(s: State)
    requires Shaped(s) && s.ids == [1] && s.gens == [1] && s.handlers == [Subscribed(7)]
    ensures Apply(s, FAILING).log == s.log + [MessageDelivered(1, FIRST_HANDLE, 7), TerminateSent(1), TerminateSent(0)]
  {
    assert Target(s, FAILING.pkt) == 0 && CurrentHandle(s, 0) == FIRST_HANDLE;
    CloseOne(Append(s, MessageDelivered(1, FIRST_HANDLE, 7)), FIRST_HANDLE);
  }

  /** A subscription callback closes its own handle and then fails: TERMINATE for stream 1, then for stream 0. */
  lemma SecondTerminateNamesStreamZero()
    ensures var steps := [START] + ([OPENED] + ([FAILING] + []));
            && ScopedRun(InitState(1), steps) && AnyRun(InitState(1), steps)
            && Final(InitState(1), steps).log ==
               [RequestSent(1), ResponseDelivered(1, 0), Completed(0), MessageDelivered(1, FIRST_HANDLE, 7), TerminateSent(1), TerminateSent(0)]
  {
    FirstCall();
    OpenedState();
    var s := Apply(WAITING, OPENED);
    FailedState(s);
    ExtendScoped(s, FAILING, []);
    ExtendScoped(WAITING, OPENED, [FAILING] + []);
    ExtendScoped(InitState(1), START, [OPENED] + ([FAILING] + []));
  }

  /** A late timeout of a call whose stream the answer terminated. */
  lemma LateTimeoutNamesStreamZero()
    ensures var steps := [START] + ([ANSWER] + ([TimeOut(0)] + []));
            && ScopedRun(InitState(1), steps) && AnyRun(InitState(1), steps)
            && TerminateSent(0) in Final(InitState(1), steps).log
  {
    FirstCall();
    AnsweredState();
    var s := Apply(WAITING, ANSWER);
    var t := Apply(s, TimeOut(0));
    assert t.log[|t.log| - 1] == TerminateSent(0);
    ExtendScoped(s, TimeOut(0), []);
    ExtendScoped(WAITING, ANSWER, [TimeOut(0)] + []);
    ExtendScoped(InitState(1), START, [ANSWER] + ([TimeOut(0)] + []));
  }

  /** A handle that nobody was given: generation 0 of the first slot of a fresh table. */
  lemma UnissuedHandleNamesStreamZero()
    ensures var s := InitState(1);
            ScopedRun(s, [Close(1)]) && AnyRun(s, [Close(1)]) && Final(s, [Close(1)]).log == [TerminateSent(0)]
  {
    var s := InitState(1);
    assert s.ids == [0] && s.gens == [0] && Validate(s, 1) == Some(0);
    assert [Close(1)] + [] == [Close(1)];
    ExtendScoped(s, Close(1), []);
  }
}

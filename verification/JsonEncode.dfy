/**
 Printing a tree as JSON (src/json_encode.c): a visitor whose handler appends to a byte vector of
 fixed capacity. Floating-point text comes from the C library and is a parameter.
 */
module JsonEncode {
  import opened Common
  import opened Objects
  import opened Visitor
  import opened VisitTheorems
  import opened JsonGrammar

  // ---------- text ----------

  function NatText(n: nat): (r: bytes)
    ensures |r| > 0
    decreases n
  {
    if n < 10 then [0x30 + n] else NatText(n / 10) + [0x30 + n % 10]
  }

  function IntText(v: int): (r: bytes)
    ensures |r| > 0
  {
    if v < 0 then [0x2D] + NatText(-v) else NatText(v)
  }

  /**
   snprintf into `size` bytes and a check that lets the result through if it is at most `size`
   long: a text of exactly that length has lost its last character to the terminator.
   */
  function Printed(text: bytes, size: nat): Option<bytes>
    requires size > 0
  {
    if |text| > size then None
    else if |text| == size then Some(text[..size - 1] + [0])
    else Some(text)
  }

  const INT_BUFFER := 19
  const FLOAT_BUFFER := 26

  function HexDigit(n: nat): byte
    requires n < 16
  {
    if n < 10 then 0x30 + n else 0x37 + n
  }

  /** json_write_buf_byte. */
  function EscapedByte(b: byte): (r: bytes)
    ensures |r| > 0
  {
    if b == 0x22 then [0x5C, 0x22]
    else if b == 0x5C then [0x5C, 0x5C]
    else if b <= 0x1F then [0x5C, 0x75, 0x30, 0x30, HexDigit(b / 16), HexDigit(b % 16)]
    else [b]
  }

  function EscapedText(s: bytes): bytes {
    if s == [] then [] else EscapedByte(s[0]) + EscapedText(s[1..])
  }

  function Quoted(s: bytes): bytes {
    [0x22] + EscapedText(s) + [0x22]
  }

  /** The text that printf gives a float. */
  type Show = nat -> bytes

  /** What an event prints; None if it does not fit the print buffer. */
  function EventText(e: Event, show: Show): Option<bytes> {
    match e
    case OnNull => Some(NULL_TEXT)
    case OnBool(b) => Some(if b then TRUE_TEXT else FALSE_TEXT)
    case OnI64(i) => Printed(IntText(i), INT_BUFFER)
    case OnF64(bits) => Printed(show(bits), FLOAT_BUFFER)
    case OnBuf(_, s) => Some(Quoted(s))
    case OnList(_, _) => Some([0x5B])
    case ContList => Some([0x2C])
    case EndList => Some([0x5D])
    case OnMap(_, _) => Some([0x7B])
    case OnMapKey(_, key) => Some(Quoted(key) + [0x3A])
    case ContMap => Some([0x2C])
    case EndMap => Some([0x7D])
  }

  function OrEmpty(t: Option<bytes>): bytes {
    if t.None? then [] else t.value
  }

  /** The text of a tree, element by element. */
  function Text(o: Obj, show: Show): bytes
    decreases o, 0
  {
    match o
    case List(_, items) => [0x5B] + ItemsText(items, 0, show)
    case Map(_, pairs) => [0x7B] + PairsText(pairs, 0, show)
    case Buf(_, s) => Quoted(s)
    case _ => OrEmpty(EventText(Scalar(o), show))
  }

  function Comma(i: nat): bytes {
    if i == 0 then [] else [0x2C]
  }

  function ItemsText(items: seq<Obj>, i: nat, show: Show): bytes
    requires i <= |items|
    decreases items, |items| - i
  {
    if i == |items| then [0x5D] else Comma(i) + Text(items[i], show) + ItemsText(items, i + 1, show)
  }

  function PairsText(pairs: seq<KV>, i: nat, show: Show): bytes
    requires i <= |pairs|
    decreases pairs, |pairs| - i
  {
    if i == |pairs| then [0x7D]
    else
      assert pairs[i].val < pairs[i];
      Comma(i) + Quoted(pairs[i].key) + [0x3A] + Text(pairs[i].val, show) + PairsText(pairs, i + 1, show)
  }

  /** Every number of the tree fits its print buffer. */
  predicate Printable(o: Obj, show: Show)
    decreases o, 0
  {
    match o
    case List(_, items) => forall x :: x in items ==> Printable(x, show)
    case Map(_, pairs) => forall kv :: kv in pairs ==> Printable(kv.val, show)
    case Buf(_, _) => true
    case _ => EventText(Scalar(o), show).Some?
  }

  // ---------- the writer ----------

  datatype Writer = Writer(capacity: nat, bytes: bytes)

  datatype Wrote = Wrote(w: Writer, ret: Error)

  function Write(w: Writer, t: bytes): Wrote {
    if w.capacity - |w.bytes| < |t| then Wrote(w, NoMem) else Wrote(w.(bytes := w.bytes + t), Ok)
  }

  function Then(a: Wrote, t: bytes): Wrote {
    if a.ret != Ok then a else Write(a.w, t)
  }

  function WriteEscaped(w: Writer, s: bytes): Wrote
    decreases |s|
  {
    if s == [] then Wrote(w, Ok)
    else
      var a := Write(w, EscapedByte(s[0]));
      if a.ret != Ok then a else WriteEscaped(a.w, s[1..])
  }

  /** json_encode_on_buf. */
  function WriteQuoted(w: Writer, s: bytes): Wrote {
    var a := Write(w, [0x22]);
    if a.ret != Ok then a else Then(WriteEscaped(a.w, s), [0x22])
  }

  function WriteEvent(w: Writer, e: Event, show: Show): Wrote {
    match e
    case OnBuf(_, s) => WriteQuoted(w, s)
    case OnMapKey(_, key) => Then(WriteQuoted(w, key), [0x3A])
    case _ =>
      match EventText(e, show)
      case None => Wrote(w, NoMem)
      case Some(t) => Write(w, t)
  }

  /** The handlers of gg_json_encode. */
  function Encoder(show: Show): Handler<Writer> {
    (w: Writer, e: Event) => var r := WriteEvent(w, e, show); Reply(r.w, r.ret, e)
  }

  lemma EncoderOnlyLooks(show: Show)
    ensures Tame(Encoder(show)) && ReadOnly(Encoder(show))
  {
  }

  /** Writing `t` succeeds exactly if it fits; otherwise part of it may have been written. */
  ghost predicate Appends(r: Wrote, w: Writer, t: bytes) {
    && |r.w.bytes| <= r.w.capacity == w.capacity
    && w.bytes <= r.w.bytes <= w.bytes + t
    && if |w.bytes| + |t| <= w.capacity then r.ret == Ok && r.w.bytes == w.bytes + t else r.ret == NoMem
  }

  lemma AppendsThen(r: Wrote, q: Wrote, w: Writer, t: bytes, u: bytes)
    requires Appends(r, w, t) && (r.ret == Ok ==> Appends(q, r.w, u))
    ensures Appends(if r.ret != Ok then r else q, w, t + u)
  {
    assert w.bytes + t + u == w.bytes + (t + u);
    assert w.bytes + t <= w.bytes + (t + u);
  }

  lemma WriteAppends(w: Writer, t: bytes)
    requires |w.bytes| <= w.capacity
    ensures Appends(Write(w, t), w, t)
  {
  }

  lemma {:induction false} EscapedAppends(w: Writer, s: bytes)
    requires |w.bytes| <= w.capacity
    ensures Appends(WriteEscaped(w, s), w, EscapedText(s))
    decreases |s|
  {
    hide Write, Appends;
    if s == [] {
      assert Appends(Wrote(w, Ok), w, []) by { NothingAppends(w); }
    } else {
      var a := Write(w, EscapedByte(s[0]));
      WriteAppends(w, EscapedByte(s[0]));
      AppendsFits(a, w, EscapedByte(s[0]));
      if a.ret == Ok {
        EscapedAppends(a.w, s[1..]);
      }
      AppendsThen(a, WriteEscaped(a.w, s[1..]), w, EscapedByte(s[0]), EscapedText(s[1..]));
    }
  }

  lemma NothingAppends(w: Writer)
    requires |w.bytes| <= w.capacity
    ensures Appends(Wrote(w, Ok), w, [])
  {
    assert w.bytes + [] == w.bytes;
  }

  lemma AppendsFits(r: Wrote, w: Writer, t: bytes)
    requires Appends(r, w, t)
    ensures |r.w.bytes| <= r.w.capacity
  {
  }

  lemma ThenAppends(a: Wrote, w: Writer, t: bytes, u: bytes)
    requires Appends(a, w, t)
    ensures Appends(Then(a, u), w, t + u)
  {
    hide Write, Appends;
    AppendsFits(a, w, t);
    WriteAppends(a.w, u);
    AppendsThen(a, Write(a.w, u), w, t, u);
  }

  lemma QuotedAppends(w: Writer, s: bytes)
    requires |w.bytes| <= w.capacity
    ensures Appends(WriteQuoted(w, s), w, Quoted(s))
  {
    hide Write, Appends, EscapedText, WriteEscaped, Then;
    var a := Write(w, [0x22]);
    WriteAppends(w, [0x22]);
    AppendsFits(a, w, [0x22]);
    EscapedAppends(a.w, s);
    ThenAppends(WriteEscaped(a.w, s), a.w, EscapedText(s), [0x22]);
    AppendsThen(a, Then(WriteEscaped(a.w, s), [0x22]), w, [0x22], EscapedText(s) + [0x22]);
    assert [0x22] + (EscapedText(s) + [0x22]) == Quoted(s);
  }

  lemma EventAppends(w: Writer, e: Event, show: Show)
    requires |w.bytes| <= w.capacity
    ensures var t := EventText(e, show);
            if t.None? then WriteEvent(w, e, show) == Wrote(w, NoMem) else Appends(WriteEvent(w, e, show), w, t.value)
  {
    hide Write, Appends, Quoted, WriteQuoted, Then, Printed, IntText;
    if e.OnBuf? {
      QuotedAppends(w, e.bytes);
    } else if e.OnMapKey? {
      QuotedAppends(w, e.bytes);
      ThenAppends(WriteQuoted(w, e.bytes), w, Quoted(e.bytes), [0x3A]);
    } else {
      var t := EventText(e, show);
      if t.Some? {
        WriteAppends(w, t.value);
      }
    }
  }

  // ---------- the whole traversal ----------

  ghost predicate AllFit(events: seq<Event>, show: Show) {
    forall e :: e in events ==> EventText(e, show).Some?
  }

  function Flat(events: seq<Event>, show: Show): bytes {
    if events == [] then [] else OrEmpty(EventText(events[0], show)) + Flat(events[1..], show)
  }

  lemma {:induction false} FlatConcat(a: seq<Event>, b: seq<Event>, show: Show)
    ensures Flat(a + b, show) == Flat(a, show) + Flat(b, show)
    decreases |a|
  {
    hide EventText;
    if a == [] {
      assert a + b == b;
    } else {
      assert (a + b)[0] == a[0] && (a + b)[1..] == a[1..] + b;
      FlatConcat(a[1..], b, show);
    }
  }

  lemma FlatOne(e: Event, show: Show)
    ensures Flat([e], show) == OrEmpty(EventText(e, show))
  {
    hide EventText;
    assert [e][1..] == [];
  }

  lemma {:induction false} ReplayEncodes(w: Writer, events: seq<Event>, show: Show)
    requires |w.bytes| <= w.capacity
    ensures var p := Replay(Encoder(show), w, events);
            if AllFit(events, show) then Appends(Wrote(p.ctx, p.ret), w, Flat(events, show)) else p.ret == NoMem
    decreases |events|
  {
    hide EventText, WriteEvent, Appends;
    if events == [] {
      NothingAppends(w);
    } else {
      var e, rest := events[0], events[1..];
      EventAppends(w, e, show);
      var r, t := WriteEvent(w, e, show), EventText(e, show);
      assert events == [e] + rest;
      if t.Some? {
        AppendsFits(r, w, t.value);
        AppendsVerdict(r, w, t.value);
        if r.ret == Ok {
          ReplayEncodes(r.w, rest, show);
        }
        if AllFit(rest, show) {
          var q := Replay(Encoder(show), r.w, rest);
          AppendsThen(r, Wrote(q.ctx, q.ret), w, t.value, Flat(rest, show));
        }
      }
    }
  }

  lemma AppendsVerdict(r: Wrote, w: Writer, t: bytes)
    requires Appends(r, w, t)
    ensures r.ret == Ok || r.ret == NoMem
  {
  }

  /** The text of the events of a tree is the tree's text. */
  lemma {:induction false} TextOfEvents(o: Obj, show: Show)
    ensures Flat(Events(o), show) == Text(o, show)
    ensures AllFit(Events(o), show) <==> Printable(o, show)
    decreases o, 0
  {
    hide Flat, Quoted, Printed, IntText;
    if o.List? {
      var e := OnList(o.at, o.items);
      FlatConcat([e], ItemEvents(o.items, 0), show);
      FlatOne(e, show);
      TextOfItems(o.items, 0, show);
    } else if o.Map? {
      var e := OnMap(o.at, o.pairs);
      FlatConcat([e], PairEvents(o.pairs, 0), show);
      FlatOne(e, show);
      TextOfPairs(o.pairs, 0, show);
    } else {
      FlatOne(if o.Buf? then OnBuf(o.at, o.bytes) else Scalar(o), show);
    }
  }

  lemma FlatComma(i: nat, e: Event, show: Show)
    requires e == ContList || e == ContMap
    ensures Flat(Separator(i, e), show) == Comma(i) && AllFit(Separator(i, e), show)
  {
    if i > 0 {
      FlatOne(e, show);
    }
  }

  lemma {:induction false} TextOfItems(items: seq<Obj>, i: nat, show: Show)
    requires i <= |items|
    ensures Flat(ItemEvents(items, i), show) == ItemsText(items, i, show)
    ensures AllFit(ItemEvents(items, i), show) <==> forall k :: i <= k < |items| ==> Printable(items[k], show)
    decreases items, |items| - i
  {
    hide Flat, EventText, Printable, Text, Events, Separator, Comma;
    if i == |items| {
      FlatOne(EndList, show);
      ClosersFit(show);
    } else {
      var a, b, c := Separator(i, ContList), Events(items[i]), ItemEvents(items, i + 1);
      FlatComma(i, ContList, show);
      TextOfEvents(items[i], show);
      TextOfItems(items, i + 1, show);
      FlatConcat(a, b, show);
      FlatConcat(a + b, c, show);
    }
  }

  lemma ClosersFit(show: Show)
    ensures EventText(EndList, show) == Some([0x5D]) && EventText(EndMap, show) == Some([0x7D])
  {
  }

  lemma {:induction false} TextOfPairs(pairs: seq<KV>, i: nat, show: Show)
    requires i <= |pairs|
    ensures Flat(PairEvents(pairs, i), show) == PairsText(pairs, i, show)
    ensures AllFit(PairEvents(pairs, i), show) <==> forall k :: i <= k < |pairs| ==> Printable(pairs[k].val, show)
    decreases pairs, |pairs| - i
  {
    hide Flat, EventText, Printable, Text, Events, Separator, Comma, Quoted;
    if i == |pairs| {
      FlatOne(EndMap, show);
      ClosersFit(show);
    } else {
      assert pairs[i].val < pairs[i];
      var kv := pairs[i];
      var a, b, c := Separator(i, ContMap), Events(kv.val), PairEvents(pairs, i + 1);
      var k := OnMapKey(kv.keyAt, kv.key);
      FlatComma(i, ContMap, show);
      KeyText(k, show);
      TextOfEvents(kv.val, show);
      TextOfPairs(pairs, i + 1, show);
      FlatConcat(a, [k], show);
      FlatConcat(a + [k], b, show);
      FlatConcat(a + [k] + b, c, show);
    }
  }

  lemma KeyText(e: Event, show: Show)
    requires e.OnMapKey?
    ensures EventText(e, show) == Some(Quoted(e.bytes) + [0x3A]) && Flat([e], show) == Quoted(e.bytes) + [0x3A]
  {
    FlatOne(e, show);
  }

  lemma {:induction false} FlatPrefix(a: seq<Event>, b: seq<Event>, show: Show)
    requires a <= b
    ensures Flat(a, show) <= Flat(b, show)
  {
    hide Flat;
    FlatConcat(a, b[|a|..], show);
    assert b == a + b[|a|..];
  }

  /**
   gg_json_encode into a byte vector: it succeeds exactly for trees within the visitor's limits
   whose numbers fit their print buffers and whose text fits the vector, and then writes that text.
   */
  method Encode(o: Obj, capacity: nat, show: Show) returns (ret: Error, out: bytes)
    ensures ret == Ok <==> WithinLimits(o) && Printable(o, show) && |Text(o, show)| <= capacity
    ensures ret == Ok ==> out == Text(o, show)
    ensures Printable(o, show) && |Text(o, show)| <= capacity && !WithinLimits(o) ==> ret == Range
    ensures ret != Ok ==> |out| <= capacity && (ret == NoMem || ret == Range)
  {
    hide Replay, VisitObj, Text, Printable, Events, WithinLimits, EventText, WriteEvent, Flat;
    var w, obj;
    EncoderOnlyLooks(show);
    ret, w, obj := VisitLoop(Encoder(show), o, Writer(capacity, []));
    out := w.bytes;
    ghost var seen := VisitIsReplay(Encoder(show), o, Writer(capacity, []));
    ReplayEncodes(Writer(capacity, []), seen, show);
    TextOfEvents(o, show);
    FlatPrefix(seen, Events(o), show);
    ReplayStays(Writer(capacity, []), seen, show);
    assert [] + Text(o, show) == Text(o, show);
  }

  lemma {:induction false} ReplayStays(w: Writer, events: seq<Event>, show: Show)
    requires |w.bytes| <= w.capacity
    ensures var p := Replay(Encoder(show), w, events); |p.ctx.bytes| <= p.ctx.capacity == w.capacity
    decreases |events|
  {
    hide EventText, WriteEvent, Appends;
    if events != [] {
      EventAppends(w, events[0], show);
      var r, t := WriteEvent(w, events[0], show), EventText(events[0], show);
      if t.Some? {
        Bounded(r, w, t.value);
      }
      if r.ret == Ok {
        ReplayStays(r.w, events[1..], show);
      }
    }
  }

  lemma Bounded(r: Wrote, w: Writer, t: bytes)
    requires Appends(r, w, t)
    ensures |r.w.bytes| <= r.w.capacity == w.capacity
  {
  }

  // ---------- strings, as they are written ----------

  /** GgByteVec: a buffer of fixed capacity filled from the front. */
  class ByteVec {
    const data: array<byte>
    var len: nat

    ghost predicate Valid()
      reads this
    {
      len <= data.Length
    }

    ghost function View(): Writer
      requires Valid()
      reads this, data
    {
      Writer(data.Length, data[..len])
    }

    constructor (capacity: nat)
      ensures Valid() && View() == Writer(capacity, []) && fresh(data)
    {
      data := new byte[capacity](_ => 0);
      len := 0;
    }

    /** gg_byte_vec_append. */
    method Append(t: bytes) returns (ret: Error)
      requires Valid()
      modifies this, data
      ensures Valid() && Wrote(View(), ret) == Write(old(View()), t)
    {
      if data.Length - len < |t| {
        return NoMem;
      }
      ghost var before := data[..len];
      var i := 0;
      while i < |t|
        invariant 0 <= i <= |t| && len == old(len) && data[..len + i] == before + t[..i]
      {
        data[len + i] := t[i];
        assert data[..len + i + 1] == data[..len + i] + [t[i]];
        i := i + 1;
      }
      len := len + |t|;
      ret := Ok;
    }

    /** json_encode_on_buf: a quote, byte after byte escaped, a quote; stops at the first failure. */
    method EncodeOnBuf(s: bytes) returns (ret: Error)
      requires Valid()
      modifies this, data
      ensures Valid() && Wrote(View(), ret) == WriteQuoted(old(View()), s)
    {
      hide Write, EscapedByte;
      ret := Append([0x22]);
      if ret != Ok {
        return;
      }
      ghost var quote := View();
      var i := 0;
      assert s[0..] == s;
      while i < |s|
        invariant 0 <= i <= |s| && Valid() && WriteEscaped(View(), s[i..]) == WriteEscaped(quote, s)
      {
        assert s[i..][0] == s[i] && s[i..][1..] == s[i + 1..];
        ret := Append(EscapedByte(s[i]));
        if ret != Ok {
          return;
        }
        i := i + 1;
      }
      assert s[i..] == [];
      ret := Append([0x22]);
    }
  }
}

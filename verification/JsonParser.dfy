/**
 The parser functions of src/json_decode.c as they run: a buffer is the part `pos..end` of the
 document's memory, and matching advances `pos`.
 */
module JsonParser {
  import opened Common
  import opened JsonGrammar
  import opened JsonScanProof

  ghost function Size(p: Parser): nat
    decreases p
  {
    match p
    case OneOf(ps) => 1 + SizeAll(ps)
    case Sequence(ps) => 1 + SizeAll(ps)
    case ZeroOrMore(q) => 1 + Size(q)
    case Maybe(q) => 1 + Size(q)
    case Nested(q) => 1 + Size(q)
    case ResultVal(_, q) => 1 + Size(q)
    case IncrementCount(q) => 1 + Size(q)
    case _ => 1
  }

  ghost function SizeAll(ps: Parsers): nat
    decreases ps
  {
    if ps.End? then 0 else 1 + Size(ps.head) + SizeAll(ps.tail)
  }

  /** The static checks, and the length from which a value may still be entered. */
  ghost predicate Admissible(p: Parser, len: nat, limit: nat) {
    Progresses(p) && (len < limit || (len == limit && Guarded(p)))
  }

  /** A call that matched moved the position by what Run says; one that did not left it alone. */
  ghost predicate Ran(r: Outcome, pos: nat, ok: bool, pos': nat, out': Out) {
    !r.Stuck? && ok == r.Match? && out' == r.out && pos' == if ok then pos + r.n else pos
  }

  method ParserCodepoint(mem: array<byte>, pos: nat, end: nat) returns (n: nat)
    requires pos <= end <= mem.Length
    ensures n == CodepointLen(mem[pos..end])
  {
    ghost var s := mem[pos..end];
    if end - pos < 1 || mem[pos] <= 0x1F || mem[pos] == 0x22 || mem[pos] == 0x5C {
      return 0;
    }
    n := Utf8Len(mem[pos]);
    if n == 0 || end - pos < n {
      return 0;
    }
    var i := 1;
    while i < n
      invariant 1 <= i <= n
      invariant forall j :: 1 <= j < i ==> IsContinuation(s[j])
    {
      if !IsContinuation(mem[pos + i]) {
        assert !IsContinuation(s[i]);
        return 0;
      }
      i := i + 1;
    }
  }

  method ParserStr(mem: array<byte>, pos: nat, end: nat, t: bytes) returns (ok: bool)
    requires pos <= end <= mem.Length
    ensures ok <==> |t| <= end - pos && mem[pos..end][..|t|] == t
  {
    if end - pos < |t| {
      return false;
    }
    assert mem[pos..end][..|t|] == mem[pos..pos + |t|];
    ok := mem[pos..pos + |t|] == t;
  }

  /** What the checks say about a parser they say about its parts. */
  lemma PartsAdmissible(p: Parser, len: nat, limit: nat)
    requires Admissible(p, len, limit)
    ensures p.OneOf? ==> AllProgress(p.alternatives) && (len < limit || (len == limit && AllGuarded(p.alternatives)))
    ensures p.Sequence? ==> AllProgress(p.parts) && (len < limit || (len == limit && HeadGuarded(p.parts)))
    ensures p.Maybe? ==> Admissible(p.p, len, limit)
    ensures p.Nested? ==> Admissible(p.p, len, limit)
    ensures p.ResultVal? ==> Admissible(p.p, len, limit)
    ensures p.IncrementCount? ==> Admissible(p.p, len, limit)
    ensures p.Value? ==> len < limit
  {
  }

  method ParserCall(p: Parser, mem: array<byte>, pos: nat, end: nat, out: Out, ghost limit: nat)
    returns (ok: bool, pos': nat, out': Out)
    requires pos <= end <= mem.Length && Admissible(p, end - pos, limit)
    ensures Ran(Run(p, mem[pos..end], out, limit), pos, ok, pos', out') && pos <= pos' <= end
    decreases limit, Size(p), end - pos, 1
  {
    hide RunOneOf, RunSequence, Progresses, Guarded, Nullable, CodepointLen;
    PartsAdmissible(p, end - pos, limit);
    ghost var s := mem[pos..end];
    assert |s| == end - pos;
    RunContract(p, s, out, limit);
    out' := out;
    pos' := pos;
    match p {
      case Char(c) =>
        ok := pos < end && mem[pos] == c;
        pos' := if ok then pos + 1 else pos;
      case Str(t) =>
        ok := ParserStr(mem, pos, end, t);
        pos' := if ok then pos + |t| else pos;
      case CharRange(lo, hi) =>
        ok := pos < end && !(mem[pos] < lo || mem[pos] > hi);
        pos' := if ok then pos + 1 else pos;
      case Codepoint =>
        var n := ParserCodepoint(mem, pos, end);
        ok, pos' := n > 0, pos + n;
      case OneOf(ps) =>
        ok, pos', out' := CombOneOf(ps, mem, pos, end, out, limit);
      case Sequence(ps) =>
        ok, pos', out' := CombSequence(ps, mem, pos, end, out, limit);
      case ZeroOrMore(q) =>
        ok := true;
        pos', out' := CombZeroOrMore(q, mem, pos, end, out, limit);
      case Maybe(q) =>
        MaybeRuns(q, s, out, limit);
        ok, pos', out' := ParserCall(q, mem, pos, end, out, limit);
        ok := true;
      case Nested(q) =>
        NestedRuns(q, s, out, limit);
        var ignored;
        ok, pos', ignored := ParserCall(q, mem, pos, end, None, limit);
      case ResultVal(ty, q) =>
        ResultRuns(ty, q, s, out, limit);
        ok, pos', out' := ParserCall(q, mem, pos, end, out, limit);
        if ok && out'.Some? {
          out' := Some(out'.value.(ty := ty, from := end - pos, len := pos' - pos));
        }
      case IncrementCount(q) =>
        CountRuns(q, s, out, limit);
        ok, pos', out' := ParserCall(q, mem, pos, end, out, limit);
        if ok && out'.Some? {
          out' := Some(out'.value.(count := out'.value.count + 1));
        }
      case Value =>
        GrammarOk();
        ok, pos', out' := ParserCall(JSON_VALUE, mem, pos, end, out, end - pos);
    }
  }

  method CombOneOf(parsers: Parsers, mem: array<byte>, pos: nat, end: nat, out: Out, ghost limit: nat)
    returns (ok: bool, pos': nat, out': Out)
    requires pos <= end <= mem.Length && AllProgress(parsers)
    requires end - pos < limit || (end - pos == limit && AllGuarded(parsers))
    ensures Ran(RunOneOf(parsers, mem[pos..end], out, limit), pos, ok, pos', out') && pos <= pos' <= end
    decreases limit, SizeAll(parsers), end - pos, 0
  {
    ghost var s := mem[pos..end];
    var ps := parsers;
    out', pos' := out, pos;
    while ps.Next?
      invariant AllProgress(ps) && (AllGuarded(parsers) ==> AllGuarded(ps)) && SizeAll(ps) <= SizeAll(parsers)
      invariant pos' == pos && RunOneOf(ps, s, out', limit) == RunOneOf(parsers, s, out, limit)
      decreases ps
    {
      ok, pos', out' := ParserCall(ps.head, mem, pos, end, out', limit);
      if ok {
        return;
      }
      ps := ps.tail;
    }
    ok := false;
  }

  method CombSequence(parsers: Parsers, mem: array<byte>, pos: nat, end: nat, out: Out, ghost limit: nat)
    returns (ok: bool, pos': nat, out': Out)
    requires pos <= end <= mem.Length && AllProgress(parsers)
    requires end - pos < limit || (end - pos == limit && HeadGuarded(parsers))
    ensures Ran(RunSequence(parsers, mem[pos..end], out, limit), pos, ok, pos', out') && pos <= pos' <= end
    decreases limit, SizeAll(parsers), end - pos, 0
  {
    hide Run, RunSequence, RunOneOf, Progresses, Guarded, Nullable, Size;
    SequenceContract(parsers, mem[pos..end], out, limit);
    var ps := parsers;
    var cur := pos;
    out' := out;
    while ps.Next?
      invariant pos <= cur <= end && AllProgress(ps) && SizeAll(ps) <= SizeAll(parsers)
      invariant end - cur < limit || (end - cur == limit && HeadGuarded(ps))
      invariant Shift(cur - pos, RunSequence(ps, mem[cur..end], out', limit)) == RunSequence(parsers, mem[pos..end], out, limit)
      decreases ps
    {
      ghost var before, o := cur, out';
      Step(ps.head, ps.tail, mem[cur..end], out', limit);
      RunContract(ps.head, mem[cur..end], out', limit);
      ok, cur, out' := ParserCall(ps.head, mem, cur, end, out', limit);
      if !ok {
        return false, pos, out';
      }
      assert mem[before..end][cur - before..] == mem[cur..end];
      ps := ps.tail;
    }
    EmptySequence(mem[cur..end], out', limit);
    return true, cur, out';
  }

  lemma EmptySequence(s: bytes, out: Out, limit: nat)
    ensures RunSequence(End, s, out, limit) == Match(0, out)
  {
  }

  lemma LoopAdmissible(q: Parser, len: nat, limit: nat)
    requires Admissible(ZeroOrMore(q), len, limit)
    ensures Progresses(q) && !Nullable(q) && (len < limit || (len == limit && Guarded(q)))
  {
  }

  method CombZeroOrMore(q: Parser, mem: array<byte>, pos: nat, end: nat, out: Out, ghost limit: nat)
    returns (pos': nat, out': Out)
    requires pos <= end <= mem.Length && Admissible(ZeroOrMore(q), end - pos, limit)
    ensures pos <= pos' <= end && Run(ZeroOrMore(q), mem[pos..end], out, limit) == Match(pos' - pos, out')
    decreases limit, 1 + Size(q), end - pos, 0
  {
    hide Run, RunOneOf, RunSequence, Progresses, Guarded, Nullable, Size;
    LoopAdmissible(q, end - pos, limit);
    pos', out' := pos, out;
    var ok := true;
    while ok
      invariant pos <= pos' <= end && (end - pos' < limit || (end - pos' == limit && Guarded(q)))
      invariant ok ==>
        Shift(pos' - pos, Run(ZeroOrMore(q), mem[pos'..end], out', limit)) == Run(ZeroOrMore(q), mem[pos..end], out, limit)
      invariant !ok ==> Run(ZeroOrMore(q), mem[pos..end], out, limit) == Match(pos' - pos, out')
      decreases ok, end - pos'
    {
      ghost var before := pos';
      LoopRuns(q, mem[pos'..end], out', limit);
      RunContract(q, mem[pos'..end], out', limit);
      ok, pos', out' := ParserCall(q, mem, pos', end, out', limit);
      assert mem[before..end][pos' - before..] == mem[pos'..end];
    }
  }
}

/**
 The JSON grammar of src/json_decode.c: parser combinators as data, and what running one does.

 A parser is run on the bytes remaining in the buffer. It either fails, leaving the buffer as it was,
 or matches some number of bytes at its front. `out` is the ParseResult being filled in, absent where
 the C code passes NULL.
 */
module JsonGrammar {
  import opened Common

  datatype JsonType = TStr | TNumber | TObject | TArray | TTrue | TFalse | TNull

  /** The matched content starts where `from` bytes of the buffer remained and is `len` bytes long. */
  datatype ParseResult = ParseResult(ty: JsonType, from: nat, len: nat, count: nat)

  datatype Parser =
    | Char(c: byte)
    | Str(s: bytes)
    | CharRange(lo: byte, hi: byte)
    | Codepoint
    | OneOf(alternatives: Parsers)
    | Sequence(parts: Parsers)
    | ZeroOrMore(p: Parser)
    | Maybe(p: Parser)
    | Nested(p: Parser)
    | ResultVal(ty: JsonType, p: Parser)
    | IncrementCount(p: Parser)
    | Value

  /** A NULL-terminated array of parsers. */
  datatype Parsers = End | Next(head: Parser, tail: Parsers)

  /** `Stuck` is what the C code would not return from: a loop that consumes nothing, or left recursion. */
  datatype Outcome =
    | Stuck
    | Fail(out: Option<ParseResult>)
    | Match(n: nat, out: Option<ParseResult>)

  // ---------- the grammar ----------

  const DIGIT := CharRange(0x30, 0x39)

  const HEX_DIGIT := OneOf(Next(DIGIT, Next(CharRange(0x41, 0x46), Next(CharRange(0x61, 0x66), End))))

  const UNICODE_ESCAPE :=
    Sequence(Next(Char(0x75), Next(HEX_DIGIT, Next(HEX_DIGIT, Next(HEX_DIGIT, Next(HEX_DIGIT, End))))))

  const ESCAPED :=
    OneOf(Next(Char(0x22), Next(Char(0x5C), Next(Char(0x2F), Next(Char(0x62), Next(Char(0x66),
      Next(Char(0x6E), Next(Char(0x72), Next(Char(0x74), Next(UNICODE_ESCAPE, End))))))))))

  const STR_ESCAPE := Sequence(Next(Char(0x5C), Next(ESCAPED, End)))

  const SPACE := OneOf(Next(Char(0x20), Next(Char(0x0A), Next(Char(0x0D), Next(Char(0x09), End)))))

  const WHITESPACE := ZeroOrMore(SPACE)

  const STR_CHAR := OneOf(Next(Codepoint, Next(STR_ESCAPE, End)))

  const STR := Sequence(Next(Char(0x22), Next(ResultVal(TStr, ZeroOrMore(STR_CHAR)), Next(Char(0x22), End))))

  const NONZERO := Sequence(Next(CharRange(0x31, 0x39), Next(ZeroOrMore(DIGIT), End)))

  const INT_PART := Sequence(Next(Maybe(Char(0x2D)), Next(OneOf(Next(Char(0x30), Next(NONZERO, End))), End)))

  const FRAC_PART := Sequence(Next(Char(0x2E), Next(ZeroOrMore(DIGIT), End)))

  const EXPONENT :=
    Sequence(Next(OneOf(Next(Char(0x65), Next(Char(0x45), End))),
      Next(Maybe(OneOf(Next(Char(0x2B), Next(Char(0x2D), End)))), Next(DIGIT, Next(ZeroOrMore(DIGIT), End)))))

  const NUMBER :=
    ResultVal(TNumber, Sequence(Next(INT_PART, Next(Maybe(FRAC_PART), Next(Maybe(EXPONENT), End)))))

  const OBJECT_KV := Nested(Sequence(Next(STR, Next(WHITESPACE, Next(Char(0x3A), Next(Value, End))))))

  const KV_COMMA := Sequence(Next(OBJECT_KV, Next(Char(0x2C), Next(WHITESPACE, End))))

  const MEMBERS := Sequence(Next(ZeroOrMore(IncrementCount(KV_COMMA)), Next(IncrementCount(OBJECT_KV), End)))

  const OBJECT :=
    Sequence(Next(Char(0x7B), Next(WHITESPACE, Next(ResultVal(TObject, Maybe(MEMBERS)), Next(Char(0x7D), End)))))

  const ARRAY_ELEM := Nested(Value)

  const ELEM_COMMA := Sequence(Next(ARRAY_ELEM, Next(Char(0x2C), End)))

  const ELEMENTS := Sequence(Next(ZeroOrMore(IncrementCount(ELEM_COMMA)), Next(IncrementCount(ARRAY_ELEM), End)))

  const ARRAY :=
    Sequence(Next(Char(0x5B), Next(WHITESPACE, Next(ResultVal(TArray, Maybe(ELEMENTS)), Next(Char(0x5D), End)))))

  const TRUE_TEXT: bytes := [0x74, 0x72, 0x75, 0x65]
  const FALSE_TEXT: bytes := [0x66, 0x61, 0x6C, 0x73, 0x65]
  const NULL_TEXT: bytes := [0x6E, 0x75, 0x6C, 0x6C]

  const ANY_VALUE :=
    OneOf(Next(STR, Next(NUMBER, Next(OBJECT, Next(ARRAY, Next(ResultVal(TTrue, Str(TRUE_TEXT)),
      Next(ResultVal(TFalse, Str(FALSE_TEXT)), Next(ResultVal(TNull, Str(NULL_TEXT)), End))))))))

  const JSON_VALUE := Sequence(Next(WHITESPACE, Next(ANY_VALUE, Next(WHITESPACE, End))))

  // ---------- running a parser ----------

  /** Structural length of a UTF-8 sequence from its first byte; 0 for a continuation or invalid byte. */
  function Utf8Len(b: byte): nat {
    if b < 0x80 then 1
    else if 0xC0 <= b < 0xE0 then 2
    else if 0xE0 <= b < 0xF0 then 3
    else if 0xF0 <= b < 0xF8 then 4
    else 0
  }

  predicate IsContinuation(b: byte) {
    0x80 <= b < 0xC0
  }

  /** parser_json_str_codepoint_fn: bytes of the unescaped string character at the front, or 0. */
  function CodepointLen(s: bytes): (n: nat)
    ensures n <= |s| && n <= 4
  {
    if |s| < 1 || s[0] <= 0x1F || s[0] == 0x22 || s[0] == 0x5C then 0
    else
      var n := Utf8Len(s[0]);
      if n == 0 || |s| < n then 0
      else if forall i :: 1 <= i < n ==> IsContinuation(s[i]) then n
      else 0
  }

  type Out = Option<ParseResult>

  /** The outcome of what follows, seen from `n` bytes earlier. */
  function Shift(n: nat, r: Outcome): Outcome {
    if r.Match? then Match(n + r.n, r.out) else r
  }

  /** What ResultVal records about a match of `n` bytes at the front of `s`. */
  function Marked(out: Out, ty: JsonType, s: bytes, n: nat): Out {
    if out.None? then None else Some(out.value.(ty := ty, from := |s|, len := n))
  }

  function Counted(out: Out, k: nat): Out {
    if out.None? then None else Some(out.value.(count := out.value.count + k))
  }

  function Run(p: Parser, s: bytes, out: Out, limit: nat): (r: Outcome)
    ensures r.Match? ==> r.n <= |s|
    decreases limit, p, |s|
  {
    match p
    case Char(c) => if |s| < 1 || s[0] != c then Fail(out) else Match(1, out)
    case Str(t) => if |s| < |t| || s[..|t|] != t then Fail(out) else Match(|t|, out)
    case CharRange(lo, hi) => if |s| < 1 || s[0] < lo || s[0] > hi then Fail(out) else Match(1, out)
    case Codepoint => var n := CodepointLen(s); if n == 0 then Fail(out) else Match(n, out)
    case OneOf(ps) => RunOneOf(ps, s, out, limit)
    case Sequence(ps) => RunSequence(ps, s, out, limit)
    case ZeroOrMore(q) =>
      var r := Run(q, s, out, limit);
      if r.Stuck? then r
      else if r.Fail? then Match(0, r.out)
      else if r.n == 0 then Stuck
      else Shift(r.n, Run(p, s[r.n..], r.out, limit))
    case Maybe(q) =>
      var r := Run(q, s, out, limit);
      if r.Fail? then Match(0, r.out) else r
    case Nested(q) =>
      var r := Run(q, s, None, limit);
      if r.Stuck? then r else if r.Fail? then Fail(out) else Match(r.n, out)
    case ResultVal(ty, q) =>
      var r := Run(q, s, out, limit);
      if r.Match? then Match(r.n, Marked(r.out, ty, s, r.n)) else r
    case IncrementCount(q) =>
      var r := Run(q, s, out, limit);
      if r.Match? then Match(r.n, Counted(r.out, 1)) else r
    case Value => if |s| < limit then Run(JSON_VALUE, s, out, |s|) else Stuck
  }

  function RunOneOf(ps: Parsers, s: bytes, out: Out, limit: nat): (r: Outcome)
    ensures r.Match? ==> r.n <= |s|
    decreases limit, ps, |s|
  {
    if ps.End? then Fail(out)
    else
      var r := Run(ps.head, s, out, limit);
      if r.Fail? then RunOneOf(ps.tail, s, r.out, limit) else r
  }

  function RunSequence(ps: Parsers, s: bytes, out: Out, limit: nat): (r: Outcome)
    ensures r.Match? ==> r.n <= |s|
    decreases limit, ps, |s|
  {
    if ps.End? then Match(0, out)
    else
      var r := Run(ps.head, s, out, limit);
      if r.Match? then Shift(r.n, RunSequence(ps.tail, s[r.n..], r.out, limit)) else r
  }

  // ---------- the combinator contract ----------

  /** Can the parser match without consuming a byte? */
  predicate Nullable(p: Parser) {
    match p
    case Str(t) => t == []
    case OneOf(ps) => AnyNullable(ps)
    case Sequence(ps) => AllNullable(ps)
    case ZeroOrMore(_) => true
    case Maybe(_) => true
    case Nested(q) => Nullable(q)
    case ResultVal(_, q) => Nullable(q)
    case IncrementCount(q) => Nullable(q)
    case _ => false
  }

  predicate AnyNullable(ps: Parsers) {
    ps.Next? && (Nullable(ps.head) || AnyNullable(ps.tail))
  }

  predicate AllNullable(ps: Parsers) {
    ps.End? || (Nullable(ps.head) && AllNullable(ps.tail))
  }

  /** Every body under zero-or-more consumes at least one byte. */
  predicate Progresses(p: Parser) {
    match p
    case OneOf(ps) => AllProgress(ps)
    case Sequence(ps) => AllProgress(ps)
    case ZeroOrMore(q) => !Nullable(q) && Progresses(q)
    case Maybe(q) => Progresses(q)
    case Nested(q) => Progresses(q)
    case ResultVal(_, q) => Progresses(q)
    case IncrementCount(q) => Progresses(q)
    case _ => true
  }

  predicate AllProgress(ps: Parsers) {
    ps.End? || (Progresses(ps.head) && AllProgress(ps.tail))
  }

  /** A value is entered only after a byte has been consumed. */
  predicate Guarded(p: Parser) {
    match p
    case OneOf(ps) => AllGuarded(ps)
    case Sequence(ps) => HeadGuarded(ps)
    case ZeroOrMore(q) => Guarded(q)
    case Maybe(q) => Guarded(q)
    case Nested(q) => Guarded(q)
    case ResultVal(_, q) => Guarded(q)
    case IncrementCount(q) => Guarded(q)
    case Value => false
    case _ => true
  }

  predicate AllGuarded(ps: Parsers) {
    ps.End? || (Guarded(ps.head) && AllGuarded(ps.tail))
  }

  predicate HeadGuarded(ps: Parsers) {
    ps.End? || (Guarded(ps.head) && (Nullable(ps.head) ==> HeadGuarded(ps.tail)))
  }

  /** A parser that passes both static checks and always consumes something. */
  predicate Solid(p: Parser) {
    Progresses(p) && Guarded(p) && !Nullable(p)
  }

  /** A list of alternatives, each of them solid. */
  predicate AllSolid(ps: Parsers) {
    AllProgress(ps) && AllGuarded(ps) && !AnyNullable(ps)
  }

  lemma SolidAlternatives(p: Parser, rest: Parsers)
    ensures AllSolid(End)
    ensures Solid(p) && AllSolid(rest) ==> AllSolid(Next(p, rest))
  {
  }

  lemma SolidOneOf(ps: Parsers)
    ensures AllSolid(ps) ==> Solid(OneOf(ps))
  {
  }

  /** A sequence whose first part is solid only needs its other parts to progress. */
  lemma SolidSequence(p: Parser, rest: Parsers)
    ensures Solid(p) && AllProgress(rest) ==> Solid(Sequence(Next(p, rest)))
  {
  }

  lemma ProgressParts(p: Parser, rest: Parsers)
    ensures AllProgress(End)
    ensures Progresses(p) && AllProgress(rest) ==> AllProgress(Next(p, rest))
  {
  }

  lemma SolidEscape()
    ensures Solid(UNICODE_ESCAPE)
  {
    assert Solid(HEX_DIGIT);
    assert AllProgress(Next(HEX_DIGIT, Next(HEX_DIGIT, Next(HEX_DIGIT, Next(HEX_DIGIT, End))))) by {
      ProgressParts(HEX_DIGIT, Next(HEX_DIGIT, Next(HEX_DIGIT, End)));
      ProgressParts(HEX_DIGIT, Next(HEX_DIGIT, End));
      ProgressParts(HEX_DIGIT, End);
    }
  }

  lemma SolidStrings()
    ensures Solid(STR) && Progresses(WHITESPACE) && Guarded(WHITESPACE) && Nullable(WHITESPACE)
  {
    SolidEscape();
    assert AllSolid(Next(Char(0x72), Next(Char(0x74), Next(UNICODE_ESCAPE, End))));
    assert AllSolid(Next(Char(0x66), Next(Char(0x6E), Next(Char(0x72), Next(Char(0x74), Next(UNICODE_ESCAPE, End))))));
    assert AllSolid(ESCAPED.alternatives);
    assert Solid(ESCAPED);
    SolidSequence(Char(0x5C), Next(ESCAPED, End));
    assert Solid(STR_ESCAPE);
    assert Solid(STR_CHAR);
    assert Solid(SPACE);
  }

  lemma SolidNumbers()
    ensures Solid(NUMBER)
  {
    assert Solid(NONZERO);
    assert Solid(INT_PART);
    assert Progresses(FRAC_PART);
    assert Progresses(EXPONENT) by {
      ProgressParts(DIGIT, Next(ZeroOrMore(DIGIT), End));
    }
    SolidSequence(INT_PART, Next(Maybe(FRAC_PART), Next(Maybe(EXPONENT), End)));
  }

  lemma SolidObject()
    ensures Solid(OBJECT)
  {
    SolidStrings();
    assert AllProgress(Next(WHITESPACE, Next(Char(0x3A), Next(Value, End)))) by {
      ProgressParts(Char(0x3A), Next(Value, End));
    }
    SolidSequence(STR, Next(WHITESPACE, Next(Char(0x3A), Next(Value, End))));
    assert Progresses(OBJECT_KV) && !Nullable(OBJECT_KV);
    assert Progresses(KV_COMMA) && !Nullable(KV_COMMA) by {
      ProgressParts(Char(0x2C), Next(WHITESPACE, End));
      ProgressParts(WHITESPACE, End);
    }
    assert Progresses(MEMBERS);
    assert Progresses(Maybe(MEMBERS)) && Progresses(ResultVal(TObject, Maybe(MEMBERS)));
    var rest := Next(ResultVal(TObject, Maybe(MEMBERS)), Next(Char(0x7D), End));
    assert AllProgress(rest);
    ProgressParts(WHITESPACE, rest);
    SolidSequence(Char(0x7B), Next(WHITESPACE, rest));
  }

  lemma SolidArray()
    ensures Solid(ARRAY)
  {
    SolidStrings();
    assert Progresses(ARRAY_ELEM) && !Nullable(ARRAY_ELEM);
    assert Progresses(ELEM_COMMA) && !Nullable(ELEM_COMMA);
    assert Progresses(ELEMENTS);
    var rest := Next(ResultVal(TArray, Maybe(ELEMENTS)), Next(Char(0x5D), End));
    assert AllProgress(rest);
    ProgressParts(WHITESPACE, rest);
    SolidSequence(Char(0x5B), Next(WHITESPACE, rest));
  }

  lemma SolidLiterals()
    ensures AllSolid(Next(ResultVal(TTrue, Str(TRUE_TEXT)), Next(ResultVal(TFalse, Str(FALSE_TEXT)),
                     Next(ResultVal(TNull, Str(NULL_TEXT)), End))))
  {
    SolidAlternatives(ResultVal(TNull, Str(NULL_TEXT)), End);
    SolidAlternatives(ResultVal(TFalse, Str(FALSE_TEXT)), Next(ResultVal(TNull, Str(NULL_TEXT)), End));
  }

  /** The JSON grammar passes both static checks. */
  lemma GrammarOk()
    ensures Solid(JSON_VALUE)
  {
    hide Progresses, Guarded, Nullable, AllProgress, AllGuarded, AnyNullable, AllNullable, HeadGuarded;
    SolidLiterals();
    SolidStrings();
    SolidNumbers();
    SolidObject();
    SolidArray();
    var l1 := Next(ResultVal(TNull, Str(NULL_TEXT)), End);
    var l2 := Next(ResultVal(TFalse, Str(FALSE_TEXT)), l1);
    var l3 := Next(ResultVal(TTrue, Str(TRUE_TEXT)), l2);
    SolidAlternatives(ARRAY, l3);
    SolidAlternatives(OBJECT, Next(ARRAY, l3));
    SolidAlternatives(NUMBER, Next(OBJECT, Next(ARRAY, l3)));
    SolidAlternatives(STR, Next(NUMBER, Next(OBJECT, Next(ARRAY, l3))));
    SolidOneOf(ANY_VALUE.alternatives);
    SolidPadded(WHITESPACE, ANY_VALUE);
  }

  /** Whitespace, then something solid, then more whitespace. */
  lemma SolidPadded(w: Parser, p: Parser)
    requires Solid(p) && Progresses(w) && Guarded(w)
    ensures Solid(Sequence(Next(w, Next(p, Next(w, End)))))
  {
    ProgressParts(w, End);
    ProgressParts(p, Next(w, End));
    ProgressParts(w, Next(p, Next(w, End)));
    assert HeadGuarded(Next(p, Next(w, End)));
    assert !AllNullable(Next(p, Next(w, End)));
  }

  /**
   The contract of every parser the checks accept: it never gets stuck, never reads past the
   buffer, and consumes something unless it is nullable. It may enter a value only strictly inside
   `limit`, which is what bounds the recursion of values, objects and arrays.
   */
  lemma {:induction false} RunContract(p: Parser, s: bytes, out: Option<ParseResult>, limit: nat)
    requires Progresses(p) && (|s| < limit || (|s| == limit && Guarded(p)))
    ensures var r := Run(p, s, out, limit); !r.Stuck? && r.out.None? == out.None? && (r.Match? && !Nullable(p) ==> r.n > 0)
    decreases limit, p, |s|
  {
    match p
    case OneOf(ps) => OneOfContract(ps, s, out, limit);
    case Sequence(ps) => SequenceContract(ps, s, out, limit);
    case ZeroOrMore(q) =>
      RunContract(q, s, out, limit);
      var r := Run(q, s, out, limit);
      if r.Match? {
        RunContract(p, s[r.n..], r.out, limit);
      }
    case Maybe(q) => RunContract(q, s, out, limit);
    case Nested(q) => RunContract(q, s, None, limit);
    case ResultVal(_, q) => RunContract(q, s, out, limit);
    case IncrementCount(q) => RunContract(q, s, out, limit);
    case Value =>
      GrammarOk();
      RunContract(JSON_VALUE, s, out, |s|);
    case _ =>
  }

  lemma {:induction false} OneOfContract(ps: Parsers, s: bytes, out: Option<ParseResult>, limit: nat)
    requires AllProgress(ps) && (|s| < limit || (|s| == limit && AllGuarded(ps)))
    ensures var r := RunOneOf(ps, s, out, limit);
            !r.Stuck? && r.out.None? == out.None? && (r.Match? && !AnyNullable(ps) ==> r.n > 0)
    decreases limit, ps, |s|
  {
    if ps.Next? {
      RunContract(ps.head, s, out, limit);
      OneOfContract(ps.tail, s, Run(ps.head, s, out, limit).out, limit);
    }
  }

  lemma {:induction false} SequenceContract(ps: Parsers, s: bytes, out: Option<ParseResult>, limit: nat)
    requires AllProgress(ps) && (|s| < limit || (|s| == limit && HeadGuarded(ps)))
    ensures var r := RunSequence(ps, s, out, limit);
            !r.Stuck? && r.out.None? == out.None? && (r.Match? && !AllNullable(ps) ==> r.n > 0)
    decreases limit, ps, |s|
  {
    if ps.Next? {
      RunContract(ps.head, s, out, limit);
      var r := Run(ps.head, s, out, limit);
      if r.Match? {
        SequenceContract(ps.tail, s[r.n..], r.out, limit);
      }
    }
  }
}

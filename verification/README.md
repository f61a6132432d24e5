# Verified model of the AWS Greengrass component SDK core

The AWS Greengrass component SDK is a small C library that lets a component talk to the Greengrass
nucleus over a local socket. This project models the parts of it that carry the library's logic and
proves what they promise:

- **The IPC stream table** (`src/ipc/client.c`): a fixed table of slots with a stream id, a 16-bit
  generation and a handler, driven by blocked callers, a receive thread, user callbacks and
  `ggipc_close_subscription` under one recursive mutex. `StreamState` is a transition system whose steps
  are the regions in which the mutex is held; `StreamInvariant` and `StreamTheorems` prove safety over
  every run in scope; `StreamOutcome` says what every step does and where return codes come from; `StreamScope` and `StreamZero` say exactly
  what happens outside the scope and when no stream is named; `StreamTable` is the table itself, three arrays and a counter, each of whose methods is proved to
  take the corresponding step.
- **Object trees** (`src/object_visit.c`, `src/object_compare.c`, `src/object_canonical.c`,
  `src/map_canonical.c`, `src/arena.c`, `src/object.c`): a tree datatype whose references carry the address they
  point to. The explicit-stack visitor and the explicit-stack comparison are loops over arrays proved
  against plain recursion; canonical form, measuring and copying are proved on top of the visitor.
- **JSON** (`src/json_encode.c`, `src/json_decode.c`): the parser tables are data (`JsonGrammar`), the
  combinators are methods that interpret them (`JsonParser`), and both are proved equal to a scanner
  written as recursive functions (`JsonScan`, `JsonScanProof`). Decoding is a function of the document
  (`JsonDecode`); the decoder that unescapes strings in the buffer it is still scanning
  (`JsonDecodeInPlace`) is proved to compute it. Printing then decoding is the canonical form
  (`JsonRoundTrip`), `JsonExact` says exactly which trees survive, and `JsonFixpoint` what holds of every decoded tree.
  `JsonKnown` holds tokens, printed text, number forms and error codes against RFC 8259.
- **Wire codecs** (`src/eventstream`, `src/crc32.c`, `src/base64.c`, `src/buffer.c`): EventStream packets and
  framing with their chained CRCs, the table-driven CRC, strict base64, and overflow-checked integer
  parsing.

Bytes are integers from 0 to 255. Integers are unbounded in Dafny; where the C code's width matters (16-bit
generations and lengths, 32-bit message lengths, 64-bit decimal text, CRC words) the model writes it out.
`sizeof(GgObject)` is 11 and `sizeof(GgKV)` is 21, as on platforms with 8-byte pointers; both have alignment 1.

## Findings

Promises that one might expect and that are false of the code. Each is stated as a lemma with the input that shows it,
beside a lemma that says exactly when the promise holds.

- *Every tree that prints can be decoded.* The integer print buffer has 19 bytes and the check after `snprintf` lets a text of
  19 characters through, so its last digit is replaced by NUL (`JsonExact.NineteenDigitsAreLost`). A tree survives printing and
  decoding if and only if every integer lies strictly between -10^17 and 10^18 and every string and key is structurally UTF-8
  (`JsonExact.SurvivesIff`).
- *A timeout ends only the stream of its own call.* A wait that reports a timeout although its answer has arrived closes whatever
  stream now holds its slot: one that another call is waiting on (`StreamScope.LateTimeoutStealsASlot`), or another call's live
  subscription (`StreamScope.LateTimeoutEndsAnotherSubscription`). The TERMINATE names the call's own stream if and only if the
  slot's generation has not moved since the call's handle was issued (`StreamTheorems.TimeoutClosesOwnSlot`).
- *Every step keeps the table sound.* Closing the handle of a call that is still waiting leaves that call without a slot, and
  from inside its own response callback it sends TERMINATE and then subscribes all the same
  (`StreamScope.ClosingWhileWaitingRevivesTheStream`, `StreamScope.RevivedIff`). Of all the steps the code can take, exactly those that
  the scope of the run properties admits keep the table invariant (`StreamScope.ScopeIsExact`); the scope's bound on the number of
  stream ids is there only because the C counter must not overflow.
- *TERMINATE packets name streams.* A subscription callback that closes its own handle and then fails sends a second TERMINATE, for
  stream 0 (`StreamZero.SecondTerminateNamesStreamZero`); so do a late timeout and a handle that was never issued. A step
  sends TERMINATE for stream 0 if and only if it closes a slot that is empty by then (`StreamZero.StreamZeroIff`).

The comment at `src/json_encode.c:31` computes 19 characters for an `int64_t`; the code's behaviour, not the comment, is
modelled. The JSON fraction accepts zero digits after the point (`src/json_decode.c:361-362`), which RFC 8259 does not; the
model follows the code.

## Model

| member | source | states |
|---|---|---|
| `StreamTheorems.TableInvariant` | src/ipc/client.c:150-175 | After every scoped run: no slot is left at -1, occupied slots have distinct ids already handed out, and slots without a callback correspond one to one to the calls still blocked. |
| `StreamTheorems.StepKeeps` | src/ipc/client.c:462-519 | Every step in scope (start, response, message with closes from inside the callback, wake, timeout, close) keeps the full table invariant. |
| `StreamTheorems.RunKeeps` | src/ipc/client.c:543-651 | Every scoped run can be executed to its end and ends in a state satisfying the invariant. |
| `StreamTheorems.ResponseReachesLiveCall` | src/ipc/client.c:462-519 | A packet for a waiting slot writes to the frame of a call that is still blocked and completes that call and no other. |
| `StreamTheorems.TimeoutClosesOwnSlot` | src/ipc/client.c:639-648 | Every timeout the code can take clears exactly the slot the call was given and sends TERMINATE for its occupant; that is the call's own stream if and only if the slot's generation has not moved since the call's handle was issued, equivalently if the stream still holds a slot, and so always for a blocked call. |
| `StreamTheorems.NothingAfterTheEnd` | src/ipc/client.c:331-348 | In every scoped run, after a TERMINATE sent or received for a stream no packet of it reaches a callback, and no call completes twice. |
| `StreamTheorems.EveryStreamIsAccountedFor` | src/ipc/client.c:331-348 | In every scoped run, a stream whose request was sent still holds a slot or was terminated by one of the two sides. |
| `StreamTheorems.HandleValidity` | src/ipc/client.c:101-132 | An issued handle is never 0 and names its slot; it validates exactly when the generation has moved a multiple of 65536 times since issue, and it has not moved exactly while the stream holds the slot. |
| `StreamTheorems.HandleSafety` | src/ipc/client.c:150-175 | Over every scoped run an issued handle validates until its slot is first cleared and then never again before 65536 moves; a stream never regains a slot. |
| `StreamTheorems.CallbackSeesIssuedHandle` | src/ipc/client.c:737-798 | The handle passed to every subscription callback is the one issued for its stream. |
| `StreamScope.ScopeIsExact` | src/ipc/client.c:462-519 | For every step the code can take: it keeps the table invariant if and only if it is in scope. Out of scope are exactly a late timeout of a slot that another call awaits, a close of a waiting call's handle, and a packet whose callback closes a waiting handle, unless that is the handle of the call being answered and the response does not subscribe. |
| `StreamScope.RevivedIff` | src/ipc/client.c:478-503 | A response callback that closes its own waiting handle sends TERMINATE; the stream is live again exactly if the response was handled without error, did not itself terminate the stream and the call is a subscription. |
| `StreamScope.LateTimeoutStealsASlot` | src/ipc/client.c:639-648 | Counter-run: a timeout after the answer clears another call's slot. |
| `StreamScope.LateTimeoutEndsAnotherSubscription` | src/ipc/client.c:639-648 | Counter-run inside the scope: a late timeout of one call ends another call's live subscription. |
| `StreamScope.ClosingWhileWaitingRevivesTheStream` | src/ipc/client.c:478-503 | Counter-run: a handle closed while its call waits is subscribed afterwards, and messages of the ended stream reach the callback. |
| `StreamZero.SecondTerminateNamesStreamZero` | src/ipc/client.c:761-797 | Counter-run: subscribe, answer, then a callback that closes its own handle and fails; TERMINATE goes out for stream 1 and then for stream 0. |
| `StreamZero.StreamZeroIff` | src/ipc/client.c:331-348 | For every step the code can take: a TERMINATE for stream 0 is sent if and only if an empty slot is closed, by a handle that names one, by a callback that closes the slot before the handling of its packet does, or by a late timeout. |
| `StreamZero.CloseAllZeroIff` | src/ipc/client.c:831-841 | A series of closes names stream 0 exactly if it holds an empty slot's handle, or an occupied slot's handle and later that slot's next one. |
| `StreamZero.LateTimeoutNamesStreamZero` | src/ipc/client.c:639-648 | Counter-run: a late timeout after an answer that terminated the stream. |
| `StreamZero.UnissuedHandleNamesStreamZero` | src/ipc/client.c:101-124 | Counter-run: on a fresh table the handle 1, which nobody was given, validates and is closed. |
| `StreamInvariant.CloseAllSlot` | src/ipc/client.c:831-841 | A series of closes empties a slot exactly if the slot's current handle is among them. |
| `StreamOutcome.MessageOutcome` | src/ipc/client.c:761-797 | A packet for a live subscription: the slot stays subscribed if and only if flag bit 1 is clear, the callback returns OK and does not close its own handle, and is empty otherwise; the log gains the delivery, what the callback closed, and then TERMINATE received if the bit is set or TERMINATE sent if only the callback failed; other slots change only by closes. |
| `StreamOutcome.ResponseOutcome` | src/ipc/client.c:462-519 | A packet for a waiting call: the call is completed with the code of its handling; the slot is subscribed if and only if flag bit 1 is clear, the handling returned OK and the call is a subscription, and is empty otherwise, ended by the side that ends it. |
| `StreamOutcome.UnknownIgnored` | src/ipc/client.c:135-147 | A packet whose id is not positive or not in the table changes nothing. |
| `StreamOutcome.StartOutcome` | src/ipc/client.c:588-632 | A new call takes the first free slot under the next id and waits; NOMEM if there is none; a failed send returns its code and frees the slot with its generation moved twice. |
| `StreamOutcome.CloseOutcome` | src/ipc/client.c:831-841 | Closing a slot's current handle sends TERMINATE for the id it holds and empties it with its generation moved; any other handle does nothing. |
| `StreamOutcome.ReturnOutcome` | src/ipc/client.c:639-650 | A woken call returns the code it was completed with, a timed-out call TIMEOUT. |
| `StreamOutcome.CodeComesFrom` | src/ipc/client.c:588-650 | In every scoped run the code that a call has or returned is the one its response was handled with, or TIMEOUT after its timeout, or NOMEM if the table was full when it started, or the code of its failed send. |
| `StreamTable.Table.ClaimStreamIndex` | src/ipc/client.c:150-160 | Claims the first free slot by marking it -1 and moves its generation modulo 2^16, or reports that none is free. |
| `StreamTable.Table.SetStreamIndex` | src/ipc/client.c:163-168 | Writes the id and handler of the slot, nothing else. |
| `StreamTable.Table.ClearStreamIndex` | src/ipc/client.c:171-175 | Empties the slot and moves the generation, nothing else. |
| `StreamTable.Table.GetCurrentHandle` | src/ipc/client.c:127-132 | Generation in the upper and slot + 1 in the lower 16 bits. |
| `StreamTable.Table.ValidateHandle` | src/ipc/client.c:101-124 | Accepts exactly the current handle of a slot in range. |
| `StreamTable.Table.Close` | src/ipc/client.c:331-348 | close_stream: logs the TERMINATE and clears the slot. |
| `StreamTable.Table.CloseSubscription` | src/ipc/client.c:831-841 | Closes the slot of a handle that validates, and otherwise does nothing. |
| `StreamTable.Table.HandleResponse` | src/ipc/client.c:462-519 | response_handler takes the Respond step: callback, completion of the call, and subscription or clearing of the slot. |
| `StreamTable.Table.Subscribe` | src/ipc/client.c:543-651 | The locked part of ggipc_subscribe takes the Start step; it returns NOMEM if no slot was free, the code of a failed send, and otherwise waits. |
| `StreamTable.Table.DispatchPacket` | src/ipc/client.c:737-798 | FAILURE for a negative id, which makes the caller close the connection, and OK otherwise; takes the Receive step, in which ids that are not positive or not in the table change nothing and others go to the waiting call or to the subscription. |
| `StreamTable.Table.GiveUp` | src/ipc/client.c:639-648 | The timeout branch takes the TimeOut step. |
| `Visitor.VisitLoop` | src/object_visit.c:34-158 | The explicit-stack loop returns what the recursive traversal returns, for every handler that keeps kinds and adds no elements; level indices stay in bounds, counters never exceed 255, and it terminates. |
| `Visitor.RankLess` | src/object_visit.c:34-158 | The termination measure: the levels' remaining work read as a number falls on every turn. |
| `Visitor.AtPair` | src/object_visit.c:121-147 | A turn inside a map hands over separator, key and value and leaves the outcome unchanged. |
| `Visitor.AtPop` | src/object_visit.c:34-158 | A finished level hands its object to the level above or ends the visit with it. |
| `VisitTheorems.EmitMeets` | src/object_visit.c:34-158 | Emission is complete if and only if depth is at most 15 and the subobject count at most 255; otherwise what was emitted is a prefix of the tree's events. |
| `VisitTheorems.VisitIsReplay` | src/object_visit.c:34-158 | For a handler that only looks, the visit is the replay of the tree's events: all of them within the limits, a prefix and then RANGE beyond them. |
| `VisitTheorems.TraceLoop` | src/object_visit.c:34-158 | The loop returns OK exactly for depth at most 15 and at most 255 subobjects, RANGE otherwise, and reports exactly the recursive event sequence, or a prefix of it. |
| `VisitTheorems.NestedLimits` | src/object_visit.c:97-120 | A value inside n lists is n + 1 deep and has n subobjects. |
| `VisitTheorems.FlatLimits` | src/object_visit.c:71-95 | Elements count once, pairs twice. |
| `MapCanonical.IsKeyLess` | src/map_canonical.c:15-30 | True if and only if the keys agree up to some position at which the left one ends or has the smaller byte. |
| `MapCanonical.MapGet` | src/map.c:69-82 | The first pair with the key, or none. |
| `MapCanonical.PruneDuplicates` | src/map_canonical.c:32-57 | Swap-with-last pruning leaves pairwise distinct keys and keeps the result of first-match lookup for every key. |
| `MapCanonical.SortKeys` | src/map_canonical.c:59-68 | The insertion sort leaves strictly increasing keys and the same lookups. |
| `MapCanonical.CanonicalizeShallow` | src/map_canonical.c:70-73 | Leaves exactly the canonical form of the pairs it was given, with keys in increasing byte order. |
| `MapOrder.KeyLessIsLexicographic` | src/map_canonical.c:15-30 | The order of keys is that of their first differing byte, a proper prefix first. |
| `MapOrder.KnownCanon` | src/map_canonical.c:32-73 | Pairs b, a, a become a, b with the first of the two values. |
| `MapCanonical.PrunedKey` | src/map_canonical.c:53-54 | What is left behind a shortened map is the key <pruned> with null. |
| `MapCanonical.IsCanonical` | src/map_canonical.c:75-85 | Checking neighbours decides whether the pairs are their own canonical form. |
| `MapOrder.CanonMeets` | src/map_canonical.c:70-73 | The canonical form has strictly increasing keys and the lookups of the original. |
| `MapOrder.CanonIs` | src/map_canonical.c:70-73 | Strictly increasing pairs with the same lookups can only be the canonical form. |
| `MapOrder.CanonIdempotent` | src/map_canonical.c:70-85 | Canonicalising is idempotent, and exactly sorted pairs are unchanged by it. |
| `MapOrder.CanonIsNormalForm` | src/map_canonical.c:70-73 | Two maps have the same canonical pairs if and only if they agree on the lookup of every key. |
| `DeepCanonical.Canonicalize` | src/object_canonical.c:10-27 | Returns OK if and only if the canonical form is at most 15 deep and the visit counts at most 255 subobjects (all pairs of visited maps, values of kept pairs only), RANGE otherwise; leaves the deep canonical form. Trees within the limits always succeed. |
| `DeepCanonical.CanonBounded` | src/object_canonical.c:10-27 | What the visit counts lies between the subobjects of the canonical form and those of the tree, and the canonical form is no deeper. |
| `DeepCanonical.CheckCanonical` | src/object_canonical.c:29-43 | True exactly for trees within the limits all of whose maps are canonical. |
| `DeepCanonical.CanonicalizeThenCheck` | src/object_canonical.c:19-43 | Whenever canonicalising returns OK the check on its result returns true. |
| `DeepCanonical.DeepCanonMeets` | src/object_canonical.c:10-27 | The deep canonical form is canonical and canonical trees are their own. |
| `DeepCanonical.DeepCanonPairs` | src/object_canonical.c:10-17 | Canonicalising a map before its values, as the visitor does, gives the same as after them. |
| `Compare.ObjEq` | src/object_compare.c:69-235 | True if and only if the left tree is within the limits and the trees have the same structure and content, floats compared as IEEE numbers. |
| `Compare.CompareLoop` | src/object_compare.c:69-235 | The loop over two stacks gives the verdict of recursive comparison. |
| `Compare.EqMeets` | src/object_compare.c:69-235 | Recursive comparison with limits is structural equality of a left tree within the limits. |
| `Compare.KnownFloats` | src/object_compare.c:69-235 | Signed zeros are equal, NaNs differ from everything, every other number equals itself only. |
| `Equivalence.EquivIffSameCanon` | src/object_canonical.c:10-27 | Two trees mean the same (lists by element, maps by lookup) if and only if their canonical forms have equal content. |
| `Equivalence.EqAfterCanonicalize` | src/object_compare.c:69-235 | Canonicalising both trees and comparing decides, for all trees, whether they mean the same with floats compared as IEEE numbers; without floats, whether they mean the same. |
| `Equivalence.SameCanonIffAlike` | src/object_compare.c:69-235 | Canonical forms compare equal if and only if the trees agree list by element and map by lookup, floats compared as IEEE numbers. |
| `JsonGrammar.GrammarOk` | src/json_decode.c:333-462 | In the JSON grammar every body under zero-or-more consumes a byte and every value is entered only after one. |
| `JsonGrammar.RunContract` | src/json_decode.c:56-164 | Every parser that passes those two checks terminates on every input, stays inside the buffer and consumes a byte unless it is nullable. |
| `JsonParser.ParserCall` | src/json_decode.c:56-60 | The interpreter advances the position by what the grammar says and leaves it alone on failure; it terminates by remaining length and grammar size. |
| `JsonParser.CombOneOf` | src/json_decode.c:62-75 | Alternatives in order, position restored between them. |
| `JsonParser.CombSequence` | src/json_decode.c:83-98 | Parts in order on what remains; position restored if one fails. |
| `JsonParser.CombZeroOrMore` | src/json_decode.c:106-112 | Repetition until failure, always matching. |
| `JsonParser.ParserCodepoint` | src/json_decode.c:277-331 | Length of the structurally valid UTF-8 character that needs no escape, or 0. |
| `JsonScanProof.RunVal` | src/json_decode.c:380-462 | The grammar of a value matches exactly what the recursive scanner takes and records its type, content extent and element count. |
| `JsonScanProof.RunElems` | src/json_decode.c:424-439 | The elements grammar counts exactly the top-level elements. |
| `JsonScanProof.RunMembers` | src/json_decode.c:400-422 | The members grammar counts exactly the top-level members. |
| `JsonLocal.ValLocal` | src/json_decode.c:781-790 | A value scanned in a longer buffer is scanned the same in any buffer that still holds it. |
| `JsonTwoPass.TwoPassAgreement` | src/json_decode.c:684-820 | Once a value has scanned, the second pass never takes its missing-comma, missing-colon or key-type branches and consumes exactly the scanned bytes. |
| `JsonTwoPass.ItemsAgree` | src/json_decode.c:684-720 | The counted elements are decoded from exactly the content of the array. |
| `JsonTwoPass.PairsAgree` | src/json_decode.c:723-778 | The counted members are decoded from exactly the content of the object. |
| `JsonUnescape.Utf8RoundTrip` | src/json_decode.c:496-529 | The bytes written for a code point decode back to it. |
| `JsonUnescape.SurrogatesRoundTrip` | src/json_decode.c:531-570 | Surrogate pairs and code points above 0xFFFF correspond one to one. |
| `JsonUnescape.UnescapeIsUtf16` | src/json_decode.c:531-629 | A literal unescapes if and only if it is well formed and its surrogate escapes are paired, and then to the UTF-8 of its code points. |
| `JsonUnescape.UnescapeString` | src/json_decode.c:612-629 | In place: the write position never passes the read position, the result is the pure unescape of the original bytes, nothing outside the literal changes. |
| `JsonUnescape.ShortEscapes` | src/json_decode.c:580-606 | The eight short escapes of RFC 8259, each with the byte it stands for, before any tail. |
| `JsonUnescape.UnicodeEscapes` | src/json_decode.c:531-570 | An escape of any code point that is no surrogate, its four digits in either case, becomes the UTF-8 of that code point. |
| `JsonUnescape.SurrogateEscapes` | src/json_decode.c:531-570 | The two escapes of the surrogate pair of any code point above 0xFFFF become its UTF-8. |
| `JsonUnescape.KnownUtf8` | src/json_decode.c:496-529 | One code point of each encoded length. |
| `JsonKnown.CharacterClasses` | src/json_decode.c:250-339 | Whitespace, digits and the characters of short escapes, as characters. |
| `JsonKnown.HexDigits` | src/json_decode.c:252-256 | Hexadecimal digits, as characters in either case. |
| `JsonKnown.NumberForm` | src/json_decode.c:351-378 | An optional minus, a zero or digits without leading zero, an optional point with any digits and an optional exponent with digits are taken as a number, up to what cannot continue it. |
| `JsonKnown.ShortNumbers` | src/json_decode.c:351-378 | A leading zero ends the integer, a fraction may lack digits, an exponent and a minus may not stand alone, and a plus starts no number. |
| `JsonKnown.PaddedText` | src/json_decode.c:448-462 | Whitespace before and after a value belongs to it and moves its content only. |
| `JsonKnown.NumberOutcome` | src/json_decode.c:644-679 | Integer text decodes to its value or RANGE; any other number to what strtod makes of it or RANGE. |
| `JsonKnown.ErrorCodes` | src/json_decode.c:684-851 | PARSE for text that does not scan, is followed by more or does not unescape, NOMEM if elements or members do not fit the arena. |
| `JsonDecodeInPlace.ScanValue` | src/json_decode.c:781-790 | The scan of the buffer with the interpreter gives the recursive scanner's result. |
| `JsonDecodeInPlace.DecodeJsonNumber` | src/json_decode.c:644-679 | Integer or float by the parts present; RANGE exactly if the number is out of range. |
| `JsonDecodeInPlace.TakeJsonVal` | src/json_decode.c:781-820 | The decoding of the bytes as they were before, writing only inside the value's content, every string left in place. |
| `JsonDecodeInPlace.DecodeJsonArray` | src/json_decode.c:684-720 | As decoding the untouched content, although earlier elements have been rewritten by the time later ones are scanned. |
| `JsonDecodeInPlace.DecodeJsonObject` | src/json_decode.c:723-778 | The same for members, followed by canonicalising the pairs. |
| `JsonDecodeInPlace.DecodeDestructive` | src/json_decode.c:822-851 | The outcome is that of decoding the original document; nothing outside it is written; every string and key of the tree is what memory holds at its address. |
| `JsonMemory.DocumentMemory` | src/json_decode.c:822-851 | Arena use on success is exactly one GgObject per list element and one GgKV per raw member; NOMEM only if that does not fit; the arena is unchanged on any error. |
| `JsonMemory.ReceiveArenaSuffices` | src/ipc/client.c:46-46 | A document with at most 255 subobjects never gets NOMEM from the receive arena. |
| `JsonMemory.SpaceIsArena` | src/arena.c:21-58 | The decoder's allocations are the arena allocator's: objects and pairs need no padding. |
| `JsonEncode.Encode` | src/json_encode.c:174-190 | Succeeds exactly for trees within the limits whose numbers fit their print buffers and whose text fits the vector, and then writes that text; RANGE if only the limits are exceeded. |
| `JsonEncode.TextOfEvents` | src/json_encode.c:174-190 | What the handlers print for the events of a tree is the tree's text. |
| `JsonEncode.ReplayEncodes` | src/json_encode.c:19-172 | Over any event sequence the handlers append exactly the events' text, or fail with NOMEM after a prefix of it. |
| `JsonEncode.ByteVec.Append` | src/vector.c:97-107 | Appends all bytes or none. |
| `JsonEncode.ByteVec.EncodeOnBuf` | src/json_encode.c:107-128 | Quote, byte by byte escaped, quote; stops at the first append that fails. |
| `JsonKnown.ControlCharacters` | src/json_encode.c:67-105 | Control characters print as escapes with two capital hexadecimal digits. |
| `JsonKnown.PrintedScalars` | src/json_encode.c:19-46 | An integer and the literals, as characters. |
| `JsonKnown.PrintedString` | src/json_encode.c:107-128 | A string with both escaped characters, as characters. |
| `JsonKnown.PrintedList` | src/json_encode.c:130-145 | Brackets and commas around what elements print. |
| `JsonKnown.PrintedMap` | src/json_encode.c:147-172 | Braces, quoted keys, colons and commas around what values print. |
| `JsonKnown.FloatBuffer` | src/json_encode.c:48-65 | A float prints exactly if its text has at most 26 characters. |
| `JsonPrinted.TextUnescapes` | src/json_encode.c:67-128 | Unescaping undoes escaping for structurally UTF-8 text. |
| `JsonPrinted.IntParses` | src/buffer.c:103-142 | Integer parsing reads back every printed 64-bit integer. |
| `JsonPrinted.QuotedScans` | src/json_decode.c:340-350 | A printed string is scanned up to its closing quote whatever follows. |
| `JsonRoundTrip.RoundTrip` | src/json_decode.c:684-851 | Decoding the text of a float-free tree of proper strings and integers between -10^17 and 10^18 gives its deep canonical form and uses exactly the memory of its elements; a canonical tree comes back unchanged. |
| `JsonRoundTrip.EncodeThenDecode` | src/json_encode.c:174-190 | The encoder's loop followed by the in-place decoder on the buffer it filled gives the deep canonical form. |
| `JsonRoundTrip.ScanText` | src/json_decode.c:380-462 | The scanner takes the printed text of a tree whole, with its element count. |
| `JsonRoundTrip.IntTextLength` | src/json_encode.c:29-46 | An integer prints in fewer than 19 characters if and only if it lies strictly between -10^17 and 10^18. |
| `JsonExact.CleanVal` | src/json_decode.c:250-462 | No scan of a value accepts a NUL byte or text that is not structurally UTF-8. |
| `JsonExact.SurvivesIff` | src/json_encode.c:29-46 | For any tree of 64-bit integers, strings of any bytes, lists and maps: its text can be produced and decoded if and only if every integer lies strictly between -10^17 and 10^18 and every string and key is structurally UTF-8. |
| `JsonExact.NineteenDigitsAreLost` | src/json_encode.c:29-46 | 10^18 prints with a NUL in it and the text is refused. |
| `JsonFixpoint.DecodedIsSound` | src/json_decode.c:822-851 | Every document that decodes, printed or not, gives a canonical tree of 64-bit integers whose strings are structurally UTF-8 unless cut to 65535 bytes. |
| `JsonFixpoint.UnescapedIsUtf8` | src/json_decode.c:612-629 | What a scanned literal unescapes to is structurally UTF-8. |
| `JsonFixpoint.DecodeFixpoint` | src/json_decode.c:822-851 | Decoding, printing and decoding again gives the first tree, for every document whose tree has no floats, integers in range and uncut strings. |
| `IntParse.StrToInt64` | src/buffer.c:103-142 | OK if and only if the text is an optional minus and one or more digits whose value fits int64, and then that value; RANGE for integer text out of range. |
| `IntParse.ChecksAreExact` | src/buffer.c:91-101 | The overflow checks hold exactly when the mathematical product or sum does not fit, for all 64-bit operands. |
| `IntParse.Overflowed` | src/buffer.c:103-142 | Once a prefix of digits is out of range the whole all-digit text is. |
| `Arena.Bump.Allocate` | src/arena.c:21-58 | Aligned, behind everything allocated before, ending where the arena is used up to; refused exactly if padding and size do not fit. |
| `Arena.Bump.ResizeLast` | src/arena.c:60-102 | Succeeds exactly for an owned block that ends at the index and a size that fits; NOMEM exactly if only the size is wrong. |
| `Arena.MemUsage` | src/object.c:178-222 | OK exactly within the limits, and then the recursive sum of buffer, element, pair and key sizes. |
| `Arena.KnownUsage` | src/object.c:178-222 | 11 bytes per element, 21 per pair, and the bytes of keys and strings. |
| `Objects.Sizes` | src/map.c:17-21 | Sizes of an object and a pair from their parts; a pair is at most two objects. |
| `Arena.ClaimVisit` | src/arena.c:123-207 | Claiming any tree: done exactly if limits and free space allow, having taken exactly the sizes of the references that had no memory in the arena and laid those out in order. |
| `Arena.ClaimObj` | src/arena.c:199-207 | Within the limits, success if and only if what the references outside the arena need fits; then exactly that is taken, content is equal, the memory given out tiles the bytes taken, and claiming again takes nothing and changes nothing. For a tree with no memory in the arena the need is the measured usage. |
| `Arena.LaidTiles` | src/arena.c:153-197 | The memory given to references follows each other without gap or overlap. |
| `Arena.ClaimedWantsNothing` | src/arena.c:123-197 | A claimed tree needs no memory and a second claim leaves every address as it is. |
| `Arena.ForeignWantsAll` | src/object.c:178-222 | A tree with no memory in the arena needs exactly what is measured. |
| `Arena.TilesDisjoint` | src/arena.c:21-58 | Tiled references are pairwise disjoint and lie within the bytes taken, hence apart from every earlier allocation. |
| `Arena.LaidContent` | src/arena.c:123-197 | The copy has the content of the original. |
| `Crc.TableStep` | src/crc32.c:49-51 | A table lookup and a shift are eight division steps by the reflected polynomial, for every state and byte. |
| `Crc.MakeCrcTable` | src/crc32.c:35-47 | The table holds the eight-step remainder of every byte. |
| `Crc.UpdateCrc` | src/crc32.c:55-61 | The table-driven loop computes the bitwise CRC. |
| `Crc.UpdateChains` | src/crc32.c:55-61 | The CRC of a concatenation is the CRC of the second part started from the CRC of the first. |
| `Crc.CheckValue` | src/crc32.c:35-61 | The CRC of the digits 123456789 is 0xCBF43926. |
| `Crc.EmptyUpdate` | src/crc32.c:55-61 | The CRC of no bytes leaves the CRC as it is. |
| `Wire.WordRoundTrip` | src/eventstream/decode.c:16-20 | Big-endian words and their bytes determine each other. |
| `Wire.WordOrder` | src/eventstream/encode.c:17-22 | Most significant byte first: words are ordered as their bytes are. |
| `Wire.LengthOrder` | src/eventstream/encode.c:62-75 | The same for the 16-bit length of a string. |
| `Wire.KnownHeaders` | src/eventstream/encode.c:24-94 | Headers of both types, negative integers included, byte for byte. |
| `Wire.EmptyPacket` | src/eventstream/encode.c:96-171 | The packet without headers and payload, byte for byte with both CRCs. |
| `Wire.HeaderReads` | src/eventstream/decode.c:68-123 | An encoded header is taken whole and read back, whatever follows. |
| `Wire.HeadersParse` | src/eventstream/decode.c:125-141 | Encoded headers parse back to the same headers. |
| `Wire.ParsedIsEncoded` | src/eventstream/decode.c:125-141 | A header section that validates is the encoding of the headers read from it. |
| `Wire.PreludeReads` | src/eventstream/decode.c:31-65 | A written prelude decodes to its lengths and to the CRC of its twelve bytes. |
| `Wire.DataReads` | src/eventstream/decode.c:143-215 | The rest of an encoded packet decodes to its message; the decoder's prelude-then-data CRC is that of all bytes before the trailer. |
| `Wire.AcceptedIsPacket` | src/eventstream/decode.c:31-215 | Bytes that pass every check are the packet of the message returned. |
| `EventStreamEncode.HeaderEncode` | src/eventstream/encode.c:24-94 | Appends the header's bytes, or returns the error that comes first. |
| `EventStreamEncode.HeadersVerdictMeans` | src/eventstream/encode.c:123-135 | Headers encode if and only if all are representable and they fit. |
| `EventStreamEncode.SealedIsPacket` | src/eventstream/encode.c:150-166 | The trailer, a CRC continued from the prelude's, is the CRC of everything before it. |
| `EventStreamEncode.Seal` | src/eventstream/encode.c:144-168 | Back-patching lengths and CRCs around the body gives the sealed packet; where the 32-bit message length wraps, the CRC length wraps back and the outcome is NOMEM. |
| `EventStreamEncode.Encode` | src/eventstream/encode.c:96-171 | The buffer holds exactly the packet of the headers and payload on success; the exact error otherwise. |
| `EventStreamEncode.HeaderErrors` | src/eventstream/encode.c:24-94 | RANGE for a long name or string, NOMEM for lack of room, PARSE for an unknown type, in that order of the checks. |
| `EventStreamEncode.PacketErrors` | src/eventstream/encode.c:96-171 | The headers' error first, then the payload's, then NOMEM for the trailer. |
| `EventStreamDecode.CountHeaders` | src/eventstream/decode.c:125-141 | The number of headers, or PARSE exactly if the section does not parse. |
| `EventStreamDecode.HeaderIter.Next` | src/eventstream/decode.c:217-271 | After validation the unchecked iterator stays inside the section, returns the next header and leaves the rest; RANGE when none is left. |
| `EventStreamDecode.ReadAll` | src/eventstream/decode.c:190-210 | Run until it refuses, the iterator yields all headers in order and ends exactly at the end of the section. |
| `EventStreamDecode.DecodeMessage` | src/eventstream/decode.c:143-215 | The message of the data section with its iterator and payload, or PARSE. |
| `EventStreamDecode.ReadPrelude` | src/eventstream/decode.c:31-65 | The prelude of the first twelve bytes or its refusal. |
| `EventStreamDecode.GetPacket` | src/eventstream/rpc.c:15-51 | One packet from the stream: its message, its exact number of bytes consumed, or the error, with one buffer used for both reads. |
| `EventStreamDecode.ReadErrors` | src/eventstream/rpc.c:15-51 | FAILURE if the stream ends, PARSE if prelude or packet do not check, NOMEM if the packet does not fit, each with the bytes consumed. |
| `EventStreamDecode.PreludeRefusals` | src/eventstream/decode.c:31-65 | RANGE below 12 bytes, PARSE exactly for a wrong CRC, a message length below 16 or headers longer than the message allows. |
| `EventStreamDecode.PacketReads` | src/eventstream/rpc.c:15-51 | Reading an encoded packet that fits returns its message and consumes exactly it, whatever follows. |
| `EventStreamDecode.ReadIsPacket` | src/eventstream/rpc.c:15-51 | What a successful read consumes is the encoding of what it returns. |
| `EventStreamDecode.Framing` | src/eventstream/rpc.c:15-51 | Reading a concatenation of encoded packets returns exactly that message sequence. |
| `EventStreamDecode.FramingInverse` | src/eventstream/rpc.c:15-51 | Only such a concatenation can be read to its end. |
| `EventStreamDecode.GetCommonHeaders` | src/eventstream/rpc.c:53-93 | INVALID exactly if a common header is not an integer; otherwise the last value of each name, or 0. |
| `EventStreamDecode.LastIntMeans` | src/eventstream/rpc.c:53-93 | The last header of a name wins. |
| `EventStreamDecode.AbsentIsZero` | src/eventstream/rpc.c:53-93 | A header that is absent counts as 0. |
| `EventStreamDecode.CommonNames` | src/eventstream/rpc.c:53-93 | The common headers are :message-type, :message-flags and :stream-id. |
| `Base64.CharsRoundTrip` | src/base64.c:13-28 | Digit values and characters correspond one to one, and padding is none of them. |
| `Base64.Alphabet` | src/base64.c:126-127 | The alphabet and padding of RFC 4648, as characters. |
| `Base64.KnownTexts` | src/base64.c:129-167 | The RFC 4648 texts of f, fo and foo. |
| `Base64.GroupDecodes` | src/base64.c:30-97 | A segment decodes to the one to three bytes it was made from. |
| `Base64.GroupEncodes` | src/base64.c:30-97 | An accepted segment is the only one for its bytes, because unused bits are refused. |
| `Base64.DecodeEncoded` | src/base64.c:99-167 | Decoding undoes encoding. |
| `Base64.EncodeDecoded` | src/base64.c:99-120 | Every accepted text is exactly the encoding of its result. |
| `Base64.Decode` | src/base64.c:99-120 | The loop computes decoding of the text as it was, into separate memory or over the text itself; it fails exactly on refused text or too little room. |
| `Base64.DecodeInPlace` | src/base64.c:122-124 | In-place decoding gives what decoding into separate memory gives. |
| `Base64.Encode` | src/base64.c:129-167 | The two loops write the encoding; NOMEM exactly if it does not fit. |

## Left out

- Sockets, epoll, files, random numbers, sleep and start-up (`src/socket.c`, `src/socket_epoll.c`, `src/file.c`, `src/rand.c`, `src/sleep.c`, `src/init.c`): the byte source is a sequence with a cursor, a send is an entry in a log.
- Connecting to the nucleus and the per-operation wrappers (`src/ipc/client/*.c`): argument packing and error mapping, easy members only.
- Clocks, fairness and condition-variable wake-ups: only the order of steps under the mutex matters; what a user callback does, and the code it returns, is a parameter of the step.
- Exhaustion of `next_stream_id`: run properties are stated for runs in which fewer than 2^31 - 1 calls are started, because the C increment is undefined beyond that.
- Floating-point formatting and `strtod`: the text of a float and the value of a number's text are parameters.
- Logging and tracing: no effect on results.
- Pointer packing in `GgObject` and `GgKV`: trees are datatypes; a list or string too long for 16 bits is cut to 65535 as in a build without assertions.
- Contents of arena memory: a claimed or decoded list is a sequence in the tree together with its address; that `memcpy` copies is taken from the value, not from a model of raw memory. Strings decoded from JSON are tied to the bytes of the document buffer.
- Handlers that add elements or change the kind of the object they are given: none of the library's handlers does.
- The tree and the arena as a visitor leaves them after an error: callers discard both.
- The NULL arena: it behaves as an arena without memory, except that an allocation of no bytes from it gives NULL as well, so that `gg_base64_encode` of an empty buffer then returns NOMEM.
- `gg_map_get_path`, `gg_map_validate`, `gg_arena_alloc_rest`, `gg_arena_claim_obj_bufs` and the buffer prefix and suffix helpers: only easy members.
- `src/backoff.c`, `src/math.c`, `src/list.c`, `src/alloc.c` and the other vector functions: single-branch helpers.
- The C++ and Rust bindings, samples, mock server and tests: wrappers and scaffolding.
- JsonDecode.Decode: an object or list is built in the model also where the caller passes no place for it; only its memory use then differs, which the `want` argument models.
- Arena.ClaimObj: which of RANGE and NOMEM is reported first for a tree beyond the limits is not stated.
- JsonDecodeInPlace.DecodeJsonNumber: `strtod` is given exactly the number's bytes, although the C call goes on to the next byte that cannot belong to a number, which in an accepted document is the byte after it.
- Compare.ObjEq: a float is its bit pattern, compared as IEEE 754 prescribes, so a tree with a NaN differs from itself.

# Verified model of the Codex keyboard module

A Dafny model of the part of the firmware that moves JSON between a host and the device, and proofs
about it. The firmware receives vendor reports of 63 octets over USB or Bluetooth, puts JSON texts
together from their fragments, answers JSON-RPC requests, and cuts the answers into reports again.
Check everything with `dafny verify --resource-limit 2000000 --verification-time-limit 0 dfyconfig.toml`.

## How it is laid out

| Files | Subject |
|---|---|
| `Bytes`, `JsonSyntax`, `JsonPrefix`, `JsonGrammar`, `Unicode`, `JsonParser` | the incremental validator: as functions on positions, as the grammar of RFC 8259, as the cursor class of the source |
| `JsonUnfinished`, `JsonFinish`, `JsonExtension` | which INCOMPLETE texts can still become acceptable, and with which octets |
| `ChannelSpec`, `ChannelRuns`, `ChannelLaws`, `Encoding`, `FramingSpec`, `ReportLaws`, `FramingState` | reassembly and encoding: one channel, runs, what one fragment and one report decide, the round trip, transports and generations, the mutable state |
| `Tokenizer`, `JsonString`, `Spelling`, `JsonObject`, `JsonMoves`, `JsonMembers`, `JsonSpans` | the unchecked second pass over validated text: tokens, strings and every way to spell them, members, elements |
| `Decimal`, `DecimalLaws`, `Lighting`, `LightingLaws`, `LightingState` | exact decimal numbers and their value as written, and the two calls that change the lighting model |
| `RpcRequest`, `RpcResponse`, `RpcDispatch`, `RequestLaws`, `RpcOutcomes` | requests, responses, dispatch, and what a client writes and reads |
| `RouterSpec`, `RouterRuns`, `RouterLanes`, `RouterEpochs`, `RouterLaws`, `RouterState` | the report router as a state machine, what its runs keep, what each event does, and its handlers |
| `Sessions`, `UsbSession`, `BleSession`, `RouterAnswers`, `RouterExamples` | what one connection carries and a receiver makes of it, over USB and over Bluetooth, where answers go, and runs in which it goes wrong |
| `Touch`, `TouchActions`, `TouchState` | the touch gestures, their references, the ring buffer |

Code that the source writes as loops over mutable state is a method or a class here, proved equal to a
function; the theorems are about these functions. The modules whose names end in `Laws`, and `Spelling`,
`JsonSpans`, `RpcOutcomes`, `RouterAnswers` and `TouchActions`, say what the functions compute without their definitions:
from the octets and literals of the documents, from the states before and after, or from a reference.

## Choices

* A text is a sequence of octets. The validator is a class with the cursor of the source; its input is
  a sequence instead of a pointer with a length. The depth that remains is the `decreases` of the
  recursive methods, so the depth limit bounds the stack.
* `parse_string`, `parse_number`, `parse_object`, `parse_request`, `exact_integer_value` and the two
  lighting calls are split into several methods at their natural joints; each part has its own contract.
* The JSON callback of the framing layer runs before the channel is reset. Here the step of the channel
  comes first and the callback second. The order does not matter: a recovery inside the callback clears
  the whole transport, and clearing the channel after that changes nothing.
* The emitter of `codex_framing_encode` is a predicate that says which reports the link takes. What
  `emit_pinned` does besides sending is done after the last report that was tried; the source stops
  there too.
* The router is a machine of atomic steps: every section under the lock, the dequeue outside of it,
  `finalize_pin` after it, the recovery worker, and increments of the Bluetooth generation by others.
  `codex_router_on_usb_state` reads the recovery flag just before it takes the lock; the model has the
  read and the section as one step. `RouterRuns.StaleReadOpensTheGate` shows exactly when a read that is
  out of date breaks the gate of the recovery, and `RouterExamples.TheGateOpens` is a run where it does.
* The session results are stated for runs without `codex_router_send_vendor`, which writes reports of any
  content between those of an encoding.
* Over USB every session is whole texts and then at most one torn one: the recovery closes USB under the
  same lock. Over Bluetooth the connection is aborted in `finalize_pin`, after the lock was given back.
  `BleSession.EveryBleSessionDecided` says exactly when a Bluetooth session is as good: no text of it may
  start while a torn one of it is outstanding, which means that its pin still waits for the abort, or
  that the abort failed, or that none was asked because another connection had become the active one.
  `RouterExamples.CollisionLosesTheText` is a run in which that happens and a text sent with success is
  lost. A Bluetooth session is what one generation and one profile carry.
* A report that the Bluetooth link does not get is refused by the link, or came after an increment of
  the generation, or while another connection was active; the environment chooses which. An abort that
  succeeds ends the generation in the same step.
* The validator tests the length of an escape before its digits, so that a channel may keep octets that
  nothing can make acceptable, such as the string `"\uZ`, until more octets arrive. What it keeps never
  scans INVALID (`ChannelSpec.RetainedIsNeverInvalid`); `JsonExtension.ExtensionDecided` says exactly
  which of these texts can become acceptable.
* `number_value` works in floating point. It is a parameter: for every number either a real result, or
  nothing where it overflows. The results about exact integers hold for every such parameter.
* `exact_integer_value` saturates the exponent. For the maxima that the source passes (6, 5, 1 and
  0xFFFFFF) this does no harm. `Decimal.ExactnessDecided` shows that it does none for any maximum below
  10^8 and that it does for every maximum from there on, as far as the range check lets such numbers pass.
* The round trip through the framing layer is no identity for all texts. `Encoding.RoundTripDecided`
  gives the exact condition: no line break may follow the value, and where the terminator forces an
  extra cut, text that looks complete there is delivered too early. A number of 60 digits is such a text.
* Between taking a report from a queue and processing it the lock is free. A report that is held while
  its transport is invalidated a multiple of 2^32 times passes for a new one, over Bluetooth only if its
  token is that of the present connection as well (`RouterEpochs.WrapIsTheOnlyGap`); the run
  `RouterExamples.AnOldItemPasses` ends that way. The epoch results exclude it.
* In `parse_request` the tests for a member that was seen before cannot fire, because a key with the same
  meaning is refused first. In `framed_json_received` the test of the source against the pin cannot fire
  either under the lock; it is modelled all the same.

## Model

| member | source | states |
|---|---|---|
| `JsonPrefix.ScanPrefix` | src/protocol/json_value.c:372-410 | no prefix of an acceptable text is INVALID; cut before the end of a root that is no number it is INCOMPLETE, wherever the cut falls; from the end of the root on the verdict and the root are those of the whole text |
| `JsonGrammar.ScanDecidesGrammar` | src/protocol/json_value.c:347-410 | COMPLETE exactly for the texts of sections 2 to 7 of RFC 8259 in well-formed UTF-8, nested at most to the limit, with surrogate escapes only in pairs; for no text at all with limit 0 |
| `JsonGrammar.OctetsOfGrammar` | src/protocol/json_value.c:72-345 | the octets that the grammar names, by their codes |
| `JsonExtension.ExtensionDecided` | src/protocol/json_value.c:372-410 | an INCOMPLETE text has an acceptable continuation if and only if its value is what is unfinished, and the escape or UTF-8 sequence at its end, if one is cut short, has begun in a way that can be completed |
| `JsonExtension.ExtensionNeeds` | src/protocol/json_value.c:372-410 | every text with an acceptable continuation meets that condition |
| `JsonExtension.ExtensionExists` | src/protocol/json_value.c:372-410 | for every text that meets it there are octets that make it COMPLETE |
| `JsonExtension.HopelessIsKept` | src/protocol/json_value.c:86-103 | an escape with a letter that is no digit is INCOMPLETE and kept, though no continuation is acceptable |
| `Unicode.ValidatorDecidesUtf8` | src/protocol/json_value.c:24-70 | COMPLETE exactly for the octets that are the encoding of some sequence of scalar values by section 3 of RFC 3629 |
| `JsonParser.ValidateUtf8` | src/protocol/json_value.c:24-70 | the loop with its bounds for the second octet computes the verdict that the theorem above is about |
| `JsonParser.Parser.ParseHex4` | src/protocol/json_value.c:86-103 | four digits in either case, INCOMPLETE if fewer are left, and the value they have |
| `JsonParser.Parser.ParseString` | src/protocol/json_value.c:105-172 | ends behind the closing quote; escapes, control octets and surrogates are judged as the grammar judges them |
| `JsonParser.Parser.ParseArray` | src/protocol/json_value.c:174-212 | the verdict and the position for an array, without a comma before the bracket, within the remaining depth |
| `JsonParser.Parser.ParseObject` | src/protocol/json_value.c:214-263 | the verdict and the position for an object: keys are strings, each with a colon and a value, no comma before the brace |
| `JsonParser.Parser.ParseNumber` | src/protocol/json_value.c:289-345 | the longest number from here, INCOMPLETE where the text ends inside it |
| `JsonParser.Parser.ParseValue` | src/protocol/json_value.c:347-370 | any value; refuses nesting beyond the limit |
| `JsonParser.ScanValue` | src/protocol/json_value.c:372-410 | verdict, kind of the root and end of the value, for every text and limit |
| `ChannelSpec.IngestAccounts` | src/protocol/framing.c:253-344 | one fragment delivers at most one text, which is acceptable and ends in its value and blanks; with the dropped terminator it is all that was received since the channel was idle; otherwise everything is kept, or an error drops it |
| `ChannelSpec.RetainedIsNeverInvalid` | src/protocol/framing.c:253-344 | what a channel keeps never scans INVALID |
| `ChannelLaws.FragmentDecided` | src/protocol/framing.c:253-360 | everything that one fragment can do, with status and new state: LF ends a wait and anything else fails; a line break before a text is dropped; an empty fragment delivers exactly what can be delivered; any other fragment is decided by all the octets then received, however much of them the buffer holds: a text with LF or CRLF behind it is delivered, one with CR waits, one that a full report may have cut waits, too much is refused as too long and the rest as invalid |
| `ChannelLaws.DeliverableIs` | src/protocol/framing.c:114-138 | what can be delivered, in octets: at most 1024 of them, acceptable, with only spaces and tabs behind the value |
| `ChannelLaws.EmptyFragmentDelivers` | src/protocol/framing.c:284-301 | from every state that collects, an empty fragment delivers all that was received if it can be delivered, and otherwise fails and leaves the channel idle |
| `ChannelLaws.NumberNeedsEmptyFragment` | src/protocol/framing.c:207-213 | a number in any pieces with an empty fragment behind them is delivered by that fragment, and not before, if and only if the first piece fills its report or is no number yet |
| `ChannelLaws.EveryParcelArrives` | src/protocol/framing.c:215-360 | texts of any root one after the other, numbers closed by an empty fragment and others by any terminator or none, cut in any way: exactly these texts come out |
| `ChannelRuns.RunConserves` | src/protocol/framing.c:215-360 | over a run without errors the fragments put together are the delivered texts with one terminator each at most, and what is kept |
| `ChannelRuns.DeliveredIsDeliverable` | src/protocol/framing.c:164-213 | every text of every run scans COMPLETE and has only spaces and tabs behind its value |
| `ChannelRuns.FragmentationIndependence` | src/protocol/framing.c:215-360 | texts with a root that is no number and no white space around it, each with any terminator, cut in any way: exactly these texts come out, in order, and the channel ends idle; with terminators that overflow the buffer or come late |
| `Encoding.FragmentsFit` | src/protocol/framing.c:376-404 | the reports carry 1 to 61 octets, together the text and CRLF, and the last one carries at least one octet of the text |
| `Encoding.RoundTripDecided` | src/protocol/framing.c:362-404 | encoding and decoding give back the text if and only if a condition on the text alone holds |
| `Encoding.TrimmedIsSafe` | src/protocol/framing.c:362-404 | the condition holds for every root that is no number with nothing behind it; every proper beginning of its reports delivers nothing |
| `Encoding.PlainNumberIsSafe` | src/protocol/framing.c:381-384 | it holds for numbers from the first octet to the last, of every length but 60 and 61 |
| `Encoding.SixtyDigitsAreCut` | src/protocol/framing.c:207-208 | it fails for a number of 60 digits: the receiver gets the first 59 as one text and the last as another |
| `Encoding.SafePrefixIsSilent` | src/protocol/framing.c:362-404 | no proper beginning of the reports of a safe text delivers anything or resets the channel |
| `FramingSpec.GenerationRefinesCounter` | src/protocol/framing.c:140-162 | for counts less than 2^31 apart the 32-bit test accepts exactly those that are not older; a newer one empties both channels, an older one changes nothing |
| `FramingSpec.GenerationsFollowNewest` | src/protocol/framing.c:140-162 | over any run of such counts the stored generation is that of the newest, across any number of wrap-arounds |
| `FramingSpec.InterleavingIsIrrelevant` | src/protocol/framing.c:215-251 | however reports of two transports and two channels mix, each channel delivers what its own reports deliver alone |
| `FramingSpec.NewerClearsOnlyItsTransport` | src/protocol/framing.c:59-63 | a newer generation starts its transport afresh and leaves the other one alone |
| `ReportLaws.ReportDecided` | src/protocol/framing.c:215-251 | everything that one report can do: an older generation changes nothing, a newer one empties both channels; an unknown channel is refused; a malformed report empties its channel; any other is a fragment for its own channel; the other channel keeps what it holds |
| `FramingSpec.WellFormedRunsAsFragments` | src/protocol/framing.c:215-251 | reports with header and padding run like the fragments in them |
| `FramingState.ChannelState.AnalyzeTrail` | src/protocol/framing.c:114-138 | what stands behind the value: blanks, a terminator, a lone CR, or something else |
| `FramingState.ChannelState.HandleCompleteValue` | src/protocol/framing.c:173-213 | deliver, wait for LF, wait for more, or drop, and the new state of the channel |
| `FramingState.ChannelState.IngestPayload` | src/protocol/framing.c:242-360 | one report on its channel, with the buffer written in place: the step of `FramingSpec.Deliver` |
| `FramingState.TransportState.Accept` | src/protocol/framing.c:140-162 | the same test on the mutable state: accepted or refused, and both channels emptied or kept |
| `FramingState.TransportState.Ingest` | src/protocol/framing.c:215-360 | one report on a transport: what is delivered, the status, and the state of both channels |
| `FramingState.Encode` | src/protocol/framing.c:362-404 | nothing is sent unless the text is acceptable; the reports go out in order, up to the first that the link refuses |
| `Tokenizer.TokenizerRefinesParser` | src/protocol/rpc.c:223-251 | from the start of any value in validated text the bounds-free tokenizer stops exactly where the parser stops, never reads behind the text, and never has more than 32 brackets open |
| `Tokenizer.SkipToken` | src/protocol/rpc.c:210-221 | a string ends where the parser ends it |
| `Tokenizer.SkipJsonValue` | src/lighting/model.c:91-119 | the loop with its array of delimiters, for both tokenizers |
| `JsonString.NextCodepoint` | src/protocol/rpc.c:115-168 | the next code point of a validated string, with escapes and surrogate pairs resolved, or that there is none |
| `Spelling.SpellingDecodes` | src/protocol/rpc.c:115-168 | a string spelled in any way, each code point in UTF-8, by a short escape, or by the escapes of its UTF-16 units with digits in either case, is a token and means exactly these code points |
| `Spelling.EveryTokenIsSpelled` | src/protocol/json_value.c:105-172 | and every token is such a spelling of what it means |
| `Spelling.SpellingsAgree` | src/protocol/rpc.c:190-208 | spellings compare equal exactly if they spell the same code point: a surrogate pair and its UTF-8, an escaped slash and a plain one |
| `Spelling.PrintedIsShortest` | src/protocol/rpc.c:403-438 | the writer spells each ASCII octet by the shortest of its spellings, with digits in lower case |
| `JsonString.StringsEqual` | src/protocol/rpc.c:190-208 | true exactly if both strings mean the same code points, however they are escaped |
| `JsonString.EqualsLiteral` | src/protocol/rpc.c:170-188 | true exactly if the value is a string that means the literal |
| `JsonString.PrintedDecodes` | src/protocol/rpc.c:387-439 | the printed form of any well-formed text is accepted by the parser and decodes to the code points of the text |
| `JsonString.PrintingIsInjective` | src/protocol/rpc.c:387-439 | printed texts mean the same only if they are the same |
| `JsonObject.PrintedObjectScans` | src/protocol/rpc.c:502-577 | a printed object of any shape is one acceptable text, and its members read back are the printed ones |
| `JsonMoves.ValueStandsAlone` | src/lighting/model.c:215-241 | a value cut out of an acceptable text is an acceptable value of its own |
| `JsonMembers.ScanMember` | src/lighting/model.c:215-241 | key and value of the next member are those that the parser saw |
| `JsonSpans.ObjectIsItsMembers` | src/protocol/rpc.c:282-352 | the text of a root object is its members in order, each key, colon and value with white space around them, commas between them, and nothing else |
| `JsonSpans.ObjectIsItsFields` | src/lighting/model.c:215-241 | the same for an object on its own |
| `JsonSpans.ArrayIsItsElements` | src/lighting/model.c:812-842 | an array on its own is its elements in order, with white space and commas between them, and nothing else |
| `Decimal.NumberIsInteger` | src/lighting/model.c:328-398 | true exactly if mantissa times power of ten is an integer, though the exponent is only counted up to a limit |
| `DecimalLaws.WrittenMeans` | src/lighting/model.c:328-504 | for a number written with any sign, digits before and behind the point, and exponent, with its value as a sum of tens and tenths: it counts as an integer exactly if that value is one, and denotes it then |
| `DecimalLaws.EveryDecimalIsWritten` | src/lighting/model.c:328-345 | every number that is evaluated is written in this way |
| `Decimal.ExactIntegerValue` | src/lighting/model.c:406-504 | fails exactly if the range check fails or the number is no integer; else sign and magnitude, or that it is above the maximum |
| `Decimal.ComputedDecides` | src/lighting/model.c:406-504 | for maxima below 10^8 the saturated value compares with the maximum like the exact one, and equals it when it is not above |
| `Decimal.ExactnessDecided` | src/lighting/model.c:406-504 | 10^8 is exactly where this ends: for every larger maximum some number of at most 1024 octets is misjudged |
| `Decimal.SaturationIsVisible` | src/lighting/model.c:406-504 | such a number, for each of those maxima |
| `Decimal.BoundedInteger` | src/lighting/model.c:506-522 | accepts exactly the integers between the bounds |
| `Decimal.ParseColor` | src/lighting/model.c:561-569 | the stored colour is the number clamped to 0 and 0xFFFFFF |
| `Lighting.PatchedMeans` | src/lighting/model.c:615-633 | each property that is named holds its value afterwards, every other one what it held before, in whatever order they are named |
| `LightingLaws.SettingsDecided` | src/lighting/model.c:535-613 | by name: the members of a zone are settings exactly if each is `e`, `b`, `s`, `c`, or `m` where a mode is allowed, with a number that fits, or of an agent also `id`, `sk` and `sa`, and no key comes twice |
| `LightingLaws.SettingsMean` | src/lighting/model.c:615-633 | by name: what each member stores, kept within its bounds, and that a property without a member stays |
| `LightingLaws.TrimIs` | src/lighting/model.c:67-76 | exactly the white space around the parameters is taken off |
| `Lighting.ZonesMean` | src/lighting/model.c:775-790 | each zone is changed by its own member alone, and the agents by none |
| `Lighting.AgentsMean` | src/lighting/model.c:844-862 | each agent is changed by the element that names it alone, and the zones by none |
| `LightingLaws.ConfigDecided` | src/lighting/model.c:725-796 | by name: a configuration is an object with a member `keys`, a member `ambient`, or both, each with at least one setting and nothing else |
| `LightingLaws.ConfigMeans` | src/lighting/model.c:775-790 | each of the two zones is set by the member under its own name, and no agent changes |
| `LightingLaws.StatusDecided` | src/lighting/model.c:798-870 | a status list is an array of one to six objects with an `id` and something else, for different agents |
| `LightingLaws.StatusMeans` | src/lighting/model.c:844-862 | the agent whose number stands under `id` is set by that object, and nothing else changes |
| `LightingState.ParseSettings` | src/lighting/model.c:586-613 | accepts exactly the members that are known, fit and come once up to escaping |
| `LightingState.ParseZone` | src/lighting/model.c:586-613 | accepts exactly the objects that set something in a zone |
| `LightingState.ParseAgent` | src/lighting/model.c:635-708 | accepts exactly the objects that name one of the six agents and set something for it |
| `LightingState.LightingModel.ApplyRgbConfig` | src/lighting/model.c:725-796 | all or nothing: accepts exactly the configurations, sets exactly what they say, notifies exactly if the model changed |
| `LightingState.LightingModel.ApplyAgentStatus` | src/lighting/model.c:798-870 | all or nothing for a list of one to six different agents: each is set to what its element says |
| `RpcRequest.IsRepeated` | src/protocol/rpc.c:297-301 | finds a key with the same meaning among the earlier ones |
| `RpcRequest.ParseRequest` | src/protocol/rpc.c:269-367 | accepts exactly the objects of at most 32 members, no two keys of equal meaning, known members of the right kind, in exactly one of the two dialects; the spans are the values of those members |
| `RequestLaws.PrintedRequestDecided` | src/protocol/rpc.c:269-367 | an object that a client writes is a request exactly if it has at most 32 members, no two of one name, `m`, `method`, `p`, `params`, `id` and `jsonrpc` each with a value that fits, and speaks one dialect and nothing of the other |
| `RequestLaws.PrintedRequestMeans` | src/protocol/rpc.c:311-345 | method, parameters and id are the values under these names |
| `RequestLaws.TwoSpellingsAreRefused` | src/protocol/rpc.c:297-301 | an object with one key in two spellings is no request |
| `RpcDispatch.IdentifyMethod` | src/protocol/rpc.c:466-500 | the decoded name decides: a supported method, a forbidden name or prefix, or unknown |
| `RpcOutcomes.NameDecides` | src/protocol/rpc.c:466-500 | by name: which decoded names are the eight methods, which are forbidden, and that all others are unknown |
| `RpcDispatch.Writer.WriteBytes` | src/protocol/rpc.c:369-380 | appends all or fails for good; never more than 1024 octets |
| `RpcDispatch.Writer.WriteJsonString` | src/protocol/rpc.c:387-439 | appends the printed form, or refuses text that is not UTF-8 |
| `RpcDispatch.Writer.WriteError` | src/protocol/rpc.c:515-529 | the pieces make up the error response |
| `RpcDispatch.Writer.WriteSuccess` | src/protocol/rpc.c:531-577 | the pieces make up the response with the result of the method |
| `RpcResponse.ResponseScans` | src/protocol/rpc.c:502-577 | every response is one acceptable object without white space around it, with these members in this order |
| `RpcResponse.ResponseCarriesId` | src/protocol/rpc.c:502-513 | read back, the response has the id of the request octet for octet, either a result or an error, and the version in the standard dialect |
| `RpcDispatch.Writer.WriteAnswer` | src/protocol/rpc.c:609-622 | the writer holds the response, or the error that a malformed string or a text too long leaves in it |
| `RpcDispatch.EmitDispatchResponse` | src/protocol/rpc.c:596-629 | emits the response, or nothing when no writer is free, the text is too long or a string is malformed |
| `RpcDispatch.Dispatch` | src/protocol/rpc.c:631-676 | no effect but a status unless the text is a request; then the lighting model is what the parameters of a configuration make of it, and otherwise what it was, and at most one response goes out, none without an id |
| `RpcDispatch.Perform` | src/protocol/rpc.c:650-676 | for a request that is known: the lighting model afterwards, the response or its absence, and the status |
| `RpcDispatch.ApplyLighting` | src/protocol/rpc.c:656-662 | the call succeeds exactly for parameters that are a configuration of its kind, and changes nothing when it fails |
| `RpcDispatch.BadParamsAreAnswered400` | src/protocol/rpc.c:650-670 | code 400 answers exactly the requests to configure whose parameters are missing or are no configuration, and the model stays; each other one of them makes the model what its parameters say |
| `RpcOutcomes.EveryResponseReads` | src/protocol/rpc.c:502-629 | every response read back, in both dialects: code 400 `Invalid params` for bad parameters, else the result if the method is supported, else 403 `Method forbidden` or 404 `Method not found`; the result by method, with each field of the device under its own name; the id octet for octet; the name of the method behind a compact result |
| `RpcOutcomes.SilenceDecided` | src/protocol/rpc.c:596-676 | when there is no response, and with which status |
| `RpcOutcomes.LightingFollows` | src/protocol/rpc.c:650-662 | by name: the lighting is configured or the agents are set exactly by the two methods with parameters that are good, with an id or without one |
| `RpcDispatch.AskedOnce` | src/protocol/rpc.c:269-367 | a request determines its dialect, method, id and parameters |
| `RequestLaws.AsksMeans` | src/protocol/rpc.c:269-367 | by name, for any text: the dialect is standard exactly with a member `jsonrpc`; method, parameters and id are the values under the names of that dialect |
| `RpcDispatch.EmissionAnswers` | src/protocol/rpc.c:631-676 | whatever is emitted answers a request with an id, is a COMPLETE object of at most 1024 octets that ends in a brace, and carries the id unchanged in the dialect of the request |
| `RouterRuns.Move` | src/transport/report_router.c:133-192 | every step keeps the invariant of the router |
| `RouterRuns.EveryRunKeeps` | src/transport/report_router.c:100-131 | after every run: active exactly if USB is ready or Bluetooth connected, and USB exactly if it is ready; at most one queue holds items, of the active transport and its generation; the framing layer knows no other generation; during recovery USB is closed and the recovery is in exactly one pair of hands; references are those of the live pins, and none without one |
| `RouterRuns.StaleReadOpensTheGate` | src/transport/report_router.c:133-151 | with the read before the lock taken for what it is: the invariant survives exactly if USB is not reported ready while a recovery has begun since; otherwise USB is active during the recovery |
| `RouterExamples.TheGateOpens` | src/transport/report_router.c:133-151 | a run after which a flag that was read idle one event earlier makes USB active during a recovery |
| `RouterRuns.UpdateRouteKeeps` | src/transport/report_router.c:100-131 | whatever was invalidated before, the route is afterwards the one its flags ask for |
| `RouterRuns.CaptureKeeps` | src/transport/report_router.c:224-253 | a captured pin is current and its reference is counted; a refused one leaves no reference |
| `RouterRuns.RequestRecoveryKeeps` | src/transport/report_router.c:277-292 | a requested recovery closes USB and is handed to this pin |
| `RouterRuns.FinalizeKeeps` | src/transport/report_router.c:261-275 | finalizing, with an abort that succeeds or not, gives the reference back once and hands the recovery to the worker |
| `RouterRuns.RunRecoveryKeeps` | src/transport/report_router.c:484-513 | the worker keeps the recovery until USB is enabled again, whatever fails |
| `RouterRuns.NeverStaleInFraming` | src/transport/report_router.c:420-452 | an item that is still current is never refused as stale by the framing layer |
| `RouterLaws.EveryEventFollows` | src/transport/report_router.c:71-192 | what every event does in every reachable state: USB is ready exactly as it was last reported outside of a recovery and until one begins; the connection is what the Bluetooth events say; each of the three generations moves by one, exactly when its transport changes, is lost to USB, is reset, bumped or aborted |
| `RouterLaws.RestartsExactly` | src/transport/report_router.c:71-77 | a transport starts afresh, with nothing framed and nothing queued, exactly then |
| `RouterLaws.ConnectionIsTheLastSaid` | src/transport/report_router.c:164-192 | after every run the profile and connection are those that were reported last |
| `RouterLaws.RecoveryTakesTwo` | src/transport/report_router.c:484-513 | in every run a recovery begins exactly when an encoding is cut short on USB and ends exactly with the second success of the worker |
| `RouterLaws.UsbReportDecided` | src/transport/report_router.c:532-561 | a USB report is taken exactly if the lock is free, USB is ready and fewer than four wait; the status otherwise |
| `RouterLaws.BleReportDecided` | src/transport/report_router.c:563-593 | a Bluetooth report is taken exactly if the lock is free, USB is not ready, Bluetooth is connected, the token is the present one and fewer than four wait; the status otherwise |
| `RouterAnswers.CaptureDecided` | src/transport/report_router.c:224-253 | a pin is captured exactly if there is a way out, USB while it is ready and else the current Bluetooth connection, and is for that way |
| `RouterAnswers.SendDecided` | src/transport/report_router.c:356-373 | a text that is sent goes out on that way and on its own channel, as many of its reports as the link takes, with the status that says why not all |
| `RouterAnswers.ItemIsAnswered` | src/transport/report_router.c:386-452 | an item is dropped as stale, or framed; a text on the debug channel is not answered, and a text on the channel for requests with the response of dispatch, if there is one |
| `RouterAnswers.AnswerIsOnRpc` | src/transport/report_router.c:375-384 | what is sent for an item is the response, on the transport of the item, on the channel for requests, with first octet 0x02 in every report |
| `RouterAnswers.RequestIsAnswered` | src/transport/report_router.c:386-406 | a request that arrives whole is answered whole, with status 0, if dispatch has a response, there is a way out and the link takes the reports |
| `RouterAnswers.PayloadOnWire` | src/protocol/framing.c:386-402 | the octets of a report: the channel, the length, the fragment, zeros |
| `RouterLanes.StepLook` | src/transport/report_router.c:71-77 | for each transport a step either begins a new epoch with nothing in it, or adds, takes and frames exactly its own reports |
| `RouterLanes.TakesTheOldest` | src/transport/report_router.c:454-464 | over every run the worker takes the report that has waited longest, though it looks at the USB queue first |
| `RouterEpochs.EveryRunRemembers` | src/transport/report_router.c:408-452 | after every run the framing state is that of the reports framed since the last invalidation; over USB these, the one in flight and the queued ones are all that were accepted since, in order; over Bluetooth in order, with some dropped |
| `RouterEpochs.EpochSafety` | src/transport/report_router.c:408-452 | a text handed on is the next one that the reports framed since the last invalidation contain; all of them were accepted since then |
| `RouterEpochs.CurrentInItsEpoch` | src/transport/report_router.c:408-418 | an item in flight is current only in its own epoch; over USB exactly then |
| `RouterEpochs.WrapIsTheOnlyGap` | src/transport/report_router.c:408-418 | without a bound: an item of the active transport is current exactly when the invalidations since it was accepted are a multiple of 2^32 and, over Bluetooth, its token is that of the present connection |
| `RouterExamples.AnOldItemPasses` | src/transport/report_router.c:408-418 | a run in which an item is current after 2^32 invalidations |
| `UsbSession.EverySessionIsWhole` | src/transport/report_router.c:294-326 | in every run the reports of a USB session are whole encodings of the texts sent with success, in order, then at most one cut short, after which USB stays closed until it is enabled again |
| `UsbSession.EverySessionDecodes` | src/transport/report_router.c:328-336 | end to end: a receiver that starts with the session gets on each channel exactly the texts sent with success |
| `UsbSession.ResponsesAreSafe` | src/transport/report_router.c:375-384 | every response that dispatch can emit survives encoding |
| `RouterAnswers.AnswersArriveOnRpc` | src/transport/report_router.c:375-406 | end to end, in a run that sends only answers: the receiver gets the responses sent with success on the channel for requests, all of them in order, and nothing on the debug channel |
| `RouterAnswers.BleAnswersArriveOnRpc` | src/transport/report_router.c:375-406 | the same over Bluetooth, for a session in which nothing collides |
| `BleSession.EveryBleSessionDecided` | src/transport/report_router.c:261-326 | in every run, for every Bluetooth session: all its transmissions but the last are whole if and only if none of at least one report starts while a torn text of the session waits for its abort or was given up |
| `BleSession.SessionInMeans` | src/transport/report_router.c:294-326 | the reports of such a session are the whole encodings of the texts sent with success, in order, then at most one cut short |
| `BleSession.EveryWholeBleSessionDecodes` | src/transport/report_router.c:328-336 | end to end: a receiver that starts with such a session gets on each channel exactly the texts sent with success |
| `BleSession.TornBleMayBeFollowed` | src/transport/report_router.c:356-373 | from every state with a current Bluetooth connection a text cut short leaves the route open until its pin is finalized, so that a whole one may follow it |
| `RouterExamples.CollisionIsRun` | src/transport/report_router.c:356-373 | a run from the start in which one does: a connection, a text cut behind its first report, the text again |
| `RouterExamples.CollisionLosesTheText` | src/transport/report_router.c:356-373 | in this run the second text is sent with success and the receiver gets neither |
| `Sessions.ReceiverReads` | src/protocol/framing.c:215-251 | the framing layer of a receiver makes of any session of safe texts exactly its whole texts, on each channel |
| `UsbSession.SendPinnedShape` | src/transport/report_router.c:294-336 | what is sent is a beginning of the reports, all of them exactly with status 0; cut short behind the first it starts a recovery |
| `RouterState.ReportRouter.InvalidateTransport` | src/transport/report_router.c:71-77 | the new generation, framing state and queue |
| `RouterState.ReportRouter.SettleRoute` | src/transport/report_router.c:100-131 | the transport that is left is invalidated unless that was done, and Bluetooth tokens are to be purged exactly if it was Bluetooth |
| `RouterState.ReportRouter.UsbStateChanged` | src/transport/report_router.c:133-151 | USB is ready exactly as HID when no recovery was read; a change invalidates it, and the route follows |
| `RouterState.ReportRouter.UsbPhysicalStateChanged` | src/transport/report_router.c:153-162 | disconnection, reset and configuration invalidate USB; any other code changes nothing |
| `RouterState.ReportRouter.BleProfileChanged` | src/transport/report_router.c:164-182 | a change of profile or connection invalidates Bluetooth and its tokens, and the route follows; no change, no effect |
| `RouterState.ReportRouter.BleConnectionEdge` | src/transport/report_router.c:184-192 | an edge always invalidates Bluetooth, and the route follows |
| `RouterState.ReportRouter.UsbReportReceived` | src/transport/report_router.c:532-561 | a report is queued with the present generation, or refused while the lock is taken, during recovery, when USB is not active, when the queue is full |
| `RouterState.ReportRouter.BleReportReceived` | src/transport/report_router.c:563-593 | a report is queued with its token, or refused when Bluetooth is not active or the token is not of the present connection |
| `RouterState.ReportRouter.TakeNext` | src/transport/report_router.c:454-464 | the head of the USB queue, else of the Bluetooth queue, is in flight; nothing else changes |
| `RouterState.ReportRouter.CaptureRoute` | src/transport/report_router.c:224-253 | the pin and the reference that is taken for it |
| `RouterState.ReportRouter.SendJsonPinned` | src/transport/report_router.c:294-336 | the reports that go out, the flags of the pin, and a recovery where one is due |
| `RouterState.ReportRouter.SendText` | src/transport/report_router.c:356-373 | a text goes out on the active route, and its pin waits to be finalized |
| `RouterState.ReportRouter.JsonReceived` | src/transport/report_router.c:386-406 | the callback: the response that goes out is one that dispatch emits for this very text |
| `RouterState.ReportRouter.Frame` | src/transport/report_router.c:434-435 | the framing state of the item's transport, and of no other, takes its payload |
| `RouterState.ReportRouter.ProcessTaken` | src/transport/report_router.c:420-452 | a stale item changes nothing; any other goes through the framing layer, and what it completes is answered |
| `RouterState.ReportRouter.FinalizePin` | src/transport/report_router.c:261-275 | the pin is gone, its reference given back, the recovery it carried handed to the worker; an abort that cuts the connection ends the Bluetooth generation |
| `RouterState.ReportRouter.RecoveryWork` | src/transport/report_router.c:484-513 | disable, then enable, then rest; a failure keeps the state and schedules the worker again |
| `Touch.EveryRunFollows` | src/input/touch_control.c:83-129 | however edges, ticks and the worker interleave: accepted items have times that never go back and edges that alternate, and are handled in order; while one waits the worker will run; each press with its release brings about exactly one action, a hold exactly if they are 3000 ms apart; in connection mode the last item is less than 5000 ms after the last activity |
| `TouchActions.EveryActionIsDue` | src/input/touch_control.c:141-257 | in every run the actions are, one by one, those that the times of the items and the answers make due: a tap cycles the layers exactly if connection mode is off at its release, and else asks for the successor of the choice in force; a hold enters the mode exactly if it is off, and else clears the choice in force; mode, last activity and choice are those of the reference |
| `TouchActions.ItemIsDue` | src/input/touch_control.c:169-257 | one item, for any state that meets the reference |
| `Touch.ItemFollows` | src/input/touch_control.c:169-257 | one item keeps the machine in step with that reference, whatever the surroundings answer |
| `Touch.SubmitRemembers` | src/input/touch_control.c:83-129 | an item is taken exactly if there is room and the accepted sequence stays proper, with the reason otherwise; a taken one leaves the worker scheduled |
| `Touch.DeadlineIsExact` | src/input/touch_control.c:275-289 | a tick does what the deadline was set for exactly if it comes no earlier than the delay |
| `Touch.EveryDeadlineIsExact` | src/input/touch_control.c:275-289 | the same in the state after any run, for every deadline that the worker sets; one is set exactly while a press has not been held yet or connection mode is on |
| `TouchState.TouchQueue.SubmitItem` | src/input/touch_control.c:83-129 | the ring buffer behaves as a queue; the worker is submitted exactly when it was at rest |
| `TouchState.TouchQueue.PopItem` | src/input/touch_control.c:259-273 | the oldest item, or the worker goes to rest |
| `TouchState.TouchControl.EnterMode` | src/input/touch_control.c:141-161 | entering connection mode, or staying out when there is no choice |
| `TouchState.TouchControl.Hold` | src/input/touch_control.c:169-194 | a hold is handled once, when the time is up: it enters connection mode, or clears the choice there |
| `TouchState.TouchControl.EdgeSeen` | src/input/touch_control.c:196-243 | a press starts a gesture; a release ends it with the action that it has not had yet |
| `TouchState.TouchControl.Handle` | src/input/touch_control.c:245-257 | after the edge or tick, connection mode ends when five seconds have passed |

## Left out

- Diagnostic counters, canaries, null-pointer tests and the functions built only for tests.
- `codex_router_send_vendor`, which sends one raw report: the session results are stated for runs without it.
- USB and Bluetooth below the router (`usb_transport.c`, `ble_hids.c`, `ble_report_state.c`): sending succeeds or fails, the Bluetooth generation is incremented, USB is disabled or enabled, or not, as the environment chooses.
- The time between `bt_conn_disconnect` and its callback: the generation ends in the step of the abort. `Switched` and `Refused` stand for what the link does in between.
- Liveness of the recovery: that it is never lost is proved, that the worker succeeds some day is up to the hardware.
- `number_value` in floating point, the renderer, `analog_stick.c` and the physical range of brightness, speed and mode beyond the clamp to the unit.
- Selection of the standard endpoint and the mouse reports in the router: calls into ZMK without a result that matters here.
- Layers, connection choices, profiles and indicators behind the touch control: their answers are parameters.
- Descriptors, USB identity, key tables, encoder, effects, the Bluetooth queue, the snapshot of the device status.
- Memory slabs and mutexes of Zephyr: a writer is free or not, a section under the lock is one step.

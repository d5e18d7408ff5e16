# Verification of dbus-router

dbus-router sits between a sandboxed client and two D-Bus daemons, the host bus
and the sandbox bus. It routes every message of the client by its destination,
presents the connections of the two buses under fake unique names (`:h.1.5`,
`:s.1.5`), and edits marshalled messages in place so that each side sees the
names it knows. This project models that behaviour and proves what it promises:

- an in-place edit of a marshalled header is the same as decoding the message,
  changing one value and encoding it again, for every message and byte order;
- a fake name that the client has seen - as a sender, in a reply, in a merged
  listing - works when the client uses it as a destination, as the argument of
  one of seven query methods or in a match rule, and the right bus gets the real
  name; for arguments and rules the request has to name the interface of the bus
  daemon (see below). Callers of an exported
  service that are on the host bus are shown under their real names, which work
  for the reply but not always for anything else (see below);
- over every run of a session, replies go back to the bus that called, merged
  listings get one reply, and a hostpass session never touches the sandbox bus;
- the framed reader returns all the messages that were sent, each with its own
  descriptors, however the stream is split and wherever reads are dropped, unless
  a receive brings more than 64 descriptors that have to wait;
- the authentication phase ends only when every negotiation was answered, and
  fails only when there is no line to read;
- no message makes a session end, except one family of malformed bodies.

Messages are modelled on the D-Bus Specification 0.43, sections "Marshaling
(Wire Format)" and "Message Format". Bytes are numbers below 256, a Rust
`String` is its UTF-8 bytes, and 32-bit lengths are written modulo 2^32.
Functions that can index out of bounds say so: their result is `Ok`, `Err` or
`Panic`, for all bytes, not only for well-formed messages. The loops and objects
of the source are loops and objects here (`MessageBuffer`, `Session`,
`DbusReader`, `DbusWriter`, `LineStream`). Each method is proved against a
function or predicate of the old state, and the theorems are about those.

## Files

| file | contents |
|---|---|
| Wire, Utf8, Characters | bytes, integers, alignment, arrays; UTF-8 checking and repair; what these and white space mean in code points |
| Message, MessageProofs | abstract messages, encoding, parsing; the round trip between them |
| FakeNames | fake unique names |
| HeaderRewrite, HeaderRewriteProofs, HeaderEdits | in-place header edits; the refinement; when edits are exact, how they change the size, when they can be undone |
| Bodies, BodyProofs | body rewriters and reply builders; what they mean and that they read back |
| HelloCall | the call that the router makes itself |
| MatchRules, MatchRuleProofs | match rules as text; what rewriting a sender does to a rule |
| Config, Routing | routing rules, the choice of a bus, agreement between calls and queries |
| SessionSpec, Session | one session as functions of its state, and as the object that follows them |
| SessionRuns, SessionNames, SessionRules, SessionSurvival | what every run keeps; names end to end; match rules end to end; which messages end a session |
| SessionSteps | exactly what each message leads to |
| Conversations | whole conversations, from bytes to bytes |
| Spelled, SpelledNames | the definitions in the numbers of the wire format and the texts of the protocol |
| Witnesses | concrete inputs for the differences listed below |
| Socket | framed reader and writer with descriptors, the plain reader |
| Auth | the authentication phase |

The theorems speak of functions by name. The lemmas of Spelled and SpelledNames tie
those that hold constants to numbers and texts: byte order, types, field numbers,
the steps of the scan, prefixes, methods, keys, words, limits. Only the larger ones
have a row below.

## Hypotheses

The theorems name these where they need them, in their `requires` clauses:

- A real unique name does not already start with `:h.` or `:s.`. Only the reply
  to a caller on the host bus needs it, and `ReplyReachesCaller` shows that it
  is needed.
- Outstanding calls into services of the client have distinct serials, and so
  have outstanding listings (`CallAnswered`, `MergeRun`). The maps are keyed by
  the serial alone; `SharedSerial` says where the answers go when two callers
  chose the same serial.
- Each bus answers a listing once.
- Descriptors do not arrive later than the last byte of their message
  (`InTime`), which is how the kernel delivers them.
- The name field of a header occurs once and no 8-aligned field stands before
  it (`Regular`). `EditExact` and `CachedHeader` show that these conditions are
  exact.

## Where code and documentation differ

The model follows the code.

- A failed rewrite is meant to forward the original bytes
  (src/session.rs:399-401). A body of one to three bytes ends the session
  instead, because the string length is read out of bounds;
  `ClientStepSurvives`, `BusStepSurvives` and `RunSurvives` say exactly when,
  `StubQueryEndsSession` and `StubAnswerEndsSession` give messages.
- The scan of a header is meant to step over 64-bit values
  (src/dbus/rewrite.rs:294-297). It stops there, because the signature is read
  again after the position was aligned; `EditExact` says exactly when this
  matters, `WideFieldHidesSender` gives a message.
- Only callers on the sandbox bus are shown under a fake name
  (src/session.rs:655-656), on the ground that only those need translating back.
  A caller on the host bus can be answered under its real name, but any other
  message to that name goes to the sandbox bus, unless the configuration routes
  the name to the host; `CallerAsDestination` says exactly when,
  `HostCallerMissed` gives a run.
- docs/gap-analysis.md:64 has the destination of a match rule rewritten. Only
  the sender is. Rewriting also changes any other key that ends in "sender" and
  has the same value; `RewrittenRule` says exactly when, `OtherKeyRewritten`
  gives a rule. An unquoted sender is meant to be handled
  (src/dbus/rewrite.rs:397-400): routing goes by it, but it reaches the bus as it
  is, fake name and all; `RuleChanges` says exactly when a rule is rewritten,
  `UnquotedRuleKept` gives the rules without quotes.
- Both buses are meant to see a match rule without a sender
  (src/session.rs:784). One whose interface is routed to the host goes to the
  host alone; `RuleWithoutSender` says exactly when, `RuleForHostOnly` gives a
  rule. So does one whose sender is on the sandbox bus; `RuleReachesSender` says
  exactly when, `SandboxSenderMissed` gives a rule.
- Of the messages for the bus daemon only those that name its interface are
  routed by their argument (src/routing.rs:42-46), although the interface of a
  call is optional and the argument is rewritten either way
  (src/session.rs:402-428). A query or match rule without it goes to the one bus
  that the name org.freedesktop.DBus is routed to; `NameArrives`,
  `MatchRuleForName`, `RoutingAgreement`, `RuleReachesSender` and
  `RuleWithoutSender` say exactly where, `BareQueryMissesHost` gives a query
  that asks about a different connection.
- The two readers of messages differ (`ReadersAgree` says exactly when, for
  streams without descriptors). A peer that stops after twelve to fifteen bytes
  is an error for one and the end of the stream for the other
  (`ThirteenBytesSplitReaders`); a message that declares descriptors which did
  not come is returned by one and refused by the other
  (`MissingFdSplitsReaders`).

## Model

| member | source | states |
|---|---|---|
| MessageProofs.MessageRoundTrip | src/dbus/message.rs:150-234 | bytes decode to a message if and only if the message is within the size limits and encodes to them |
| MessageProofs.PrologueAccepts | src/dbus/message.rs:161-215 | the prologue of an encoded message is accepted exactly within the size limits, with the true fields and a total length that is the actual length |
| Spelled.PrologueSpelled | src/dbus/message.rs:161-199 | in numbers: any sixteen bytes are accepted exactly when they start with 108 (lowest byte first) or 66 (highest byte first), have version 1 and two lengths of at most 67108864; serial, lengths and the four kinds of message by their bytes |
| Spelled.LengthSpelled | src/dbus/message.rs:203-215 | in numbers: a message is sixteen bytes, the array, up to seven bytes that make it a multiple of eight, and the body |
| MessageProofs.FieldsRoundTrip | src/dbus/message.rs:346-402 | a header array decodes to a list of fields if and only if the fields are valid and encode to it |
| MessageProofs.HeaderOfEncoded | src/dbus/message.rs:217-233 | the parsed header of an encoded message is the header that its fields give |
| Message.ParseHeaderFields | src/dbus/message.rs:346-402 | the loop over the decoded fields: the last value of each field, with the type rules of each; nothing at all when the array does not parse |
| Spelled.HeaderSpelled | src/dbus/message.rs:346-402 | fields given by their numbers 1, 2, 3, 5, 6, 7, 8 and 9, and the header entry that each must produce |
| Spelled.WrongTypesSpelled | src/dbus/message.rs:355-398 | a field of the wrong type: 1 and 8 are passed over, the others forget the value before them; other numbers are passed over |
| Characters.ValidExactly | src/dbus/message.rs:127-143 | text is accepted if and only if it is the UTF-8 encoding of Unicode scalar values |
| Characters.TextExactly | src/dbus/message.rs:346-402 | the strings that a header may hold: encodings of characters without NUL |
| Characters.LossyIsValid | src/dbus/daemon.rs:305-396 | repaired text is always valid |
| Characters.BrokenExactly | src/dbus/daemon.rs:305-396 | what is taken for broken text: where no character starts, the longest run of bytes that could have started one, at least one byte |
| Characters.LossySpelled | src/dbus/daemon.rs:305-396 | repairing keeps the characters in front and puts U+FFFD for each broken part |
| FakeNames.FakeNameRoundTrip | src/fake_name.rs:36-98 | undoing a fake name gives a name and bus exactly when faking them gives it |
| FakeNames.FakeNamesDistinct | src/fake_name.rs:36-63 | well-known names pass unchanged both ways; names of different buses never collide |
| FakeNames.FakeNameShape | src/fake_name.rs:36-41 | a fake name is two bytes longer and is valid text exactly when the real one is |
| HeaderRewrite.MessageBuffer.RewriteHeaderField | src/dbus/rewrite.rs:88-385 | the scanning loop computes `Rewritten` of the old bytes, for any bytes, and assigns nothing unless it succeeds |
| HeaderRewrite.MessageBuffer.ReplaceString | src/dbus/rewrite.rs:163-259 | the splice: new string, padding up to the next field, array length, body padding, body |
| HeaderRewrite.MessageBuffer.RewriteMessageHeader | src/dbus/rewrite.rs:25-74 | bytes and cached header change together or not at all; descriptors and everything else stay |
| HeaderRewriteProofs.FindsField | src/dbus/rewrite.rs:105-385 | the scan of any encoded field list finds exactly the string of the first field with the code, or stops where an 8-aligned field comes first |
| HeaderRewriteProofs.SpliceParts | src/dbus/rewrite.rs:163-259 | cutting a message around a string and splicing in another gives the array with that string, its true length and fresh padding |
| HeaderRewriteProofs.EditRefines | src/dbus/rewrite.rs:88-385 | for every message, byte order, field and value: the in-place edit gives the encoding of the message with that one value replaced; absent fields, and fields behind an 8-aligned one, leave the bytes as they are |
| HeaderEdits.EditExact | src/dbus/rewrite.rs:88-385 | the edit is exact if and only if no 8-aligned field stands before the target, or there was nothing to change |
| HeaderRewriteProofs.EditNeverPanics | src/dbus/rewrite.rs:88-385 | the edit of any well-formed message stays inside its bytes, whatever the fields and whatever the type of the one that is edited |
| HeaderEdits.WideFieldHidesSender | src/dbus/rewrite.rs:261-267 | a message whose sender keeps its real name because of a 64-bit field in front |
| HeaderEdits.EditLength | src/dbus/rewrite.rs:200-257 | adding a prefix lengthens a message by 0 or 8 bytes and the body stays 8-aligned |
| HeaderEdits.EditUndo | src/dbus/rewrite.rs:33-71 | for a field with no 8-aligned one before it, replacing a name and restoring it gives back every byte if and only if the body padding was zero |
| HeaderEdits.CachedHeader | src/dbus/rewrite.rs:25-74 | after a rewrite the cached header equals a re-parse of the bytes if and only if the name occurs once and nothing blocks it |
| HeaderEdits.EncodeInjective | src/dbus/message.rs:150-234 | different messages have different bytes |
| Spelled.ScanSpelled | src/dbus/rewrite.rs:108-268 | one turn of the scan on any bytes and for signatures of any length, containers included: where the value stands, and where the type is read the second time |
| BodyProofs.RebuildMessageWithBody | src/dbus/daemon.rs:520-537 | for bytes that encode any message, the buffer that is built encodes that message with the new body |
| BodyProofs.RebuildRefines | src/dbus/daemon.rs:489-537 | replacing the body bytes is replacing the body of the message and nothing else |
| BodyProofs.EditsCommute | src/dbus/daemon.rs:520-537 | header edit and body edit commute, each keeps what the other changes, and the result is accepted exactly within the size limits |
| BodyProofs.BodyStringOf | src/dbus/message.rs:127-143 | the string in front of a body is read back, repaired or refused when it is not UTF-8 |
| BodyProofs.BodyStringExactly | src/dbus/daemon.rs:305-396 | for any body: a stub of one to three bytes panics, no body or a string that runs out is an error, and anything else is read |
| BodyProofs.SingleNameRewrites | src/dbus/daemon.rs:305-332 | a reply with one name reaches the client with the fake name and nothing else changed |
| BodyProofs.UniqueNameRestores | src/dbus/daemon.rs:367-396 | a request with a fake name reaches its bus with the real one; any other request is unchanged |
| BodyProofs.StringArrayDecodes | src/dbus/daemon.rs:540-562 | an array of strings reads back, whatever follows it |
| BodyProofs.StringArrayExactly | src/dbus/daemon.rs:540-562 | bytes decode to a list of strings if and only if the strings are valid and the bytes start with the encoding of the list |
| BodyProofs.StringArrayRewrites | src/dbus/daemon.rs:335-363 | a list of owners reaches the client with every unique name under the prefix |
| BodyProofs.NameOwnerChangedRewrites | src/dbus/daemon.rs:434-486 | both owners get the prefix, the changed name stays |
| BodyProofs.ThreeExactly | src/dbus/daemon.rs:434-486 | bytes decode to three strings if and only if the strings are valid and the bytes start with their encoding |
| BodyProofs.LeftAlone | src/dbus/daemon.rs:268-486 | bodies with nothing to rewrite: every rewriter gives back the bytes it got, or fails without a panic, so that they are sent as they came |
| BodyProofs.RuleLeftAlone | src/dbus/daemon.rs:268-302 | a match rule without a fake sender is sent as it came |
| Bodies.MergeListNames | src/dbus/daemon.rs:399-430 | the two loops give the first occurrences of sandbox names, then host names, after prefixing |
| BodyProofs.DedupOrder | src/dbus/daemon.rs:399-430 | removing duplicates keeps exactly the names there were, each once, in order of first occurrence |
| BodyProofs.MergeKeepsEveryName | src/dbus/daemon.rs:399-430 | the merged set is the union of both images, in order, and a unique name of one bus never meets a name of the other |
| Bodies.BuildMethodReturn | src/dbus/daemon.rs:582-643 | the bytes built are the encoding of a method return with these fields |
| Bodies.BuildListNamesResponse | src/dbus/daemon.rs:565-579 | the reply to a listing is a method return of signature `as` with the names |
| BodyProofs.ListNamesReplyReadsBack | src/dbus/daemon.rs:540-643 | for every request and list of names, in both byte orders, the built reply parses to a method return for that serial, that expects no reply, whose own serial is a million higher, of signature `as`, with the same names |
| Spelled.ReplySpelled | src/dbus/daemon.rs:582-643 | the same reply byte for byte, for both byte orders and every serial and body |
| Spelled.StringsSpelled | src/dbus/daemon.rs:565-579 | strings in a body byte for byte: length, text, NUL, zeros up to a multiple of four |
| HelloCall.BuildHelloCall | src/session.rs:456-481 | the bytes built are the encoding of the Hello call |
| HelloCall.HelloReadsBack | src/session.rs:456-481 | a bus reads them as the method call Hello of its own interface, serial 1, no body, 128 bytes |
| Spelled.HelloSpelled | src/session.rs:456-481 | all 128 bytes of the Hello call |
| Config.WildcardMeansSegments | src/config.rs:70-85 | `p.*` matches a name exactly when the segments of `p` are its leading segments |
| Config.ServiceMatching | src/dbus/daemon.rs:257-264 | for wildcard rules: matching the service part of an interface is matching the interface, exactly for rules of at most three segments |
| Config.ExactServiceMatching | src/dbus/daemon.rs:257-264 | for exact rules: the two agree exactly when the rule is neither or the interface has just three segments |
| Config.RoutedExactly | src/config.rs:46-85 | a name goes to the host if and only if some rule, wherever it stands, is the name itself or, ending in `.*`, has leading segments of it in front of that |
| Config.ServiceExactly | src/dbus/daemon.rs:257-264 | the service part of an interface is its three leading segments; shorter interfaces have none |
| Routing.MembersDistinct | src/dbus/daemon.rs:73-164 | the method table gives each kind to exactly its own methods, match rules included, so no method has two |
| SpelledNames.MethodsSpelled | src/dbus/daemon.rs:73-164 | the method table by the texts of its fourteen methods, both ways |
| SpelledNames.RewrittenMethodsSpelled | src/dbus/daemon.rs:21-50 | which methods have their argument, their answer or their signal rewritten, by text, both ways |
| Routing.OrdinaryRouting | src/routing.rs:22-57 | messages that are not for the daemon's own interface: the bus by the prefix of the destination or by its name; without one the sandbox |
| Routing.DaemonRouting | src/dbus/daemon.rs:167-253 | messages for the daemon's own interface, method by method, with and without an argument, and methods that are not in the table |
| Routing.RoutingAgreement | src/routing.rs:22-57 | a call to a name and queries about it that name the daemon's interface go to the same bus; requesting or releasing it too, if and only if the name is not a fake one whose bus the configuration disagrees with; requests without the interface all go to the bus of the daemon's own name |
| Routing.RuleReachesSender | src/dbus/daemon.rs:174-226 | a match rule with a sender goes to the bus that calls to the sender go to, if and only if the rule's interface does not draw it to the host away from a sandbox sender, or, for requests that do not name the daemon's interface, that bus is the one of the daemon's own name |
| Routing.RuleWithoutSender | src/dbus/daemon.rs:174-226 | a match rule without a sender goes to both buses if and only if the request names the daemon's interface and the rule's own interface is not routed to the host; and where it goes otherwise |
| MatchRules.ParseMatchRule | src/dbus/rewrite.rs:424-445 | the loop over the parts: the last value of each known key |
| MatchRules.ParseMatchRuleSender | src/dbus/rewrite.rs:388-402 | the loop over the parts: the first sender |
| MatchRuleProofs.PartExactly | src/dbus/rewrite.rs:424-445 | any part with "=": the key is everything before the first one, the value what is behind it without quotes |
| MatchRuleProofs.PartSenderExactly | src/dbus/rewrite.rs:388-402 | any part: it names a sender exactly if it starts with `sender=`, between quotes if there are two |
| MatchRuleProofs.LastExactly | src/dbus/rewrite.rs:424-445 | any rule: the sender and the interface that it is routed by are those of the last part for the key |
| MatchRuleProofs.FirstExactly | src/dbus/rewrite.rs:388-402 | any rule: the sender that is rewritten is that of the first part that names one |
| MatchRuleProofs.TrimEndExactly | src/dbus/rewrite.rs:390-429 | trimming takes all white space at the end and nothing else |
| MatchRuleProofs.TrimStartExactly | src/dbus/rewrite.rs:390-429 | and at the start |
| Characters.SpaceExactly | src/dbus/rewrite.rs:390-429 | white space is the encoding of a code point with that Unicode property |
| MatchRuleProofs.UnquoteExactly | src/dbus/rewrite.rs:432-432 | taking quotes away takes all of them at both ends and nothing else |
| MatchRuleProofs.RuleChanges | src/dbus/rewrite.rs:405-409 | any rule: replacing the sender changes it if and only if that sender stands in it between quotes, right behind `sender=` |
| MatchRuleProofs.UnquotedRuleKept | src/dbus/rewrite.rs:405-409 | a rule without quotes stays as it is, whatever its sender |
| MatchRuleProofs.RuleParts | src/dbus/rewrite.rs:424-445 | splitting the text of a rule gives its parts, with the white space around them |
| MatchRuleProofs.PartSenderOf | src/dbus/rewrite.rs:388-402 | a key='value' part names a sender exactly when its key is "sender", whatever white space is around it |
| MatchRuleProofs.ReplaceRule | src/dbus/rewrite.rs:405-409 | replacing text in a whole rule replaces part by part and nothing in between |
| MatchRuleProofs.RewrittenRule | src/dbus/rewrite.rs:388-445 | the rewritten rule parses to the same information except the sender, which becomes the real name; the text of a part changes if and only if its key ends in "sender" and it has that value |
| Session.Session.HandleUpstreamMessage | src/session.rs:640-686 | state, output and end of the session after a message of a bus |
| Session.Session.ProcessMergeResponse | src/session.rs:203-255 | the first reply is kept, the second removes the entry and gives the merged reply |
| Session.Session.ForwardReplyToCaller | src/session.rs:706-735 | a reply to a call from a bus uses up its entry and goes to that bus only |
| Session.Session.TrackExportedService | src/session.rs:739-757 | a requested name is recorded for the bus it was routed to |
| Session.Session.ForwardToBus | src/session.rs:759-782 | the prepared message goes to one bus and the call is remembered |
| Session.Session.ForwardToBoth | src/session.rs:785-800 | both buses get the same bytes |
| Session.Session.ForwardForMerge | src/session.rs:803-813 | both buses are asked and the request is kept |
| Session.Session.HandleClientMessage | src/session.rs:816-833 | state, output and end of the session after a message of the client |
| Session.Session.ForwardLoop | src/session.rs:836-921 | for any interleaving of events: the final state and everything written are those of the run |
| SessionRuns.HostpassSafety | src/session.rs:836-921 | in every run of a hostpass session no sandbox service and no merge exist, every reply is due to the host, and nothing is written to the sandbox bus |
| SessionRuns.ServicesDisjoint | src/session.rs:739-757 | in every reachable state each service belongs to exactly the bus that its name is routed to |
| SessionRuns.RequestNameRouting | src/dbus/daemon.rs:228-251 | requesting a name goes to the bus that the configuration gives it |
| SessionRuns.WaitingExactly | src/session.rs:640-735 | before any turn of any run, a reply is due to a bus if and only if the last turn that concerned its serial was a call from that bus into a service |
| SessionRuns.RepliesExactly | src/session.rs:706-735 | in every run, an answer of the client is sent as a reply to a bus if and only if that bus's call was the last turn for its serial; the call is then answered |
| SessionRuns.ReplyDelivery | src/session.rs:640-735 | in every run the answer to a call from a bus goes to that bus and nowhere else, and the entry is used up |
| SessionSteps.SharedSerial | src/session.rs:648-735 | in every run, of two unanswered calls with one serial the later one takes the first answer, and the second answer is routed like any message |
| SessionRuns.MergeProtocol | src/session.rs:203-255 | in every run a listing is sent to the host and to the sandbox as it came, and if each bus answers once that gives exactly one reply; neither answer is passed on, the entry is gone, and the reply does not depend on which bus was first |
| SessionRuns.RoutedOnly | src/session.rs:816-833 | a message that is no reply to a caller goes out as exactly one message, with its descriptors, to the bus it is routed to |
| SessionSteps.TurnExactly | src/session.rs:836-921 | what ends a session, what is not looked at any more, and what every other event leads to |
| SessionNames.RenamesHeader | src/dbus/rewrite.rs:25-74 | rewriting the header of a received message gives the encoding of the renamed message with its true header |
| SessionNames.ClientSeesFakeSender | src/session.rs:80-122 | the client reads the same header with the sender under the prefix of its bus |
| SessionSteps.PlainPreparedForClient | src/session.rs:80-189 | ordinary returns, errors, signals and calls reach the client as the encoding of what came with only the sender changed, body and all; unreadable ones as they came |
| SessionSteps.ForwardedPlain | src/session.rs:640-686 | such a message is written once, with its descriptors, and the state stays |
| SessionSteps.ForwardedOnce | src/session.rs:640-686 | any bus message but service calls and answers to listings: one message to the client with its descriptors |
| SessionSteps.ServiceCallExactly | src/session.rs:690-701 | which messages are calls into a service, answers to a listing, and replies to a caller |
| SessionSteps.ServiceCallSent | src/session.rs:640-671 | any call into a service: written to the client once, with its descriptors, from the sandbox with only the sender changed and otherwise as it came; a reply is then due to its bus, and nothing else changes |
| SessionSteps.AnswersMerged | src/session.rs:203-255 | the first answer to a listing is kept; the second gives the reply, with the names of each answer on the right side |
| SessionNames.BusGetsRealName | src/session.rs:759-782 | a message to a fake name goes to its bus, with the real name and otherwise the client's own bytes |
| SessionSteps.SentUnchanged | src/session.rs:759-833 | every message of the client that is no reply to a caller, for a name without a prefix or for nobody, goes out once, byte for byte with its descriptors, on the bus that routing decides, and the router remembers which |
| SessionSteps.SentRenamed | src/session.rs:759-833 | the same for a name with a prefix, with only the destination changed |
| SessionSteps.ArgumentUnchanged | src/session.rs:402-428 | queries and match rules whose argument has no prefix go out as they came |
| SessionSteps.BothAsked | src/session.rs:803-813 | a listing: one message to the host, one to the sandbox, the same bytes and descriptors |
| SessionSteps.BothTold | src/session.rs:785-800 | a match rule for both buses: one message to each, the same bytes and descriptors |
| SessionSteps.RuleSent | src/dbus/daemon.rs:268-302 | a match rule of any form whose first sender has a prefix: each bus that it is routed to, one or both, gets it with that sender replaced and its descriptors |
| SessionSteps.ServicesAfter | src/session.rs:739-757 | the services after any message of the client: one more for a RequestName with a name, on the bus that the name is routed to |
| SessionSteps.ReplySentOnce | src/session.rs:706-735 | a reply to a caller: once, to its bus, with only the destination changed, and the entry is gone |
| SessionNames.AddressRoundTrip | src/session.rs:78-122 | what the client addresses to a sender it saw arrives on that sender's bus under its real name, with every other field and the body unchanged |
| SessionNames.CallShown | src/session.rs:640-671 | a call into a service reaches the client once, with its descriptors: from the host byte for byte, from the sandbox with the sender under the prefix and otherwise, body included, as it was |
| SessionNames.CallShownRaw | src/session.rs:640-671 | the same when its header does not parse: it reaches the client as it came |
| SessionNames.ReplyReachesCaller | src/session.rs:706-735 | the answer carries the caller's real name; on the host bus it is sent unchanged exactly when that name does not look like a fake one |
| SessionNames.CallerGetsReply | src/session.rs:640-735 | in every run the answer to a call reaches the caller on its bus under its real name, for names that do not look like fake ones |
| SessionNames.CallerAsDestination | src/session.rs:655-782 | what the client sends, other than replies, to the caller of a service reaches the bus of the caller if and only if that is the sandbox bus or the name is routed to the host |
| SessionNames.NameInReply | src/session.rs:125-167 | replies to Hello and GetNameOwner show their name under the prefix of the bus |
| SessionRuns.ReturnKnown | src/session.rs:759-782 | in every run, when the return of the client's own call comes, the router still knows its bus and method, whatever happened between |
| SessionNames.NameReturned | src/session.rs:80-167 | in every run, the return of the client's Hello or GetNameOwner call reaches it with the name under the prefix of the bus that was asked |
| SessionNames.NamesInReply | src/session.rs:125-167 | so do replies to ListQueuedOwners, for every name |
| SessionNames.OwnersInSignal | src/session.rs:170-189 | NameOwnerChanged shows both owners under the prefix of the bus, and the changed name as it is |
| SessionNames.NameAsArgument | src/session.rs:402-428 | a fake name passed to one of the seven rewritten queries is sent as the real name, to its bus if the query names the daemon's interface and otherwise to the bus of the daemon's own name |
| SessionNames.NameArrives | src/session.rs:402-428 | for any method but the match-rule ones: the real name arrives on its bus if and only if the method is one of the seven and the query is routed there; the argument of other methods is not touched |
| SessionNames.MergedReplyReadable | src/session.rs:203-255 | whatever the two buses sent, the client reads a well-formed reply with the merged names |
| SessionRules.RuleSender | src/dbus/rewrite.rs:388-445 | both ways of reading the sender of a rule agree |
| SessionRules.MatchRuleForName | src/dbus/daemon.rs:268-302 | AddMatch and RemoveMatch for a fake sender are written for the real name and otherwise as they were; they go to the sender's bus only, if they name the daemon's interface, and otherwise to the bus of the daemon's own name |
| SessionRules.MergedNameAsArgument | src/dbus/daemon.rs:367-430 | every unique name of a merged listing comes from the listing of one bus, and a query about it is sent under the real name, to that bus if it names the daemon's interface |
| Conversations.MergedListing | src/session.rs:640-686 | from bytes to bytes, for all name lists: a client asks for the names, each bus answers, in either order, and the client reads one reply to its request with exactly the merged names |
| Conversations.ServiceConversation | src/session.rs:640-757 | from bytes to bytes: the client takes a name, is called under it - it reads exactly that call, with the sender it knows - and answers the sender it saw; the answer arrives on the bus of the name, for the real caller, otherwise as the client wrote it |
| Conversations.CallingBack | src/session.rs:640-782 | from bytes to bytes: the client takes a name, is called under it, reads exactly that call, and calls the sender it saw; its call carries the real name and goes to the bus of the caller, or, for host callers, wherever that name is routed |
| SessionSurvival.RewritersPanic | src/dbus/daemon.rs:268-486 | which body rewriters fail hard, and on exactly which bodies |
| Witnesses.StubQueryEndsSession | src/session.rs:399-428 | a GetNameOwner call with a two-byte body ends the session in every state |
| Witnesses.StubAnswerEndsSession | src/session.rs:125-167 | a well-formed GetNameOwner call and an answer with a two-byte body end the session |
| Witnesses.RuleForHostOnly | src/dbus/daemon.rs:174-226 | a rule without a sender that goes to the host alone |
| Witnesses.SandboxSenderMissed | src/dbus/daemon.rs:174-226 | a rule for a sender on the sandbox bus that goes to the host alone |
| Witnesses.OtherKeyRewritten | src/dbus/rewrite.rs:405-409 | a rule in which another key than the sender is rewritten |
| Witnesses.HostCallerMissed | src/session.rs:655-782 | a run in which the client calls back a host caller and the call goes to the sandbox bus |
| Witnesses.BareQueryMissesHost | src/session.rs:402-428 | a GetNameOwner call for a host connection, without the interface, that asks the sandbox bus about another connection |
| Witnesses.ThirteenBytesSplitReaders | src/dbus/message.rs:239-327 | a stream that is an error for one reader and ended for the other |
| Witnesses.MissingFdSplitsReaders | src/dbus/message.rs:239-327 | a message that one reader returns and the other refuses |
| SessionSurvival.ClientStepSurvives | src/session.rs:816-833 | for every received message: the session goes on if and only if it is not a query or match rule for the bus daemon with a body of one to three bytes, or it is a reply to a caller |
| SessionSurvival.RunSurvives | src/session.rs:836-921 | a session is alive after a run if and only if no connection closed (for hostpass: other than the sandbox bus) and no such body was read |
| SessionSurvival.BusStepSurvives | src/session.rs:640-686 | the session goes on after a bus message if and only if it is not the answer to Hello or GetNameOwner with such a body |
| Socket.DbusReader.RecvSome | src/dbus/socket.rs:135-159 | a receive appends bytes and descriptors in order, and fails exactly when too many descriptors would be queued |
| Socket.DbusReader.Fill | src/dbus/socket.rs:73-81 | receives exactly as long as bytes are missing; what is received stays in the reader, also when the call is dropped; it fails exactly at the receive that brings too many descriptors |
| Socket.DbusReader.Consume | src/dbus/socket.rs:90-100 | clearing and compacting lose no unread byte |
| Socket.DbusReader.TakeFds | src/dbus/socket.rs:117-131 | exactly the first descriptors, or none |
| Socket.DbusReader.TakeDeclaredFds | src/dbus/message.rs:281-296 | as many as the header declares, within the limit |
| Socket.DbusReader.ReadMessageFrom | src/dbus/message.rs:299-327 | one whole message leaves the front of the stream with its descriptors; every receive was needed; ends, refusals, failures and dropped calls each happen only for their reason |
| Socket.AfterRead | src/dbus/message.rs:299-327 | on a stream of proper messages a call returns the next one or moves nothing out, and never refuses |
| Socket.CarryingTaken | src/dbus/socket.rs:117-131 | cutting off the first message leaves a reader that carries exactly the others |
| Socket.ReadRepeatedly | src/session.rs:862-918 | for any split of the stream and any calls dropped: the messages in order, each with its own descriptors, none lost; given enough calls that are not dropped, or that each wait for something, all of them if and only if no receive brings more than 64 descriptors beyond those of the messages complete before it; a failure comes at the first such receive, after exactly those messages |
| Socket.ReadWithoutFds | src/dbus/message.rs:299-327 | on a stream without descriptors a call gives what `FramedRead` says of that stream |
| Socket.ReadMessage | src/dbus/message.rs:239-277 | the plain reader returns the first message of the stream and consumes just its bytes |
| Socket.ReadersAgree | src/dbus/message.rs:239-327 | on a stream without descriptors both readers give the same, if and only if it does not break off in bytes twelve to fifteen and its first message declares no descriptors |
| Socket.SameMessage | src/dbus/message.rs:239-327 | what the framed reader returned is what the plain reader returns for the same bytes, header and all |
| Socket.DbusWriter.Send | src/dbus/socket.rs:187-216 | for any pattern of partial writes the stream gets exactly the data, in order, with the descriptors on the first chunk and no other; it fails if and only if there are too many descriptors or a write accepts nothing before the end |
| Socket.FdsOnce | src/dbus/socket.rs:187-216 | every descriptor of a message is on the wire exactly once |
| Auth.PendingIsLargestSuffix | src/auth.rs:41-101 | the counter is the largest surplus of negotiations over answers in any suffix of the trace |
| Auth.MatchesAllButPending | src/auth.rs:41-101 | all but that many negotiations can be given a later answer of their own |
| Auth.CompleteMeansAnswered | src/auth.rs:41-101 | the phase ends only after BEGIN and with an answer of its own for every negotiation |
| Auth.LineStream.ReadAuthLine | src/auth.rs:105-130 | a line ends at its first CR LF and nothing behind it is consumed; too long and end of stream exactly as they happen |
| Auth.ForwardLines | src/auth.rs:41-101 | for any interleaving: each turn reads a line of the side whose turn it is and forwards it as it came, nothing of the client after BEGIN; the phase is done exactly when it may end, and fails exactly when it may not and that side has no line within the buffer size |
| Auth.AuthPassthrough | src/auth.rs:23-101 | the same with the credentials byte in front, without which it fails and nothing is forwarded |

## Left out

- zvariant: replaced by a decoder for the types that occur, written from the specification. Object path and signature grammar and the range of booleans are not checked; inter-field padding must be zero.
- Header fields with array, struct, dictionary or multi-code signatures, and padding inside the array length: a header array with them counts as one that does not parse. The scan itself does cover them, for all bytes.
- HeaderRewriteProofs.EditRefines: does not cover a first field of that code that is not a string or object path; `Rewritten` still says what happens to the bytes.
- SessionNames.RenamesHeader: does not cover a repeated name field or an 8-aligned field in front; `CachedHeader` and `EditExact` do.
- SessionSurvival.BusStepSurvives: does not cover an answer to Hello or GetNameOwner whose first sender field is not a string or object path; the edit then splices into bytes that are no string.
- SessionSurvival.RunSurvives: leaves out the same messages.
- MatchRuleProofs.RewrittenRule: does not cover rules in which only some values are quoted, and values with quotes or commas, which the two parsers and the replacement treat differently; `PartExactly` and `PartSenderExactly` say how any part is read, `UnquotedRuleKept` what becomes of a rule without quotes.
- SessionRules.MatchRuleForName: does not cover rules that name two different senders; routing takes the last (`LastExactly`), rewriting the first (`FirstExactly`, `RuleSent`).
- Failures of the marshaller when a reply is built, and the raw reply that is then sent instead.
- Overflow of 64-bit sizes, the 32-bit counter of pending answers, and the overflow checks of debug builds.
- System calls, control-message layout and truncation: a receive delivers some bytes and some descriptors in order, a send accepts a prefix.
- I/O errors of a write: they end the session.
- Scheduling: any interleaving of events is allowed, which covers the biased order of the loop.
- Auth.ForwardLines: reads a line as one step; a line that is half read when the other side becomes ready is not modelled.
- Hostpass as a constant of the session; executable lookup, glob patterns, configuration files, logging, `src/conn.rs`, `src/router.rs`, `src/dbus/format.rs` and the program itself.
- Authentication and the exchange of Hello with the host bus, beyond the bytes of the call.
- ReleaseName: a released service stays recorded, as in the code (docs/gap-analysis.md:137-141). The first argument of NameOwnerChanged stays as it is (src/dbus/daemon.rs:460-471).
- One reply for each call sent to both buses: the code forwards two (src/session.rs:785-800). One reply is claimed for listings only.

/** What one session does with each message, as functions of its state (src/session.rs). */
module SessionSpec {
  import opened Wire
  import opened Message
  import opened FakeNames
  import opened HeaderRewrite
  import opened Bodies
  import opened Config
  import opened Routing

  const HELLO: bytes := Ascii("Hello")
  const LIST_QUEUED_OWNERS: bytes := Ascii("ListQueuedOwners")
  const NAME_OWNER_CHANGED: bytes := Ascii("NameOwnerChanged")

  predicate NeedsResponseRewrite(member: bytes) {
    member == HELLO || member == GET_NAME_OWNER || member == LIST_QUEUED_OWNERS
  }

  predicate NeedsRequestRewrite(member: bytes) {
    CredentialQuery(member) || member == NAME_HAS_OWNER || member == GET_NAME_OWNER
  }

  // ----- state -----

  /** Which bus a call of the client went to, and its method. */
  datatype CallInfo = CallInfo(bus: Bus, member: Option<bytes>)

  /** A ListNames request and the first of its two replies. */
  datatype PendingMerge = PendingMerge(request: Message, first: Option<(Bus, seq<bytes>)>)

  datatype State = State(
    calls: map<u32, CallInfo>, incoming: map<u32, Bus>, merges: map<u32, PendingMerge>,
    exported: set<bytes>, sandboxed: set<bytes>)

  const EMPTY := State(map[], map[], map[], {}, {})

  /** One message written to the client or to a bus. */
  datatype Sent = ToClientSent(raw: bytes, fds: seq<Fd>) | ToBusSent(bus: Bus, raw: bytes, fds: seq<Fd>)

  /** The state after a message, what was written, and whether the session goes on. */
  datatype Step = Step(st: State, sent: seq<Sent>, alive: bool)

  // ----- messages from a bus -----

  /** A rewrite that fails is logged and the message goes on as it was. */
  function OrUnchanged<T>(rewritten: Outcome<T>, original: T): Outcome<T> {
    if rewritten.Err? then Ok(original) else rewritten
  }

  function ResponseBody(msg: Message, source: Bus, calls: map<u32, CallInfo>): Outcome<bytes> {
    var serial := msg.header.fields.replySerial;
    if serial.None? || serial.value !in calls || calls[serial.value].bus != source then Ok(msg.raw) else
    var member := calls[serial.value].member;
    if member.None? || !NeedsResponseRewrite(member.value) then Ok(msg.raw)
    else if member.value == LIST_QUEUED_OWNERS then
      OrUnchanged(StringArrayResponse(msg.raw, msg.header.endian, source), msg.raw)
    else OrUnchanged(SingleNameResponse(msg.raw, msg.header.endian, source), msg.raw)
  }

  function SignalBody(msg: Message, source: Bus): Outcome<bytes> {
    if msg.header.fields.member == Some(NAME_OWNER_CHANGED) then
      OrUnchanged(NameOwnerChanged(msg.raw, msg.header.endian, source), msg.raw)
    else Ok(msg.raw)
  }

  /** The bytes that the client gets for a message of a bus. */
  function PreparedForClient(msg: Message, source: Bus, calls: map<u32, CallInfo>): Outcome<bytes> {
    match OrUnchanged(HeaderRewritten(msg, ToClient, source), msg)
    case Ok(renamed) =>
      if renamed.header.kind == MethodReturn then ResponseBody(renamed, source, calls)
      else if renamed.header.kind == Signal then SignalBody(renamed, source)
      else Ok(renamed.raw)
    case _ => Panic
  }

  predicate IsServiceCall(st: State, msg: Message, source: Bus) {
    msg.header.kind == MethodCall && msg.header.fields.destination.Some?
    && var dest := msg.header.fields.destination.value;
      if source == Host then dest in st.exported else dest in st.sandboxed
  }

  predicate AnswersMerge(st: State, msg: Message) {
    msg.header.fields.replySerial.Some? && msg.header.fields.replySerial.value in st.merges
  }

  function ServiceCallStep(st: State, msg: Message, source: Bus): Step {
    var st' := st.(incoming := st.incoming[msg.header.serial := source]);
    match (if source == Sandbox then OrUnchanged(HeaderRewritten(msg, ToClient, source), msg) else Ok(msg))
    case Ok(renamed) => Step(st', [ToClientSent(renamed.raw, renamed.fds)], true)
    case _ => Step(st', [], false)
  }

  function MergeStep(st: State, msg: Message, source: Bus): Step
    requires AnswersMerge(st, msg) && |msg.raw| >= 16
  {
    var serial := msg.header.fields.replySerial.value;
    var pending := st.merges[serial];
    var names := ParseStringArray(msg.raw, msg.header.endian);
    if pending.first.None? then
      Step(st.(merges := st.merges[serial := pending.(first := Some((source, names)))]), [], true)
    else
      var (bus, earlier) := pending.first.value;
      var merged := if bus == Host then Merged(earlier, names) else Merged(names, earlier);
      Step(st.(merges := st.merges - {serial}), [ToClientSent(ListNamesReply(pending.request, merged), [])], true)
  }

  /** `handle_upstream_message` */
  function BusStep(st: State, msg: Message, source: Bus): Step
    requires |msg.raw| >= 16
  {
    if IsServiceCall(st, msg, source) then ServiceCallStep(st, msg, source)
    else if AnswersMerge(st, msg) then MergeStep(st, msg, source)
    else
      match PreparedForClient(msg, source, st.calls)
      case Ok(raw) => Step(st, [ToClientSent(raw, msg.fds)], true)
      case _ => Step(st, [], false)
  }

  // ----- messages from the client -----

  function MatchRuleBodyOrOriginal(msg: Message): Outcome<bytes> {
    OrUnchanged(MatchRuleBody(msg.raw, msg.header.endian), msg.raw)
  }

  function RequestBody(msg: Message): Outcome<bytes> {
    if msg.header.fields.destination != Some(DBUS) || msg.header.fields.member.None? then Ok(msg.raw) else
    var member := msg.header.fields.member.value;
    if NeedsRequestRewrite(member) then OrUnchanged(UniqueNameRequest(msg.raw, msg.header.endian), msg.raw)
    else if IsMatchRuleMember(member) then MatchRuleBodyOrOriginal(msg)
    else Ok(msg.raw)
  }

  /** The bytes that a bus gets for a message of the client. */
  function PreparedForBus(msg: Message, target: Bus): Outcome<bytes> {
    match OrUnchanged(HeaderRewritten(msg, ToUpstream, target), msg)
    case Ok(renamed) => RequestBody(renamed)
    case _ => Panic
  }

  /** A return or error answering a call that came in from a bus. */
  predicate IsReplyToCaller(st: State, msg: Message) {
    (msg.header.kind == MethodReturn || msg.header.kind == Error)
    && msg.header.fields.replySerial.Some? && msg.header.fields.replySerial.value in st.incoming
  }

  function ReplyStep(st: State, msg: Message): Step
    requires IsReplyToCaller(st, msg)
  {
    var serial := msg.header.fields.replySerial.value;
    var source := st.incoming[serial];
    var st' := st.(incoming := st.incoming - {serial});
    match OrUnchanged(HeaderRewritten(msg, ToUpstream, source), msg)
    case Ok(renamed) => Step(st', [ToBusSent(source, renamed.raw, renamed.fds)], true)
    case _ => Step(st', [], false)
  }

  predicate IsRequestName(msg: Message) { ToDaemon(msg) && msg.header.fields.member == Some(REQUEST_NAME) }

  /** `track_exported_service` */
  function Tracked(st: State, msg: Message, decision: RouteDecision): State
    requires |msg.raw| >= 16
  {
    if !IsRequestName(msg) then st else
    var name := ExtractName(msg.raw, msg.header.endian);
    if name.None? then st
    else if decision == Single(Host) then st.(exported := st.exported + {name.value})
    else if decision == Single(Sandbox) then st.(sandboxed := st.sandboxed + {name.value})
    else st
  }

  function ForwardStep(st: State, msg: Message, target: Bus): Step {
    match PreparedForBus(msg, target)
    case Ok(raw) =>
      Step(st.(calls := st.calls[msg.header.serial := CallInfo(target, msg.header.fields.member)]),
           [ToBusSent(target, raw, msg.fds)], true)
    case _ => Step(st, [], false)
  }

  function SendBoth(raw: bytes, fds: seq<Fd>): seq<Sent> {
    [ToBusSent(Host, raw, fds), ToBusSent(Sandbox, raw, fds)]
  }

  function BothStep(st: State, msg: Message): Step {
    var member := msg.header.fields.member;
    match (if member.Some? && IsMatchRuleMember(member.value) then MatchRuleBodyOrOriginal(msg) else Ok(msg.raw))
    case Ok(raw) =>
      Step(st.(calls := st.calls[msg.header.serial := CallInfo(Sandbox, member)]), SendBoth(raw, msg.fds), true)
    case _ => Step(st, [], false)
  }

  function AskBothStep(st: State, msg: Message): Step {
    Step(st.(merges := st.merges[msg.header.serial := PendingMerge(msg, None)]), SendBoth(msg.raw, msg.fds), true)
  }

  /** `handle_client_message` */
  function ClientStep(cfg: Config, hostpass: bool, st: State, msg: Message): Step
    requires |msg.raw| >= 16
  {
    if IsReplyToCaller(st, msg) then ReplyStep(st, msg) else
    var decision := RouteRequest(cfg, hostpass, msg);
    var st' := Tracked(st, msg, decision);
    match decision
    case Single(target) => ForwardStep(st', msg, target)
    case Both => BothStep(st', msg)
    case Merge => AskBothStep(st', msg)
  }

  // ----- the forwarding loop -----

  /** What the loop can wake up for. A message is always a whole message. */
  datatype Event = FromClient(msg: Message) | FromBus(bus: Bus, msg: Message) | SandboxGone | Closed

  predicate Readable(ev: Event) {
    (ev.FromClient? || ev.FromBus?) ==> AsRead(ev.msg)
  }

  datatype Loop = Loop(st: State, alive: bool, sandboxActive: bool)

  const START := Loop(EMPTY, true, true)

  /** One turn: the loop after it and what was written. A hostpass session
      outlives the sandbox bus; nothing is read from that bus afterwards. */
  function Turn(cfg: Config, hostpass: bool, w: Loop, ev: Event): (Loop, seq<Sent>)
    requires Readable(ev)
  {
    if !w.alive then (w, []) else
    match ev
    case FromClient(msg) =>
      var r := ClientStep(cfg, hostpass, w.st, msg);
      (w.(st := r.st, alive := r.alive), r.sent)
    case FromBus(bus, msg) =>
      if bus == Sandbox && !w.sandboxActive then (w, []) else
      var r := BusStep(w.st, msg, bus);
      (w.(st := r.st, alive := r.alive), r.sent)
    case SandboxGone => (if hostpass then w.(sandboxActive := false) else w.(alive := false), [])
    case Closed => (w.(alive := false), [])
  }

  predicate ReadableAll(evs: seq<Event>) { forall i :: 0 <= i < |evs| ==> Readable(evs[i]) }

  /** The loop after a whole run. */
  function Run(cfg: Config, hostpass: bool, evs: seq<Event>): Loop
    requires ReadableAll(evs)
  {
    if |evs| == 0 then START else Turn(cfg, hostpass, Run(cfg, hostpass, evs[..|evs| - 1]), evs[|evs| - 1]).0
  }

  /** The loop before turn `k` of a run. */
  function At(cfg: Config, hostpass: bool, evs: seq<Event>, k: nat): Loop
    requires ReadableAll(evs) && k <= |evs|
  {
    Run(cfg, hostpass, evs[..k])
  }

  /** What turn `i` of a run wrote. */
  function SentAt(cfg: Config, hostpass: bool, evs: seq<Event>, i: nat): seq<Sent>
    requires ReadableAll(evs) && i < |evs|
  {
    Turn(cfg, hostpass, At(cfg, hostpass, evs, i), evs[i]).1
  }

  /** Everything a run wrote, in order. */
  function Written(cfg: Config, hostpass: bool, evs: seq<Event>): seq<Sent>
    requires ReadableAll(evs)
  {
    if |evs| == 0 then [] else Written(cfg, hostpass, evs[..|evs| - 1]) + SentAt(cfg, hostpass, evs, |evs| - 1)
  }
}

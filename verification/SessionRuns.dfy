/** What every run of a session keeps, for all traffic from the client and both buses. */
module SessionRuns {
  import opened Wire
  import opened Message
  import opened FakeNames
  import opened HeaderRewrite
  import opened Bodies
  import opened Config
  import opened Routing
  import opened SessionSpec

  lemma RunStep(cfg: Config, hostpass: bool, evs: seq<Event>, k: nat)
    requires ReadableAll(evs) && k < |evs|
    ensures var w := At(cfg, hostpass, evs, k);
      At(cfg, hostpass, evs, k + 1) == Turn(cfg, hostpass, w, evs[k]).0
      && SentAt(cfg, hostpass, evs, k) == Turn(cfg, hostpass, w, evs[k]).1
  {
    hide Turn, Readable;
    assert evs[..k + 1][..k] == evs[..k];
  }

  // ----- hostpass sessions use only the host bus -----

  /** The state holds nothing that leads to the sandbox bus. */
  predicate HostOnly(st: State) {
    st.sandboxed == {} && st.merges == map[]
    && (forall s :: s in st.incoming ==> st.incoming[s] == Host)
    && (forall s :: s in st.calls ==> st.calls[s].bus == Host)
  }

  predicate NothingToSandbox(sent: seq<Sent>) {
    forall i :: 0 <= i < |sent| ==> !(sent[i].ToBusSent? && sent[i].bus == Sandbox)
  }

  lemma HostpassClient(cfg: Config, st: State, msg: Message)
    requires HostOnly(st) && |msg.raw| >= 16
    ensures HostOnly(ClientStep(cfg, true, st, msg).st) && NothingToSandbox(ClientStep(cfg, true, st, msg).sent)
  {
    hide HeaderRewritten, ExtractName, PreparedForBus;
    if IsReplyToCaller(st, msg) {
      assert st.incoming[msg.header.fields.replySerial.value] == Host;
    } else {
      assert RouteRequest(cfg, true, msg) == Single(Host);
    }
  }

  lemma HostpassBus(st: State, msg: Message, source: Bus)
    requires HostOnly(st) && |msg.raw| >= 16
    ensures HostOnly(BusStep(st, msg, source).st) && NothingToSandbox(BusStep(st, msg, source).sent)
  {
    hide HeaderRewritten, PreparedForClient, ParseStringArray;
  }

  /** In a hostpass session no service is registered on the sandbox bus, no
      merge is pending, every reply is due to the host, and nothing is ever
      written to the sandbox bus - so losing that bus loses nothing. */
  lemma {:induction false} HostpassSafety(cfg: Config, evs: seq<Event>)
    requires ReadableAll(evs)
    ensures HostOnly(Run(cfg, true, evs).st)
    ensures forall i :: 0 <= i < |evs| ==> NothingToSandbox(SentAt(cfg, true, evs, i))
    decreases |evs|
  {
    hide HostOnly, NothingToSandbox, ClientStep, BusStep, Readable;
    if |evs| == 0 {
      StartIsHostOnly();
    } else {
      var k := |evs| - 1;
      var init := evs[..k];
      HostpassSafety(cfg, init);
      HostpassTurn(cfg, At(cfg, true, evs, k), evs[k]);
      RunStep(cfg, true, evs, k);
      assert evs[..k + 1] == evs;
      forall i | 0 <= i < |evs| ensures NothingToSandbox(SentAt(cfg, true, evs, i)) {
        if i < k {
          assert init[..i] == evs[..i] && init[i] == evs[i];
          assert NothingToSandbox(SentAt(cfg, true, init, i));
        }
      }
    }
  }

  lemma StartIsHostOnly()
    ensures HostOnly(EMPTY)
  {
  }

  lemma HostpassTurn(cfg: Config, w: Loop, ev: Event)
    requires HostOnly(w.st) && Readable(ev)
    ensures HostOnly(Turn(cfg, true, w, ev).0.st) && NothingToSandbox(Turn(cfg, true, w, ev).1)
  {
    hide HostOnly, ClientStep, BusStep;
    match ev {
      case FromClient(msg) => HostpassClient(cfg, w.st, msg);
      case FromBus(bus, msg) => HostpassBus(w.st, msg, bus);
      case _ =>
    }
  }

  // ----- services belong to one bus -----

  /** Services on the host bus are those routed there, services on the
      sandbox bus the others. */
  predicate ServicesSorted(cfg: Config, hostpass: bool, st: State) {
    (forall n :: n in st.exported ==> hostpass || ShouldRouteToHost(cfg, n))
    && (forall n :: n in st.sandboxed ==> !hostpass && !ShouldRouteToHost(cfg, n))
  }

  lemma RequestNameRouting(cfg: Config, hostpass: bool, msg: Message)
    requires |msg.raw| >= 16 && IsRequestName(msg) && ExtractName(msg.raw, msg.header.endian).Some?
    ensures RouteRequest(cfg, hostpass, msg) ==
      Single(if hostpass then Host else ConfiguredBus(cfg, ExtractName(msg.raw, msg.header.endian).value))
  {
    hide ExtractName, ShouldRouteToHost, BusOfFake, FindMethodSpec;
    MembersDistinct(REQUEST_NAME);
    DaemonIsNotFake();
  }

  lemma TrackedSorted(cfg: Config, hostpass: bool, st: State, msg: Message)
    requires ServicesSorted(cfg, hostpass, st) && |msg.raw| >= 16
    ensures ServicesSorted(cfg, hostpass, Tracked(st, msg, RouteRequest(cfg, hostpass, msg)))
  {
    hide ExtractName, ShouldRouteToHost, RouteRequest;
    if IsRequestName(msg) && ExtractName(msg.raw, msg.header.endian).Some? {
      RequestNameRouting(cfg, hostpass, msg);
    }
  }

  lemma SortedClient(cfg: Config, hostpass: bool, st: State, msg: Message)
    requires ServicesSorted(cfg, hostpass, st) && |msg.raw| >= 16
    ensures ServicesSorted(cfg, hostpass, ClientStep(cfg, hostpass, st, msg).st)
  {
    hide HeaderRewritten, ShouldRouteToHost, RouteRequest, Tracked, ForwardStep, BothStep, IsReplyToCaller;
    if !IsReplyToCaller(st, msg) {
      TrackedSorted(cfg, hostpass, st, msg);
      var st' := Tracked(st, msg, RouteRequest(cfg, hostpass, msg));
      match RouteRequest(cfg, hostpass, msg) {
        case Single(target) => ForwardingKeeps(st', msg, target);
        case Both => ForwardingKeeps(st', msg, Host);
        case Merge =>
      }
    } else {
      ReplyKeepsServices(st, msg);
    }
  }

  lemma ReplyKeepsServices(st: State, msg: Message)
    requires IsReplyToCaller(st, msg)
    ensures ReplyStep(st, msg).st.exported == st.exported && ReplyStep(st, msg).st.sandboxed == st.sandboxed
  {
    hide HeaderRewritten;
  }

  lemma BusKeepsServices(st: State, msg: Message, source: Bus)
    requires |msg.raw| >= 16
    ensures BusStep(st, msg, source).st.exported == st.exported && BusStep(st, msg, source).st.sandboxed == st.sandboxed
  {
    hide HeaderRewritten, PreparedForClient, ParseStringArray, ListNamesReply, Merged, IsServiceCall;
  }

  lemma SortedTurn(cfg: Config, hostpass: bool, w: Loop, ev: Event)
    requires ServicesSorted(cfg, hostpass, w.st) && Readable(ev)
    ensures ServicesSorted(cfg, hostpass, Turn(cfg, hostpass, w, ev).0.st)
  {
    hide ClientStep, BusStep, ShouldRouteToHost, HeaderOf;
    match ev {
      case FromClient(msg) => SortedClient(cfg, hostpass, w.st, msg);
      case FromBus(bus, msg) => BusKeepsServices(w.st, msg, bus);
      case _ =>
    }
  }

  /** In every reachable state each service of the client belongs to exactly
      the bus that calls to it are routed to. */
  lemma {:induction false} ServicesDisjoint(cfg: Config, hostpass: bool, evs: seq<Event>)
    requires ReadableAll(evs)
    ensures var st := Run(cfg, hostpass, evs).st;
      ServicesSorted(cfg, hostpass, st) && st.exported !! st.sandboxed
    decreases |evs|
  {
    hide Turn;
    if |evs| > 0 {
      var k := |evs| - 1;
      ServicesDisjoint(cfg, hostpass, evs[..k]);
      SortedTurn(cfg, hostpass, At(cfg, hostpass, evs, k), evs[k]);
    }
  }

  // ----- replies to callers -----

  predicate ReplyKind(msg: Message) { msg.header.kind == MethodReturn || msg.header.kind == Error }

  /** A turn that records, answers or replaces the incoming call `serial`. */
  predicate TouchesIncoming(w: Loop, ev: Event, serial: u32) {
    (ev.FromBus? && IsServiceCall(w.st, ev.msg, ev.bus) && ev.msg.header.serial == serial)
    || (ev.FromClient? && ReplyKind(ev.msg) && ev.msg.header.fields.replySerial == Some(serial))
  }

  lemma ForwardingKeeps(st: State, msg: Message, target: Bus)
    ensures var r := ForwardStep(st, msg, target).st;
      r.incoming == st.incoming && r.merges == st.merges && r.exported == st.exported && r.sandboxed == st.sandboxed
    ensures var r := BothStep(st, msg).st;
      r.incoming == st.incoming && r.merges == st.merges && r.exported == st.exported && r.sandboxed == st.sandboxed
  {
    hide PreparedForBus, MatchRuleBodyOrOriginal, IsMatchRuleMember;
  }

  /** What a client message can do to the maps of outstanding calls. */
  lemma ClientStepMaps(cfg: Config, hostpass: bool, st: State, msg: Message)
    requires |msg.raw| >= 16
    ensures var r := ClientStep(cfg, hostpass, st, msg).st;
      r.incoming == (if IsReplyToCaller(st, msg) then st.incoming - {msg.header.fields.replySerial.value} else st.incoming)
      && r.merges == (if !IsReplyToCaller(st, msg) && RouteRequest(cfg, hostpass, msg).Merge?
                      then st.merges[msg.header.serial := PendingMerge(msg, None)] else st.merges)
  {
    hide HeaderRewritten, ExtractName, RouteRequest, ForwardStep, BothStep, IsRequestName;
    if !IsReplyToCaller(st, msg) {
      var st' := Tracked(st, msg, RouteRequest(cfg, hostpass, msg));
      match RouteRequest(cfg, hostpass, msg) {
        case Single(target) => ForwardingKeeps(st', msg, target);
        case Both => ForwardingKeeps(st', msg, Host);
        case Merge =>
      }
    }
  }

  /** What a bus message can do to them. */
  lemma BusStepMaps(st: State, msg: Message, source: Bus)
    requires |msg.raw| >= 16
    ensures var r := BusStep(st, msg, source).st;
      r.incoming == (if IsServiceCall(st, msg, source) then st.incoming[msg.header.serial := source] else st.incoming)
      && (IsServiceCall(st, msg, source) || !AnswersMerge(st, msg) ==> r.merges == st.merges)
      && (forall s :: s in st.merges + r.merges && msg.header.fields.replySerial != Some(s) ==>
            s in st.merges && s in r.merges && r.merges[s] == st.merges[s])
  {
    hide HeaderRewritten, PreparedForClient, ParseStringArray, ListNamesReply, Merged;
  }

  lemma IncomingKept(cfg: Config, hostpass: bool, w: Loop, ev: Event, serial: u32)
    requires Readable(ev) && !TouchesIncoming(w, ev, serial)
    ensures var w' := Turn(cfg, hostpass, w, ev).0;
      (serial in w'.st.incoming <==> serial in w.st.incoming)
      && (serial in w.st.incoming ==> w'.st.incoming[serial] == w.st.incoming[serial])
  {
    hide ClientStep, BusStep, RouteRequest, IsServiceCall;
    match ev {
      case FromClient(msg) => ClientStepMaps(cfg, hostpass, w.st, msg);
      case FromBus(bus, msg) => BusStepMaps(w.st, msg, bus);
      case _ =>
    }
  }

  lemma {:induction false} IncomingSurvives(cfg: Config, hostpass: bool, evs: seq<Event>, i: nat, k: nat, serial: u32)
    requires ReadableAll(evs) && i <= k <= |evs|
    requires forall j :: i <= j < k ==> !TouchesIncoming(At(cfg, hostpass, evs, j), evs[j], serial)
    requires serial in At(cfg, hostpass, evs, i).st.incoming
    ensures serial in At(cfg, hostpass, evs, k).st.incoming
    ensures At(cfg, hostpass, evs, k).st.incoming[serial] == At(cfg, hostpass, evs, i).st.incoming[serial]
    decreases k
  {
    hide Turn, TouchesIncoming, Run, Readable;
    if i < k {
      IncomingSurvives(cfg, hostpass, evs, i, k - 1, serial);
      IncomingKept(cfg, hostpass, At(cfg, hostpass, evs, k - 1), evs[k - 1], serial);
      RunStep(cfg, hostpass, evs, k - 1);
    }
  }

  /** The bytes of a reply after its destination lost the prefix. */
  predicate RepliesTo(sent: seq<Sent>, bus: Bus, reply: Message) {
    match OrUnchanged(HeaderRewritten(reply, ToUpstream, bus), reply)
    case Ok(renamed) => sent == [ToBusSent(bus, renamed.raw, reply.fds)]
    case _ => sent == []
  }

  /** Turn `i` is a call from a bus into a service of the client, turn `k` the
      client's answer, and no turn between has to do with this call. */
  predicate CallAnswered(cfg: Config, hostpass: bool, evs: seq<Event>, i: nat, k: nat)
    requires ReadableAll(evs) && i < k < |evs|
  {
    var w := At(cfg, hostpass, evs, i);
    evs[i].FromBus? && evs[k].FromClient? && ReplyKind(evs[k].msg)
    && evs[k].msg.header.fields.replySerial == Some(evs[i].msg.header.serial)
    && w.alive && (evs[i].bus == Sandbox ==> w.sandboxActive) && IsServiceCall(w.st, evs[i].msg, evs[i].bus)
    && (forall j :: i < j < k ==> !TouchesIncoming(At(cfg, hostpass, evs, j), evs[j], evs[i].msg.header.serial))
    && At(cfg, hostpass, evs, k).alive
  }

  /** Over any run: a call into a service of the client, answered later with
      no other turn for its serial between, is answered on the bus it came
      from and nowhere else, and the entry is then used up. */
  lemma ReplyDelivery(cfg: Config, hostpass: bool, evs: seq<Event>, i: nat, k: nat)
    requires ReadableAll(evs) && i < k < |evs| && CallAnswered(cfg, hostpass, evs, i, k)
    ensures RepliesTo(SentAt(cfg, hostpass, evs, k), evs[i].bus, evs[k].msg)
    ensures evs[i].msg.header.serial !in At(cfg, hostpass, evs, k + 1).st.incoming
  {
    hide Run, HeaderRewritten, TouchesIncoming, Readable;
    var serial := evs[i].msg.header.serial;
    RunStep(cfg, hostpass, evs, i);
    ServiceCallRecorded(cfg, hostpass, At(cfg, hostpass, evs, i), evs[i]);
    IncomingSurvives(cfg, hostpass, evs, i + 1, k, serial);
    RunStep(cfg, hostpass, evs, k);
    ReplySent(cfg, hostpass, At(cfg, hostpass, evs, k), evs[k], serial);
  }

  lemma {:induction false} IncomingStaysAway(cfg: Config, hostpass: bool, evs: seq<Event>, i: nat, k: nat, serial: u32)
    requires ReadableAll(evs) && i <= k <= |evs|
    requires forall j :: i <= j < k ==> !TouchesIncoming(At(cfg, hostpass, evs, j), evs[j], serial)
    requires serial !in At(cfg, hostpass, evs, i).st.incoming
    ensures serial !in At(cfg, hostpass, evs, k).st.incoming
    decreases k
  {
    hide Turn, TouchesIncoming, Run, Readable;
    if i < k {
      IncomingStaysAway(cfg, hostpass, evs, i, k - 1, serial);
      IncomingKept(cfg, hostpass, At(cfg, hostpass, evs, k - 1), evs[k - 1], serial);
      RunStep(cfg, hostpass, evs, k - 1);
    }
  }

  /** Exactly one message was written, to this bus, with these descriptors. */
  predicate OneMessageTo(sent: seq<Sent>, bus: Bus, fds: seq<Fd>) {
    |sent| == 1 && sent[0].ToBusSent? && sent[0].bus == bus && sent[0].fds == fds
  }

  lemma RoutedOnly(cfg: Config, hostpass: bool, w: Loop, ev: Event)
    requires Readable(ev) && ev.FromClient? && |ev.msg.raw| >= 16 && !IsReplyToCaller(w.st, ev.msg)
    requires RouteRequest(cfg, hostpass, ev.msg).Single? && w.alive
    ensures Turn(cfg, hostpass, w, ev).0.alive ==>
      OneMessageTo(Turn(cfg, hostpass, w, ev).1, RouteRequest(cfg, hostpass, ev.msg).bus, ev.msg.fds)
  {
    hide RouteRequest, PreparedForBus, Tracked, IsReplyToCaller, HeaderOf;
  }

  // ----- exactly which calls wait for a reply -----

  /** The loop looks at this event at all. */
  predicate Seen(w: Loop, ev: Event) { w.alive && (ev.FromBus? && ev.bus == Sandbox ==> w.sandboxActive) }

  /** A call from `bus` into a service, recorded under `serial`. */
  predicate Records(w: Loop, ev: Event, serial: u32, bus: Bus) {
    Seen(w, ev) && ev.FromBus? && ev.bus == bus && IsServiceCall(w.st, ev.msg, bus) && ev.msg.header.serial == serial
  }

  /** An answer of the client to the call `serial`. */
  predicate AnswersCall(w: Loop, ev: Event, serial: u32) {
    Seen(w, ev) && ev.FromClient? && ReplyKind(ev.msg) && ev.msg.header.fields.replySerial == Some(serial)
  }

  /** Neither a new call under `serial` nor an answer to one. */
  predicate LeavesCall(w: Loop, ev: Event, serial: u32) {
    !Records(w, ev, serial, Host) && !Records(w, ev, serial, Sandbox) && !AnswersCall(w, ev, serial)
  }

  predicate Waiting(st: State, serial: u32, bus: Bus) { serial in st.incoming && st.incoming[serial] == bus }

  lemma WaitingStep(cfg: Config, hostpass: bool, w: Loop, ev: Event, serial: u32, bus: Bus)
    requires Readable(ev)
    ensures Waiting(Turn(cfg, hostpass, w, ev).0.st, serial, bus) <==>
      Records(w, ev, serial, bus) || (LeavesCall(w, ev, serial) && Waiting(w.st, serial, bus))
  {
    hide ClientStep, BusStep, RouteRequest, IsServiceCall, HeaderOf;
    match ev {
      case FromClient(msg) => ClientStepMaps(cfg, hostpass, w.st, msg);
      case FromBus(b, msg) => BusStepMaps(w.st, msg, b);
      case _ =>
    }
  }

  /** Turn `i` recorded the call and nothing up to turn `k` touched it. */
  predicate RecordedAt(cfg: Config, hostpass: bool, evs: seq<Event>, k: nat, i: nat, serial: u32, bus: Bus)
    requires ReadableAll(evs) && k <= |evs|
  {
    i < k && Records(At(cfg, hostpass, evs, i), evs[i], serial, bus)
    && forall j :: i < j < k ==> LeavesCall(At(cfg, hostpass, evs, j), evs[j], serial)
  }

  /** In every run, before turn `k`: a reply for `serial` is due to `bus` if and
      only if the last turn that concerned this serial was a call from `bus`
      into a service of the client. */
  lemma {:induction false} WaitingExactly(cfg: Config, hostpass: bool, evs: seq<Event>, k: nat, serial: u32, bus: Bus)
    requires ReadableAll(evs) && k <= |evs|
    ensures Waiting(At(cfg, hostpass, evs, k).st, serial, bus) <==>
      exists i :: RecordedAt(cfg, hostpass, evs, k, i, serial, bus)
    decreases k
  {
    hide Turn, At, Records, LeavesCall, Waiting, Readable;
    if k == 0 {
      NothingWaits(cfg, hostpass, evs, serial, bus);
    } else {
      var w, ev := At(cfg, hostpass, evs, k - 1), evs[k - 1];
      WaitingExactly(cfg, hostpass, evs, k - 1, serial, bus);
      assert Readable(ev);
      WaitingStep(cfg, hostpass, w, ev, serial, bus);
      RunStep(cfg, hostpass, evs, k - 1);
      if Records(w, ev, serial, bus) {
        assert RecordedAt(cfg, hostpass, evs, k, k - 1, serial, bus);
      }
      if LeavesCall(w, ev, serial) && Waiting(w.st, serial, bus) {
        var i :| RecordedAt(cfg, hostpass, evs, k - 1, i, serial, bus);
        assert RecordedAt(cfg, hostpass, evs, k, i, serial, bus);
      }
      if i: nat :| RecordedAt(cfg, hostpass, evs, k, i, serial, bus) {
        if i < k - 1 {
          assert RecordedAt(cfg, hostpass, evs, k - 1, i, serial, bus);
        }
      }
    }
  }

  lemma NothingWaits(cfg: Config, hostpass: bool, evs: seq<Event>, serial: u32, bus: Bus)
    requires ReadableAll(evs)
    ensures !Waiting(At(cfg, hostpass, evs, 0).st, serial, bus)
  {
    assert evs[..0] == [];
  }

  /** In every run: an answer of the client (turn `k`) is sent as a reply, to
      `bus`, if and only if the last turn that concerned its serial was a call
      from `bus`; the call is then answered. */
  lemma RepliesExactly(cfg: Config, hostpass: bool, evs: seq<Event>, k: nat, serial: u32, bus: Bus)
    requires ReadableAll(evs) && k < |evs| && AnswersCall(At(cfg, hostpass, evs, k), evs[k], serial)
    ensures (IsReplyToCaller(At(cfg, hostpass, evs, k).st, evs[k].msg) && At(cfg, hostpass, evs, k).st.incoming[serial] == bus)
      <==> exists i :: RecordedAt(cfg, hostpass, evs, k, i, serial, bus)
    ensures (exists i :: RecordedAt(cfg, hostpass, evs, k, i, serial, bus)) ==> RepliesTo(SentAt(cfg, hostpass, evs, k), bus, evs[k].msg)
    ensures serial !in At(cfg, hostpass, evs, k + 1).st.incoming
  {
    hide Run, At, Turn, RecordedAt, RepliesTo, Readable;
    WaitingExactly(cfg, hostpass, evs, k, serial, bus);
    WaitingStep(cfg, hostpass, At(cfg, hostpass, evs, k), evs[k], serial, Host);
    WaitingStep(cfg, hostpass, At(cfg, hostpass, evs, k), evs[k], serial, Sandbox);
    RunStep(cfg, hostpass, evs, k);
    if serial in At(cfg, hostpass, evs, k).st.incoming {
      ReplySent(cfg, hostpass, At(cfg, hostpass, evs, k), evs[k], serial);
    }
  }

  lemma ServiceCallRecorded(cfg: Config, hostpass: bool, w: Loop, ev: Event)
    requires Readable(ev) && ev.FromBus? && w.alive && (ev.bus == Sandbox ==> w.sandboxActive) && IsServiceCall(w.st, ev.msg, ev.bus)
    ensures var w' := Turn(cfg, hostpass, w, ev).0;
      ev.msg.header.serial in w'.st.incoming && w'.st.incoming[ev.msg.header.serial] == ev.bus
  {
    hide HeaderRewritten;
  }

  lemma ReplySent(cfg: Config, hostpass: bool, w: Loop, ev: Event, serial: u32)
    requires Readable(ev) && ev.FromClient? && ReplyKind(ev.msg) && ev.msg.header.fields.replySerial == Some(serial)
    requires w.alive && serial in w.st.incoming
    ensures var (w', sent) := Turn(cfg, hostpass, w, ev);
      RepliesTo(sent, w.st.incoming[serial], ev.msg) && serial !in w'.st.incoming
  {
    hide Rewritten;
  }

  // ----- merged listings -----

  /** A client message that is sent to both buses for merging. */
  predicate AsksBoth(cfg: Config, hostpass: bool, w: Loop, ev: Event)
    requires Readable(ev)
  {
    ev.FromClient? && !IsReplyToCaller(w.st, ev.msg) && RouteRequest(cfg, hostpass, ev.msg).Merge?
  }

  /** A turn that records, answers or replaces the merge `serial`. */
  predicate TouchesMerge(cfg: Config, hostpass: bool, w: Loop, ev: Event, serial: u32)
    requires Readable(ev)
  {
    (ev.FromBus? && ev.msg.header.fields.replySerial == Some(serial))
    || (AsksBoth(cfg, hostpass, w, ev) && ev.msg.header.serial == serial)
  }

  /** No turn from `i` up to `k` touches the merge `serial`. */
  predicate MergeUntouched(cfg: Config, hostpass: bool, evs: seq<Event>, i: nat, k: nat, serial: u32)
    requires ReadableAll(evs) && k <= |evs|
  {
    forall j :: i <= j < k ==> !TouchesMerge(cfg, hostpass, At(cfg, hostpass, evs, j), evs[j], serial)
  }

  lemma MergeKept(cfg: Config, hostpass: bool, w: Loop, ev: Event, serial: u32)
    requires Readable(ev) && !TouchesMerge(cfg, hostpass, w, ev, serial)
    ensures var w' := Turn(cfg, hostpass, w, ev).0;
      (serial in w'.st.merges <==> serial in w.st.merges)
      && (serial in w.st.merges ==> w'.st.merges[serial] == w.st.merges[serial])
  {
    hide ClientStep, BusStep, RouteRequest, IsReplyToCaller, IsServiceCall, AnswersMerge;
    match ev {
      case FromClient(msg) => ClientStepMaps(cfg, hostpass, w.st, msg);
      case FromBus(bus, msg) => BusStepMaps(w.st, msg, bus);
      case _ =>
    }
  }

  lemma {:induction false} MergeSurvives(cfg: Config, hostpass: bool, evs: seq<Event>, i: nat, k: nat, serial: u32)
    requires ReadableAll(evs) && i <= k <= |evs| && MergeUntouched(cfg, hostpass, evs, i, k, serial)
    requires serial in At(cfg, hostpass, evs, i).st.merges
    ensures serial in At(cfg, hostpass, evs, k).st.merges
    ensures At(cfg, hostpass, evs, k).st.merges[serial] == At(cfg, hostpass, evs, i).st.merges[serial]
    decreases k
  {
    hide Turn, TouchesMerge, Run, Readable;
    if i < k {
      MergeSurvives(cfg, hostpass, evs, i, k - 1, serial);
      MergeKept(cfg, hostpass, At(cfg, hostpass, evs, k - 1), evs[k - 1], serial);
      RunStep(cfg, hostpass, evs, k - 1);
    }
  }

  /** `ev` is the answer of a bus to the merge request `serial`. */
  predicate AnswersTo(w: Loop, ev: Event, serial: u32) {
    ev.FromBus? && !IsServiceCall(w.st, ev.msg, ev.bus) && ev.msg.header.fields.replySerial == Some(serial)
    && w.alive && (ev.bus == Sandbox ==> w.sandboxActive)
  }

  lemma MergeAsked(cfg: Config, hostpass: bool, w: Loop, ev: Event)
    requires Readable(ev) && w.alive && AsksBoth(cfg, hostpass, w, ev)
    ensures var (w', sent) := Turn(cfg, hostpass, w, ev);
      w'.alive && sent == SendBoth(ev.msg.raw, ev.msg.fds) && ev.msg.header.serial in w'.st.merges
      && w'.st.merges[ev.msg.header.serial] == PendingMerge(ev.msg, None)
  {
    hide RouteRequest, ExtractName;
  }

  lemma FirstAnswer(cfg: Config, hostpass: bool, w: Loop, ev: Event, serial: u32)
    requires Readable(ev) && AnswersTo(w, ev, serial) && serial in w.st.merges && w.st.merges[serial].first.None?
    ensures var (w', sent) := Turn(cfg, hostpass, w, ev);
      w'.alive && sent == [] && serial in w'.st.merges
      && w'.st.merges[serial] == w.st.merges[serial].(first := Some((ev.bus, ParseStringArray(ev.msg.raw, ev.msg.header.endian))))
  {
    hide ParseStringArray;
  }

  lemma SecondAnswer(cfg: Config, hostpass: bool, w: Loop, ev: Event, serial: u32)
    requires Readable(ev) && AnswersTo(w, ev, serial) && serial in w.st.merges && w.st.merges[serial].first.Some?
    ensures var (w', sent) := Turn(cfg, hostpass, w, ev);
      var (bus, earlier) := w.st.merges[serial].first.value;
      var names := ParseStringArray(ev.msg.raw, ev.msg.header.endian);
      var merged := if bus == Host then Merged(earlier, names) else Merged(names, earlier);
      w'.alive && serial !in w'.st.merges
      && sent == [ToClientSent(ListNamesReply(w.st.merges[serial].request, merged), [])]
  {
    hide ParseStringArray, ListNamesReply, Merged;
  }

  function NamesOf(ev: Event): seq<bytes>
    requires Readable(ev) && ev.FromBus?
  {
    ParseStringArray(ev.msg.raw, ev.msg.header.endian)
  }

  /** Turn `i` asks both buses, turns `j` and `k` are their answers, and no
      other turn between has to do with this request. */
  predicate MergeRun(cfg: Config, hostpass: bool, evs: seq<Event>, i: nat, j: nat, k: nat)
    requires ReadableAll(evs) && i < j < k < |evs|
  {
    var w := At(cfg, hostpass, evs, i);
    w.alive && AsksBoth(cfg, hostpass, w, evs[i])
    && var serial := evs[i].msg.header.serial;
      AnswersTo(At(cfg, hostpass, evs, j), evs[j], serial) && AnswersTo(At(cfg, hostpass, evs, k), evs[k], serial)
      && evs[j].bus != evs[k].bus
      && MergeUntouched(cfg, hostpass, evs, i + 1, j, serial) && MergeUntouched(cfg, hostpass, evs, j + 1, k, serial)
  }

  /** The answer of the host among two answers from different buses. */
  function HostAnswer(a: Event, b: Event): Event
    requires a.FromBus?
  {
    if a.bus == Host then a else b
  }

  function SandboxAnswer(a: Event, b: Event): Event
    requires a.FromBus?
  {
    if a.bus == Host then b else a
  }

  /** Over any run: a listing request (turn `i`) that each bus answers once
      (turns `j` and `k`) gives exactly one reply to the client, at turn `k`.
      Neither answer is passed on, the entry is gone afterwards, and the reply
      depends on what the two buses said, not on which one spoke first. */
  lemma MergeProtocol(cfg: Config, hostpass: bool, evs: seq<Event>, i: nat, j: nat, k: nat)
    requires ReadableAll(evs) && i < j < k < |evs| && MergeRun(cfg, hostpass, evs, i, j, k)
    ensures var request := evs[i].msg;
      SentAt(cfg, hostpass, evs, i) == [ToBusSent(Host, request.raw, request.fds), ToBusSent(Sandbox, request.raw, request.fds)]
    ensures SentAt(cfg, hostpass, evs, j) == []
    ensures var merged := Merged(NamesOf(HostAnswer(evs[j], evs[k])), NamesOf(SandboxAnswer(evs[j], evs[k])));
      SentAt(cfg, hostpass, evs, k) == [ToClientSent(ListNamesReply(evs[i].msg, merged), [])]
    ensures evs[i].msg.header.serial !in At(cfg, hostpass, evs, k + 1).st.merges
  {
    hide Run, Turn, ListNamesReply, Merged, ParseStringArray, Readable, MergeUntouched, SentAt, IsServiceCall;
    var serial := evs[i].msg.header.serial;
    RunStep(cfg, hostpass, evs, i);
    MergeAsked(cfg, hostpass, At(cfg, hostpass, evs, i), evs[i]);
    MergeSurvives(cfg, hostpass, evs, i + 1, j, serial);
    RunStep(cfg, hostpass, evs, j);
    FirstAnswer(cfg, hostpass, At(cfg, hostpass, evs, j), evs[j], serial);
    MergeSurvives(cfg, hostpass, evs, j + 1, k, serial);
    RunStep(cfg, hostpass, evs, k);
    SecondAnswer(cfg, hostpass, At(cfg, hostpass, evs, k), evs[k], serial);
  }

  // ----- the client's own calls -----

  /** A message of the client with this serial. */
  predicate ClientUses(ev: Event, serial: u32) { ev.FromClient? && ev.msg.header.serial == serial }

  lemma ForwardingCalls(st: State, msg: Message, target: Bus, serial: u32)
    requires msg.header.serial != serial
    ensures SameCall(st, ForwardStep(st, msg, target).st, serial) && SameCall(st, BothStep(st, msg).st, serial)
  {
    hide PreparedForBus, MatchRuleBodyOrOriginal, IsMatchRuleMember;
  }

  /** What the router remembers of the client's call `serial`. */
  predicate SameCall(a: State, b: State, serial: u32) {
    (serial in a.calls <==> serial in b.calls) && (serial in a.calls ==> a.calls[serial] == b.calls[serial])
  }

  lemma OwnCallClient(cfg: Config, hostpass: bool, st: State, msg: Message, serial: u32)
    requires |msg.raw| >= 16 && msg.header.serial != serial
    ensures SameCall(st, ClientStep(cfg, hostpass, st, msg).st, serial)
  {
    hide HeaderRewritten, RouteRequest, ForwardStep, BothStep, IsReplyToCaller, IsRequestName, ExtractName;
    var st' := Tracked(st, msg, RouteRequest(cfg, hostpass, msg));
    if IsReplyToCaller(st, msg) {
      ReplyKeepsCalls(st, msg);
    } else {
      match RouteRequest(cfg, hostpass, msg) {
        case Single(target) => ForwardingCalls(st', msg, target, serial);
        case Both => ForwardingCalls(st', msg, Host, serial);
        case Merge =>
      }
    }
  }

  lemma ReplyKeepsCalls(st: State, msg: Message)
    requires IsReplyToCaller(st, msg)
    ensures ReplyStep(st, msg).st.calls == st.calls
  {
    hide HeaderRewritten;
  }

  lemma OwnCallBus(st: State, msg: Message, source: Bus)
    requires |msg.raw| >= 16
    ensures BusStep(st, msg, source).st.calls == st.calls && BusStep(st, msg, source).st.merges.Keys <= st.merges.Keys
  {
    hide HeaderRewritten, PreparedForClient, ParseStringArray, ListNamesReply, Merged, IsServiceCall;
  }

  lemma OwnCallKept(cfg: Config, hostpass: bool, w: Loop, ev: Event, serial: u32)
    requires Readable(ev) && !ClientUses(ev, serial)
    ensures var w' := Turn(cfg, hostpass, w, ev).0;
      SameCall(w.st, w'.st, serial) && (serial in w'.st.merges ==> serial in w.st.merges)
  {
    hide ClientStep, BusStep, RouteRequest, IsReplyToCaller, HeaderOf;
    match ev {
      case FromClient(msg) =>
        ClientStepMaps(cfg, hostpass, w.st, msg);
        OwnCallClient(cfg, hostpass, w.st, msg, serial);
      case FromBus(bus, msg) => OwnCallBus(w.st, msg, bus);
      case _ =>
    }
  }

  lemma {:induction false} OwnCallSurvives(cfg: Config, hostpass: bool, evs: seq<Event>, i: nat, k: nat, serial: u32)
    requires ReadableAll(evs) && i <= k <= |evs| && forall j :: i <= j < k ==> !ClientUses(evs[j], serial)
    ensures SameCall(At(cfg, hostpass, evs, i).st, At(cfg, hostpass, evs, k).st, serial)
    ensures serial in At(cfg, hostpass, evs, k).st.merges ==> serial in At(cfg, hostpass, evs, i).st.merges
    decreases k
  {
    hide Turn, Run, Readable, ClientUses;
    if i < k {
      OwnCallSurvives(cfg, hostpass, evs, i, k - 1, serial);
      OwnCallKept(cfg, hostpass, At(cfg, hostpass, evs, k - 1), evs[k - 1], serial);
      RunStep(cfg, hostpass, evs, k - 1);
    }
  }

  /** Turn `i` is a call of the client that goes to one bus, turn `k` that bus's
      return, and the client uses the serial for nothing else. */
  predicate OwnCallReturned(cfg: Config, hostpass: bool, evs: seq<Event>, i: nat, k: nat)
    requires ReadableAll(evs) && i < k < |evs|
  {
    var w := At(cfg, hostpass, evs, i);
    w.alive && At(cfg, hostpass, evs, i + 1).alive && evs[i].FromClient? && !IsReplyToCaller(w.st, evs[i].msg)
    && evs[i].msg.header.serial !in w.st.merges
    && Seen(At(cfg, hostpass, evs, k), evs[k]) && evs[k].FromBus? && evs[k].msg.header.kind == MethodReturn
    && evs[k].msg.header.fields.replySerial == Some(evs[i].msg.header.serial)
    && |evs[i].msg.raw| >= 16 && RouteRequest(cfg, hostpass, evs[i].msg) == Single(evs[k].bus)
    && forall j :: i < j < k ==> !ClientUses(evs[j], evs[i].msg.header.serial)
  }

  lemma OwnCallRecorded(cfg: Config, hostpass: bool, w: Loop, ev: Event)
    requires Readable(ev) && ev.FromClient? && w.alive && !IsReplyToCaller(w.st, ev.msg) && |ev.msg.raw| >= 16
    requires RouteRequest(cfg, hostpass, ev.msg).Single? && Turn(cfg, hostpass, w, ev).0.alive
    ensures var st := Turn(cfg, hostpass, w, ev).0.st;
      ev.msg.header.serial in st.calls && st.merges == w.st.merges
      && st.calls[ev.msg.header.serial] == CallInfo(RouteRequest(cfg, hostpass, ev.msg).bus, ev.msg.header.fields.member)
  {
    hide HeaderRewritten, RouteRequest, PreparedForBus, IsRequestName, ExtractName, HeaderOf;
  }

  /** When the return of a call comes, the router still knows which bus it went
      to and which method it was, and prepares the return by that. */
  lemma ReturnKnown(cfg: Config, hostpass: bool, evs: seq<Event>, i: nat, k: nat)
    requires ReadableAll(evs) && i < k < |evs| && OwnCallReturned(cfg, hostpass, evs, i, k)
    ensures var st, serial := At(cfg, hostpass, evs, k).st, evs[i].msg.header.serial;
      serial in st.calls && st.calls[serial] == CallInfo(evs[k].bus, evs[i].msg.header.fields.member)
    ensures var calls := At(cfg, hostpass, evs, k).st.calls;
      PreparedForClient(evs[k].msg, evs[k].bus, calls).Ok? ==>
        SentAt(cfg, hostpass, evs, k) == [ToClientSent(PreparedForClient(evs[k].msg, evs[k].bus, calls).value, evs[k].msg.fds)]
  {
    hide Run, At, Turn, Readable, ClientUses, PreparedForClient, RouteRequest, IsReplyToCaller;
    var serial := evs[i].msg.header.serial;
    assert Readable(evs[i]) && Readable(evs[k]);
    RunStep(cfg, hostpass, evs, i);
    OwnCallRecorded(cfg, hostpass, At(cfg, hostpass, evs, i), evs[i]);
    OwnCallSurvives(cfg, hostpass, evs, i + 1, k, serial);
    RunStep(cfg, hostpass, evs, k);
    if PreparedForClient(evs[k].msg, evs[k].bus, At(cfg, hostpass, evs, k).st.calls).Ok? {
      ReturnForwarded(cfg, hostpass, At(cfg, hostpass, evs, k), evs[k]);
    }
  }

  lemma ReturnForwarded(cfg: Config, hostpass: bool, w: Loop, ev: Event)
    requires Readable(ev) && Seen(w, ev) && ev.FromBus? && ev.msg.header.kind == MethodReturn && !AnswersMerge(w.st, ev.msg)
    requires PreparedForClient(ev.msg, ev.bus, w.st.calls).Ok?
    ensures Turn(cfg, hostpass, w, ev).1 == [ToClientSent(PreparedForClient(ev.msg, ev.bus, w.st.calls).value, ev.msg.fds)]
  {
    hide PreparedForClient, HeaderOf;
  }
}

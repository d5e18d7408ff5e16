/** The session object: its maps and sets change with every message, and each
    method does what the step function says. */
module Session {
  import opened Wire
  import opened Message
  import opened FakeNames
  import opened HeaderRewrite
  import opened Bodies
  import opened Config
  import opened Routing
  import opened SessionSpec

  class Session {
    const config: Config
    const hostpass: bool
    var pendingCalls: map<u32, CallInfo>
    var exportedServices: set<bytes>
    var sandboxServices: set<bytes>
    var incomingCalls: map<u32, Bus>
    var pendingMerges: map<u32, PendingMerge>
    /** Everything written so far, in order. */
    var sent: seq<Sent>
    /** False once the session has ended. */
    var alive: bool

    constructor (config: Config, hostpass: bool)
      ensures this.config == config && this.hostpass == hostpass
      ensures View() == EMPTY && sent == [] && alive
    {
      this.config, this.hostpass := config, hostpass;
      pendingCalls, exportedServices, sandboxServices := map[], {}, {};
      incomingCalls, pendingMerges := map[], map[];
      sent, alive := [], true;
    }

    function View(): State
      reads this
    {
      State(pendingCalls, incomingCalls, pendingMerges, exportedServices, sandboxServices)
    }

    /** State, output and liveness are those of `step`. */
    twostate predicate Follows(step: Step)
      reads this
    {
      View() == step.st && sent == old(sent) + step.sent && alive == step.alive
    }

    /** Edit a copy of the header; a failed edit leaves the copy as it was. */
    static method RenamedCopy(msg: Message, direction: Direction, source: Bus) returns (r: Outcome<Message>)
      ensures r == OrUnchanged(HeaderRewritten(msg, direction, source), msg)
    {
      var copy := new MessageBuffer(msg);
      var status := copy.RewriteMessageHeader(direction, source);
      return if status.Panic? then Panic else Ok(copy.View());
    }

    // ----- messages from a bus -----

    method HandleUpstreamMessage(msg: Message, source: Bus)
      requires AsRead(msg) && alive
      modifies this
      ensures Follows(old(BusStep(View(), msg, source)))
    {
      hide HeaderRewritten, PreparedForClient, HeaderOf, ParsePrologue, AnswersMerge, MergeStep;
      if IsServiceCall(View(), msg, source) {
        incomingCalls := incomingCalls[msg.header.serial := source];
        var msgForClient := Ok(msg);
        if source == Sandbox {
          msgForClient := RenamedCopy(msg, ToClient, source);
        }
        if msgForClient.Ok? {
          sent := sent + [ToClientSent(msgForClient.value.raw, msgForClient.value.fds)];
        } else {
          alive := false;
        }
        return;
      }
      var merging := ProcessMergeResponse(msg, source);
      if !merging {
        match PreparedForClient(msg, source, pendingCalls) {
          case Ok(raw) => sent := sent + [ToClientSent(raw, msg.fds)];
          case _ => alive := false;
        }
      }
    }

    /** Takes in one of the two replies to a merge; returns whether it was one. */
    method ProcessMergeResponse(msg: Message, source: Bus) returns (merging: bool)
      requires |msg.raw| >= 16
      modifies this`pendingMerges, this`sent
      ensures merging == old(AnswersMerge(View(), msg))
      ensures !merging ==> View() == old(View()) && sent == old(sent)
      ensures merging ==> View() == old(MergeStep(View(), msg, source)).st
      ensures merging ==>
        sent == old(sent) + old(MergeStep(View(), msg, source)).sent && old(MergeStep(View(), msg, source)).alive
    {
      hide ParseStringArray, Merged, ListNamesReply;
      if msg.header.fields.replySerial.None? || msg.header.fields.replySerial.value !in pendingMerges {
        return false;
      }
      var serial := msg.header.fields.replySerial.value;
      var pending := pendingMerges[serial];
      var names := ParseStringArray(msg.raw, msg.header.endian);
      if pending.first.None? {
        pendingMerges := pendingMerges[serial := pending.(first := Some((source, names)))];
      } else {
        var (firstBus, firstNames) := pending.first.value;
        var hostNames, sandboxNames := names, firstNames;
        if firstBus == Host {
          hostNames, sandboxNames := firstNames, names;
        }
        var merged := MergeListNames(hostNames, sandboxNames);
        pendingMerges := pendingMerges - {serial};
        var response := BuildListNamesResponse(pending.request, merged);
        sent := sent + [ToClientSent(response, [])];
      }
      return true;
    }

    // ----- messages from the client -----

    /** Sends a reply back to the bus whose call it answers; returns whether
        it was such a reply. */
    method ForwardReplyToCaller(msg: Message) returns (consumed: bool)
      modifies this`incomingCalls, this`sent, this`alive
      ensures consumed == old(IsReplyToCaller(View(), msg))
      ensures !consumed ==> View() == old(View()) && sent == old(sent) && alive == old(alive)
      ensures consumed ==> Follows(old(ReplyStep(View(), msg)))
    {
      hide HeaderRewritten;
      if !IsReplyToCaller(View(), msg) {
        return false;
      }
      var serial := msg.header.fields.replySerial.value;
      var source := incomingCalls[serial];
      incomingCalls := incomingCalls - {serial};
      var msgForBus := RenamedCopy(msg, ToUpstream, source);
      alive := msgForBus.Ok?;
      if msgForBus.Ok? {
        sent := sent + [ToBusSent(source, msgForBus.value.raw, msgForBus.value.fds)];
      }
      return true;
    }

    method TrackExportedService(msg: Message, decision: RouteDecision)
      requires |msg.raw| >= 16
      modifies this`exportedServices, this`sandboxServices
      ensures View() == Tracked(old(View()), msg, decision)
    {
      hide ExtractName, IsRequestName;
      if IsRequestName(msg) {
        var name := ExtractName(msg.raw, msg.header.endian);
        if name.Some? {
          if decision == Single(Host) {
            exportedServices := exportedServices + {name.value};
          } else if decision == Single(Sandbox) {
            sandboxServices := sandboxServices + {name.value};
          }
        }
      }
    }

    method ForwardToBus(msg: Message, target: Bus)
      modifies this`pendingCalls, this`sent, this`alive
      ensures Follows(old(ForwardStep(View(), msg, target)))
    {
      hide HeaderRewritten, RequestBody;
      var msgForUpstream := RenamedCopy(msg, ToUpstream, target);
      var raw := if msgForUpstream.Ok? then RequestBody(msgForUpstream.value) else Panic;
      alive := raw.Ok?;
      if raw.Ok? {
        pendingCalls := pendingCalls[msg.header.serial := CallInfo(target, msg.header.fields.member)];
        sent := sent + [ToBusSent(target, raw.value, msg.fds)];
      }
    }

    method ForwardToBoth(msg: Message)
      modifies this`pendingCalls, this`sent, this`alive
      ensures Follows(old(BothStep(View(), msg)))
    {
      hide MatchRuleBodyOrOriginal, IsMatchRuleMember;
      var raw := Ok(msg.raw);
      if msg.header.fields.member.Some? && IsMatchRuleMember(msg.header.fields.member.value) {
        raw := MatchRuleBodyOrOriginal(msg);
      }
      alive := raw.Ok?;
      if raw.Ok? {
        pendingCalls := pendingCalls[msg.header.serial := CallInfo(Sandbox, msg.header.fields.member)];
        sent := sent + [ToBusSent(Host, raw.value, msg.fds), ToBusSent(Sandbox, raw.value, msg.fds)];
      }
    }

    method ForwardForMerge(msg: Message)
      requires alive
      modifies this`pendingMerges, this`sent
      ensures Follows(old(AskBothStep(View(), msg)))
    {
      pendingMerges := pendingMerges[msg.header.serial := PendingMerge(msg, None)];
      sent := sent + [ToBusSent(Host, msg.raw, msg.fds), ToBusSent(Sandbox, msg.raw, msg.fds)];
    }

    method HandleClientMessage(msg: Message)
      requires AsRead(msg) && alive
      modifies this
      ensures Follows(old(ClientStep(config, hostpass, View(), msg)))
    {
      hide HeaderOf, ParsePrologue, ReplyStep, RouteRequest, Tracked, ForwardStep, BothStep, AskBothStep, IsReplyToCaller;
      var consumed := ForwardReplyToCaller(msg);
      if consumed {
        return;
      }
      var decision := RouteRequest(config, hostpass, msg);
      TrackExportedService(msg, decision);
      match decision {
        case Single(target) => ForwardToBus(msg, target);
        case Both => ForwardToBoth(msg);
        case Merge => ForwardForMerge(msg);
      }
    }

    // ----- the loop -----

    /** Handles everything that becomes ready, in the order it does. */
    method ForwardLoop(events: seq<Event>)
      requires ReadableAll(events) && alive && View() == EMPTY && sent == []
      modifies this
      ensures View() == Run(config, hostpass, events).st && alive == Run(config, hostpass, events).alive
      ensures sent == Written(config, hostpass, events)
    {
      hide BusStep, ClientStep, AsRead;
      var sandboxActive := true;
      for i := 0 to |events|
        invariant At(config, hostpass, events, i) == Loop(View(), alive, sandboxActive)
        invariant sent == Written(config, hostpass, events[..i])
      {
        assert events[..i + 1][..i] == events[..i];
        if alive {
          match events[i] {
            case FromClient(msg) => HandleClientMessage(msg);
            case FromBus(bus, msg) =>
              if bus == Host || sandboxActive {
                HandleUpstreamMessage(msg, bus);
              }
            case SandboxGone =>
              if hostpass {
                sandboxActive := false;
              } else {
                alive := false;
              }
            case Closed => alive := false;
          }
        }
      }
      assert events[..|events|] == events;
    }
  }
}

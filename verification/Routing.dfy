/** Which bus a client message goes to (src/routing.rs, src/dbus/daemon.rs). */
module Routing {
  import opened Wire
  import opened Message
  import opened FakeNames
  import opened MatchRules
  import opened Config
  import opened Bodies

  datatype RouteDecision = Single(bus: Bus) | Both | Merge

  datatype DbusRouteKind = MergeBoth | ByMatchRule | ByName(checkHostRoutes: bool, allowFakeUnique: bool)

  const DBUS: bytes := Ascii("org.freedesktop.DBus")

  // Method names of the bus daemon.
  const ADD_MATCH: bytes := Ascii("AddMatch")
  const REMOVE_MATCH: bytes := Ascii("RemoveMatch")
  const REQUEST_NAME: bytes := Ascii("RequestName")
  const RELEASE_NAME: bytes := Ascii("ReleaseName")
  const GET_NAME_OWNER: bytes := Ascii("GetNameOwner")
  const NAME_HAS_OWNER: bytes := Ascii("NameHasOwner")
  const START_SERVICE: bytes := Ascii("StartServiceByName")
  const GET_CREDENTIALS: bytes := Ascii("GetConnectionCredentials")
  const GET_UNIX_USER: bytes := Ascii("GetConnectionUnixUser")
  const GET_PROCESS_ID: bytes := Ascii("GetConnectionUnixProcessID")
  const GET_SELINUX: bytes := Ascii("GetConnectionSELinuxSecurityContext")
  const GET_ADT: bytes := Ascii("GetAdtAuditSessionData")
  const LIST_NAMES: bytes := Ascii("ListNames")
  const LIST_ACTIVATABLE: bytes := Ascii("ListActivatableNames")

  predicate IsMatchRuleMember(member: bytes) { member == ADD_MATCH || member == REMOVE_MATCH }
  predicate OwnName(member: bytes) { member == REQUEST_NAME || member == RELEASE_NAME }
  predicate NameQuery(member: bytes) { member == GET_NAME_OWNER || member == NAME_HAS_OWNER || member == START_SERVICE }
  predicate ListsNames(member: bytes) { member == LIST_NAMES || member == LIST_ACTIVATABLE }
  predicate CredentialQuery(member: bytes) {
    member == GET_CREDENTIALS || member == GET_UNIX_USER || member == GET_PROCESS_ID || member == GET_SELINUX || member == GET_ADT
  }

  /** The table of bus-daemon methods. */
  function FindMethodSpec(member: bytes): Option<DbusRouteKind> {
    if IsMatchRuleMember(member) then Some(ByMatchRule)
    else if OwnName(member) then Some(ByName(true, false))
    else if NameQuery(member) then Some(ByName(true, true))
    else if CredentialQuery(member) then Some(ByName(false, true))
    else if ListsNames(member) then Some(MergeBoth)
    else None
  }

  function RouteMatchRule(cfg: Config, rule: bytes): RouteDecision {
    var info := InfoOf(Split(rule, COMMA));
    if info.sender.Some? && BusOfFake(info.sender.value).Some? then Single(BusOfFake(info.sender.value).value)
    else if info.sender.Some? && ShouldRouteToHost(cfg, info.sender.value) then Single(Host)
    else if info.iface.Some? && ServiceOf(info.iface.value).Some?
      && ShouldRouteToHost(cfg, ServiceOf(info.iface.value).value) then Single(Host)
    else Both
  }

  function RouteByName(cfg: Config, kind: DbusRouteKind, name: bytes): RouteDecision
    requires kind.ByName?
  {
    if kind.allowFakeUnique && BusOfFake(name).Some? then Single(BusOfFake(name).value)
    else if kind.checkHostRoutes && ShouldRouteToHost(cfg, name) then Single(Host)
    else Single(Sandbox)
  }

  function RouteDbusMethod(cfg: Config, msg: Message): RouteDecision
    requires |msg.raw| >= 16
  {
    var member := if msg.header.fields.member.Some? then msg.header.fields.member.value else [];
    var spec := FindMethodSpec(member);
    if spec.None? then Single(Sandbox)
    else if spec.value.MergeBoth? then Merge
    else
      var arg := ExtractName(msg.raw, msg.header.endian);
      if arg.None? then Single(Sandbox)
      else if spec.value.ByMatchRule? then RouteMatchRule(cfg, arg.value)
      else RouteByName(cfg, spec.value, arg.value)
  }

  predicate ToDaemon(msg: Message) {
    msg.header.fields.destination == Some(DBUS) && msg.header.fields.iface == Some(DBUS)
  }

  function RouteRequest(cfg: Config, hostpass: bool, msg: Message): RouteDecision
    requires |msg.raw| >= 16
  {
    var dest := msg.header.fields.destination;
    if hostpass then Single(Host)
    else if dest.Some? && BusOfFake(dest.value).Some? then Single(BusOfFake(dest.value).value)
    else if ToDaemon(msg) then RouteDbusMethod(cfg, msg)
    else if dest.Some? && ShouldRouteToHost(cfg, dest.value) then Single(Host)
    else Single(Sandbox)
  }

  // ----- agreement -----

  /** The bus that the configuration gives to a well-known name. */
  function ConfiguredBus(cfg: Config, name: bytes): Bus {
    if ShouldRouteToHost(cfg, name) then Host else Sandbox
  }

  /** Every method of the bus daemon has one kind, and each kind has just its
      own methods. */
  lemma MembersDistinct(member: bytes)
    ensures IsMatchRuleMember(member) <==> FindMethodSpec(member) == Some(ByMatchRule)
    ensures OwnName(member) <==> FindMethodSpec(member) == Some(ByName(true, false))
    ensures NameQuery(member) <==> FindMethodSpec(member) == Some(ByName(true, true))
    ensures CredentialQuery(member) <==> FindMethodSpec(member) == Some(ByName(false, true))
    ensures ListsNames(member) <==> FindMethodSpec(member) == Some(MergeBoth)
  {
    hide IsMatchRuleMember, OwnName, NameQuery, CredentialQuery, ListsNames;
    KindLengths(member);
  }

  lemma KindLengths(member: bytes)
    ensures IsMatchRuleMember(member) ==> |member| == 8 || (|member| == 11 && member[2] == 109)
    ensures OwnName(member) ==> |member| == 11 && member[2] != 109
    ensures NameQuery(member) ==> |member| == 12 || |member| == 18
    ensures CredentialQuery(member) ==> |member| > 20
    ensures ListsNames(member) ==> |member| == 9 || |member| == 20
  {
    MemberLengths();
    ThirdLetters();
  }

  lemma ThirdLetters()
    ensures |REMOVE_MATCH| == |REQUEST_NAME| == |RELEASE_NAME| == 11
    ensures REMOVE_MATCH[2] == 109 && REQUEST_NAME[2] == 113 && RELEASE_NAME[2] == 108
  {
  }

  lemma MemberLengths()
    ensures |ADD_MATCH| == 8 && |REMOVE_MATCH| == |REQUEST_NAME| == |RELEASE_NAME| == 11
    ensures |GET_NAME_OWNER| == |NAME_HAS_OWNER| == 12 && |START_SERVICE| == 18 && |LIST_NAMES| == 9 && |LIST_ACTIVATABLE| == 20
    ensures |GET_CREDENTIALS| == 24 && |GET_UNIX_USER| == 21 && |GET_PROCESS_ID| == 26 && |GET_SELINUX| == 35 && |GET_ADT| == 22
  {
  }

  lemma DaemonIsNotFake()
    ensures BusOfFake(DBUS).None?
  {
    assert DBUS[0] != HOST_PREFIX[0] && DBUS[0] != SANDBOX_PREFIX[0];
  }

  /** Where a message for the bus daemon goes whose argument leads to `bus`:
      arguments count only when the message names the daemon's interface. */
  function DaemonRoute(cfg: Config, msg: Message, bus: Bus): Bus {
    if msg.header.fields.iface == Some(DBUS) then bus else ConfiguredBus(cfg, DBUS)
  }

  lemma WithoutInterface(cfg: Config, msg: Message)
    requires |msg.raw| >= 16 && msg.header.fields.destination == Some(DBUS) && msg.header.fields.iface != Some(DBUS)
    ensures RouteRequest(cfg, false, msg) == Single(ConfiguredBus(cfg, DBUS))
  {
    hide BusOfFake, ShouldRouteToHost;
    DaemonIsNotFake();
  }

  /** Calls to a name and queries about it go to the same bus. Requesting or
      releasing a name goes there too, unless it is a fake unique name whose
      bus the configuration disagrees with. That holds for queries that name
      the interface of the bus daemon; the others all go to one bus. */
  lemma RoutingAgreement(cfg: Config, call: Message, query: Message, name: bytes, member: bytes)
    requires |call.raw| >= 16 && call.header.fields.destination == Some(name) && name != DBUS
    requires |query.raw| >= 16 && query.header.fields.destination == Some(DBUS) && query.header.fields.member == Some(member)
    requires ExtractName(query.raw, query.header.endian) == Some(name)
    ensures RouteRequest(cfg, false, call).Single?
      && (BusOfFake(name).None? ==> RouteRequest(cfg, false, call).bus == ConfiguredBus(cfg, name))
    ensures NameQuery(member) ==>
      RouteRequest(cfg, false, query) == Single(DaemonRoute(cfg, query, RouteRequest(cfg, false, call).bus))
    ensures OwnName(member) ==> RouteRequest(cfg, false, query) == Single(DaemonRoute(cfg, query, ConfiguredBus(cfg, name)))
    ensures OwnName(member) && ToDaemon(query) ==>
      (RouteRequest(cfg, false, query) == RouteRequest(cfg, false, call) <==>
       (BusOfFake(name).Some? ==> BusOfFake(name).value == ConfiguredBus(cfg, name)))
  {
    hide BusOfFake, ShouldRouteToHost, ExtractName, FindMethodSpec, NameQuery, OwnName;
    MembersDistinct(member);
    DaemonIsNotFake();
    if !ToDaemon(query) {
      WithoutInterface(cfg, query);
    }
  }

  predicate Covers(decision: RouteDecision, bus: Bus) { decision == Both || decision == Single(bus) }

  /** The rule names an interface whose service is routed to the host. */
  predicate InterfaceOnHost(cfg: Config, info: MatchRuleInfo) {
    info.iface.Some? && ServiceOf(info.iface.value).Some? && ShouldRouteToHost(cfg, ServiceOf(info.iface.value).value)
  }

  /** A match rule with a sender goes to the bus that calls to that sender go
      to, if and only if its interface does not draw it to the host away from
      a sender on the sandbox bus. A request that does not name the daemon's
      interface gets there only by chance. */
  lemma RuleReachesSender(cfg: Config, call: Message, add: Message, rule: bytes, sender: bytes, member: bytes)
    requires |call.raw| >= 16 && call.header.fields.destination == Some(sender) && sender != DBUS
    requires |add.raw| >= 16 && add.header.fields.destination == Some(DBUS)
    requires add.header.fields.member == Some(member) && IsMatchRuleMember(member)
    requires ExtractName(add.raw, add.header.endian) == Some(rule) && InfoOf(Split(rule, COMMA)).sender == Some(sender)
    ensures RouteRequest(cfg, false, call).Single?
    ensures Covers(RouteRequest(cfg, false, add), RouteRequest(cfg, false, call).bus) <==>
      if add.header.fields.iface == Some(DBUS) then
        BusOfFake(sender).Some? || ShouldRouteToHost(cfg, sender) || !InterfaceOnHost(cfg, InfoOf(Split(rule, COMMA)))
      else RouteRequest(cfg, false, call).bus == ConfiguredBus(cfg, DBUS)
    ensures add.header.fields.iface == Some(DBUS) ==>
      RouteRequest(cfg, false, add) ==
      if BusOfFake(sender).Some? then Single(BusOfFake(sender).value)
      else if ShouldRouteToHost(cfg, sender) || InterfaceOnHost(cfg, InfoOf(Split(rule, COMMA))) then Single(Host) else Both
  {
    hide BusOfFake, ShouldRouteToHost, ExtractName, InfoOf, Split, ServiceOf, IsMatchRuleMember;
    DaemonIsNotFake();
    assert FindMethodSpec(member) == Some(ByMatchRule);
    if !ToDaemon(add) {
      WithoutInterface(cfg, add);
    }
  }

  /** A match rule without a sender goes to both buses, if and only if the
      request names the daemon's interface and the rule names none that draws
      it to the host. */
  lemma RuleWithoutSender(cfg: Config, add: Message, rule: bytes, member: bytes)
    requires |add.raw| >= 16 && add.header.fields.destination == Some(DBUS)
    requires add.header.fields.member == Some(member) && IsMatchRuleMember(member)
    requires ExtractName(add.raw, add.header.endian) == Some(rule) && InfoOf(Split(rule, COMMA)).sender.None?
    ensures RouteRequest(cfg, false, add) ==
      if add.header.fields.iface != Some(DBUS) then Single(ConfiguredBus(cfg, DBUS))
      else if InterfaceOnHost(cfg, InfoOf(Split(rule, COMMA))) then Single(Host) else Both
  {
    hide BusOfFake, ShouldRouteToHost, ExtractName, InfoOf, Split, ServiceOf, IsMatchRuleMember;
    DaemonIsNotFake();
    assert FindMethodSpec(member) == Some(ByMatchRule);
    if !ToDaemon(add) {
      WithoutInterface(cfg, add);
    }
  }

  // ----- every other message -----

  /** Messages that are not for the bus daemon's own interface: by the prefix
      of their destination, or by its name; without one, to the sandbox. */
  lemma OrdinaryRouting(cfg: Config, hostpass: bool, msg: Message)
    requires |msg.raw| >= 16
    ensures hostpass ==> RouteRequest(cfg, hostpass, msg) == Single(Host)
    ensures !hostpass && msg.header.fields.destination.None? ==> RouteRequest(cfg, hostpass, msg) == Single(Sandbox)
    ensures !hostpass && msg.header.fields.destination.Some? ==>
      var d := msg.header.fields.destination.value;
      (BusOfFake(d).Some? ==> RouteRequest(cfg, hostpass, msg) == Single(BusOfFake(d).value))
      && (BusOfFake(d).None? && !ToDaemon(msg) ==>
            RouteRequest(cfg, hostpass, msg) == Single(if ShouldRouteToHost(cfg, d) then Host else Sandbox))
  {
    hide BusOfFake, ShouldRouteToHost, RouteDbusMethod;
  }

  /** Messages for the bus daemon's own interface, by method: listings go to
      both buses; methods without a rule, and all others without an argument,
      to the sandbox; the rest by their argument. */
  lemma DaemonRouting(cfg: Config, msg: Message)
    requires |msg.raw| >= 16 && ToDaemon(msg)
    ensures var decision, m := RouteRequest(cfg, false, msg), msg.header.fields.member;
      var arg := ExtractName(msg.raw, msg.header.endian);
      (m.Some? && ListsNames(m.value) ==> decision == Merge)
      && (m.None? || FindMethodSpec(m.value).None? ==> decision == Single(Sandbox))
      && (m.Some? && !ListsNames(m.value) && arg.None? ==> decision == Single(Sandbox))
      && (m.Some? && arg.Some? && OwnName(m.value) ==> decision == Single(if ShouldRouteToHost(cfg, arg.value) then Host else Sandbox))
      && (m.Some? && arg.Some? && NameQuery(m.value) ==>
            decision == Single(if BusOfFake(arg.value).Some? then BusOfFake(arg.value).value
                               else if ShouldRouteToHost(cfg, arg.value) then Host else Sandbox))
      && (m.Some? && arg.Some? && CredentialQuery(m.value) ==>
            decision == Single(if BusOfFake(arg.value).Some? then BusOfFake(arg.value).value else Sandbox))
  {
    hide BusOfFake, ShouldRouteToHost, ExtractName, FindMethodSpec, OwnName, NameQuery, CredentialQuery, ListsNames, RouteMatchRule;
    DaemonIsNotFake();
    if msg.header.fields.member.Some? {
      MembersDistinct(msg.header.fields.member.value);
    } else {
      NoMember();
    }
  }

  lemma NoMember()
    ensures FindMethodSpec([]).None?
  {
    MemberLengths();
  }
}

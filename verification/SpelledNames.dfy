/** Names, methods, keys and lines by their texts, without the names that the
    model gives to them. */
module SpelledNames {
  import opened Wire
  import opened Message
  import opened FakeNames
  import opened MatchRules
  import opened Routing
  import opened SessionSpec
  import Socket
  import Auth

  // ----- fake names -----

  /** ":h." stands for the host bus, ":s." for the sandbox bus; only names that
      start with a colon get one, and only they lose one. */
  lemma FakeNamesSpelled(n: bytes)
    ensures IsUnique(n) <==> |n| > 0 && n[0] == 58
    ensures |n| > 0 && n[0] == 58 ==> ToFake(n, Host) == [58, 104, 46] + n[1..] && ToFake(n, Sandbox) == [58, 115, 46] + n[1..]
    ensures !(|n| > 0 && n[0] == 58) ==> ToFake(n, Host) == n && ToFake(n, Sandbox) == n
    ensures BusOfFake(n) == if [58, 104, 46] <= n then Some(Host) else if [58, 115, 46] <= n then Some(Sandbox) else None
    ensures FromFake(n) ==
      if [58, 104, 46] <= n then Some(([58] + n[3..], Host)) else if [58, 115, 46] <= n then Some(([58] + n[3..], Sandbox)) else None
  {
  }

  /** Texts are modelled by their code points. */
  lemma AsciiSpelled(s: string)
    requires forall i :: 0 <= i < |s| ==> s[i] as int < 128
    ensures |Ascii(s)| == |s| && forall i :: 0 <= i < |s| ==> Ascii(s)[i] == s[i] as int
  {
  }

  // ----- methods of the bus daemon -----

  predicate Credentials(m: bytes) {
    m == Ascii("GetConnectionCredentials") || m == Ascii("GetConnectionUnixUser") || m == Ascii("GetConnectionUnixProcessID")
    || m == Ascii("GetConnectionSELinuxSecurityContext") || m == Ascii("GetAdtAuditSessionData")
  }

  /** The methods with a rule of their own, and the rule: match rules by their
      sender, own names by the configuration, queries also by a prefix,
      credentials by a prefix only, listings from both buses. */
  lemma MethodsSpelled(m: bytes)
    ensures FindMethodSpec(m) == Some(ByMatchRule) <==> m == Ascii("AddMatch") || m == Ascii("RemoveMatch")
    ensures FindMethodSpec(m) == Some(ByName(true, false)) <==> m == Ascii("RequestName") || m == Ascii("ReleaseName")
    ensures FindMethodSpec(m) == Some(ByName(true, true)) <==>
      m == Ascii("GetNameOwner") || m == Ascii("NameHasOwner") || m == Ascii("StartServiceByName")
    ensures FindMethodSpec(m) == Some(ByName(false, true)) <==> Credentials(m)
    ensures FindMethodSpec(m) == Some(MergeBoth) <==> m == Ascii("ListNames") || m == Ascii("ListActivatableNames")
    ensures FindMethodSpec(m) != Some(ByName(false, false))
  {
    hide FindMethodSpec;
    MembersDistinct(m);
    NoOtherKind(m);
  }

  lemma NoOtherKind(m: bytes)
    ensures FindMethodSpec(m) != Some(ByName(false, false))
  {
    hide IsMatchRuleMember, OwnName, NameQuery, CredentialQuery, ListsNames;
  }

  /** The seven methods whose argument loses its prefix, the three whose answer
      gets one, and the signal that does. */
  lemma RewrittenMethodsSpelled(m: bytes)
    ensures NeedsRequestRewrite(m) <==> Credentials(m) || m == Ascii("NameHasOwner") || m == Ascii("GetNameOwner")
    ensures NeedsResponseRewrite(m) <==> m == Ascii("Hello") || m == Ascii("GetNameOwner") || m == Ascii("ListQueuedOwners")
    ensures IsMatchRuleMember(m) <==> m == Ascii("AddMatch") || m == Ascii("RemoveMatch")
    ensures m == NAME_OWNER_CHANGED <==> m == Ascii("NameOwnerChanged")
    ensures m == LIST_QUEUED_OWNERS <==> m == Ascii("ListQueuedOwners")
    ensures m == HELLO <==> m == Ascii("Hello")
  {
  }

  /** What is addressed to the bus daemon, and what requests a name. */
  lemma DaemonSpelled(msg: Message)
    ensures ToDaemon(msg) <==>
      msg.header.fields.destination == Some(Ascii("org.freedesktop.DBus")) && msg.header.fields.iface == Some(Ascii("org.freedesktop.DBus"))
    ensures IsRequestName(msg) <==> ToDaemon(msg) && msg.header.fields.member == Some(Ascii("RequestName"))
    ensures DBUS == Ascii("org.freedesktop.DBus")
  {
  }

  // ----- match rules -----

  /** The keys of a match rule. */
  lemma KeysSpelled(info: MatchRuleInfo, v: bytes)
    ensures Store(info, Ascii("sender"), v) == info.(sender := Some(v))
    ensures Store(info, Ascii("interface"), v) == info.(iface := Some(v))
    ensures Store(info, Ascii("member"), v) == info.(member := Some(v))
    ensures Store(info, Ascii("path"), v) == info.(path := Some(v))
    ensures Store(info, Ascii("path_namespace"), v) == info.(pathNamespace := Some(v))
    ensures Store(info, Ascii("destination"), v) == info.(destination := Some(v))
    ensures Store(info, Ascii("type"), v) == info.(msgType := Some(v))
  {
    KeyLengths();
  }

  lemma KeyLengths()
    ensures |Ascii("sender")| == |Ascii("member")| == 6 && |Ascii("interface")| == 9 && |Ascii("path")| == |Ascii("type")| == 4
    ensures |Ascii("path_namespace")| == 14 && |Ascii("destination")| == 11
    ensures Ascii("sender")[0] != Ascii("member")[0] && Ascii("path")[0] != Ascii("type")[0]
  {
  }

  lemma OtherKeysSpelled(info: MatchRuleInfo, key: bytes, v: bytes)
    requires key != Ascii("sender") && key != Ascii("interface") && key != Ascii("member") && key != Ascii("path")
    requires key != Ascii("path_namespace") && key != Ascii("destination") && key != Ascii("type")
    ensures Store(info, key, v) == info
  {
  }

  // ----- descriptors -----

  /** A message has as many descriptors as field 9 of its header says. */
  lemma DeclaredSpelled(h: Header, n: u32)
    ensures h.fields.unixFds == Some(n) ==> Socket.Declared(h) == n
    ensures h.fields.unixFds == None ==> Socket.Declared(h) == 0
    ensures Socket.MAX_FDS_PER_MESSAGE == 64
  {
  }

  // ----- the authentication phase -----

  /** What the lines of the two sides mean: they start with these words. */
  lemma LinesSpelled(t: bytes)
    ensures Auth.IsBegin(Auth.FromClient(t)) <==> Ascii("BEGIN") <= t
    ensures Auth.Negotiates(Auth.FromClient(t)) <==> Ascii("NEGOTIATE_UNIX_FD") <= t
    ensures Auth.Answers(Auth.FromBus(t)) <==> Ascii("AGREE_UNIX_FD") <= t || Ascii("ERROR") <= t
    ensures !Auth.IsBegin(Auth.FromBus(t)) && !Auth.Negotiates(Auth.FromBus(t)) && !Auth.Answers(Auth.FromClient(t))
    ensures forall n: nat :: Auth.EndsAt(t, n) <==> 2 <= n <= |t| && t[n - 2..n] == [13, 10]
    ensures Auth.AUTH_BUFFER_SIZE == 4096
  {
    forall n: nat ensures Auth.EndsAt(t, n) <==> 2 <= n <= |t| && t[n - 2..n] == [13, 10] {
      if 2 <= n <= |t| {
        assert t[n - 2..n] == [t[n - 2], t[n - 1]];
      }
    }
  }

  /** The client is read, if it is ready first, as long as it sent no BEGIN; the
      phase may end when it did and nothing is pending. */
  lemma TurnsSpelled(lines: seq<Auth.Line>)
    ensures !Auth.ClientNext(lines, false)
    ensures Auth.ClientNext(lines, true) <==>
      forall i :: 0 <= i < |lines| && lines[i].FromClient? ==> !(Ascii("BEGIN") <= lines[i].text)
    ensures Auth.MayEnd(lines) <==> !Auth.ClientNext(lines, true) && Auth.Pending(lines) == 0
  {
  }
}

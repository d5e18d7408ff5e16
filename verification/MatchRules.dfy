/** Match rules as text: parsing for routing and rewriting of the sender (src/dbus/rewrite.rs). */
module MatchRules {
  import opened Wire

  const COMMA: byte := 44
  const EQUALS: byte := 61
  const QUOTE: byte := 39

  const SENDER: bytes := Ascii("sender")

  /** `str::split`: there is always at least one part. */
  function Split(s: bytes, sep: byte): (r: seq<bytes>)
    ensures |r| > 0
  {
    if |s| == 0 then [[]]
    else var rest := Split(s[1..], sep);
      if s[0] == sep then [[]] + rest else [[s[0]] + rest[0]] + rest[1..]
  }

  // ----- trimming -----

  /** The UTF-8 forms of Unicode white space. */
  predicate IsSpace(c: bytes) {
    (|c| == 1 && (9 <= c[0] <= 13 || c[0] == 32))
    || (|c| == 2 && c[0] == 0xC2 && (c[1] == 0x85 || c[1] == 0xA0))
    || (|c| == 3 && ((c[0] == 0xE1 && c[1] == 0x9A && c[2] == 0x80)
                     || (c[0] == 0xE2 && c[1] == 0x80 && (0x80 <= c[2] <= 0x8A || c[2] == 0xA8 || c[2] == 0xA9 || c[2] == 0xAF))
                     || (c[0] == 0xE2 && c[1] == 0x81 && c[2] == 0x9F)
                     || (c[0] == 0xE3 && c[1] == 0x80 && c[2] == 0x80)))
  }

  function SpaceAtStart(s: bytes): (n: nat)
    ensures n <= |s|
  {
    if |s| >= 1 && IsSpace(s[..1]) then 1 else if |s| >= 2 && IsSpace(s[..2]) then 2
    else if |s| >= 3 && IsSpace(s[..3]) then 3 else 0
  }

  function SpaceAtEnd(s: bytes): (n: nat)
    ensures n <= |s|
  {
    if |s| >= 1 && IsSpace(s[|s| - 1..]) then 1 else if |s| >= 2 && IsSpace(s[|s| - 2..]) then 2
    else if |s| >= 3 && IsSpace(s[|s| - 3..]) then 3 else 0
  }

  function TrimStart(s: bytes): bytes {
    if SpaceAtStart(s) == 0 then s else TrimStart(s[SpaceAtStart(s)..])
  }

  function TrimEnd(s: bytes): bytes {
    if SpaceAtEnd(s) == 0 then s else TrimEnd(s[..|s| - SpaceAtEnd(s)])
  }

  /** `str::trim` */
  function Trim(s: bytes): bytes { TrimEnd(TrimStart(s)) }

  /** `str::trim_matches` of the single quote. */
  function Unquote(s: bytes): bytes {
    if |s| > 0 && s[0] == QUOTE then Unquote(s[1..])
    else if |s| > 0 && s[|s| - 1] == QUOTE then Unquote(s[..|s| - 1])
    else s
  }

  /** Index of the first `sep`; the length when there is none. */
  function IndexOf(s: bytes, sep: byte): (i: nat)
    ensures i <= |s| && sep !in s[..i] && (i < |s| ==> s[i] == sep)
  {
    if |s| == 0 || s[0] == sep then 0 else
      var i := IndexOf(s[1..], sep) + 1;
      assert s[..i] == [s[0]] + s[1..][..i - 1];
      i
  }

  // ----- parsing -----

  datatype MatchRuleInfo = MatchRuleInfo(
    sender: Option<bytes>, iface: Option<bytes>, member: Option<bytes>, path: Option<bytes>,
    pathNamespace: Option<bytes>, destination: Option<bytes>, msgType: Option<bytes>)

  const NO_INFO := MatchRuleInfo(None, None, None, None, None, None, None)

  function Store(info: MatchRuleInfo, key: bytes, value: bytes): MatchRuleInfo {
    if key == SENDER then info.(sender := Some(value))
    else if key == Ascii("interface") then info.(iface := Some(value))
    else if key == Ascii("member") then info.(member := Some(value))
    else if key == Ascii("path") then info.(path := Some(value))
    else if key == Ascii("path_namespace") then info.(pathNamespace := Some(value))
    else if key == Ascii("destination") then info.(destination := Some(value))
    else if key == Ascii("type") then info.(msgType := Some(value))
    else info
  }

  /** What the parsing loop does with one part. */
  function StorePart(info: MatchRuleInfo, part: bytes): MatchRuleInfo {
    var t := Trim(part);
    var i := IndexOf(t, EQUALS);
    if i == |t| then info else Store(info, t[..i], Unquote(t[i + 1..]))
  }

  function InfoOf(parts: seq<bytes>): MatchRuleInfo {
    if |parts| == 0 then NO_INFO else StorePart(InfoOf(parts[..|parts| - 1]), parts[|parts| - 1])
  }

  method ParseMatchRule(rule: bytes) returns (info: MatchRuleInfo)
    ensures info == InfoOf(Split(rule, COMMA))
  {
    var parts := Split(rule, COMMA);
    info := NO_INFO;
    for k := 0 to |parts|
      invariant info == InfoOf(parts[..k])
    {
      assert parts[..k + 1][..k] == parts[..k];
      info := StorePart(info, parts[k]);
    }
    assert parts[..|parts|] == parts;
  }

  // ----- the sender -----

  const SENDER_EQUALS: bytes := SENDER + [EQUALS]
  const SENDER_QUOTED: bytes := SENDER + [EQUALS, QUOTE]

  /** The sender a part names, if it is the sender part. */
  function PartSender(part: bytes): Option<bytes> {
    var t := Trim(part);
    if SENDER_QUOTED <= t && |t| > |SENDER_QUOTED| && t[|t| - 1] == QUOTE then Some(t[|SENDER_QUOTED|..|t| - 1])
    else if SENDER_EQUALS <= t then Some(t[|SENDER_EQUALS|..])
    else None
  }

  function FirstSender(parts: seq<bytes>): Option<bytes> {
    if |parts| == 0 then None
    else if PartSender(parts[0]).Some? then PartSender(parts[0])
    else FirstSender(parts[1..])
  }

  method ParseMatchRuleSender(rule: bytes) returns (r: Option<bytes>)
    ensures r == FirstSender(Split(rule, COMMA))
  {
    var parts := Split(rule, COMMA);
    for k := 0 to |parts|
      invariant FirstSender(parts[k..]) == FirstSender(parts)
    {
      assert parts[k..][1..] == parts[k + 1..];
      if PartSender(parts[k]).Some? {
        return PartSender(parts[k]);
      }
    }
    return None;
  }

  /** `str::replace` with a non-empty pattern: leftmost matches, not overlapping. */
  function Replace(s: bytes, was: bytes, now: bytes): bytes
    requires |was| > 0
  {
    if |s| == 0 then []
    else if was <= s then now + Replace(s[|was|..], was, now)
    else [s[0]] + Replace(s[1..], was, now)
  }

  function SenderText(name: bytes): bytes { SENDER_QUOTED + name + [QUOTE] }

  function RewriteMatchRuleSender(rule: bytes, was: bytes, now: bytes): bytes {
    Replace(rule, SenderText(was), SenderText(now))
  }
}

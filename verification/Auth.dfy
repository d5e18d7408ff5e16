/** The authentication phase: lines pass through until BEGIN, and every
    NEGOTIATE_UNIX_FD waits for its answer (src/auth.rs). */
module Auth {
  import opened Wire

  const AUTH_BUFFER_SIZE := 4096
  const CR: byte := 13
  const LF: byte := 10

  const BEGIN: bytes := Ascii("BEGIN")
  const NEGOTIATE: bytes := Ascii("NEGOTIATE_UNIX_FD")
  const AGREE: bytes := Ascii("AGREE_UNIX_FD")
  const ERROR: bytes := Ascii("ERROR")

  /** One line, from the client or from the bus. */
  datatype Line = FromClient(text: bytes) | FromBus(text: bytes)

  predicate IsBegin(l: Line) { l.FromClient? && BEGIN <= l.text }
  predicate Negotiates(l: Line) { l.FromClient? && NEGOTIATE <= l.text }
  predicate Answers(l: Line) { l.FromBus? && (AGREE <= l.text || ERROR <= l.text) }

  // ----- the counter -----

  /** `pending_responses` after these lines. */
  function Pending(lines: seq<Line>): nat {
    if |lines| == 0 then 0 else
    var n, last := Pending(lines[..|lines| - 1]), lines[|lines| - 1];
    if Negotiates(last) then n + 1 else if Answers(last) && n > 0 then n - 1 else n
  }

  /** NEGOTIATE_UNIX_FD lines less answers among these lines. */
  function Balance(lines: seq<Line>): int {
    if |lines| == 0 then 0 else
    Balance(lines[1..]) + (if Negotiates(lines[0]) then 1 else if Answers(lines[0]) then -1 else 0)
  }

  lemma {:induction false} BalanceAppend(lines: seq<Line>, last: Line)
    ensures Balance(lines + [last]) == Balance(lines) + (if Negotiates(last) then 1 else if Answers(last) then -1 else 0)
  {
    if |lines| == 0 {
      assert lines + [last] == [last] && [last][1..] == [];
    } else {
      assert (lines + [last])[1..] == lines[1..] + [last];
      BalanceAppend(lines[1..], last);
    }
  }

  /** The counter is the largest balance of any suffix of the trace: no suffix
      has more unanswered negotiations than it says, and some suffix has just
      as many. */
  lemma {:induction false} PendingIsLargestSuffix(lines: seq<Line>)
    ensures forall i :: 0 <= i <= |lines| ==> Balance(lines[i..]) <= Pending(lines)
    ensures exists i :: 0 <= i <= |lines| && Balance(lines[i..]) == Pending(lines)
    decreases |lines|
  {
    hide Negotiates, Answers;
    NoBalance();
    assert lines[|lines|..] == [];
    if |lines| > 0 {
      var n := |lines| - 1;
      var init, last := lines[..n], lines[n];
      PendingIsLargestSuffix(init);
      forall i | 0 <= i <= |lines| ensures Balance(lines[i..]) <= Pending(lines) {
        if i <= n {
          SuffixGrows(lines, i);
          assert Balance(init[i..]) <= Pending(init);
        }
      }
      var i :| 0 <= i <= n && Balance(init[i..]) == Pending(init);
      SuffixGrows(lines, i);
      assert Balance(lines[i..]) >= Pending(lines) || Balance(lines[|lines|..]) == Pending(lines);
    }
  }

  lemma NoBalance()
    ensures Balance([]) == 0
  {
  }

  lemma SuffixGrows(lines: seq<Line>, i: nat)
    requires i < |lines|
    ensures var init, last := lines[..|lines| - 1], lines[|lines| - 1];
      Balance(lines[i..]) == Balance(init[i..]) + (if Negotiates(last) then 1 else if Answers(last) then -1 else 0)
  {
    hide Negotiates, Answers;
    var init, last := lines[..|lines| - 1], lines[|lines| - 1];
    assert lines[i..] == init[i..] + [last];
    BalanceAppend(init[i..], last);
  }

  // ----- every negotiation has its own answer -----

  /** `answer` gives each negotiating line a later answering line of its own. */
  predicate Matching(lines: seq<Line>, answer: map<nat, nat>) {
    (forall i :: i in answer ==> i < answer[i] < |lines| && Negotiates(lines[i]) && Answers(lines[answer[i]]))
    && (forall i, j :: i in answer && j in answer && i != j ==> answer[i] != answer[j])
  }

  predicate Unanswered(lines: seq<Line>, answer: map<nat, nat>, i: nat) {
    i < |lines| && Negotiates(lines[i]) && i !in answer
  }

  function Open(lines: seq<Line>, answer: map<nat, nat>): (s: set<nat>) {
    set i: nat | 0 <= i < |lines| && Unanswered(lines, answer, i)
  }

  lemma OpenMore(init: seq<Line>, last: Line, answer: map<nat, nat>)
    ensures Open(init + [last], answer) == Open(init, answer)
      + (if Negotiates(last) && |init| !in answer then {|init|} else {})
  {
    hide Negotiates;
    var lines := init + [last];
    forall i: nat | i < |init| ensures Unanswered(lines, answer, i) <==> Unanswered(init, answer, i) {
    }
  }

  lemma OpenAnswered(lines: seq<Line>, answer: map<nat, nat>, i: nat, j: nat)
    requires i in Open(lines, answer)
    ensures Open(lines, answer[i := j]) == Open(lines, answer) - {i}
  {
    hide Negotiates;
    forall k: nat | k < |lines| ensures Unanswered(lines, answer[i := j], k) <==> Unanswered(lines, answer, k) && k != i {
    }
  }

  lemma MatchingMore(init: seq<Line>, last: Line, answer: map<nat, nat>)
    requires Matching(init, answer)
    ensures Matching(init + [last], answer) && |init| !in answer
    ensures forall i :: i in Open(init, answer) && Answers(last) ==> Matching(init + [last], answer[i := |init|])
  {
    hide Negotiates, Answers;
    var lines := init + [last];
    assert forall k :: 0 <= k < |init| ==> lines[k] == init[k];
  }

  /** All but `Pending` of the negotiations can be given an answer of their own. */
  lemma {:induction false} MatchesAllButPending(lines: seq<Line>) returns (answer: map<nat, nat>)
    ensures Matching(lines, answer) && |Open(lines, answer)| == Pending(lines)
    decreases |lines|
  {
    hide Negotiates, Open, Matching;
    if |lines| == 0 {
      answer := map[];
      NothingOpen();
    } else {
      var n := |lines| - 1;
      var init, last := lines[..n], lines[n];
      assert lines == init + [last];
      answer := MatchesAllButPending(init);
      MatchingMore(init, last, answer);
      OpenMore(init, last, answer);
      OpenIndices(init, answer);
      if Answers(last) && Pending(init) > 0 {
        OneSideOnly(last);
        var i :| i in Open(init, answer);
        OpenAnswered(lines, answer, i, n);
        answer := answer[i := n];
      }
    }
  }

  lemma NothingOpen()
    ensures Matching([], map[]) && Open([], map[]) == {}
  {
  }

  lemma OneSideOnly(l: Line)
    ensures !(Negotiates(l) && Answers(l))
  {
  }

  lemma OpenIndices(lines: seq<Line>, answer: map<nat, nat>)
    ensures |lines| !in Open(lines, answer)
  {
  }

  // ----- the phase -----

  predicate BeginSeen(lines: seq<Line>) { exists i :: 0 <= i < |lines| && IsBegin(lines[i]) }

  /** The phase may end. */
  predicate MayEnd(lines: seq<Line>) { BeginSeen(lines) && Pending(lines) == 0 }

  /** Leaving the phase means BEGIN was seen and every negotiation can be
      paired with a later answer of its own. */
  lemma CompleteMeansAnswered(lines: seq<Line>) returns (answer: map<nat, nat>)
    requires MayEnd(lines)
    ensures BeginSeen(lines) && Matching(lines, answer)
    ensures forall i :: 0 <= i < |lines| && Negotiates(lines[i]) ==> i in answer
  {
    answer := MatchesAllButPending(lines);
    forall i | 0 <= i < |lines| && Negotiates(lines[i]) ensures i in answer {
      assert Open(lines, answer) == {};
      assert Unanswered(lines, answer, i) ==> i in Open(lines, answer);
    }
  }

  // ----- lines -----

  /** A CR LF ends at `n`. */
  predicate EndsAt(s: bytes, n: nat) {
    2 <= n <= |s| && s[n - 2] == CR && s[n - 1] == LF
  }

  /** `n` is where the first line ends: behind its first CR LF. */
  predicate LineEnd(s: bytes, n: nat) {
    EndsAt(s, n) && forall k :: 0 <= k < n ==> !EndsAt(s, k)
  }

  /** What reading a line gives: the line, nothing at the end of the stream,
      or an error when it does not fit the buffer. */
  datatype LineResult = GotLine(line: bytes) | Eof | TooLong

  /** The router's end of a connection. */
  class LineStream {
    var rest: bytes
    var written: bytes

    /** Byte by byte, so that nothing behind the line is consumed. */
    method ReadAuthLine() returns (r: LineResult)
      modifies this`rest
      ensures r.GotLine? ==> LineEnd(old(rest), |r.line|) && |r.line| <= AUTH_BUFFER_SIZE && old(rest) == r.line + rest
      ensures r.Eof? ==> |old(rest)| < AUTH_BUFFER_SIZE && forall n: nat :: !EndsAt(old(rest), n)
      ensures r.TooLong? ==> |old(rest)| >= AUTH_BUFFER_SIZE && forall n: nat :: n <= AUTH_BUFFER_SIZE ==> !EndsAt(old(rest), n)
    {
      var pos := 0;
      var result := [];
      while true
        invariant pos == |result| <= AUTH_BUFFER_SIZE && old(rest) == result + rest
        invariant forall k :: 0 <= k <= pos ==> !EndsAt(old(rest), k)
        decreases AUTH_BUFFER_SIZE - pos
      {
        if pos >= AUTH_BUFFER_SIZE {
          return TooLong;
        }
        if |rest| == 0 {
          return Eof;
        }
        result := result + [rest[0]];
        rest := rest[1..];
        pos := pos + 1;
        assert EndsAt(old(rest), pos) <==> EndsAt(result, pos);
        if |result| >= 2 && result[|result| - 2] == CR && result[|result| - 1] == LF {
          return GotLine(result);
        }
      }
    }
  }

  /** The texts of the lines of one side, joined. */
  function LineTexts(lines: seq<Line>, client: bool): bytes {
    if |lines| == 0 then [] else
    LineTexts(lines[..|lines| - 1], client) + (if lines[|lines| - 1].FromClient? == client then lines[|lines| - 1].text else [])
  }

  lemma OneMoreLine(lines: seq<Line>, last: Line)
    ensures var more := lines + [last];
      Pending(more) == (if Negotiates(last) then Pending(lines) + 1
                        else if Answers(last) && Pending(lines) > 0 then Pending(lines) - 1 else Pending(lines))
      && (BeginSeen(more) <==> BeginSeen(lines) || IsBegin(last))
      && LineTexts(more, true) == LineTexts(lines, true) + (if last.FromClient? then last.text else [])
      && LineTexts(more, false) == LineTexts(lines, false) + (if last.FromClient? then [] else last.text)
  {
    hide IsBegin, Negotiates, Answers;
    var more := lines + [last];
    assert more[..|lines|] == lines;
    if BeginSeen(lines) {
      var i :| 0 <= i < |lines| && IsBegin(lines[i]);
      assert IsBegin(more[i]);
    }
    if IsBegin(last) {
      assert IsBegin(more[|lines|]);
    }
  }

  /** How the phase ended. */
  datatype AuthResult = Done | Failed | Waiting

  /** Nothing of the client was read after its BEGIN, and the phase was not
      complete before the last line. */
  predicate Orderly(lines: seq<Line>) {
    (forall i, j :: 0 <= i < j < |lines| && IsBegin(lines[i]) ==> lines[j].FromBus?)
    && (forall i :: 0 <= i < |lines| ==> !MayEnd(lines[..i]))
    && (forall i :: 0 <= i < |lines| ==> WholeLine(lines[i].text))
  }

  /** A line that fits the buffer and ends with its first CR LF. */
  predicate WholeLine(text: bytes) { LineEnd(text, |text|) && |text| <= AUTH_BUFFER_SIZE }

  /** No line can be read from here: none ends within the buffer. */
  ghost predicate NoLine(s: bytes) { forall n: nat :: n <= AUTH_BUFFER_SIZE ==> !EndsAt(s, n) }

  /** Whose line is read next, when `first` says whose is preferred. */
  predicate ClientNext(lines: seq<Line>, first: bool) { first && !BeginSeen(lines) }

  /** Each line is from the side whose turn it was. */
  predicate OnSchedule(lines: seq<Line>, schedule: seq<bool>) {
    |lines| <= |schedule| && forall i :: 0 <= i < |lines| ==> lines[i].FromClient? == ClientNext(lines[..i], schedule[i])
  }

  /** What is left of a stream behind the lines that were read from it. */
  function Left(stream: bytes, lines: seq<Line>, client: bool): bytes
    requires LineTexts(lines, client) <= stream
  {
    stream[|LineTexts(lines, client)|..]
  }

  lemma OnScheduleMore(lines: seq<Line>, schedule: seq<bool>, last: Line)
    requires OnSchedule(lines, schedule) && |lines| < |schedule|
    requires last.FromClient? == ClientNext(lines, schedule[|lines|])
    ensures OnSchedule(lines + [last], schedule)
  {
    hide ClientNext;
    var more := lines + [last];
    forall i | 0 <= i < |more| ensures more[i].FromClient? == ClientNext(more[..i], schedule[i]) {
      assert more[..i] == lines[..i];
      assert i == |lines| ==> lines[..i] == lines;
    }
  }

  lemma OrderlyMore(lines: seq<Line>, last: Line)
    requires Orderly(lines) && !MayEnd(lines) && WholeLine(last.text)
    requires last.FromClient? ==> !BeginSeen(lines)
    ensures Orderly(lines + [last])
  {
    hide IsBegin, WholeLine, Pending;
    var more := lines + [last];
    forall i | 0 <= i < |more| ensures !MayEnd(more[..i]) {
      assert more[..i] == lines[..i];
      assert i == |lines| ==> lines[..i] == lines;
    }
    forall i, j | 0 <= i < j < |more| && IsBegin(more[i]) ensures more[j].FromBus? {
      assert more[i] == lines[i];
    }
  }

  lemma LineAlone(s: bytes, n: nat)
    requires LineEnd(s, n)
    ensures LineEnd(s[..n], n)
  {
    assert forall k :: 0 <= k <= n ==> (EndsAt(s[..n], k) <==> EndsAt(s, k));
  }

  lemma ClientTurn(lines: seq<Line>, before: bytes, text: bytes, rest: bytes)
    requires Orderly(lines) && !BeginSeen(lines) && LineEnd(before, |text|) && |text| <= AUTH_BUFFER_SIZE && before == text + rest
    ensures var more := lines + [FromClient(text)];
      Orderly(more) && Pending(more) == Pending(lines) + (if NEGOTIATE <= text then 1 else 0)
      && BeginSeen(more) == (BEGIN <= text)
      && LineTexts(more, true) == LineTexts(lines, true) + text && LineTexts(more, false) == LineTexts(lines, false)
      && LineTexts(lines, true) + before == LineTexts(more, true) + rest
  {
    hide Orderly, LineEnd, Pending, BeginSeen, LineTexts, IsBegin, Negotiates, Answers;
    assert before[..|text|] == text;
    LineAlone(before, |text|);
    OrderlyMore(lines, FromClient(text));
    OneMoreLine(lines, FromClient(text));
    ClientLine(text);
  }

  lemma BusTurn(lines: seq<Line>, before: bytes, text: bytes, rest: bytes)
    requires Orderly(lines) && !MayEnd(lines) && LineEnd(before, |text|) && |text| <= AUTH_BUFFER_SIZE && before == text + rest
    ensures var more := lines + [FromBus(text)];
      Orderly(more)
      && Pending(more) == Pending(lines) - (if (AGREE <= text || ERROR <= text) && Pending(lines) > 0 then 1 else 0)
      && BeginSeen(more) == BeginSeen(lines)
      && LineTexts(more, false) == LineTexts(lines, false) + text && LineTexts(more, true) == LineTexts(lines, true)
      && LineTexts(lines, false) + before == LineTexts(more, false) + rest
  {
    hide Orderly, LineEnd, Pending, BeginSeen, LineTexts, IsBegin, Negotiates, Answers;
    assert before[..|text|] == text;
    LineAlone(before, |text|);
    OrderlyMore(lines, FromBus(text));
    OneMoreLine(lines, FromBus(text));
    BusLine(text);
  }

  /** A whole stream is the texts that were read and what is left. */
  lemma LeftOver(stream: bytes, lines: seq<Line>, client: bool, rest: bytes)
    requires stream == LineTexts(lines, client) + rest
    ensures LineTexts(lines, client) <= stream && Left(stream, lines, client) == rest
  {
  }

  /** Lines are forwarded as they come; `schedule` says at each turn which
      side is ready. Once BEGIN was seen only the bus is read. Every turn
      reads a line until the phase may end, or until the side whose turn it
      is has no line to read: then, and only then, the phase fails. */
  method ForwardLines(client: LineStream, bus: LineStream, schedule: seq<bool>)
    returns (r: AuthResult, ghost lines: seq<Line>)
    requires client != bus
    modifies client, bus
    ensures (r.Done? <==> MayEnd(lines)) && (r.Failed? <==> !MayEnd(lines) && |lines| < |schedule|)
    ensures Orderly(lines) && OnSchedule(lines, schedule)
    ensures LineTexts(lines, true) <= old(client.rest) && LineTexts(lines, false) <= old(bus.rest)
    ensures r.Failed? ==>
      NoLine(if ClientNext(lines, schedule[|lines|]) then Left(old(client.rest), lines, true) else Left(old(bus.rest), lines, false))
    ensures !r.Failed? ==> client.rest == Left(old(client.rest), lines, true) && bus.rest == Left(old(bus.rest), lines, false)
    ensures bus.written == old(bus.written) + LineTexts(lines, true)
    ensures client.written == old(client.written) + LineTexts(lines, false)
  {
    hide Orderly, LineEnd, Pending, BeginSeen, LineTexts, IsBegin, Negotiates, Answers, OnSchedule, Left, NoLine;
    var pendingResponses := 0;
    var beginReceived := false;
    lines := [];
    NothingYet(schedule);
    LeftOver(client.rest, lines, true, client.rest);
    LeftOver(bus.rest, lines, false, bus.rest);
    for turn := 0 to |schedule|
      invariant pendingResponses == Pending(lines) && beginReceived == BeginSeen(lines) && Orderly(lines)
      invariant |lines| == turn && OnSchedule(lines, schedule)
      invariant old(client.rest) == LineTexts(lines, true) + client.rest && old(bus.rest) == LineTexts(lines, false) + bus.rest
      invariant bus.written == old(bus.written) + LineTexts(lines, true)
      invariant client.written == old(client.written) + LineTexts(lines, false)
    {
      LeftOver(old(client.rest), lines, true, client.rest);
      LeftOver(old(bus.rest), lines, false, bus.rest);
      if beginReceived && pendingResponses == 0 {
        return Done, lines;
      }
      if schedule[turn] && !beginReceived {
        ghost var before := client.rest;
        var result := client.ReadAuthLine();
        if !result.GotLine? {
          NothingToRead(before, result);
          return Failed, lines;
        }
        assert before == result.line + client.rest;
        ClientTurn(lines, before, result.line, client.rest);
        OnScheduleMore(lines, schedule, FromClient(result.line));
        if NEGOTIATE <= result.line {
          pendingResponses := pendingResponses + 1;
        }
        bus.written := bus.written + result.line;
        if BEGIN <= result.line {
          beginReceived := true;
        }
        lines := lines + [FromClient(result.line)];
      } else {
        ghost var before := bus.rest;
        var result := bus.ReadAuthLine();
        if !result.GotLine? {
          NothingToRead(before, result);
          return Failed, lines;
        }
        assert before == result.line + bus.rest;
        BusTurn(lines, before, result.line, bus.rest);
        OnScheduleMore(lines, schedule, FromBus(result.line));
        if (AGREE <= result.line || ERROR <= result.line) && pendingResponses > 0 {
          pendingResponses := pendingResponses - 1;
        }
        client.written := client.written + result.line;
        lines := lines + [FromBus(result.line)];
      }
    }
    LeftOver(old(client.rest), lines, true, client.rest);
    LeftOver(old(bus.rest), lines, false, bus.rest);
    return if beginReceived && pendingResponses == 0 then Done else Waiting, lines;
  }

  lemma NothingToRead(s: bytes, r: LineResult)
    requires r.Eof? ==> forall n: nat :: !EndsAt(s, n)
    requires r.TooLong? ==> forall n: nat :: n <= AUTH_BUFFER_SIZE ==> !EndsAt(s, n)
    ensures !r.GotLine? ==> NoLine(s)
  {
  }

  lemma NothingYet(schedule: seq<bool>)
    ensures Pending([]) == 0 && !BeginSeen([]) && Orderly([]) && OnSchedule([], schedule)
    ensures LineTexts([], true) == [] && LineTexts([], false) == []
  {
  }

  lemma ClientLine(text: bytes)
    ensures Negotiates(FromClient(text)) == (NEGOTIATE <= text) && !Answers(FromClient(text))
    ensures IsBegin(FromClient(text)) == (BEGIN <= text)
  {
  }

  lemma BusLine(text: bytes)
    ensures Answers(FromBus(text)) == (AGREE <= text || ERROR <= text)
    ensures !Negotiates(FromBus(text)) && !IsBegin(FromBus(text))
  {
  }

  /** The whole phase: the credentials byte first, then lines. */
  method AuthPassthrough(client: LineStream, bus: LineStream, schedule: seq<bool>)
    returns (r: AuthResult, ghost lines: seq<Line>)
    requires client != bus
    modifies client, bus
    ensures Orderly(lines) && OnSchedule(lines, schedule) && (r.Done? <==> MayEnd(lines))
    ensures client.written == old(client.written) + LineTexts(lines, false)
    ensures !([0] <= old(client.rest)) ==> r.Failed? && lines == [] && bus.rest == old(bus.rest) && bus.written == old(bus.written)
    ensures [0] <= old(client.rest) ==>
      (r.Failed? <==> !MayEnd(lines) && |lines| < |schedule|)
      && LineTexts(lines, true) <= old(client.rest)[1..] && LineTexts(lines, false) <= old(bus.rest)
      && bus.written == old(bus.written) + [0] + LineTexts(lines, true)
    ensures [0] <= old(client.rest) && r.Failed? ==>
      NoLine(if ClientNext(lines, schedule[|lines|]) then Left(old(client.rest)[1..], lines, true)
             else Left(old(bus.rest), lines, false))
    ensures [0] <= old(client.rest) && !r.Failed? ==>
      client.rest == Left(old(client.rest)[1..], lines, true) && bus.rest == Left(old(bus.rest), lines, false)
  {
    hide Orderly, Pending, BeginSeen, LineTexts, OnSchedule, Left, NoLine, ClientNext;
    NothingYet(schedule);
    if |client.rest| == 0 || client.rest[0] != 0 {
      if |client.rest| > 0 {
        client.rest := client.rest[1..];
      }
      return Failed, [];
    }
    assert [0] <= client.rest;
    client.rest := client.rest[1..];
    bus.written := bus.written + [0];
    r, lines := ForwardLines(client, bus, schedule);
  }
}

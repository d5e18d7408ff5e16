/** Framed reading and writing of messages with descriptors (src/dbus/socket.rs, src/dbus/message.rs). */
module Socket {
  import opened Wire
  import opened Message

  const MAX_FDS_PER_MESSAGE := 64
  const COMPACT_LIMIT := 64 * 1024

  /** What one receive delivers, or what one send puts on the wire. */
  datatype Chunk = Chunk(data: bytes, fds: seq<Fd>)

  function Bytes(cs: seq<Chunk>): bytes {
    if |cs| == 0 then [] else cs[0].data + Bytes(cs[1..])
  }

  function Fds(cs: seq<Chunk>): seq<Fd> {
    if |cs| == 0 then [] else cs[0].fds + Fds(cs[1..])
  }

  lemma {:induction false} ChunksAppend(a: seq<Chunk>, b: seq<Chunk>)
    ensures Bytes(a + b) == Bytes(a) + Bytes(b) && Fds(a + b) == Fds(a) + Fds(b)
  {
    if |a| == 0 {
      assert a + b == b;
    } else {
      assert (a + b)[1..] == a[1..] + b;
      ChunksAppend(a[1..], b);
    }
  }

  lemma ChunksSplit(cs: seq<Chunk>, k: nat)
    requires k <= |cs|
    ensures Bytes(cs) == Bytes(cs[..k]) + Bytes(cs[k..]) && Fds(cs) == Fds(cs[..k]) + Fds(cs[k..])
  {
    assert cs == cs[..k] + cs[k..];
    ChunksAppend(cs[..k], cs[k..]);
  }

  lemma ChunksStep(cs: seq<Chunk>, k: nat)
    requires k < |cs|
    ensures Bytes(cs[..k + 1]) == Bytes(cs[..k]) + cs[k].data && Fds(cs[..k + 1]) == Fds(cs[..k]) + cs[k].fds
  {
    assert cs[..k + 1] == cs[..k] + [cs[k]];
    ChunksAppend(cs[..k], [cs[k]]);
    assert Bytes([cs[k]]) == cs[k].data && Fds([cs[k]]) == cs[k].fds;
  }

  // ----- reading -----

  datatype FillResult = Filled | EndOfStream | Abandoned | Overflowed

  /** After `k` receives of `cs` fewer than `n` bytes were there, and the next
      receive did not bring too many descriptors. */
  predicate Short(u: bytes, q: seq<Fd>, cs: seq<Chunk>, n: nat, k: nat) {
    k < |cs| && |u + Bytes(cs[..k])| < n && |q + Fds(cs[..k + 1])| <= MAX_FDS_PER_MESSAGE
  }

  /** The same, but the next receive does bring too many. */
  predicate TooMany(u: bytes, q: seq<Fd>, cs: seq<Chunk>, n: nat, k: nat) {
    k < |cs| && |u + Bytes(cs[..k])| < n && |q + Fds(cs[..k + 1])| > MAX_FDS_PER_MESSAGE
  }

  datatype ReadResult = Received(msg: Message) | Ended | Refused | Cancelled | IoFailed

  /** What the first message on a stream of bytes is. */
  datatype Frame = NoMore | Bad | Truncated | Complete(total: nat)

  function FirstFrame(s: bytes): (r: Frame)
    ensures r.Complete? ==> 16 <= r.total <= |s| && ParsePrologue(s).Ok? && r.total == ParsePrologue(s).value.TotalLen()
  {
    if |s| < MIN_HEADER_SIZE then NoMore
    else if !ParsePrologue(s).Ok? then Bad
    else if |s| < ParsePrologue(s).value.TotalLen() then Truncated
    else Complete(ParsePrologue(s).value.TotalLen())
  }

  function Declared(h: Header): nat { if h.fields.unixFds.None? then 0 else h.fields.unixFds.value }

  /** The prologue depends only on the first sixteen bytes. */
  lemma ProloguePrefix(s: bytes, n: nat)
    requires 16 <= n <= |s|
    ensures ParsePrologue(s[..n]) == ParsePrologue(s)
  {
  }

  /** The header of a whole message depends only on its own bytes. */
  lemma FrameIsRead(s: bytes, total: nat)
    requires FirstFrame(s) == Complete(total)
    ensures Whole(s[..total]) && ParsePrologue(s[..total]) == ParsePrologue(s)
  {
    hide ParsePrologue;
    ProloguePrefix(s, total);
  }

  /** Why a stream yields no message although `arrived` bytes of it and this
      queue of descriptors have been received. */
  predicate Refusable(s: bytes, arrived: nat, queue: seq<Fd>) {
    match FirstFrame(s)
    case NoMore => false
    case Bad => MIN_HEADER_SIZE <= arrived
    case Truncated => arrived == |s|
    case Complete(total) =>
      FrameIsRead(s, total);
      total <= arrived
      && (Declared(HeaderOf(s[..total])) > MAX_FDS_PER_MESSAGE || Declared(HeaderOf(s[..total])) > |queue|)
  }

  /** After `k` receives of `cs` no whole message was there, so another receive
      was due; and it did not bring too many descriptors. */
  predicate Quiet(u: bytes, q: seq<Fd>, cs: seq<Chunk>, k: nat) {
    k < |cs| && !FirstFrame(u + Bytes(cs[..k])).Complete? && |q + Fds(cs[..k + 1])| <= MAX_FDS_PER_MESSAGE
  }

  /** The same, but it did: the only way to fail. */
  predicate Overflowing(u: bytes, q: seq<Fd>, cs: seq<Chunk>, k: nat) {
    k < |cs| && !FirstFrame(u + Bytes(cs[..k])).Complete? && |q + Fds(cs[..k + 1])| > MAX_FDS_PER_MESSAGE
  }

  /** None of these receives was one too many. */
  predicate AllQuiet(u: bytes, q: seq<Fd>, cs: seq<Chunk>, receives: nat) {
    receives <= |cs| && forall k :: 0 <= k < receives ==> Quiet(u, q, cs, k)
  }

  lemma ChunksTake(cs: seq<Chunk>, j: nat, k: nat)
    requires j + k <= |cs|
    ensures cs[j..][k..] == cs[j + k..]
    ensures Bytes(cs[..j + k]) == Bytes(cs[..j]) + Bytes(cs[j..][..k]) && Fds(cs[..j + k]) == Fds(cs[..j]) + Fds(cs[j..][..k])
  {
    ChunksAppend(cs[..j], cs[j..][..k]);
    assert cs[..j + k] == cs[..j] + cs[j..][..k];
  }

  class DbusReader {
    /** Bytes received but not yet consumed start at `start`. */
    var buf: bytes
    var start: nat
    /** Descriptors received but not yet bound to a message. */
    var fdq: seq<Fd>
    /** What the socket will deliver; after the last chunk comes the end of the stream. */
    var incoming: seq<Chunk>

    predicate Valid()
      reads this
    {
      start <= |buf| && forall i :: 0 <= i < |incoming| ==> |incoming[i].data| > 0
    }

    function Unread(): bytes
      requires Valid()
      reads this
    {
      buf[start..]
    }

    /** Every byte still to be returned, received or not. */
    function Stream(): bytes
      requires Valid()
      reads this
    {
      Unread() + Bytes(incoming)
    }

    function FdStream(): seq<Fd>
      reads this
    {
      fdq + Fds(incoming)
    }

    constructor (incoming: seq<Chunk>)
      requires forall i :: 0 <= i < |incoming| ==> |incoming[i].data| > 0
      ensures Valid() && Stream() == Bytes(incoming) && FdStream() == Fds(incoming)
      ensures Unread() == [] && fdq == [] && this.incoming == incoming
    {
      buf, start, fdq, this.incoming := [], 0, [], incoming;
    }

    /** `receives` chunks were moved from the socket into the buffers. */
    twostate predicate Moved(receives: nat)
      requires old(Valid()) && Valid()
      reads this
    {
      receives <= old(|incoming|) && incoming == old(incoming)[receives..]
      && Unread() == old(Unread()) + Bytes(old(incoming)[..receives])
      && fdq == old(fdq) + Fds(old(incoming)[..receives])
    }

    /** One receive: bytes behind the buffer, descriptors behind the queue.
        Too many descriptors fail it and what it brought is dropped. */
    method RecvSome() returns (r: Outcome<nat>)
      requires Valid()
      modifies this`buf, this`fdq, this`incoming
      ensures Valid() && !r.Panic?
      ensures |old(incoming)| == 0 ==> r == Ok(0) && Moved(0)
      ensures r.Ok? && |old(incoming)| > 0 ==> r.value > 0 && Moved(1)
      ensures r.Err? <==> |old(incoming)| > 0 && |old(fdq)| + |old(incoming)[0].fds| > MAX_FDS_PER_MESSAGE
    {
      if |incoming| == 0 {
        return Ok(0);
      }
      var chunk := incoming[0];
      ChunksStep(incoming, 0);
      incoming := incoming[1..];
      if |fdq| + |chunk.fds| > MAX_FDS_PER_MESSAGE {
        return Err;
      }
      fdq := fdq + chunk.fds;
      buf := buf + chunk.data;
      return Ok(|chunk.data|);
    }

    /** Receives until `n` bytes are buffered, and no longer. The caller may
        drop the call while it waits: `patience` is how many receives complete
        before that. Whatever was received stays in the reader. */
    method Fill(n: nat, patience: nat) returns (r: FillResult, left: nat, ghost receives: nat)
      requires Valid()
      modifies this`buf, this`fdq, this`incoming
      ensures Valid() && left + receives == patience && receives <= |old(incoming)|
      ensures forall k :: 0 <= k < receives ==> Short(old(Unread()), old(fdq), old(incoming), n, k)
      ensures r.Overflowed? ==> left > 0 && TooMany(old(Unread()), old(fdq), old(incoming), n, receives)
      ensures !r.Overflowed? ==> Moved(receives)
      ensures r.Abandoned? ==> left == 0 && |Unread()| < n
      ensures r.Filled? ==> |Unread()| >= n
      ensures r.EndOfStream? ==> |incoming| == 0 && |Unread()| < n
    {
      hide Bytes, Fds;
      left, receives := patience, 0;
      ghost var u, q, cs := Unread(), fdq, incoming;
      NothingMoved(cs);
      while |buf| - start < n
        invariant Valid() && Moved(receives) && left + receives == patience
        invariant forall k :: 0 <= k < receives ==> Short(u, q, cs, n, k)
        decreases |incoming|, left
      {
        if left == 0 {
          return Abandoned, left, receives;
        }
        ghost var before := incoming;
        var got := RecvSome();
        if got.Ok? && got.value > 0 {
          assert cs[receives] == before[0];
          ChunksStep(cs, receives);
          ChunksStep(before, 0);
          NothingMoved(before);
          left, receives := left - 1, receives + 1;
        } else if got.Err? {
          ChunksStep(cs, receives);
          return Overflowed, left, receives;
        } else {
          return EndOfStream, left, receives;
        }
      }
      r := Filled;
    }

    /** The first `n` unread bytes. */
    function Head(n: nat): bytes
      requires Valid() && n <= |Unread()|
      reads this
    {
      buf[start..start + n]
    }

    /** Consumed bytes are cleared or compacted away; the others stay. */
    method Consume(n: nat)
      requires Valid() && n <= |Unread()|
      modifies this`buf, this`start
      ensures Valid() && Unread() == old(Unread())[n..]
    {
      start := start + n;
      if start == |buf| {
        buf, start := [], 0;
      } else if start > COMPACT_LIMIT {
        buf, start := buf[start..], 0;
      }
    }

    /** Exactly `n` descriptors from the front of the queue. */
    method TakeFds(n: nat) returns (r: Outcome<seq<Fd>>)
      requires Valid()
      modifies this`fdq
      ensures Valid() && !r.Panic? && (r.Ok? <==> n <= |old(fdq)|)
      ensures if r.Ok? then r.value == old(fdq)[..n] && fdq == old(fdq)[n..] else fdq == old(fdq)
    {
      if |fdq| < n {
        return Err;
      }
      var taken := fdq[..n];
      fdq := fdq[n..];
      return Ok(taken);
    }

    method TakeDeclaredFds(declared: nat) returns (r: Outcome<seq<Fd>>)
      requires Valid()
      modifies this`fdq
      ensures Valid() && !r.Panic? && (r.Ok? <==> declared <= MAX_FDS_PER_MESSAGE && declared <= |old(fdq)|)
      ensures if r.Ok? then r.value == old(fdq)[..declared] && fdq == old(fdq)[declared..] else fdq == old(fdq)
    {
      if declared > MAX_FDS_PER_MESSAGE {
        return Err;
      }
      if declared == 0 {
        return Ok([]);
      }
      r := TakeFds(declared);
    }

    /** A message and its descriptors left the front of what had been received. */
    twostate predicate Advanced(receives: nat, msg: Message)
      requires old(Valid()) && Valid()
      reads this
    {
      receives <= old(|incoming|) && incoming == old(incoming)[receives..]
      && var bytes, queue := old(Unread()) + Bytes(old(incoming)[..receives]), old(fdq) + Fds(old(incoming)[..receives]);
        bytes == msg.raw + Unread() && queue == msg.fds + fdq
        && FirstFrame(old(Stream())) == Complete(|msg.raw|) && |msg.fds| == Declared(msg.header)
    }

    /** What has been received after `Moved` is the front of the old stream. */
    twostate lemma MovedStream(receives: nat)
      requires old(Valid()) && Valid() && Moved(receives)
      ensures Stream() == old(Stream()) && FdStream() == old(FdStream())
    {
      ChunksSplit(old(incoming), receives);
    }

    /** Takes the message in front of the buffer, once all of it is there,
        and the descriptors it declares. */
    method TakeMessage(prologue: Prologue) returns (r: Outcome<Message>)
      requires Valid() && |Unread()| >= prologue.TotalLen() && ParsePrologue(Unread()) == Ok(prologue)
      modifies this`buf, this`start, this`fdq
      ensures Valid() && !r.Panic?
      ensures r.Ok? ==> AsRead(r.value) && Declared(r.value.header) == |r.value.fds| <= MAX_FDS_PER_MESSAGE
      ensures r.Ok? ==> |r.value.raw| == prologue.TotalLen() && old(Unread()) == r.value.raw + Unread()
      ensures r.Ok? ==> old(fdq) == r.value.fds + fdq
      ensures r.Err? ==> Refusable(old(Unread()), |old(Unread())|, old(fdq))
    {
      hide ParsePrologue, HeaderFieldsOf, Whole, HeaderOf, Refusable, FirstFrame;
      ghost var unread, queue := Unread(), fdq;
      var total := prologue.TotalLen();
      var raw := Head(total);
      assert raw == unread[..total];
      TakenHeader(unread, prologue);
      Consume(total);
      var fields := ParseHeaderFields(raw[MIN_HEADER_SIZE..prologue.HeaderEnd()], prologue.endian);
      var header := IntoHeader(prologue, fields);
      var fds := TakeDeclaredFds(Declared(header));
      MissingFds(unread, total, queue);
      return if fds.Ok? then Ok(Message(header, raw, fds.value)) else Err;
    }

    /** One whole message with its descriptors. Dropping the call while it
        waits loses nothing. */
    method ReadMessageFrom(patience: nat) returns (r: ReadResult, ghost receives: nat)
      requires Valid()
      modifies this
      ensures Valid()
      ensures AllQuiet(old(Unread()), old(fdq), old(incoming), receives)
      ensures r.IoFailed? ==> receives < patience && Overflowing(old(Unread()), old(fdq), old(incoming), receives)
      ensures r.Cancelled? ==> Moved(receives) && receives == patience && !FirstFrame(Unread()).Complete?
      ensures r.Ended? ==> Moved(receives) && |incoming| == 0 && FirstFrame(old(Stream())).NoMore?
      ensures r.Received? ==> AsRead(r.msg) && Declared(r.msg.header) <= MAX_FDS_PER_MESSAGE && Advanced(receives, r.msg)
      ensures r.Refused? ==> Refusable(old(Stream()), |old(Unread()) + Bytes(old(incoming)[..receives])|,
                                       old(fdq) + Fds(old(incoming)[..receives]))
    {
      hide ParsePrologue, Bytes, Fds, AsRead, AllQuiet, Overflowing, FirstFrame, Refusable, Short, TooMany;
      var filled, left;
      ghost var u, q, cs := Unread(), fdq, incoming;
      filled, left, receives := Fill(MIN_HEADER_SIZE, patience);
      HeaderQuiet(u, q, cs, receives);
      if filled != Filled {
        if filled.EndOfStream? {
          MovedStream(receives);
          EndsHere();
          TooShort(Unread());
        } else if filled.Abandoned? {
          TooShort(Unread());
        }
        return (if filled.Overflowed? then IoFailed else if filled.Abandoned? then Cancelled else Ended), receives;
      }
      MovedStream(receives);
      ghost var head := Head(MIN_HEADER_SIZE);
      SamePrologue(Stream(), Head(MIN_HEADER_SIZE));
      var prologue := ParsePrologue(Head(MIN_HEADER_SIZE));
      if !prologue.Ok? {
        BadFrame(Stream(), |Unread()|, fdq);
        return Refused, receives;
      }
      ghost var u1, q1, cs1, more := Unread(), fdq, incoming, 0;
      filled, left, more := Fill(prologue.value.TotalLen(), left);
      MessageQuiet(u, q, cs, receives, u1, q1, cs1, more, head, prologue.value);
      receives := receives + more;
      if filled.Overflowed? {
        return IoFailed, receives;
      }
      assert Moved(receives);
      MovedStream(receives);
      assert head <= Unread();
      if filled != Filled {
        NotYetWhole(Unread(), head, prologue.value);
        if filled.EndOfStream? {
          EndsHere();
          BrokenFrame(Stream(), head, prologue.value, fdq);
        }
        return (if filled.Abandoned? then Cancelled else Refused), receives;
      }
      SamePrologue(Unread(), head);
      WholeFrame(Unread(), prologue.value);
      RefusedEarly(Unread(), Stream(), |Unread()|, fdq);
      var msg := TakeMessage(prologue.value);
      return if msg.Ok? then Received(msg.value) else Refused, receives;
    }

    /** At the end of the stream everything left is in the buffer. */
    lemma EndsHere()
      requires Valid() && |incoming| == 0
      ensures Stream() == Unread()
    {
    }
  }

  lemma HeaderOfRaw(raw: bytes, p: Prologue)
    requires Whole(raw) && ParsePrologue(raw) == Ok(p)
    ensures p.HeaderEnd() <= |raw| && HeaderOf(raw) == IntoHeader(p, HeaderFieldsOf(p.endian, raw[MIN_HEADER_SIZE..p.HeaderEnd()]))
  {
  }

  lemma SamePrologue(s: bytes, prefix: bytes)
    requires |prefix| >= MIN_HEADER_SIZE && prefix <= s
    ensures ParsePrologue(s) == ParsePrologue(prefix)
  {
    hide ParsePrologue;
    assert prefix == s[..|prefix|];
    ProloguePrefix(s, |prefix|);
  }

  lemma NotYetWhole(unread: bytes, head: bytes, p: Prologue)
    requires |head| == MIN_HEADER_SIZE && head <= unread && ParsePrologue(head) == Ok(p)
    ensures |unread| < p.TotalLen() ==> !FirstFrame(unread).Complete?
  {
    hide ParsePrologue;
    SamePrologue(unread, head);
  }

  /** A complete first message is judged the same whatever comes behind it. */
  lemma RefusedEarly(prefix: bytes, s: bytes, arrived: nat, queue: seq<Fd>)
    requires prefix <= s && FirstFrame(prefix).Complete?
    ensures FirstFrame(s) == FirstFrame(prefix) && (Refusable(prefix, arrived, queue) <==> Refusable(s, arrived, queue))
  {
    hide ParsePrologue, HeaderFieldsOf;
    SamePrologue(s, prefix);
    var total := FirstFrame(prefix).total;
    assert prefix[..total] == s[..total];
  }

  lemma NothingMoved(cs: seq<Chunk>)
    ensures Bytes(cs[..0]) == [] && Fds(cs[..0]) == [] && cs[0..] == cs
  {
  }

  lemma TakenHeader(s: bytes, p: Prologue)
    requires |s| >= MIN_HEADER_SIZE && ParsePrologue(s) == Ok(p) && p.TotalLen() <= |s|
    ensures FirstFrame(s) == Complete(p.TotalLen()) && Whole(s[..p.TotalLen()]) && p.HeaderEnd() <= p.TotalLen()
    ensures HeaderOf(s[..p.TotalLen()]) == IntoHeader(p, HeaderFieldsOf(p.endian, s[..p.TotalLen()][MIN_HEADER_SIZE..p.HeaderEnd()]))
  {
    hide ParsePrologue, HeaderFieldsOf;
    FrameIsRead(s, p.TotalLen());
  }

  lemma MissingFds(s: bytes, total: nat, queue: seq<Fd>)
    requires FirstFrame(s) == Complete(total) && Whole(s[..total])
    ensures var declared := Declared(HeaderOf(s[..total]));
      declared > MAX_FDS_PER_MESSAGE || declared > |queue| ==> Refusable(s, |s|, queue)
  {
    hide ParsePrologue, HeaderOf;
  }

  lemma TooShort(s: bytes)
    requires |s| < MIN_HEADER_SIZE
    ensures FirstFrame(s).NoMore?
  {
  }

  lemma WholeFrame(s: bytes, p: Prologue)
    requires |s| >= MIN_HEADER_SIZE && ParsePrologue(s) == Ok(p) && p.TotalLen() <= |s|
    ensures FirstFrame(s) == Complete(p.TotalLen())
  {
  }

  lemma BadFrame(s: bytes, arrived: nat, queue: seq<Fd>)
    requires |s| >= MIN_HEADER_SIZE && !ParsePrologue(s).Ok? && MIN_HEADER_SIZE <= arrived
    ensures Refusable(s, arrived, queue)
  {
  }

  lemma BrokenFrame(s: bytes, head: bytes, p: Prologue, queue: seq<Fd>)
    requires |head| == MIN_HEADER_SIZE && head <= s && ParsePrologue(head) == Ok(p) && |s| < p.TotalLen()
    ensures Refusable(s, |s|, queue)
  {
    hide ParsePrologue;
    SamePrologue(s, head);
  }

  /** The receives for the prologue were all due. */
  lemma HeaderQuiet(u: bytes, q: seq<Fd>, cs: seq<Chunk>, receives: nat)
    requires receives <= |cs| && forall k :: 0 <= k < receives ==> Short(u, q, cs, MIN_HEADER_SIZE, k)
    ensures AllQuiet(u, q, cs, receives)
    ensures TooMany(u, q, cs, MIN_HEADER_SIZE, receives) ==> Overflowing(u, q, cs, receives)
  {
    hide Bytes, Fds, ParsePrologue;
    forall k | 0 <= k < receives ensures Quiet(u, q, cs, k) {
      assert Short(u, q, cs, MIN_HEADER_SIZE, k);
    }
  }

  /** So were those for the rest of the message. */
  lemma MessageQuiet(u: bytes, q: seq<Fd>, cs: seq<Chunk>, j: nat, u1: bytes, q1: seq<Fd>, cs1: seq<Chunk>, more: nat,
                     head: bytes, p: Prologue)
    requires AllQuiet(u, q, cs, j) && u1 == u + Bytes(cs[..j]) && q1 == q + Fds(cs[..j]) && cs1 == cs[j..]
    requires |head| == MIN_HEADER_SIZE && head <= u1 && ParsePrologue(head) == Ok(p)
    requires more <= |cs1| && forall k :: 0 <= k < more ==> Short(u1, q1, cs1, p.TotalLen(), k)
    ensures AllQuiet(u, q, cs, j + more)
    ensures TooMany(u1, q1, cs1, p.TotalLen(), more) ==> Overflowing(u, q, cs, j + more)
    ensures u1 + Bytes(cs1[..more]) == u + Bytes(cs[..j + more]) && q1 + Fds(cs1[..more]) == q + Fds(cs[..j + more])
    ensures cs1[more..] == cs[j + more..]
  {
    hide Bytes, Fds, ParsePrologue, FirstFrame;
    forall k | j <= k < j + more ensures Quiet(u, q, cs, k) {
      assert Short(u1, q1, cs1, p.TotalLen(), k - j);
      MessageDue(u, q, cs, j, u1, q1, cs1, k - j, head, p);
    }
    ChunksTake(cs, j, more);
    if TooMany(u1, q1, cs1, p.TotalLen(), more) {
      MessageDue(u, q, cs, j, u1, q1, cs1, more, head, p);
    }
  }

  lemma MessageDue(u: bytes, q: seq<Fd>, cs: seq<Chunk>, j: nat, u1: bytes, q1: seq<Fd>, cs1: seq<Chunk>, k: nat,
                   head: bytes, p: Prologue)
    requires j <= |cs| && u1 == u + Bytes(cs[..j]) && q1 == q + Fds(cs[..j]) && cs1 == cs[j..] && k < |cs1|
    requires |head| == MIN_HEADER_SIZE && head <= u1 && ParsePrologue(head) == Ok(p) && |u1 + Bytes(cs1[..k])| < p.TotalLen()
    ensures !FirstFrame(u + Bytes(cs[..j + k])).Complete? && q + Fds(cs[..j + k + 1]) == q1 + Fds(cs1[..k + 1])
  {
    hide Bytes, Fds, ParsePrologue, FirstFrame;
    ChunksTake(cs, j, k);
    ChunksTake(cs, j, k + 1);
    assert u + Bytes(cs[..j + k]) == u1 + Bytes(cs1[..k]);
    NotYetWhole(u1 + Bytes(cs1[..k]), head, p);
  }

  // ----- a stream of messages -----

  /** A message as its sender put it on the stream. */
  predicate Proper(p: Chunk) {
    Whole(p.data) && Declared(HeaderOf(p.data)) == |p.fds| <= MAX_FDS_PER_MESSAGE
  }

  /** Descriptors never arrive later than the last byte of their message:
      whatever more receives bring, once the bytes of the first `m` messages
      are there, so are their descriptors. */
  predicate InTime(unread: nat, queued: nat, incoming: seq<Chunk>, messages: seq<Chunk>) {
    forall k, m :: 0 <= k <= |incoming| && 0 <= m <= |messages| && unread + |Bytes(incoming[..k])| >= |Bytes(messages[..m])| ==>
      queued + |Fds(incoming[..k])| >= |Fds(messages[..m])|
  }

  /** Buffer, queue and socket together hold exactly these messages. */
  predicate Carrying(unread: bytes, queue: seq<Fd>, incoming: seq<Chunk>, messages: seq<Chunk>) {
    unread + Bytes(incoming) == Bytes(messages) && queue + Fds(incoming) == Fds(messages)
    && (forall i :: 0 <= i < |messages| ==> Proper(messages[i]))
    && InTime(|unread|, |queue|, incoming, messages)
  }

  lemma CarryingMoved(unread: bytes, queue: seq<Fd>, incoming: seq<Chunk>, messages: seq<Chunk>, j: nat)
    requires Carrying(unread, queue, incoming, messages) && j <= |incoming|
    ensures Carrying(unread + Bytes(incoming[..j]), queue + Fds(incoming[..j]), incoming[j..], messages)
  {
    hide Proper, Bytes, Fds;
    ChunksSplit(incoming, j);
    var u, q, rest := unread + Bytes(incoming[..j]), queue + Fds(incoming[..j]), incoming[j..];
    forall k, m | 0 <= k <= |rest| && 0 <= m <= |messages| && |u| + |Bytes(rest[..k])| >= |Bytes(messages[..m])|
      ensures |q| + |Fds(rest[..k])| >= |Fds(messages[..m])|
    {
      ChunksTake(incoming, j, k);
      assert |unread| + |Bytes(incoming[..j + k])| >= |Bytes(messages[..m])|;
    }
  }

  lemma MessagesCons(messages: seq<Chunk>, m: nat)
    requires 0 < |messages| && m <= |messages[1..]|
    ensures Bytes(messages[..m + 1]) == messages[0].data + Bytes(messages[1..][..m])
    ensures Fds(messages[..m + 1]) == messages[0].fds + Fds(messages[1..][..m])
  {
    assert messages[..m + 1][1..] == messages[1..][..m];
  }

  /** The first message is cut off the front, with its own descriptors. */
  lemma CarryingTaken(unread: bytes, queue: seq<Fd>, incoming: seq<Chunk>, messages: seq<Chunk>)
    requires Carrying(unread, queue, incoming, messages) && |messages| > 0 && |unread| >= |messages[0].data|
    ensures |queue| >= |messages[0].fds| && messages[0].data == unread[..|messages[0].data|]
      && messages[0].fds == queue[..|messages[0].fds|]
      && Carrying(unread[|messages[0].data|..], queue[|messages[0].fds|..], incoming, messages[1..])
  {
    hide Proper, Bytes, Fds;
    var first, rest := messages[0], messages[1..];
    var n, d := |first.data|, |first.fds|;
    MessagesCons(messages, 0);
    MessagesCons(messages, |rest|);
    assert messages[..|messages|] == messages && rest[..|rest|] == rest;
    NoChunks(rest, incoming);
    assert |unread| + |Bytes(incoming[..0])| >= |Bytes(messages[..1])|;
    FrontsAgree(unread, Bytes(incoming), first.data, Bytes(rest));
    FrontsAgree(queue, Fds(incoming), first.fds, Fds(rest));
    forall k, m | 0 <= k <= |incoming| && 0 <= m <= |rest| && |unread[n..]| + |Bytes(incoming[..k])| >= |Bytes(rest[..m])|
      ensures |queue[d..]| + |Fds(incoming[..k])| >= |Fds(rest[..m])|
    {
      MessagesCons(messages, m);
      assert |unread| + |Bytes(incoming[..k])| >= |Bytes(messages[..m + 1])|;
    }
  }

  lemma NoChunks(a: seq<Chunk>, b: seq<Chunk>)
    ensures Bytes(a[..0]) == [] && Fds(a[..0]) == [] && Bytes(b[..0]) == [] && Fds(b[..0]) == []
  {
  }

  lemma FrontsAgree<T>(u: seq<T>, v: seq<T>, a: seq<T>, b: seq<T>)
    requires u + v == a + b && |u| >= |a|
    ensures a == u[..|a|] && u[|a|..] + v == b
  {
    assert (u + v)[..|a|] == u[..|a|] && (u + v)[|a|..] == u[|a|..] + v;
    assert (a + b)[..|a|] == a && (a + b)[|a|..] == b;
  }

  /** The frame at the front of a stream of messages is the first message. */
  lemma FirstMessageFrame(s: bytes, messages: seq<Chunk>)
    requires s == Bytes(messages) && forall i :: 0 <= i < |messages| ==> Proper(messages[i])
    ensures FirstFrame(s) == if |messages| == 0 then NoMore else Complete(|messages[0].data|)
    ensures |messages| > 0 ==> s[..|messages[0].data|] == messages[0].data
  {
    hide ParsePrologue, HeaderOf;
    if |messages| > 0 {
      assert Proper(messages[0]);
      SamePrologue(s, messages[0].data);
    }
  }

  // ----- one reader, many calls -----

  ghost predicate Holding(reader: DbusReader, messages: seq<Chunk>)
    reads reader
  {
    reader.Valid() && Carrying(reader.Unread(), reader.fdq, reader.incoming, messages)
  }

  /** Why `r` cannot be `Refused` on a stream of proper messages. */
  lemma NeverRefused(s: bytes, messages: seq<Chunk>, unread: bytes, queue: seq<Fd>, rest: seq<Chunk>)
    requires s == Bytes(messages) && Carrying(unread, queue, rest, messages)
    ensures !Refusable(s, |unread|, queue)
  {
    hide ParsePrologue, HeaderOf, Bytes, Fds;
    FirstMessageFrame(s, messages);
    if |messages| > 0 && |messages[0].data| <= |unread| {
      CarryingTaken(unread, queue, rest, messages);
    }
  }

  /** What one call does to a reader that holds `messages`: the next message
      with its own descriptors leaves the front, or nothing does. Before the
      call the reader has `u`, `q` and `cs` in buffer, queue and socket,
      afterwards `u'`, `q'` and `cs'`. */
  lemma AfterRead(u: bytes, q: seq<Fd>, cs: seq<Chunk>, u': bytes, q': seq<Fd>, cs': seq<Chunk>,
                  messages: seq<Chunk>, r: ReadResult, receives: nat)
    requires Carrying(u, q, cs, messages) && receives <= |cs|
    requires !r.Refused? ==> cs' == cs[receives..]
    requires r.Cancelled? || r.Ended? ==> u' == u + Bytes(cs[..receives]) && q' == q + Fds(cs[..receives])
    requires r.Ended? ==> FirstFrame(u + Bytes(cs)).NoMore?
    requires r.Received? ==> AsRead(r.msg) && FirstFrame(u + Bytes(cs)) == Complete(|r.msg.raw|) && |r.msg.fds| == Declared(r.msg.header)
    requires r.Received? ==> u + Bytes(cs[..receives]) == r.msg.raw + u' && q + Fds(cs[..receives]) == r.msg.fds + q'
    requires r.Refused? ==> Refusable(u + Bytes(cs), |u + Bytes(cs[..receives])|, q + Fds(cs[..receives]))
    ensures !r.Refused?
    ensures r.Cancelled? || r.Ended? ==> Carrying(u', q', cs', messages)
    ensures r.Ended? ==> |messages| == 0
    ensures r.Received? ==> |messages| > 0 && Chunk(r.msg.raw, r.msg.fds) == messages[0] && Carrying(u', q', cs', messages[1..])
  {
    hide Proper, InTime, Bytes, Fds, ParsePrologue, HeaderOf, Refusable;
    var v, w := u + Bytes(cs[..receives]), q + Fds(cs[..receives]);
    CarryingMoved(u, q, cs, messages, receives);
    FirstMessageFrame(u + Bytes(cs), messages);
    if r.Refused? {
      NeverRefused(u + Bytes(cs), messages, v, w, cs[receives..]);
    }
    if r.Received? {
      CarryingTaken(v, w, cs[receives..], messages);
      assert r.msg.raw == v[..|r.msg.raw|] && u' == v[|r.msg.raw|..];
      SameDeclared(r.msg, messages[0]);
      assert r.msg.fds == w[..|r.msg.fds|] && q' == w[|r.msg.fds|..];
    }
  }

  lemma SameDeclared(msg: Message, p: Chunk)
    requires AsRead(msg) && msg.raw == p.data && Proper(p)
    ensures Declared(msg.header) == |p.fds|
  {
  }

  /** One call of the forwarding loop on a reader that holds `messages`. */
  method ReadNext(reader: DbusReader, patience: nat, ghost messages: seq<Chunk>)
    returns (r: ReadResult, ghost receives: nat)
    requires Holding(reader, messages)
    modifies reader
    ensures !r.Refused? && reader.Valid()
    ensures receives <= |old(reader.incoming)| && AllQuiet(old(reader.Unread()), old(reader.fdq), old(reader.incoming), receives)
    ensures if r.IoFailed? then receives < patience && Overflowing(old(reader.Unread()), old(reader.fdq), old(reader.incoming), receives)
            else reader.incoming == old(reader.incoming)[receives..]
    ensures r.Cancelled? ==> receives == patience && !FirstFrame(reader.Unread()).Complete?
    ensures r.Cancelled? || r.Ended? ==> Holding(reader, messages)
    ensures r.Ended? ==> |messages| == 0 && |reader.incoming| == 0
    ensures r.Received? ==> AsRead(r.msg) && |messages| > 0 && Chunk(r.msg.raw, r.msg.fds) == messages[0]
    ensures r.Received? ==> Holding(reader, messages[1..])
  {
    hide Carrying, AsRead, FirstFrame, Refusable, Quiet, Overflowing;
    ghost var u, q, cs := reader.Unread(), reader.fdq, reader.incoming;
    r, receives := reader.ReadMessageFrom(patience);
    if !r.IoFailed? {
      AfterRead(u, q, cs, reader.Unread(), reader.fdq, reader.incoming, messages, r, receives);
    }
  }

  // ----- when a stream of messages carries too many descriptors at once -----

  /** How many of the messages are complete in their first `n` bytes. */
  function Completed(messages: seq<Chunk>, n: nat): (o: nat)
    ensures o <= |messages|
  {
    if |messages| == 0 || n < |messages[0].data| then 0 else 1 + Completed(messages[1..], n - |messages[0].data|)
  }

  /** Receive `k` brings more descriptors than may wait: those of the messages
      that were complete before it are gone, the others are queued. */
  predicate OverAt(u: bytes, q: seq<Fd>, cs: seq<Chunk>, messages: seq<Chunk>, k: nat) {
    k < |cs| && |q + Fds(cs[..k + 1])| > |Fds(messages[..Completed(messages, |u + Bytes(cs[..k])|)])| + MAX_FDS_PER_MESSAGE
  }

  predicate Overfull(u: bytes, q: seq<Fd>, cs: seq<Chunk>, messages: seq<Chunk>) {
    exists k :: 0 <= k < |cs| && OverAt(u, q, cs, messages, k)
  }

  predicate NotOverBefore(u: bytes, q: seq<Fd>, cs: seq<Chunk>, messages: seq<Chunk>, k: nat) {
    k <= |cs| && forall j :: 0 <= j < k ==> !OverAt(u, q, cs, messages, j)
  }

  /** Receive `k` is the first that brings too many, and exactly the messages
      that were complete before it have been returned. */
  predicate FailsAt(u: bytes, q: seq<Fd>, cs: seq<Chunk>, messages: seq<Chunk>, k: nat, returned: nat) {
    OverAt(u, q, cs, messages, k) && NotOverBefore(u, q, cs, messages, k)
    && returned == Completed(messages, |u + Bytes(cs[..k])|)
  }

  lemma {:induction false} CompletedIs(messages: seq<Chunk>, o: nat, n: nat)
    requires o <= |messages| && |Bytes(messages[..o])| <= n
    requires o < |messages| ==> n < |Bytes(messages[..o])| + |messages[o].data|
    ensures Completed(messages, n) == o
    decreases o
  {
    if o == 0 {
      assert messages[..0] == [];
    } else {
      var first := messages[0];
      MessagesCons(messages, o - 1);
      CompletedIs(messages[1..], o - 1, n - |first.data|);
    }
  }

  /** A reader that started with `u` and `q` and would receive `cs`: it returned
      `o` messages in `c` receives and now has `u'` and `q'`. */
  predicate Along(u: bytes, q: seq<Fd>, cs: seq<Chunk>, messages: seq<Chunk>, o: nat, c: nat,
                  u': bytes, q': seq<Fd>, cs': seq<Chunk>) {
    u + Bytes(cs) == Bytes(messages) && q + Fds(cs) == Fds(messages) && o <= |messages| && c <= |cs| && cs' == cs[c..]
    && Carrying(u', q', cs', messages[o..])
  }

  /** While such a reader has nothing whole in its buffer, the messages that it
      returned are the complete ones, and the queue holds the other descriptors. */
  lemma ReturnedComplete(u: bytes, q: seq<Fd>, cs: seq<Chunk>, messages: seq<Chunk>, o: nat, c: nat,
                         u': bytes, q': seq<Fd>, cs': seq<Chunk>, k: nat)
    requires Along(u, q, cs, messages, o, c, u', q', cs') && k < |cs'| && !FirstFrame(u' + Bytes(cs'[..k])).Complete?
    ensures Completed(messages, |u + Bytes(cs[..c + k])|) == o
    ensures OverAt(u, q, cs, messages, c + k) <==> |q' + Fds(cs'[..k + 1])| > MAX_FDS_PER_MESSAGE
  {
    hide Bytes, Fds, Proper, InTime, FirstFrame, Completed;
    ChunksSplit(cs, c);
    ChunksSplit(messages, o);
    ChunksTake(cs, c, k);
    ChunksTake(cs, c, k + 1);
    var v := u' + Bytes(cs'[..k]);
    assert |u + Bytes(cs[..c + k])| == |Bytes(messages[..o])| + |v|;
    assert |q + Fds(cs[..c + k + 1])| == |Fds(messages[..o])| + |q' + Fds(cs'[..k + 1])|;
    if o < |messages| {
      ChunksSplit(cs', k);
      assert messages[o] == messages[o..][0];
      NotWholeYet(v, Bytes(cs'[k..]), messages[o..]);
    }
    CompletedIs(messages, o, |u + Bytes(cs[..c + k])|);
  }

  lemma QuietTells(u: bytes, q: seq<Fd>, cs: seq<Chunk>, messages: seq<Chunk>, o: nat, c: nat,
                   u': bytes, q': seq<Fd>, cs': seq<Chunk>, k: nat)
    requires Along(u, q, cs, messages, o, c, u', q', cs')
    ensures Quiet(u', q', cs', k) ==> !OverAt(u, q, cs, messages, c + k)
    ensures Overflowing(u', q', cs', k) ==>
      OverAt(u, q, cs, messages, c + k) && c + k < |cs| && Completed(messages, |u + Bytes(cs[..c + k])|) == o
  {
    hide Bytes, Fds, Carrying, FirstFrame, Completed, OverAt;
    if Quiet(u', q', cs', k) || Overflowing(u', q', cs', k) {
      ReturnedComplete(u, q, cs, messages, o, c, u', q', cs', k);
    }
  }

  /** Fewer bytes than the first message has do not make it up. */
  lemma NotWholeYet(v: bytes, rest: bytes, messages: seq<Chunk>)
    requires v + rest == Bytes(messages) && |messages| > 0 && Proper(messages[0]) && !FirstFrame(v).Complete?
    ensures |v| < |messages[0].data|
  {
    hide ParsePrologue, HeaderOf;
    var d := messages[0].data;
    if |d| <= |v| {
      assert d == (v + rest)[..|d|] == v[..|d|];
      SamePrologue(v, d);
    }
  }

  /** What a call on such a reader tells about the whole stream. */
  lemma CallTells(u: bytes, q: seq<Fd>, cs: seq<Chunk>, messages: seq<Chunk>, o: nat, c: nat,
                  u': bytes, q': seq<Fd>, cs': seq<Chunk>, receives: nat)
    requires Along(u, q, cs, messages, o, c, u', q', cs')
    requires AllQuiet(u', q', cs', receives) && NotOverBefore(u, q, cs, messages, c)
    ensures NotOverBefore(u, q, cs, messages, c + receives)
    ensures Overflowing(u', q', cs', receives) ==>
      FailsAt(u, q, cs, messages, c + receives, o) && Overfull(u, q, cs, messages)
  {
    hide Bytes, Fds, Carrying, FirstFrame, Completed, OverAt, Quiet, Overflowing;
    forall j | c <= j < c + receives ensures !OverAt(u, q, cs, messages, j) {
      assert Quiet(u', q', cs', j - c);
      QuietTells(u, q, cs, messages, o, c, u', q', cs', j - c);
    }
    QuietTells(u, q, cs, messages, o, c, u', q', cs', receives);
  }

  /** Every call waits for at least one receive. */
  predicate Waits(patience: seq<nat>) { forall i :: 0 <= i < |patience| ==> patience[i] > 0 }

  /** Every call waits for more receives than there are. */
  predicate NeverDropped(patience: seq<nat>, receives: nat) {
    forall i :: 0 <= i < |patience| ==> patience[i] > receives
  }

  /** These calls are enough for so many messages in so many receives. */
  predicate Enough(patience: seq<nat>, messages: nat, receives: nat) {
    (NeverDropped(patience, receives) && |patience| > messages) || (Waits(patience) && |patience| > messages + receives)
  }

  /** The forwarding loop's use of a reader: one call after another, each
      dropped after as many receives as `patience` says. Whatever the split
      of the stream and wherever calls are dropped, the messages come out in
      order, each with its own descriptors, and none is lost. Calls that are
      not dropped bring out everything, one message a call; so do dropped
      calls, as long as each waits for something and there are enough. Only a
      receive that brings more descriptors than may wait stops this. */
  method ReadRepeatedly(reader: DbusReader, patience: seq<nat>, ghost messages: seq<Chunk>)
    returns (out: seq<Message>, last: ReadResult)
    requires Holding(reader, messages)
    modifies reader
    ensures |out| <= |messages|
    ensures forall i :: 0 <= i < |out| ==> AsRead(out[i]) && Chunk(out[i].raw, out[i].fds) == messages[i]
    ensures !last.Refused? && (!last.IoFailed? ==> Holding(reader, messages[|out|..]))
    ensures last.IoFailed? ==> exists k :: FailsAt(old(reader.Unread()), old(reader.fdq), old(reader.incoming), messages, k, |out|)
    ensures last.Ended? ==>
      |out| == |messages| && !Overfull(old(reader.Unread()), old(reader.fdq), old(reader.incoming), messages)
    ensures NeverDropped(patience, |old(reader.incoming)|) && |patience| <= |messages| && !last.IoFailed? ==>
      |out| == |patience|
    ensures Enough(patience, |messages|, |old(reader.incoming)|) ==>
      if Overfull(old(reader.Unread()), old(reader.fdq), old(reader.incoming), messages) then last.IoFailed? else last.Ended?
  {
    hide Holding, AsRead, Fds, Bytes, AllQuiet, Overflowing, FailsAt, OverAt, NotOverBefore, Overfull, Carrying;
    HoldingParts(reader, messages);
    NothingOverYet(reader.Unread(), reader.fdq, reader.incoming, messages);
    out, last := [], Cancelled;
    assert messages[0..] == messages;
    ghost var received, u, q, cs := 0, reader.Unread(), reader.fdq, reader.incoming;
    for i := 0 to |patience|
      invariant |out| <= |messages|
      invariant forall j :: 0 <= j < |out| ==> AsRead(out[j]) && Chunk(out[j].raw, out[j].fds) == messages[j]
      invariant Holding(reader, messages[|out|..]) && (last.Received? || last.Cancelled?)
      invariant received <= |cs| && reader.incoming == cs[received..] && NotOverBefore(u, q, cs, messages, received)
      invariant |out| <= i && (NeverDropped(patience, |cs|) ==> |out| == i) && (Waits(patience) ==> i <= |out| + received)
    {
      HoldingParts(reader, messages[|out|..]);
      assert NeverDropped(patience, |cs|) ==> patience[i] > |cs|;
      assert Waits(patience) ==> patience[i] > 0;
      ghost var u', q', receives := reader.Unread(), reader.fdq, 0;
      last, receives := ReadNext(reader, patience[i], messages[|out|..]);
      CallTells(u, q, cs, messages, |out|, received, u', q', cs[received..], receives);
      if last.IoFailed? {
        return;
      }
      assert cs[received..][receives..] == cs[received + receives..];
      received := received + receives;
      if last.Ended? {
        AllReceived(u, q, cs, messages, received);
        return;
      }
      if last.Received? {
        assert messages[|out|..][1..] == messages[|out| + 1..];
        out := out + [last.msg];
      }
    }
  }

  lemma NothingOverYet(u: bytes, q: seq<Fd>, cs: seq<Chunk>, messages: seq<Chunk>)
    ensures NotOverBefore(u, q, cs, messages, 0)
  {
  }

  lemma AllReceived(u: bytes, q: seq<Fd>, cs: seq<Chunk>, messages: seq<Chunk>, received: nat)
    requires received == |cs| && NotOverBefore(u, q, cs, messages, received)
    ensures !Overfull(u, q, cs, messages)
  {
    hide OverAt;
  }

  lemma HoldingParts(reader: DbusReader, messages: seq<Chunk>)
    requires Holding(reader, messages)
    ensures reader.Valid() && Carrying(reader.Unread(), reader.fdq, reader.incoming, messages)
  {
  }

  // ----- two readers -----

  /** What the framed reader makes of a stream that carries no descriptors: a
      message that declares some is refused. */
  function FramedRead(s: bytes): Outcome<Option<Message>> {
    match FirstFrame(s)
    case NoMore => Ok(None)
    case Complete(total) =>
      FrameIsRead(s, total);
      if Declared(HeaderOf(s[..total])) > 0 then Err else Ok(Some(Message(HeaderOf(s[..total]), s[..total], [])))
    case _ => Err
  }

  /** A call that returned `r` gave what `f` says. */
  predicate Gives(r: ReadResult, f: Outcome<Option<Message>>) {
    match f
    case Ok(None) => r.Ended?
    case Ok(Some(msg)) => r == Received(msg)
    case Err => r.Refused?
    case Panic => false
  }

  lemma {:induction false} NoFdsInPrefix(cs: seq<Chunk>, k: nat)
    requires Fds(cs) == [] && k <= |cs|
    ensures Fds(cs[..k]) == []
  {
    ChunksSplit(cs, k);
  }

  lemma FramedResult(s: bytes, arrived: nat, r: ReadResult)
    requires r.Ended? || r.Received? || r.Refused?
    requires r.Ended? ==> FirstFrame(s).NoMore?
    requires r.Received? ==>
      AsRead(r.msg) && r.msg.raw <= s && FirstFrame(s) == Complete(|r.msg.raw|) && r.msg.fds == [] && Declared(r.msg.header) == 0
    requires r.Refused? ==> Refusable(s, arrived, [])
    ensures Gives(r, FramedRead(s))
  {
    hide ParsePrologue, HeaderOf;
    if r.Received? {
      assert s[..|r.msg.raw|] == r.msg.raw;
    }
  }

  /** One call, not dropped, on a stream without descriptors. */
  method ReadWithoutFds(reader: DbusReader, patience: nat) returns (r: ReadResult)
    requires reader.Valid() && reader.FdStream() == [] && patience > |reader.incoming|
    modifies reader
    ensures Gives(r, FramedRead(old(reader.Stream())))
  {
    hide ParsePrologue, AsRead, FirstFrame, Refusable, Bytes, Fds, Gives, FramedRead;
    ghost var s, u, cs, receives := reader.Stream(), reader.Unread(), reader.incoming, 0;
    r, receives := reader.ReadMessageFrom(patience);
    NoFdsInPrefix(cs, receives);
    if receives < |cs| {
      NoFdsInPrefix(cs, receives + 1);
    }
    ChunksSplit(cs, receives);
    assert s == (u + Bytes(cs[..receives])) + Bytes(cs[receives..]);
    if r.Received? {
      assert r.msg.fds == [] by { assert |r.msg.fds + reader.fdq| == 0; }
    }
    FramedResult(s, |u + Bytes(cs[..receives])|, r);
  }

  /** A plain byte stream; reading past its end takes what is left and fails. */
  class PlainStream {
    var rest: bytes

    method ReadExact(n: nat) returns (r: Option<bytes>)
      modifies this
      ensures if n <= |old(rest)| then r == Some(old(rest)[..n]) && rest == old(rest)[n..] else r.None? && rest == []
    {
      if n > |rest| {
        rest := [];
        return None;
      }
      r := Some(rest[..n]);
      rest := rest[n..];
    }
  }

  /** What the plain reader makes of a stream: a peer that stops inside the
      first twelve bytes has merely gone away, and declared descriptors are
      not asked for. */
  function PlainRead(s: bytes): Outcome<Option<Message>> {
    if |s| < 12 then Ok(None)
    else match FirstFrame(s)
      case Complete(total) =>
        FrameIsRead(s, total);
        Ok(Some(Message(HeaderOf(s[..total]), s[..total], [])))
      case _ => Err
  }

  lemma PlainCases(s: bytes)
    ensures |s| < 12 ==> PlainRead(s) == Ok(None)
    ensures 12 <= |s| < 16 ==> PlainRead(s) == Err
    ensures |s| >= 16 && !ParsePrologue(s).Ok? ==> PlainRead(s) == Err
    ensures |s| >= 16 && ParsePrologue(s).Ok? && |s| < ParsePrologue(s).value.TotalLen() ==> PlainRead(s) == Err
  {
    hide ParsePrologue;
  }

  /** The pieces read one by one are the message. */
  lemma PlainPieces(head: bytes, fields: bytes, padding: bytes, body: bytes, rest: bytes, p: Prologue)
    requires |head| == MIN_HEADER_SIZE && ParsePrologue(head) == Ok(p)
    requires |fields| == p.arrayLen && |padding| == p.Padding() && |body| == p.bodyLen
    ensures var raw := head + fields + padding + body;
      PlainRead(raw + rest) == Ok(Some(Message(IntoHeader(p, HeaderFieldsOf(p.endian, fields)), raw, [])))
  {
    hide ParsePrologue, HeaderFieldsOf;
    var raw := head + fields + padding + body;
    var s := raw + rest;
    SamePrologue(s, head);
    FrameIsRead(s, |raw|);
    assert s[..|raw|] == raw && raw[MIN_HEADER_SIZE..p.HeaderEnd()] == fields;
    HeaderOfRaw(raw, p);
  }

  /** Header array, padding and body, one after the other. */
  method ReadPieces(stream: PlainStream, p: Prologue) returns (r: Option<(bytes, bytes, bytes)>)
    modifies stream
    ensures r.None? <==> |old(stream.rest)| < p.arrayLen + p.Padding() + p.bodyLen
    ensures r.Some? ==> |r.value.0| == p.arrayLen && |r.value.1| == p.Padding() && |r.value.2| == p.bodyLen
    ensures r.Some? ==> old(stream.rest) == r.value.0 + r.value.1 + r.value.2 + stream.rest
  {
    hide Pad;
    var fieldsBuf := stream.ReadExact(p.arrayLen);
    if fieldsBuf.None? {
      return None;
    }
    var paddingBuf := stream.ReadExact(p.Padding());
    if paddingBuf.None? {
      return None;
    }
    var body := stream.ReadExact(p.bodyLen);
    if body.None? {
      return None;
    }
    return Some((fieldsBuf.value, paddingBuf.value, body.value));
  }

  /** The sixteen bytes of the prologue, in two reads. */
  method ReadPrologue(stream: PlainStream) returns (r: Outcome<Option<bytes>>)
    modifies stream
    ensures |old(stream.rest)| < 12 ==> r == Ok(None)
    ensures 12 <= |old(stream.rest)| < 16 ==> r == Err
    ensures |old(stream.rest)| >= 16 ==> r == Ok(Some(old(stream.rest)[..16])) && stream.rest == old(stream.rest)[16..]
  {
    var first := stream.ReadExact(12);
    if first.None? {
      return Ok(None);
    }
    var second := stream.ReadExact(4);
    if second.None? {
      return Err;
    }
    assert first.value + second.value == old(stream.rest)[..16];
    return Ok(Some(first.value + second.value));
  }

  method ReadMessage(stream: PlainStream) returns (r: Outcome<Option<Message>>)
    modifies stream
    ensures r == PlainRead(old(stream.rest))
    ensures r.Ok? && r.value.Some? ==> old(stream.rest) == r.value.value.raw + stream.rest
  {
    hide ParsePrologue, HeaderFieldsOf, PlainRead, Pad;
    ghost var s := stream.rest;
    PlainCases(s);
    var head := ReadPrologue(stream);
    if !head.Ok? || head.value.None? {
      return if head.Ok? then Ok(None) else Err;
    }
    ProloguePrefix(s, 16);
    var prologue := ParsePrologue(head.value.value);
    if !prologue.Ok? {
      return Err;
    }
    var pieces := ReadPieces(stream, prologue.value);
    if pieces.None? {
      return Err;
    }
    var (fieldsBuf, paddingBuf, body) := pieces.value;
    var fields := ParseHeaderFields(fieldsBuf, prologue.value.endian);
    var raw := head.value.value + fieldsBuf + paddingBuf + body;
    assert s == raw + stream.rest;
    PlainPieces(head.value.value, fieldsBuf, paddingBuf, body, stream.rest, prologue.value);
    return Ok(Some(Message(IntoHeader(prologue.value, fields), raw, [])));
  }

  /** The first message declares descriptors. */
  predicate DeclaresFds(s: bytes) {
    FirstFrame(s).Complete? && (FrameIsRead(s, FirstFrame(s).total); Declared(HeaderOf(s[..FirstFrame(s).total])) > 0)
  }

  /** The two readers agree on a stream without descriptors if and only if it
      does not break off between the twelfth and the sixteenth byte, and its
      first message declares no descriptors. */
  lemma ReadersAgree(s: bytes)
    ensures PlainRead(s) == FramedRead(s) <==> !(12 <= |s| < MIN_HEADER_SIZE) && !DeclaresFds(s)
  {
    hide ParsePrologue, HeaderOf;
  }

  /** What the framed reader returned is what the plain reader makes of the
      same bytes: the same header, the same bytes. */
  lemma SameMessage(s: bytes, msg: Message)
    requires AsRead(msg) && msg.raw <= s && FirstFrame(s) == Complete(|msg.raw|)
    ensures PlainRead(s) == Ok(Some(msg.(fds := [])))
  {
    hide ParsePrologue, HeaderOf;
    assert s[..|msg.raw|] == msg.raw;
  }

  // ----- writing -----

  class DbusWriter {
    /** What the receiver will see, one chunk a send. */
    var wire: seq<Chunk>
    /** How many bytes the coming sends accept; all of them when it runs out. */
    var room: seq<nat>

    constructor (room: seq<nat>)
      ensures wire == [] && this.room == room
    {
      wire, this.room := [], room;
    }

    /** One send: a prefix goes out and, if it is not empty, the descriptors with it. */
    method SendmsgSome(data: bytes, fds: seq<Fd>) returns (n: nat)
      modifies this
      ensures n == if |old(room)| == 0 || |data| < old(room)[0] then |data| else old(room)[0]
      ensures room == if |old(room)| == 0 then [] else old(room)[1..]
      ensures wire == if n == 0 then old(wire) else old(wire) + [Chunk(data[..n], fds)]
    {
      n := |data|;
      if |room| > 0 {
        n := if |data| < room[0] then |data| else room[0];
        room := room[1..];
      }
      if n > 0 {
        wire := wire + [Chunk(data[..n], fds)];
      }
    }

    /** The whole message, however little each send accepts; the descriptors
        go with the first accepted byte and never again. It fails exactly for
        too many descriptors or a send that accepts nothing before the end,
        and then no more than a proper prefix went out. */
    method Send(data: bytes, fds: seq<Fd>) returns (r: Outcome<()>)
      modifies this
      ensures old(wire) <= wire && !r.Panic?
      ensures r.Err? <==> |fds| > MAX_FDS_PER_MESSAGE || Stalls(old(room), |data|)
      ensures |fds| > MAX_FDS_PER_MESSAGE ==> wire == old(wire)
      ensures r.Ok? ==> Bytes(wire[|old(wire)|..]) == data
      ensures r.Err? ==> Bytes(wire[|old(wire)|..]) < data || wire == old(wire)
      ensures FdsOnFirst(wire[|old(wire)|..], fds)
    {
      hide Bytes, Stalls, Accepted, FdsOnFirst;
      if |fds| > MAX_FDS_PER_MESSAGE {
        assert wire[|wire|..] == [];
        NothingSent(fds);
        return Err;
      }
      var off := 0;
      var fdsPending := |fds| > 0;
      assert wire[|wire|..] == [];
      NothingSent(fds);
      ghost var sends := 0;
      Accepting(room, |data|);
      while off < |data|
        invariant off <= |data| && old(wire) <= wire
        invariant Bytes(wire[|old(wire)|..]) == data[..off] && FdsOnFirst(wire[|old(wire)|..], fds)
        invariant (off == 0 <==> wire == old(wire)) && (fdsPending <==> |fds| > 0 && off == 0)
        invariant sends <= |old(room)| && room == old(room)[sends..]
        invariant off < |data| ==> Accepted(old(room), sends, off)
        invariant off == |data| ==> !Stalls(old(room), |data|)
      {
        ghost var before := wire[|old(wire)|..];
        AcceptsMore(old(room), sends, off, |data|);
        var n := SendmsgSome(data[off..], if fdsPending then fds else []);
        if n == 0 {
          return Err;
        }
        if sends < |old(room)| {
          sends := sends + 1;
        }
        assert wire[|old(wire)|..] == before + [Chunk(data[off..][..n], if fdsPending then fds else [])];
        WireGrows(before, data, off, n, fds);
        off := off + n;
        fdsPending := false;
      }
      assert data[..off] == data;
      return Ok(());
    }
  }

  // ----- how much the sends accept -----

  function Sum(ns: seq<nat>): nat { if |ns| == 0 then 0 else Sum(ns[..|ns| - 1]) + ns[|ns| - 1] }

  /** A send accepts nothing although the sends before it took less than `n` bytes. */
  predicate Stalls(room: seq<nat>, n: nat) {
    exists k :: 0 <= k < |room| && room[k] == 0 && Sum(room[..k]) < n
  }

  /** The first `k` sends each accepted something, `off` bytes together. */
  predicate Accepted(room: seq<nat>, k: nat, off: nat) {
    k <= |room| && Sum(room[..k]) == off && forall i :: 0 <= i < k ==> room[i] > 0
  }

  lemma SumStep(room: seq<nat>, k: nat)
    requires k < |room|
    ensures Sum(room[..k + 1]) == Sum(room[..k]) + room[k]
  {
    assert room[..k + 1][..k] == room[..k];
  }

  lemma {:induction false} SumGrows(room: seq<nat>, k: nat, l: nat)
    requires k <= l <= |room|
    ensures Sum(room[..k]) <= Sum(room[..l])
    decreases l
  {
    if k < l {
      SumGrows(room, k, l - 1);
      SumStep(room, l - 1);
    }
  }

  lemma Accepting(room: seq<nat>, n: nat)
    ensures Accepted(room, 0, 0) && (n == 0 ==> !Stalls(room, n))
  {
    assert room[..0] == [];
  }

  /** What the next send does to the account. */
  lemma AcceptsMore(room: seq<nat>, k: nat, off: nat, n: nat)
    requires Accepted(room, k, off) && off < n
    ensures k == |room| ==> !Stalls(room, n)
    ensures k < |room| && room[k] == 0 ==> Stalls(room, n)
    ensures k < |room| && 0 < room[k] ==> Accepted(room, k + 1, off + room[k])
    ensures k < |room| && n - off <= room[k] ==> !Stalls(room, n)
  {
    if k < |room| {
      SumStep(room, k);
      if n - off <= room[k] {
        forall i | 0 <= i < |room| && room[i] == 0 ensures Sum(room[..i]) >= n {
          SumGrows(room, k + 1, i);
        }
      }
    }
  }

  /** The descriptors are attached to the first chunk and to no other. */
  predicate FdsOnFirst(cs: seq<Chunk>, fds: seq<Fd>) {
    forall i :: 0 <= i < |cs| ==> cs[i].fds == if i == 0 then fds else []
  }

  lemma NothingSent(fds: seq<Fd>)
    ensures Bytes([]) == [] && FdsOnFirst([], fds)
  {
  }

  lemma WireGrows(before: seq<Chunk>, data: bytes, off: nat, n: nat, fds: seq<Fd>)
    requires off + n <= |data| && Bytes(before) == data[..off] && FdsOnFirst(before, fds) && (off == 0 <==> before == [])
    ensures var more := before + [Chunk(data[off..][..n], if off == 0 then fds else [])];
      Bytes(more) == data[..off + n] && FdsOnFirst(more, fds)
  {
    hide Bytes;
    var more := before + [Chunk(data[off..][..n], if off == 0 then fds else [])];
    ChunksStep(more, |before|);
    assert more[..|before|] == before && more[..|before| + 1] == more;
    assert data[..off] + data[off..][..n] == data[..off + n];
  }

  /** Every descriptor of a sent message is on the wire exactly once - unless
      the message has no bytes to carry them. */
  lemma {:induction false} FdsOnce(cs: seq<Chunk>, fds: seq<Fd>)
    requires FdsOnFirst(cs, fds)
    ensures Fds(cs) == if |cs| == 0 then [] else fds
    decreases |cs|
  {
    if |cs| > 0 {
      var rest := cs[1..];
      assert forall i :: 0 <= i < |rest| ==> rest[i].fds == [];
      FdsOnce(rest, []);
    }
  }
}

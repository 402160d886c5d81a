// The peer protocol on the wire: BEP 3, section "peer protocol", as torrent.c
// reads and writes it.
module PeerWire {
  import opened Bytes

  const RECV_CAP: nat := 1024
  const SEND_CAP: nat := 1024
  const HASH_LEN: nat := 20
  const ID_LEN: nat := 20
  const HANDSHAKE_LEN: nat := 68

  // What is kept of a message. The bits of a bitfield and the block of a piece
  // are stepped over.
  datatype Message =
    | KeepAlive
    | Choke | Unchoke | Interested | Uninterested
    | Have(index: u32)
    | Bitfield
    | Request(index: u32, begin: u32, len: u32)
    | Piece(index: u32, begin: u32)
    | Cancel(index: u32, begin: u32, len: u32)
    | Unknown(tag: u8, size: u32)

  datatype Parsed = NotYet | Malformed | Whole(msg: Message, size: nat)

  // One message off the front of `data`, if a whole one is there.
  function ParseMessage(data: Bytes): (p: Parsed)
    ensures p.Whole? ==> 4 <= p.size <= |data| && p.size <= RECV_CAP
  {
    if |data| < 4 then NotYet
    else
      var size := U32FromBytes(data);
      if size > RECV_CAP - 4 then Malformed
      else if size == 0 then Whole(KeepAlive, 4)
      else if |data| - 4 < size then NotYet
      else ParseBody(data[4], data[5..4 + size], size)
  }

  function ParseBody(tag: u8, body: Bytes, size: u32): (p: Parsed)
    requires 0 < size == |body| + 1
    ensures p.Whole? ==> p.size == 4 + size
    ensures !p.NotYet?
  {
    if tag == 0 then (if size == 1 then Whole(Choke, 5) else Malformed)
    else if tag == 1 then (if size == 1 then Whole(Unchoke, 5) else Malformed)
    else if tag == 2 then (if size == 1 then Whole(Interested, 5) else Malformed)
    else if tag == 3 then (if size == 1 then Whole(Uninterested, 5) else Malformed)
    else if tag == 4 then
      if size == 5 then Whole(Have(U32FromBytes(body)), 9) else Malformed
    else if tag == 5 then Whole(Bitfield, 4 + size)
    else if tag == 6 then
      if size == 13
      then Whole(Request(U32FromBytes(body), U32FromBytes(body[4..]), U32FromBytes(body[8..])), 17)
      else Malformed
    else if tag == 7 then
      if size <= 9 then Malformed
      else Whole(Piece(U32FromBytes(body), U32FromBytes(body[4..])), 4 + size)
    else if tag == 8 then
      if size == 13
      then Whole(Cancel(U32FromBytes(body), U32FromBytes(body[4..]), U32FromBytes(body[8..])), 17)
      else Malformed
    else Whole(Unknown(tag, size), 4 + size)
  }

  // The format, written the other way round: a length that counts a tag and a
  // payload, and what payload says what.
  ghost predicate Spells(s: Bytes, m: Message) {
    if m.KeepAlive? then s == U32Bytes(0)
    else 5 <= |s| < U32_LIMIT && s[..4] == U32Bytes(|s| - 4) && Payload(s[4], s[5..], m)
  }

  ghost predicate Payload(tag: u8, body: Bytes, m: Message) {
    match m
    case KeepAlive => false
    case Choke => tag == 0 && body == []
    case Unchoke => tag == 1 && body == []
    case Interested => tag == 2 && body == []
    case Uninterested => tag == 3 && body == []
    case Have(i) => tag == 4 && body == U32Bytes(i)
    case Bitfield => tag == 5
    case Request(i, b, l) => tag == 6 && body == U32Bytes(i) + U32Bytes(b) + U32Bytes(l)
    case Piece(i, b) => tag == 7 && |body| > 8 && body[..8] == U32Bytes(i) + U32Bytes(b)
    case Cancel(i, b, l) => tag == 8 && body == U32Bytes(i) + U32Bytes(b) + U32Bytes(l)
    case Unknown(t, size) => tag == t > 8 && size == |body| + 1
  }

  lemma {:induction false} U32Front(s: Bytes, w: u32)
    requires |s| >= 4
    ensures U32FromBytes(s) == w <==> s[..4] == U32Bytes(w)
  {
    hide U32Bytes, U32FromBytes;
    if s[..4] == U32Bytes(w) {
      U32RoundTrip(w, s[4..]);
      assert s == U32Bytes(w) + s[4..];
    }
    if U32FromBytes(s) == w {
      U32BytesOfParsed(s);
    }
  }

  lemma {:induction false} TwoWords(s: Bytes, i: u32, b: u32)
    requires |s| >= 8
    ensures U32FromBytes(s) == i && U32FromBytes(s[4..]) == b <==> s[..8] == U32Bytes(i) + U32Bytes(b)
  {
    hide U32Bytes, U32FromBytes;
    U32Front(s, i);
    U32Front(s[4..], b);
    assert s[..8][..4] == s[..4] && s[..8][4..] == s[4..][..4];
    assert s[..8] == s[..4] + s[4..][..4];
  }

  lemma {:induction false} ThreeWords(s: Bytes, i: u32, b: u32, l: u32)
    requires |s| == 12
    ensures U32FromBytes(s) == i && U32FromBytes(s[4..]) == b && U32FromBytes(s[8..]) == l
       <==> s == U32Bytes(i) + U32Bytes(b) + U32Bytes(l)
  {
    hide U32Bytes, U32FromBytes;
    TwoWords(s, i, b);
    U32Front(s[8..], l);
    assert s == s[..8] + s[8..] && s[8..][..4] == s[8..];
  }

  lemma {:induction false} ParseBodyExact(tag: u8, body: Bytes, m: Message)
    requires |body| + 1 < U32_LIMIT
    ensures ParseBody(tag, body, |body| + 1) == Whole(m, 5 + |body|) <==> Payload(tag, body, m)
  {
    hide U32Bytes, U32FromBytes;
    match m {
      case Have(i) => if |body| == 4 { U32Front(body, i); assert body[..4] == body; }
      case Request(i, b, l) => if |body| == 12 { ThreeWords(body, i, b, l); }
      case Cancel(i, b, l) => if |body| == 12 { ThreeWords(body, i, b, l); }
      case Piece(i, b) => if |body| > 8 { TwoWords(body, i, b); }
      case _ =>
    }
  }

  // The parser takes a message exactly where its spelling stands and fits the
  // buffer, and takes all of it.
  lemma {:induction false} ParseMessageExact(data: Bytes, m: Message, n: nat)
    ensures ParseMessage(data) == Whole(m, n)
       <==> n <= |data| && n <= RECV_CAP && Spells(data[..n], m)
  {
    hide U32Bytes, U32FromBytes, ParseBody;
    if n <= |data| {
      NothingShorter(data, m, n);
    }
    if 4 <= n <= |data| && n <= RECV_CAP {
      U32Front(data, n - 4);
      assert data[..n][..4] == data[..4];
      if n > 4 {
        var size, body := U32FromBytes(data), data[5..n];
        assert data[..n][5..] == body && data[..n][4] == data[4];
        ParseBodyExact(data[4], body, m);
        assert ParseMessage(data) == Whole(m, n)
          <==> size == n - 4 && ParseBody(data[4], body, n - 4) == Whole(m, n);
      } else {
        assert ParseMessage(data) == Whole(m, 4) <==> U32FromBytes(data) == 0 && m == KeepAlive;
        assert data[..n] == data[..4];
      }
    }
  }

  lemma {:induction false} NothingShorter(data: Bytes, m: Message, n: nat)
    requires n <= |data|
    ensures Spells(data[..n], m) ==> 4 <= n && (n == 4 <==> m.KeepAlive?)
  {
  }

  // More bytes change only the answer that there are not enough.
  lemma {:induction false} ParseMessageStable(a: Bytes, b: Bytes)
    requires ParseMessage(a) != NotYet
    ensures ParseMessage(a + b) == ParseMessage(a)
  {
    hide U32Bytes, ParseBody;
    assert U32FromBytes(a + b) == U32FromBytes(a);
    var size := U32FromBytes(a);
    if 0 < size <= RECV_CAP - 4 {
      assert (a + b)[5..4 + size] == a[5..4 + size];
    }
  }

  // ---------- The handshake ----------

  const PROTOCOL: Bytes :=
    [19, 66, 105, 116, 84, 111, 114, 114, 101, 110, 116, 32,
     112, 114, 111, 116, 111, 99, 111, 108]

  function Header(): (s: Bytes)
    ensures |s| == 20
  {
    PROTOCOL
  }

  function Handshake(infoHash: Bytes, id: Bytes): Bytes {
    Header() + Zeros(8) + infoHash + id
  }

  predicate CheckHandshake(data: Bytes, infoHash: Bytes) {
    |data| == HANDSHAKE_LEN && data[..20] == Header() && data[28..48] == infoHash
  }

  // The format: nineteen, the name of the protocol, what is reserved, the info
  // hash and the id of who is speaking.
  ghost predicate SpellsHandshake(s: Bytes, reserved: Bytes, infoHash: Bytes, id: Bytes) {
    && |reserved| == 8 && |infoHash| == 20 && |id| == 20
    && s == [19] + Ascii("BitTorrent protocol") + reserved + infoHash + id
  }

  lemma {:induction false} HeaderIs()
    ensures Header() == [19] + Ascii("BitTorrent protocol")
  {
    var name := "BitTorrent protocol";
    assert |Ascii(name)| == 19;
    assert Header()[1..] == Ascii(name);
    assert Header() == [19] + Header()[1..];
  }

  // What is sent is so spelled, with nothing reserved and our own id.
  lemma {:induction false} HandshakeSpelled(infoHash: Bytes, id: Bytes)
    requires |infoHash| == HASH_LEN && |id| == ID_LEN
    ensures SpellsHandshake(Handshake(infoHash, id), [0, 0, 0, 0, 0, 0, 0, 0], infoHash, id)
  {
    hide Header;
    HeaderIs();
    assert Zeros(8) == [0, 0, 0, 0, 0, 0, 0, 0];
  }

  // What is taken is what is so spelled for the torrent, whatever is reserved and
  // whoever speaks.
  lemma {:induction false} CheckHandshakeExact(data: Bytes, infoHash: Bytes)
    requires |infoHash| == HASH_LEN
    ensures CheckHandshake(data, infoHash) <==> exists reserved, id :: SpellsHandshake(data, reserved, infoHash, id)
  {
    hide Header;
    HeaderIs();
    if CheckHandshake(data, infoHash) {
      var reserved, id := data[20..28], data[48..];
      assert data == data[..20] + data[20..28] + data[28..48] + data[48..];
      assert SpellsHandshake(data, reserved, infoHash, id);
    }
    if reserved, id :| SpellsHandshake(data, reserved, infoHash, id) {
      var head := Header() + reserved;
      assert data == head + (infoHash + id);
      assert data[..20] == Header() && data[28..48] == infoHash;
    }
  }

  lemma {:induction false} OwnHandshakePasses(infoHash: Bytes, id: Bytes)
    requires |infoHash| == HASH_LEN && |id| == ID_LEN
    ensures CheckHandshake(Handshake(infoHash, id), infoHash)
  {
    hide Header;
    var s := Handshake(infoHash, id);
    assert s[..20] == Header() && s[28..48] == infoHash;
  }

  // ---------- The stream, read once from end to end ----------

  datatype StreamEvent = GotHandshake | GotMessage(msg: Message) | GotNonsense

  // What a reader is waiting for; `Broken` is having met what is not the
  // protocol.
  datatype Phase = AwaitHandshake | AwaitMessage | Broken

  datatype Reading = Reading(events: seq<StreamEvent>, rest: Bytes, phase: Phase)

  function Prepend(events: seq<StreamEvent>, r: Reading): Reading {
    r.(events := events + r.events)
  }

  function EventOf(m: Message): seq<StreamEvent> {
    if m.Unknown? then [] else [GotMessage(m)]
  }

  // `rest` is the end of `s`.
  predicate Ends(s: Bytes, rest: Bytes) {
    |rest| <= |s| && s[|s| - |rest|..] == rest
  }

  function ReadMessages(s: Bytes): (r: Reading)
    ensures !r.phase.AwaitHandshake?
    ensures r.phase.AwaitMessage? ==> ParseMessage(r.rest) == NotYet
    ensures r.phase.Broken? ==> r.events != [] && r.events[|r.events| - 1] == GotNonsense
    ensures Ends(s, r.rest)
  {
    hide ParseMessage;
    match ParseMessage(s)
    case NotYet => Reading([], s, AwaitMessage)
    case Malformed => Reading([GotNonsense], s, Broken)
    case Whole(m, n) =>
      var r := ReadMessages(s[n..]);
      EndsBehind(s, n, r.rest);
      Prepend(EventOf(m), r)
  }

  lemma {:induction false} EndsBehind(s: Bytes, n: nat, rest: Bytes)
    requires n <= |s| && Ends(s[n..], rest)
    ensures Ends(s, rest)
  {
    assert s[n..][|s| - n - |rest|..] == s[|s| - |rest|..];
  }

  function ReadStream(infoHash: Bytes, s: Bytes): (r: Reading)
    ensures r.phase.AwaitHandshake? ==> |r.rest| < HANDSHAKE_LEN && r.events == []
    ensures r.phase.AwaitMessage? ==> ParseMessage(r.rest) == NotYet
    ensures Ends(s, r.rest)
  {
    hide ParseMessage, ReadMessages, CheckHandshake;
    if |s| < HANDSHAKE_LEN then Reading([], s, AwaitHandshake)
    else if !CheckHandshake(s[..HANDSHAKE_LEN], infoHash) then Reading([GotNonsense], s, Broken)
    else Prepend([GotHandshake], ReadMessages(s[HANDSHAKE_LEN..]))
  }

  // The first 68 bytes decide: they are a handshake for this torrent, or nonsense
  // and the end.
  lemma {:induction false} StreamBegins(infoHash: Bytes, s: Bytes)
    requires |infoHash| == HASH_LEN && |s| >= HANDSHAKE_LEN
    ensures var r, head := ReadStream(infoHash, s), s[..HANDSHAKE_LEN];
            if exists reserved, id :: SpellsHandshake(head, reserved, infoHash, id)
            then
              r.events != [] && r.events[0] == GotHandshake
              && r == Prepend([GotHandshake], ReadMessages(s[HANDSHAKE_LEN..]))
            else r == Reading([GotNonsense], s, Broken)
  {
    hide ReadMessages, CheckHandshake, SpellsHandshake;
    CheckHandshakeExact(s[..HANDSHAKE_LEN], infoHash);
  }

  // More is waited for until the length is there, and then the bytes it counts,
  // unless they could not fit.
  lemma {:induction false} NotYetExact(data: Bytes)
    ensures ParseMessage(data) == NotYet
       <==> |data| < 4 || exists size: u32 :: data[..4] == U32Bytes(size) && |data| < 4 + size <= 1024
  {
    hide U32Bytes, U32FromBytes, ParseBody;
    if |data| >= 4 {
      U32Front(data, U32FromBytes(data));
      forall size: u32 | data[..4] == U32Bytes(size) ensures size == U32FromBytes(data) {
        U32Front(data, size);
      }
    }
  }

  // The messages a reader is told of, of those that stand in the stream.
  function Known(msgs: seq<Message>): seq<StreamEvent> {
    if msgs == [] then []
    else
      var last := msgs[|msgs| - 1];
      Known(msgs[..|msgs| - 1]) + match last
                                  case Unknown(_, _) => []
                                  case _ => [GotMessage(last)]
  }

  ghost predicate AllSpelled(parts: seq<Bytes>, msgs: seq<Message>) {
    && |parts| == |msgs|
    && forall i :: 0 <= i < |parts| ==> Spells(parts[i], msgs[i]) && |parts[i]| <= RECV_CAP
  }

  // Messages one behind the other are told of in order, each once, and the ones
  // nobody knows are stepped over.
  lemma {:induction false} MessagesTold(parts: seq<Bytes>, msgs: seq<Message>)
    requires AllSpelled(parts, msgs)
    ensures ReadMessages(Joined(parts)) == Reading(Known(msgs), [], AwaitMessage)
  {
    hide Spells, ReadMessages, ParseMessage;
    if parts == [] {
      NoMessages();
    } else {
      var n := |parts| - 1;
      MessagesTold(parts[..n], msgs[..n]);
      ReadMessagesResume(Joined(parts[..n]), parts[n]);
      assert [] + parts[n] == parts[n];
      OneTold(parts[n], msgs[n]);
    }
  }

  lemma {:induction false} NoMessages()
    ensures ReadMessages([]) == Reading([], [], AwaitMessage)
  {
  }

  lemma {:induction false} OneTold(s: Bytes, m: Message)
    requires Spells(s, m) && |s| <= RECV_CAP
    ensures ReadMessages(s) == Reading(if m.Unknown? then [] else [GotMessage(m)], [], AwaitMessage)
  {
    hide ParseMessage, Spells;
    assert s[..|s|] == s;
    ParseMessageExact(s, m, |s|);
    NoMessages();
    assert s[|s|..] == [];
  }

  lemma {:induction false} MessagesToldBefore(parts: seq<Bytes>, msgs: seq<Message>, tail: Bytes)
    requires AllSpelled(parts, msgs)
    ensures ReadMessages(Joined(parts) + tail) == Prepend(Known(msgs), ReadMessages(tail))
  {
    hide AllSpelled, ParseMessage, Known, Joined, ReadMessages, Prepend;
    MessagesTold(parts, msgs);
    ReadMessagesResume(Joined(parts), tail);
    assert [] + tail == tail;
  }

  lemma {:induction false} NoWholeMessage(tail: Bytes)
    requires !ParseMessage(tail).Whole?
    ensures ReadMessages(tail)
         == if ParseMessage(tail) == NotYet then Reading([], tail, AwaitMessage) else Reading([GotNonsense], tail, Broken)
  {
    hide ParseMessage;
  }

  // A whole stream: a handshake, the messages behind it, and what is not one.
  lemma {:induction false} StreamTold(infoHash: Bytes, reserved: Bytes, id: Bytes, hello: Bytes, parts: seq<Bytes>,
                                      msgs: seq<Message>, tail: Bytes)
    requires SpellsHandshake(hello, reserved, infoHash, id) && AllSpelled(parts, msgs) && !ParseMessage(tail).Whole?
    ensures ReadStream(infoHash, hello + (Joined(parts) + tail))
         == Prepend([GotHandshake] + Known(msgs),
                    if ParseMessage(tail) == NotYet then Reading([], tail, AwaitMessage)
                    else Reading([GotNonsense], tail, Broken))
  {
    HandshakeLong(hello, reserved, infoHash, id);
    hide AllSpelled, ParseMessage, Known, Joined, ReadMessages, ReadStream, SpellsHandshake, Prepend;
    var messages := Joined(parts) + tail;
    StreamBegins(infoHash, hello + messages);
    assert (hello + messages)[..HANDSHAKE_LEN] == hello && (hello + messages)[HANDSHAKE_LEN..] == messages;
    MessagesToldBefore(parts, msgs, tail);
    NoWholeMessage(tail);
    PrependTwice([GotHandshake], Known(msgs), ReadMessages(tail));
  }

  lemma {:induction false} HandshakeLong(hello: Bytes, reserved: Bytes, infoHash: Bytes, id: Bytes)
    requires SpellsHandshake(hello, reserved, infoHash, id)
    ensures |hello| == HANDSHAKE_LEN
  {
  }

  // Going on where a reader stopped, with `more` behind what it had left.
  function Resume(infoHash: Bytes, r: Reading, more: Bytes): Reading {
    match r.phase
    case AwaitHandshake => Prepend(r.events, ReadStream(infoHash, r.rest + more))
    case AwaitMessage => Prepend(r.events, ReadMessages(r.rest + more))
    case Broken => r.(rest := r.rest + more)
  }

  lemma {:induction false} PrependTwice(a: seq<StreamEvent>, b: seq<StreamEvent>, r: Reading)
    ensures Prepend(a, Prepend(b, r)) == Prepend(a + b, r)
  {
    assert a + (b + r.events) == a + b + r.events;
  }

  lemma {:induction false} PrependNone(r: Reading)
    ensures Prepend([], r) == r
  {
  }

  // Going on where a reader of messages stopped.
  function ResumeMessages(r: Reading, more: Bytes): Reading {
    if r.phase.Broken? then r.(rest := r.rest + more) else Prepend(r.events, ReadMessages(r.rest + more))
  }

  lemma {:induction false} ReadMessagesResume(s: Bytes, more: Bytes)
    ensures ReadMessages(s + more) == ResumeMessages(ReadMessages(s), more)
    decreases |s|
  {
    var p := ParseMessage(s);
    if p != NotYet {
      ParseMessageStable(s, more);
    }
    hide ParseMessage;
    if p == NotYet {
      PrependNone(ReadMessages(s + more));
    } else if p.Whole? {
      assert (s + more)[p.size..] == s[p.size..] + more;
      ReadMessagesResume(s[p.size..], more);
      var r := ReadMessages(s[p.size..]);
      PrependTwice(EventOf(p.msg), r.events, ReadMessages(r.rest + more));
    }
  }

  // Reading a stream in two parts is reading it whole.
  lemma {:induction false} ReadStreamResume(infoHash: Bytes, s: Bytes, more: Bytes)
    ensures ReadStream(infoHash, s + more) == Resume(infoHash, ReadStream(infoHash, s), more)
  {
    hide ReadMessages;
    if |s| < HANDSHAKE_LEN {
      PrependNone(ReadStream(infoHash, s + more));
    } else {
      var head, tail := s[..HANDSHAKE_LEN], s[HANDSHAKE_LEN..];
      assert (s + more)[..HANDSHAKE_LEN] == head;
      assert (s + more)[HANDSHAKE_LEN..] == tail + more;
      ReadMessagesResume(tail, more);
      var r := ReadMessages(tail);
      PrependTwice([GotHandshake], r.events, ReadMessages(r.rest + more));
    }
  }

  function ReadChunks(infoHash: Bytes, chunks: seq<Bytes>): Reading {
    if chunks == [] then ReadStream(infoHash, [])
    else Resume(infoHash, ReadChunks(infoHash, chunks[..|chunks| - 1]), chunks[|chunks| - 1])
  }

  // However TCP cuts it, a stream is the same events.
  lemma {:induction false} CuttingIndependence(infoHash: Bytes, chunks: seq<Bytes>)
    ensures ReadChunks(infoHash, chunks) == ReadStream(infoHash, Joined(chunks))
  {
    if chunks == [] {
    } else {
      var init := chunks[..|chunks| - 1];
      CuttingIndependence(infoHash, init);
      ReadStreamResume(infoHash, Joined(init), chunks[|chunks| - 1]);
    }
  }
}

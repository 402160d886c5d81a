// What the bridge puts on the wire for each command (torrent.c), and how the
// other end reads it.
module PeerSending {
  import opened Bytes
  import opened PeerWire
  import opened PeerActor

  function WireOf(c: Command, infoHash: Bytes, id: Bytes): Bytes {
    match c
    case SendHandshake => Handshake(infoHash, id)
    case SendKeepAlive => Zeros(4)
    case SendInterested => U32Bytes(1) + [2]
    case SendUnchoke => U32Bytes(1) + [1]
    case Close => []
  }

  function WireAll(cs: seq<Command>, infoHash: Bytes, id: Bytes): Bytes {
    if cs == [] then []
    else WireAll(cs[..|cs| - 1], infoHash, id) + WireOf(cs[|cs| - 1], infoHash, id)
  }

  lemma {:induction false} WireAllAppend(cs: seq<Command>, c: Command, infoHash: Bytes, id: Bytes)
    ensures WireAll(cs + [c], infoHash, id) == WireAll(cs, infoHash, id) + WireOf(c, infoHash, id)
  {
    assert (cs + [c])[..|cs|] == cs;
  }

  lemma {:induction false} WireAllNone(infoHash: Bytes, id: Bytes)
    ensures WireAll([], infoHash, id) == []
  {
  }

  // What has been queued by a connection in each state: the greeting whole, and
  // then nothing but keep-alives.
  predicate Conversation(state: PeerState, queued: seq<Command>) {
    match state
    case Initial => queued == []
    case SentHandshake => queued == [SendHandshake]
    case Handshaked =>
      && [SendHandshake, SendInterested, SendUnchoke] <= queued
      && forall i :: 3 <= i < |queued| ==> queued[i] == SendKeepAlive
  }

  function MessageOf(c: Command): Message {
    match c
    case SendInterested => Interested
    case SendUnchoke => Unchoke
    case _ => KeepAlive
  }

  function EventsOf(cs: seq<Command>): (es: seq<StreamEvent>)
    ensures |es| == |cs|
  {
    seq(|cs|, i requires 0 <= i < |cs| => GotMessage(MessageOf(cs[i])))
  }

  predicate IsMessage(c: Command) {
    c.SendKeepAlive? || c.SendInterested? || c.SendUnchoke?
  }

  lemma {:induction false} WireOfMessage(c: Command, infoHash: Bytes, id: Bytes)
    requires IsMessage(c)
    ensures Spells(WireOf(c, infoHash, id), MessageOf(c))
  {
    var s := WireOf(c, infoHash, id);
    if c.SendKeepAlive? {
      assert s == U32Bytes(0);
    } else {
      assert s[..4] == U32Bytes(1) && s[5..] == [];
    }
  }

  lemma {:induction false} MessagesReadBack(cs: seq<Command>, infoHash: Bytes, id: Bytes)
    requires forall c | c in cs :: IsMessage(c)
    ensures ReadMessages(WireAll(cs, infoHash, id)) == Reading(EventsOf(cs), [], AwaitMessage)
  {
    hide U32Bytes, WireOf, ParseMessage, Spells, WireAll, ReadMessages;
    if cs == [] {
      WireAllNone(infoHash, id);
      NothingYet();
    } else {
      var init, last := cs[..|cs| - 1], cs[|cs| - 1];
      assert last in cs && cs == init + [last];
      WireAllAppend(init, last, infoHash, id);
      var before, s := WireAll(init, infoHash, id), WireOf(last, infoHash, id);
      MessagesReadBack(init, infoHash, id);
      ReadMessagesResume(before, s);
      OneMessage(last, infoHash, id);
      assert [] + s == s;
      assert EventsOf(cs) == EventsOf(init) + [GotMessage(MessageOf(last))];
    }
  }

  lemma {:induction false} NothingYet()
    ensures ReadMessages([]) == Reading([], [], AwaitMessage)
  {
  }

  lemma {:induction false} OneMessage(c: Command, infoHash: Bytes, id: Bytes)
    requires IsMessage(c)
    ensures ReadMessages(WireOf(c, infoHash, id)) == Reading([GotMessage(MessageOf(c))], [], AwaitMessage)
  {
    hide U32Bytes, WireOf, ParseMessage, Spells;
    var s := WireOf(c, infoHash, id);
    WireOfMessage(c, infoHash, id);
    MessageLength(c, infoHash, id);
    assert s[..|s|] == s;
    ParseMessageExact(s, MessageOf(c), |s|);
    NothingYet();
    assert s[|s|..] == [];
  }

  lemma {:induction false} MessageLength(c: Command, infoHash: Bytes, id: Bytes)
    requires IsMessage(c)
    ensures |WireOf(c, infoHash, id)| == if c.SendKeepAlive? then 4 else 5
  {
  }

  // Everything a handshaked connection queued reads back, at the other end of
  // the wire, as the handshake and the same messages in order.
  lemma {:induction false} OutgoingReadsBack(queued: seq<Command>, infoHash: Bytes, id: Bytes)
    requires |infoHash| == HASH_LEN && |id| == ID_LEN
    requires Conversation(Handshaked, queued)
    ensures ReadStream(infoHash, WireAll(queued, infoHash, id))
         == Reading([GotHandshake] + EventsOf(queued[1..]), [], AwaitMessage)
  {
    hide ReadMessages;
    var hello, said := Handshake(infoHash, id), queued[1..];
    OwnHandshakePasses(infoHash, id);
    MessagesReadBack(said, infoHash, id) by {
      forall c | c in said ensures IsMessage(c) {
        var i :| 0 <= i < |said| && said[i] == c;
        assert queued[i + 1] == c;
      }
    }
    WireAllFirst(queued, infoHash, id);
    var s := WireAll(queued, infoHash, id);
    assert s[..HANDSHAKE_LEN] == hello && s[HANDSHAKE_LEN..] == WireAll(said, infoHash, id);
  }

  lemma {:induction false} WireAllFirst(cs: seq<Command>, infoHash: Bytes, id: Bytes)
    requires cs != []
    ensures WireAll(cs, infoHash, id) == WireOf(cs[0], infoHash, id) + WireAll(cs[1..], infoHash, id)
  {
    hide WireOf;
    var init, last := cs[..|cs| - 1], cs[|cs| - 1];
    if |cs| > 1 {
      WireAllFirst(init, infoHash, id);
      assert init[0] == cs[0] && cs[1..] == init[1..] + [last];
      WireAllAppend(init[1..], last, infoHash, id);
      Associate(WireOf(cs[0], infoHash, id), WireAll(init[1..], infoHash, id), WireOf(last, infoHash, id));
    } else {
      assert WireAll([], infoHash, id) == [] && init == [];
    }
  }
}

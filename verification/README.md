# A verified model of the unity build

This project models the parts of the C unity build that carry its hardest
promises, and proves those promises for every input and every run:

- **The peer connection engine** (`PeerWire`, `PeerActor`, `PeerSending`,
  `PeerHistory`, `Bitset`, `PeerPool`, `PeerConnection`, `PeerNetwork`). A pure
  actor decides, a bridge turns a TCP stream into events and commands into bytes,
  slots live in a bitset pool, a walk over the pool is the timer, and the kernel
  is an environment that reports what it holds in any order, with any result that
  fits, may write where a pending read points at any moment, and may refuse any
  submission. Every connection carries its history: what it received, every event
  its actor was told with the instant, what was queued, what the kernel took, what
  was dropped, how often its socket was given up. `Live` says what holds of an
  occupied slot between callbacks, `Faithful` what holds of a connection that is
  over, and `Network.Serve` keeps both through any schedule.
- **Bencode** (`Bencode`, `BencodeParser`, `BencodeEncoder`, with the number code
  in `Decimal` and the arenas in `Arena`): the two-stack parser over arrays, the
  sizing pass and the in-place encoder, against one recursive grammar.
- **The BEP 52 Merkle tree** (`Merkle`, `PowersOfTwo`), over any hash, against the
  tree of the file's blocks built from the top.
- **Streaming SHA-256** (`Sha256`), against sections 4 to 6 of FIPS 180-4, with
  the bit length wrapping in 64 bits as the code's does; its constants are the
  roots they should be and the digest of "abc" is the published one, round by
  round (`Sha256Example`).
- **The epoll operation table** (`EpollTable`, `EpollLoop`, with the counting in
  `Counting`): intrusive lists, the detached chain, callbacks that submit again,
  registrations by descriptor, and what is lost when two share one.
- **HTTP requests** (`Http`, `HttpBuilder`), what the server makes of a request
  cut into reads (`HttpConversation`), and the **server's connections** with the
  two free-list pools behind them (`FreeList`, `HttpServer`), through any schedule.
- **Nested protobuf** (`Protobuf`, `Otel`, `OtelEncoding`, `OtelTraces`): whole
  payloads as trees of messages, down to the attribute values, each field written
  with its own wire type, in any order and number.

Where the C code changes things in place the model does: classes for the pool,
the peers, the SHA-256 context, the epoll platform and the buffers, arrays for the
fixed buffers and stacks, loops where the source loops. Each such method is
proved against a specification function or a predicate, and the properties are
lemmas about those. What such a specification is read against is written
independently of it: a format by its characters, an order by where two keys differ,
a schema by what an exporter writes. A submission the kernel may refuse is an
unspecified choice, answered as `refused` or `no`, so that contracts say what
happens in either case.

## Where the code and what is written about it differ

- `linux.c:142-146` says that nothing has two operations on one descriptor. While
  that is so nothing is ever lost: `EpollLoop.PlatformLinux.Serve` keeps it through
  any turns, and a submission keeps it exactly when nothing in use is on its
  descriptor (`EpollTable.SubmitExclusive`), which a caller can look up. A torrent
  peer does not keep to it: it has a read and a write in flight on its one socket
  (`torrent.c:2422-2447`). When both have to wait, the second registration replaces
  the first, which is then never reported: `EpollTable.ReadLostToWrite` is such a
  run, and `EpollTable.ArmLoses` says exactly what arming loses. The torrent proofs
  are about safety and hold with it, and `PeerNetwork.Network.Serve` says what it
  costs: as long as a peer's read is not reported its slot is not freed, by no
  write, deadline or turn.
- `torrent.c:2702-2706` says that a slot can go while the walk over the deadlines
  is in progress. It cannot: a connection that is not closing has a read in
  flight, so a hang-up decided by the walk waits for it.
  `PeerNetwork.Network.DeadlinesRun` proves that the occupied slots are the same
  after the walk as before it.
- The encoder's depth assert (`torrent.c:960`, `torrent.c:997`) counts recursive calls and
  the parser's bound (`torrent.c:263`) open containers. 129 nested containers with
  an empty innermost one pass the first and not the second:
  `BencodeEncoder.EncoderOutrunsParser`. Encode-then-parse holds exactly when the
  value is nested at most 128 deep and there is the memory
  (`BencodeEncoder.EncodeThenParse`).
- `http_req_build` checks neither the URL nor the headers. Its output reads back
  as itself exactly when the URL is not empty and holds no space and no blank
  line, every header is a legal one, and they fit the cap
  (`HttpBuilder.BuildThenParse`). A URL may hold a lone CR or LF and still read
  back.
- The OTLP server hands on as the body what had arrived when the headers became
  whole (`otel.c:178-196`), whatever the sender still had to send. It is the whole
  body exactly when the read that completed the head was the last
  (`HttpConversation.HandedOnWhenCut`); a head in one read and its body in the next
  hands on nothing, as one posted byte shows (`HttpConversation.BodyCutOffExample`).

## Model

| member | source | states |
|---|---|---|
| PeerWire.ParseMessage | torrent.c:1758-1890 | a whole message is at least its length prefix, lies within what is buffered, and fits the receive buffer |
| PeerWire.ParseMessageExact | torrent.c:1758-1890 | a message is taken exactly where its spelling in the peer protocol stands in front and fits the buffer, and all of it is taken |
| PeerWire.ParseMessageStable | torrent.c:1736-1757 | bytes behind change only the answer "not yet" |
| PeerWire.NotYetExact | torrent.c:1758-1790 | more is waited for exactly until the length is there and then the bytes it counts, when they could fit |
| PeerWire.CheckHandshakeExact | torrent.c:2055-2092 | a handshake is taken exactly when it is nineteen, "BitTorrent protocol", eight bytes of anything, the torrent's own info hash and twenty bytes of anything |
| PeerWire.HandshakeSpelled | torrent.c:2254-2284 | what is sent is so spelled, with nothing reserved and our own id |
| PeerWire.OwnHandshakePasses | torrent.c:2274-2280 | the handshake sent passes the check a peer's must |
| PeerWire.ReadStream | torrent.c:2453-2580 | what a reader leaves over is the end of the stream, too short for a handshake or with no whole message in front |
| PeerWire.StreamBegins | torrent.c:2467-2492 | the first 68 bytes decide: a handshake so spelled for this torrent is told first, and anything else is nonsense and the end |
| PeerWire.MessagesTold | torrent.c:2494-2575 | messages spelled one behind the other are told in order, each once, the unknown ones stepped over |
| PeerWire.StreamTold | torrent.c:2453-2580 | a whole stream, handshake, messages and a tail that is not one, is told as exactly that |
| PeerWire.ReadStreamResume | torrent.c:2453-2580 | going on from where a reader stopped is reading the whole |
| PeerWire.CuttingIndependence | torrent.c:2453-2580 | however the stream is cut into reads, the events and what is left over are those of one reading of the concatenation |
| PeerActor.CloseIsLast | torrent.c:1534-1546 | a batch has at most two commands, nothing beside a Close, and a hang-up or nonsense is always answered with one |
| PeerActor.AnswerExact | torrent.c:1560-1660 | over any run that is not over: it opens with our handshake; until theirs arrives anything else is answered with a Close; after that a Close answers exactly a hang-up, nonsense or a deadline past the silence allowed, a keep-alive exactly a deadline when it is our turn to speak, and nothing is said otherwise |
| PeerActor.MetIsHandshaked | torrent.c:1590-1612 | the state is Handshaked exactly when the other end's handshake was heard |
| PeerActor.DeadlinesMeasure | torrent.c:1484-1528 | over any run: the published deadline is the earlier of the two; one is thirty seconds from being accepted or four minutes from the last thing heard, whatever was said; the other two minutes from the last thing said, whatever was heard |
| PeerActor.StateNeverGoesBack | torrent.c:1568-1675 | the state only ever advances |
| PeerActor.DeadlineSettles | torrent.c:2738-2741 | a deadline event is answered with a Close or leaves a deadline strictly ahead |
| PeerActor.AtMostTwoKeepAlives | torrent.c:1483-1495 | between two things heard at most two keep-alives are sent |
| PeerSending.MessagesReadBack | torrent.c:2289-2344 | what is queued after the handshake parses back as the same messages in order, with nothing over |
| PeerSending.OutgoingReadsBack | torrent.c:2254-2344 | everything a handshaked connection queued reads back, at the other end, as the handshake and then the same messages |
| PeerHistory.Unfinished | torrent.c:2436-2440 | once drained, the receive buffer has room and holds nothing whole |
| PeerHistory.DeadlineExact | torrent.c:1628-1645 | a deadline ends a connection exactly when the other end never introduced itself or was silent past its time, and otherwise asks for a keep-alive exactly when it is our turn |
| PeerHistory.MoreArrived | torrent.c:2244-2250 | what arrived behind a drained buffer leaves exactly those bytes still to be told |
| PeerHistory.HandshakeTaken | torrent.c:2467-2492 | dropping a good handshake and telling of it keeps the reading of the whole stream |
| PeerHistory.MessageTaken | torrent.c:2528-2570 | dropping a message, told of or stepped over, keeps the reading of the whole stream |
| PeerHistory.ConversationGoesOn | torrent.c:1568-1675 | what has been queued in each state is the greeting, whole and in order, and then keep-alives |
| PeerHistory.GreetingFits | torrent.c:2254-2344 | before the handshake arrives at most 68 bytes are queued, so that the greeting is never dropped |
| PeerHistory.AllCarried | torrent.c:2368-2402 | carrying out a whole answer leaves exactly the conversation the new state stands for, missing at most counted keep-alives |
| PeerHistory.ThinnedCounts | torrent.c:2295-2302 | what was said and what was queued differ by as many keep-alives as were dropped, and by nothing else |
| PeerHistory.SomeTaken | torrent.c:2193-2200 | acknowledged bytes followed by the send buffer stay the encodings of what was queued |
| PeerHistory.OtherEndReads | torrent.c:2132-2205 | however much of it the kernel took, the other end reads the handshake and the first of the same messages, never nonsense |
| Bitset.Ffs | torrent.c:1899-1906 | find-first-set is one more than the lowest bit, and zero exactly for no bit |
| Bitset.SetAndClear | torrent.c:1907-1912 | setting and clearing a bit touch that bit alone |
| Bitset.WithoutHas | torrent.c:2710 | what is left of a word when the visited bits are masked off |
| Bitset.ZeroIsEmpty | torrent.c:2711-2715 | a word is zero exactly when it has no bit |
| PeerPool.Pool.Acquire | torrent.c:1892-1939 | the bitset stands for a set of slots: the lowest free one is handed out, or none exactly when all are occupied |
| PeerPool.Pool.Release | torrent.c:1941-1962 | an occupied slot, and no other, goes free |
| PeerConnection.MoveToFront | torrent.c:2195-2199 | the bytes moved are at the front and the rest is untouched |
| PeerConnection.TorrentPeer.HangUp | torrent.c:2030-2053 | the slot goes back at once only when nothing is in flight and the close is refused; otherwise it stays until what is outstanding reports |
| PeerConnection.TorrentPeer.Release | torrent.c:1941-1962 | only with nothing outstanding and the socket given up once: the slot is zeroed and leaves the pool, and the connection's history is complete |
| PeerConnection.TorrentPeer.Run | torrent.c:1560-1683 | the actor's fields and answer are the pure ones |
| PeerConnection.TorrentPeer.QueueHandshake | torrent.c:2254-2284 | the 68 bytes, behind nothing |
| PeerConnection.TorrentPeer.QueueKeepAlive | torrent.c:2289-2307 | four zero bytes behind what is queued, or counted as dropped exactly when there is no room |
| PeerConnection.TorrentPeer.QueueMsgEmpty | torrent.c:2312-2344 | the whole message behind what is queued, or nothing of it |
| PeerConnection.TorrentPeer.Dispatch | torrent.c:2357-2406 | one legal event told, its whole answer carried out; the connection goes on exactly when the answer holds no Close; reads, the buffers behind them and the write in flight stay where they are |
| PeerConnection.TorrentPeer.Pump | torrent.c:2422-2448 | afterwards a read is in flight and a write exactly when there is something to send, or a submission was refused and the connection is closing |
| PeerConnection.TorrentPeer.DrainMessages | torrent.c:2494-2575 | every whole message is told of, in order, at the one instant; the bound on the passes is never what ends it |
| PeerConnection.TorrentPeer.Tick | torrent.c:2453-2580 | what is new in the stream is told, each event once, and nothing else is |
| PeerConnection.TorrentPeer.ReadDestination | torrent.c:2107-2130 | while a read is in flight the kernel's pointer is the end of what is buffered, there is room, and nothing whole is buffered that a tick could shift away |
| PeerConnection.TorrentPeer.BetweenCallbacks | torrent.c:1964-1998 | what every run keeps of a connection: operations outstanding, read destination, write slice, deadlines, the stream read and the stream written |
| PeerConnection.TorrentPeer.Digest | torrent.c:2231-2250 | bytes that arrived are appended to what was received and exactly the events they complete are told |
| PeerConnection.TorrentPeer.OnRead | torrent.c:2207-2250 | the bytes at the kernel's pointer are appended to what was received, and exactly the events they complete are told; failure or end of file is one Hangup; while closing nothing is told |
| PeerConnection.TorrentPeer.OnWrite | torrent.c:2157-2205 | exactly the bytes taken are acknowledged and nothing is told; failure is one Hangup; while closing nothing changes |
| PeerConnection.TorrentPeer.OnClose | torrent.c:2001-2022 | the slot is handed back and the history is complete |
| PeerConnection.TorrentPeer.Welcome | torrent.c:2585-2660 | a fresh slot is told Accepted and nothing else; it goes on exactly when nothing was refused |
| PeerConnection.TorrentPeer.Expire | torrent.c:2731-2751 | one Deadline told; the slot stays; it is the end exactly for who never introduced itself or was silent past its time; a keep-alive goes out, or is counted as dropped, exactly when it is our turn to speak; alive means a deadline ahead, read before the pump |
| PeerConnection.TorrentPeer.KernelFills | torrent.c:2120-2125 | bytes landing where a pending read points disturb nothing |
| PeerNetwork.WaitNs | torrent.c:2758-2769 | the wait is between 1 ns and 5 s, never past the earliest deadline, and is that deadline when it is nearer |
| PeerNetwork.Network.OnAccept | torrent.c:2628-2660 | the lowest free slot, or the socket is given up exactly when the pool is full |
| PeerNetwork.Network.ReadReports | torrent.c:2207-2250 | one slot changes, by exactly what was reported; every other is as it was |
| PeerNetwork.Network.WriteReports | torrent.c:2157-2205 | one slot changes, by exactly what was reported; every other is as it was |
| PeerNetwork.Network.CloseReports | torrent.c:2001-2022 | the slot is free afterwards with its history as it was; every other is as it was |
| PeerNetwork.Network.Happens | main.c:279-288 | each report, arrival and turn does to its connection exactly what it says: a hang-up for a failure, the bytes that arrived, the bytes taken, a deadline to the due alone |
| PeerNetwork.Network.Visit | torrent.c:2721-2754 | a peer that is closing or not due is left alone; one that is due is told so; the answer stays ahead and no later than its deadline |
| PeerNetwork.Network.DeadlinesRun | torrent.c:2683-2752 | each occupied slot is visited exactly once and in order; only the due are called; the answer is ahead, is somebody's deadline, and is no later than any of a connection that is not closing; nobody leaves |
| PeerNetwork.Network.Turn | main.c:279-285 | a turn of the loop waits between 1 ns and 5 s and not past a deadline |
| PeerNetwork.Network.Serve | main.c:279-288 | the invariant of the pool and every connection holds through any schedule of reports, arrivals and turns; a slot whose read is never reported is never freed |
| PeerNetwork.Network.Ledger | torrent.c:2024-2053 | every connection accepted was turned away, has left with its history complete and its socket given up once, or is here; free slots are zero |
| Bencode.BytesCmp | torrent.c:139-161 | the sign says which comes first: where the two first differ it has the smaller byte, or it ends there |
| Bencode.LessExact | torrent.c:139-161 | the recursive order is that one |
| Bencode.ValidateDict | torrent.c:164-206 | true exactly for keys and values in turn, keys byte strings in strictly ascending order |
| Bencode.DictShapeExact | torrent.c:164-206 | that is: of any two keys the earlier one has the smaller byte where they first differ, or ends there |
| Bencode.CanonicalExact | torrent.c:164-206 | so are all dicts in a value the parser may answer with, however deep |
| Bencode.Spelled | torrent.c:208-378 | one value of every form, as the characters it is spelled with |
| Bencode.SpelledOrder | torrent.c:164-206 | keys `a`, `b` are a dict and `b`, `a` are none |
| Bencode.KeysAscendAll | torrent.c:164-206 | no key of a valid dict occurs twice |
| BencodeParser.BencodeParseNum | torrent.c:40-92 | the calls and checks of the code come to the reading of numbers the next two rows are about |
| BencodeParser.EncodingOfParsedNum | torrent.c:40-92 | a number read fits an isize, and its one canonical encoding is what was consumed |
| BencodeParser.ParseNumOfEncoding | torrent.c:40-92 | the encoding of every isize reads back, whatever is behind it |
| BencodeParser.BencodeParseBytes | torrent.c:93-134 | the calls and checks of the code come to the reading of byte strings the next two rows are about |
| BencodeParser.EncodingOfParsedStr | torrent.c:93-134 | a byte string read is the one whose canonical encoding was consumed |
| BencodeParser.ParseStrOfEncoding | torrent.c:93-134 | the encoding of every byte string reads back, whatever is behind it |
| BencodeParser.CloseContainer | torrent.c:274-326 | the children leave the value stack, a dict checked, and the container takes their place |
| BencodeParser.BencodeParse | torrent.c:208-378 | the array machine is the specification machine, its stacks never outgrown |
| BencodeParser.ReadingBounded | torrent.c:226-235 | two bytes a value and one an open container bound the stacks by what was consumed |
| BencodeParser.ChargeIsTake | torrent.c:298-311 | the arena is charged exactly the cells of the value, as if taken at once |
| BencodeParser.ParseExact | torrent.c:208-378 | success exactly when the input starts with the encoding of a value with well ordered dicts nested at most 128 deep and there is the memory; the answer is that value and what is behind it |
| BencodeEncoder.BencodeEncodeExactSize | torrent.c:957-992 | the size is that of the encoding |
| BencodeEncoder.BencodeEncodeRec | torrent.c:995-1048 | the encoding is written where asked and nothing else is touched |
| BencodeEncoder.BencodeEncode | torrent.c:1067-1085 | exactly the encoding, in a buffer of exactly its size, or out of memory |
| BencodeEncoder.EncodeThenParse | torrent.c:208-1085 | the value and the suffix come back exactly when nested at most 128 deep with the memory for it |
| BencodeEncoder.PrefixFree | torrent.c:958-1048 | no encoding is the front of another |
| BencodeEncoder.EncoderOutrunsParser | torrent.c:995-999 | a value the encoder's asserts admit that the parser refuses |
| Decimal.ParseDigitsInverse | lib.c:1717-1777 | a number is read exactly where its one canonical spelling stands in front of something that is not a digit |
| Decimal.AsciiNumParse | lib.c:1717-1777 | the digit loop reads that, and never runs out of its 30 rounds |
| Decimal.EncodeUsizeBase10 | lib.c:1806-1828 | the canonical digits, in place |
| Decimal.EncodeIsizeBase10 | lib.c:1830-1848 | the sign and the digits, also of the most negative number |
| Decimal.IsizeFromUsize | lib.c:153-165 | succeeds exactly when the signed value fits, and is it |
| Merkle.MerkleTreeMake | torrent.c:491-559 | depth, piece depth and counts for every non-empty file and every power-of-two piece length of at least a block: the asserted facts hold |
| Merkle.BuildSubTree | torrent.c:565-621 | a subtree's root is its node of the level-by-level fold, and the entries it records are its pieces' roots, each once and in order |
| Merkle.BuildMerkleTree | torrent.c:626-685 | the piece layer is written exactly once each and holds the pieces' roots; the root is that of the zero-padded leaf layer; and however the file is cut into blocks, the last of 1 to 16384 bytes, both are the trees over those blocks |
| Merkle.RootIsTree | torrent.c:565-605 | the root is the least tree over the file's blocks, left half before right, zeroes where there is no block |
| Merkle.PieceRootIsTree | torrent.c:606-620 | an entry is the tree over its piece's own blocks |
| Merkle.LeafOfBlock | torrent.c:574-592 | a leaf is the digest of its block, the short last one too, or zeroes past the end |
| Merkle.CutExists | torrent.c:574-592 | every file can be so cut |
| Merkle.LayerIsPieceRoots | torrent.c:606-620 | a layer entry is the root of the perfect tree over that piece alone |
| Merkle.RootFromLayer | torrent.c:565-685 | the published piece layer padded with all-padding roots folds to the file's root |
| Merkle.PieceLayerFits | torrent.c:511-545 | more than one piece means leaves below the pieces and room in the layer |
| Merkle.FoldIsRootOfSlice | torrent.c:565-605 | a node of a layer is the root of the slice below it |
| PowersOfTwo.NextPowerOfTwo | lib.c:1530-1548 | the smallest power of two not below its argument |
| PowersOfTwo.Log2CeilIs | torrent.c:500-520 | the depth is the least one with room for the blocks |
| PowersOfTwo.Log2CeilUnique | torrent.c:500-520 | and no other depth is |
| PowersOfTwo.CeilDivTwice | torrent.c:500-530 | counting pieces in bytes or in blocks is the same |
| Sha256.Sha256Compress | sha2.c:98-147 | the compression of section 6.2.2 of FIPS 180-4 |
| Sha256.Sha256CompressBlocks | sha2.c:263-280 | the fold over whole blocks |
| Sha256.CompressAllAppend | sha2.c:263-280 | folding two runs of blocks is folding them together |
| Sha256.PaddingIsLeast | sha2.c:341-360 | the padding of section 5.1.1 makes whole blocks, and no shorter one does |
| Sha256.PaddedExact | sha2.c:341-360 | the bit length in the padding is the message's exactly below 2^61 bytes, and the padding is then that of the standard |
| Sha256.Sha256Ctx.Update | sha2.c:291-339 | the state stands for everything fed in, however it was cut |
| Sha256.Sha256Ctx.Final | sha2.c:341-367 | the digest of everything fed in, of whatever length, and the context wiped |
| Sha256.Sha256Digest | sha2.c:369-374 | the digest of the message |
| Sha256.Sha256DigestPair | sha2.c:389-397 | the digest of the concatenation |
| Sha256Example.DigestAbc | sha2.c:98-147 | the digest of "abc" is the published one, every word of the schedule and every round worked out |
| Sha256Example.InitialRoots | sha2.c:284-288 | the first hash is the square roots of the first eight primes |
| Sha256Example.Roots0 | sha2.c:54-68 | constants 0 to 7 are the cube roots of the primes from 2 to 19 |
| Sha256Example.Roots8 | sha2.c:54-68 | constants 8 to 15 are the cube roots of the primes from 23 to 53 |
| Sha256Example.Roots16 | sha2.c:54-68 | constants 16 to 23 are the cube roots of the primes from 59 to 89 |
| Sha256Example.Roots24 | sha2.c:54-68 | constants 24 to 31 are the cube roots of the primes from 97 to 131 |
| Sha256Example.Roots32 | sha2.c:54-68 | constants 32 to 39 are the cube roots of the primes from 137 to 173 |
| Sha256Example.Roots40 | sha2.c:54-68 | constants 40 to 47 are the cube roots of the primes from 179 to 223 |
| Sha256Example.Roots48 | sha2.c:54-68 | constants 48 to 55 are the cube roots of the primes from 227 to 263 |
| Sha256Example.Roots56 | sha2.c:54-68 | constants 56 to 63 are the cube roots of the primes from 269 to 311 |
| Sha256Example.ChBitwise | sha2.c:98-147 | the choice takes each bit from the one or the other |
| Sha256Example.MajBitwise | sha2.c:98-147 | the majority is what two of the three have |
| EpollTable.InitialInv | linux.c:466-500 | the table starts with every slot free and linked |
| EpollTable.SubmitKeeps | linux.c:114-140 | a submission keeps every list linked with its right tail |
| EpollTable.DetachKeeps | linux.c:251-265 | cutting off the chain keeps the invariant |
| EpollTable.BeginKeeps | linux.c:258-268 | first tries come in the order of submission |
| EpollTable.ArmKeeps | linux.c:147-214 | arming keeps the count exact |
| EpollTable.FinishKeeps | linux.c:102-112 | a freed slot heads the free list |
| EpollTable.GivenBack | linux.c:216-249 | the next submission is given the slot just handed back |
| EpollTable.Conservation | linux.c:83-140 | as many submissions are outstanding as indices are in use, so that the table refuses one exactly when every index holds another |
| EpollTable.FiveClasses | linux.c:83-140 | while nothing is lost every index is free, submitted, detached, running or armed, the armed ones being counted, and the five add up to the table |
| EpollTable.SubmitExclusive | linux.c:142-146 | a submission keeps one operation on a descriptor exactly when none in use is on its descriptor |
| EpollTable.FinishExclusive | linux.c:102-112 | handing a slot back keeps one operation on a descriptor |
| EpollTable.NothingWatched | linux.c:142-146 | with one operation on a descriptor, an operation that has its turn finds nothing watched on its own |
| EpollTable.ArmLoses | linux.c:142-146 | arming loses exactly what was watched on its descriptor, which is then never called back |
| EpollTable.ReadLostToWrite | linux.c:142-146 | a run in which a connection's read is lost to its write |
| EpollLoop.PlatformLinux.OpAlloc | linux.c:83-100 | the head of the free list, or none exactly when all are in use |
| EpollLoop.PlatformLinux.Submit | linux.c:114-140 | taken to the end of the line exactly when a slot is free |
| EpollLoop.PlatformLinux.Arm | linux.c:147-214 | armed with the exact effect on what was watched, or nothing changed |
| EpollLoop.PlatformLinux.Callback | linux.c:241-249 | a callback submits any number of times and disturbs nothing in use; one that submits only on descriptors nothing is on keeps one operation on each |
| EpollLoop.PlatformLinux.Advance | linux.c:216-249 | armed exactly when it has to wait, can, and the kernel takes it; else called back once, after its slot is free; nothing is lost while there is one operation on a descriptor |
| EpollLoop.PlatformLinux.RunForNs | linux.c:251-326 | everything submitted before the turn is tried, in order; what callbacks submit waits for the next; with one operation on a descriptor the turn keeps it so and loses nothing |
| EpollLoop.PlatformLinux.AskKernel | linux.c:283-326 | each report disarms its own operation; none is lost by it |
| EpollLoop.PlatformLinux.Serve | linux.c:251-326 | turn after turn, with submissions in between: with one operation on a descriptor nothing taken is ever lost |
| Http.Find | lib.c:1943-1977 | the least place the needle stands at, or that there is none |
| Http.CutFirst | lib.c:1983-2012 | the cut is around the first occurrence |
| Http.ParseFieldLineExact | http.c:80-135 | exactly the field lines of the grammar are taken, each as the one header it spells |
| Http.CharactersExact | http.c:42-79 | the characters of a token, of white space and of a field value are those of RFC 9110 |
| Http.StartLineExact | http.c:290-367 | a start line is read exactly where its method, URL and any two digits of version stand spelled, and as those |
| Http.VersionExact | http.c:346-363 | the version is exactly "HTTP/", a digit, a dot and a digit, each as itself |
| Http.NameSpelled | http.c:305-325 | the eight methods by their names |
| Http.ReadFieldLine | http.c:80-135 | the cursors come to the same |
| Http.ParseHeaders | http.c:137-188 | the array holds the headers in order, at most the cap; the bound on the lines is never what ends the loop |
| Http.ParseRequest | http.c:370-408 | the method, URL, version, headers and body start of the specification, or its error |
| Http.RequestStable | http.c:370-408 | any answer but Again is unchanged by more bytes |
| HttpBuilder.BytesBuffer.Extend | lib.c:1894-1910 | all of it or none, exactly by the room |
| HttpBuilder.BuildRequest | http.c:503-578 | the request, never outgrowing its sized buffer; nothing exactly when the arena has no room |
| HttpBuilder.BuildThenParse | http.c:370-578 | the request reads back as itself exactly when the URL is not empty and has no space and no blank line, every header is legal, and they fit the cap; whatever the body |
| HttpBuilder.BuildOverflows | http.c:137-188 | headers that do not fit the cap are refused as too many |
| FreeList.Pool.constructor | lib.c:2080-2119 | every chunk free, in address order |
| FreeList.Pool.Acquire | lib.c:2121-2141 | the chunk given back last, all of it zeroed; none exactly when all are acquired |
| FreeList.Pool.Release | lib.c:2143-2157 | an acquired chunk heads the free list, and only its first word is written |
| FreeList.Pool.Scribble | lib.c:2040-2047 | an owner writing where the link was disturbs no list |
| FreeList.Partition | lib.c:2040-2060 | free and acquired chunks are all the chunks, each once |
| HttpServer.Start | http.c:220-244 | both pools, or nothing exactly when one does not fit the arena |
| HttpServer.Server.Init | http.c:246-273 | a handler acquired means a block for it |
| HttpServer.Server.Release | http.c:275-285 | block and handler go back together, only with nothing outstanding and the socket given up once |
| HttpServer.Server.Close | otel.c:78-95 | a hang-up outstanding, or refused and cleaned up on the spot |
| HttpServer.Server.OnRead | otel.c:112-219 | more is waited for, a whole HTTP/1 request is answered and the body behind its head handed on, anything else ends the connection |
| HttpServer.Server.OnWrite | otel.c:97-110 | the connection ends |
| HttpServer.Server.OnClose | otel.c:61-76 | both chunks go back |
| HttpServer.Server.OnAccept | otel.c:221-248 | turned away exactly when every handler is in use; otherwise waiting for a request, unless refused |
| HttpServer.BusyMeans | otel.c:112-219 | a handler waits for more of an incomplete request it has room for, or answers a whole one whose body it handed on, or hangs up |
| HttpServer.Server.Happens | otel.c:61-248 | each report does to its connection exactly what the reads call for, and logs exactly the spans handed on |
| HttpServer.Server.Serve | otel.c:61-248 | through any schedule of connections and reports, and any refusals, the pools stay in step and every connection is accounted for |
| HttpServer.Server.Ledger | http.c:246-285 | as many handlers in use as blocks; whoever is here or has left received and handed on exactly what its reads say, and whoever left had its socket given up once |
| HttpConversation.TalkMeans | otel.c:112-219 | whatever the reads, what is waited for says what was received, and what was handed on is the body of that |
| HttpConversation.FollowExact | otel.c:112-219 | a whole request of any version 1 is answered, an incomplete one with room left in 8192 bytes is waited for, and everything else ends the connection |
| HttpConversation.WaitsForHead | otel.c:112-152 | until the head is whole the answer is to wait, and nothing is handed on |
| HttpConversation.HandedOnWhenCut | otel.c:178-196 | however a request and its body are cut into reads, what is handed on is what stood behind the head after the read that completed it: all of the body exactly when that read was the last |
| HttpConversation.HeadTooBig | otel.c:112-152 | a head that fills the buffer before it is whole ends the connection with nothing handed on |
| HttpConversation.BodyCutOff | otel.c:178-196 | a head in one read and its body in the next: nothing of the body is handed on |
| HttpConversation.BodyCutOffExample | otel.c:178-196 | one posted byte for which it fails |
| HttpConversation.LogSpans | otel.c:178-200 | the spans logged are those of the body handed on, or none when anything is wrong with it or they are too many |
| HttpConversation.TracesLogged | otel.c:178-200 | of a body that is traces exactly its spans are logged, in order, when values nest at most 32 deep and they are at most 1024; otherwise none |
| HttpConversation.WrongNotLogged | otel.c:178-200 | of a body with a field mistyped anywhere nothing is logged |
| HttpConversation.PostedTracesLogged | otel.c:112-219 | traces posted and there in full by the read that completes the head are logged |
| Protobuf.VarintRead | lib.c:2176-2205 | the 64 bit number in at most ten groups in front, or refused |
| Protobuf.VarintRoundTrip | lib.c:2176-2205 | reading inverts the base-128 encoding of every 64 bit number, whatever is behind it |
| Protobuf.TlvRead | lib.c:2207-2298 | the record in front, or its error |
| Protobuf.RecordRoundTrip | lib.c:2207-2298 | every record written reads back, whatever is behind it |
| Protobuf.RecordsSpelled | lib.c:2207-2298 | a record of each wire type, byte by byte |
| Protobuf.TagRefused | lib.c:2207-2298 | field zero, groups and unknown wire types are refused, each as it is |
| Protobuf.RecordIsFramed | otel.c:259-283 | a value is the last bytes of its record, of the size its wire type says, and more bytes change nothing |
| Otel.Check | otel.c:576-1025 | the first thing wrong in wire order, found in as many rounds as there are bytes |
| Otel.DepthKept | otel.c:576-772 | no check is begun deeper than its assert allows |
| Otel.ParseSpan | otel.c:1078-1227 | the span its records spell, the last of a field winning |
| Otel.Collect | otel.c:1229-1345 | the nested spans added in wire order, or stopped by the first error or the end of the array |
| Otel.ParseTraces | otel.c:1347-1391 | success exactly when nothing is wrong and the spans fit; then the array holds exactly the nested spans |
| OtelEncoding.TreeExact | otel.c:576-1025 | a message of any kind and any shape the schema allows is taken exactly when its values nest at most 32 deep from where it stands; one too deep anywhere and it is refused whole |
| OtelEncoding.PayloadExact | otel.c:1229-1391 | a whole payload is refused exactly when an attribute anywhere nests deeper than 32, and the spans collected are those written, in order |
| OtelEncoding.TreeSpansBack | otel.c:1229-1345 | the spans collected from a written message are the ones in its tree |
| OtelEncoding.AnyExact | otel.c:576-772 | an attribute value, in any of its eight forms, is taken exactly when it nests no deeper than 32 values from where it stands |
| OtelTraces.PartsFit | otel.c:774-1227 | every message an exporter writes, with each field's own wire type, has the shape the schema asks for and is as deep as its attribute values |
| OtelTraces.MistypedIsWrong | otel.c:774-1227 | a field of any message with another wire type is wrong |
| OtelTraces.MisfitId | otel.c:1095-1135 | a trace id that is not sixteen bytes, a span id that is not eight, a parent that is neither eight nor none are wrong |
| OtelTraces.MistypedValue | otel.c:576-772 | so is a field of an attribute value or a pair |
| OtelTraces.WrongRefused | otel.c:259-283 | anything wrong, however deep, has the whole refused |
| OtelTraces.LaterValue | otel.c:576-772 | fields of a later schema are stepped over in attribute values |
| OtelTraces.SpanBack | otel.c:1029-1227 | a span written with its fields in any order, any number of times, reads back with the last of each |
| OtelTraces.TracesBack | otel.c:1229-1391 | traces with whatever resources, scopes, spans, events, links, status and later fields are refused whole exactly when an attribute value nests deeper than 32, and otherwise read as the same spans in order |
| ArenaAllocator.AllocExact | lib.c:210-242 | memory starts at the next multiple of eight and lies inside the arena, or there is none exactly when it would not |
| Bytes.U32Weights | lib.c:449-480 | the most significant byte of a word comes first |

## Left out

- Syscalls, `errno` mapping, sockets, `mmap`, DNS, threads: the kernel is an unspecified choice within what it was asked for.
- darwin.c, win32.c, the NEON SHA-256 and CPU feature detection.
- Liveness: whether an operation ever reports is the kernel's business, and release is stated as safety.
- Logging, printing, names for people, command-line handling, guard pages.
- Path helpers, the UDP broadcast text, the metainfo and info dict builders, file composites and the HTTP response parser: easy next to what is here.
- Arenas are start and end addresses without a top: the overflow asserts of the allocator are not modelled, nor what the allocated memory holds.
- The actor's scratch array of eight commands is a returned sequence; the bound and the rule on Close are kept.
- The parsers take and answer byte sequences and leave the caller's cursor to the caller; a failed parse answers an error and nothing else.
- `Merkle.BuildMerkleTree`: the comparison with a poison byte at the end is replaced by the sequence of entries written.
- `EpollTable`: a completion is its submission number; which callback a completion points at is not modelled. `armed` per descriptor follows EPOLL_CTL_ADD falling back to EPOLL_CTL_MOD.
- `PeerNetwork`: the clock is the caller's and more than four minutes short of its end; a peer's address and logger are not kept.
- `Http`: response status lines.
- `HttpServer`: the handler's headers array and response bytes live in its block and are not kept.
- `EpollLoop.PlatformLinux.Callback`: a callback that closes at once a descriptor on which an operation is armed is not modelled; one that closes a descriptor nothing is on is, and changes nothing (`EpollTable.NothingOn`).
- `OtelTraces.TracesBack`: numbers are written with the fewest groups and a pair's key before its value; any other spelling is covered by `Otel.ParseTraces` and `OtelEncoding.TreeExact`, not by this.
- `Otel.ParseTraces`: attribute values, events, links and flags are checked against the schema and not kept, as in the code.

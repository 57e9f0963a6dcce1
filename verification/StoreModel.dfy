/**
 The contents of the two column families and what each store operation does to them,
 stated without loops, batches or iterators.
 */
module StoreModel {
  import opened ByteStrings
  import opened KeyCodec

  const STREAMS_VALUE_LENGTH: nat := 24
  const PACKETS_HEADER_LENGTH: nat := 9
  const PACKET_VERSION_ONE: Byte := 1

  /** The wire tag of the packet's last field, its sequence number: field 7, wire type 0 (a varint). */
  const SEQUENCE_NUMBER_TAG: Byte := 7 * 8 + 0

  /** A packet; payload stands for the serialized bytes of every field before the sequence number. */
  datatype Packet = Packet(identifier: Identifier, sequenceNumber: U64, payload: Bytes)

  /** A packet and the nanosecond time at which it was received. */
  datatype Received = Received(at: I64, packet: Packet)

  datatype Database = Database(packets: map<Bytes, Bytes>, streams: map<Bytes, Bytes>)

  const EMPTY := Database(map[], map[])

  /** A registry value: min_seq(8) | max_seq(8) | last_received_ns(8). */
  datatype Entry = Entry(minSeq: U64, maxSeq: U64, lastReceived: I64)

  // ------------------------------------------------------------------ values

  function EncodeEntry(e: Entry): (v: Bytes)
    ensures |v| == STREAMS_VALUE_LENGTH
  {
    Encode64(e.minSeq) + Encode64(e.maxSeq) + Encode64(ToUnsigned(e.lastReceived))
  }

  function DecodeEntry(v: Bytes): Entry
    requires |v| >= STREAMS_VALUE_LENGTH
  {
    Entry(Decode64(v[0..8]), Decode64(v[8..16]), ToSigned(Decode64(v[16..24])))
  }

  lemma EntryRoundTrip(e: Entry)
    ensures DecodeEntry(EncodeEntry(e)) == e
  {
    var v := EncodeEntry(e);
    assert v[0..8] == Encode64(e.minSeq);
    assert v[8..16] == Encode64(e.maxSeq);
    assert v[16..24] == Encode64(ToUnsigned(e.lastReceived));
    Encode64RoundTrip(e.minSeq);
    Encode64RoundTrip(e.maxSeq);
    Encode64RoundTrip(ToUnsigned(e.lastReceived));
  }

  /** Where a registry value keeps its fields: min, max, then the time's 64 bits, each big-endian. */
  lemma EntryLayout(e: Entry)
    ensures var v := EncodeEntry(e);
            && Decode64(v[0..8]) == e.minSeq && Decode64(v[8..16]) == e.maxSeq
            && Decode64(v[16..24]) == e.lastReceived % TWO64
  {
    hide Encode64, Decode64;
    var v := EncodeEntry(e);
    assert v[0..8] == Encode64(e.minSeq);
    assert v[8..16] == Encode64(e.maxSeq);
    assert v[16..24] == Encode64(ToUnsigned(e.lastReceived));
    Encode64RoundTrip(e.minSeq);
    Encode64RoundTrip(e.maxSeq);
    Encode64RoundTrip(ToUnsigned(e.lastReceived));
    CastsKeepBits(e.lastReceived, 0);
  }

  lemma EntryValueRoundTrip(v: Bytes)
    requires |v| == STREAMS_VALUE_LENGTH
    ensures EncodeEntry(DecodeEntry(v)) == v
  {
    SlotRoundTrips(v[0..8]);
    SlotRoundTrips(v[8..16]);
    SlotRoundTrips(v[16..24]);
    ThreeSlots(v);
  }

  lemma SlotRoundTrips(s: Bytes)
    requires |s| == 8
    ensures Encode64(Decode64(s)) == s
    ensures Encode64(ToUnsigned(ToSigned(Decode64(s)))) == s
  {
    Decode64RoundTrip(s);
    assert ToUnsigned(ToSigned(Decode64(s))) == Decode64(s);
  }

  lemma ThreeSlots(v: Bytes)
    requires |v| == STREAMS_VALUE_LENGTH
    ensures v[0..8] + v[8..16] + v[16..24] == v
  {
  }

  /** A packet value: recv_time_ns(8) | version(1) | payload. */
  function EncodeValue(at: I64, payload: Bytes): (v: Bytes)
    ensures |v| >= PACKETS_HEADER_LENGTH
  {
    Encode64(ToUnsigned(at)) + [PACKET_VERSION_ONE] + payload
  }

  function ReceivedAt(v: Bytes): I64
    requires |v| >= PACKETS_HEADER_LENGTH
  {
    ToSigned(Decode64(v[0..8]))
  }

  function PayloadOf(v: Bytes): Bytes
    requires |v| >= PACKETS_HEADER_LENGTH
  {
    v[PACKETS_HEADER_LENGTH..]
  }

  /** A stored value gives back the receipt time, negative ones included, and the payload. */
  lemma ValueRoundTrip(at: I64, payload: Bytes)
    ensures ReceivedAt(EncodeValue(at, payload)) == at
    ensures PayloadOf(EncodeValue(at, payload)) == payload
  {
    var v := EncodeValue(at, payload);
    assert v[0..8] == Encode64(ToUnsigned(at));
    Encode64RoundTrip(ToUnsigned(at));
    assert v[PACKETS_HEADER_LENGTH..] == payload;
  }

  /** Where a packet value keeps its parts: the time's 64 bits, version 1, and the packet from byte 9 on. */
  lemma ValueLayout(at: I64, payload: Bytes)
    ensures var v := EncodeValue(at, payload);
            Decode64(v[0..8]) == at % TWO64 && v[8] == 1 && v[9..] == payload
  {
    hide Encode64, Decode64;
    assert EncodeValue(at, payload)[0..8] == Encode64(ToUnsigned(at));
    Encode64RoundTrip(ToUnsigned(at));
    CastsKeepBits(at, 0);
  }

  /** Base-128 digits, least significant first; all but the last carry a continuation bit. */
  function Varint(n: nat): Bytes {
    if n < 128 then [n] else [n % 128 + 128] + Varint(n / 128)
  }

  /** Reads a varint off the front of some bytes. */
  function ReadVarint(v: Bytes): nat {
    if v == [] then 0 else if v[0] < 128 then v[0] else v[0] - 128 + 128 * ReadVarint(v[1..])
  }

  lemma {:induction false} VarintRoundTrip(n: nat)
    ensures ReadVarint(Varint(n)) == n
  {
    if n >= 128 {
      VarintRoundTrip(n / 128);
      assert Varint(n)[1..] == Varint(n / 128);
    }
  }

  /** What a packet is stored as: its number comes last, so numbering changes only the tail. */
  function Serialized(p: Packet): Bytes {
    p.payload + [SEQUENCE_NUMBER_TAG] + Varint(p.sequenceNumber)
  }

  /** The serialized bytes carry the number the key carries; renumbering changes nothing before it. */
  lemma SerializedCarriesNumber(p: Packet)
    ensures |Serialized(p)| > |p.payload| + 1
    ensures Serialized(p)[..|p.payload| + 1] == p.payload + [SEQUENCE_NUMBER_TAG]
    ensures ReadVarint(Serialized(p)[|p.payload| + 1..]) == p.sequenceNumber
  {
    VarintRoundTrip(p.sequenceNumber);
    assert Serialized(p)[|p.payload| + 1..] == Varint(p.sequenceNumber);
  }

  // ---------------------------------------------------------------- registry

  /** A registry entry the code is willing to read. */
  predicate Registered(streams: map<Bytes, Bytes>, s: Bytes) {
    s in streams && |streams[s]| >= STREAMS_VALUE_LENGTH
  }

  function EntryOf(streams: map<Bytes, Bytes>, s: Bytes): Entry
    requires Registered(streams, s)
  {
    DecodeEntry(streams[s])
  }

  ghost predicate IsGlobalMax(streams: map<Bytes, Bytes>, m: U64) {
    && (forall s | Registered(streams, s) :: EntryOf(streams, s).maxSeq <= m)
    && (m == 0 || exists s :: Registered(streams, s) && EntryOf(streams, s).maxSeq == m)
  }

  ghost predicate IsGlobalMin(streams: map<Bytes, Bytes>, m: U64) {
    && (forall s | Registered(streams, s) :: m <= EntryOf(streams, s).minSeq)
    && (m == TWO64 - 1 || exists s :: Registered(streams, s) && EntryOf(streams, s).minSeq == m)
  }

  lemma {:induction false} GlobalBoundsExist(streams: map<Bytes, Bytes>)
    ensures exists m: U64 :: IsGlobalMax(streams, m)
    ensures exists m: U64 :: IsGlobalMin(streams, m)
    decreases |streams.Keys|
  {
    if streams.Keys == {} {
      assert IsGlobalMax(streams, 0);
      assert IsGlobalMin(streams, TWO64 - 1);
    } else {
      var s :| s in streams.Keys;
      var rest := streams - {s};
      assert rest.Keys == streams.Keys - {s};
      GlobalBoundsExist(rest);
      var hi: U64 :| IsGlobalMax(rest, hi);
      var lo: U64 :| IsGlobalMin(rest, lo);
      assert forall t :: Registered(rest, t) <==> Registered(streams, t) && t != s;
      if Registered(streams, s) {
        assert IsGlobalMax(streams, Max(hi, EntryOf(streams, s).maxSeq));
        assert IsGlobalMin(streams, Min(lo, EntryOf(streams, s).minSeq));
      } else {
        assert IsGlobalMax(streams, hi);
        assert IsGlobalMin(streams, lo);
      }
    }
  }

  /** The largest registered max, or 0: the number the broker resumes after. */
  ghost function GlobalMax(streams: map<Bytes, Bytes>): (m: U64)
    ensures IsGlobalMax(streams, m)
  {
    GlobalBoundsExist(streams);
    var m: U64 :| IsGlobalMax(streams, m);
    m
  }

  ghost function GlobalMin(streams: map<Bytes, Bytes>): (m: U64)
    ensures IsGlobalMin(streams, m)
  {
    GlobalBoundsExist(streams);
    var m: U64 :| IsGlobalMin(streams, m);
    m
  }

  lemma GlobalMaxUnique(streams: map<Bytes, Bytes>, m: U64)
    requires IsGlobalMax(streams, m)
    ensures m == GlobalMax(streams)
  {
  }

  lemma GlobalMinUnique(streams: map<Bytes, Bytes>, m: U64)
    requires IsGlobalMin(streams, m)
    ensures m == GlobalMin(streams)
  {
  }

  // -------------------------------------------------------------------- write

  function MergeEntries(a: Entry, b: Entry): Entry {
    Entry(Min(a.minSeq, b.minSeq), Max(a.maxSeq, b.maxSeq), Max(a.lastReceived, b.lastReceived))
  }

  /** e holds the smaller min, the larger max and the later time of a and b. */
  predicate IsMerge(e: Entry, a: Entry, b: Entry) {
    && e.minSeq <= a.minSeq && e.minSeq <= b.minSeq && (e.minSeq == a.minSeq || e.minSeq == b.minSeq)
    && e.maxSeq >= a.maxSeq && e.maxSeq >= b.maxSeq && (e.maxSeq == a.maxSeq || e.maxSeq == b.maxSeq)
    && e.lastReceived >= a.lastReceived && e.lastReceived >= b.lastReceived
    && (e.lastReceived == a.lastReceived || e.lastReceived == b.lastReceived)
  }

  /** Folds e into whatever the registry already says about s. */
  function Merged(streams: map<Bytes, Bytes>, s: Bytes, e: Entry): Entry {
    if Registered(streams, s) then MergeEntries(EntryOf(streams, s), e) else e
  }

  /** Stores one value under stream s and number n, and widens the entry of s. */
  function Put(db: Database, s: Bytes, n: U64, at: I64, payload: Bytes): Database {
    Database(db.packets[s + Encode64(n) := EncodeValue(at, payload)],
             db.streams[s := EncodeEntry(Merged(db.streams, s, Entry(n, n, at)))])
  }

  function SingleEntry(item: Received): Entry {
    Entry(item.packet.sequenceNumber, item.packet.sequenceNumber, item.at)
  }

  predicate Keyable(item: Received) { Encodable(item.packet.identifier) }

  function KeyOf(item: Received): (k: Bytes)
    requires Keyable(item)
    ensures |k| == PACKET_KEY_LENGTH
  {
    PacketKey(item.packet.identifier, item.packet.sequenceNumber).value
  }

  function StreamKeyOf(item: Received): (s: Bytes)
    requires Keyable(item)
    ensures |s| == STREAM_KEY_LENGTH
  {
    StreamKey(item.packet.identifier).value
  }

  /** Storing one packet on its own: its value under its key, its stream's entry widened. */
  function Insert(db: Database, item: Received): Database {
    if !Keyable(item) then db
    else Put(db, StreamKeyOf(item), item.packet.sequenceNumber, item.at, Serialized(item.packet))
  }

  /** Storing packets one after another, each with its own registry update. */
  function InsertAll(db: Database, items: seq<Received>): Database {
    if items == [] then db else Insert(InsertAll(db, items[..|items| - 1]), items[|items| - 1])
  }

  /** The packets no key can be built for, in input order. */
  function Unkeyable(items: seq<Received>): seq<Packet> {
    if items == [] then []
    else
      var last := items[|items| - 1];
      Unkeyable(items[..|items| - 1]) + (if Keyable(last) then [] else [last.packet])
  }

  function PacketsOf(items: seq<Received>): (ps: seq<Packet>)
    ensures |ps| == |items|
    ensures forall i :: 0 <= i < |items| ==> ps[i] == items[i].packet
  {
    seq(|items|, i requires 0 <= i < |items| => items[i].packet)
  }

  lemma ItemKeyParts(item: Received)
    requires Keyable(item)
    ensures StreamOf(KeyOf(item)) == StreamKeyOf(item)
    ensures SequenceOf(KeyOf(item)) == item.packet.sequenceNumber
    ensures KeyOf(item) == StreamKeyOf(item) + Encode64(item.packet.sequenceNumber)
  {
    PacketKeyParts(StreamKeyOf(item), item.packet.sequenceNumber);
  }

  // ----------------------------------------------------------------- truncate

  /** The first sequence number that survives, in 64-bit arithmetic. */
  function CutoffFrom(lo: U64, hi: U64, n: U64): U64 {
    var wanted := (lo + n) % TWO64;
    var limit := (hi + 1) % TWO64;
    if wanted > limit then limit else wanted
  }

  ghost function Cutoff(streams: map<Bytes, Bytes>, n: U64): U64 {
    CutoffFrom(GlobalMin(streams), GlobalMax(streams), n)
  }

  ghost predicate NothingRegistered(streams: map<Bytes, Bytes>) {
    forall s :: !Registered(streams, s)
  }

  /** The number truncateOldest reports after a commit, in 64-bit arithmetic. */
  ghost function PurgedCount(streams: map<Bytes, Bytes>, n: U64): U64 {
    if n == 0 || NothingRegistered(streams) || GlobalMin(streams) > GlobalMax(streams) then 0
    else (Cutoff(streams, n) - GlobalMin(streams)) % TWO64
  }

  /** The registry thinks s may hold something older than the cutoff. */
  predicate Selected(streams: map<Bytes, Bytes>, s: Bytes, cutoff: U64) {
    Registered(streams, s) && EntryOf(streams, s).minSeq < cutoff
  }

  predicate Reaped(streams: map<Bytes, Bytes>, s: Bytes, cutoff: U64) {
    Selected(streams, s, cutoff) && EntryOf(streams, s).maxSeq < cutoff
  }

  predicate InRange(s: Bytes, cutoff: U64, key: Bytes) {
    !Less(key, s + Encode64(0)) && Less(key, s + Encode64(cutoff))
  }

  predicate Purged(streams: map<Bytes, Bytes>, cutoff: U64, key: Bytes) {
    exists s | s in streams :: Selected(streams, s, cutoff) && InRange(s, cutoff, key)
  }

  function AdvancedEntry(e: Entry, cutoff: U64): Entry { e.(minSeq := cutoff) }

  /** A registry entry after a purge up to the cutoff. */
  function AdvancedValue(streams: map<Bytes, Bytes>, s: Bytes, cutoff: U64): Bytes
    requires s in streams
  {
    if Selected(streams, s, cutoff) then EncodeEntry(AdvancedEntry(EntryOf(streams, s), cutoff)) else streams[s]
  }

  /** Deletes the byte range of every selected stream and reaps or advances its entry. */
  function Purge(db: Database, cutoff: U64): Database {
    Database(map k | k in db.packets && !Purged(db.streams, cutoff, k) :: db.packets[k],
             map s | s in db.streams && !Reaped(db.streams, s, cutoff) :: AdvancedValue(db.streams, s, cutoff))
  }

  ghost function Truncate(db: Database, n: U64): Database {
    if PurgedCount(db.streams, n) == 0 then db else Purge(db, Cutoff(db.streams, n))
  }

  // -------------------------------------------------------------------- query

  datatype Request = Request(identifier: Identifier, start: U64)

  datatype Response = Response(packet: Bytes, receivedAt: I64, sequenceNumber: U64)

  predicate KeysAreWide(packets: map<Bytes, Bytes>) {
    forall k | k in packets :: |k| == PACKET_KEY_LENGTH
  }

  /** The keys of one stream from a sequence number on, whose values can be read. */
  function Matching(packets: map<Bytes, Bytes>, s: Bytes, start: U64): set<Bytes>
    requires KeysAreWide(packets)
  {
    set k | k in packets && StreamOf(k) == s && SequenceOf(k) >= start && |packets[k]| >= PACKETS_HEADER_LENGTH
  }

  function ResponseAt(packets: map<Bytes, Bytes>, k: Bytes): Response
    requires k in packets && |k| == PACKET_KEY_LENGTH && |packets[k]| >= PACKETS_HEADER_LENGTH
  {
    Response(PayloadOf(packets[k]), ReceivedAt(packets[k]), SequenceOf(k))
  }

  predicate Readable(packets: map<Bytes, Bytes>, keys: seq<Bytes>) {
    forall k | k in keys :: k in packets && |k| == PACKET_KEY_LENGTH && |packets[k]| >= PACKETS_HEADER_LENGTH
  }

  function Responses(packets: map<Bytes, Bytes>, keys: seq<Bytes>): (rs: seq<Response>)
    requires Readable(packets, keys)
    ensures |rs| == |keys|
  {
    seq(|keys|, i requires 0 <= i < |keys| => assert keys[i] in keys; ResponseAt(packets, keys[i]))
  }

  /** One stream's packets from a sequence number on, in key order. */
  function AnswerOne(packets: map<Bytes, Bytes>, s: Bytes, start: U64): seq<Response>
    requires KeysAreWide(packets)
  {
    SortedKeysMeaning(Matching(packets, s, start));
    Responses(packets, SortedKeys(Matching(packets, s, start)))
  }

  /** The answers to the keyable requests, in request order. */
  function Answer(packets: map<Bytes, Bytes>, requests: seq<Request>): seq<Response>
    requires KeysAreWide(packets)
  {
    if requests == [] then []
    else
      var last := requests[|requests| - 1];
      Answer(packets, requests[..|requests| - 1]) +
      (if Encodable(last.identifier) then AnswerOne(packets, StreamKey(last.identifier).value, last.start) else [])
  }

  // --------------------------------------------------------- available streams

  datatype Available = Available(lastReceived: I64, identifier: Identifier)

  function AvailableAt(streams: map<Bytes, Bytes>, s: Bytes): seq<Available>
    requires s in streams
  {
    if FromStreamKey(s).Err? then []
    else [Available(if Registered(streams, s) then EntryOf(streams, s).lastReceived else 0, FromStreamKey(s).value)]
  }

  function AvailableStreams(streams: map<Bytes, Bytes>, order: seq<Bytes>): seq<Available> {
    if order == [] then []
    else
      var last := order[|order| - 1];
      AvailableStreams(streams, order[..|order| - 1]) + (if last in streams then AvailableAt(streams, last) else [])
  }

  /** Every registered stream, in key order. */
  function Listing(streams: map<Bytes, Bytes>): seq<Available> {
    AvailableStreams(streams, SortedKeys(streams.Keys))
  }
}

/**
 The fixed-width key layout: network(8) | station(8) | location(8) | channel(8) names a
 stream, and eight more big-endian bytes of sequence number name a packet.
 */
module KeyCodec {
  import opened ByteStrings

  const SLOT: nat := 8
  const STREAM_KEY_LENGTH: nat := 32
  const PACKET_KEY_LENGTH: nat := 40

  datatype Option<+T> = None | Some(value: T)

  datatype Result<+T> = Ok(value: T) | Err(error: KeyError)

  datatype Field = Network | Station | Location | Channel

  datatype KeyError =
    | EmptyComponent(field: Field)
    | ComponentTooLong(field: Field)
    | EmbeddedNull(field: Field)
    | WrongLength(actual: nat)

  /** A protobuf identifier; only the location code distinguishes unset from empty. */
  datatype Identifier = Identifier(network: Bytes, station: Bytes, channel: Bytes, location: Option<Bytes>)

  const DASHES: Bytes := [45, 45]

  // ------------------------------------------------------------ components

  function UpperByte(b: Byte): Byte { if 97 <= b <= 122 then b - 32 else b }

  function Upper(v: Bytes): (u: Bytes)
    ensures |u| == |v|
  {
    seq(|v|, i requires 0 <= i < |v| => UpperByte(v[i]))
  }

  predicate LowerCase(b: Byte) { 97 <= b <= 122 }

  /** The j-th letter of the alphabet, in upper and in lower case. */
  predicate CasePair(upper: Byte, lower: Byte, j: nat) { upper == 65 + j && lower == 97 + j }

  /** The same byte, or the same ASCII letter in the other case. */
  predicate SameLetter(a: Byte, b: Byte) {
    a == b || exists j: nat :: j < 26 && (CasePair(a, b, j) || CasePair(b, a, j))
  }

  predicate SameText(u: Bytes, v: Bytes) {
    |u| == |v| && forall i :: 0 <= i < |u| ==> SameLetter(u[i], v[i])
  }

  lemma UpperByteFolds(a: Byte, b: Byte)
    ensures UpperByte(a) == UpperByte(b) <==> SameLetter(a, b)
    ensures !LowerCase(UpperByte(a)) && SameLetter(UpperByte(a), a)
  {
    if 65 <= a <= 90 {
      assert CasePair(a, a + 32, a - 65);
    }
    if 97 <= a <= 122 {
      assert CasePair(a - 32, a, a - 97);
    }
  }

  /** Upper-casing identifies two codes exactly when they agree up to ASCII case. */
  lemma UpperFolds(u: Bytes, v: Bytes)
    ensures Upper(u) == Upper(v) <==> SameText(u, v)
  {
    hide UpperByte, SameLetter;
    forall i | 0 <= i < |u| && |u| == |v| ensures Upper(u)[i] == Upper(v)[i] <==> SameLetter(u[i], v[i]) {
      UpperByteFolds(u[i], v[i]);
    }
  }

  function Zeros(n: nat): (z: Bytes)
    ensures |z| == n
  {
    seq(n, _ => 0)
  }

  predicate HasNull(v: Bytes) { 0 in v }

  /** What a code must satisfy to fit a slot. */
  predicate FitsSlot(v: Bytes) { v != [] && |v| <= SLOT && !HasNull(v) }

  function Pad(v: Bytes): (s: Bytes)
    requires |v| <= SLOT
    ensures |s| == SLOT
  {
    v + Zeros(SLOT - |v|)
  }

  function Component(value: Bytes, field: Field): (r: Result<Bytes>)
    ensures r.Ok? <==> FitsSlot(value)
    ensures r.Ok? ==> r.value == Pad(Upper(value))
  {
    if value == [] then Err(EmptyComponent(field))
    else if |value| > SLOT then Err(ComponentTooLong(field))
    else if HasNull(value) then Err(EmbeddedNull(field))
    else Ok(Pad(Upper(value)))
  }

  /** Byte i of a slot: the code's letter, never in lower case, or zero past the code's end. */
  predicate SlotByte(key: Bytes, offset: nat, code: Bytes, i: nat)
    requires offset + i < |key|
  {
    var b := key[offset + i];
    if i < |code| then SameLetter(b, code[i]) && !LowerCase(b) else b == 0
  }

  predicate SlotHolds(key: Bytes, offset: nat, code: Bytes) {
    offset + SLOT <= |key| && forall i: nat :: i < SLOT ==> SlotByte(key, offset, code, i)
  }

  lemma PaddedSlotHolds(key: Bytes, code: Bytes, rest: Bytes)
    requires FitsSlot(code)
    ensures SlotHolds(key + Pad(Upper(code)) + rest, |key|, code)
  {
    hide UpperByte, SameLetter, LowerCase;
    var whole := key + Pad(Upper(code)) + rest;
    forall i: nat | i < SLOT ensures SlotByte(whole, |key|, code, i) {
      assert whole[|key| + i] == Pad(Upper(code))[i];
      if i < |code| {
        UpperByteFolds(code[i], code[i]);
      }
    }
  }

  /** Why a code does not fit: empty, else too long, else holding a zero byte. */
  predicate Blames(e: KeyError, field: Field, code: Bytes) {
    || (e == EmptyComponent(field) && |code| == 0)
    || (e == ComponentTooLong(field) && |code| > SLOT)
    || (e == EmbeddedNull(field) && |code| <= SLOT && exists i :: 0 <= i < |code| && code[i] == 0)
  }

  /** Appends a code, upper-cased byte by byte and zero-padded, or reports why it does not fit. */
  method AppendPaddedComponent(key: Bytes, value: Bytes, field: Field) returns (r: Result<Bytes>)
    ensures r.Ok? <==> Component(value, field).Ok?
    ensures r.Ok? ==> r.value == key + Component(value, field).value
    ensures r.Err? ==> r.error == Component(value, field).error
    ensures r.Ok? ==> |r.value| == |key| + SLOT && r.value[..|key|] == key && SlotHolds(r.value, |key|, value)
    ensures r.Err? ==> Blames(r.error, field, value)
  {
    if value == [] {
      return Err(EmptyComponent(field));
    }
    if |value| > SLOT {
      return Err(ComponentTooLong(field));
    }
    if HasNull(value) {
      return Err(EmbeddedNull(field));
    }
    var out := key;
    for i := 0 to |value|
      invariant out == key + Upper(value)[..i]
    {
      out := out + [UpperByte(value[i])];
    }
    out := out + Zeros(SLOT - |value|);
    assert out == key + Pad(Upper(value)) + [];
    PaddedSlotHolds(key, value, []);
    r := Ok(out);
  }

  /** Strips the padding of a slot: everything before the first zero byte. */
  function ReadPadded(slot: Bytes): Bytes {
    if slot == [] || slot[0] == 0 then [] else [slot[0]] + ReadPadded(slot[1..])
  }

  lemma {:induction false} ReadPaddedPad(u: Bytes, n: nat)
    requires !HasNull(u)
    ensures ReadPadded(u + Zeros(n)) == u
    decreases |u|
  {
    if u == [] {
      assert u + Zeros(n) == Zeros(n);
    } else {
      assert (u + Zeros(n))[1..] == u[1..] + Zeros(n);
      ReadPaddedPad(u[1..], n);
    }
  }

  /** What is read off a slot runs to its first zero byte, or fills it. */
  lemma {:induction false} ReadPaddedMeaning(slot: Bytes)
    ensures var v := ReadPadded(slot); v <= slot && !HasNull(v) && (v == slot || slot[|v|] == 0)
    decreases |slot|
  {
    if slot != [] && slot[0] != 0 {
      ReadPaddedMeaning(slot[1..]);
      assert slot == [slot[0]] + slot[1..];
    }
  }

  lemma UpperKeepsShape(v: Bytes)
    ensures Upper(Upper(v)) == Upper(v)
    ensures HasNull(Upper(v)) <==> HasNull(v)
    ensures FitsSlot(Upper(v)) <==> FitsSlot(v)
  {
    if HasNull(v) {
      var i :| 0 <= i < |v| && v[i] == 0;
      assert Upper(v)[i] == 0;
    }
    if HasNull(Upper(v)) {
      var i :| 0 <= i < |v| && Upper(v)[i] == 0;
      assert v[i] == 0;
    }
    assert |v| == 0 <==> v == [];
    assert |Upper(v)| == 0 <==> Upper(v) == [];
  }

  /** Zero padding never reorders codes: "SR" sorts before "SRU". */
  lemma {:induction false} PaddingKeepsOrder(a: Bytes, b: Bytes, w: nat)
    requires !HasNull(a) && !HasNull(b) && |a| <= w && |b| <= w
    ensures Less(a + Zeros(w - |a|), b + Zeros(w - |b|)) <==> Less(a, b)
    ensures a + Zeros(w - |a|) == b + Zeros(w - |b|) <==> a == b
    decreases w
  {
    var pa, pb := a + Zeros(w - |a|), b + Zeros(w - |b|);
    if a == [] && b == [] {
      assert pa == pb;
      LessIrreflexive(pa);
    } else if a != [] && b != [] {
      assert pa[1..] == a[1..] + Zeros(w - |a|) && pb[1..] == b[1..] + Zeros(w - |b|);
      assert pa[0] == a[0] && pb[0] == b[0];
      PaddingKeepsOrder(a[1..], b[1..], w - 1);
      assert a == [a[0]] + a[1..] && b == [b[0]] + b[1..];
      assert pa == [pa[0]] + pa[1..] && pb == [pb[0]] + pb[1..];
    } else if a == [] {
      assert pa[0] == 0 && pb[0] == b[0];
    } else {
      assert pb[0] == 0 && pa[0] == a[0];
    }
  }

  // ----------------------------------------------------------- identifiers

  /** An unset or empty location code folds to "--". */
  function CanonicalLocationCode(id: Identifier): (code: Bytes)
    ensures code != []
    ensures id.location.Some? && id.location.value != [] ==> code == id.location.value
    ensures id.location == None || id.location == Some([]) ==> code == DASHES
  {
    if id.location.Some? && id.location.value != [] then id.location.value else DASHES
  }

  /** The identifier that every spelling of the same stream folds to. */
  function Canonical(id: Identifier): Identifier {
    Identifier(Upper(id.network), Upper(id.station), Upper(id.channel), Some(Upper(CanonicalLocationCode(id))))
  }

  predicate Encodable(id: Identifier) {
    FitsSlot(id.network) && FitsSlot(id.station) && FitsSlot(CanonicalLocationCode(id)) && FitsSlot(id.channel)
  }

  /** Four slots in key order, for an identifier that is already upper-cased and folded. */
  function Slots(network: Bytes, station: Bytes, location: Bytes, channel: Bytes): (k: Bytes)
    requires |network| <= SLOT && |station| <= SLOT && |location| <= SLOT && |channel| <= SLOT
    ensures |k| == STREAM_KEY_LENGTH
  {
    Pad(network) + Pad(station) + Pad(location) + Pad(channel)
  }

  /** The stream key, or the first component (in key order) that does not fit. */
  function StreamKey(id: Identifier): (r: Result<Bytes>)
    ensures r.Ok? <==> Encodable(id)
    ensures r.Ok? ==> |r.value| == STREAM_KEY_LENGTH
  {
    var network := Component(id.network, Network);
    if network.Err? then network else
    var station := Component(id.station, Station);
    if station.Err? then station else
    var location := Component(CanonicalLocationCode(id), Location);
    if location.Err? then location else
    var channel := Component(id.channel, Channel);
    if channel.Err? then channel else
    Ok(network.value + station.value + location.value + channel.value)
  }

  /** The spellings of "no location". */
  predicate BlankLocation(id: Identifier) { id.location in {None, Some([]), Some(DASHES)} }

  /** The code that goes into slot f. */
  function CodeAt(id: Identifier, f: nat): Bytes
    requires f < 4
  {
    if f == 0 then id.network else if f == 1 then id.station else if f == 3 then id.channel
    else if BlankLocation(id) then DASHES else id.location.value
  }

  function FieldAt(f: nat): Field
    requires f < 4
  {
    if f == 0 then Network else if f == 1 then Station else if f == 2 then Location else Channel
  }

  /** Slot by slot, the key spells the identifier's codes. */
  predicate HoldsCodes(key: Bytes, id: Identifier) {
    |key| == STREAM_KEY_LENGTH && forall f: nat :: f < 4 ==> SlotHolds(key, f * SLOT, CodeAt(id, f))
  }

  /** The first code in key order that does not fit, and why. */
  predicate BlamesFirst(e: KeyError, id: Identifier) {
    exists f: nat ::
      f < 4 && (forall g: nat :: g < f ==> FitsSlot(CodeAt(id, g))) && Blames(e, FieldAt(f), CodeAt(id, f))
  }

  /** What a stream key spells, and which code is to blame when there is none. */
  lemma StreamKeyLayout(id: Identifier)
    ensures StreamKey(id).Ok? <==> forall f: nat :: f < 4 ==> FitsSlot(CodeAt(id, f))
    ensures StreamKey(id).Ok? ==> HoldsCodes(StreamKey(id).value, id)
    ensures forall e :: StreamKey(id) == Err(e) <==> BlamesFirst(e, id)
  {
    hide SlotHolds, Upper;
    var (n, s, l, c) := (CodeAt(id, 0), CodeAt(id, 1), CodeAt(id, 2), CodeAt(id, 3));
    assert l == CanonicalLocationCode(id);
    if StreamKey(id).Ok? {
      var key := StreamKey(id).value;
      var (pn, ps, pl, pc) := (Pad(Upper(n)), Pad(Upper(s)), Pad(Upper(l)), Pad(Upper(c)));
      assert key == [] + pn + (ps + pl + pc) && key == pn + ps + (pl + pc);
      assert key == (pn + ps) + pl + pc && key == (pn + ps + pl) + pc + [];
      PaddedSlotHolds([], n, ps + pl + pc);
      PaddedSlotHolds(pn, s, pl + pc);
      PaddedSlotHolds(pn + ps, l, pc);
      PaddedSlotHolds(pn + ps + pl, c, []);
    }
    forall e ensures StreamKey(id) == Err(e) <==> BlamesFirst(e, id) {
      StreamKeyBlame(id, e);
    }
  }

  lemma ComponentBlame(code: Bytes, field: Field, e: KeyError)
    ensures Component(code, field) == Err(e) <==> Blames(e, field, code)
    ensures Blames(e, field, code) ==> !FitsSlot(code)
  {
    hide Upper, Pad;
    if HasNull(code) {
      var i :| 0 <= i < |code| && code[i] == 0;
    }
  }

  lemma StreamKeyBlame(id: Identifier, e: KeyError)
    ensures StreamKey(id) == Err(e) <==> BlamesFirst(e, id)
  {
    hide Blames, Component, FitsSlot;
    assert CodeAt(id, 2) == CanonicalLocationCode(id);
    ComponentBlame(CodeAt(id, 0), Network, e);
    ComponentBlame(CodeAt(id, 1), Station, e);
    ComponentBlame(CodeAt(id, 2), Location, e);
    ComponentBlame(CodeAt(id, 3), Channel, e);
    assert FieldAt(0) == Network && FieldAt(1) == Station && FieldAt(2) == Location && FieldAt(3) == Channel;
  }

  function PacketKey(id: Identifier, n: U64): (r: Result<Bytes>)
    ensures r.Ok? <==> Encodable(id)
    ensures r.Ok? ==> |r.value| == PACKET_KEY_LENGTH
  {
    var key := StreamKey(id);
    if key.Err? then key else Ok(key.value + Encode64(n))
  }

  /** Builds the stream key slot by slot. */
  method ToStreamKey(id: Identifier) returns (r: Result<Bytes>)
    ensures r == StreamKey(id)
    ensures r.Ok? ==> HoldsCodes(r.value, id)
    ensures r.Err? ==> BlamesFirst(r.error, id)
  {
    hide SlotHolds, Blames, BlamesFirst, HoldsCodes;
    StreamKeyLayout(id);
    r := AppendPaddedComponent([], id.network, Network);
    if r.Err? { return; }
    assert r.value == Component(id.network, Network).value;
    r := AppendPaddedComponent(r.value, id.station, Station);
    if r.Err? { return; }
    r := AppendPaddedComponent(r.value, CanonicalLocationCode(id), Location);
    if r.Err? { return; }
    r := AppendPaddedComponent(r.value, id.channel, Channel);
  }

  method ToPacketKey(id: Identifier, n: U64) returns (r: Result<Bytes>)
    ensures r == PacketKey(id, n)
  {
    r := ToStreamKey(id);
    if r.Ok? {
      var key := PutBigEndian64(r.value, n);
      r := Ok(key);
    }
  }

  function DecodeStreamKey(key: Bytes): (id: Identifier)
    requires |key| == STREAM_KEY_LENGTH
  {
    var location := ReadPadded(key[16..24]);
    Identifier(ReadPadded(key[..8]), ReadPadded(key[8..16]), ReadPadded(key[24..]),
               Some(if location == [] then DASHES else location))
  }

  function FromStreamKey(key: Bytes): (r: Result<Identifier>)
    ensures r.Ok? <==> |key| == STREAM_KEY_LENGTH
  {
    if |key| != STREAM_KEY_LENGTH then Err(WrongLength(|key|)) else Ok(DecodeStreamKey(key))
  }

  function FromPacketKey(key: Bytes): (r: Result<(Identifier, U64)>)
    ensures r.Ok? <==> |key| == PACKET_KEY_LENGTH
  {
    if |key| != PACKET_KEY_LENGTH then Err(WrongLength(|key|))
    else Ok((DecodeStreamKey(key[..STREAM_KEY_LENGTH]), Decode64(key[STREAM_KEY_LENGTH..])))
  }

  /** The two parts of a 40-byte key. */
  function StreamOf(key: Bytes): (s: Bytes)
    requires |key| == PACKET_KEY_LENGTH
    ensures |s| == STREAM_KEY_LENGTH
  {
    key[..STREAM_KEY_LENGTH]
  }

  function SequenceOf(key: Bytes): U64
    requires |key| == PACKET_KEY_LENGTH
  {
    Decode64(key[STREAM_KEY_LENGTH..])
  }

  /** A stream key is what encoding some identifier yields. */
  ghost predicate IsStreamKey(key: Bytes) { exists id :: StreamKey(id) == Ok(key) }

  // ---------------------------------------------------------------- theorems

  lemma PacketKeyParts(s: Bytes, n: U64)
    requires |s| == STREAM_KEY_LENGTH
    ensures var key := s + Encode64(n);
            |key| == PACKET_KEY_LENGTH && StreamOf(key) == s && SequenceOf(key) == n
  {
    var key := s + Encode64(n);
    assert key[..STREAM_KEY_LENGTH] == s && key[STREAM_KEY_LENGTH..] == Encode64(n);
    Encode64RoundTrip(n);
  }

  lemma PacketKeyRejoin(key: Bytes)
    requires |key| == PACKET_KEY_LENGTH
    ensures key == StreamOf(key) + Encode64(SequenceOf(key))
  {
    Decode64RoundTrip(key[STREAM_KEY_LENGTH..]);
    assert key == key[..STREAM_KEY_LENGTH] + key[STREAM_KEY_LENGTH..];
  }

  /** Folding twice is folding once, and folding does not change what can be encoded. */
  lemma CanonicalIdempotent(id: Identifier)
    ensures Canonical(Canonical(id)) == Canonical(id)
    ensures Encodable(Canonical(id)) <==> Encodable(id)
    ensures StreamKey(id).Ok? ==> StreamKey(Canonical(id)) == StreamKey(id)
  {
    var code := CanonicalLocationCode(id);
    UpperKeepsShape(id.network);
    UpperKeepsShape(id.station);
    UpperKeepsShape(id.channel);
    UpperKeepsShape(code);
    assert Upper(code) != [] by { assert |Upper(code)| == |code| != 0; }
    assert CanonicalLocationCode(Canonical(id)) == Upper(code);
  }

  lemma StreamKeySlots(id: Identifier)
    requires Encodable(id)
    ensures StreamKey(id) ==
            Ok(Slots(Upper(id.network), Upper(id.station), Upper(CanonicalLocationCode(id)), Upper(id.channel)))
  {
  }

  /** Decoding an encoded stream key yields the canonical identifier. */
  lemma StreamKeyRoundTrip(id: Identifier)
    requires Encodable(id)
    ensures FromStreamKey(StreamKey(id).value) == Ok(Canonical(id))
  {
    var code := CanonicalLocationCode(id);
    var key := StreamKey(id).value;
    StreamKeySlots(id);
    assert key[..8] == Pad(Upper(id.network));
    assert key[8..16] == Pad(Upper(id.station));
    assert key[16..24] == Pad(Upper(code));
    assert key[24..] == Pad(Upper(id.channel));
    SlotRoundTrip(id.network);
    SlotRoundTrip(id.station);
    SlotRoundTrip(code);
    SlotRoundTrip(id.channel);
  }

  lemma SlotRoundTrip(v: Bytes)
    requires FitsSlot(v)
    ensures ReadPadded(Pad(Upper(v))) == Upper(v) != []
  {
    UpperKeepsShape(v);
    ReadPaddedPad(Upper(v), SLOT - |v|);
  }

  predicate ReadsSlot(slot: Bytes, code: Bytes) {
    code <= slot && !HasNull(code) && (code == slot || slot[|code|] == 0)
  }

  /** Decoding any 32 bytes: each code is its slot up to the first zero byte, and an empty location reads "--". */
  lemma DecodedCodes(key: Bytes)
    requires |key| == STREAM_KEY_LENGTH
    ensures var id := FromStreamKey(key).value;
            && ReadsSlot(key[..8], id.network) && ReadsSlot(key[8..16], id.station) && ReadsSlot(key[24..], id.channel)
            && id.location.Some? && id.location.value != []
            && (if key[16] == 0 then id.location.value == DASHES else ReadsSlot(key[16..24], id.location.value))
  {
    ReadPaddedMeaning(key[..8]);
    ReadPaddedMeaning(key[8..16]);
    ReadPaddedMeaning(key[16..24]);
    ReadPaddedMeaning(key[24..]);
  }

  /** Decoding an encoded packet key yields the canonical identifier and the same sequence number. */
  lemma PacketKeyRoundTrip(id: Identifier, n: U64)
    requires Encodable(id)
    ensures FromPacketKey(PacketKey(id, n).value) == Ok((Canonical(id), n))
  {
    StreamKeyRoundTrip(id);
    PacketKeyParts(StreamKey(id).value, n);
  }

  /** Two encodable identifiers name the same stream exactly when their canonical forms agree. */
  lemma SameKeyIffSameStream(a: Identifier, b: Identifier)
    requires Encodable(a) && Encodable(b)
    ensures StreamKey(a) == StreamKey(b) <==> Canonical(a) == Canonical(b)
  {
    StreamKeyRoundTrip(a);
    StreamKeyRoundTrip(b);
    CanonicalIdempotent(a);
    CanonicalIdempotent(b);
  }

  lemma OnlyDashesFoldToDashes(code: Bytes)
    ensures Upper(code) == DASHES <==> code == DASHES
  {
    if Upper(code) == DASHES {
      assert forall i :: 0 <= i < |code| ==> Upper(code)[i] == code[i];
    }
  }

  /** No stream key holds a lower-case letter. */
  lemma KeyHasNoLowerCase(id: Identifier, i: nat)
    requires Encodable(id) && i < STREAM_KEY_LENGTH
    ensures !LowerCase(StreamKey(id).value[i])
  {
    hide StreamKey;
    StreamKeyLayout(id);
    var (f, r) := (i / SLOT, i % SLOT);
    assert i == f * SLOT + r && f < 4;
    var key := StreamKey(id).value;
    assert SlotHolds(key, f * SLOT, CodeAt(id, f));
    assert SlotByte(key, f * SLOT, CodeAt(id, f), r);
  }

  predicate SameLocation(a: Identifier, b: Identifier) {
    if BlankLocation(a) || BlankLocation(b) then BlankLocation(a) && BlankLocation(b)
    else SameText(a.location.value, b.location.value)
  }

  /** Two identifiers share a key exactly when they agree field by field up to ASCII case, blank locations folded. */
  lemma SameKeyIffSameText(a: Identifier, b: Identifier)
    requires Encodable(a) && Encodable(b)
    ensures StreamKey(a) == StreamKey(b) <==>
            SameText(a.network, b.network) && SameText(a.station, b.station) && SameText(a.channel, b.channel) &&
            SameLocation(a, b)
  {
    hide StreamKey, Upper, SameText;
    var (la, lb) := (CanonicalLocationCode(a), CanonicalLocationCode(b));
    SameKeyIffSameStream(a, b);
    UpperFolds(a.network, b.network);
    UpperFolds(a.station, b.station);
    UpperFolds(a.channel, b.channel);
    UpperFolds(la, lb);
    OnlyDashesFoldToDashes(DASHES);
    OnlyDashesFoldToDashes(la);
    OnlyDashesFoldToDashes(lb);
  }

  /** Otherwise equal identifiers: every spelling of "no location" names one stream, and no other location does. */
  lemma BlankLocationsShareKey(a: Identifier, b: Identifier)
    requires a.(location := b.location) == b && BlankLocation(a)
    ensures BlankLocation(b) <==> Canonical(a) == Canonical(b)
    ensures BlankLocation(b) ==> StreamKey(a) == StreamKey(b)
    ensures Encodable(a) && Encodable(b) ==> (StreamKey(a) == StreamKey(b) <==> BlankLocation(b))
  {
    hide Upper;
    OnlyDashesFoldToDashes(DASHES);
    OnlyDashesFoldToDashes(CanonicalLocationCode(b));
    if Encodable(a) && Encodable(b) {
      SameKeyIffSameStream(a, b);
    }
  }

  /** A 32-byte string is a stream key exactly when decoding and re-encoding returns it. */
  lemma StreamKeyImage(key: Bytes)
    requires |key| == STREAM_KEY_LENGTH
    ensures IsStreamKey(key) <==> StreamKey(DecodeStreamKey(key)) == Ok(key)
  {
    if IsStreamKey(key) {
      var id :| StreamKey(id) == Ok(key);
      StreamKeyRoundTrip(id);
      CanonicalIdempotent(id);
    }
  }

  /** Network, then station, then location, then channel, each in byte order. */
  predicate StreamBefore(a: Identifier, b: Identifier) {
    var (la, lb) := (CanonicalLocationCode(a), CanonicalLocationCode(b));
    || Less(a.network, b.network)
    || (a.network == b.network &&
        (|| Less(a.station, b.station)
         || (a.station == b.station &&
             (|| Less(la, lb)
              || (la == lb && Less(a.channel, b.channel))))))
  }

  /** Byte order on stream keys is field-by-field order on canonical identifiers. */
  lemma StreamKeyOrder(a: Identifier, b: Identifier)
    requires Encodable(a) && Encodable(b)
    ensures Less(StreamKey(a).value, StreamKey(b).value) <==> StreamBefore(Canonical(a), Canonical(b))
  {
    var (ca, cb) := (CanonicalLocationCode(a), CanonicalLocationCode(b));
    StreamKeySlots(a);
    StreamKeySlots(b);
    CanonicalIdempotent(a);
    CanonicalIdempotent(b);
    SlotOrder(a.network, b.network);
    SlotOrder(a.station, b.station);
    SlotOrder(ca, cb);
    SlotOrder(a.channel, b.channel);
    SlotsOrder(Pad(Upper(a.network)), Pad(Upper(a.station)), Pad(Upper(ca)), Pad(Upper(a.channel)),
               Pad(Upper(b.network)), Pad(Upper(b.station)), Pad(Upper(cb)), Pad(Upper(b.channel)));
    CanonicalLocation(a);
    CanonicalLocation(b);
  }

  lemma CanonicalLocation(id: Identifier)
    ensures CanonicalLocationCode(Canonical(id)) == Upper(CanonicalLocationCode(id))
  {
    assert |Upper(CanonicalLocationCode(id))| != 0;
  }

  lemma SlotOrder(v: Bytes, w: Bytes)
    requires FitsSlot(v) && FitsSlot(w)
    ensures Less(Pad(Upper(v)), Pad(Upper(w))) <==> Less(Upper(v), Upper(w))
    ensures Pad(Upper(v)) == Pad(Upper(w)) <==> Upper(v) == Upper(w)
  {
    UpperKeepsShape(v);
    UpperKeepsShape(w);
    PaddingKeepsOrder(Upper(v), Upper(w), SLOT);
  }

  lemma SlotsOrder(n: Bytes, s: Bytes, l: Bytes, c: Bytes, n': Bytes, s': Bytes, l': Bytes, c': Bytes)
    requires |n| == |n'| && |s| == |s'| && |l| == |l'|
    ensures Less(n + s + l + c, n' + s' + l' + c') <==>
            || Less(n, n')
            || (n == n' && (Less(s, s') || (s == s' && (Less(l, l') || (l == l' && Less(c, c'))))))
  {
    assert n + s + l + c == n + (s + (l + c)) && n' + s' + l' + c' == n' + (s' + (l' + c'));
    LessFixedWidth(n, n', s + (l + c), s' + (l' + c'));
    LessFixedWidth(s, s', l + c, l' + c');
    LessFixedWidth(l, l', c, c');
  }

  /** Byte order on packet keys: the canonical stream decides first, then the sequence number. */
  lemma PacketKeyOrder(a: Identifier, m: U64, b: Identifier, n: U64)
    requires Encodable(a) && Encodable(b)
    ensures Less(PacketKey(a, m).value, PacketKey(b, n).value) <==>
            StreamBefore(Canonical(a), Canonical(b)) || (Canonical(a) == Canonical(b) && m < n)
  {
    StreamKeyOrder(a, b);
    SameKeyIffSameStream(a, b);
    Encode64Order(m, n);
    LessFixedWidth(StreamKey(a).value, StreamKey(b).value, Encode64(m), Encode64(n));
  }

  /** The byte range [stream|0, stream|cutoff) holds exactly that stream's older sequence numbers. */
  lemma RangeIsOlderTail(s: Bytes, cutoff: U64, key: Bytes)
    requires |s| == STREAM_KEY_LENGTH && |key| == PACKET_KEY_LENGTH
    ensures !Less(key, s + Encode64(0)) && Less(key, s + Encode64(cutoff)) <==>
            StreamOf(key) == s && SequenceOf(key) < cutoff
  {
    KeyAgainst(s, 0, key);
    KeyAgainst(s, cutoff, key);
    LessIrreflexive(s);
  }

  /** How a key compares with the first possible key of a stream at n. */
  lemma KeyAgainst(s: Bytes, n: U64, key: Bytes)
    requires |s| == STREAM_KEY_LENGTH && |key| == PACKET_KEY_LENGTH
    ensures Less(key, s + Encode64(n)) <==>
            Less(StreamOf(key), s) || (StreamOf(key) == s && SequenceOf(key) < n)
  {
    PacketKeyRejoin(key);
    LessFixedWidth(StreamOf(key), s, Encode64(SequenceOf(key)), Encode64(n));
    Encode64Order(SequenceOf(key), n);
  }
}

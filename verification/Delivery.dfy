/**
 What the store side owes a packet: numbering resumes one past the newest stored packet, and a
 drained packet is held or stored, as itself, until a restart loses what is held or a truncation
 removes it.
 */
module Delivery {
  import opened ByteStrings
  import opened KeyCodec
  import opened StoreModel
  import opened StoreIndex
  import opened Pipeline
  import Density
  import opened EndToEnd

  /** newest is the largest stored number, or 0 when nothing is stored. */
  ghost predicate IsNewest(packets: map<Bytes, Bytes>, newest: U64)
    requires KeysAreWide(packets)
  {
    && (forall k | k in packets :: SequenceOf(k) <= newest)
    && (if packets == map[] then newest == 0 else exists k :: k in packets && SequenceOf(k) == newest)
  }

  /** After a restart the first packet is numbered one past the newest stored, and is otherwise as it came. */
  lemma NumberingResumes(db: Database, newest: U64, p: Packet, now: I64)
    requires IndexAgrees(db) && IsNewest(db.packets, newest)
    ensures After(Started(db), [Internal(Accept(p)), Internal(Dequeue(now))]).pipe.flight ==
            Numbered(Received(now, Packet(p.identifier, (newest + 1) % TWO64, p.payload)))
  {
    hide IndexAgrees, DecodeEntry, Decode64;
    GlobalMaxIsNewestStored(db);
    var (accept, dequeue) := (Internal(Accept(p)), Internal(Dequeue(now)));
    assert [accept, dequeue][..1] == [accept] && [accept][..0] == [];
    assert After(Started(db), [accept]).pipe.importQueue == [p];
  }

  /** The store has exactly this packet under its key. */
  predicate StoredAs(packets: map<Bytes, Bytes>, item: Received)
    requires Keyable(item)
  {
    KeyOf(item) in packets && packets[KeyOf(item)] == EncodeValue(item.at, Serialized(item.packet))
  }

  predicate Kept(y: System, item: Received)
    requires Keyable(item)
  {
    item in y.held || StoredAs(y.db.packets, item)
  }

  /** A restart forgets what is held; a committed truncation can remove what is stored. */
  ghost predicate LostBy(y: System, m: Move, item: Received)
    requires Keyable(item)
  {
    || (m.Restart? && item in y.held)
    || (m.Truncation? && m.commits && KeyOf(item) in y.db.packets && KeyOf(item) !in Truncate(y.db, m.n).packets)
  }

  lemma WriteDelivers(y: System, item: Received)
    requires Ordered(y) && Keyable(item) && Kept(y, item)
    ensures StoredAs(InsertAll(y.db, y.held).packets, item)
  {
    hide InsertAll, StreamKey, PacketKey, Encodable, EncodeValue, Serialized, Ordered;
    HeldIsNew(y);
    if item in y.held {
      var i :| 0 <= i < |y.held| && y.held[i] == item;
      assert LastForKey(y.held, i);
      LastOneWins(y.db, y.held, i);
    } else {
      WriteTouchesOnlyItsKeys(y.db, y.held, KeyOf(item));
    }
  }

  lemma TruncationKeepsValues(db: Database, n: U64, k: Bytes)
    requires k in Truncate(db, n).packets
    ensures k in db.packets && Truncate(db, n).packets[k] == db.packets[k]
  {
    hide Purged;
  }

  lemma MoveKeeps(y: System, m: Move, item: Received)
    requires Ordered(y) && Keyable(item) && Kept(y, item) && !LostBy(y, m, item)
    ensures Kept(Advance(y, m), item)
  {
    hide Ordered, InsertAll, Truncate, StreamKey, PacketKey, Encodable, EncodeValue, Serialized;
    if m.WriteHeld? && m.commits {
      WriteDelivers(y, item);
    }
    if m.Truncation? && m.commits && KeyOf(item) in Truncate(y.db, m.n).packets {
      TruncationKeepsValues(y.db, m.n, KeyOf(item));
    }
  }

  lemma NeverWrapsPrefix(y: System, moves: seq<Move>)
    requires NeverWraps(y, moves) && moves != []
    ensures NeverWraps(y, moves[..|moves| - 1])
  {
    hide Numbers, MayNumber, After;
    var init := moves[..|moves| - 1];
    assert forall i :: 0 <= i < |init| ==> init[..i] == moves[..i] && init[i] == moves[i];
  }

  /**
   Over any interleaving, failed commits and restarts included: a drained packet that can be keyed
   is held or stored as itself, unless a restart found it still held or a truncation removed it.
   */
  lemma {:induction false} DrainedIsNotLost(db: Database, moves: seq<Move>, i: nat, item: Received)
    requires IndexAgrees(db) && Density.UniqueNumbers(db.packets) && NeverWraps(Started(db), moves)
    requires i <= |moves| && Keyable(item) && item in After(Started(db), moves[..i]).held
    ensures Kept(After(Started(db), moves), item) ||
            exists j :: i <= j < |moves| && LostBy(After(Started(db), moves[..j]), moves[j], item)
    decreases |moves|
  {
    hide IndexAgrees, Density.UniqueNumbers, Ordered, NeverWraps, Advance, LostBy, StreamKey, PacketKey, Encodable;
    if i == |moves| {
      assert moves[..i] == moves;
    } else {
      var n := |moves| - 1;
      var init := moves[..n];
      assert init[..i] == moves[..i];
      NeverWrapsPrefix(Started(db), moves);
      DrainedIsNotLost(db, init, i, item);
      if Kept(After(Started(db), init), item) {
        BrokerRunsStayOrdered(db, init);
        if !LostBy(After(Started(db), init), moves[n], item) {
          MoveKeeps(After(Started(db), init), moves[n], item);
        }
      } else {
        var j :| i <= j < |init| && LostBy(After(Started(db), init[..j]), init[j], item);
        assert init[..j] == moves[..j] && init[j] == moves[j];
      }
    }
  }
}

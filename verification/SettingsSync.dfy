/**
  Cluster-wide settings as a last-writer-wins register, and what any run of exchanges between replicas leaves behind.
 */
module SettingsSync {
  import opened Wrappers

  /** The fields that are synchronised. Times are instants; 0 is Go's zero time. */
  datatype Record = Record(
    clusterName: string,
    allowedCommands: seq<string>,
    sandboxMode: bool,
    maxTaskMemoryMB: int,
    maxTaskProcs: int,
    maxTaskFileSizeMB: int,
    policies: seq<string>,
    updatedAt: int)

  /** A settings update from the user: absent fields leave the current value alone. */
  datatype Update = Update(
    clusterName: string,
    allowedCommands: Option<seq<string>>,
    sandboxMode: bool,
    maxTaskMemoryMB: int,
    maxTaskProcs: int,
    maxTaskFileSizeMB: int,
    policies: Option<seq<string>>,
    updatedAt: int)

  /** The later of two records; the one held wins a tie. */
  function Later(held: Record, incoming: Record): Record {
    if incoming.updatedAt > held.updatedAt then incoming else held
  }

  function OrElse(x: int, y: int): int {
    if x != 0 then x else y
  }

  /** The timestamp a local update gets: its own, or the time now. */
  function Stamp(u: Update, now: int): int {
    OrElse(u.updatedAt, now)
  }

  /** What a replica holds after a local update of what it held. */
  function Updated(held: Record, u: Update, now: int): Record {
    Record(
      if u.clusterName != "" then u.clusterName else held.clusterName,
      if u.allowedCommands.Some? then u.allowedCommands.value else held.allowedCommands,
      u.sandboxMode,
      OrElse(u.maxTaskMemoryMB, held.maxTaskMemoryMB),
      OrElse(u.maxTaskProcs, held.maxTaskProcs),
      OrElse(u.maxTaskFileSizeMB, held.maxTaskFileSizeMB),
      if u.policies.Some? then u.policies.value else held.policies,
      Stamp(u, now))
  }

  class Settings {
    var clusterName: string
    var allowedCommands: seq<string>
    var sandboxMode: bool
    var maxTaskMemoryMB: int
    var maxTaskProcs: int
    var maxTaskFileSizeMB: int
    var policies: seq<string>
    var updatedAt: int

    constructor (r: Record)
      ensures View() == r
    {
      clusterName, allowedCommands, sandboxMode := r.clusterName, r.allowedCommands, r.sandboxMode;
      maxTaskMemoryMB, maxTaskProcs, maxTaskFileSizeMB := r.maxTaskMemoryMB, r.maxTaskProcs, r.maxTaskFileSizeMB;
      policies, updatedAt := r.policies, r.updatedAt;
    }

    ghost function View(): Record
      reads this
    {
      Record(clusterName, allowedCommands, sandboxMode, maxTaskMemoryMB, maxTaskProcs, maxTaskFileSizeMB, policies,
          updatedAt)
    }

    method GetSyncableFields() returns (r: Record)
      ensures r == View()
    {
      r := Record(clusterName, allowedCommands, sandboxMode, maxTaskMemoryMB, maxTaskProcs, maxTaskFileSizeMB,
          policies, updatedAt);
    }

    method ApplySyncableFields(r: Record) returns (updated: bool)
      modifies this
      ensures View() == Later(old(View()), r)
      ensures View() == if r.updatedAt > old(updatedAt) then r else old(View())
      ensures updated <==> r.updatedAt > old(updatedAt)
    {
      if !(r.updatedAt > updatedAt) {
        return false;
      }
      clusterName, allowedCommands, sandboxMode := r.clusterName, r.allowedCommands, r.sandboxMode;
      maxTaskMemoryMB, maxTaskProcs, maxTaskFileSizeMB := r.maxTaskMemoryMB, r.maxTaskProcs, r.maxTaskFileSizeMB;
      policies, updatedAt := r.policies, r.updatedAt;
      updated := true;
    }

    method Merge(u: Update, now: int)
      modifies this
      ensures View() == Updated(old(View()), u, now)
    {
      if u.clusterName != "" {
        clusterName := u.clusterName;
      }
      sandboxMode := u.sandboxMode;
      if u.allowedCommands.Some? {
        allowedCommands := u.allowedCommands.value;
      }
      MergeLimits(u);
      if u.policies.Some? {
        policies := u.policies.value;
      }
      updatedAt := if u.updatedAt == 0 then now else u.updatedAt;
    }

    method MergeLimits(u: Update)
      modifies this`maxTaskMemoryMB, this`maxTaskProcs, this`maxTaskFileSizeMB
      ensures maxTaskMemoryMB == OrElse(u.maxTaskMemoryMB, old(maxTaskMemoryMB))
      ensures maxTaskProcs == OrElse(u.maxTaskProcs, old(maxTaskProcs))
      ensures maxTaskFileSizeMB == OrElse(u.maxTaskFileSizeMB, old(maxTaskFileSizeMB))
    {
      if u.maxTaskMemoryMB != 0 {
        maxTaskMemoryMB := u.maxTaskMemoryMB;
      }
      if u.maxTaskProcs != 0 {
        maxTaskProcs := u.maxTaskProcs;
      }
      if u.maxTaskFileSizeMB != 0 {
        maxTaskFileSizeMB := u.maxTaskFileSizeMB;
      }
    }
  }

  /** The answering half of an exchange: merge what came, answer with what is held then. */
  method HandleSync(s: Settings, request: Option<Record>) returns (response: Record)
    modifies s
    ensures s.View() == response
    ensures response == if request.Some? then Later(old(s.View()), request.value) else old(s.View())
  {
    if request.Some? {
      var _ := s.ApplySyncableFields(request.value);
    }
    response := s.GetSyncableFields();
  }

  /** What else happens to a replica in the meantime: local updates and records received from others. */
  datatype Change = Local(update: Update, now: int) | Received(record: Record)

  /** What a replica holds after some changes, in order. */
  function Applied(held: Record, changes: seq<Change>): Record {
    if changes == [] then held
    else
      var before := Applied(held, changes[..|changes| - 1]);
      match changes[|changes| - 1]
      case Local(u, now) => Updated(before, u, now)
      case Received(r) => Later(before, r)
  }

  method Meanwhile(s: Settings, changes: seq<Change>)
    modifies s
    ensures s.View() == Applied(old(s.View()), changes)
  {
    for i := 0 to |changes|
      invariant s.View() == Applied(old(s.View()), changes[..i])
    {
      assert changes[..i + 1][..i] == changes[..i];
      match changes[i] {
        case Local(u, now) =>
          s.Merge(u, now);
        case Received(r) =>
          var _ := s.ApplySyncableFields(r);
      }
    }
    assert changes[..|changes|] == changes;
  }

  /**
    The asking half of an exchange. Changes may be made to the peer before the request arrives, and to this side before
    the answer does; the request is a snapshot, and so is the answer. Undisturbed, both sides end with the later
    timestamp, and with equal records if the timestamps differed.
   */
  method SyncWithPeer(s: Settings, peer: Settings, toPeer: seq<Change>, toSelf: seq<Change>)
    requires s != peer
    modifies s, peer
    ensures peer.View() == Later(Applied(old(peer.View()), toPeer), old(s.View()))
    ensures s.View() == Later(Applied(old(s.View()), toSelf), peer.View())
    ensures s.updatedAt >= old(s.updatedAt) && s.updatedAt >= Applied(old(peer.View()), toPeer).updatedAt
    ensures toPeer == toSelf == [] ==> s.updatedAt == peer.updatedAt
    ensures toPeer == toSelf == [] && old(s.updatedAt) != old(peer.updatedAt) ==> s.View() == peer.View()
  {
    var mine := s.GetSyncableFields();
    Meanwhile(peer, toPeer);
    var response := HandleSync(peer, Some(mine));
    Meanwhile(s, toSelf);
    var _ := s.ApplySyncableFields(response);
  }

  // ---------- Runs of exchanges ----------

  /**
    What happens in the cluster, in time order. A message is a snapshot of its sender's record; it may be delivered
    late, more than once, to anyone, or never. Both halves of an exchange are a snapshot and a delivery.
   */
  datatype Event =
    | Write(at: string, update: Update, now: int)
    | Snapshot(sender: string)
    | Deliver(receiver: string, message: nat)

  /** Deliveries name an earlier snapshot. */
  ghost predicate WellFormed(events: seq<Event>) {
    forall t :: 0 <= t < |events| && events[t].Deliver? ==> events[t].message < t && events[events[t].message].Snapshot?
  }

  /** The record replica i holds before event t; all replicas start from the same one. */
  function RecordAt(base: Record, events: seq<Event>, t: nat, i: string): Record
    requires WellFormed(events) && t <= |events|
  {
    if t == 0 then base
    else
      var held := RecordAt(base, events, t - 1, i);
      match events[t - 1]
      case Write(at, update, now) => if at == i then Updated(held, update, now) else held
      case Snapshot(_) => held
      case Deliver(receiver, m) =>
        if receiver == i then Later(held, RecordAt(base, events, m, events[m].sender)) else held
  }

  /** The record that the local update at event w made. */
  function Written(base: Record, events: seq<Event>, w: nat): Record
    requires WellFormed(events) && w < |events| && events[w].Write?
  {
    Updated(RecordAt(base, events, w, events[w].at), events[w].update, events[w].now)
  }

  /** A hop: a snapshot and a later delivery of it. */
  datatype Hop = Hop(sent: nat, received: nat)

  ghost predicate IsHop(events: seq<Event>, h: Hop, src: string, dst: string)
    requires WellFormed(events)
  {
    h.sent < h.received < |events| && events[h.sent] == Snapshot(src) && events[h.received] == Deliver(dst, h.sent)
  }

  /** The write at event w reached replica i before event t along these hops, one after the other in time. */
  ghost predicate Reaches(events: seq<Event>, w: nat, hops: seq<Hop>, i: string, t: nat)
    requires WellFormed(events) && t <= |events|
    decreases |hops|
  {
    w < t && events[w].Write? &&
    if hops == [] then events[w].at == i
    else
      var h := hops[|hops| - 1];
      && h.received < t && h.sent < |events| && events[h.sent].Snapshot? && IsHop(events, h, events[h.sent].sender, i)
      && Reaches(events, w, hops[..|hops| - 1], events[h.sent].sender, h.sent)
  }

  ghost predicate Heard(events: seq<Event>, w: nat, i: string, t: nat)
    requires WellFormed(events) && t <= |events|
    ensures Heard(events, w, i, t) ==> w < t && events[w].Write?
  {
    exists hops :: Reaches(events, w, hops, i, t)
  }

  lemma {:induction false} ReachesLater(events: seq<Event>, w: nat, hops: seq<Hop>, i: string, t: nat, t': nat)
    requires WellFormed(events) && t <= t' <= |events| && Reaches(events, w, hops, i, t)
    ensures Reaches(events, w, hops, i, t')
  {
  }

  /** Which writes a replica has heard changes only by its own writes and by deliveries to it. */
  lemma HeardNext(events: seq<Event>, w: nat, i: string, t: nat)
    requires WellFormed(events) && t < |events|
    ensures Heard(events, w, i, t + 1) <==>
              || Heard(events, w, i, t)
              || (w == t && events[t].Write? && events[t].at == i)
              || (events[t].Deliver? && events[t].receiver == i &&
                  Heard(events, w, events[events[t].message].sender, events[t].message))
  {
    if Heard(events, w, i, t) {
      var hops :| Reaches(events, w, hops, i, t);
      ReachesLater(events, w, hops, i, t, t + 1);
    }
    if w == t && events[t].Write? && events[t].at == i {
      assert Reaches(events, w, [], i, t + 1);
    }
    if events[t].Deliver? && events[t].receiver == i {
      var m := events[t].message;
      if Heard(events, w, events[m].sender, m) {
        var hops :| Reaches(events, w, hops, events[m].sender, m);
        var longer := hops + [Hop(m, t)];
        assert longer[..|longer| - 1] == hops;
        assert Reaches(events, w, longer, i, t + 1);
      }
    }
    if Heard(events, w, i, t + 1) {
      var hops :| Reaches(events, w, hops, i, t + 1);
      HeardBefore(events, w, hops, i, t);
    }
  }

  lemma HeardBefore(events: seq<Event>, w: nat, hops: seq<Hop>, i: string, t: nat)
    requires WellFormed(events) && t < |events| && Reaches(events, w, hops, i, t + 1)
    ensures || Heard(events, w, i, t)
            || (w == t && events[t].Write? && events[t].at == i)
            || (events[t].Deliver? && events[t].receiver == i &&
                Heard(events, w, events[events[t].message].sender, events[t].message))
  {
    if hops == [] {
      if w < t {
        assert Reaches(events, w, hops, i, t);
      }
    } else {
      var h := hops[|hops| - 1];
      if h.received < t {
        ReachesStart(events, w, hops[..|hops| - 1], events[h.sent].sender, h.sent);
        assert Reaches(events, w, hops, i, t);
      }
    }
  }

  lemma ReachesStart(events: seq<Event>, w: nat, hops: seq<Hop>, i: string, t: nat)
    requires WellFormed(events) && t <= |events| && Reaches(events, w, hops, i, t)
    ensures w < t
  {
  }

  /** Replica i holds the newest record it has heard of before event t. */
  ghost predicate HoldsNewest(base: Record, events: seq<Event>, t: nat, i: string)
    requires WellFormed(events) && t <= |events|
  {
    var held := RecordAt(base, events, t, i);
    && (held == base || exists w: nat :: Heard(events, w, i, t) && Written(base, events, w) == held)
    && base.updatedAt <= held.updatedAt
    && forall w: nat :: Heard(events, w, i, t) ==> Written(base, events, w).updatedAt <= held.updatedAt
  }

  /** A local update whose timestamp is no older than what the replica holds. */
  ghost predicate Raises(base: Record, events: seq<Event>, t: nat)
    requires WellFormed(events) && t < |events| && events[t].Write?
  {
    Stamp(events[t].update, events[t].now) >= RecordAt(base, events, t, events[t].at).updatedAt
  }

  ghost predicate LocalWritesRaise(base: Record, events: seq<Event>)
    requires WellFormed(events)
  {
    forall t :: 0 <= t < |events| && events[t].Write? ==> Raises(base, events, t)
  }

  /** Timestamps of local updates never go back in the course of the run, from the start on. */
  ghost predicate StampsInOrder(base: Record, events: seq<Event>) {
    && (forall t :: 0 <= t < |events| && events[t].Write? ==> base.updatedAt <= Stamp(events[t].update, events[t].now))
    && forall s, t :: 0 <= s <= t < |events| && events[s].Write? && events[t].Write? ==>
         Stamp(events[s].update, events[s].now) <= Stamp(events[t].update, events[t].now)
  }

  /** Then no replica holds anything newer than a coming local update, wherever it is made. */
  lemma {:induction false} NothingFromTheFuture(base: Record, events: seq<Event>, t: nat, i: string, w: nat)
    requires WellFormed(events) && StampsInOrder(base, events) && t <= w < |events| && events[w].Write?
    ensures RecordAt(base, events, t, i).updatedAt <= Stamp(events[w].update, events[w].now)
    decreases t
  {
    if t > 0 {
      NothingFromTheFuture(base, events, t - 1, i, w);
      if events[t - 1].Deliver? {
        NothingFromTheFuture(base, events, events[t - 1].message, events[events[t - 1].message].sender, w);
      }
    }
  }

  /** So updates stamped by one clock that does not run back, whoever makes them, never go back behind what is held. */
  lemma InOrderWritesRaise(base: Record, events: seq<Event>)
    requires WellFormed(events) && StampsInOrder(base, events)
    ensures LocalWritesRaise(base, events)
  {
    forall t | 0 <= t < |events| && events[t].Write? ensures Raises(base, events, t) {
      NothingFromTheFuture(base, events, t, events[t].at, t);
    }
  }

  lemma WriteStep(base: Record, events: seq<Event>, t: nat)
    requires WellFormed(events) && t < |events| && events[t].Write? && Raises(base, events, t)
    requires HoldsNewest(base, events, t, events[t].at)
    ensures HoldsNewest(base, events, t + 1, events[t].at)
  {
    var i := events[t].at;
    HeardNext(events, t, i, t);
    assert RecordAt(base, events, t + 1, i) == Written(base, events, t);
    forall w: nat | Heard(events, w, i, t + 1)
      ensures Written(base, events, w).updatedAt <= Written(base, events, t).updatedAt
    {
      HeardNext(events, w, i, t);
    }
  }

  lemma DeliverStep(base: Record, events: seq<Event>, t: nat)
    requires WellFormed(events) && t < |events| && events[t].Deliver?
    requires HoldsNewest(base, events, t, events[t].receiver)
    requires HoldsNewest(base, events, events[t].message, events[events[t].message].sender)
    ensures HoldsNewest(base, events, t + 1, events[t].receiver)
  {
    var i, m := events[t].receiver, events[t].message;
    var j := events[m].sender;
    var mine, theirs := RecordAt(base, events, t, i), RecordAt(base, events, m, j);
    var held := RecordAt(base, events, t + 1, i);
    assert held == Later(mine, theirs);
    forall w: nat ensures Heard(events, w, i, t + 1) <==> Heard(events, w, i, t) || Heard(events, w, j, m) {
      HeardNext(events, w, i, t);
    }
    hide Heard, RecordAt;
  }

  lemma QuietStep(base: Record, events: seq<Event>, t: nat, i: string)
    requires WellFormed(events) && t < |events| && HoldsNewest(base, events, t, i)
    requires events[t].Snapshot? || (events[t].Write? && events[t].at != i) ||
               (events[t].Deliver? && events[t].receiver != i)
    ensures HoldsNewest(base, events, t + 1, i)
  {
    assert RecordAt(base, events, t + 1, i) == RecordAt(base, events, t, i);
    forall w: nat ensures Heard(events, w, i, t + 1) <==> Heard(events, w, i, t) {
      HeardNext(events, w, i, t);
    }
    hide Heard, RecordAt;
  }

  /**
    In every run in which local writes do not go back in time, every replica at every moment holds the newest record
    that has reached it through a time-ordered chain of exchanges.
   */
  lemma {:induction false} ReplicasHoldNewest(base: Record, events: seq<Event>, t: nat, i: string)
    requires WellFormed(events) && t <= |events| && LocalWritesRaise(base, events)
    ensures HoldsNewest(base, events, t, i)
    decreases t
  {
    if t > 0 {
      var e := events[t - 1];
      ReplicasHoldNewest(base, events, t - 1, i);
      if e.Write? && e.at == i {
        WriteStep(base, events, t - 1);
      } else if e.Deliver? && e.receiver == i {
        ReplicasHoldNewest(base, events, e.message, events[e.message].sender);
        DeliverStep(base, events, t - 1);
      } else {
        QuietStep(base, events, t - 1, i);
      }
    } else {
      NothingHeard(events, i);
    }
  }

  lemma NothingHeard(events: seq<Event>, i: string)
    requires WellFormed(events)
    ensures forall w: nat :: !Heard(events, w, i, 0)
  {
    forall w: nat, hops ensures !Reaches(events, w, hops, i, 0) {
    }
  }

  /** A local write keeps its replica on the newest record exactly when it is no older than what the replica holds. */
  lemma WriteKeepsNewestExactly(base: Record, events: seq<Event>, t: nat)
    requires WellFormed(events) && t < |events| && events[t].Write?
    requires HoldsNewest(base, events, t, events[t].at) && Stamp(events[t].update, events[t].now) >= base.updatedAt
    ensures HoldsNewest(base, events, t + 1, events[t].at) <==> Raises(base, events, t)
  {
    var i := events[t].at;
    var held := RecordAt(base, events, t, i);
    if Raises(base, events, t) {
      WriteStep(base, events, t);
    } else {
      var w: nat :| Heard(events, w, i, t) && Written(base, events, w) == held;
      HeardNext(events, w, i, t);
      assert RecordAt(base, events, t + 1, i) == Written(base, events, t);
    }
  }

  ghost predicate SameStampSameRecord(base: Record, events: seq<Event>, s: nat, t: nat)
    requires WellFormed(events) && s < |events| && t < |events| && events[s].Write? && events[t].Write?
  {
    Written(base, events, s).updatedAt == Written(base, events, t).updatedAt ==>
      Written(base, events, s) == Written(base, events, t)
  }

  /** Equal timestamps name equal records, all newer than the one everybody started from. */
  ghost predicate StampsAreUnique(base: Record, events: seq<Event>)
    requires WellFormed(events)
  {
    && (forall s, t :: 0 <= s < |events| && 0 <= t < |events| && events[s].Write? && events[t].Write? ==>
         SameStampSameRecord(base, events, s, t))
    && forall t :: 0 <= t < |events| && events[t].Write? ==> Written(base, events, t).updatedAt > base.updatedAt
  }

  /** w is a local update with the newest timestamp of the run. */
  ghost predicate LastWrite(base: Record, events: seq<Event>, w: nat)
    requires WellFormed(events)
  {
    w < |events| && events[w].Write? &&
    forall t :: 0 <= t < |events| && events[t].Write? ==>
      Written(base, events, t).updatedAt <= Written(base, events, w).updatedAt
  }

  /** A replica that has heard the last write holds exactly what that wrote, so any two such replicas agree. */
  lemma HearersConverge(base: Record, events: seq<Event>, w: nat, i: string)
    requires WellFormed(events) && LocalWritesRaise(base, events) && StampsAreUnique(base, events)
    requires LastWrite(base, events, w) && Heard(events, w, i, |events|)
    ensures RecordAt(base, events, |events|, i) == Written(base, events, w)
  {
    var T := |events|;
    var held := RecordAt(base, events, T, i);
    ReplicasHoldNewest(base, events, T, i);
    assert Written(base, events, w).updatedAt <= held.updatedAt;
    hide Heard, RecordAt, Written, LocalWritesRaise;
    var v: nat :| Heard(events, v, i, T) && Written(base, events, v) == held;
    assert SameStampSameRecord(base, events, v, w);
  }

  /**
    What r holds of update u to what was held: the sandbox mode always, and of the other fields those that u gives; the
    rest, and the timestamp if u has none, are as they were and as the clock says.
   */
  ghost predicate Reflects(held: Record, u: Update, now: int, r: Record) {
    && r.sandboxMode == u.sandboxMode
    && (u.clusterName != "" ==> r.clusterName == u.clusterName)
    && (u.clusterName == "" ==> r.clusterName == held.clusterName)
    && (u.allowedCommands.Some? ==> r.allowedCommands == u.allowedCommands.value)
    && (u.allowedCommands.None? ==> r.allowedCommands == held.allowedCommands)
    && (u.maxTaskMemoryMB != 0 ==> r.maxTaskMemoryMB == u.maxTaskMemoryMB)
    && (u.maxTaskMemoryMB == 0 ==> r.maxTaskMemoryMB == held.maxTaskMemoryMB)
    && (u.maxTaskProcs != 0 ==> r.maxTaskProcs == u.maxTaskProcs)
    && (u.maxTaskProcs == 0 ==> r.maxTaskProcs == held.maxTaskProcs)
    && (u.maxTaskFileSizeMB != 0 ==> r.maxTaskFileSizeMB == u.maxTaskFileSizeMB)
    && (u.maxTaskFileSizeMB == 0 ==> r.maxTaskFileSizeMB == held.maxTaskFileSizeMB)
    && (u.policies.Some? ==> r.policies == u.policies.value)
    && (u.policies.None? ==> r.policies == held.policies)
    && (u.updatedAt != 0 ==> r.updatedAt == u.updatedAt)
    && (u.updatedAt == 0 ==> r.updatedAt == now)
  }

  /**
    So every field that the last update gives reaches all who have heard of it, and for the fields it leaves out they
    hold what its writer held just before.
   */
  lemma HearersReflectLastUpdate(base: Record, events: seq<Event>, w: nat, i: string)
    requires WellFormed(events) && LocalWritesRaise(base, events) && StampsAreUnique(base, events)
    requires LastWrite(base, events, w) && Heard(events, w, i, |events|)
    ensures Reflects(RecordAt(base, events, w, events[w].at), events[w].update, events[w].now,
                     RecordAt(base, events, |events|, i))
  {
    HearersConverge(base, events, w, i);
    hide RecordAt, Heard;
  }
}

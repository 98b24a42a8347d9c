/**
 * One client's replica of the marker-reservation table and every operation
 * that changes or reads it: the four incoming remote-call handlers, the
 * disconnect cascade, and the local claim, release and query operations.
 *
 * The table is `reservedMarkers`, a plain object from marker id to owner id.
 * JavaScript treats `null`, `undefined` and `""` alike in every truthiness
 * test the table code makes; the model writes all of them as the empty
 * string, so a slot is occupied ("held") when its entry is present and
 * non-empty.
 */
module Reservations {
  import opened Options
  import opened EntryOrder
  import opened Notices

  type MarkerId = nat

  /** An owner or sender id; "" stands for a missing (falsy) id. */
  type PlayerId = string

  type Table = map<MarkerId, PlayerId>

  /** The sender id a handler sees for the client's own broadcast. */
  const NoSender: PlayerId := ""

  /** The values a handler returns to the bus. */
  datatype Reply = Ok | AlreadyReserved

  /** A handler's reply, the table it leaves, and the notice it passes to listeners. */
  datatype Handled = Handled(reply: Reply, table: Table, notice: Option<Notice>)

  /** `reservedMarkers[k]` is truthy. */
  predicate Held(t: Table, k: MarkerId) {
    k in t && t[k] != ""
  }

  /** `reservedMarkers[k] === p`. */
  predicate Owns(t: Table, p: PlayerId, k: MarkerId) {
    k in t && t[k] == p
  }

  /** The slots whose entry equals `p`. */
  function SlotsOf(t: Table, p: PlayerId): set<MarkerId> {
    set k | k in t && t[k] == p
  }

  /** `t` and `u` have the same entry (or none) at `k`. */
  predicate SameAt(t: Table, u: Table, k: MarkerId) {
    (k in t <==> k in u) && (k in t ==> t[k] == u[k])
  }

  /** `t` and `u` differ at most at the keys in `ks`. */
  ghost predicate AgreeOutside(t: Table, u: Table, ks: set<MarkerId>) {
    forall k :: k !in ks ==> SameAt(t, u, k)
  }

  /** Every entry of `u` is an entry of `t`. */
  ghost predicate SubTable(u: Table, t: Table) {
    forall k :: k in u ==> k in t && u[k] == t[k]
  }

  // ---------------------------------------------------------------------
  // Incoming remote calls
  // ---------------------------------------------------------------------

  /** `marker-reserved`: a peer claims slot `k`. */
  function OnMarkerReserved(t: Table, sender: PlayerId, k: MarkerId): (h: Handled)
    ensures h.reply == AlreadyReserved <==> sender != NoSender && Held(t, k) && t[k] != sender
    ensures h.reply == AlreadyReserved || sender == NoSender ==> h.table == t && h.notice == None
    ensures h.reply == Ok && sender != NoSender ==>
              && Owns(h.table, sender, k)
              && AgreeOutside(t, h.table, {k})
              && h.notice == Some(MarkerReserved(k, sender))
  {
    if sender == NoSender then Handled(Ok, t, None)
    else if Held(t, k) && t[k] != sender then Handled(AlreadyReserved, t, None)
    else Handled(Ok, t[k := sender], Some(MarkerReserved(k, sender)))
  }

  /** `marker-released`: a peer gives up slot `k`; honoured only from its recorded owner. */
  function OnMarkerReleased(t: Table, sender: PlayerId, k: MarkerId): (h: Handled)
    ensures h.reply == Ok
    ensures k in h.table <==> k in t && !(sender != NoSender && t[k] == sender)
    ensures AgreeOutside(t, h.table, {k}) && SubTable(h.table, t)
    ensures h.notice.Some? <==> k !in h.table && k in t
    ensures h.notice.Some? ==> h.notice.value == MarkerReleased(k, sender)
  {
    if sender != NoSender && Owns(t, sender, k) then
      Handled(Ok, t - {k}, Some(MarkerReleased(k, sender)))
    else
      Handled(Ok, t, None)
  }

  /**
   * `marker-cancelled`: a peer leaves its confirmed spot.  The first entry
   * (in key order) owned by the sender is removed, if there is one; the
   * listeners hear of the cancel either way.
   */
  function OnMarkerCancelled(t: Table, sender: PlayerId): (h: Handled)
    ensures h.reply == Ok
    ensures SubTable(h.table, t)
    ensures sender == NoSender ==> h.table == t && h.notice == None
    ensures sender != NoSender ==> h.notice == Some(MarkerCancelled(sender))
    ensures SlotsOf(t, sender) == {} ==> h.table == t
    ensures sender != NoSender && SlotsOf(t, sender) != {} ==>
              exists j :: && Owns(t, sender, j)
                          && (forall i :: Owns(t, sender, i) ==> j <= i)
                          && h.table == t - {j}
  {
    if sender == NoSender then Handled(Ok, t, None)
    else
      var mine := SlotsOf(t, sender);
      var notice := Some(MarkerCancelled(sender));
      if mine == {} then Handled(Ok, t, notice)
      else
        var first := Least(mine);
        assert forall i :: Owns(t, sender, i) ==> i in mine;
        assert Owns(t, sender, first);
        Handled(Ok, t - {first}, notice)
  }

  /** `sync-reservations-request`: a peer asks for this replica's table. */
  datatype SyncAnswer = SyncAnswer(reply: Reply, response: Option<Table>)

  function OnSyncRequest(t: Table, sender: PlayerId): (a: SyncAnswer)
    ensures a.reply == Ok
    ensures a.response.Some? <==> sender != NoSender
    ensures a.response.Some? ==> a.response.value == t
  {
    if sender == NoSender then SyncAnswer(Ok, None) else SyncAnswer(Ok, Some(t))
  }

  /**
   * The bootstrap merge rule: an entry of the snapshot is adopted only where
   * the local slot is not held; a held local owner is never overwritten.
   */
  function Merge(t: Table, s: Table): (m: Table)
    ensures m.Keys == t.Keys + s.Keys
    ensures forall k :: Held(t, k) ==> m[k] == t[k]
    ensures forall k :: k in s && !Held(t, k) ==> m[k] == s[k]
    ensures forall k :: k in t && k !in s ==> m[k] == t[k]
  {
    map k | k in t.Keys + s.Keys :: if k in s && !Held(t, k) then s[k] else t[k]
  }

  /** `sync-reservations-response`: merge a peer's snapshot, if the payload carries one. */
  function OnSyncResponse(t: Table, sender: PlayerId, snapshot: Option<Table>): (h: Handled)
    ensures h.reply == Ok && h.notice == None
    ensures sender == NoSender || snapshot.None? ==> h.table == t
    ensures sender != NoSender && snapshot.Some? ==> h.table == Merge(t, snapshot.value)
  {
    if sender == NoSender || snapshot.None? then Handled(Ok, t, None)
    else Handled(Ok, Merge(t, snapshot.value), None)
  }

  /** The disconnect cascade: drop every slot recorded for the player who quit. */
  function ReleaseAllOf(t: Table, p: PlayerId): (r: Table)
    ensures forall k :: k in r <==> k in t && t[k] != p
    ensures SubTable(r, t)
    ensures SlotsOf(r, p) == {}
  {
    map k | k in t && t[k] != p :: t[k]
  }

  // ---------------------------------------------------------------------
  // Local operations of the client whose own id is `me`
  // ---------------------------------------------------------------------

  /** getMarkerOwner: the owner of a slot, or none when the slot is not held. */
  function GetMarkerOwner(t: Table, k: MarkerId): (o: Option<PlayerId>)
    ensures o.Some? <==> Held(t, k)
    ensures o.Some? ==> Owns(t, o.value, k) && o.value != ""
  {
    if Held(t, k) then Some(t[k]) else None
  }

  /** isMarkerAvailable: the slot is free or already this client's. */
  function IsMarkerAvailable(t: Table, me: PlayerId, k: MarkerId): (b: bool)
    ensures b <==> GetMarkerOwner(t, k) == None || GetMarkerOwner(t, k) == Some(me)
  {
    var owner := if k in t then t[k] else "";
    owner == "" || owner == me
  }

  /** How the remote claim call of reserveMarker settled. */
  datatype CallResult = Answered(reply: Reply) | NoAnswer | Threw

  /** The result of reserveMarker: its boolean, the table it leaves, whether it broadcast a claim. */
  datatype Claim = Claim(ok: bool, table: Table, claimSent: bool)

  /**
   * The first half of reserveMarker, before the remote call is awaited:
   * a claim is broadcast only when the bus is available and the slot is not
   * held by someone else in the local replica.
   */
  function ReserveCheck(rpcReady: bool, t: Table, me: PlayerId, k: MarkerId): (proceed: bool)
    ensures proceed <==> rpcReady && (!Held(t, k) || t[k] == me)
  {
    rpcReady && IsMarkerAvailable(t, me, k)
  }

  /**
   * The second half of reserveMarker, once the remote call has settled: any
   * outcome other than an "already-reserved" answer records `me` as owner,
   * including a call that threw (fail-open).  The write is unconditional on
   * the table `t` current at that moment.
   */
  function ReserveFinish(t: Table, me: PlayerId, k: MarkerId, result: CallResult): (c: Claim)
    ensures c.claimSent
    ensures c.ok <==> result != Answered(AlreadyReserved)
    ensures c.ok ==> Owns(c.table, me, k) && AgreeOutside(t, c.table, {k})
    ensures !c.ok ==> c.table == t
  {
    if result == Answered(AlreadyReserved) then Claim(false, t, true)
    else Claim(true, t[k := me], true)
  }

  /** reserveMarker run without any other message handled while it awaits the reply. */
  function Reserve(rpcReady: bool, t: Table, me: PlayerId, k: MarkerId, result: CallResult): (c: Claim)
    ensures c.claimSent <==> rpcReady && IsMarkerAvailable(t, me, k)
    ensures c.ok <==> c.claimSent && result != Answered(AlreadyReserved)
    ensures c.ok ==> Owns(c.table, me, k) && AgreeOutside(t, c.table, {k})
    ensures !c.ok ==> c.table == t
  {
    if ReserveCheck(rpcReady, t, me, k) then ReserveFinish(t, me, k, result)
    else Claim(false, t, false)
  }

  /** The result of releaseMarker: the table it leaves and the release it broadcasts, if any. */
  datatype Release = Release(table: Table, sent: Option<MarkerId>)

  /** releaseMarker: give up slot `k`, only if this client is its recorded owner. */
  function ReleaseMarker(rpcReady: bool, t: Table, me: PlayerId, k: MarkerId): (r: Release)
    ensures r.sent.Some? <==> rpcReady && Owns(t, me, k)
    ensures r.sent.Some? ==> r.sent.value == k && k !in r.table
    ensures AgreeOutside(t, r.table, {k}) && SubTable(r.table, t)
    ensures r.sent.None? ==> r.table == t
  {
    if rpcReady && Owns(t, me, k) then Release(t - {k}, Some(k)) else Release(t, None)
  }

  /**
   * releaseAllMyMarkers: drop every slot recorded for `me`, in key order,
   * each deletion followed by its release broadcast.  The forEach has no
   * try, so a broadcast that throws (`callThrows` of its slot) ends the
   * operation there: that slot is already deleted, the later ones are kept,
   * and the exception reaches the caller (`threw`).
   */
  method ReleaseAllMyMarkers(rpcReady: bool, t: Table, me: PlayerId, callThrows: MarkerId -> bool)
    returns (table: Table, sent: seq<MarkerId>, threw: bool)
    ensures !rpcReady ==> table == t && sent == [] && !threw
    ensures forall i, j :: 0 <= i < j < |sent| ==> sent[i] < sent[j]
    ensures forall k :: k in sent ==> Owns(t, me, k)
    ensures forall k :: k in table <==> k in t && k !in sent
    ensures SubTable(table, t)
    ensures threw <==> rpcReady && exists k :: Owns(t, me, k) && callThrows(k)
    ensures rpcReady && !threw ==> table == ReleaseAllOf(t, me) && forall k :: k in sent <==> Owns(t, me, k)
    ensures rpcReady ==> |sent| <= |SlotsOf(t, me)| && sent == Ascending(SlotsOf(t, me))[..|sent|]
    ensures threw ==> |sent| > 0 && callThrows(sent[|sent| - 1])
                      && (forall i :: 0 <= i < |sent| - 1 ==> !callThrows(sent[i]))
                      && (forall k :: Owns(t, me, k) && k < sent[|sent| - 1] ==> k in sent && k !in table && !callThrows(k))
                      && (forall k :: Owns(t, me, k) && k > sent[|sent| - 1] ==> Owns(table, me, k))
  {
    table, sent, threw := t, [], false;
    if !rpcReady {
      return;
    }
    var mine := Ascending(SlotsOf(t, me));
    table, sent, threw := DropInOrder(t, mine, callThrows);
    AscendingPrefix(mine, sent);
    assert forall k :: k in sent ==> Owns(t, me, k);
    if threw {
      OwnedBelowThrowerReleased(t, me, mine, sent, table, callThrows);
      OwnedAboveThrowerKept(t, me, mine, sent, table);
    } else {
      DroppingOwnedSlots(t, me, mine, table);
      NoThrowerReached(sent, callThrows);
    }
  }

  /**
   * Where a release broadcast threw, every owned slot below the thrower was
   * reached: it is deleted and its broadcast did not throw.
   */
  lemma OwnedBelowThrowerReleased(t: Table, me: PlayerId, mine: seq<MarkerId>, sent: seq<MarkerId>, table: Table,
                                  callThrows: MarkerId -> bool)
    requires forall i, j :: 0 <= i < j < |mine| ==> mine[i] < mine[j]
    requires forall k :: Owns(t, me, k) ==> k in mine
    requires 0 < |sent| <= |mine| && sent == mine[..|sent|]
    requires forall i :: 0 <= i < |sent| - 1 ==> !callThrows(sent[i])
    requires forall k :: k in table <==> k in t && k !in sent
    ensures forall k :: Owns(t, me, k) && k < sent[|sent| - 1] ==> k in sent && k !in table && !callThrows(k)
  {
    forall k | Owns(t, me, k) && k < sent[|sent| - 1]
      ensures k in sent && !callThrows(k)
    {
      var i := BelowLastInPrefix(mine, sent, k);
    }
  }

  /** Where a release broadcast threw, every owned slot above the thrower is still held. */
  lemma OwnedAboveThrowerKept(t: Table, me: PlayerId, mine: seq<MarkerId>, sent: seq<MarkerId>, table: Table)
    requires forall i, j :: 0 <= i < j < |mine| ==> mine[i] < mine[j]
    requires 0 < |sent| <= |mine| && sent == mine[..|sent|]
    requires forall k :: k in table <==> k in t && k !in sent
    requires SubTable(table, t)
    ensures forall k :: Owns(t, me, k) && k > sent[|sent| - 1] ==> Owns(table, me, k)
  {
    AscendingPrefix(mine, sent);
  }

  /** An element of an ascending list below the last element of a prefix lies before that element, in the prefix. */
  lemma BelowLastInPrefix(s: seq<MarkerId>, p: seq<MarkerId>, k: MarkerId) returns (i: nat)
    requires forall i, j :: 0 <= i < j < |s| ==> s[i] < s[j]
    requires 0 < |p| <= |s| && p == s[..|p|]
    requires k in s && k < p[|p| - 1]
    ensures i < |p| - 1 && p[i] == k
  {
    var n := |p| - 1;
    i :| 0 <= i < |s| && s[i] == k;
    assert s[n] == p[n];
    assert p[i] == s[i];
  }

  /** A prefix of a strictly ascending list is strictly ascending, and holds nothing above its last element. */
  lemma AscendingPrefix(s: seq<MarkerId>, p: seq<MarkerId>)
    requires forall i, j :: 0 <= i < j < |s| ==> s[i] < s[j]
    requires |p| <= |s| && p == s[..|p|]
    ensures forall i, j :: 0 <= i < j < |p| ==> p[i] < p[j]
    ensures forall k :: k in p ==> k in s
    ensures |p| > 0 ==> forall k :: k in p ==> k <= p[|p| - 1]
  {
    assert forall i :: 0 <= i < |p| ==> p[i] == s[i];
  }

  /** A delivery that ran to its end without its last call throwing met no throwing call. */
  lemma NoThrowerReached(sent: seq<MarkerId>, callThrows: MarkerId -> bool)
    requires forall i :: 0 <= i < |sent| - 1 ==> !callThrows(sent[i])
    requires !(|sent| > 0 && callThrows(sent[|sent| - 1]))
    ensures forall k :: k in sent ==> !callThrows(k)
  {
  }

  /**
   * The forEach of releaseAllMyMarkers: delete each listed slot and
   * broadcast its release, in list order, until a broadcast throws.
   */
  method DropInOrder(t: Table, slots: seq<MarkerId>, callThrows: MarkerId -> bool)
    returns (table: Table, sent: seq<MarkerId>, threw: bool)
    ensures |sent| <= |slots| && sent == slots[..|sent|]
    ensures forall i :: 0 <= i < |sent| - 1 ==> !callThrows(sent[i])
    ensures threw <==> |sent| > 0 && callThrows(sent[|sent| - 1])
    ensures !threw ==> sent == slots
    ensures forall k :: k in table <==> k in t && k !in sent
    ensures SubTable(table, t)
  {
    table, sent, threw := t, [], false;
    var i := 0;
    while i < |slots|
      invariant 0 <= i <= |slots|
      invariant sent == slots[..i]
      invariant forall j :: 0 <= j < i ==> !callThrows(slots[j])
      invariant forall k :: k in table <==> k in t && k !in slots[..i]
      invariant SubTable(table, t)
    {
      assert slots[..i + 1] == slots[..i] + [slots[i]];
      table := table - {slots[i]};
      sent := sent + [slots[i]];
      if callThrows(slots[i]) {
        threw := true;
        return;
      }
      i := i + 1;
    }
    assert slots[..i] == slots;
  }

  /** Removing, one by one, the slots recorded for `p` is the disconnect cascade for `p`. */
  lemma DroppingOwnedSlots(t: Table, p: PlayerId, mine: seq<MarkerId>, table: Table)
    requires mine == Ascending(SlotsOf(t, p))
    requires forall k :: k in table <==> k in t && k !in mine
    requires SubTable(table, t)
    ensures table == ReleaseAllOf(t, p)
    ensures forall k :: k in mine <==> Owns(t, p, k)
  {
    assert table.Keys == ReleaseAllOf(t, p).Keys;
  }
}

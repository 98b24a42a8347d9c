/**
 * A whole client as `usePlayroom` keeps it: its replica of the reservation
 * table, the players it has seen join, and the events that change them.
 * Each event is one handler run to completion on the single event loop.
 */
module Replica {
  import opened Options
  import opened Notices
  import opened Reservations

  /**
   * The client's state: the table, the player registry and its cached size,
   * its own id, and whether the bus's call interface is loaded.
   */
  datatype State = State(
    table: Table,
    players: set<PlayerId>,
    playerCount: nat,
    me: PlayerId,
    rpcReady: bool)

  /** `playerCount` mirrors the size of the player registry. */
  predicate Valid(st: State) {
    st.playerCount == |st.players|
  }

  /** One handler run: an incoming call, a presence change, or a local operation. */
  datatype Event =
    | ClaimArrived(sender: PlayerId, slot: MarkerId)
    | ReleaseArrived(sender: PlayerId, slot: MarkerId)
    | CancelArrived(sender: PlayerId)
    | SnapshotArrived(sender: PlayerId, snapshot: Option<Table>)
    | PlayerJoined(player: PlayerId)
    | PlayerQuit(player: PlayerId)
      /** reserveMarker with nothing handled between its local check and its reply */
    | LocalClaim(slot: MarkerId, result: CallResult)
      /** the resumption of reserveMarker after other handlers ran during its await */
    | ClaimResumed(slot: MarkerId, result: CallResult)
    | LocalRelease(slot: MarkerId)
    | LocalReleaseAll

  /** onPlayerJoin: register the player and refresh the count. */
  function OnPlayerJoin(st: State, p: PlayerId): (r: State)
    ensures r.players == st.players + {p} && Valid(r)
    ensures r.table == st.table
  {
    var players := st.players + {p};
    st.(players := players, playerCount := |players|)
  }

  /**
   * player.onQuit: unregister the player, refresh the count, drop every slot
   * recorded for the player, and tell the listeners the player left.
   */
  function OnPlayerQuit(st: State, p: PlayerId): (r: (State, Notice))
    ensures r.0.players == st.players - {p} && Valid(r.0)
    ensures forall k :: k in r.0.table <==> k in st.table && st.table[k] != p
    ensures SubTable(r.0.table, st.table)
    ensures r.1 == PlayerLeft(p)
  {
    var players := st.players - {p};
    (st.(players := players, playerCount := |players|, table := ReleaseAllOf(st.table, p)), PlayerLeft(p))
  }

  /** The state after one event. */
  function Step(st: State, e: Event): (r: State)
    ensures r.me == st.me && r.rpcReady == st.rpcReady
    ensures Valid(st) ==> Valid(r)
  {
    match e
    case ClaimArrived(s, k) => st.(table := OnMarkerReserved(st.table, s, k).table)
    case ReleaseArrived(s, k) => st.(table := OnMarkerReleased(st.table, s, k).table)
    case CancelArrived(s) => st.(table := OnMarkerCancelled(st.table, s).table)
    case SnapshotArrived(s, snap) => st.(table := OnSyncResponse(st.table, s, snap).table)
    case PlayerJoined(p) => OnPlayerJoin(st, p)
    case PlayerQuit(p) => OnPlayerQuit(st, p).0
    case LocalClaim(k, res) => st.(table := Reserve(st.rpcReady, st.table, st.me, k, res).table)
    case ClaimResumed(k, res) => st.(table := ReserveFinish(st.table, st.me, k, res).table)
    case LocalRelease(k) => st.(table := ReleaseMarker(st.rpcReady, st.table, st.me, k).table)
    case LocalReleaseAll =>
      st.(table := if st.rpcReady then ReleaseAllOf(st.table, st.me) else st.table)
  }

  /** The state after a sequence of events, in order. */
  function Run(st: State, es: seq<Event>): State
    decreases |es|
  {
    if |es| == 0 then st else Run(Step(st, es[0]), es[1..])
  }

  /** The events by which owner `o` gives up slot `k` in the eyes of client `me`. */
  predicate ReleasedBy(e: Event, o: PlayerId, k: MarkerId, me: PlayerId) {
    match e
    case ReleaseArrived(s, j) => s == o && j == k
    case CancelArrived(s) => s == o
    case PlayerQuit(p) => p == o
    case LocalRelease(j) => me == o && j == k
    case LocalReleaseAll => me == o
    case _ => false
  }

  /**
   * No single event takes a held slot away from its owner except a release,
   * cancel or quit of that owner, or the resumption of a local claim, whose
   * write is not re-checked against the table.
   */
  lemma OnlyOwnerReleases(st: State, e: Event, o: PlayerId, k: MarkerId)
    requires o != "" && Owns(st.table, o, k)
    requires !Owns(Step(st, e).table, o, k)
    ensures ReleasedBy(e, o, k, st.me) || e.ClaimResumed?
  {
  }

  /** The incoming calls, and the sender each carries. */
  predicate IsIncoming(e: Event) {
    e.ClaimArrived? || e.ReleaseArrived? || e.CancelArrived? || e.SnapshotArrived?
  }

  /** A client's own broadcast, seen by its own handler without a sender id, changes nothing. */
  lemma OwnEchoChangesNothing(st: State, e: Event)
    requires IsIncoming(e) && e.sender == NoSender
    ensures Step(st, e) == st
  {
  }

  /** No event of the sequence is the resumption of a claim after other handlers ran. */
  predicate NoResumedClaims(es: seq<Event>) {
    forall i :: 0 <= i < |es| ==> !es[i].ClaimResumed?
  }

  /**
   * Along any run in which every local claim completes without other
   * handlers running in between, a slot held by `o` at the start and not by
   * `o` at the end was given up by `o` somewhere along the run: a replica
   * never hands an occupied slot to another owner without first seeing a
   * release, cancel or quit of the previous owner.
   */
  lemma {:induction false} OwnerChangeNeedsRelease(st: State, es: seq<Event>, o: PlayerId, k: MarkerId)
    requires o != "" && Owns(st.table, o, k)
    requires NoResumedClaims(es)
    requires !Owns(Run(st, es).table, o, k)
    ensures exists i :: 0 <= i < |es| && ReleasedBy(es[i], o, k, st.me)
    decreases |es|
  {
    var next := Step(st, es[0]);
    if Owns(next.table, o, k) {
      assert NoResumedClaims(es[1..]) by {
        forall i | 0 <= i < |es[1..]|
          ensures !es[1..][i].ClaimResumed?
        {
          assert es[1..][i] == es[i + 1];
        }
      }
      OwnerChangeNeedsRelease(next, es[1..], o, k);
      var i :| 0 <= i < |es[1..]| && ReleasedBy(es[1..][i], o, k, next.me);
      assert es[1..][i] == es[i + 1];
    } else {
      OnlyOwnerReleases(st, es[0], o, k);
      assert ReleasedBy(es[0], o, k, st.me);
    }
  }

  /** Every run keeps `playerCount` equal to the number of registered players. */
  lemma {:induction false} RunKeepsCount(st: State, es: seq<Event>)
    requires Valid(st)
    ensures Valid(Run(st, es))
    decreases |es|
  {
    if |es| > 0 {
      RunKeepsCount(Step(st, es[0]), es[1..]);
    }
  }

  /**
   * The resumed half of a claim overwrites an owner recorded while the claim
   * was awaiting its reply: `me` checks a free slot, a peer's claim for the
   * slot arrives and is accepted, then the reply comes back "ok" and `me`
   * takes the slot over without any release by the peer.
   */
  lemma ResumedClaimOverwrites(me: PlayerId, peer: PlayerId, k: MarkerId)
    requires me != NoSender && peer != NoSender && me != peer
    ensures var st := State(map[], {}, 0, me, true);
            var during := Step(st, ClaimArrived(peer, k));
            var after := Step(during, ClaimResumed(k, Answered(Ok)));
            && ReserveCheck(st.rpcReady, st.table, me, k)
            && Owns(during.table, peer, k)
            && Owns(after.table, me, k)
  {
  }

  // ---------------------------------------------------------------------
  // Handlers and calls that do not touch the table
  // ---------------------------------------------------------------------

  /** `marker-confirmed`: pass the peer's confirmation on to the listeners; ignore our own echo. */
  function OnMarkerConfirmed(sender: PlayerId, markerId: MarkerId, position: string): (r: (Reply, Option<Notice>))
    ensures r.0 == Ok
    ensures r.1.Some? <==> sender != NoSender
    ensures r.1.Some? ==> r.1.value.MarkerConfirmed? && r.1.value.playerId == sender
                          && r.1.value.markerId == markerId && r.1.value.position == position
  {
    if sender == NoSender then (Ok, None) else (Ok, Some(MarkerConfirmed(markerId, position, sender)))
  }

  /** `image-sent`: pass the peer's image on to the listeners; ignore our own echo. */
  function OnImageSent(sender: PlayerId, imageData: string, position: string, timestamp: int): (r: (Reply, Option<Notice>))
    ensures r.0 == Ok
    ensures r.1.Some? <==> sender != NoSender
    ensures r.1.Some? ==> r.1.value == ImageSent(imageData, position, sender, timestamp)
  {
    if sender == NoSender then (Ok, None) else (Ok, Some(ImageSent(imageData, position, sender, timestamp)))
  }

  /** A broadcast this client makes to all other clients. */
  datatype Outgoing =
    | ConfirmCall(markerId: MarkerId, position: string)
    | CancelCall
    | ImageCall(imageData: string, position: string)

  /** sendMarkerConfirmation: broadcast a confirmation when the bus is available. */
  function SendMarkerConfirmation(rpcReady: bool, markerId: MarkerId, position: string): (r: (bool, seq<Outgoing>))
    ensures r.0 <==> rpcReady
    ensures r.1 == if rpcReady then [ConfirmCall(markerId, position)] else []
  {
    if rpcReady then (true, [ConfirmCall(markerId, position)]) else (false, [])
  }

  /** cancelMarker: broadcast a cancel when the bus is available. */
  function CancelMarker(rpcReady: bool): (sent: seq<Outgoing>)
    ensures |sent| <= 1
    ensures sent != [] <==> rpcReady
    ensures forall i :: 0 <= i < |sent| ==> sent[i] == CancelCall
  {
    if rpcReady then [CancelCall] else []
  }

  /**
   * sendImage: broadcast an image; true unless the bus is missing or the
   * call throws synchronously.
   */
  function SendImage(rpcReady: bool, callThrows: bool, imageData: string, position: string): (r: (bool, seq<Outgoing>))
    ensures r.0 <==> rpcReady && !callThrows
    ensures r.0 ==> r.1 == [ImageCall(imageData, position)]
    ensures !rpcReady ==> r.1 == []
  {
    if !rpcReady then (false, [])
    else if callThrows then (false, [ImageCall(imageData, position)])
    else (true, [ImageCall(imageData, position)])
  }
}

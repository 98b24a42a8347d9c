/**
 * Properties that relate several reservation operations: idempotence of the
 * handlers, convergence of the bootstrap merge, and how one client's local
 * claim or release is mirrored by a peer's handler.
 */
module ReservationLaws {
  import opened Options
  import opened Reservations

  // ---------------------------------------------------------------------
  // Idempotence under duplicated delivery
  // ---------------------------------------------------------------------

  /** A claim delivered twice has the same effect, reply and notice as once. */
  lemma ClaimIdempotent(t: Table, sender: PlayerId, k: MarkerId)
    ensures OnMarkerReserved(OnMarkerReserved(t, sender, k).table, sender, k)
            == OnMarkerReserved(t, sender, k)
  {
  }

  /** A release delivered twice leaves the table as one delivery does, and the second is silent. */
  lemma ReleaseIdempotent(t: Table, sender: PlayerId, k: MarkerId)
    ensures var once := OnMarkerReleased(t, sender, k);
            var twice := OnMarkerReleased(once.table, sender, k);
            twice.table == once.table && twice.notice == None
  {
  }

  /** A release of a free slot, or from anyone but its recorded owner, changes nothing. */
  lemma ReleaseFromNonOwnerIgnored(t: Table, sender: PlayerId, k: MarkerId)
    requires !Owns(t, sender, k) || sender == NoSender
    ensures OnMarkerReleased(t, sender, k) == Handled(Ok, t, None)
  {
  }

  /** Merging the same snapshot again changes nothing. */
  lemma MergeIdempotent(t: Table, s: Table)
    ensures Merge(Merge(t, s), s) == Merge(t, s)
  {
    var once := Merge(t, s);
    var twice := Merge(once, s);
    assert twice.Keys == once.Keys;
    forall k | k in once
      ensures twice[k] == once[k]
    {
      if k in s && !Held(once, k) {
        assert !Held(t, k);
      }
    }
  }

  // ---------------------------------------------------------------------
  // Bootstrap convergence
  // ---------------------------------------------------------------------

  /** Two snapshots agree on every slot they both mention. */
  predicate Consistent(a: Table, b: Table) {
    forall k :: k in a && k in b ==> a[k] == b[k]
  }

  /** Every two snapshots of the sequence are consistent. */
  predicate AllConsistent(ss: seq<Table>) {
    forall i, j :: 0 <= i < |ss| && 0 <= j < |ss| ==> Consistent(ss[i], ss[j])
  }

  /** Merging consistent snapshots in either order gives the same replica. */
  lemma MergeOrderIrrelevant(t: Table, a: Table, b: Table)
    requires Consistent(a, b)
    ensures Merge(Merge(t, a), b) == Merge(Merge(t, b), a)
  {
    var ta, tb := Merge(t, a), Merge(t, b);
    var ab, ba := Merge(ta, b), Merge(tb, a);
    assert ab.Keys == ba.Keys;
    forall k | k in ab
      ensures ab[k] == ba[k]
    {
      if Held(t, k) {
        assert ab[k] == ta[k] == t[k];
        assert ba[k] == tb[k] == t[k];
      } else if k in a && k in b {
        assert a[k] == b[k];
        assert ta[k] == a[k] && tb[k] == b[k];
      } else if k in a {
        assert ab[k] == ta[k] == a[k];
      } else if k in b {
        assert ba[k] == tb[k] == b[k];
      }
    }
  }

  /** The replica after merging the snapshots in arrival order. */
  function MergeAll(t: Table, ss: seq<Table>): Table
  {
    if |ss| == 0 then t else Merge(MergeAll(t, ss[..|ss| - 1]), ss[|ss| - 1])
  }

  /** The union of the snapshots. */
  function UnionAll(ss: seq<Table>): Table
  {
    if |ss| == 0 then map[] else UnionAll(ss[..|ss| - 1]) + ss[|ss| - 1]
  }

  /** Every entry of the union comes from one of the snapshots. */
  lemma {:induction false} UnionEntryFromSome(ss: seq<Table>, k: MarkerId)
    requires k in UnionAll(ss)
    ensures exists i :: 0 <= i < |ss| && k in ss[i] && UnionAll(ss)[k] == ss[i][k]
  {
    var n := |ss|;
    if k !in ss[n - 1] {
      var pre := ss[..n - 1];
      UnionEntryFromSome(pre, k);
      var i :| 0 <= i < |pre| && k in pre[i] && UnionAll(pre)[k] == pre[i][k];
      assert ss[i] == pre[i];
    }
  }

  /**
   * A new client with an empty replica that receives consistent snapshots
   * from its peers, in any number and order, ends with exactly their union:
   * every slot any peer reported is recorded, with the owner it reported.
   */
  lemma {:induction false} BootstrapConverges(ss: seq<Table>)
    requires AllConsistent(ss)
    ensures MergeAll(map[], ss) == UnionAll(ss)
  {
    if |ss| > 0 {
      var pre := ss[..|ss| - 1];
      var s := ss[|ss| - 1];
      assert AllConsistent(pre) by {
        forall i, j | 0 <= i < |pre| && 0 <= j < |pre|
          ensures Consistent(pre[i], pre[j])
        {
          assert pre[i] == ss[i] && pre[j] == ss[j];
        }
      }
      BootstrapConverges(pre);
      var u := UnionAll(pre);
      var m := Merge(u, s);
      assert m.Keys == (u + s).Keys;
      forall k | k in m
        ensures m[k] == (u + s)[k]
      {
        if k in s && k in u {
          UnionEntryFromSome(pre, k);
          var i :| 0 <= i < |pre| && k in pre[i] && u[k] == pre[i][k];
          assert Consistent(ss[i], ss[|ss| - 1]);
        }
      }
    }
  }

  /** A sync round trip into an empty replica copies the answering peer's table. */
  lemma SyncRoundTrip(peer: Table, requester: PlayerId, answerer: PlayerId)
    requires requester != NoSender && answerer != NoSender
    ensures OnSyncResponse(map[], answerer, OnSyncRequest(peer, requester).response).table == peer
  {
    assert Merge(map[], peer) == peer;
  }

  // ---------------------------------------------------------------------
  // One client's operation mirrored by a peer's handler
  // ---------------------------------------------------------------------

  /**
   * When a local claim succeeds and a peer's replica shows the slot free or
   * already the claimant's, the peer's handler answers "ok" and records the
   * same owner, so the two replicas agree on that slot.
   */
  lemma ClaimPropagates(rpcReady: bool, mine: Table, peer: Table, me: PlayerId, k: MarkerId, result: CallResult)
    requires me != NoSender
    requires Reserve(rpcReady, mine, me, k, result).ok
    requires IsMarkerAvailable(peer, me, k)
    ensures var h := OnMarkerReserved(peer, me, k);
            h.reply == Ok && Owns(h.table, me, k)
            && Owns(Reserve(rpcReady, mine, me, k, result).table, me, k)
  {
  }

  /** A peer whose replica shows another owner answers "already-reserved", which makes the claim fail. */
  lemma ConflictFailsClaim(mine: Table, peer: Table, me: PlayerId, other: PlayerId, k: MarkerId)
    requires me != NoSender && other != "" && other != me
    requires Owns(peer, other, k) && IsMarkerAvailable(mine, me, k)
    ensures var h := OnMarkerReserved(peer, me, k);
            h.reply == AlreadyReserved
            && !Reserve(true, mine, me, k, Answered(h.reply)).ok
            && Reserve(true, mine, me, k, Answered(h.reply)).table == mine
  {
  }

  /** A local release is honoured by every peer that records this client as the owner. */
  lemma ReleasePropagates(rpcReady: bool, mine: Table, peer: Table, me: PlayerId, k: MarkerId)
    requires me != NoSender
    requires ReleaseMarker(rpcReady, mine, me, k).sent == Some(k)
    requires Owns(peer, me, k)
    ensures OnMarkerReleased(peer, me, k).table == peer - {k}
  {
  }

  /**
   * A client that joins after slot `k` was claimed, and learns of the claim
   * through the sync, refuses its own claim on `k` locally, without
   * broadcasting anything.
   */
  lemma LateJoinerRefusedLocally(owners: Table, owner: PlayerId, joiner: PlayerId, k: MarkerId, result: CallResult)
    requires owner != NoSender && joiner != NoSender && joiner != owner
    requires Owns(owners, owner, k)
    ensures var synced := OnSyncResponse(map[], owner, OnSyncRequest(owners, joiner).response).table;
            var c := Reserve(true, synced, joiner, k, result);
            !c.ok && !c.claimSent && c.table == synced
  {
    assert Merge(map[], owners) == owners;
  }

  /**
   * Two clients that claim the same free slot while neither replica yet shows
   * the other's claim both succeed, and each then refuses the other's
   * broadcast: the replicas disagree about the owner and stay that way.
   * Nothing in the protocol breaks such a tie.
   */
  lemma ConcurrentClaimsCanDiverge(a: PlayerId, b: PlayerId, k: MarkerId)
    requires a != NoSender && b != NoSender && a != b
    ensures var ca := Reserve(true, map[], a, k, Answered(Ok));
            var cb := Reserve(true, map[], b, k, Answered(Ok));
            && ca.ok && cb.ok
            && OnMarkerReserved(ca.table, b, k).reply == AlreadyReserved
            && OnMarkerReserved(cb.table, a, k).reply == AlreadyReserved
            && GetMarkerOwner(OnMarkerReserved(ca.table, b, k).table, k) == Some(a)
            && GetMarkerOwner(OnMarkerReserved(cb.table, a, k).table, k) == Some(b)
  {
  }
}

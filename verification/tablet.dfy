/**
 * The shared tablet canvas: one presence dot per player and the list of
 * collage images, both driven by the notices the tablet's listener receives,
 * plus the pieces of rendering that are plain integer logic.
 */
module Tablet {
  import opened Options
  import opened Notices
  import MarkerConfig

  datatype Status = Active | Inactive | Exiting

  /** A player's presence dot at the edge of the canvas. */
  datatype Dot = Dot(position: string, status: Status, isPopping: bool)

  /** A photo placed on the collage. */
  datatype CollageImage = CollageImage(id: string, src: string, position: string, playerId: string, timestamp: int)

  /** The `dots` and `collageImages` state of the tablet page. */
  datatype Canvas = Canvas(dots: map<string, Dot>, images: seq<CollageImage>)

  /**
   * What one notice does: the new canvas, and the player whose dot a
   * 600 ms timer will delete afterwards, if any.
   */
  datatype Reaction = Reaction(canvas: Canvas, removalFor: Option<string>)

  // ---------------------------------------------------------------------
  // Dot transitions
  // ---------------------------------------------------------------------

  /** marker-confirmed: the player's dot becomes an active dot at the given position. */
  function Confirm(dots: map<string, Dot>, player: string, position: string): (r: map<string, Dot>)
    ensures r.Keys == dots.Keys + {player}
    ensures r[player] == Dot(position, Active, false)
    ensures forall p :: p in dots && p != player ==> r[p] == dots[p]
  {
    dots[player := Dot(position, Active, false)]
  }

  /** marker-cancelled: an existing dot turns inactive in place; no dot, no change. */
  function Deactivate(dots: map<string, Dot>, player: string): (r: map<string, Dot>)
    ensures r.Keys == dots.Keys
    ensures player in dots ==> r[player] == dots[player].(status := Inactive)
    ensures forall p :: p in dots && p != player ==> r[p] == dots[p]
  {
    if player !in dots then dots else dots[player := dots[player].(status := Inactive)]
  }

  /** player-left: an existing dot starts its exit animation; no dot, no change. */
  function StartExit(dots: map<string, Dot>, player: string): (r: map<string, Dot>)
    ensures r.Keys == dots.Keys
    ensures player in dots ==> r[player] == dots[player].(status := Exiting)
    ensures forall p :: p in dots && p != player ==> r[p] == dots[p]
  {
    if player !in dots then dots else dots[player := dots[player].(status := Exiting)]
  }

  /** The timer after player-left: delete that player's key, whatever its dot is by then. */
  function RemoveDot(dots: map<string, Dot>, player: string): (r: map<string, Dot>)
    ensures r.Keys == dots.Keys - {player}
    ensures forall p :: p in r ==> r[p] == dots[p]
  {
    dots - {player}
  }

  /** image-sent: append the new image after all earlier ones. */
  function AddImage(images: seq<CollageImage>, img: CollageImage): (r: seq<CollageImage>)
    ensures |r| == |images| + 1
    ensures r[..|images|] == images && r[|images|] == img
    ensures forall x :: x in r <==> x in images || x == img
  {
    images + [img]
  }

  /**
   * The tablet's listener.  `freshId` is the id `crypto.randomUUID()` gives
   * a new image.  Reservation notices are only logged.
   */
  function OnNotice(c: Canvas, n: Notice, freshId: string): (r: Reaction)
    ensures n.MarkerReserved? || n.MarkerReleased? ==> r == Reaction(c, None)
    ensures !n.ImageSent? ==> r.canvas.images == c.images
    ensures !(n.MarkerConfirmed? || n.MarkerCancelled? || n.PlayerLeft?) ==> r.canvas.dots == c.dots
    ensures r.removalFor.Some? <==> n.PlayerLeft?
    ensures n.MarkerConfirmed? ==> r.canvas.dots == Confirm(c.dots, n.playerId, n.position)
    ensures n.MarkerCancelled? ==> r.canvas.dots == Deactivate(c.dots, n.playerId)
    ensures n.PlayerLeft? ==> r.canvas.dots == StartExit(c.dots, n.playerId) && r.removalFor == Some(n.playerId)
    ensures n.ImageSent? ==>
              r.canvas.images == AddImage(c.images, CollageImage(freshId, n.imageData, n.position, n.playerId, n.timestamp))
  {
    match n
    case MarkerConfirmed(_, position, player) =>
      Reaction(c.(dots := Confirm(c.dots, player, position)), None)
    case MarkerCancelled(player) =>
      Reaction(c.(dots := Deactivate(c.dots, player)), None)
    case MarkerReserved(_, _) => Reaction(c, None)
    case MarkerReleased(_, _) => Reaction(c, None)
    case ImageSent(data, position, player, timestamp) =>
      Reaction(c.(images := AddImage(c.images, CollageImage(freshId, data, position, player, timestamp))), None)
    case PlayerLeft(player) =>
      Reaction(c.(dots := StartExit(c.dots, player)), Some(player))
  }

  /** A player who leaves loses their dot once the removal timer fires; every other dot is untouched. */
  lemma LeaveThenRemove(c: Canvas, player: string, freshId: string)
    ensures var r := OnNotice(c, PlayerLeft(player), freshId);
            && r.removalFor == Some(player)
            && player !in RemoveDot(r.canvas.dots, player)
            && (forall p :: p in c.dots && p != player ==>
                  p in RemoveDot(r.canvas.dots, player) && RemoveDot(r.canvas.dots, player)[p] == c.dots[p])
  {
  }

  /**
   * The removal timer does not look at the dot it deletes: a player who
   * confirms a marker again before it fires loses the new active dot too.
   */
  lemma RejoinBeforeRemovalIsLost(c: Canvas, player: string, position: string, freshId: string)
    ensures var left := OnNotice(c, PlayerLeft(player), freshId);
            var back := OnNotice(left.canvas, MarkerConfirmed(0, position, player), freshId);
            && back.canvas.dots[player].status == Active
            && player !in RemoveDot(back.canvas.dots, left.removalFor.value)
  {
  }

  // ---------------------------------------------------------------------
  // Rendering
  // ---------------------------------------------------------------------

  /** The positions DOT_INDICATOR_CONFIG (and IMAGE_POSITION_CONFIG) know. */
  const ConfiguredPositions: set<string> := {
    "top-left", "top-center", "top-right",
    "center-left", "left-center", "center-right", "right-center",
    "bottom-left", "bottom-center", "bottom-right"
  }

  /** How a dot is drawn. */
  datatype DotLook = DotLook(inactive: bool, exiting: bool, size: nat)

  /** A dot is drawn only when its position is configured; inactive and exiting dots are drawn dimmed and smaller. */
  function RenderDot(d: Dot): (look: Option<DotLook>)
    ensures look.Some? <==> d.position in ConfiguredPositions
    ensures look.Some? ==> (look.value.inactive <==> d.status == Inactive || d.status == Exiting)
    ensures look.Some? ==> (look.value.exiting <==> d.status == Exiting)
    ensures look.Some? ==> look.value.size == (if look.value.inactive then 32 else 40)
  {
    if d.position !in ConfiguredPositions then None
    else
      var exiting := d.status == Exiting;
      var inactive := d.status == Inactive || exiting;
      Some(DotLook(inactive, exiting, if inactive then 32 else 40))
  }

  /** Every seating position of the marker table has a dot and an image placement. */
  lemma MarkerPositionsAreDrawn(id: int)
    requires id in MarkerConfig.MarkerPositions
    ensures MarkerConfig.MarkerPositions[id] in ConfiguredPositions
  {
  }

  /** A confirmation from a marker's position always yields a drawn, active dot. */
  lemma ConfirmedMarkerDotIsDrawn(c: Canvas, id: nat, player: string, freshId: string)
    requires id in MarkerConfig.MarkerPositions
    ensures var r := OnNotice(c, MarkerConfirmed(id, MarkerConfig.MarkerPositions[id], player), freshId);
            var look := RenderDot(r.canvas.dots[player]);
            look.Some? && !look.value.inactive
  {
  }

  /** The sum of the character codes of an image id. */
  function Hash(id: string): (h: nat)
    ensures |id| == 0 ==> h == 0
    ensures |id| == 1 ==> h == id[0] as nat
    ensures forall i :: 0 <= i < |id| ==> id[i] as nat <= h
    decreases |id|
  {
    if |id| == 0 then 0
    else
      var pre := id[..|id| - 1];
      assert forall i :: 0 <= i < |pre| ==> pre[i] == id[i];
      Hash(pre) + (id[|id| - 1] as nat)
  }

  /** The hash of a joined id is the sum of the hashes of its parts. */
  lemma {:induction false} HashAppend(a: string, b: string)
    ensures Hash(a + b) == Hash(a) + Hash(b)
    decreases |b|
  {
    if |b| == 0 {
      assert a + b == a;
    } else {
      var pre := b[..|b| - 1];
      assert (a + b)[..|a + b| - 1] == a + pre;
      HashAppend(a, pre);
    }
  }

  /** An image's pixel offset and rotation, derived from its hash. */
  datatype Placement = Placement(offsetX: int, offsetY: int, rotation: int)

  /** The stacking jitter of an image with the given (non-negative) hash. */
  function PlacementOf(hash: nat): (p: Placement)
    ensures -15 <= p.offsetX <= 14 && -15 <= p.offsetY <= 14
    ensures -10 <= p.rotation <= 9
    ensures p.offsetX + 15 == hash % 30 && p.rotation + 10 == hash % 20
    ensures p.offsetY + 15 == (hash * 7) % 30
  {
    Placement((hash % 30) - 15, ((hash * 7) % 30) - 15, (hash % 20) - 10)
  }

  /** The offset and rotation of a collage image, from the hash of its id. */
  function ImagePlacement(id: string): (p: Placement)
    ensures -15 <= p.offsetX <= 14 && -15 <= p.offsetY <= 14
    ensures -10 <= p.rotation <= 9
    ensures p.offsetX + 15 == Hash(id) % 30 && p.rotation + 10 == Hash(id) % 20
    ensures p.offsetY + 15 == (Hash(id) * 7) % 30
  {
    PlacementOf(Hash(id))
  }

  /**
   * The hash ignores where the characters stand, so ids made of the same
   * two halves in either order get the same placement and stack exactly.
   */
  lemma SwappedHalvesStack(a: string, b: string)
    ensures ImagePlacement(a + b) == ImagePlacement(b + a)
  {
    SwappedHalvesHash(a, b);
  }

  /** Swapping the two halves of an id leaves its hash unchanged. */
  lemma SwappedHalvesHash(a: string, b: string)
    ensures Hash(a + b) == Hash(b + a)
  {
    HashAppend(a, b);
    HashAppend(b, a);
  }

  /** The jitter repeats every 60 hash units, so images whose hashes differ by 60 stack exactly. */
  lemma PlacementPeriodic(hash: nat)
    ensures PlacementOf(hash + 60) == PlacementOf(hash)
  {
    assert (hash + 60) % 30 == hash % 30;
    assert (hash + 60) % 20 == hash % 20;
    assert ((hash + 60) * 7) % 30 == (hash * 7 + 420) % 30 == (hash * 7) % 30;
  }

  // ---------------------------------------------------------------------
  // The printed marker sheet
  // ---------------------------------------------------------------------

  /** One marker image shown on the tablet for the phones to scan. */
  datatype MarkerTile = MarkerTile(id: nat, src: string)

  /** The image file of a marker id below ten: the fixed path, the id's digit, then `.png`. */
  function TileSource(id: nat): (src: string)
    requires id < 10
    ensures |src| == 40
    ensures src[..35] == "assets/markers/AprilTag-tag36h11-ID" && src[36..] == ".png"
    ensures '0' <= src[35] <= '9' && src[35] as int - '0' as int == id
  {
    "assets/markers/AprilTag-tag36h11-ID" + [('0' as int + id) as char] + ".png"
  }

  /** The `markers` list: one tile per entry of MARKER_POSITIONS, in key order. */
  function MarkerTiles(): (tiles: seq<MarkerTile>)
    ensures |tiles| == |MarkerConfig.ValidMarkerIds|
    ensures forall i :: 0 <= i < |tiles| ==> tiles[i].id == MarkerConfig.ValidMarkerIds[i]
    ensures forall i :: 0 <= i < |tiles| ==> tiles[i].id < 10 && tiles[i].src == TileSource(tiles[i].id)
    ensures forall i, j :: 0 <= i < j < |tiles| ==> tiles[i].src != tiles[j].src
  {
    var tiles := seq(8, (i: int) requires 0 <= i < 8 => MarkerTile(i, TileSource(i)));
    assert forall i, j :: 0 <= i < j < 8 ==> tiles[i].src[35] != tiles[j].src[35];
    tiles
  }
}

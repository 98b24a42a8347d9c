/**
 * The fixed slot domain: eight marker ids, the seating position each id
 * stands for, and the human-readable label of each position.
 */
module MarkerConfig {
  import opened Options

  /** MARKER_POSITIONS: marker id to position name. */
  const MarkerPositions: map<int, string> := map[
    0 := "top-left",
    1 := "top-center",
    2 := "top-right",
    3 := "right-center",
    4 := "bottom-right",
    5 := "bottom-center",
    6 := "bottom-left",
    7 := "left-center"
  ]

  /** POSITION_LABELS: position name to display label. */
  const PositionLabels: map<string, string> := map[
    "top-left" := "Top-Left",
    "top-center" := "Top-Center",
    "top-right" := "Top-Right",
    "right-center" := "Right-Center",
    "bottom-right" := "Bottom-Right",
    "bottom-center" := "Bottom-Center",
    "bottom-left" := "Bottom-Left",
    "left-center" := "Left-Center"
  ]

  /** VALID_MARKER_IDS. */
  const ValidMarkerIds: seq<int> := [0, 1, 2, 3, 4, 5, 6, 7]

  const UnknownLabel: string := "Unknown"

  /** `MARKER_POSITIONS[id]`: the position of a marker id, if it has one. */
  function PositionOf(id: int): (p: Option<string>)
    ensures p.Some? <==> 0 <= id < 8
    ensures p.Some? ==> p.value in PositionLabels && p.value != ""
  {
    if id in MarkerPositions then Some(MarkerPositions[id]) else None
  }

  /** getPositionLabel: the label of a marker's position, or "Unknown". */
  function GetPositionLabel(id: int): (text: string)
    ensures 0 <= id < 8 ==> text == PositionLabels[MarkerPositions[id]]
    ensures !(0 <= id < 8) ==> text == UnknownLabel
  {
    match PositionOf(id)
    case Some(pos) => PositionLabels[pos]
    case None => UnknownLabel
  }

  /** The keys of MARKER_POSITIONS are exactly the ids 0 through 7. */
  lemma MarkerIdsAreZeroToSeven()
    ensures forall id :: id in MarkerPositions <==> 0 <= id < 8
  {
  }

  /** Distinct markers stand for distinct positions. */
  lemma PositionsDistinct()
    ensures forall i, j :: i in MarkerPositions && j in MarkerPositions && i != j ==>
              MarkerPositions[i] != MarkerPositions[j]
  {
  }

  /** Every position a marker names has a label, and distinct positions have distinct labels. */
  lemma PositionsLabelled()
    ensures forall id :: id in MarkerPositions ==> MarkerPositions[id] in PositionLabels
    ensures forall i, j :: i in MarkerPositions && j in MarkerPositions && i != j ==>
              PositionLabels[MarkerPositions[i]] != PositionLabels[MarkerPositions[j]]
  {
  }

  /** VALID_MARKER_IDS lists the keys of MARKER_POSITIONS once each, ascending. */
  lemma ValidIdsAreTheKeys()
    ensures forall i :: 0 <= i < |ValidMarkerIds| ==> ValidMarkerIds[i] in MarkerPositions
    ensures forall id :: id in MarkerPositions ==> id in ValidMarkerIds
    ensures forall i, j :: 0 <= i < j < |ValidMarkerIds| ==> ValidMarkerIds[i] < ValidMarkerIds[j]
  {
  }
}

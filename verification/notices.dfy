/**
 * The event objects a client hands to its local message listeners
 * (`globalState.listeners`), one constructor per `type` string.
 */
module Notices {

  datatype Notice =
    | MarkerConfirmed(markerId: nat, position: string, playerId: string)
    | MarkerCancelled(playerId: string)
    | MarkerReserved(markerId: nat, playerId: string)
    | MarkerReleased(markerId: nat, playerId: string)
    | ImageSent(imageData: string, position: string, playerId: string, timestamp: int)
    | PlayerLeft(playerId: string)
}

/** The data records exchanged between the lobby server and its clients
    (MKXLobbyModels), plus the small wrappers the server model needs. */
module LobbyModels {

  /** A .NET reference or nullable string that may be null. */
  datatype Option<+T> = None | Some(value: T)

  /** The exceptions the server operations can let escape to the caller. */
  datatype Exception =
    | KeyNotFound    // a Dictionary indexer was given a missing key
    | ArgumentNull   // a Dictionary lookup was given a null key

  /** How a server operation ends: it returns a value, or an exception escapes it.
      The state changes made before the exception are kept (no rollback). */
  datatype Outcome<+T> = Normal(value: T) | Thrown(error: Exception)

  /** File contents are opaque bytes. */
  newtype byte = x: int | 0 <= x < 256

  /** A logged-in player. `currentRoom` is None while the player is in the main lobby.
      `loginTime` is a reading of the server clock. */
  datatype Player = Player(
    username: string,
    currentRoom: Option<string>,
    loginTime: nat,
    isOnline: bool)

  /** A chat room and the usernames of its players, in the order they were added. */
  datatype LobbyRoom = LobbyRoom(
    roomName: string,
    players: seq<string>,
    createdTime: nat,
    createdBy: string)

  /** A chat message. Public messages carry a room and no recipient, private
      messages carry a recipient; `timestamp` is overwritten by the server. */
  datatype ChatMessage = ChatMessage(
    from: string,
    to: Option<string>,
    content: string,
    timestamp: nat,
    roomName: Option<string>,
    isPrivate: bool)

  /** A file shared in a room; `sharedTime` is overwritten by the server. */
  datatype SharedFile = SharedFile(
    fileName: string,
    fileContent: seq<byte>,
    sharedBy: string,
    sharedTime: nat,
    roomName: string,
    fileType: string)

  /** A new room as the LobbyRoom constructor and CreateRoom's initializer build
      it: no players yet. */
  function NewRoom(roomName: string, createdBy: string, now: nat): (r: LobbyRoom)
    ensures r.players == [] && r.roomName == roomName && r.createdBy == createdBy
  {
    LobbyRoom(roomName, [], now, createdBy)
  }
}

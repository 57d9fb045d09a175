/** LobbyService (MKXLobbyServer/LobbyService.cs): the one-way lobby server.
    Its dictionaries and lists are fields updated in place; every operation
    is proved to move the fields exactly as the matching LobbyStore function
    moves the state value. */
module LobbyServer {
  import opened LobbyModels
  import opened Sequences
  import opened LobbyStore

  class LobbyService {
    var players: map<string, Player>
    var rooms: map<string, LobbyRoom>
    var messages: seq<ChatMessage>
    var files: seq<SharedFile>
    /** Stands for DateTime.Now: every reading returns the current value and advances it. */
    var clock: nat

    /** The fields as a state value. */
    function Model(): Store
      reads this
    {
      Store(players, rooms, messages, files, clock)
    }

    ghost predicate Valid()
      reads this
    {
      Wf(Model())
    }

    constructor ()
      ensures Model() == Initial() && Valid()
    {
      players, rooms, messages, files, clock := map[], map[], [], [], 0;
    }

    /** DateTime.Now. */
    method Now() returns (now: nat)
      modifies this
      ensures now == old(clock)
      ensures Model() == old(Model()).(clock := old(clock) + 1)
    {
      now := clock;
      clock := clock + 1;
    }

    method LoginPlayer(username: string) returns (ok: bool)
      requires Valid()
      modifies this
      ensures Valid()
      ensures (Model(), ok) == Login(old(Model()), username)
    {
      if username in players {
        return false;
      }
      var now := Now();
      players := players[username := Player(username, None, now, true)];
      ok := true;
    }

    method LogoutPlayer(username: string)
      requires Valid()
      modifies this
      ensures Valid()
      ensures Model() == Logout(old(Model()), username)
    {
      if username in players {
        LeaveRoom(username);
        players := players - {username};
      }
    }

    method CreateRoom(roomName: string, createdBy: string, username: string) returns (res: Outcome<bool>)
      requires Valid()
      modifies this
      ensures Valid()
      ensures (Model(), res) == Create(old(Model()), roomName, createdBy, username)
    {
      if roomName in rooms {
        return Normal(false);
      }
      ghost var s := Model();
      var now := Now();
      rooms := rooms[roomName := NewRoom(roomName, createdBy, now)];
      rooms := rooms[roomName := rooms[roomName].(players := rooms[roomName].players + [username])];
      assert rooms[roomName] == LobbyRoom(roomName, [username], now, createdBy);
      assert rooms == s.rooms[roomName := LobbyRoom(roomName, [username], s.clock, createdBy)];
      if username !in players {
        return Thrown(KeyNotFound);
      }
      players := players[username := players[username].(currentRoom := Some(roomName))];
      res := Normal(true);
    }

    method JoinRoom(roomName: string, username: string) returns (res: Outcome<bool>)
      requires Valid()
      modifies this
      ensures Valid()
      ensures (Model(), res) == Join(old(Model()), roomName, username)
    {
      if roomName !in rooms || username !in players {
        return Normal(false);
      }
      ghost var s := Model();
      LeaveRoom(username);
      if roomName !in rooms {
        return Thrown(KeyNotFound);
      }
      rooms := rooms[roomName := rooms[roomName].(players := rooms[roomName].players + [username])];
      players := players[username := players[username].(currentRoom := Some(roomName))];
      res := Normal(true);
      assert (Model(), res) == Join(s, roomName, username);
    }

    method LeaveRoom(username: string)
      requires Valid()
      modifies this
      ensures Valid()
      ensures Model() == Leave(old(Model()), username)
    {
      if username !in players {
        return;
      }
      var currentRoom := players[username].currentRoom;
      if currentRoom.Some? && currentRoom.value != "" && currentRoom.value in rooms {
        var c := currentRoom.value;
        ghost var s := Model();
        assert LeaveTarget(s, username) == Some(c);
        LeaveFromWf(s, username, c);
        var rest := RemoveFirst(rooms[c].players, username);
        rooms := rooms[c := rooms[c].(players := rest)];
        players := players[username := players[username].(currentRoom := None)];
        if rooms[c].players == [] {
          rooms := rooms - {c};
          assert rooms == s.rooms - {c};
        }
        assert Model() == LeaveFrom(s, username, c);
      }
    }

    method SendMessage(message: ChatMessage) returns (stamped: ChatMessage)
      requires Valid()
      modifies this
      ensures Valid()
      ensures Model() == Send(old(Model()), message)
      ensures stamped == message.(timestamp := old(clock))
    {
      var now := Now();
      stamped := message.(timestamp := now);
      messages := messages + [stamped];
    }

    method ShareFile(file: SharedFile) returns (ok: bool, stamped: SharedFile)
      requires Valid()
      modifies this
      ensures Valid()
      ensures (Model(), ok) == Share(old(Model()), file)
      ensures stamped == file.(sharedTime := old(clock))
    {
      var now := Now();
      stamped := file.(sharedTime := now);
      files := files + [stamped];
      ok := true;
    }

    /** GetOnlinePlayers: every online username once, in dictionary order. */
    method GetOnlinePlayers() returns (names: seq<string>)
      ensures Enumerates(names, players.Keys)
    {
      names := [];
      var pending := players.Keys;
      while pending != {}
        invariant pending <= players.Keys
        invariant NoDup(names)
        invariant forall k | k in names :: k in players && k !in pending
        invariant forall k | k in players && k !in pending :: k in names
        decreases |pending|
      {
        var k :| k in pending;
        AppendNoDup(names, k);
        names := names + [k];
        pending := pending - {k};
      }
    }

    /** GetAvailableRooms: every room once, in the dictionary order `names`
        of their keys. */
    method GetAvailableRooms() returns (list: seq<LobbyRoom>, ghost names: seq<string>)
      ensures Enumerates(names, rooms.Keys)
      ensures |list| == |names|
      ensures forall i | 0 <= i < |list| :: list[i] == rooms[names[i]]
    {
      list, names := [], [];
      var pending := rooms.Keys;
      while pending != {}
        invariant pending <= rooms.Keys
        invariant NoDup(names)
        invariant forall k | k in names :: k in rooms && k !in pending
        invariant forall k | k in rooms && k !in pending :: k in names
        invariant |list| == |names|
        invariant forall i | 0 <= i < |list| :: names[i] in rooms && list[i] == rooms[names[i]]
        decreases |pending|
      {
        var k :| k in pending;
        AppendNoDup(names, k);
        list, names := list + [rooms[k]], names + [k];
        pending := pending - {k};
      }
    }
  }
}

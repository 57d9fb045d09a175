/** LobbyServiceD (MKXLobbyServerDuplex/LobbyServiceD.cs): the duplex lobby
    server that pushes updates to subscribed clients.  Its lobby state
    behaves exactly as LobbyService's (the LobbyStore functions); on top of
    it, each operation appends to `log` the callback invocations it makes.
    A failed invocation is caught and logged by the server; it changes
    nothing. */
module LobbyServerDuplex {
  import opened LobbyModels
  import opened Sequences
  import opened LobbyStore
  import opened Callbacks

  /** The notices of ILobbyServiceCallback.  The room list is the rooms
      dictionary: the order of GetAvailableRooms is not modelled.  A room
      data notice names the room and the state its three lists were read
      from; RoomDataLists gives the lists. */
  datatype ServiceEvent =
    | RoomListUpdated(rooms: map<string, LobbyRoom>)
    | RoomDataUpdated(roomName: string, snapshot: Store)
    | PrivateMessageReceived(message: ChatMessage)
    | PlayerJoinedRoom(roomName: string, username: string)
    | PlayerLeftRoom(roomName: string, username: string)

  /** The messages, players and files OnRoomDataUpdated receives for room
      `r` in state `s`: GetRoomMessages, GetPlayersInRoom, GetSharedFiles. */
  function RoomDataLists(s: Store, r: string): (seq<ChatMessage>, seq<string>, seq<SharedFile>) {
    (RoomMessages(s, r), PlayersInRoom(s, r), SharedFiles(s, r))
  }

  /** The lists of a room data notice are the room's public messages, its
      players and its files, each in the order they were logged. */
  lemma RoomDataContents(s: Store, r: string)
    requires Wf(s)
    ensures var (ms, ps, fs) := RoomDataLists(s, r);
      && ms == Filter(s.messages, IsRoomMessage(r))
      && ps == (if r in s.rooms then s.rooms[r].players else [])
      && fs == Filter(s.files, IsRoomFile(r))
  {
    QueriesInLogOrder(s, r, "");
  }

  /** The notice NotifyRoomDataUpdated sends for room `r`. */
  function RoomData(s: Store, r: string): ServiceEvent {
    RoomDataUpdated(r, s)
  }

  /** NotifyRoomDataUpdated: the room snapshot to every subscribed member. */
  function RoomDataNotices(s: Store, cb: map<string, Handle>, r: string, broken: set<Handle>): seq<Attempt<ServiceEvent>> {
    FanOut(PlayersInRoom(s, r), cb, RoomData(s, r), broken)
  }

  /** LeaveRoom deletes the room it acts on. */
  predicate LeaveDeletesRoom(s: Store, u: string) {
    LeaveTarget(s, u).Some? && LeaveTarget(s, u).value !in Leave(s, u).rooms
  }

  /** The notices of LeaveRoom: PlayerLeftRoom to the members still listed,
      then either the new room list to every subscriber (the room was
      emptied and deleted; `order` enumerates the subscribers) or the room
      snapshot to its members. */
  function LeaveNotices(s: Store, cb: map<string, Handle>, u: string, order: seq<string>, broken: set<Handle>): seq<Attempt<ServiceEvent>> {
    match LeaveTarget(s, u)
    case None => []
    case Some(c) =>
      var rest := RemoveFirst(s.rooms[c].players, u);
      var t := LeaveFrom(s, u, c);
      FanOut(rest, cb, PlayerLeftRoom(c, u), broken) +
      (if rest == [] then FanOut(order, cb, RoomListUpdated(t.rooms), broken)
       else RoomDataNotices(t, cb, c, broken))
  }

  /** NotifyPrivateMessage: the sender, then the recipient; a null recipient
      makes the dictionary lookup throw after the sender was served. */
  function PrivateNotices(cb: map<string, Handle>, m: ChatMessage, broken: set<Handle>): seq<Attempt<ServiceEvent>> {
    Deliver(m.from, cb, PrivateMessageReceived(m), broken) +
    (if m.to.Some? then Deliver(m.to.value, cb, PrivateMessageReceived(m), broken) else [])
  }

  /** The notices of SendMessage, sent from the state `t` after the append. */
  function SendNotices(t: Store, cb: map<string, Handle>, m: ChatMessage, broken: set<Handle>): seq<Attempt<ServiceEvent>> {
    if m.isPrivate then PrivateNotices(cb, m, broken)
    else if m.roomName.Some? then RoomDataNotices(t, cb, m.roomName.value, broken)
    else []
  }

  /** Every member notified of a room snapshot receives the same snapshot,
      with the lists read once from state `s`. */
  lemma RoomDataPayloadShared(s: Store, cb: map<string, Handle>, r: string, broken: set<Handle>)
    ensures forall a | a in RoomDataNotices(s, cb, r, broken) ::
      a.event == RoomDataUpdated(r, s) && RoomDataLists(a.event.snapshot, r) == RoomDataLists(s, r) &&
      a.user in PlayersInRoom(s, r) && a.user in cb && a.handle == cb[a.user]
  {
    FanOutSpec(PlayersInRoom(s, r), cb, RoomData(s, r), broken);
  }

  /** In a consistent lobby, a notice to the members of room `r` reaches
      each subscribed member once and nobody else. */
  lemma RoomAudience(t: Store, r: string, cb: map<string, Handle>, ev: ServiceEvent, broken: set<Handle>)
    requires Inv(t)
    ensures var us := Users(FanOut(PlayersInRoom(t, r), cb, ev, broken));
      && NoDup(us)
      && (forall v | v in us :: v in PlayersInRoom(t, r) && v in cb)
      && (forall v | v in PlayersInRoom(t, r) && v in cb :: v in us)
  {
    assert NoDup(PlayersInRoom(t, r));
    FanOutOncePerMember(PlayersInRoom(t, r), cb, ev, broken);
  }

  /** In a consistent lobby, PlayerLeftRoom goes to the subscribed members
      of the room other than the leaver, once each, and the room is deleted
      exactly when the leaver was its only member. */
  lemma LeftRoomAudience(s: Store, u: string, c: string, cb: map<string, Handle>, broken: set<Handle>)
    requires Inv(s) && u in s.players && s.players[u].currentRoom == Some(c) && c != ""
    ensures LeaveTarget(s, u) == Some(c)
    ensures LeaveDeletesRoom(s, u) <==> s.rooms[c].players == [u]
    ensures var us := Users(FanOut(RemoveFirst(s.rooms[c].players, u), cb, PlayerLeftRoom(c, u), broken));
      && NoDup(us)
      && u !in us
      && (forall v | v in us :: v in s.rooms[c].players && v in cb)
      && (forall v | v in s.rooms[c].players && v != u && v in cb :: v in us)
  {
    var ps := s.rooms[c].players;
    var rest := RemoveFirst(ps, u);
    RemoveFirstNoDup(ps, u);
    RemoveFirstSpec(ps, u);
    FanOutOncePerMember(rest, cb, PlayerLeftRoom(c, u), broken);
    if rest == [] {
      assert |ps| == 1 && ps[0] == u;
      assert ps == [u];
    }
    if ps == [u] {
      assert rest == [];
    }
  }

  /** In a consistent lobby, the notices of a successful JoinRoom go to
      every subscribed member of the room, the joiner included. */
  lemma JoinedRoomAudience(s: Store, r: string, u: string, cb: map<string, Handle>, broken: set<Handle>)
    requires Inv(s) && Join(s, r, u).1 == Normal(true)
    requires s.players[u].currentRoom != Some("")
    ensures var t := Join(s, r, u).0;
      var us := Users(FanOut(PlayersInRoom(t, r), cb, PlayerJoinedRoom(r, u), broken));
      && NoDup(us)
      && (u in cb ==> u in us)
      && (forall v | v in us :: v in t.rooms[r].players && v in cb)
      && (forall v | v in t.rooms[r].players && v in cb :: v in us)
  {
    JoinPreservesInv(s, r, u);
    RoomAudience(Join(s, r, u).0, r, cb, PlayerJoinedRoom(r, u), broken);
  }

  /** A private message to oneself reaches the subscribed sender twice. */
  lemma SelfPrivateMessageTwice(cb: map<string, Handle>, m: ChatMessage, broken: set<Handle>)
    requires m.to == Some(m.from) && m.from in cb
    ensures var a := Attempt(m.from, cb[m.from], PrivateMessageReceived(m), cb[m.from] !in broken);
      PrivateNotices(cb, m, broken) == [a, a]
  {
  }

  class LobbyServiceD {
    var players: map<string, Player>
    var rooms: map<string, LobbyRoom>
    var messages: seq<ChatMessage>
    var files: seq<SharedFile>
    var clock: nat
    /** clientCallbacks: the callback channel of each subscribed user. */
    var callbacks: map<string, Handle>
    /** Every callback invocation made so far. */
    var log: seq<Attempt<ServiceEvent>>

    function Model(): Store
      reads this`players, this`rooms, this`messages, this`files, this`clock
    {
      Store(players, rooms, messages, files, clock)
    }

    ghost predicate Valid()
      reads this`players, this`rooms, this`messages, this`files, this`clock
    {
      Wf(Model())
    }

    constructor ()
      ensures Model() == Initial() && Valid()
      ensures callbacks == map[] && log == []
    {
      players, rooms, messages, files, clock := map[], map[], [], [], 0;
      callbacks, log := map[], [];
    }

    method Now() returns (now: nat)
      modifies this
      ensures now == old(clock)
      ensures Model() == old(Model()).(clock := old(clock) + 1)
      ensures callbacks == old(callbacks) && log == old(log)
    {
      now := clock;
      clock := clock + 1;
    }

    /** LoginPlayer: as LobbyService's, and a successful login stores the
        caller's channel `caller`. */
    method LoginPlayer(username: string, caller: Handle) returns (ok: bool)
      requires Valid()
      modifies this
      ensures Valid()
      ensures (Model(), ok) == Login(old(Model()), username)
      ensures callbacks == if ok then old(callbacks)[username := caller] else old(callbacks)
      ensures log == old(log)
    {
      if username in players {
        return false;
      }
      var now := Now();
      players := players[username := Player(username, None, now, true)];
      callbacks := callbacks[username := caller];
      ok := true;
    }

    /** LogoutPlayer: leaves the room (with its notices), goes offline,
        drops the channel and sends the room list to the others. */
    method LogoutPlayer(username: string, broken: set<Handle>) returns (ghost leaveOrder: seq<string>, ghost order: seq<string>)
      requires Valid()
      modifies this
      ensures Valid()
      ensures Model() == Logout(old(Model()), username)
      ensures username !in old(players) ==> callbacks == old(callbacks) && log == old(log)
      ensures username in old(players) ==>
        && callbacks == old(callbacks) - {username}
        && Enumerates(order, callbacks.Keys)
        && (LeaveDeletesRoom(old(Model()), username) ==> Enumerates(leaveOrder, old(callbacks).Keys))
        && log == old(log) + LeaveNotices(old(Model()), old(callbacks), username, leaveOrder, broken)
                           + FanOut(order, callbacks, RoomListUpdated(rooms), broken)
    {
      leaveOrder, order := [], [];
      if username in players {
        leaveOrder := LeaveRoom(username, broken);
        players := players - {username};
        callbacks := callbacks - {username};
        order := NotifyRoomListUpdated(broken);
      }
    }

    /** SubscribeToUpdate only writes a console line. */
    method SubscribeToUpdate(username: string) {
    }

    /** UnsubscribeFromUpdate: drops the user's channel, if any. */
    method UnsubscribeFromUpdate(username: string)
      modifies this
      ensures callbacks == old(callbacks) - {username}
      ensures Model() == old(Model()) && log == old(log)
    {
      callbacks := callbacks - {username};
    }

    /** CreateRoom: as LobbyService's; a created room is announced to every
        subscriber with the new room list. */
    method CreateRoom(roomName: string, createdBy: string, username: string, broken: set<Handle>)
      returns (res: Outcome<bool>, ghost order: seq<string>)
      requires Valid()
      modifies this
      ensures Valid()
      ensures (Model(), res) == Create(old(Model()), roomName, createdBy, username)
      ensures callbacks == old(callbacks)
      ensures res == Normal(true) ==> Enumerates(order, callbacks.Keys)
      ensures log == old(log) + if res == Normal(true) then FanOut(order, callbacks, RoomListUpdated(rooms), broken) else []
    {
      order := [];
      if roomName in rooms {
        res := Normal(false);
        return;
      }
      ghost var s := Model();
      var now := Now();
      rooms := rooms[roomName := NewRoom(roomName, createdBy, now)];
      rooms := rooms[roomName := rooms[roomName].(players := rooms[roomName].players + [username])];
      assert rooms[roomName] == LobbyRoom(roomName, [username], now, createdBy);
      assert rooms == s.rooms[roomName := LobbyRoom(roomName, [username], s.clock, createdBy)];
      if username !in players {
        res := Thrown(KeyNotFound);
        return;
      }
      players := players[username := players[username].(currentRoom := Some(roomName))];
      assert (Model(), Normal(true)) == Create(s, roomName, createdBy, username);
      order := NotifyRoomListUpdated(broken);
      res := Normal(true);
    }

    /** JoinRoom: as LobbyService's, with LeaveRoom's notices; a successful
        join then sends PlayerJoinedRoom and the room snapshot to the members,
        the joiner included. */
    method JoinRoom(roomName: string, username: string, broken: set<Handle>)
      returns (res: Outcome<bool>, ghost leaveOrder: seq<string>)
      requires Valid()
      modifies this
      ensures Valid()
      ensures (Model(), res) == Join(old(Model()), roomName, username)
      ensures callbacks == old(callbacks)
      ensures res != Normal(false) && LeaveDeletesRoom(old(Model()), username) ==> Enumerates(leaveOrder, callbacks.Keys)
      ensures res == Normal(false) ==> log == old(log)
      ensures res.Thrown? ==> log == old(log) + LeaveNotices(old(Model()), callbacks, username, leaveOrder, broken)
      ensures res == Normal(true) ==>
        log == old(log) + LeaveNotices(old(Model()), callbacks, username, leaveOrder, broken)
                        + FanOut(PlayersInRoom(Model(), roomName), callbacks, PlayerJoinedRoom(roomName, username), broken)
                        + RoomDataNotices(Model(), callbacks, roomName, broken)
    {
      leaveOrder := [];
      if roomName !in rooms || username !in players {
        res := Normal(false);
        return;
      }
      ghost var s := Model();
      leaveOrder := LeaveRoom(username, broken);
      if roomName !in rooms {
        res := Thrown(KeyNotFound);
        assert (Model(), res) == Join(s, roomName, username);
        return;
      }
      rooms := rooms[roomName := rooms[roomName].(players := rooms[roomName].players + [username])];
      players := players[username := players[username].(currentRoom := Some(roomName))];
      assert (Model(), Normal(true)) == Join(s, roomName, username);
      assert Valid();
      NotifyEach(rooms[roomName].players, PlayerJoinedRoom(roomName, username), broken);
      NotifyRoomDataUpdated(roomName, broken);
      res := Normal(true);
    }

    /** LeaveRoom: as LobbyService's, sending PlayerLeftRoom to the members
        still listed, then the room list (room deleted) or the room snapshot. */
    method LeaveRoom(username: string, broken: set<Handle>) returns (ghost order: seq<string>)
      requires Valid()
      modifies this
      ensures Valid()
      ensures Model() == Leave(old(Model()), username)
      ensures callbacks == old(callbacks)
      ensures LeaveDeletesRoom(old(Model()), username) ==> Enumerates(order, callbacks.Keys)
      ensures log == old(log) + LeaveNotices(old(Model()), callbacks, username, order, broken)
    {
      order := [];
      if username !in players {
        return;
      }
      var currentRoom := players[username].currentRoom;
      if currentRoom.Some? && currentRoom.value != "" && currentRoom.value in rooms {
        var c := currentRoom.value;
        ghost var s := Model();
        assert LeaveTarget(s, username) == Some(c);
        LeaveFromWf(s, username, c);
        ghost var t := LeaveFrom(s, username, c);
        ghost var log0 := log;
        var rest := RemoveFirst(rooms[c].players, username);
        rooms := rooms[c := rooms[c].(players := rest)];
        players := players[username := players[username].(currentRoom := None)];
        NotifyEach(rest, PlayerLeftRoom(c, username), broken);
        ghost var left := FanOut(rest, callbacks, PlayerLeftRoom(c, username), broken);
        assert log == log0 + left;
        if rest == [] {
          rooms := rooms - {c};
          assert rooms == s.rooms - {c};
          assert Model() == t;
          order := NotifyRoomListUpdated(broken);
          ConcatAssoc(log0, left, FanOut(order, callbacks, RoomListUpdated(t.rooms), broken));
        } else {
          assert Model() == t;
          NotifyRoomDataUpdated(c, broken);
          ConcatAssoc(log0, left, RoomDataNotices(t, callbacks, c, broken));
        }
        assert LeaveNotices(s, callbacks, username, order, broken) ==
          left + (if rest == [] then FanOut(order, callbacks, RoomListUpdated(t.rooms), broken)
                  else RoomDataNotices(t, callbacks, c, broken));
      }
    }

    /** SendMessage: stamps and appends the message as LobbyService's, then
        notifies sender and recipient (private) or the room's members
        (public). */
    method SendMessage(message: ChatMessage, broken: set<Handle>) returns (res: Outcome<()>)
      requires Valid()
      modifies this
      ensures Valid()
      ensures Model() == Send(old(Model()), message)
      ensures callbacks == old(callbacks)
      ensures res == DispatchOutcome(message)
      ensures log == old(log) + SendNotices(Model(), callbacks, message.(timestamp := old(clock)), broken)
    {
      var now := Now();
      var stamped := message.(timestamp := now);
      messages := messages + [stamped];
      if stamped.isPrivate {
        res := NotifyPrivateMessage(stamped, broken);
      } else if stamped.roomName.None? {
        // GetPlayersInRoom(null) throws inside NotifyRoomDataUpdated.
        res := Thrown(ArgumentNull);
      } else {
        NotifyRoomDataUpdated(stamped.roomName.value, broken);
        res := Normal(());
      }
    }

    /** ShareFile: stamps and appends the file as LobbyService's, then sends
        the room snapshot to the members of the file's room. */
    method ShareFile(file: SharedFile, broken: set<Handle>) returns (ok: bool)
      requires Valid()
      modifies this
      ensures Valid()
      ensures (Model(), ok) == Share(old(Model()), file)
      ensures callbacks == old(callbacks)
      ensures log == old(log) + RoomDataNotices(Model(), callbacks, file.roomName, broken)
    {
      var now := Now();
      files := files + [file.(sharedTime := now)];
      ok := true;
      assert Valid() && (Model(), ok) == Share(old(Model()), file);
      NotifyRoomDataUpdated(file.roomName, broken);
    }

    /** One attempt per subscribed user of `users`, in list order. */
    method NotifyEach(users: seq<string>, ev: ServiceEvent, broken: set<Handle>)
      modifies this`log
      ensures log == old(log) + FanOut(users, callbacks, ev, broken)
    {
      var i := 0;
      while i < |users|
        invariant 0 <= i <= |users|
        invariant log == old(log) + FanOut(users[..i], callbacks, ev, broken)
      {
        var player := users[i];
        ghost var done := FanOut(users[..i], callbacks, ev, broken);
        if player in callbacks {
          var callback := callbacks[player];
          log := log + [Attempt(player, callback, ev, callback !in broken)];
        }
        ghost var d := Deliver(player, callbacks, ev, broken);
        assert log == old(log) + done + d;
        ConcatAssoc(old(log), done, d);
        assert users[..i + 1] == users[..i] + [player];
        FanOutSnoc(users[..i], player, callbacks, ev, broken);
        i := i + 1;
      }
      assert users[..|users|] == users;
    }

    /** NotifyRoomListUpdated: the room list to every subscriber, in the
        dictionary's order. */
    method NotifyRoomListUpdated(broken: set<Handle>) returns (ghost order: seq<string>)
      modifies this`log
      ensures Enumerates(order, callbacks.Keys)
      ensures log == old(log) + FanOut(order, callbacks, RoomListUpdated(rooms), broken)
    {
      var ev := RoomListUpdated(rooms);
      var pending := callbacks.Keys;
      order := [];
      while pending != {}
        invariant pending <= callbacks.Keys
        invariant NoDup(order)
        invariant forall k | k in order :: k in callbacks && k !in pending
        invariant forall k | k in callbacks && k !in pending :: k in order
        invariant log == old(log) + FanOut(order, callbacks, ev, broken)
        decreases |pending|
      {
        var k :| k in pending;
        var callback := callbacks[k];
        log := log + [Attempt(k, callback, ev, callback !in broken)];
        ConcatAssoc(old(log), FanOut(order, callbacks, ev, broken), Deliver(k, callbacks, ev, broken));
        AppendNoDup(order, k);
        FanOutSnoc(order, k, callbacks, ev, broken);
        order := order + [k];
        pending := pending - {k};
      }
    }

    /** NotifyRoomDataUpdated: the snapshot of room `r` to its subscribed members. */
    method NotifyRoomDataUpdated(r: string, broken: set<Handle>)
      modifies this`log
      ensures log == old(log) + RoomDataNotices(Model(), callbacks, r, broken)
    {
      var ev := RoomDataUpdated(r, Model());
      NotifyEach(PlayersInRoom(Model(), r), ev, broken);
    }

    /** NotifyPrivateMessage: the sender, then the recipient. */
    method NotifyPrivateMessage(m: ChatMessage, broken: set<Handle>) returns (res: Outcome<()>)
      modifies this`log
      ensures log == old(log) + PrivateNotices(callbacks, m, broken)
      ensures res == if m.to.None? then Thrown(ArgumentNull) else Normal(())
    {
      NotifyEach([m.from], PrivateMessageReceived(m), broken);
      assert [m.from][..0] == [];
      if m.to.None? {
        return Thrown(ArgumentNull);
      }
      NotifyEach([m.to.value], PrivateMessageReceived(m), broken);
      assert [m.to.value][..0] == [];
      res := Normal(());
    }
  }
}

/** LobbyDuplexService (MKXLobbyServer/LobbyDuplexService.cs): LobbyService
    with callbacks.  The C# class derives from LobbyService, hides four of
    its operations with `new` versions and adds a two-argument CreateRoom
    overload; each calls the base operation and then notifies the
    registered clients.  Here the base object is the `base`
    field; the operations the class does not hide (LoginPlayer,
    LogoutPlayer, the queries) are those of `base`, and since the base
    methods are not virtual, the LeaveRoom that base JoinRoom and
    LogoutPlayer run sends no notices. */
module LobbyDuplex {
  import opened LobbyModels
  import opened Sequences
  import opened LobbyStore
  import opened Callbacks
  import opened LobbyServer

  /** The notices of ILobbyCallback. */
  datatype LobbyEvent =
    | MessageReceived(message: ChatMessage)
    | PlayerJoined(username: string, roomName: string)
    | PlayerLeft(username: string, roomName: string)
    | FileShared(file: SharedFile)
    | RoomCreated(room: LobbyRoom)

  /** The name of the first room, in the order `names` of the room
      dictionary, whose list holds `u`. */
  function FirstListing(s: Store, names: seq<string>, u: string): Option<string> {
    if names == [] then None
    else if names[0] in s.rooms && u in s.rooms[names[0]].players then Some(s.rooms[names[0]].roomName)
    else FirstListing(s, names[1..], u)
  }

  /** GetPlayerCurrentRoom: null for a player who is not online, otherwise
      the first listing room in dictionary order. */
  function PlayerCurrentRoom(s: Store, names: seq<string>, u: string): Option<string> {
    if u in s.players then FirstListing(s, names, u) else None
  }

  /** The users SendMessage hands to NotifyClient, in order: sender and
      recipient of a private message, the room's members for a public one. */
  function MessageAudience(t: Store, m: ChatMessage): seq<string> {
    if m.isPrivate then [m.from] + (if m.to.Some? then [m.to.value] else [])
    else if m.roomName.Some? then PlayersInRoom(t, m.roomName.value)
    else []
  }

  /** `FirstOrDefault(r => r.RoomName == n)` over a list of rooms. */
  function FirstNamed(list: seq<LobbyRoom>, n: string): Option<LobbyRoom> {
    if list == [] then None
    else if list[0].roomName == n then Some(list[0])
    else FirstNamed(list[1..], n)
  }

  /** FirstNamed finds a room with the name exactly when the list has one,
      and then the earliest. */
  lemma {:induction false} FirstNamedSpec(list: seq<LobbyRoom>, n: string)
    ensures FirstNamed(list, n).None? <==> forall i | 0 <= i < |list| :: list[i].roomName != n
    ensures FirstNamed(list, n).Some? ==> exists i | 0 <= i < |list| ::
      list[i] == FirstNamed(list, n).value && list[i].roomName == n &&
      forall j | 0 <= j < i :: list[j].roomName != n
  {
    if list != [] && list[0].roomName != n {
      FirstNamedSpec(list[1..], n);
      if FirstNamed(list, n).Some? {
        var i :| 0 <= i < |list[1..]| && list[1..][i] == FirstNamed(list, n).value && list[1..][i].roomName == n &&
          forall j | 0 <= j < i :: list[1..][j].roomName != n;
        assert list[i + 1] == list[1..][i];
        forall j | 0 <= j < i + 1 ensures list[j].roomName != n {
          if j > 0 { assert list[j] == list[1..][j - 1]; }
        }
      } else {
        forall i | 0 <= i < |list| ensures list[i].roomName != n {
          if i > 0 { assert list[i] == list[1..][i - 1]; }
        }
      }
    } else if list != [] {
      assert list[0] == FirstNamed(list, n).value;
    }
  }

  /** A room listing `u` that no other room of `names` lists `u` in is the
      one the search finds. */
  lemma {:induction false} FirstListingUnique(s: Store, names: seq<string>, u: string, c: string)
    requires c in names && c in s.rooms && u in s.rooms[c].players
    requires forall q | q in s.rooms && u in s.rooms[q].players :: q == c
    ensures FirstListing(s, names, u) == Some(s.rooms[c].roomName)
  {
    if names[0] != c {
      assert !(names[0] in s.rooms && u in s.rooms[names[0]].players);
      assert c in names[1..];
      FirstListingUnique(s, names[1..], u, c);
    }
  }

  /** When no room lists `u`, the search finds nothing. */
  lemma {:induction false} FirstListingNone(s: Store, names: seq<string>, u: string)
    requires forall q | q in s.rooms :: u !in s.rooms[q].players
    ensures FirstListing(s, names, u) == None
  {
    if names != [] {
      FirstListingNone(s, names[1..], u);
    }
  }

  /** In a consistent lobby, the room the search finds is the player's
      CurrentRoom, whatever the dictionary order. */
  lemma CurrentRoomFound(s: Store, names: seq<string>, u: string)
    requires Wf(s) && Membership(s) && Enumerates(names, s.rooms.Keys)
    ensures PlayerCurrentRoom(s, names, u) == if u in s.players then s.players[u].currentRoom else None
  {
    if u in s.players {
      ListedOnlyInCurrentRoom(s, u);
      match s.players[u].currentRoom
      case None => FirstListingNone(s, names, u);
      case Some(c) => FirstListingUnique(s, names, u, c);
    }
  }

  /** After CreateRoom by a player already in room `q`, the player is listed
      in both rooms; when `q` comes first in the dictionary, LeaveRoom
      announces the departure from `q` while it takes the player out of the
      new room. */
  lemma CurrentRoomAfterCreateWhileInRoom(s: Store, r: string, u: string, names: seq<string>)
    requires Inv(s) && u in s.players && s.players[u].currentRoom.Some?
    requires r !in s.rooms
    requires names != [] && names[0] == s.players[u].currentRoom.value
    ensures var t := Create(s, r, u, u).0;
      && t.players[u].currentRoom == Some(r)
      && PlayerCurrentRoom(t, names, u) == Some(names[0])
      && names[0] != r
  {
    var q := names[0];
    var t := Create(s, r, u, u).0;
    assert q in s.rooms && u in s.rooms[q].players;
    assert t.rooms[q] == s.rooms[q];
  }

  /** In a consistent lobby, the notices NotifyPlayersInRoom sends to room `r`
      reach each registered member exactly once and nobody else. */
  lemma RoomNoticesOncePerMember(t: Store, r: string, reg: map<string, Handle>, ev: LobbyEvent, broken: set<Handle>)
    requires Inv(t)
    ensures var us := Users(EvictFanOut(PlayersInRoom(t, r), reg, ev, broken).0);
      && NoDup(us)
      && (forall v | v in us :: v in PlayersInRoom(t, r) && v in reg)
      && (forall v | v in PlayersInRoom(t, r) && v in reg :: v in us)
  {
    var ps := PlayersInRoom(t, r);
    assert NoDup(ps);
    EvictFanOutIsFanOut(ps, reg, ev, broken);
    FanOutOncePerMember(ps, reg, ev, broken);
  }

  /** In a consistent lobby, the PlayerLeft notices of LeaveRoom go to the
      room's registered members other than the leaver, once each. */
  lemma LeftNoticesReachRemaining(s: Store, names: seq<string>, u: string, reg: map<string, Handle>, broken: set<Handle>)
    requires Inv(s) && Enumerates(names, s.rooms.Keys)
    requires u in s.players && s.players[u].currentRoom.Some? && s.players[u].currentRoom.value != ""
    ensures var c := s.players[u].currentRoom.value;
      var us := Users(EvictFanOut(PlayersInRoom(Leave(s, u), c), reg, PlayerLeft(u, c), broken).0);
      && PlayerCurrentRoom(s, names, u) == Some(c)
      && NoDup(us)
      && (forall v | v in us :: v != u && v in s.rooms[c].players && v in reg)
      && (forall v | v in s.rooms[c].players && v != u && v in reg :: v in us)
  {
    var c := s.players[u].currentRoom.value;
    CurrentRoomFound(s, names, u);
    assert LeaveTarget(s, u) == Some(c);
    var t := Leave(s, u);
    LeavePreservesInv(s, u);
    RoomNoticesOncePerMember(t, c, reg, PlayerLeft(u, c), broken);
    RemoveFirstNoDup(s.rooms[c].players, u);
    assert PlayersInRoom(t, c) == RemoveFirst(s.rooms[c].players, u);
  }

  /** In a consistent lobby, the PlayerJoined notices of a successful
      JoinRoom go to every registered member of the room, the joiner
      included, once each. */
  lemma JoinedNoticesReachMembers(s: Store, r: string, u: string, reg: map<string, Handle>, broken: set<Handle>)
    requires Inv(s) && Join(s, r, u).1 == Normal(true)
    requires s.players[u].currentRoom != Some("")
    ensures var t := Join(s, r, u).0;
      var us := Users(EvictFanOut(PlayersInRoom(t, r), reg, PlayerJoined(u, r), broken).0);
      && NoDup(us)
      && (u in reg ==> u in us)
      && (forall v | v in us :: v in t.rooms[r].players && v in reg)
      && (forall v | v in t.rooms[r].players && v in reg :: v in us)
  {
    var t := Join(s, r, u).0;
    JoinPreservesInv(s, r, u);
    RoomNoticesOncePerMember(t, r, reg, PlayerJoined(u, r), broken);
  }

  /** A private message to oneself is handed to NotifyClient twice: a
      working channel receives it twice, a broken one fails once and is
      dropped before the second call. */
  lemma {:induction false} SelfMessageNotices(t: Store, m: ChatMessage, reg: map<string, Handle>, broken: set<Handle>)
    requires m.isPrivate && m.to == Some(m.from) && m.from in reg
    ensures var a := Attempt(m.from, reg[m.from], MessageReceived(m), reg[m.from] !in broken);
      var r := EvictFanOut(MessageAudience(t, m), reg, MessageReceived(m), broken);
      && (reg[m.from] !in broken ==> r.0 == [a, a] && r.1 == reg)
      && (reg[m.from] in broken ==> r.0 == [a] && r.1 == reg - {m.from})
  {
    var u := m.from;
    var ev := MessageReceived(m);
    assert MessageAudience(t, m) == [u, u];
    if reg[u] in broken {
      EvictFanOutSkipsEvicted(u, reg, ev, broken);
      EvictFanOutSpec([u, u], reg, ev, broken);
      assert EvictAmong(reg, [u, u], broken) == reg - {u};
    } else {
      var a := Attempt(u, reg[u], ev, true);
      assert [u, u][..1] == [u];
      assert [u][..0] == [];
      EvictFanOutSnoc([], u, reg, ev, broken);
      EvictFanOutSnoc([u], u, reg, ev, broken);
    }
  }

  class LobbyDuplexService {
    /** The LobbyService part of the object. */
    const base: LobbyService
    /** connectedClients: the callback channel of each registered user. */
    var clients: map<string, Handle>
    /** Every callback invocation made so far. */
    var log: seq<Attempt<LobbyEvent>>

    ghost predicate Valid()
      reads base
    {
      base.Valid()
    }

    constructor ()
      ensures Valid() && fresh(base) && base.Model() == Initial()
      ensures clients == map[] && log == []
    {
      base := new LobbyService();
      clients, log := map[], [];
    }

    /** RegisterForCallbacks: stores the caller's channel `caller`,
        replacing an earlier one. */
    method RegisterForCallbacks(username: string, caller: Handle)
      modifies this
      ensures clients == old(clients)[username := caller] && log == old(log)
    {
      clients := clients[username := caller];
    }

    /** UnregisterFromCallbacks: drops the user's channel, if any. */
    method UnregisterFromCallbacks(username: string)
      modifies this
      ensures clients == old(clients) - {username} && log == old(log)
    {
      if username in clients {
        clients := clients - {username};
      }
    }

    /** JoinRoom: the base JoinRoom; a successful join is announced to the
        room's members, the joiner included. */
    method JoinRoom(roomName: string, username: string, broken: set<Handle>) returns (res: Outcome<bool>)
      requires Valid()
      modifies this, base
      ensures Valid()
      ensures (base.Model(), res) == Join(old(base.Model()), roomName, username)
      ensures res != Normal(true) ==> clients == old(clients) && log == old(log)
      ensures res == Normal(true) ==>
        var (sent, reg) := EvictFanOut(PlayersInRoom(base.Model(), roomName), old(clients), PlayerJoined(username, roomName), broken);
        log == old(log) + sent && clients == reg
    {
      res := base.JoinRoom(roomName, username);
      if res == Normal(true) {
        NotifyPlayersInRoom(roomName, PlayerJoined(username, roomName), broken);
      }
    }

    /** LeaveRoom: looks up the player's room by search, runs the base
        LeaveRoom, and announces the departure to the members left in the
        room found (none if the room was deleted).  `names` is the
        dictionary order the search saw. */
    method LeaveRoom(username: string, broken: set<Handle>) returns (ghost names: seq<string>)
      requires Valid()
      modifies this, base
      ensures Valid()
      ensures base.Model() == Leave(old(base.Model()), username)
      ensures username in old(base.players) ==> Enumerates(names, old(base.rooms).Keys)
      ensures var q := PlayerCurrentRoom(old(base.Model()), names, username);
        if q.Some? && q.value != "" then
          var (sent, reg) := EvictFanOut(PlayersInRoom(base.Model(), q.value), old(clients), PlayerLeft(username, q.value), broken);
          log == old(log) + sent && clients == reg
        else clients == old(clients) && log == old(log)
    {
      var roomName;
      roomName, names := GetPlayerCurrentRoom(username);
      base.LeaveRoom(username);
      if roomName.Some? && roomName.value != "" {
        NotifyPlayersInRoom(roomName.value, PlayerLeft(username, roomName.value), broken);
      }
    }

    /** SendMessage: the base SendMessage stamps and stores the message; the
        stamped message then goes to its audience, one NotifyClient each.  A
        null recipient throws after the sender was served, a null room
        before anyone was. */
    method SendMessage(message: ChatMessage, broken: set<Handle>) returns (res: Outcome<()>)
      requires Valid()
      modifies this, base
      ensures Valid()
      ensures base.Model() == Send(old(base.Model()), message)
      ensures res == DispatchOutcome(message)
      ensures var m := message.(timestamp := old(base.clock));
        var (sent, reg) := EvictFanOut(MessageAudience(base.Model(), m), old(clients), MessageReceived(m), broken);
        log == old(log) + sent && clients == reg
    {
      var stamped := base.SendMessage(message);
      var ev := MessageReceived(stamped);
      res := Normal(());
      if stamped.isPrivate {
        EvictFanOutSnoc([], stamped.from, old(clients), ev, broken);
        NotifyClient(stamped.from, ev, broken);
        if stamped.to.None? {
          res := Thrown(ArgumentNull);
          return;
        }
        EvictFanOutSnoc([stamped.from], stamped.to.value, old(clients), ev, broken);
        NotifyClient(stamped.to.value, ev, broken);
      } else if stamped.roomName.None? {
        res := Thrown(ArgumentNull);
      } else {
        NotifyPlayersInRoom(stamped.roomName.value, ev, broken);
      }
    }

    /** ShareFile: the base ShareFile stamps and stores the file; the stamped
        file then goes to the members of its room. */
    method ShareFile(file: SharedFile, broken: set<Handle>) returns (ok: bool)
      requires Valid()
      modifies this, base
      ensures Valid()
      ensures (base.Model(), ok) == Share(old(base.Model()), file)
      ensures var f := file.(sharedTime := old(base.clock));
        var (sent, reg) := EvictFanOut(PlayersInRoom(base.Model(), file.roomName), old(clients), FileShared(f), broken);
        log == old(log) + sent && clients == reg
    {
      var stamped;
      ok, stamped := base.ShareFile(file);
      if ok {
        NotifyPlayersInRoom(file.roomName, FileShared(stamped), broken);
      }
    }

    /** CreateRoom: the base CreateRoom with the creator as the first
        player; the new room is announced to every registered client, in
        the dictionary order `order`, and broken channels are dropped. */
    method CreateRoom(roomName: string, createdBy: string, broken: set<Handle>) returns (res: Outcome<bool>, ghost order: seq<string>)
      requires Valid()
      modifies this, base
      ensures Valid()
      ensures (base.Model(), res) == Create(old(base.Model()), roomName, createdBy, createdBy)
      ensures res != Normal(true) ==> clients == old(clients) && log == old(log)
      ensures res == Normal(true) ==>
        && roomName in base.rooms
        && Enumerates(order, old(clients).Keys)
        && log == old(log) + FanOut(order, old(clients), RoomCreated(base.rooms[roomName]), broken)
        && clients == Evict(old(clients), broken)
    {
      order := [];
      res := base.CreateRoom(roomName, createdBy, createdBy);
      if res == Normal(true) {
        var room := GetRoom(roomName);
        if room.Some? {
          order := NotifyAllClients(RoomCreated(room.value), broken);
        }
      }
    }

    /** NotifyClient: one attempt if `u` has a channel; a failed attempt
        unregisters `u`. */
    method NotifyClient(u: string, ev: LobbyEvent, broken: set<Handle>)
      modifies this`clients, this`log
      ensures var (sent, reg) := NotifyOne(u, old(clients), ev, broken);
        log == old(log) + sent && clients == reg
    {
      if u in clients {
        var callback := clients[u];
        log := log + [Attempt(u, callback, ev, callback !in broken)];
        if callback in broken {
          clients := clients - {u};
        }
      }
    }

    /** NotifyPlayersInRoom: NotifyClient for each player of a copy of the
        room's list. */
    method NotifyPlayersInRoom(r: string, ev: LobbyEvent, broken: set<Handle>)
      modifies this`clients, this`log
      ensures var (sent, reg) := EvictFanOut(PlayersInRoom(base.Model(), r), old(clients), ev, broken);
        log == old(log) + sent && clients == reg
    {
      var users := PlayersInRoom(base.Model(), r);
      var i := 0;
      while i < |users|
        invariant 0 <= i <= |users|
        invariant log == old(log) + EvictFanOut(users[..i], old(clients), ev, broken).0
        invariant clients == EvictFanOut(users[..i], old(clients), ev, broken).1
      {
        assert users[..i + 1] == users[..i] + [users[i]];
        EvictFanOutSnoc(users[..i], users[i], old(clients), ev, broken);
        ghost var done := EvictFanOut(users[..i], old(clients), ev, broken).0;
        NotifyClient(users[i], ev, broken);
        ConcatAssoc(old(log), done, Deliver(users[i], EvictFanOut(users[..i], old(clients), ev, broken).1, ev, broken));
        i := i + 1;
      }
      assert users[..|users|] == users;
    }

    /** NotifyAllClients: one attempt per registered client of a snapshot
        of the dictionary, in its order; the clients whose attempt failed
        are collected and unregistered afterwards. */
    method NotifyAllClients(ev: LobbyEvent, broken: set<Handle>) returns (ghost order: seq<string>)
      modifies this`clients, this`log
      ensures Enumerates(order, old(clients).Keys)
      ensures log == old(log) + FanOut(order, old(clients), ev, broken)
      ensures clients == Evict(old(clients), broken)
    {
      var snapshot := clients;
      var toRemove: seq<string> := [];
      var pending := snapshot.Keys;
      order := [];
      while pending != {}
        invariant clients == snapshot
        invariant pending <= snapshot.Keys
        invariant NoDup(order)
        invariant forall k | k in order :: k in snapshot && k !in pending
        invariant forall k | k in snapshot && k !in pending :: k in order
        invariant log == old(log) + FanOut(order, snapshot, ev, broken)
        invariant forall k | k in toRemove :: k in snapshot && snapshot[k] in broken
        invariant forall k | k in order && snapshot[k] in broken :: k in toRemove
        decreases |pending|
      {
        var k :| k in pending;
        var callback := snapshot[k];
        log := log + [Attempt(k, callback, ev, callback !in broken)];
        ConcatAssoc(old(log), FanOut(order, snapshot, ev, broken), Deliver(k, snapshot, ev, broken));
        if callback in broken {
          toRemove := toRemove + [k];
        }
        AppendNoDup(order, k);
        FanOutSnoc(order, k, snapshot, ev, broken);
        order := order + [k];
        pending := pending - {k};
      }
      Unregister(toRemove);
      forall k | k in snapshot ensures k in clients <==> snapshot[k] !in broken {
        assert k in order;
      }
      assert clients.Keys == Evict(snapshot, broken).Keys;
    }

    /** The removal loop of NotifyAllClients: unregisters every user of `names`. */
    method Unregister(names: seq<string>)
      modifies this`clients
      ensures clients == map k | k in old(clients) && k !in names :: old(clients)[k]
    {
      var j := 0;
      while j < |names|
        invariant 0 <= j <= |names|
        invariant clients == map k | k in old(clients) && k !in names[..j] :: old(clients)[k]
      {
        assert names[..j + 1] == names[..j] + [names[j]];
        clients := clients - {names[j]};
        j := j + 1;
      }
      assert names[..|names|] == names;
    }

    /** GetPlayerCurrentRoom: null unless the player is online; otherwise
        the name of the first room, in the dictionary order `names`, whose
        list holds the player. */
    method GetPlayerCurrentRoom(username: string) returns (room: Option<string>, ghost names: seq<string>)
      ensures username in base.players ==> Enumerates(names, base.rooms.Keys)
      ensures room == PlayerCurrentRoom(base.Model(), names, username)
    {
      names := [];
      var online := base.GetOnlinePlayers();
      if username !in online {
        return None, names;
      }
      var list;
      list, names := base.GetAvailableRooms();
      ghost var s := base.Model();
      var i := 0;
      while i < |list|
        invariant 0 <= i <= |list|
        invariant FirstListing(s, names, username) == FirstListing(s, names[i..], username)
      {
        assert names[i..][1..] == names[i + 1..];
        if username in list[i].players {
          return Some(list[i].roomName), names;
        }
        i := i + 1;
      }
      room := None;
    }

    /** GetRoom: the first room of GetAvailableRooms with that name; in a
        consistent lobby, the room stored under that name. */
    method GetRoom(roomName: string) returns (room: Option<LobbyRoom>)
      ensures room.Some? ==> room.value in base.rooms.Values && room.value.roomName == roomName
      ensures Valid() ==> room == if roomName in base.rooms then Some(base.rooms[roomName]) else None
    {
      var list;
      ghost var names;
      list, names := base.GetAvailableRooms();
      room := FirstNamed(list, roomName);
      FirstNamedSpec(list, roomName);
      if room.Some? {
        var i :| 0 <= i < |list| && list[i] == room.value;
        assert list[i] == base.rooms[names[i]];
      }
    }
  }
}

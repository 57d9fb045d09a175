/** The in-memory state of the lobby server as a value, and each server
    operation as a function from the old state to the new one.  The classes
    in lobby_service.dfy and lobby_service_d.dfy update their fields in place
    and are proved to agree with these functions. */
module LobbyStore {
  import opened LobbyModels
  import opened Sequences

  /** Online players by username, rooms by name, the message log, the file
      log, and the server clock that stands for DateTime.Now. */
  datatype Store = Store(
    players: map<string, Player>,
    rooms: map<string, LobbyRoom>,
    messages: seq<ChatMessage>,
    files: seq<SharedFile>,
    clock: nat)

  /** The state of a freshly started server. */
  function Initial(): Store {
    Store(map[], map[], [], [], 0)
  }

  function MessageTime(m: ChatMessage): int { m.timestamp }
  function FileTime(f: SharedFile): int { f.sharedTime }

  // ---------------------------------------------------------------------
  // Invariants
  // ---------------------------------------------------------------------

  /** What every reachable state satisfies, whatever the callers do: entries
      are stored under their own names, and both logs are in clock order,
      stamped before the current clock reading. */
  ghost predicate Wf(s: Store) {
    && (forall u | u in s.players :: s.players[u].username == u && s.players[u].isOnline)
    && (forall r | r in s.rooms :: s.rooms[r].roomName == r)
    && Sorted(s.messages, MessageTime)
    && Sorted(s.files, FileTime)
    && (forall m | m in s.messages :: m.timestamp < s.clock)
    && (forall f | f in s.files :: f.sharedTime < s.clock)
  }

  /** Everyone listed in a room is online with that room as CurrentRoom. */
  ghost predicate ListedAreInRoom(s: Store) {
    forall r, u | r in s.rooms && u in s.rooms[r].players ::
      u in s.players && s.players[u].currentRoom == Some(r)
  }

  /** Everyone whose CurrentRoom is set is listed in that (existing) room. */
  ghost predicate InRoomAreListed(s: Store) {
    forall u | u in s.players && s.players[u].currentRoom.Some? ::
      s.players[u].currentRoom.value in s.rooms &&
      u in s.rooms[s.players[u].currentRoom.value].players
  }

  /** A player is listed in a room exactly when the player's CurrentRoom is that room. */
  ghost predicate Membership(s: Store) {
    ListedAreInRoom(s) && InRoomAreListed(s)
  }

  /** No room with an empty player list survives. */
  ghost predicate NoEmptyRoom(s: Store) {
    forall r | r in s.rooms :: s.rooms[r].players != []
  }

  /** No player is listed twice in one room. */
  ghost predicate NoDuplicateMembers(s: Store) {
    forall r | r in s.rooms :: NoDup(s.rooms[r].players)
  }

  /** The lobby's consistency invariant. */
  ghost predicate Inv(s: Store) {
    Wf(s) && Membership(s) && NoEmptyRoom(s) && NoDuplicateMembers(s)
  }

  // ---------------------------------------------------------------------
  // Operations (LobbyService.cs)
  // ---------------------------------------------------------------------

  /** LoginPlayer: refuses a name that is already online, otherwise adds a
      player who is in no room. */
  function Login(s: Store, u: string): (r: (Store, bool))
    ensures r.1 <==> u !in s.players
    ensures !r.1 ==> r.0 == s
    ensures r.1 ==> r.0.players == s.players[u := Player(u, None, s.clock, true)]
    ensures r.0.rooms == s.rooms && r.0.messages == s.messages && r.0.files == s.files
    ensures Wf(s) ==> Wf(r.0)
  {
    if u in s.players then (s, false)
    else (s.(players := s.players[u := Player(u, None, s.clock, true)], clock := s.clock + 1), true)
  }

  /** The room LeaveRoom acts on: the player's CurrentRoom, provided the
      player is online, the name is neither null nor empty, and the room exists. */
  function LeaveTarget(s: Store, u: string): Option<string> {
    if u !in s.players then None
    else match s.players[u].currentRoom
      case None => None
      case Some(c) => if c != "" && c in s.rooms then Some(c) else None
  }

  /** LeaveRoom: takes the player off the list of their room, clears their
      CurrentRoom, and deletes the room when its list became empty. */
  function Leave(s: Store, u: string): (t: Store)
    ensures t.messages == s.messages && t.files == s.files && t.clock == s.clock
    ensures t.players.Keys == s.players.Keys
    ensures LeaveTarget(s, u).None? ==> t == s
    ensures LeaveTarget(s, u).Some? ==> t == LeaveFrom(s, u, LeaveTarget(s, u).value)
    ensures Wf(s) ==> Wf(t)
  {
    match LeaveTarget(s, u)
    case None => s
    case Some(c) => LeaveFromWf(s, u, c); LeaveFrom(s, u, c)
  }

  lemma LeaveFromWf(s: Store, u: string, c: string)
    requires u in s.players && c in s.rooms
    ensures Wf(s) ==> Wf(LeaveFrom(s, u, c))
  {
    if Wf(s) {
      var t := LeaveFrom(s, u, c);
      assert t.messages == s.messages && t.files == s.files && t.clock == s.clock;
      forall r | r in t.rooms ensures t.rooms[r].roomName == r {
        if r != c { assert t.rooms[r] == s.rooms[r]; }
      }
      forall v | v in t.players ensures t.players[v].username == v && t.players[v].isOnline {
        if v != u { assert t.players[v] == s.players[v]; }
      }
    }
  }

  /** The effect of LeaveRoom once room `c` has been found. */
  function LeaveFrom(s: Store, u: string, c: string): (t: Store)
    requires u in s.players && c in s.rooms
    ensures t.messages == s.messages && t.files == s.files && t.clock == s.clock
    ensures t.players == s.players[u := s.players[u].(currentRoom := None)]
    ensures c in t.rooms <==> RemoveFirst(s.rooms[c].players, u) != []
    ensures c in t.rooms ==> t.rooms[c] == s.rooms[c].(players := RemoveFirst(s.rooms[c].players, u))
    ensures forall q | q != c :: (q in t.rooms <==> q in s.rooms) && (q in t.rooms ==> t.rooms[q] == s.rooms[q])
  {
    var rest := RemoveFirst(s.rooms[c].players, u);
    var players := s.players[u := s.players[u].(currentRoom := None)];
    if rest == [] then s.(players := players, rooms := s.rooms - {c})
    else s.(players := players, rooms := s.rooms[c := s.rooms[c].(players := rest)])
  }

  /** LogoutPlayer: an online player leaves their room and goes offline;
      anyone else is ignored. */
  function Logout(s: Store, u: string): (t: Store)
    ensures u !in s.players ==> t == s
    ensures u in s.players ==>
      && t.players == Leave(s, u).players - {u}
      && t.rooms == Leave(s, u).rooms
    ensures u !in t.players
    ensures t.messages == s.messages && t.files == s.files
    ensures Wf(s) ==> Wf(t)
  {
    if u in s.players then
      var t := Leave(s, u);
      t.(players := t.players - {u})
    else s
  }

  /** CreateRoom: refuses an existing name; otherwise inserts the room with
      `u` as its only player and then looks `u` up among the online players,
      which throws when `u` is offline and leaves the new room behind.  The
      creator's previous room is not left. */
  function Create(s: Store, r: string, createdBy: string, u: string): (res: (Store, Outcome<bool>))
    ensures r in s.rooms <==> res.1 == Normal(false)
    ensures r in s.rooms ==> res.0 == s
    ensures r !in s.rooms ==>
      && res.0.rooms == s.rooms[r := LobbyRoom(r, [u], s.clock, createdBy)]
      && (u in s.players ==>
            res.1 == Normal(true) &&
            res.0.players == s.players[u := s.players[u].(currentRoom := Some(r))])
      && (u !in s.players ==> res.1 == Thrown(KeyNotFound) && res.0.players == s.players)
    ensures res.0.messages == s.messages && res.0.files == s.files
    ensures Wf(s) ==> Wf(res.0)
  {
    if r in s.rooms then (s, Normal(false))
    else
      var room := NewRoom(r, createdBy, s.clock).(players := [u]);
      var s1 := s.(rooms := s.rooms[r := room], clock := s.clock + 1);
      if u !in s.players then (s1, Thrown(KeyNotFound))
      else (s1.(players := s1.players[u := s1.players[u].(currentRoom := Some(r))]), Normal(true))
  }

  /** JoinRoom: refuses a missing room or player; otherwise leaves the
      current room and appends the player to the target room.  When the
      leave deleted the target room itself (a sole member re-joining), the
      lookup of the target throws. */
  function Join(s: Store, r: string, u: string): (res: (Store, Outcome<bool>))
    ensures res.1 == Normal(false) <==> r !in s.rooms || u !in s.players
    ensures res.1 == Normal(false) ==> res.0 == s
    ensures res.1.Thrown? <==>
      r in s.rooms && u in s.players && LeaveTarget(s, u) == Some(r) &&
      RemoveFirst(s.rooms[r].players, u) == []
    ensures res.1.Thrown? ==> res.1.error == KeyNotFound && res.0 == Leave(s, u)
    ensures res.1 == Normal(true) ==>
      var t := Leave(s, u);
      && r in t.rooms && u in t.players
      && res.0.rooms == t.rooms[r := t.rooms[r].(players := t.rooms[r].players + [u])]
      && res.0.players == t.players[u := t.players[u].(currentRoom := Some(r))]
    ensures res.1 != Normal(false) ==> res.0.messages == s.messages && res.0.files == s.files
    ensures Wf(s) ==> Wf(res.0)
  {
    if r !in s.rooms || u !in s.players then (s, Normal(false))
    else
      var s1 := Leave(s, u);
      if r !in s1.rooms then (s1, Thrown(KeyNotFound))
      else
        var room := s1.rooms[r];
        (s1.(rooms := s1.rooms[r := room.(players := room.players + [u])],
             players := s1.players[u := s1.players[u].(currentRoom := Some(r))]),
         Normal(true))
  }

  /** SendMessage: stamps the message with the server clock and appends it. */
  function Send(s: Store, m: ChatMessage): (t: Store)
    ensures t.messages == s.messages + [m.(timestamp := s.clock)]
    ensures t.players == s.players && t.rooms == s.rooms && t.files == s.files
    ensures t.clock > s.clock
    ensures Wf(s) ==> Wf(t)
  {
    s.(messages := s.messages + [m.(timestamp := s.clock)], clock := s.clock + 1)
  }

  /** ShareFile: stamps the file with the server clock, appends it, and
      reports success. */
  function Share(s: Store, f: SharedFile): (res: (Store, bool))
    ensures res.1
    ensures res.0.files == s.files + [f.(sharedTime := s.clock)]
    ensures res.0.players == s.players && res.0.rooms == s.rooms && res.0.messages == s.messages
    ensures res.0.clock > s.clock
    ensures Wf(s) ==> Wf(res.0)
  {
    (s.(files := s.files + [f.(sharedTime := s.clock)], clock := s.clock + 1), true)
  }

  // ---------------------------------------------------------------------
  // Queries
  // ---------------------------------------------------------------------

  /** GetOnlinePlayers, as a set: the enumeration order of the dictionary is not modelled. */
  function OnlinePlayers(s: Store): set<string> {
    s.players.Keys
  }

  /** GetAvailableRooms, as a set of rooms. */
  function AvailableRooms(s: Store): set<LobbyRoom> {
    s.rooms.Values
  }

  /** GetPlayersInRoom: the room's list, or empty for an unknown room. */
  function PlayersInRoom(s: Store, r: string): (ps: seq<string>)
    ensures r !in s.rooms ==> ps == []
    ensures r in s.rooms ==> ps == s.rooms[r].players
  {
    if r in s.rooms then s.rooms[r].players else []
  }

  function IsRoomMessage(r: string): ChatMessage -> bool {
    (m: ChatMessage) => !m.isPrivate && m.roomName == Some(r)
  }

  function IsPrivateFor(u: string): ChatMessage -> bool {
    (m: ChatMessage) => m.isPrivate && (m.from == u || m.to == Some(u))
  }

  function IsRoomFile(r: string): SharedFile -> bool {
    (f: SharedFile) => f.roomName == r
  }

  /** GetRoomMessages: the public messages of room `r`, ordered by timestamp. */
  function RoomMessages(s: Store, r: string): seq<ChatMessage> {
    SortBy(Filter(s.messages, IsRoomMessage(r)), MessageTime)
  }

  /** GetPrivateMessages: the private messages sent by or to `u`, ordered by timestamp. */
  function PrivateMessages(s: Store, u: string): seq<ChatMessage> {
    SortBy(Filter(s.messages, IsPrivateFor(u)), MessageTime)
  }

  /** GetSharedFiles: the files shared in room `r`, ordered by timestamp. */
  function SharedFiles(s: Store, r: string): seq<SharedFile> {
    SortBy(Filter(s.files, IsRoomFile(r)), FileTime)
  }

  /** Each query returns, oldest first, exactly the logged entries it selects. */
  lemma QueriesSelect(s: Store, r: string, u: string)
    ensures Sorted(RoomMessages(s, r), MessageTime)
    ensures forall m | m in RoomMessages(s, r) :: m in s.messages && !m.isPrivate && m.roomName == Some(r)
    ensures forall m | m in s.messages && !m.isPrivate && m.roomName == Some(r) :: m in RoomMessages(s, r)
    ensures Sorted(PrivateMessages(s, u), MessageTime)
    ensures forall m | m in PrivateMessages(s, u) :: m in s.messages && m.isPrivate && (m.from == u || m.to == Some(u))
    ensures forall m | m in s.messages && m.isPrivate && (m.from == u || m.to == Some(u)) :: m in PrivateMessages(s, u)
    ensures Sorted(SharedFiles(s, r), FileTime)
    ensures forall f | f in SharedFiles(s, r) :: f in s.files && f.roomName == r
    ensures forall f | f in s.files && f.roomName == r :: f in SharedFiles(s, r)
  {
    SortSelects(s.messages, IsRoomMessage(r), MessageTime);
    SortSelects(s.messages, IsPrivateFor(u), MessageTime);
    SortSelects(s.files, IsRoomFile(r), FileTime);
  }

  lemma SortSelects<T>(log: seq<T>, p: T -> bool, key: T -> int)
    ensures Sorted(SortBy(Filter(log, p), key), key)
    ensures forall x | x in SortBy(Filter(log, p), key) :: x in log && p(x)
    ensures forall x | x in log && p(x) :: x in SortBy(Filter(log, p), key)
  {
    var f := Filter(log, p);
    FilterSpec(log, p);
    SortBySpec(f, key);
    forall x | x in SortBy(f, key) ensures x in f {
      assert x in multiset(SortBy(f, key));
    }
    forall x | x in f ensures x in SortBy(f, key) {
      assert x in multiset(f);
    }
  }

  predicate FileMatches(f: SharedFile, n: string, r: string) {
    f.fileName == n && f.roomName == r
  }

  /** The index of the first file from `from` on that matches, or |files|. */
  function FirstMatch(files: seq<SharedFile>, n: string, r: string, from: nat): (k: nat)
    requires from <= |files|
    ensures from <= k <= |files|
    ensures k < |files| ==> FileMatches(files[k], n, r)
    ensures forall j | from <= j < k :: !FileMatches(files[j], n, r)
    decreases |files| - from
  {
    if from == |files| then from
    else if FileMatches(files[from], n, r) then from
    else FirstMatch(files, n, r, from + 1)
  }

  /** DownloadFile: the earliest shared file with that name in that room, or
      null when there is none. */
  function DownloadFile(s: Store, n: string, r: string): (res: Option<SharedFile>)
    ensures res.None? <==> forall f | f in s.files :: !FileMatches(f, n, r)
    ensures res.Some? ==> exists k | 0 <= k < |s.files| ::
      s.files[k] == res.value && FileMatches(res.value, n, r) &&
      forall j | 0 <= j < k :: !FileMatches(s.files[j], n, r)
  {
    var k := FirstMatch(s.files, n, r, 0);
    if k < |s.files| then Some(s.files[k]) else None
  }

  // ---------------------------------------------------------------------
  // Properties of the operations
  // ---------------------------------------------------------------------

  /** A fresh server is consistent. */
  lemma InitialInv()
    ensures Inv(Initial())
  {
  }

  /** LoginPlayer keeps the lobby consistent. */
  lemma LoginPreservesInv(s: Store, u: string)
    requires Inv(s)
    ensures Inv(Login(s, u).0)
  {
  }

  /** Under the invariant, a player is listed at most in the room named by
      their CurrentRoom. */
  lemma ListedOnlyInCurrentRoom(s: Store, u: string)
    requires ListedAreInRoom(s)
    ensures forall q | q in s.rooms && u in s.rooms[q].players ::
      u in s.players && s.players[u].currentRoom == Some(q)
  {
  }

  lemma LeaveFromListed(s: Store, u: string, c: string)
    requires ListedAreInRoom(s) && NoDuplicateMembers(s)
    requires u in s.players && c in s.rooms && s.players[u].currentRoom == Some(c)
    ensures ListedAreInRoom(LeaveFrom(s, u, c))
    ensures forall q | q in LeaveFrom(s, u, c).rooms :: u !in LeaveFrom(s, u, c).rooms[q].players
  {
    var t := LeaveFrom(s, u, c);
    var rest := RemoveFirst(s.rooms[c].players, u);
    RemoveFirstNoDup(s.rooms[c].players, u);
    forall q, v | q in t.rooms && v in t.rooms[q].players
      ensures v in t.players && t.players[v].currentRoom == Some(q)
    {
      if q == c {
        assert v in rest && v != u;
        assert v in s.rooms[c].players;
      } else {
        assert t.rooms[q] == s.rooms[q];
        assert s.players[v].currentRoom == Some(q);
      }
    }
    forall q | q in t.rooms ensures u !in t.rooms[q].players {
      if q != c {
        assert t.rooms[q] == s.rooms[q];
      }
    }
  }

  lemma LeaveFromInRoom(s: Store, u: string, c: string)
    requires InRoomAreListed(s) && NoDuplicateMembers(s)
    requires u in s.players && c in s.rooms && s.players[u].currentRoom == Some(c)
    ensures InRoomAreListed(LeaveFrom(s, u, c))
  {
    var t := LeaveFrom(s, u, c);
    RemoveFirstNoDup(s.rooms[c].players, u);
    forall v | v in t.players && t.players[v].currentRoom.Some?
      ensures t.players[v].currentRoom.value in t.rooms
      ensures v in t.rooms[t.players[v].currentRoom.value].players
    {
      assert v != u;
      var q := s.players[v].currentRoom.value;
      assert v in s.rooms[q].players;
      assert q == c ==> v in RemoveFirst(s.rooms[c].players, u);
    }
  }

  lemma LeaveFromRooms(s: Store, u: string, c: string)
    requires NoEmptyRoom(s) && NoDuplicateMembers(s)
    requires u in s.players && c in s.rooms
    ensures NoEmptyRoom(LeaveFrom(s, u, c)) && NoDuplicateMembers(LeaveFrom(s, u, c))
  {
    var t := LeaveFrom(s, u, c);
    RemoveFirstNoDup(s.rooms[c].players, u);
    forall q | q in t.rooms ensures t.rooms[q].players != [] && NoDup(t.rooms[q].players) {
      if q != c { assert t.rooms[q] == s.rooms[q]; }
    }
  }

  /** LeaveRoom keeps the lobby consistent, and afterwards the player is in
      no room (unless the player sits in a room named "", which LeaveRoom
      skips). */
  lemma LeavePreservesInv(s: Store, u: string)
    requires Inv(s)
    ensures Inv(Leave(s, u))
    ensures u in s.players && s.players[u].currentRoom != Some("") ==>
      && Leave(s, u).players[u].currentRoom == None
      && forall q | q in Leave(s, u).rooms :: u !in Leave(s, u).rooms[q].players
  {
    match LeaveTarget(s, u)
    case None =>
      if u in s.players && s.players[u].currentRoom != Some("") {
        assert s.players[u].currentRoom == None;
        ListedOnlyInCurrentRoom(s, u);
      }
    case Some(c) =>
      LeaveFromListed(s, u, c);
      LeaveFromInRoom(s, u, c);
      LeaveFromRooms(s, u, c);
  }

  /** LogoutPlayer keeps the lobby consistent (for a player not sitting in
      a room named ""); afterwards the player is listed in no room. */
  lemma LogoutPreservesInv(s: Store, u: string)
    requires Inv(s)
    requires u in s.players ==> s.players[u].currentRoom != Some("")
    ensures Inv(Logout(s, u))
    ensures forall q | q in Logout(s, u).rooms :: u !in Logout(s, u).rooms[q].players
  {
    var t := Logout(s, u);
    if u in s.players {
      LeavePreservesInv(s, u);
      var t1 := Leave(s, u);
      assert t.rooms == t1.rooms && t.players == t1.players - {u};
      forall q, v | q in t.rooms && v in t.rooms[q].players
        ensures v in t.players && t.players[v].currentRoom == Some(q)
      {
        assert v in t1.rooms[q].players;
      }
      assert InRoomAreListed(t) by {
        forall v | v in t.players && t.players[v].currentRoom.Some?
          ensures t.players[v].currentRoom.value in t.rooms
          ensures v in t.rooms[t.players[v].currentRoom.value].players
        {
          assert t.players[v] == t1.players[v];
        }
      }
    } else {
      ListedOnlyInCurrentRoom(s, u);
    }
  }

  lemma JoinListed(t1: Store, r: string, u: string)
    requires ListedAreInRoom(t1) && r in t1.rooms && u in t1.players
    requires forall q | q in t1.rooms :: u !in t1.rooms[q].players
    ensures var t := t1.(rooms := t1.rooms[r := t1.rooms[r].(players := t1.rooms[r].players + [u])],
                         players := t1.players[u := t1.players[u].(currentRoom := Some(r))]);
      ListedAreInRoom(t)
  {
    var t := t1.(rooms := t1.rooms[r := t1.rooms[r].(players := t1.rooms[r].players + [u])],
                 players := t1.players[u := t1.players[u].(currentRoom := Some(r))]);
    forall q, v | q in t.rooms && v in t.rooms[q].players
      ensures v in t.players && t.players[v].currentRoom == Some(q)
    {
      if q == r {
        if v != u { assert v in t1.rooms[r].players; }
      } else {
        assert t.rooms[q] == t1.rooms[q];
        assert v in t1.rooms[q].players;
      }
    }
  }

  lemma JoinInRoom(t1: Store, r: string, u: string)
    requires InRoomAreListed(t1) && r in t1.rooms && u in t1.players
    ensures var t := t1.(rooms := t1.rooms[r := t1.rooms[r].(players := t1.rooms[r].players + [u])],
                         players := t1.players[u := t1.players[u].(currentRoom := Some(r))]);
      InRoomAreListed(t)
  {
    var t := t1.(rooms := t1.rooms[r := t1.rooms[r].(players := t1.rooms[r].players + [u])],
                 players := t1.players[u := t1.players[u].(currentRoom := Some(r))]);
    forall v | v in t.players && t.players[v].currentRoom.Some?
      ensures t.players[v].currentRoom.value in t.rooms
      ensures v in t.rooms[t.players[v].currentRoom.value].players
    {
      if v != u {
        var q := t1.players[v].currentRoom.value;
        assert v in t1.rooms[q].players;
      }
    }
  }

  /** JoinRoom keeps the lobby consistent (for a player not sitting in a
      room named ""), and a successful join makes the player a member of
      the target room and of no other. */
  lemma JoinPreservesInv(s: Store, r: string, u: string)
    requires Inv(s)
    requires u in s.players ==> s.players[u].currentRoom != Some("")
    ensures Inv(Join(s, r, u).0)
    ensures Join(s, r, u).1 == Normal(true) ==>
      var t := Join(s, r, u).0;
      && u in t.rooms[r].players && t.players[u].currentRoom == Some(r)
      && forall q | q in t.rooms && q != r :: u !in t.rooms[q].players
  {
    if r in s.rooms && u in s.players {
      LeavePreservesInv(s, u);
      var t1 := Leave(s, u);
      if r in t1.rooms {
        var t := Join(s, r, u).0;
        AppendNoDup(t1.rooms[r].players, u);
        JoinListed(t1, r, u);
        JoinInRoom(t1, r, u);
        forall q | q in t.rooms ensures t.rooms[q].players != [] && NoDup(t.rooms[q].players) {
          if q != r { assert t.rooms[q] == t1.rooms[q]; }
        }
        forall q | q in t.rooms && q != r ensures u !in t.rooms[q].players {
          assert t.rooms[q] == t1.rooms[q];
        }
      }
    }
  }

  /** A witness that the membership invariant is broken. */
  lemma MembershipBroken(t: Store, q: string, u: string)
    requires q in t.rooms && u in t.rooms[q].players
    requires u !in t.players || t.players[u].currentRoom != Some(q)
    ensures !Membership(t)
  {
  }

  /** CreateRoom keeps the lobby consistent when the creator is online and
      in no room; the creator is then the room's only member. */
  lemma CreatePreservesInv(s: Store, r: string, createdBy: string, u: string)
    requires Inv(s)
    requires u in s.players && s.players[u].currentRoom == None
    ensures Inv(Create(s, r, createdBy, u).0)
    ensures r !in s.rooms ==>
      var t := Create(s, r, createdBy, u).0;
      t.rooms[r].players == [u] && t.players[u].currentRoom == Some(r)
  {
    if r !in s.rooms {
      var t := Create(s, r, createdBy, u).0;
      assert forall q | q in s.rooms :: u !in s.rooms[q].players;
      forall q, v | q in t.rooms && v in t.rooms[q].players
        ensures v in t.players && t.players[v].currentRoom == Some(q)
      {
        if q != r {
          assert v in s.rooms[q].players;
          assert v != u;
        }
      }
      assert NoDup([u]) by {
        assert multiset([u]) == multiset{u};
      }
    }
  }

  /** SendMessage and ShareFile keep the lobby consistent. */
  lemma SendSharePreservesInv(s: Store, m: ChatMessage, f: SharedFile)
    requires Inv(s)
    ensures Inv(Send(s, m)) && Inv(Share(s, f).0)
  {
  }

  /** The quirk of JoinRoom: the sole member of a room who joins it again
      deletes it on the way out and then hits the missing key; the lobby is
      still consistent and the player is left in no room. */
  lemma RejoinAsSoleMemberThrows(s: Store, r: string, u: string)
    requires Inv(s)
    requires r != "" && r in s.rooms && s.rooms[r].players == [u]
    ensures Join(s, r, u).1 == Thrown(KeyNotFound)
    ensures r !in Join(s, r, u).0.rooms
    ensures Join(s, r, u).0.players[u].currentRoom == None
    ensures Inv(Join(s, r, u).0)
  {
    assert u in s.rooms[r].players;
    assert LeaveTarget(s, u) == Some(r);
    LeavePreservesInv(s, u);
  }

  /** The quirk of CreateRoom with an offline creator: the exception comes
      after the room was inserted, so a room listing a player who is not
      online is left behind. */
  lemma CreateByOfflinePlayerLeavesRoom(s: Store, r: string, createdBy: string, u: string)
    requires r !in s.rooms && u !in s.players
    ensures Create(s, r, createdBy, u).1 == Thrown(KeyNotFound)
    ensures r in Create(s, r, createdBy, u).0.rooms
    ensures !Membership(Create(s, r, createdBy, u).0)
  {
    var t := Create(s, r, createdBy, u).0;
    MembershipBroken(t, r, u);
  }

  /** The quirk of CreateRoom by a player already in a room: the old room is
      not left, so the player ends up listed in two rooms. */
  lemma CreateWhileInRoomBreaksMembership(s: Store, r: string, createdBy: string, u: string)
    requires Inv(s)
    requires r !in s.rooms && u in s.players && s.players[u].currentRoom.Some?
    ensures Create(s, r, createdBy, u).1 == Normal(true)
    ensures !Membership(Create(s, r, createdBy, u).0)
  {
    var q := s.players[u].currentRoom.value;
    var t := Create(s, r, createdBy, u).0;
    assert q != r && q in s.rooms;
    assert u in s.rooms[q].players;
    assert t.rooms[q] == s.rooms[q];
    MembershipBroken(t, q, u);
  }

  /** A room named "" is never left: LeaveRoom treats the name like null,
      so a member of such a room who joins another room stays listed in it. */
  lemma JoinFromRoomNamedEmptyBreaksMembership(s: Store, r: string, u: string)
    requires Inv(s)
    requires u in s.players && s.players[u].currentRoom == Some("")
    requires r in s.rooms && r != ""
    ensures Join(s, r, u).1 == Normal(true)
    ensures !Membership(Join(s, r, u).0)
  {
    var t := Join(s, r, u).0;
    assert LeaveTarget(s, u) == None;
    assert "" in s.rooms && u in s.rooms[""].players;
    assert t.rooms[""] == s.rooms[""];
    MembershipBroken(t, "", u);
  }

  /** Because the server clock only moves forward, the OrderBy of each query
      returns the matching entries in the order they were logged. */
  lemma QueriesInLogOrder(s: Store, r: string, u: string)
    requires Wf(s)
    ensures RoomMessages(s, r) == Filter(s.messages, IsRoomMessage(r))
    ensures PrivateMessages(s, u) == Filter(s.messages, IsPrivateFor(u))
    ensures SharedFiles(s, r) == Filter(s.files, IsRoomFile(r))
  {
    FilterSorted(s.messages, IsRoomMessage(r), MessageTime);
    SortBySortedIsIdentity(Filter(s.messages, IsRoomMessage(r)), MessageTime);
    FilterSorted(s.messages, IsPrivateFor(u), MessageTime);
    SortBySortedIsIdentity(Filter(s.messages, IsPrivateFor(u)), MessageTime);
    FilterSorted(s.files, IsRoomFile(r), FileTime);
    SortBySortedIsIdentity(Filter(s.files, IsRoomFile(r)), FileTime);
  }

  /** A private message is seen, newest last, by its sender and its recipient
      and by no room. */
  lemma PrivateMessageVisibility(s: Store, m: ChatMessage, r: string)
    requires Wf(s) && m.isPrivate && m.to.Some?
    ensures var t := Send(s, m); var x := m.(timestamp := s.clock);
      && PrivateMessages(t, m.from) == PrivateMessages(s, m.from) + [x]
      && PrivateMessages(t, m.to.value) == PrivateMessages(s, m.to.value) + [x]
      && RoomMessages(t, r) == RoomMessages(s, r)
  {
    var t := Send(s, m);
    var x := m.(timestamp := s.clock);
    QueriesInLogOrder(s, r, m.from);
    QueriesInLogOrder(t, r, m.from);
    QueriesInLogOrder(s, r, m.to.value);
    QueriesInLogOrder(t, r, m.to.value);
    FilterSnoc(s.messages, x, IsPrivateFor(m.from));
    FilterSnoc(s.messages, x, IsPrivateFor(m.to.value));
    FilterSnoc(s.messages, x, IsRoomMessage(r));
  }

  /** A public message of room `r` appears last in that room's history and in
      nobody's private history. */
  lemma RoomMessageVisibility(s: Store, m: ChatMessage, u: string)
    requires Wf(s) && !m.isPrivate && m.roomName.Some?
    ensures var t := Send(s, m); var x := m.(timestamp := s.clock);
      && RoomMessages(t, m.roomName.value) == RoomMessages(s, m.roomName.value) + [x]
      && PrivateMessages(t, u) == PrivateMessages(s, u)
  {
    var t := Send(s, m);
    var x := m.(timestamp := s.clock);
    QueriesInLogOrder(s, m.roomName.value, u);
    QueriesInLogOrder(t, m.roomName.value, u);
    FilterSnoc(s.messages, x, IsRoomMessage(m.roomName.value));
    FilterSnoc(s.messages, x, IsPrivateFor(u));
  }

  /** A shared file appears last in its room's file list, and DownloadFile
      finds it unless an earlier file of the same name was shared there. */
  lemma SharedFileVisibility(s: Store, f: SharedFile)
    requires Wf(s)
    ensures var t := Share(s, f).0; var x := f.(sharedTime := s.clock);
      && SharedFiles(t, f.roomName) == SharedFiles(s, f.roomName) + [x]
      && DownloadFile(t, f.fileName, f.roomName) ==
         (if DownloadFile(s, f.fileName, f.roomName).Some? then DownloadFile(s, f.fileName, f.roomName) else Some(x))
  {
    var t := Share(s, f).0;
    var x := f.(sharedTime := s.clock);
    QueriesInLogOrder(s, f.roomName, "");
    QueriesInLogOrder(t, f.roomName, "");
    FilterSnoc(s.files, x, IsRoomFile(f.roomName));
    FirstMatchSnoc(s.files, x, f.fileName, f.roomName, 0);
  }

  lemma {:induction false} FirstMatchSnoc(files: seq<SharedFile>, x: SharedFile, n: string, r: string, from: nat)
    requires from <= |files|
    ensures FirstMatch(files + [x], n, r, from) ==
      (if FirstMatch(files, n, r, from) < |files| || FileMatches(x, n, r)
       then FirstMatch(files, n, r, from) else |files| + 1)
    decreases |files| - from
  {
    if from < |files| {
      assert (files + [x])[from] == files[from];
      if !FileMatches(files[from], n, r) {
        FirstMatchSnoc(files, x, n, r, from + 1);
      }
    }
  }

  /** LoginPlayer puts the player online in the main lobby, and a second
      login under the same name is refused. */
  lemma LoginThenLoginAgain(s: Store, u: string)
    requires u !in s.players
    ensures Login(s, u).1 && u in OnlinePlayers(Login(s, u).0)
    ensures Login(s, u).0.players[u].currentRoom == None
    ensures !Login(Login(s, u).0, u).1
  {
  }
}

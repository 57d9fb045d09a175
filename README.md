# MKX Lobby server core in Dafny

This project models the server side of the MKX game lobby. Players log in under a
unique name and can create, join and leave chat rooms. They can send public room
messages and private messages, and share files in a room. Three servers are modelled:

- **LobbyService** (`MKXLobbyServer/LobbyService.cs`) keeps the online players, the
  rooms, the message log and the file log. Clients poll it with LINQ queries.
- **LobbyServiceD** (`MKXLobbyServerDuplex/LobbyServiceD.cs`) has the same lobby logic.
  On top of it, room, message, file and logout changes are pushed to the subscribed
  clients through `ILobbyServiceCallback`. Login and unsubscribing push nothing.
- **LobbyDuplexService** (`MKXLobbyServer/LobbyDuplexService.cs`) derives from
  LobbyService. It hides four of its operations (JoinRoom, LeaveRoom, SendMessage,
  ShareFile) with `new` versions. It also adds a two-argument `CreateRoom` overload. Each
  of these calls the base operation and then notifies clients through `ILobbyCallback`.
  A client whose callback fails is dropped from the registry.

The files are:

- `models.dfy` (module `LobbyModels`): the records `Player`, `LobbyRoom`, `ChatMessage`
  and `SharedFile`. It also has `Option` for nullable references and `Outcome` for an
  operation that returns or lets an exception escape.
- `sequences.dfy` (module `Sequences`): the list operations the server uses.
  - LINQ `Where` is `Filter`.
  - The stable LINQ `OrderBy` is `SortBy`.
  - `List.Remove` is `RemoveFirst`.
  - It also defines duplicate-freedom and "enumerates a dictionary's keys".
- `store.dfy` (module `LobbyStore`):
  - the lobby state as a value (`Store`);
  - each LobbyService operation as a function from the old state to the new state and
    the result;
  - the queries;
  - the consistency invariant and the lemmas about them.
- `lobby_service.dfy` (module `LobbyServer`): class `LobbyService`. Its fields are the
  dictionaries and lists of the C# class. Each method updates them in place and is proved
  to agree with the `LobbyStore` function of the same operation.
- `fanout.dfy` (module `Callbacks`): callback delivery.
  - A notice offered to a list of users gives one `Attempt` per registered user. Which
    channels are broken is an input.
  - `FanOut` is the LobbyServiceD loop. Failures are ignored.
  - `EvictFanOut` is the LobbyDuplexService loop. A failure unregisters the user, so that
    user gets no later attempt.
- `lobby_service_d.dfy` (module `LobbyServerDuplex`): class `LobbyServiceD`.
  - Its state and results are proved equal to the `LobbyStore` functions.
  - Its callback `log` is proved equal to fan-outs of its `ServiceEvent` notices.
  - The module also holds the lemmas about who receives which notices.
- `lobby_duplex_service.dfy` (module `LobbyDuplex`): class `LobbyDuplexService`.
  - Inheritance becomes a `base: LobbyService` field. The operations the class does not
    hide (login, logout, the queries) are those of `base`.
  - The base methods are not virtual. So the LeaveRoom that the base JoinRoom and
    LogoutPlayer call sends no `PlayerLeft` notice. The model shows this because those
    base methods are the `LobbyService` ones.

A state is consistent (`LobbyStore.Inv`) when all of these hold:

- every online player and room is stored under its own name;
- a player is listed in a room exactly when that room is the player's `CurrentRoom`;
- no room has an empty player list;
- no room lists a player twice;
- both logs are in clock order and stamped before the current clock reading.

Every state-changing operation is proved to keep this invariant, within the limits below.
Lemmas also cover the cases where the code breaks it:

- creating a room while already in a room;
- a creator who is not online;
- a room named `""`.

## Model

| member | source | states |
|---|---|---|
| LobbyModels.NewRoom | MKXLobbyModels/LobbyRoom.cs:34-38 | A new room has the given name and creator and an empty player list. |
| Sequences.FilterSpec | MKXLobbyServer/LobbyService.cs:213-216 | `Where` keeps exactly the elements that satisfy the predicate, and never lengthens the list. |
| Sequences.SortBySpec | MKXLobbyServer/LobbyService.cs:213-216 | `OrderBy` returns a permutation of its input (equal multisets), sorted by the key. |
| Sequences.SortBySortedIsIdentity | MKXLobbyServer/LobbyService.cs:213-216 | `OrderBy` on a list already in key order returns it unchanged, so a log kept in clock order comes back in log order. |
| Sequences.RemoveFirstSpec | MKXLobbyServer/LobbyService.cs:162 | `List.Remove` takes away one occurrence of the item when there is one (length minus one, multiset minus one), and otherwise changes nothing. |
| Sequences.RemoveFirstNoDup | MKXLobbyServer/LobbyService.cs:162 | On a list without duplicates, `Remove` leaves no occurrence of the item, keeps every other element, and keeps the list free of duplicates. |
| LobbyStore.Login | MKXLobbyServer/LobbyService.cs:32-52 | The login succeeds exactly when the name is not online. A refused login changes nothing. A successful one adds the player, online and in no room, and leaves the rooms and logs unchanged. |
| LobbyStore.Leave | MKXLobbyServer/LobbyService.cs:147-175 | When the player is offline, or their CurrentRoom is null, "" or a missing room, nothing changes. Otherwise the effect is `LeaveFrom` on that room. The logs, the clock and the set of online players stay the same. |
| LobbyStore.LeaveFrom | MKXLobbyServer/LobbyService.cs:159-170 | The player's CurrentRoom becomes null. The player's first listing is removed from the room. The room is deleted exactly when its list became empty. Every other room and player is unchanged. |
| LobbyStore.Logout | MKXLobbyServer/LobbyService.cs:57-72 | A user who is not online changes nothing. An online user leaves their room as `Leave` does and is then no longer online. The logs are unchanged. |
| LobbyStore.Create | MKXLobbyServer/LobbyService.cs:86-111 | An existing name gives false and no change. Otherwise the room is inserted with `[username]` as its list. If the user is online, their CurrentRoom becomes the room and the result is true. If not, KeyNotFound escapes and the inserted room stays. |
| LobbyStore.Join | MKXLobbyServer/LobbyService.cs:125-143 | A missing room or player gives false and no change. KeyNotFound escapes exactly when the player's leave deleted the target room itself; the state is then the one after the leave. On success, the player has left the old room and is appended to the target room, with CurrentRoom set to it. |
| LobbyStore.Send | MKXLobbyServer/LobbyService.cs:192-204 | The message is appended with the server clock as its timestamp. The clock advances, and players, rooms and files are unchanged. |
| LobbyStore.Share | MKXLobbyServer/LobbyService.cs:236-250 | The file is appended with the server clock as its shared time, and the result is always true. Nothing else changes except the clock. |
| LobbyStore.PlayersInRoom | MKXLobbyServer/LobbyService.cs:179-188 | `GetPlayersInRoom` returns the room's list, or an empty list for an unknown room. |
| LobbyStore.QueriesSelect | MKXLobbyServer/LobbyService.cs:208-264 | The results are sorted by timestamp and hold exactly the logged entries each query selects. `GetRoomMessages` gives the public messages of the room. `GetPrivateMessages` gives the private messages from or to the user. `GetSharedFiles` gives the files of the room. |
| LobbyStore.QueriesInLogOrder | MKXLobbyServer/LobbyService.cs:208-264 | In a well-formed state the server clock only moves forward. So each query returns the selected entries in the order they were logged. |
| LobbyStore.FirstMatch | MKXLobbyServer/LobbyService.cs:273-274 | The index found is the first at or after the start whose file has that name and room, or the end of the list. |
| LobbyStore.DownloadFile | MKXLobbyServer/LobbyService.cs:268-276 | The result is null exactly when no logged file has that name and room. Otherwise it is the earliest such file. |
| LobbyStore.InitialInv | MKXLobbyServer/LobbyService.cs:21-24 | A freshly started server, with empty collections, is consistent. |
| LobbyStore.LoginPreservesInv | MKXLobbyServer/LobbyService.cs:32-52 | LoginPlayer keeps the lobby consistent. |
| LobbyStore.LeavePreservesInv | MKXLobbyServer/LobbyService.cs:147-175 | LeaveRoom keeps the lobby consistent, including no empty room and no duplicates. A player not in a room named "" is afterwards in no room and listed nowhere. |
| LobbyStore.LogoutPreservesInv | MKXLobbyServer/LobbyService.cs:57-72 | LogoutPlayer keeps the lobby consistent, and the player is listed in no room afterwards. This holds for a player not in a room named "". |
| LobbyStore.JoinPreservesInv | MKXLobbyServer/LobbyService.cs:125-143 | JoinRoom keeps the lobby consistent. After a successful join the player is a member of the target room and of no other. This holds for a player not in a room named "". |
| LobbyStore.CreatePreservesInv | MKXLobbyServer/LobbyService.cs:86-111 | CreateRoom by an online player in no room keeps the lobby consistent. A new room then has the creator as its only member and as the creator's CurrentRoom. |
| LobbyStore.SendSharePreservesInv | MKXLobbyServer/LobbyService.cs:192-250 | SendMessage and ShareFile keep the lobby consistent. |
| LobbyStore.RejoinAsSoleMemberThrows | MKXLobbyServer/LobbyService.cs:125-143 | The sole member of a room who joins it again deletes it while leaving, and then KeyNotFound escapes. The player is left in no room, and the lobby stays consistent. |
| LobbyStore.CreateByOfflinePlayerLeavesRoom | MKXLobbyServer/LobbyService.cs:95-104 | CreateRoom with a creator who is not online throws. It leaves behind a room that lists a player who is not online, so membership is broken. |
| LobbyStore.CreateWhileInRoomBreaksMembership | MKXLobbyServer/LobbyService.cs:86-111 | CreateRoom by a player already in a room succeeds without leaving the old room. The player is then listed in two rooms and membership is broken. |
| LobbyStore.JoinFromRoomNamedEmptyBreaksMembership | MKXLobbyServer/LobbyService.cs:159 | LeaveRoom skips a CurrentRoom of "". So a member of a room named "" who joins another room stays listed in the old one, and membership is broken. |
| LobbyStore.PrivateMessageVisibility | MKXLobbyServer/LobbyService.cs:192-232 | A private message appears, stamped and last, in the private history of its sender and of its recipient. It appears in no room's history. |
| LobbyStore.RoomMessageVisibility | MKXLobbyServer/LobbyService.cs:192-232 | A public message appears, stamped and last, in its room's history. It appears in nobody's private history. |
| LobbyStore.SharedFileVisibility | MKXLobbyServer/LobbyService.cs:236-276 | A shared file appears last in its room's file list. DownloadFile finds it unless an earlier file of the same name was shared in that room. |
| LobbyStore.LoginThenLoginAgain | MKXLobbyServer/LobbyService.cs:32-52 | A new login puts the player online in no room, and a second login under the same name is refused. |
| LobbyServer.LobbyService.constructor | MKXLobbyServer/LobbyService.cs:21-24 | The server starts with the initial (consistent) state. |
| LobbyServer.LobbyService.Now | MKXLobbyServer/LobbyService.cs:44 | A clock reading returns the current value and advances the clock; nothing else changes. |
| LobbyServer.LobbyService.LoginPlayer | MKXLobbyServer/LobbyService.cs:32-52 | The in-place update yields the `Login` state and result. |
| LobbyServer.LobbyService.LogoutPlayer | MKXLobbyServer/LobbyService.cs:57-72 | The in-place update yields the `Logout` state. |
| LobbyServer.LobbyService.CreateRoom | MKXLobbyServer/LobbyService.cs:86-111 | The in-place update yields the `Create` state and outcome, the exception case included. |
| LobbyServer.LobbyService.JoinRoom | MKXLobbyServer/LobbyService.cs:125-143 | The in-place update yields the `Join` state and outcome, the exception case included. |
| LobbyServer.LobbyService.LeaveRoom | MKXLobbyServer/LobbyService.cs:147-175 | The in-place update yields the `Leave` state. |
| LobbyServer.LobbyService.SendMessage | MKXLobbyServer/LobbyService.cs:192-204 | The in-place update yields the `Send` state, and the method returns the stamped message. |
| LobbyServer.LobbyService.ShareFile | MKXLobbyServer/LobbyService.cs:236-250 | The in-place update yields the `Share` state and result, and the method returns the stamped file. |
| LobbyServer.LobbyService.GetOnlinePlayers | MKXLobbyServer/LobbyService.cs:76-83 | Every online name appears exactly once, in some dictionary order. |
| LobbyServer.LobbyService.GetAvailableRooms | MKXLobbyServer/LobbyService.cs:114-121 | Every room appears exactly once, in the dictionary order `names`. |
| Callbacks.FanOutSpec | MKXLobbyServerDuplex/LobbyServiceD.cs:306-323 | Every attempt carries the notice and goes to a listed, registered user through that user's own channel. It fails exactly when the channel is broken. |
| Callbacks.FanOutUsers | MKXLobbyServerDuplex/LobbyServiceD.cs:310-321 | The attempts go to the registered users of the list, in list order; users without a channel are skipped. |
| Callbacks.FanOutOncePerMember | MKXLobbyServerDuplex/LobbyServiceD.cs:310-321 | Over a list without duplicates, each registered member gets exactly one attempt and nobody else gets one. |
| Callbacks.BroadcastReachesAll | MKXLobbyServerDuplex/LobbyServiceD.cs:245-259 | A broadcast over an enumeration of the registry reaches every registered user exactly once. |
| Callbacks.EvictAmongAll | MKXLobbyServer/LobbyDuplexService.cs:146-171 | Dropping the broken channels of every registered user is a full eviction of broken channels. |
| Callbacks.EvictFanOutSpec | MKXLobbyServer/LobbyDuplexService.cs:116-144 | After a NotifyClient loop, the registry has lost exactly the broken channels of the listed users. Every attempt went to a listed user through the channel registered at the start. |
| Callbacks.EvictFanOutIsFanOut | MKXLobbyServer/LobbyDuplexService.cs:116-144 | On a list without duplicates, eviction never hides a user from a later attempt. So the attempts are those of a plain fan-out. |
| Callbacks.EvictFanOutSkipsEvicted | MKXLobbyServer/LobbyDuplexService.cs:120-131 | A user listed twice whose channel fails gets only one attempt, because it was unregistered after the failure; a plain fan-out tries twice. |
| Callbacks.DispatchOutcome | MKXLobbyServerDuplex/LobbyServiceD.cs:211-220 | SendMessage throws ArgumentNull exactly when a private message has no recipient or a public message has no room. |
| LobbyServerDuplex.RoomDataContents | MKXLobbyServerDuplex/LobbyServiceD.cs:262-283 | A room data notice holds the room's public messages, its players and its files, each in log order. |
| LobbyServerDuplex.RoomDataPayloadShared | MKXLobbyServerDuplex/LobbyServiceD.cs:262-283 | Every member notified of a room snapshot gets the same lists, read once before the loop, through their own channel. |
| LobbyServerDuplex.RoomAudience | MKXLobbyServerDuplex/LobbyServiceD.cs:262-283 | In a consistent lobby, a notice to a room's members reaches each subscribed member once and nobody else. |
| LobbyServerDuplex.LeftRoomAudience | MKXLobbyServerDuplex/LobbyServiceD.cs:157-195 | In a consistent lobby, PlayerLeftRoom reaches the subscribed remaining members once each and never the leaver. The room is deleted exactly when the leaver was its only member. |
| LobbyServerDuplex.JoinedRoomAudience | MKXLobbyServerDuplex/LobbyServiceD.cs:131-153 | In a consistent lobby, the PlayerJoinedRoom notices of a successful join reach every subscribed post-join member once, the joiner included. The room snapshot that follows has the same audience by `RoomAudience`. |
| LobbyServerDuplex.SelfPrivateMessageTwice | MKXLobbyServerDuplex/LobbyServiceD.cs:286-303 | A private message to oneself reaches the subscribed sender twice. |
| LobbyServerDuplex.LobbyServiceD.constructor | MKXLobbyServerDuplex/LobbyServiceD.cs:21-29 | The server starts in the initial state, with no subscribers and no notices. |
| LobbyServerDuplex.LobbyServiceD.Now | MKXLobbyServerDuplex/LobbyServiceD.cs:45 | A clock reading returns the current value and advances the clock; nothing else changes. |
| LobbyServerDuplex.LobbyServiceD.LoginPlayer | MKXLobbyServerDuplex/LobbyServiceD.cs:33-58 | The state and result are those of `Login`. A successful login stores the caller's channel; a refused one leaves the registry unchanged. No notices are sent. |
| LobbyServerDuplex.LobbyServiceD.LogoutPlayer | MKXLobbyServerDuplex/LobbyServiceD.cs:62-83 | The state is that of `Logout`. An online user's channel is dropped; the log gets the user's leave notices, then the room list for every remaining subscriber. A user who is not online causes nothing. |
| LobbyServerDuplex.LobbyServiceD.UnsubscribeFromUpdate | MKXLobbyServerDuplex/LobbyServiceD.cs:92-96 | Removes the user's channel, whether it exists or not. Nothing else changes. |
| LobbyServerDuplex.LobbyServiceD.CreateRoom | MKXLobbyServerDuplex/LobbyServiceD.cs:99-127 | The state and outcome are those of `Create`. Only a successful creation sends a notice: the new room list, to every subscriber once. |
| LobbyServerDuplex.LobbyServiceD.JoinRoom | MKXLobbyServerDuplex/LobbyServiceD.cs:131-153 | The state and outcome are those of `Join`, with the notices of the leave. A successful join then sends PlayerJoinedRoom, followed by the room snapshot, to the post-join members. A refused join sends nothing. |
| LobbyServerDuplex.LobbyServiceD.LeaveRoom | MKXLobbyServerDuplex/LobbyServiceD.cs:157-195 | The state is that of `Leave`. PlayerLeftRoom goes to the members still listed. Then the room list goes to every subscriber if the room was deleted; otherwise the room snapshot goes to its members. |
| LobbyServerDuplex.LobbyServiceD.SendMessage | MKXLobbyServerDuplex/LobbyServiceD.cs:199-222 | The state is that of `Send`. A private message goes to the sender, then the recipient. A public message sends the room snapshot to its members. A null recipient or room throws. |
| LobbyServerDuplex.LobbyServiceD.ShareFile | MKXLobbyServerDuplex/LobbyServiceD.cs:226-242 | The state and result are those of `Share`, and the room snapshot goes to the members of the file's room. |
| LobbyServerDuplex.LobbyServiceD.NotifyEach | MKXLobbyServerDuplex/LobbyServiceD.cs:306-343 | The loops of NotifyPlayerJoinedRoom and NotifyPlayerLeftRoom make one attempt per subscribed user, in list order. A failure changes nothing. |
| LobbyServerDuplex.LobbyServiceD.NotifyRoomListUpdated | MKXLobbyServerDuplex/LobbyServiceD.cs:245-259 | One attempt per subscriber, over an enumeration of the registry, all with the same room list. |
| LobbyServerDuplex.LobbyServiceD.NotifyRoomDataUpdated | MKXLobbyServerDuplex/LobbyServiceD.cs:262-283 | The snapshot of the room, read once, goes to each subscribed member. |
| LobbyServerDuplex.LobbyServiceD.NotifyPrivateMessage | MKXLobbyServerDuplex/LobbyServiceD.cs:286-303 | The sender is served, then the recipient. A null recipient throws after the sender was served. |
| LobbyDuplex.FirstNamedSpec | MKXLobbyServer/LobbyDuplexService.cs:192-195 | `FirstOrDefault` finds nothing exactly when no room has the name. Otherwise it finds the earliest room with that name. |
| LobbyDuplex.FirstListingUnique | MKXLobbyServer/LobbyDuplexService.cs:180-187 | When exactly one room lists the player, that room is the one the search returns. |
| LobbyDuplex.FirstListingNone | MKXLobbyServer/LobbyDuplexService.cs:180-187 | When no room lists the player, the search returns null. |
| LobbyDuplex.CurrentRoomFound | MKXLobbyServer/LobbyDuplexService.cs:173-190 | In a lobby that satisfies membership, GetPlayerCurrentRoom gives the player's CurrentRoom, whatever the dictionary order. It gives null for an offline player. |
| LobbyDuplex.CurrentRoomAfterCreateWhileInRoom | MKXLobbyServer/LobbyDuplexService.cs:53-64 | After CreateRoom by a player already in a room, the player's CurrentRoom is the new room, but the search can find the old room first. Combined with the ensures of `LobbyDuplexService.LeaveRoom`, this means LeaveRoom then announces a departure from a room other than the one CurrentRoom names. |
| LobbyDuplex.RoomNoticesOncePerMember | MKXLobbyServer/LobbyDuplexService.cs:136-144 | In a consistent lobby, NotifyPlayersInRoom reaches each registered member exactly once and nobody else. |
| LobbyDuplex.LeftNoticesReachRemaining | MKXLobbyServer/LobbyDuplexService.cs:53-64 | In a consistent lobby, LeaveRoom finds the player's room. PlayerLeft reaches the registered remaining members once each and not the leaver. |
| LobbyDuplex.JoinedNoticesReachMembers | MKXLobbyServer/LobbyDuplexService.cs:40-51 | In a consistent lobby, PlayerJoined reaches every registered post-join member once, the joiner included. |
| LobbyDuplex.SelfMessageNotices | MKXLobbyServer/LobbyDuplexService.cs:66-82 | A private message to oneself reaches a working channel twice. A broken channel fails once and is unregistered before the second call. |
| LobbyDuplex.LobbyDuplexService.constructor | MKXLobbyServer/LobbyDuplexService.cs:11-14 | The service starts with a fresh base in the initial state, no clients and no notices. |
| LobbyDuplex.LobbyDuplexService.RegisterForCallbacks | MKXLobbyServer/LobbyDuplexService.cs:16-25 | The caller's channel is stored under the name, replacing an earlier one. |
| LobbyDuplex.LobbyDuplexService.UnregisterFromCallbacks | MKXLobbyServer/LobbyDuplexService.cs:27-37 | The user's channel is removed if present; otherwise nothing changes. |
| LobbyDuplex.LobbyDuplexService.JoinRoom | MKXLobbyServer/LobbyDuplexService.cs:40-51 | The base state and outcome are those of `Join`. Only a successful join notifies, with PlayerJoined to the post-join members, and failed channels are evicted. |
| LobbyDuplex.LobbyDuplexService.LeaveRoom | MKXLobbyServer/LobbyDuplexService.cs:53-64 | The base state is that of `Leave`. The room found before leaving is told PlayerLeft, with its members read after the leave. Nothing is sent when no room was found or the room is named "". |
| LobbyDuplex.LobbyDuplexService.SendMessage | MKXLobbyServer/LobbyDuplexService.cs:66-82 | The base state is that of `Send`. The stamped message goes to sender then recipient (private), or to the room's members (public). A null recipient or room throws. |
| LobbyDuplex.LobbyDuplexService.ShareFile | MKXLobbyServer/LobbyDuplexService.cs:84-95 | The base state and result are those of `Share`. The stamped file goes to the members of its room, and failed channels are evicted. |
| LobbyDuplex.LobbyDuplexService.CreateRoom | MKXLobbyServer/LobbyDuplexService.cs:97-112 | The base state and outcome are those of `Create`. Only a successful creation sends RoomCreated with the stored room, to every client once, and then drops exactly the broken channels. |
| LobbyDuplex.LobbyDuplexService.NotifyClient | MKXLobbyServer/LobbyDuplexService.cs:116-134 | An unregistered user gets nothing. A failed attempt unregisters the user and leaves every other entry alone; a successful one changes no entry. |
| LobbyDuplex.LobbyDuplexService.NotifyPlayersInRoom | MKXLobbyServer/LobbyDuplexService.cs:136-144 | NotifyClient runs for each listed player in order, each on the registry the previous ones left. |
| LobbyDuplex.LobbyDuplexService.NotifyAllClients | MKXLobbyServer/LobbyDuplexService.cs:146-171 | Every client of the snapshot gets one attempt. Exactly the clients whose attempt failed are removed afterwards. |
| LobbyDuplex.LobbyDuplexService.Unregister | MKXLobbyServer/LobbyDuplexService.cs:164-167 | The removal loop drops exactly the collected users from the registry. |
| LobbyDuplex.LobbyDuplexService.GetPlayerCurrentRoom | MKXLobbyServer/LobbyDuplexService.cs:173-190 | Null for a player who is not online. Otherwise the first room, in dictionary order, whose list holds the player, or null. |
| LobbyDuplex.LobbyDuplexService.GetRoom | MKXLobbyServer/LobbyDuplexService.cs:192-195 | A room found is a stored room with that name. In a well-formed lobby it is the room stored under the name, and null when there is none. |

## Left out

- Concurrency: the `lock` blocks and `ConcurrentDictionary` are not modelled. Each public operation is one atomic step.
- The static fields are modelled as instance fields. Two instances of a service class do not share state in the model.
- WCF hosting, `OperationContext` and the callback proxies are not modelled. The caller's channel is a `Handle` parameter, and a callback invocation is an `Attempt` appended to `log`. Which channels are broken is a parameter, `broken`.
- `DateTime.Now` is a counter (`clock`) that advances on each reading. Console logging is left out. File contents are opaque bytes.
- Dictionary enumeration order is unspecified in .NET. Operations whose behaviour depends on it return a ghost `order` or `names` that enumerates the keys. The room lists in `RoomListUpdated` notices and in `GetAvailableRooms` are the dictionary, or that enumeration.
- A `RoomDataUpdated` notice carries the state its three lists were read from; `RoomDataLists` gives the lists.
- Null strings are modelled only for `ChatMessage.to` and `ChatMessage.roomName`. Every other string argument is taken as non-null.
- LobbyServiceD's queries (`GetOnlinePlayers` through `DownloadFile`, MKXLobbyServerDuplex/LobbyServiceD.cs:347-433) are the same code as LobbyService's. They are the `LobbyStore` query functions and have no class methods of their own.
- The `GetRoomMessages`, `GetPrivateMessages`, `GetSharedFiles` and `DownloadFile` queries of LobbyService are the `LobbyStore` functions. The model has no class methods for them.
- SubscribeToUpdate only writes a console line. It is a method with no effect and no contract.
- LobbyDuplexService.CreateRoom: the two-argument `CreateRoom(roomName, createdBy)` is an overload, not a hiding of the three-argument base operation. Its `new` has no effect, and only the three-argument operation is in the service contract. Its call `base.CreateRoom(roomName, createdBy)` (MKXLobbyServer/LobbyDuplexService.cs:99) matches no base overload, so the file does not compile as written. The model assumes the call means `base.CreateRoom(roomName, createdBy, createdBy)`: the creator is also the first player.
- LobbyStore.LogoutPreservesInv, JoinPreservesInv: these require that the player is not in a room named `""`. LeaveRoom's null-or-empty test skips such a room, and `JoinFromRoomNamedEmptyBreaksMembership` shows the consequence.
- LobbyStore.LeavePreservesInv: it keeps `Inv` for every player. It states that the player ends in no room only for a player not in a room named `""`.
- LobbyStore.CreatePreservesInv: this requires an online creator in no room. `CreateWhileInRoomBreaksMembership` and `CreateByOfflinePlayerLeavesRoom` show what goes wrong otherwise.
- LobbyDuplex.LobbyDuplexService.GetRoom: the exact result is stated only for a well-formed lobby, where every room is stored under its own name.
- The WPF clients, the contract interfaces and the hosting programs are not part of this model.

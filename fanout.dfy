/** Callback delivery as the duplex servers do it: a notice is offered to a
    sequence of users, each user with a registered callback channel gets
    one invocation attempt, and an attempt on a broken channel fails.
    Which channels are broken is an input (it depends on the network). */
module Callbacks {
  import opened LobbyModels
  import opened Sequences

  /** A client's callback channel, compared by identity. */
  datatype Handle = Handle(id: nat)

  /** One invocation of a callback: the user it was registered for, the
      channel, the notice, and whether the call returned normally. */
  datatype Attempt<E> = Attempt(user: string, handle: Handle, event: E, delivered: bool)

  /** The users the attempts went to, in order. */
  function Users<E>(r: seq<Attempt<E>>): seq<string> {
    seq(|r|, i requires 0 <= i < |r| => r[i].user)
  }

  lemma UsersAppend<E>(a: seq<Attempt<E>>, b: seq<Attempt<E>>)
    ensures Users(a + b) == Users(a) + Users(b)
  {
  }

  function IsRegistered(reg: map<string, Handle>): string -> bool {
    (u: string) => u in reg
  }

  /** `TryGetValue` followed by the call: one attempt if `u` has a channel. */
  function Deliver<E>(u: string, reg: map<string, Handle>, ev: E, broken: set<Handle>): seq<Attempt<E>> {
    if u in reg then [Attempt(u, reg[u], ev, reg[u] !in broken)] else []
  }

  /** A notice offered to `users` in list order, failures ignored. */
  function FanOut<E>(users: seq<string>, reg: map<string, Handle>, ev: E, broken: set<Handle>): seq<Attempt<E>>
    decreases |users|
  {
    if users == [] then []
    else FanOut(users[..|users| - 1], reg, ev, broken) + Deliver(users[|users| - 1], reg, ev, broken)
  }

  /** Every attempt of a fan-out carries the notice, goes to a registered
      user through that user's own channel, and fails exactly when the
      channel is broken. */
  lemma {:induction false} FanOutSpec<E>(users: seq<string>, reg: map<string, Handle>, ev: E, broken: set<Handle>)
    ensures forall a | a in FanOut(users, reg, ev, broken) ::
      a.event == ev && a.user in users && a.user in reg && a.handle == reg[a.user] &&
      a.delivered == (reg[a.user] !in broken)
    decreases |users|
  {
    if users != [] {
      var init, last := users[..|users| - 1], users[|users| - 1];
      assert users == init + [last];
      FanOutSpec(init, reg, ev, broken);
    }
  }

  /** The attempts go to the registered users of the list, in list order. */
  lemma {:induction false} FanOutUsers<E>(users: seq<string>, reg: map<string, Handle>, ev: E, broken: set<Handle>)
    ensures Users(FanOut(users, reg, ev, broken)) == Filter(users, IsRegistered(reg))
    decreases |users|
  {
    if users != [] {
      var init, last := users[..|users| - 1], users[|users| - 1];
      FanOutUsers(init, reg, ev, broken);
      UsersAppend(FanOut(init, reg, ev, broken), Deliver(last, reg, ev, broken));
    }
  }

  /** Offering a notice to one more user. */
  lemma FanOutSnoc<E>(users: seq<string>, u: string, reg: map<string, Handle>, ev: E, broken: set<Handle>)
    ensures FanOut(users + [u], reg, ev, broken) == FanOut(users, reg, ev, broken) + Deliver(u, reg, ev, broken)
  {
    assert (users + [u])[..|users|] == users;
  }

  /** Offered to a list without repetitions, a notice reaches each
      registered member of the list exactly once and nobody else. */
  lemma FanOutOncePerMember<E>(users: seq<string>, reg: map<string, Handle>, ev: E, broken: set<Handle>)
    requires NoDup(users)
    ensures var us := Users(FanOut(users, reg, ev, broken));
      && NoDup(us)
      && (forall u | u in us :: u in users && u in reg)
      && (forall u | u in users && u in reg :: u in us)
  {
    FanOutUsers(users, reg, ev, broken);
    FilterSpec(users, IsRegistered(reg));
    FilterNoDup(users, IsRegistered(reg));
  }

  /** A broadcast over an enumeration of all registered users reaches each
      of them exactly once. */
  lemma BroadcastReachesAll<E>(order: seq<string>, reg: map<string, Handle>, ev: E, broken: set<Handle>)
    requires Enumerates(order, reg.Keys)
    ensures Users(FanOut(order, reg, ev, broken)) == order
    ensures NoDup(Users(FanOut(order, reg, ev, broken)))
  {
    FanOutUsers(order, reg, ev, broken);
    FilterAll(order, IsRegistered(reg));
  }

  /** The registry after every user of `users` whose channel is broken was
      dropped. */
  function EvictAmong(reg: map<string, Handle>, users: seq<string>, broken: set<Handle>): map<string, Handle> {
    map k | k in reg && (k !in users || reg[k] !in broken) :: reg[k]
  }

  /** The registry after every broken channel was dropped. */
  function Evict(reg: map<string, Handle>, broken: set<Handle>): map<string, Handle> {
    map k | k in reg && reg[k] !in broken :: reg[k]
  }

  /** Evicting the broken channels of every user is a full eviction. */
  lemma EvictAmongAll(reg: map<string, Handle>, order: seq<string>, broken: set<Handle>)
    requires Enumerates(order, reg.Keys)
    ensures EvictAmong(reg, order, broken) == Evict(reg, broken)
  {
  }

  /** `NotifyClient` of LobbyDuplexService: one attempt if `u` has a channel,
      and a failed attempt unregisters `u`. */
  function NotifyOne<E>(u: string, reg: map<string, Handle>, ev: E, broken: set<Handle>): (seq<Attempt<E>>, map<string, Handle>) {
    (Deliver(u, reg, ev, broken), if u in reg && reg[u] in broken then reg - {u} else reg)
  }

  /** `NotifyPlayersInRoom` of LobbyDuplexService: `NotifyClient` for each
      user in list order, each seeing the registry the previous ones left. */
  function EvictFanOut<E>(users: seq<string>, reg: map<string, Handle>, ev: E, broken: set<Handle>): (seq<Attempt<E>>, map<string, Handle>)
    decreases |users|
  {
    if users == [] then ([], reg)
    else
      var r := EvictFanOut(users[..|users| - 1], reg, ev, broken);
      var d := NotifyOne(users[|users| - 1], r.1, ev, broken);
      (r.0 + d.0, d.1)
  }

  /** The final registry has lost exactly the broken channels of the users,
      and every attempt went to a listed user through that user's channel. */
  lemma {:induction false} EvictFanOutSpec<E>(users: seq<string>, reg: map<string, Handle>, ev: E, broken: set<Handle>)
    ensures EvictFanOut(users, reg, ev, broken).1 == EvictAmong(reg, users, broken)
    ensures forall a | a in EvictFanOut(users, reg, ev, broken).0 ::
      a.event == ev && a.user in users && a.user in reg && a.handle == reg[a.user] &&
      a.delivered == (a.handle !in broken)
    decreases |users|
  {
    if users != [] {
      var init, last := users[..|users| - 1], users[|users| - 1];
      assert users == init + [last];
      EvictFanOutSpec(init, reg, ev, broken);
    }
  }

  /** NotifyClient for one more user, on the registry the earlier users left. */
  lemma EvictFanOutSnoc<E>(users: seq<string>, u: string, reg: map<string, Handle>, ev: E, broken: set<Handle>)
    ensures EvictFanOut(users + [u], reg, ev, broken) ==
      var r := EvictFanOut(users, reg, ev, broken);
      var d := NotifyOne(u, r.1, ev, broken);
      (r.0 + d.0, d.1)
  {
    assert (users + [u])[..|users|] == users;
  }

  /** On a list without repetitions the evictions never hide a user from a
      later attempt, so the attempts are those of a plain fan-out. */
  lemma {:induction false} EvictFanOutIsFanOut<E>(users: seq<string>, reg: map<string, Handle>, ev: E, broken: set<Handle>)
    requires NoDup(users)
    ensures EvictFanOut(users, reg, ev, broken).0 == FanOut(users, reg, ev, broken)
    decreases |users|
  {
    if users != [] {
      var init, last := users[..|users| - 1], users[|users| - 1];
      assert users == init + [last];
      NoDupInit(users);
      EvictFanOutIsFanOut(init, reg, ev, broken);
      EvictFanOutSpec(init, reg, ev, broken);
      var reg1 := EvictFanOut(init, reg, ev, broken).1;
      assert last !in init by { NoDupLast(users); }
      assert (last in reg1 <==> last in reg) && (last in reg ==> reg1[last] == reg[last]);
    }
  }

  /** A user listed twice whose channel fails on the first attempt gets no
      second attempt, where a plain fan-out tries twice. */
  lemma EvictFanOutSkipsEvicted<E>(u: string, reg: map<string, Handle>, ev: E, broken: set<Handle>)
    requires u in reg && reg[u] in broken
    ensures EvictFanOut([u, u], reg, ev, broken).0 == [Attempt(u, reg[u], ev, false)]
    ensures FanOut([u, u], reg, ev, broken) == [Attempt(u, reg[u], ev, false), Attempt(u, reg[u], ev, false)]
  {
    var a := Attempt(u, reg[u], ev, false);
    assert [u, u][..1] == [u];
    assert [u][..0] == [];
    assert EvictFanOut([], reg, ev, broken) == ([], reg);
    assert NotifyOne(u, reg, ev, broken).0 == [a];
    var r1 := EvictFanOut([u], reg, ev, broken);
    assert r1.0 == [a];
    assert u !in r1.1;
    assert FanOut([u], reg, ev, broken) == [a];
  }

  /** What a duplex server's SendMessage lets escape while it sends the
      notices of message `m`: the lookup of a null recipient (private
      message) or of a null room (public message) throws. */
  function DispatchOutcome(m: ChatMessage): (r: Outcome<()>)
    ensures r.Thrown? <==> (if m.isPrivate then m.to.None? else m.roomName.None?)
    ensures r.Thrown? ==> r.error == ArgumentNull
  {
    if m.isPrivate && m.to.None? then Thrown(ArgumentNull)
    else if !m.isPrivate && m.roomName.None? then Thrown(ArgumentNull)
    else Normal(())
  }
}

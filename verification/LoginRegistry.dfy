/** The login registry: which address is the session of which uuid, for users and for devices. */
module LoginRegistry {
  import opened Bytes
  import opened OrderedKeys

  type Address = nat        // a BUS_ADDRESS pointer
  const NULL: Address := 0

  type Sessions = map<Address, string>

  /** The other addresses logged in under `uuid`. */
  ghost function Evicted(m: Sessions, a: Address, uuid: string): set<Address> {
    set x | x in m && m[x] == uuid && x != a
  }

  lemma EvictedAre(m: Sessions, a: Address, uuid: string)
    ensures Evicted(m, a, uuid) <= m.Keys
    ensures forall x | x in m :: x in Evicted(m, a, uuid) <==> m[x] == uuid && a != x
  {
  }

  /** A walk over `m` that erases the members of `e`: `rest` is still to be walked over, `cur` is the
      map now and `picked` the erased addresses in the order of the walk. */
  ghost predicate Sweep(m: Sessions, e: set<Address>, rest: set<Address>, cur: Sessions, picked: seq<Address>) {
    e <= m.Keys && rest <= m.Keys && cur == m - (e - rest) && Walking(picked, e, rest)
  }

  lemma SweepStart(m: Sessions, e: set<Address>)
    requires e <= m.Keys
    ensures Sweep(m, e, m.Keys, m, [])
  {
    WalkStart(e, m.Keys);
    assert m - (e - m.Keys) == m;
  }

  lemma SweepNext(m: Sessions, e: set<Address>, rest: set<Address>, cur: Sessions, picked: seq<Address>)
    requires rest != {} && Sweep(m, e, rest, cur, picked)
    ensures var k := Least(rest);
            && k in cur && cur[k] == m[k]
            && if k in e then Sweep(m, e, rest - {k}, cur - {k}, picked + [k]) else Sweep(m, e, rest - {k}, cur, picked)
  {
    hide Walking;
    WalkNext(picked, e, rest);
    var k := Least(rest);
    if k in e {
      assert cur - {k} == m - (e - (rest - {k}));
    } else {
      assert e - rest == e - (rest - {k});
    }
  }

  lemma SweepEnd(m: Sessions, e: set<Address>, cur: Sessions, picked: seq<Address>)
    requires Sweep(m, e, {}, cur, picked)
    ensures cur == m - e && picked == Ascending(e)
  {
    WalkEnd(picked, e);
    assert e - {} == e;
  }

  ghost function Holders(m: Sessions, uuid: string): set<Address> {
    set x | x in m && m[x] == uuid
  }

  ghost function Add(m: Sessions, a: Address, uuid: string): Sessions {
    (m - Evicted(m, a, uuid))[a := uuid]
  }

  ghost function Delete(m: Sessions, a: Address): Sessions {
    m - {a}
  }

  ghost function DeleteSame(m: Sessions, uuid: string): Sessions {
    m - Holders(m, uuid)
  }

  /** Lookup by uuid: the lowest address holding it, or NULL. */
  ghost function Find(m: Sessions, uuid: string): Address {
    if Holders(m, uuid) == {} then NULL else Least(Holders(m, uuid))
  }

  /** Which address a lookup finds: the lowest one logged in under the uuid, and NULL only when there is none. */
  lemma FindExactly(m: Sessions, uuid: string, a: Address)
    ensures Find(m, uuid) == a <==>
            || (a in m && m[a] == uuid && forall b | b in m && m[b] == uuid :: a <= b)
            || (a == NULL && forall b | b in m :: m[b] != uuid)
  {
    var all := Holders(m, uuid);
    if all != {} {
      var least := Least(all);
      assert least in m && m[least] == uuid;
      forall b | b in m && m[b] == uuid
        ensures least <= b
      {
        assert b in all;
      }
    } else {
      forall b | b in m
        ensures m[b] != uuid
      {
        assert b !in all;
      }
    }
  }

  /** The kick-out loop asks for the lowest holder until it gets NULL, which it also gets when NULL
      itself is a holder. */
  ghost function Kickout(m: Sessions, uuid: string): Sessions {
    if NULL in Holders(m, uuid) then m else DeleteSame(m, uuid)
  }

  class Registry {
    var users: Sessions
    var devices: Sessions
    var kickouts: seq<Address>   // addresses a kick-out was sent to

    constructor ()
      ensures users == map[] && devices == map[] && kickouts == []
    {
      users, devices, kickouts := map[], map[], [];
    }

    /** Walks the user map, sends a kick-out to every other session of the uuid and erases it. */
    method MapAddUser(busAddress: Address, uuid: string)
      modifies this`users, this`kickouts
      ensures users == Add(old(users), busAddress, uuid)
      ensures kickouts == old(kickouts) + Ascending(Evicted(old(users), busAddress, uuid))
    {
      hide Sweep, Evicted, Ascending, Least;
      ghost var m, e := users, Evicted(users, busAddress, uuid);
      ghost var picked: seq<Address> := [];
      ghost var sent := kickouts;
      EvictedAre(m, busAddress, uuid);
      SweepStart(m, e);
      var rest := users.Keys;
      while rest != {}
        invariant Sweep(m, e, rest, users, picked) && rest <= m.Keys
        invariant kickouts == sent + picked
        decreases |rest|
      {
        var k := NextKey(rest);
        SweepNext(m, e, rest, users, picked);
        if users[k] == uuid && busAddress != k {
          kickouts := kickouts + [k];
          picked := picked + [k];
          users := users - {k};
        }
        rest := rest - {k};
      }
      SweepEnd(m, e, users, picked);
      users := users[busAddress := uuid];
    }

    method MapAddDevice(busAddress: Address, uuid: string)
      modifies this`devices
      ensures devices == Add(old(devices), busAddress, uuid)
    {
      ghost var m, e := devices, Evicted(devices, busAddress, uuid);
      ghost var picked: seq<Address> := [];
      EvictedAre(m, busAddress, uuid);
      SweepStart(m, e);
      hide Sweep, Evicted, Ascending, Least;
      var rest := devices.Keys;
      while rest != {}
        invariant Sweep(m, e, rest, devices, picked) && rest <= m.Keys
        decreases |rest|
      {
        var k := NextKey(rest);
        SweepNext(m, e, rest, devices, picked);
        if devices[k] == uuid && busAddress != k {
          picked := picked + [k];
          devices := devices - {k};
        }
        rest := rest - {k};
      }
      SweepEnd(m, e, devices, picked);
      devices := devices[busAddress := uuid];
    }

    method MapDeleteUser(busAddress: Address)
      modifies this`users
      ensures users == Delete(old(users), busAddress)
    {
      if busAddress in users {
        users := users - {busAddress};
      }
    }

    method MapDeleteDevice(busAddress: Address)
      modifies this`devices
      ensures devices == Delete(old(devices), busAddress)
    {
      if busAddress in devices {
        devices := devices - {busAddress};
      }
    }

    method MapDeleteSameUser(uuid: string)
      modifies this`users
      ensures users == DeleteSame(old(users), uuid)
    {
      ghost var m, e := users, Holders(users, uuid);
      ghost var picked: seq<Address> := [];
      assert forall x | x in m :: x in e <==> m[x] == uuid;
      SweepStart(m, e);
      hide Sweep, Evicted, Holders;
      var rest := users.Keys;
      while rest != {}
        invariant Sweep(m, e, rest, users, picked) && rest <= m.Keys
        decreases |rest|
      {
        var k := NextKey(rest);
        SweepNext(m, e, rest, users, picked);
        if users[k] == uuid {
          picked := picked + [k];
          users := users - {k};
        }
        rest := rest - {k};
      }
      SweepEnd(m, e, users, picked);
    }

    method GetAddress(m: Sessions, uuid: string) returns (a: Address)
      ensures a == Find(m, uuid)
    {
      var rest := m.Keys;
      while rest != {}
        invariant rest <= m.Keys
        invariant Holders(m, uuid) <= rest
        decreases |rest|
      {
        var k := NextKey(rest);
        if m[k] == uuid {
          assert k in Holders(m, uuid);
          return k;
        }
        rest := rest - {k};
      }
      return NULL;
    }

    /** Kicks out every session of the uuid, one lookup at a time. */
    method HandleKickoutUser(uuid: string)
      modifies this`users, this`kickouts
      ensures users == Kickout(old(users), uuid)
      ensures kickouts == old(kickouts) +
                          if NULL in Holders(old(users), uuid) then [] else Ascending(Holders(old(users), uuid))
    {
      ghost var m, sent := users, kickouts;
      ghost var all := Holders(m, uuid);
      var busAddress := GetAddress(users, uuid);
      ghost var gone: set<Address> := {};
      HoldersWithout(m, uuid, gone);
      while busAddress != NULL
        invariant busAddress == if all - gone == {} then NULL else Least(all - gone)
        invariant NULL in all ==> gone == {} && kickouts == sent
        invariant gone <= all && users == m - gone
        invariant kickouts + Ascending(all - gone) == sent + Ascending(all)
        decreases all - gone
      {
        assert all - (gone + {busAddress}) == all - gone - {busAddress};
        MapDeleteUser(busAddress);
        kickouts := kickouts + [busAddress];
        gone := gone + {busAddress};
        assert users == m - gone;
        HoldersWithout(m, uuid, gone);
        busAddress := GetAddress(users, uuid);
      }
      assert NULL !in all ==> gone == all && all - gone == {};
      AscendingEmpty();
      assert NULL in all ==> m - gone == m;
    }
  }

  /** The kick-outs of a login, and those of a kick-out: every address concerned gets one, in ascending order,
      and nobody else does. */
  lemma KickoutsExactly(m: Sessions, a: Address, uuid: string)
    ensures forall k :: k in Ascending(Evicted(m, a, uuid)) <==> k in m && m[k] == uuid && k != a
    ensures forall k :: k in Ascending(Holders(m, uuid)) <==> k in m && m[k] == uuid
    ensures Increasing(Ascending(Evicted(m, a, uuid))) && Increasing(Ascending(Holders(m, uuid)))
  {
    AscendingKeys(Evicted(m, a, uuid));
    AscendingKeys(Holders(m, uuid));
    hide Ascending;
    AscendingOnce(Evicted(m, a, uuid));
    AscendingOnce(Holders(m, uuid));
  }

  /** In ascending order, and so each address once. */
  ghost predicate Increasing(s: seq<Address>) {
    forall i, j | 0 <= i < j < |s| :: s[i] < s[j]
  }

  lemma AscendingOnce(s: set<Address>)
    ensures Increasing(Ascending(s))
  {
    forall i, j | 0 <= i < j < |Ascending(s)|
      ensures Ascending(s)[i] < Ascending(s)[j]
    {
      AscendingOrder(s, i, j);
    }
  }

  lemma HoldersWithout(m: Sessions, uuid: string, gone: set<Address>)
    ensures Holders(m - gone, uuid) == Holders(m, uuid) - gone
    ensures m - {} == m && Holders(m, uuid) - {} == Holders(m, uuid)
  {
  }

  // ----- runs -----

  datatype Op = Login(a: Address, uuid: string) | Logout(a: Address) | LogoutUuid(uuid: string) | KickOut(uuid: string)

  ghost function Apply(m: Sessions, op: Op): Sessions {
    match op
    case Login(a, u) => Add(m, a, u)
    case Logout(a) => Delete(m, a)
    case LogoutUuid(u) => DeleteSame(m, u)
    case KickOut(u) => Kickout(m, u)
  }

  ghost function After(ops: seq<Op>): Sessions {
    if ops == [] then map[] else Apply(After(ops[..|ops| - 1]), ops[|ops| - 1])
  }

  /** The session of a uuid, read off the history alone: its last login, unless that address has since
      logged out, been kicked out, or logged in as somebody else. */
  ghost function Session(ops: seq<Op>, uuid: string): Option<Address> {
    if ops == [] then None
    else
      var before := Session(ops[..|ops| - 1], uuid);
      match ops[|ops| - 1]
      case Login(a, u) => if u == uuid then Some(a) else if before == Some(a) then None else before
      case Logout(a) => if before == Some(a) then None else before
      case LogoutUuid(u) => if u == uuid then None else before
      case KickOut(u) => if u == uuid && before != Some(NULL) then None else before
  }

  ghost predicate Tracks(m: Sessions, ops: seq<Op>) {
    forall a: Address, u: string :: (a in m && m[a] == u) <==> Session(ops, u) == Some(a)
  }

  /** One session per uuid, over every history: an address holds a uuid exactly when the history says
      that it is that uuid's session. */
  lemma {:induction false} SessionsFollowHistory(ops: seq<Op>)
    ensures Tracks(After(ops), ops)
    decreases |ops|
  {
    if ops != [] {
      var init, op := ops[..|ops| - 1], ops[|ops| - 1];
      SessionsFollowHistory(init);
      var m := After(init);
      forall a: Address, u: string
        ensures (a in After(ops) && After(ops)[a] == u) <==> Session(ops, u) == Some(a)
      {
        assert (a in m && m[a] == u) <==> Session(init, u) == Some(a);
        match op
        case Login(b, w) => assert (b in m && m[b] == u) <==> Session(init, u) == Some(b);
        case Logout(_) =>
        case LogoutUuid(_) =>
        case KickOut(w) => assert (NULL in m && m[NULL] == w) <==> Session(init, w) == Some(NULL);
      }
    }
  }

  /** No two addresses are ever logged in under one uuid, and lookup finds the one there is. */
  lemma OneSessionPerUuid(ops: seq<Op>, uuid: string)
    ensures Holders(After(ops), uuid) == if Session(ops, uuid).None? then {} else {Session(ops, uuid).value}
    ensures Find(After(ops), uuid) == if Session(ops, uuid).None? then NULL else Session(ops, uuid).value
  {
    SessionsFollowHistory(ops);
    var m, s := After(ops), Session(ops, uuid);
    forall a: Address
      ensures a in Holders(m, uuid) <==> s == Some(a)
    {
      assert (a in m && m[a] == uuid) <==> s == Some(a);
    }
    assert s.Some? ==> Holders(m, uuid) == {s.value};
  }

  /** The kick-outs a history of the user map sends, as MapAddUser and HandleKickoutUser send them. */
  ghost function Sent(ops: seq<Op>): seq<Address> {
    if ops == [] then []
    else
      var init := ops[..|ops| - 1];
      Sent(init) +
      match ops[|ops| - 1]
      case Login(a, u) => Ascending(Evicted(After(init), a, u))
      case KickOut(u) => if NULL in Holders(After(init), u) then [] else Ascending(Holders(After(init), u))
      case _ => []
  }

  /** The sessions that a history ends from outside: by a login of another address, or by a kick-out. */
  ghost function EndedByOthers(ops: seq<Op>): seq<Address> {
    if ops == [] then []
    else
      var init := ops[..|ops| - 1];
      EndedByOthers(init) +
      match ops[|ops| - 1]
      case Login(a, u) => SessionBut(Session(init, u), a)
      case KickOut(u) => SessionBut(Session(init, u), NULL)
      case _ => []
  }

  function SessionBut(session: Option<Address>, a: Address): seq<Address> {
    if session.None? || session.value == a then [] else [session.value]
  }

  /** Over every history of users, one kick-out is sent for each of those sessions, in order, and no others. */
  lemma {:induction false} KickoutsFollowHistory(ops: seq<Op>)
    ensures Sent(ops) == EndedByOthers(ops)
    decreases |ops|
  {
    if ops != [] {
      hide After, Session, Holders, Ascending;
      var init, op := ops[..|ops| - 1], ops[|ops| - 1];
      KickoutsFollowHistory(init);
      if op.Login? || op.KickOut? {
        OneSessionPerUuid(init, op.uuid);
        EvictedHolders(After(init), if op.Login? then op.a else NULL, op.uuid);
        OneAscending(Session(init, op.uuid), if op.Login? then op.a else NULL);
      }
    }
  }

  lemma EvictedHolders(m: Sessions, a: Address, uuid: string)
    ensures Evicted(m, a, uuid) == Holders(m, uuid) - {a}
  {
  }

  lemma OneAscending(session: Option<Address>, a: Address)
    ensures Ascending((if session.None? then {} else {session.value}) - {a}) == SessionBut(session, a)
    ensures (if session.None? then {} else {session.value}) - {a} ==
            if session.None? || session.value == a then {} else {session.value}
  {
    if session.Some? && session.value != a {
      assert {session.value} - {a} == {session.value};
      assert {session.value} - {Least({session.value})} == {};
    } else {
      AscendingEmpty();
    }
  }

  /** Whatever the registry held, a login makes the new address the one that lookup finds. */
  lemma LookupAfterLogin(m: Sessions, a: Address, uuid: string)
    ensures Find(Add(m, a, uuid), uuid) == a
    ensures Holders(Add(m, a, uuid), uuid) == {a}
  {
    assert Holders(Add(m, a, uuid), uuid) == {a};
  }

  /** A late logout of an older address does not touch the newer session of the same uuid. */
  lemma StaleLogoutHarmless(ops: seq<Op>, stale: Address, uuid: string)
    requires Session(ops, uuid).Some? && Session(ops, uuid).value != stale
    ensures Find(After(ops + [Logout(stale)]), uuid) == Session(ops, uuid).value
  {
    var later := ops + [Logout(stale)];
    assert later[..|later| - 1] == ops;
    OneSessionPerUuid(later, uuid);
  }

  /** The kick-out loop leaves no session of the uuid, unless NULL itself is logged in under it. */
  lemma KickoutExactly(m: Sessions, uuid: string)
    ensures Holders(Kickout(m, uuid), uuid) == {} <==> NULL !in Holders(m, uuid)
  {
    assert Holders(DeleteSame(m, uuid), uuid) == {};
  }
}

/** The room membership manager: rooms with a player limit and an optional
    owner, the players that joined any room, and the two-way membership index
    player -> rooms (`pr`) and room -> players (`rp`).

    Every operation is one atomic step (the locks around each map are left
    out); seats and event dispatch are not modelled. The player handle type
    is the type parameter `P`; its `GetID()` is passed next to it as `id`. */
module Room {
  import opened Common

  type Pid = int
  type RoomId = int

  /** The per-room record: `playerLimit <= 0` means unlimited, `owner` is optional. */
  datatype Info = Info(playerLimit: int, owner: Option<Pid>)

  datatype RoomError = RoomNotExist | RoomPlayerFull | RoomOrPlayerNotExist

  /** Why a call stops with a runtime fault instead of returning. */
  datatype Fault = NilRoomRecord | NilPlayer

  datatype Manager<P> = Manager(
    rooms: map<RoomId, Info>,
    players: map<Pid, P>,
    pr: map<Pid, set<RoomId>>,
    rp: map<RoomId, set<Pid>>)

  function NewManager<P>(): (m: Manager<P>)
    ensures m.rooms == map[] && m.players == map[]
    ensures forall id, r :: !InRoom(m, id, r) && !Member(m, r, id)
    ensures Valid(m)
  {
    Manager(map[], map[], map[], map[])
  }

  // ---------------------------------------------------------------------------
  // Reads of the two indexes (a missing key reads as the empty set, as a read
  // of a nil Go map does)

  function RoomsOf<P>(m: Manager<P>, id: Pid): set<RoomId>
  {
    if id in m.pr then m.pr[id] else {}
  }

  function MembersOf<P>(m: Manager<P>, r: RoomId): set<Pid>
  {
    if r in m.rp then m.rp[r] else {}
  }

  /** `InRoom`: the player-side index lists room `r` for player `id`. */
  predicate InRoom<P>(m: Manager<P>, id: Pid, r: RoomId)
  {
    id in m.pr && r in m.pr[id]
  }

  /** The room-side index lists player `id` in room `r`. */
  predicate Member<P>(m: Manager<P>, r: RoomId, id: Pid)
  {
    r in m.rp && id in m.rp[r]
  }

  /** The two indexes describe the same membership relation. */
  ghost predicate Linked<P>(m: Manager<P>)
  {
    forall id, r :: InRoom(m, id, r) <==> Member(m, r, id)
  }

  /** Every member of a room has a registered player handle. */
  ghost predicate Registered<P>(m: Manager<P>)
  {
    forall r, id :: Member(m, r, id) ==> id in m.players
  }

  /** No room carries a negative player limit. */
  ghost predicate LimitsNonNegative<P>(m: Manager<P>)
  {
    forall r :: r in m.rooms ==> m.rooms[r].playerLimit >= 0
  }

  ghost predicate Valid<P>(m: Manager<P>)
  {
    Linked(m) && Registered(m) && LimitsNonNegative(m)
  }

  // ---------------------------------------------------------------------------
  // Rooms

  /** `CreateRoom`: a fresh record with no limit and no owner replaces any earlier one. */
  function CreateRoom<P>(m: Manager<P>, r: RoomId): (m': Manager<P>)
    ensures r in m'.rooms && m'.rooms[r].playerLimit == 0 && m'.rooms[r].owner == None
    ensures forall q :: q != r ==> (q in m'.rooms <==> q in m.rooms)
    ensures forall q :: q != r && q in m.rooms ==> m'.rooms[q] == m.rooms[q]
    ensures m'.players == m.players && m'.pr == m.pr && m'.rp == m.rp
  {
    m.(rooms := m.rooms[r := Info(0, None)])
  }

  /** `ReleaseRoom`: drops the record only; the membership indexes keep their entries. */
  function ReleaseRoom<P>(m: Manager<P>, r: RoomId): (m': Manager<P>)
    ensures r !in m'.rooms
    ensures forall q :: q != r ==> (q in m'.rooms <==> q in m.rooms)
    ensures forall q :: q != r && q in m.rooms ==> m'.rooms[q] == m.rooms[q]
    ensures m'.players == m.players && m'.pr == m.pr && m'.rp == m.rp
  {
    m.(rooms := m.rooms - {r})
  }

  /** `SetPlayerLimit`: a non-positive limit and an unknown room are ignored. */
  function SetPlayerLimit<P>(m: Manager<P>, r: RoomId, limit: int): (m': Manager<P>)
    ensures limit <= 0 || r !in m.rooms ==> m' == m
    ensures limit > 0 && r in m.rooms ==>
              m'.rooms == m.rooms[r := m.rooms[r].(playerLimit := limit)]
    ensures m'.rooms.Keys == m.rooms.Keys
    ensures m'.players == m.players && m'.pr == m.pr && m'.rp == m.rp
  {
    if limit <= 0 then m
    else if r !in m.rooms then m
    else m.(rooms := m.rooms[r := m.rooms[r].(playerLimit := limit)])
  }

  /** `CancelOwner`: the room (if it exists) is left without an owner. */
  function CancelOwner<P>(m: Manager<P>, r: RoomId): (m': Manager<P>)
    ensures r in m.rooms ==> r in m'.rooms && m'.rooms[r] == m.rooms[r].(owner := None)
    ensures r !in m.rooms ==> m' == m
    ensures forall q :: q != r && q in m.rooms ==> q in m'.rooms && m'.rooms[q] == m.rooms[q]
    ensures m'.rooms.Keys == m.rooms.Keys
    ensures m'.players == m.players && m'.pr == m.pr && m'.rp == m.rp
  {
    if r !in m.rooms then m
    else if m.rooms[r].owner.None? then m
    else m.(rooms := m.rooms[r := m.rooms[r].(owner := None)])
  }

  /** `SetOwner`: only a current member of an existing room can become its owner. */
  function SetOwner<P>(m: Manager<P>, r: RoomId, owner: Pid): (res: Result<Manager<P>, RoomError>)
    ensures res == Err(RoomNotExist) <==> r !in m.rooms
    ensures res == Err(RoomOrPlayerNotExist) <==>
              r in m.rooms && GetRoomPlayer(m, r, owner).None?
    ensures res.Ok? ==> Member(m, r, owner) && owner in m.players
    ensures res.Ok? ==> res.value == m.(rooms := m.rooms[r := m.rooms[r].(owner := Some(owner))])
  {
    if r !in m.rooms then Err(RoomNotExist)
    else if GetRoomPlayer(m, r, owner).None? then Err(RoomOrPlayerNotExist)
    else Ok(m.(rooms := m.rooms[r := m.rooms[r].(owner := Some(owner))]))
  }

  // ---------------------------------------------------------------------------
  // Queries

  function Exist<P>(m: Manager<P>, r: RoomId): bool
  {
    r in m.rooms
  }

  function GetRooms<P>(m: Manager<P>): set<RoomId>
  {
    m.rooms.Keys
  }

  function GetRoomCount<P>(m: Manager<P>): nat
  {
    |m.rooms|
  }

  function GetRoomPlayerCount<P>(m: Manager<P>, r: RoomId): nat
  {
    |MembersOf(m, r)|
  }

  function ExistPlayer<P>(m: Manager<P>, id: Pid): bool
  {
    id in m.players
  }

  /** `GetPlayer`: the zero value of `P` for an unknown id is `None`. */
  function GetPlayer<P>(m: Manager<P>, id: Pid): Option<P>
  {
    if id in m.players then Some(m.players[id]) else None
  }

  function GetPlayerCount<P>(m: Manager<P>): nat
  {
    |m.players|
  }

  /** `GetPlayerRoom`: the rooms of a player; a released room still listed
      for the player is a nil record whose `.room` is dereferenced. */
  function GetPlayerRoom<P>(m: Manager<P>, id: Pid): (res: Result<set<RoomId>, Fault>)
    ensures res.Ok? <==> RoomsOf(m, id) <= m.rooms.Keys
    ensures res.Ok? ==> res.value == RoomsOf(m, id) && |res.value| == GetPlayerRoomCount(m, id)
  {
    if RoomsOf(m, id) <= m.rooms.Keys then Ok(RoomsOf(m, id)) else Err(NilRoomRecord)
  }

  function GetPlayerRoomCount<P>(m: Manager<P>, id: Pid): nat
  {
    |RoomsOf(m, id)|
  }

  /** `GetRoomPlayer`: the player's handle when the room-side index lists it. */
  function GetRoomPlayer<P>(m: Manager<P>, r: RoomId, id: Pid): Option<P>
  {
    if Member(m, r, id) then GetPlayer(m, id) else None
  }

  function GetRoomPlayers<P>(m: Manager<P>, r: RoomId): map<Pid, Option<P>>
  {
    map id | id in MembersOf(m, r) :: GetPlayer(m, id)
  }

  /** `GetRoomPlayerLimit`: dereferences the record, so an unknown room faults. */
  function GetRoomPlayerLimit<P>(m: Manager<P>, r: RoomId): (res: Result<int, Fault>)
    ensures res.Ok? <==> r in m.rooms
    ensures res.Ok? ==> res.value == m.rooms[r].playerLimit
  {
    if r in m.rooms then Ok(m.rooms[r].playerLimit) else Err(NilRoomRecord)
  }

  /** On a manager whose indexes agree, the membership queries give one answer. */
  lemma QueriesAgree<P>(m: Manager<P>, id: Pid, r: RoomId)
    requires Valid(m)
    ensures InRoom(m, id, r) <==> id in GetRoomPlayers(m, r)
    ensures InRoom(m, id, r) <==> GetRoomPlayer(m, r, id).Some?
    ensures InRoom(m, id, r) ==> GetRoomPlayer(m, r, id) == Some(m.players[id])
    ensures InRoom(m, id, r) ==> ExistPlayer(m, id)
    ensures InRoom(m, id, r) <==> r in RoomsOf(m, id) && id in MembersOf(m, r)
  {
    assert InRoom(m, id, r) <==> Member(m, r, id);
  }

  // ---------------------------------------------------------------------------
  // Join, Leave, KickOut

  /** `Join`. Both refusals record an error and then dereference the still-nil
      room record, so in the source they end in a panic; the model returns the
      error and no new state. */
  function Join<P>(m: Manager<P>, r: RoomId, id: Pid, player: P): (res: Result<Manager<P>, RoomError>)
    ensures res == Err(RoomNotExist) <==> r !in m.rooms
    ensures res == Err(RoomPlayerFull) <==>
              r in m.rooms && 0 < m.rooms[r].playerLimit <= |MembersOf(m, r)|
    ensures res.Err? ==> res.error != RoomOrPlayerNotExist
    ensures res.Ok? ==>
              var m' := res.value;
              && InRoom(m', id, r) && Member(m', r, id)
              && m'.players == m.players[id := player]
              && m'.rooms == m.rooms
              && RoomsOf(m', id) == RoomsOf(m, id) + {r}
              && MembersOf(m', r) == MembersOf(m, r) + {id}
              && (forall p :: p != id ==> RoomsOf(m', p) == RoomsOf(m, p))
              && (forall q :: q != r ==> MembersOf(m', q) == MembersOf(m, q))
  {
    if r !in m.rooms then Err(RoomNotExist)
    else if m.rooms[r].playerLimit > 0 && m.rooms[r].playerLimit <= GetRoomPlayerCount(m, r) then
      Err(RoomPlayerFull)
    else
      Ok(Enter(m, r, id, player))
  }

  /** The state change of a join that passed its checks: the player is
      registered and listed in the room in both indexes. */
  function Enter<P>(m: Manager<P>, r: RoomId, id: Pid, player: P): (m': Manager<P>)
    ensures InRoom(m', id, r) && Member(m', r, id)
    ensures m'.players == m.players[id := player] && m'.rooms == m.rooms
    ensures RoomsOf(m', id) == RoomsOf(m, id) + {r}
    ensures MembersOf(m', r) == MembersOf(m, r) + {id}
    ensures forall p :: p != id ==> RoomsOf(m', p) == RoomsOf(m, p)
    ensures forall q :: q != r ==> MembersOf(m', q) == MembersOf(m, q)
  {
    m.(pr := m.pr[id := RoomsOf(m, id) + {r}],
       rp := m.rp[r := MembersOf(m, r) + {id}],
       players := m.players[id := player])
  }

  /** `Leave`: an unknown room changes nothing; otherwise both directions of
      the membership are dropped and the player stays registered. */
  function Leave<P>(m: Manager<P>, r: RoomId, id: Pid): (m': Manager<P>)
    ensures r !in m.rooms ==> m' == m
    ensures r in m.rooms ==> !InRoom(m', id, r) && !Member(m', r, id)
    ensures r in m.rooms ==> RoomsOf(m', id) == RoomsOf(m, id) - {r}
    ensures r in m.rooms ==> MembersOf(m', r) == MembersOf(m, r) - {id}
    ensures forall p :: p != id ==> RoomsOf(m', p) == RoomsOf(m, p)
    ensures forall q :: q != r ==> MembersOf(m', q) == MembersOf(m, q)
    ensures m'.players == m.players && m'.rooms == m.rooms
  {
    if r !in m.rooms then m
    else
      var pr := if id in m.pr then m.pr[id := m.pr[id] - {r}] else m.pr;
      var rp := if r in m.rp then m.rp[r := m.rp[r] - {id}] else m.rp;
      m.(pr := pr, rp := rp)
  }

  /** `KickOut` as written: its error test is inverted, so a kick between two
      members of the room returns without effect, and any other call goes on
      to `Leave`. Both nil dereferences on the way are faults. */
  function KickOut<P>(m: Manager<P>, r: RoomId, executor: Pid, kicked: Pid): (res: Result<Manager<P>, Fault>)
    ensures GetRoomPlayer(m, r, executor).Some? && GetRoomPlayer(m, r, kicked).Some? ==>
              res == (if r in m.rooms then Ok(m) else Err(NilRoomRecord))
    ensures !(GetRoomPlayer(m, r, executor).Some? && GetRoomPlayer(m, r, kicked).Some?) ==>
              res == (if r in m.rooms && kicked !in m.players then Err(NilPlayer)
                      else Ok(Leave(m, r, kicked)))
  {
    var executorPlayer := GetRoomPlayer(m, r, executor);
    var kickedPlayer := GetRoomPlayer(m, r, kicked);
    if executorPlayer.Some? && kickedPlayer.Some? then
      // the error stays nil and the early return fires
      if r in m.rooms then Ok(m) else Err(NilRoomRecord)
    else if r !in m.rooms then
      Ok(m)
    else if kicked !in m.players then
      Err(NilPlayer)
    else
      Ok(Leave(m, r, kicked))
  }

  /** As written, the executor decides the kick: a member can never be kicked
      by another member, and is removed when the executor is not in the room. */
  lemma {:induction false} KickOutIsInverted<P>(m: Manager<P>, r: RoomId, executor: Pid, kicked: Pid)
    requires Valid(m) && r in m.rooms
    requires InRoom(m, kicked, r)
    ensures InRoom(m, executor, r) ==> KickOut(m, r, executor, kicked) == Ok(m)
    ensures !InRoom(m, executor, r) ==>
              KickOut(m, r, executor, kicked).Ok? && !InRoom(KickOut(m, r, executor, kicked).value, kicked, r)
  {
    QueriesAgree(m, kicked, r);
    QueriesAgree(m, executor, r);
  }

  // ---------------------------------------------------------------------------
  // Properties of the operations

  /** A successful join never lifts the member count above a positive limit. */
  lemma JoinRespectsLimit<P>(m: Manager<P>, r: RoomId, id: Pid, player: P)
    requires Join(m, r, id, player).Ok?
    requires m.rooms[r].playerLimit > 0
    ensures GetRoomPlayerCount(Join(m, r, id, player).value, r) <= m.rooms[r].playerLimit
  {
    var m' := Join(m, r, id, player).value;
    assert MembersOf(m', r) == MembersOf(m, r) + {id};
    assert |MembersOf(m, r) + {id}| <= |MembersOf(m, r)| + 1;
  }

  /** A limit of zero or below means unlimited: such a room is never full. */
  lemma UnlimitedRoomNeverFull<P>(m: Manager<P>, r: RoomId, id: Pid, player: P)
    requires r in m.rooms && m.rooms[r].playerLimit <= 0
    ensures Join(m, r, id, player).Ok?
  {
  }

  lemma JoinPreservesValid<P>(m: Manager<P>, r: RoomId, id: Pid, player: P)
    requires Valid(m) && Join(m, r, id, player).Ok?
    ensures Valid(Join(m, r, id, player).value)
  {
    var m' := Join(m, r, id, player).value;
    forall p, q ensures InRoom(m', p, q) <==> Member(m', q, p) {
      assert InRoom(m', p, q) <==> q in RoomsOf(m', p);
      assert Member(m', q, p) <==> p in MembersOf(m', q);
      assert InRoom(m, p, q) <==> Member(m, q, p);
    }
    forall q, p | Member(m', q, p) ensures p in m'.players {
      assert p in MembersOf(m', q);
      assert Member(m, q, p) || p == id;
    }
  }

  lemma LeavePreservesValid<P>(m: Manager<P>, r: RoomId, id: Pid)
    requires Valid(m)
    ensures Valid(Leave(m, r, id))
  {
    var m' := Leave(m, r, id);
    forall p, q ensures InRoom(m', p, q) <==> Member(m', q, p) {
      assert InRoom(m', p, q) <==> q in RoomsOf(m', p);
      assert Member(m', q, p) <==> p in MembersOf(m', q);
      assert InRoom(m, p, q) <==> Member(m, q, p);
    }
    forall q, p | Member(m', q, p) ensures p in m'.players {
      assert p in MembersOf(m', q);
      assert Member(m, q, p);
    }
  }

  lemma KickOutPreservesValid<P>(m: Manager<P>, r: RoomId, executor: Pid, kicked: Pid)
    requires Valid(m) && KickOut(m, r, executor, kicked).Ok?
    ensures Valid(KickOut(m, r, executor, kicked).value)
  {
    LeavePreservesValid(m, r, kicked);
  }

  /** The room queries follow `CreateRoom`: the room is listed, and the
      count grows by one when the room is new. */
  lemma CreateRoomQueries<P>(m: Manager<P>, r: RoomId)
    ensures Exist(CreateRoom(m, r), r) && GetRooms(CreateRoom(m, r)) == GetRooms(m) + {r}
    ensures GetRoomCount(CreateRoom(m, r)) == if Exist(m, r) then GetRoomCount(m) else GetRoomCount(m) + 1
  {
    var m' := CreateRoom(m, r);
    var k := m.rooms.Keys;
    assert m'.rooms.Keys == k + {r};
    assert |m'.rooms| == |m'.rooms.Keys| && |m.rooms| == |k|;
    if r in k {
      assert k + {r} == k;
    } else {
      assert |k + {r}| == |k| + 1;
    }
  }

  /** The room queries follow `ReleaseRoom`: the room is no longer listed,
      and the count shrinks by one when it existed. */
  lemma ReleaseRoomQueries<P>(m: Manager<P>, r: RoomId)
    ensures !Exist(ReleaseRoom(m, r), r) && GetRooms(ReleaseRoom(m, r)) == GetRooms(m) - {r}
    ensures GetRoomCount(ReleaseRoom(m, r)) == if Exist(m, r) then GetRoomCount(m) - 1 else GetRoomCount(m)
  {
    var m' := ReleaseRoom(m, r);
    var k := m.rooms.Keys;
    assert m'.rooms.Keys == k - {r};
    assert |m'.rooms| == |m'.rooms.Keys| && |m.rooms| == |k|;
    if r in k {
      assert |k - {r}| == |k| - 1;
    } else {
      assert k - {r} == k;
    }
  }

  /** On a manager whose indexes agree, a successful `GetPlayerRoom` lists
      exactly the existing rooms whose member list holds the player. */
  lemma PlayerRoomsAreMemberships<P>(m: Manager<P>, id: Pid)
    requires Valid(m)
    ensures GetPlayerRoom(m, id).Ok? ==>
              GetPlayerRoom(m, id).value == set r | r in m.rooms && Member(m, r, id)
  {
  }

  /** `ReleaseRoom` leaves the released id in the player-side index, so every
      player who was in the room faults on the nil record in `GetPlayerRoom`. */
  lemma ReleasedRoomFaultsPlayerRoom<P>(m: Manager<P>, r: RoomId, id: Pid)
    requires InRoom(m, id, r)
    ensures GetPlayerRoom(ReleaseRoom(m, r), id) == Err(NilRoomRecord)
  {
  }

  /** The limit `GetRoomPlayerLimit` reads over a room's lifetime: zero when
      created, the new value after a positive `SetPlayerLimit`, unchanged
      after a non-positive one, and a fault once the room is released. */
  lemma PlayerLimitLifecycle<P>(m: Manager<P>, r: RoomId, limit: int)
    ensures GetRoomPlayerLimit(CreateRoom(m, r), r) == Ok(0)
    ensures r in m.rooms && limit > 0 ==> GetRoomPlayerLimit(SetPlayerLimit(m, r, limit), r) == Ok(limit)
    ensures limit <= 0 ==> GetRoomPlayerLimit(SetPlayerLimit(m, r, limit), r) == GetRoomPlayerLimit(m, r)
    ensures r !in m.rooms ==> GetRoomPlayerLimit(SetPlayerLimit(m, r, limit), r) == Err(NilRoomRecord)
    ensures GetRoomPlayerLimit(ReleaseRoom(m, r), r) == Err(NilRoomRecord)
  {
  }

  /** After a join of a player not yet in the room, every query reports the
      new membership and both counts grow by one. */
  lemma JoinQueries<P>(m: Manager<P>, r: RoomId, id: Pid, player: P)
    requires Join(m, r, id, player).Ok? && !InRoom(m, id, r) && !Member(m, r, id)
    ensures var m' := Join(m, r, id, player).value;
            && ExistPlayer(m', id) && GetPlayer(m', id) == Some(player)
            && GetRoomPlayer(m', r, id) == Some(player)
            && id in GetRoomPlayers(m', r) && GetRoomPlayers(m', r)[id] == Some(player)
            && GetRoomPlayerCount(m', r) == GetRoomPlayerCount(m, r) + 1
            && GetPlayerRoomCount(m', id) == GetPlayerRoomCount(m, id) + 1
  {
  }

  /** After a member leaves, the room queries no longer list the player and
      both counts shrink by one. */
  lemma LeaveQueries<P>(m: Manager<P>, r: RoomId, id: Pid)
    requires r in m.rooms && InRoom(m, id, r) && Member(m, r, id)
    ensures var m' := Leave(m, r, id);
            && GetRoomPlayer(m', r, id).None? && id !in GetRoomPlayers(m', r)
            && GetRoomPlayerCount(m', r) == GetRoomPlayerCount(m, r) - 1
            && GetPlayerRoomCount(m', id) == GetPlayerRoomCount(m, id) - 1
  {
  }

  /** Leaving keeps the player registered, so `ExistPlayer` still holds. */
  lemma LeaveKeepsPlayer<P>(m: Manager<P>, r: RoomId, id: Pid)
    requires ExistPlayer(m, id)
    ensures ExistPlayer(Leave(m, r, id), id) && GetPlayer(Leave(m, r, id), id) == GetPlayer(m, id)
  {
  }

  /** Leaving after a fresh join gives back the membership relation from before. */
  lemma {:induction false} JoinThenLeave<P>(m: Manager<P>, r: RoomId, id: Pid, player: P)
    requires Join(m, r, id, player).Ok? && !InRoom(m, id, r) && !Member(m, r, id)
    ensures var m' := Leave(Join(m, r, id, player).value, r, id);
            && (forall p :: RoomsOf(m', p) == RoomsOf(m, p))
            && (forall q :: MembersOf(m', q) == MembersOf(m, q))
  {
    var m1 := Join(m, r, id, player).value;
    var m' := Leave(m1, r, id);
    assert r !in RoomsOf(m, id);
    assert id !in MembersOf(m, r);
    assert RoomsOf(m', id) == RoomsOf(m, id) + {r} - {r} == RoomsOf(m, id);
    assert MembersOf(m', r) == MembersOf(m, r) + {id} - {id} == MembersOf(m, r);
  }

  /** Every operation other than `SetOwner` keeps the limits non-negative, and
      a limit that is set is positive. */
  lemma LimitOperationsKeepLimits<P>(m: Manager<P>, r: RoomId, limit: int, id: Pid)
    requires LimitsNonNegative(m)
    ensures LimitsNonNegative(SetPlayerLimit(m, r, limit))
    ensures LimitsNonNegative(CreateRoom(m, r))
    ensures LimitsNonNegative(ReleaseRoom(m, r))
    ensures LimitsNonNegative(CancelOwner(m, r))
    ensures SetOwner(m, r, id).Ok? ==> LimitsNonNegative(SetOwner(m, r, id).value)
    ensures r in m.rooms && SetPlayerLimit(m, r, limit).rooms[r].playerLimit != m.rooms[r].playerLimit ==>
              SetPlayerLimit(m, r, limit).rooms[r].playerLimit > 0
  {
  }

  /** The owner is optional: it is cleared by `CancelOwner`, created empty by
      `CreateRoom`, and only a successful `SetOwner` makes it present. */
  lemma OwnerLifecycle<P>(m: Manager<P>, r: RoomId, id: Pid, player: P, limit: int)
    requires r in m.rooms && m.rooms[r].owner.None?
    ensures CancelOwner(m, r).rooms[r].owner.None?
    ensures CreateRoom(m, r).rooms[r].owner.None?
    ensures SetPlayerLimit(m, r, limit).rooms[r].owner.None?
    ensures Join(m, r, id, player).Ok? ==> Join(m, r, id, player).value.rooms[r].owner.None?
    ensures Leave(m, r, id).rooms[r].owner.None?
    ensures KickOut(m, r, id, id).Ok? ==> KickOut(m, r, id, id).value.rooms[r].owner.None?
    ensures SetOwner(m, r, id).Ok? ==> SetOwner(m, r, id).value.rooms[r].owner == Some(id)
  {
  }
}

/** The relay room (relay-worker/src/index.js): one Durable Object pairs a sending and a receiving
    socket. Closing a socket unlists it at once; its close event comes later, in any order. */
module Room {

  datatype Role = Send | Recv

  function Opposite(r: Role): Role {
    match r
    case Send => Recv
    case Recv => Send
  }

  datatype Socket = Socket(id: nat, role: Role)

  /** What the room puts on a socket: its own controls, or a peer's message verbatim. */
  datatype Out = PeerJoined | PeerLeft | Forwarded(from: Socket, message: string)

  /** `listed` is what `getWebSockets()` returns; `tags` remembers every socket ever accepted;
      `sent` is what each was sent; `armed` says whether the expiry alarm is set. */
  datatype State = State(listed: seq<Socket>, tags: map<nat, Role>, sent: map<nat, seq<Out>>, armed: bool, nextId: nat)

  const EMPTY_ROOM := State([], map[], map[], false, 0)

  function InRole(listed: seq<Socket>, role: Role): seq<Socket> {
    if listed == [] then []
    else if listed[0].role == role then [listed[0]] + InRole(listed[1..], role)
    else InRole(listed[1..], role)
  }

  function Without(listed: seq<Socket>, role: Role): seq<Socket> {
    InRole(listed, Opposite(role))
  }

  function Unlist(listed: seq<Socket>, id: nat): seq<Socket> {
    if listed == [] then []
    else (if listed[0].id == id then [] else [listed[0]]) + Unlist(listed[1..], id)
  }

  /** `peerOf`: the first listed socket of the opposite role. */
  function PeerOf(listed: seq<Socket>, role: Role): seq<Socket> {
    var others := InRole(listed, Opposite(role));
    if others == [] then [] else [others[0]]
  }

  function Log(sent: map<nat, seq<Out>>, id: nat): seq<Out> {
    if id in sent then sent[id] else []
  }

  function Put(sent: map<nat, seq<Out>>, id: nat, o: Out): map<nat, seq<Out>> {
    sent[id := Log(sent, id) + [o]]
  }

  // ---------------------------------------------------------------- the handlers

  /** `fetch`, for a request that upgrades with a valid role: takeover, accept, pair. */
  function OnJoin(s: State, role: Role): State {
    var server := Socket(s.nextId, role);
    var listed := Without(s.listed, role) + [server];
    var tags := s.tags[server.id := role];
    var peer := PeerOf(listed, role);
    if peer != [] then
      State(listed, tags, Put(Put(s.sent, server.id, PeerJoined), peer[0].id, PeerJoined), false, s.nextId + 1)
    else
      State(listed, tags, s.sent, true, s.nextId + 1)
  }

  /** `webSocketMessage`. */
  function OnMessage(s: State, id: nat, message: string): State
    requires id in s.tags
  {
    var peer := PeerOf(s.listed, s.tags[id]);
    if peer == [] then s else s.(sent := Put(s.sent, peer[0].id, Forwarded(Socket(id, s.tags[id]), message)))
  }

  /** `departed`, run when a socket's close or error event arrives. */
  function OnDeparted(s: State, id: nat): State
    requires id in s.tags
  {
    var role := s.tags[id];
    var peer := PeerOf(s.listed, role);
    if InRole(Unlist(s.listed, id), role) != [] then s
    else if peer == [] then s
    else s.(sent := Put(s.sent, peer[0].id, PeerLeft), armed := true)
  }

  /** `alarm`: the runtime disarms it, the handler closes whatever is listed. */
  function OnAlarm(s: State): State {
    s.(listed := [], armed := false)
  }

  /** The object as the runtime drives it. */
  class RoomObject {
    var listed: seq<Socket>
    var tags: map<nat, Role>
    var sent: map<nat, seq<Out>>
    var armed: bool
    var nextId: nat

    constructor ()
      ensures Contents() == EMPTY_ROOM
    {
      listed, tags, sent, armed, nextId := [], map[], map[], false, 0;
    }

    function Contents(): State
      reads this
    {
      State(listed, tags, sent, armed, nextId)
    }

    /** Status 101 for an accepted socket, else the refusal, which changes nothing. */
    method Fetch(upgrade: bool, role: string) returns (status: int)
      modifies this
      ensures status == if !upgrade then 426 else if role != "send" && role != "recv" then 400 else 101
      ensures Contents() == if status == 101 then OnJoin(old(Contents()), if role == "send" then Send else Recv)
                            else old(Contents())
    {
      if !upgrade {
        return 426;
      }
      if role != "send" && role != "recv" {
        return 400;
      }
      hide InRole, PeerOf, Put;
      var r := if role == "send" then Send else Recv;
      CloseRole(r);
      var server := Socket(nextId, r);
      nextId := nextId + 1;
      listed := listed + [server];
      tags := tags[server.id := r];
      var other := PeerOf(listed, r);
      if other != [] {
        sent := Put(sent, server.id, PeerJoined);
        sent := Put(sent, other[0].id, PeerJoined);
        armed := false;
      } else {
        armed := true;
      }
      status := 101;
    }

    /** Takeover: every socket of the role is closed, hence unlisted. */
    method CloseRole(role: Role)
      modifies this`listed
      ensures listed == Without(old(listed), role)
    {
      var kept: seq<Socket> := [];
      for i := 0 to |listed|
        invariant listed == old(listed)
        invariant kept == Without(listed[..i], role)
      {
        hide InRole;
        InRoleSnoc(listed[..i], listed[i], Opposite(role));
        assert listed[..i + 1] == listed[..i] + [listed[i]];
        if listed[i].role != role {
          kept := kept + [listed[i]];
        }
      }
      assert listed[..|listed|] == listed;
      listed := kept;
    }

    method WebSocketMessage(id: nat, message: string)
      requires id in tags
      modifies this`sent
      ensures Contents() == OnMessage(old(Contents()), id, message)
    {
      var peer := PeerOf(listed, tags[id]);
      if peer != [] {
        sent := Put(sent, peer[0].id, Forwarded(Socket(id, tags[id]), message));
      }
    }

    method Departed(id: nat)
      requires id in tags
      modifies this`sent, this`armed
      ensures Contents() == OnDeparted(old(Contents()), id)
    {
      var role := tags[id];
      if InRole(Unlist(listed, id), role) != [] {
        return;
      }
      var peer := PeerOf(listed, role);
      if peer != [] {
        sent := Put(sent, peer[0].id, PeerLeft);
        armed := true;
      }
    }

    method Alarm()
      modifies this`listed, this`armed
      ensures Contents() == OnAlarm(old(Contents()))
    {
      armed := false;
      listed := [];
    }
  }

  // ---------------------------------------------------------------- runs of the room

  datatype Event =
    | Join(role: Role)                       // an upgrade request with a valid role
    | Message(id: nat, message: string)      // from any socket ever accepted, replaced ones included
    | Closed(id: nat)                        // a close or error event; for a listed socket, its death
    | AlarmFires

  predicate Enabled(s: State, e: Event) {
    match e
    case Join(_) => true
    case Message(id, _) => id in s.tags
    case Closed(id) => id in s.tags
    case AlarmFires => s.armed
  }

  /** A socket that dies on its own is still listed while its event is handled. */
  function Next(s: State, e: Event): State {
    if !Enabled(s, e) then s
    else
      match e
      case Join(role) => OnJoin(s, role)
      case Message(id, m) => OnMessage(s, id, m)
      case Closed(id) => var d := OnDeparted(s, id); d.(listed := Unlist(d.listed, id))
      case AlarmFires => OnAlarm(s)
  }

  function Run(events: seq<Event>): State {
    if events == [] then EMPTY_ROOM else Next(Run(events[..|events| - 1]), events[|events| - 1])
  }

  predicate Occupied(s: State, role: Role) {
    InRole(s.listed, role) != []
  }

  /** The room's own last word to a socket. */
  function LastControl(log: seq<Out>): seq<Out> {
    if log == [] then []
    else if log[|log| - 1].Forwarded? then LastControl(log[..|log| - 1])
    else [log[|log| - 1]]
  }

  /** Every listed socket has been told the truth about its peer. */
  ghost predicate Truthful(s: State) {
    forall x :: x in s.listed ==> (LastControl(Log(s.sent, x.id)) == [PeerJoined] <==> Occupied(s, Opposite(x.role)))
  }

  /** The alarm is set exactly while one socket waits alone; an empty room may have either. */
  predicate AlarmRight(s: State) {
    && (Occupied(s, Send) && Occupied(s, Recv) ==> !s.armed)
    && (Occupied(s, Send) != Occupied(s, Recv) ==> s.armed)
  }

  /** At most one socket a role, and identifiers are never reused. */
  ghost predicate WellFormed(s: State) {
    && |InRole(s.listed, Send)| <= 1 && |InRole(s.listed, Recv)| <= 1
    && (forall x :: x in s.listed ==> x.id < s.nextId && x.id in s.tags && s.tags[x.id] == x.role)
    && (forall i :: i in s.tags ==> i < s.nextId)
    && (forall i :: i in s.sent ==> i < s.nextId)
  }

  ghost predicate RoomInv(s: State) {
    WellFormed(s) && Truthful(s) && AlarmRight(s)
  }

  lemma {:induction false} InRoleExact(listed: seq<Socket>, role: Role)
    ensures forall x :: x in InRole(listed, role) <==> x in listed && x.role == role
  {
    if listed != [] {
      InRoleExact(listed[1..], role);
      assert listed == [listed[0]] + listed[1..];
    }
  }

  lemma {:induction false} InRoleConcat(a: seq<Socket>, b: seq<Socket>, role: Role)
    ensures InRole(a + b, role) == InRole(a, role) + InRole(b, role)
  {
    if a == [] {
      assert a + b == b;
    } else {
      InRoleConcat(a[1..], b, role);
      assert (a + b)[1..] == a[1..] + b;
    }
  }

  lemma InRoleSnoc(a: seq<Socket>, x: Socket, role: Role)
    ensures InRole(a + [x], role) == InRole(a, role) + (if x.role == role then [x] else [])
  {
    InRoleConcat(a, [x], role);
    assert [x][1..] == [];
  }

  lemma {:induction false} InRoleTwice(listed: seq<Socket>, role: Role)
    ensures InRole(InRole(listed, role), role) == InRole(listed, role)
    ensures InRole(InRole(listed, role), Opposite(role)) == []
  {
    if listed != [] {
      var x, rest := listed[0], InRole(listed[1..], role);
      InRoleTwice(listed[1..], role);
      if x.role == role {
        assert ([x] + rest)[1..] == rest;
        assert InRole([x] + rest, role) == [x] + InRole(rest, role);
        assert InRole([x] + rest, Opposite(role)) == InRole(rest, Opposite(role));
      } else {
        assert InRole(listed, role) == rest;
      }
    }
  }

  lemma {:induction false} UnlistExact(listed: seq<Socket>, id: nat)
    ensures forall x :: x in Unlist(listed, id) <==> x in listed && x.id != id
  {
    if listed != [] {
      UnlistExact(listed[1..], id);
      assert listed == [listed[0]] + listed[1..];
    }
  }

  lemma {:induction false} UnlistShrinks(listed: seq<Socket>, id: nat, role: Role)
    ensures |InRole(Unlist(listed, id), role)| <= |InRole(listed, role)|
  {
    if listed != [] {
      var x, rest := listed[0], Unlist(listed[1..], id);
      UnlistShrinks(listed[1..], id, role);
      if x.id != id {
        assert ([x] + rest)[1..] == rest;
        assert InRole([x] + rest, role) == (if x.role == role then [x] else []) + InRole(rest, role);
      } else {
        assert Unlist(listed, id) == rest;
      }
    }
  }

  lemma LogPut(sent: map<nat, seq<Out>>, id: nat, o: Out, y: nat)
    ensures Log(Put(sent, id, o), y) == Log(sent, y) + (if y == id then [o] else [])
  {
  }

  lemma LastControlSnoc(log: seq<Out>, o: Out)
    ensures LastControl(log + [o]) == if o.Forwarded? then LastControl(log) else [o]
  {
    assert (log + [o])[..|log|] == log;
  }

  /** What one more output does to the last word of each socket. */
  lemma PutControl(sent: map<nat, seq<Out>>, id: nat, o: Out, y: nat)
    ensures LastControl(Log(Put(sent, id, o), y))
         == if y == id && !o.Forwarded? then [o] else LastControl(Log(sent, y))
  {
    hide Log, Put, LastControl;
    LogPut(sent, id, o, y);
    LastControlSnoc(Log(sent, y), o);
    assert Log(sent, y) + [] == Log(sent, y);
  }

  lemma OneInRole(s: State, x: Socket, y: Socket)
    requires WellFormed(s) && x in s.listed && y in s.listed && x.role == y.role
    ensures x == y
  {
    InRoleExact(s.listed, x.role);
    var list := InRole(s.listed, x.role);
    assert x in list && y in list;
    assert |list| <= 1;
  }

  /** Who is listed after a join: the newcomer, and whoever held the opposite role. */
  lemma JoinListed(s: State, role: Role)
    ensures var s' := OnJoin(s, role);
            && InRole(s'.listed, role) == [Socket(s.nextId, role)]
            && InRole(s'.listed, Opposite(role)) == InRole(s.listed, Opposite(role))
            && forall x :: x in s'.listed <==> x == Socket(s.nextId, role) || (x in s.listed && x.role == Opposite(role))
  {
    var server := Socket(s.nextId, role);
    InRoleTwice(s.listed, Opposite(role));
    InRoleConcat(Without(s.listed, role), [server], role);
    InRoleConcat(Without(s.listed, role), [server], Opposite(role));
    InRoleExact(s.listed, Opposite(role));
    assert InRole([server], role) == [server] by { assert [server][1..] == []; }
    assert InRole([server], Opposite(role)) == [] by { assert [server][1..] == []; }
  }

  lemma JoinWellFormed(s: State, role: Role)
    requires WellFormed(s)
    ensures WellFormed(OnJoin(s, role))
  {
    hide InRole, Log;
    JoinListed(s, role);
    InRoleExact(s.listed, Opposite(role));
    assert role == Send || role == Recv;
    assert InRole(s.listed, Opposite(role)) != [] ==> InRole(s.listed, Opposite(role))[0] in s.listed;
  }

  /** Only one socket can hold a role, so the one that `peerOf` finds is the one. */
  lemma PeerIsHolder(s: State, role: Role, x: Socket)
    requires WellFormed(s) && x in s.listed && x.role == Opposite(role)
    ensures PeerOf(s.listed, role) == [x]
  {
    hide InRole;
    InRoleExact(s.listed, Opposite(role));
    assert x in InRole(s.listed, Opposite(role));
    assert role == Send || role == Recv;
  }

  lemma NoPeer(s: State, role: Role)
    ensures PeerOf(s.listed, role) == [] <==> !Occupied(s, Opposite(role))
  {
  }

  lemma NoLogYet(s: State, id: nat)
    requires id !in s.sent
    ensures LastControl(Log(s.sent, id)) == []
  {
  }

  lemma JoinTruthful(s: State, role: Role, x: Socket)
    requires RoomInv(s) && x in OnJoin(s, role).listed
    ensures var s' := OnJoin(s, role);
      LastControl(Log(s'.sent, x.id)) == [PeerJoined] <==> Occupied(s', Opposite(x.role))
  {
    hide InRole, Log, Put, LastControl, PeerOf;
    var s' := OnJoin(s, role);
    var server := Socket(s.nextId, role);
    JoinListed(s, role);
    JoinWellFormed(s, role);
    NoPeer(s', role);
    NoLogYet(s, s.nextId);
    if x.role == Opposite(role) {
      PeerIsHolder(s', role, x);
      PutControl(Put(s.sent, server.id, PeerJoined), x.id, PeerJoined, x.id);
      assert server in InRole(s'.listed, role);
    } else {
      var peer := PeerOf(s'.listed, role);
      if peer != [] {
        PutControl(s.sent, server.id, PeerJoined, server.id);
        PutControl(Put(s.sent, server.id, PeerJoined), peer[0].id, PeerJoined, server.id);
      }
    }
  }

  lemma JoinKeeps(s: State, role: Role)
    requires RoomInv(s)
    ensures RoomInv(OnJoin(s, role))
  {
    hide InRole, Log, Put, LastControl, PeerOf;
    var s' := OnJoin(s, role);
    JoinListed(s, role);
    JoinWellFormed(s, role);
    NoPeer(s', role);
    forall x | x in s'.listed
      ensures LastControl(Log(s'.sent, x.id)) == [PeerJoined] <==> Occupied(s', Opposite(x.role))
    {
      JoinTruthful(s, role, x);
    }
    assert Occupied(s', role);
    assert role == Send || role == Recv;
  }

  lemma MessageKeeps(s: State, id: nat, message: string)
    requires RoomInv(s) && id in s.tags
    ensures RoomInv(OnMessage(s, id, message))
  {
    hide InRole, Log, LastControl;
    var s' := OnMessage(s, id, message);
    InRoleExact(s.listed, Opposite(s.tags[id]));
    var peer := PeerOf(s.listed, s.tags[id]);
    if peer != [] {
      assert peer[0] in s.listed;
      forall x | x in s'.listed
        ensures LastControl(Log(s'.sent, x.id)) == LastControl(Log(s.sent, x.id))
      {
        hide PeerOf, Put;
        PutControl(s.sent, peer[0].id, Forwarded(Socket(id, s.tags[id]), message), x.id);
      }
      forall x | x in s'.listed
        ensures LastControl(Log(s'.sent, x.id)) == [PeerJoined] <==> Occupied(s', Opposite(x.role))
      {
        assert s'.listed == s.listed;
      }
    }
  }

  /** A close event either finds its role still held by another socket, or leaves it empty. */
  lemma ClosedKeeps(s: State, id: nat)
    requires RoomInv(s) && id in s.tags
    ensures RoomInv(Next(s, Closed(id)))
  {
    hide InRole, Unlist, Next;
    if InRole(Unlist(s.listed, id), s.tags[id]) != [] {
      HolderStays(s, id);
    } else {
      DepartedTruth(s, id);
    }
  }

  lemma OppositeStays(s: State, id: nat)
    requires WellFormed(s) && id in s.tags
    ensures forall x :: x in s.listed && x.role == Opposite(s.tags[id]) ==> x.id != id
    ensures Occupied(s.(listed := Unlist(s.listed, id)), Opposite(s.tags[id])) <==> Occupied(s, Opposite(s.tags[id]))
  {
    var other := Opposite(s.tags[id]);
    UnlistExact(s.listed, id);
    InRoleExact(s.listed, other);
    InRoleExact(Unlist(s.listed, id), other);
    var a, b := InRole(s.listed, other), InRole(Unlist(s.listed, id), other);
    assert a != [] ==> a[0] in b;
    assert b != [] ==> b[0] in a;
  }

  /** Late event of a replaced socket: nobody is told anything. */
  lemma HolderStays(s: State, id: nat)
    requires RoomInv(s) && id in s.tags && InRole(Unlist(s.listed, id), s.tags[id]) != []
    ensures Next(s, Closed(id)) == s
  {
    var role, left := s.tags[id], Unlist(s.listed, id);
    UnlistExact(s.listed, id);
    InRoleExact(left, role);
    var holder := InRole(left, role)[0];
    forall x | x in s.listed
      ensures x.id != id
    {
      if x.role == role {
        assert holder in left;
        OneInRole(s, x, holder);
      } else {
        OppositeStays(s, id);
      }
    }
    UnlistNothing(s.listed, id);
  }

  lemma {:induction false} UnlistNothing(listed: seq<Socket>, id: nat)
    requires forall x :: x in listed ==> x.id != id
    ensures Unlist(listed, id) == listed
  {
    if listed != [] {
      UnlistNothing(listed[1..], id);
    }
  }

  /** The role is empty now: the survivor, if any, hears so and the alarm is set. */
  lemma DepartedTruth(s: State, id: nat)
    requires RoomInv(s) && id in s.tags && InRole(Unlist(s.listed, id), s.tags[id]) == []
    ensures RoomInv(Next(s, Closed(id)))
  {
    hide InRole, Unlist, Log, LastControl;
    var role, left := s.tags[id], Unlist(s.listed, id);
    var s' := Next(s, Closed(id));
    UnlistExact(s.listed, id);
    UnlistShrinks(s.listed, id, Send);
    UnlistShrinks(s.listed, id, Recv);
    InRoleExact(left, role);
    InRoleExact(s.listed, Opposite(role));
    OppositeStays(s, id);
    forall x | x in s'.listed
      ensures LastControl(Log(s'.sent, x.id)) == [PeerJoined] <==> Occupied(s', Opposite(x.role))
    {
      hide PeerOf;
      assert x.role == role ==> x in InRole(left, role);
      assert x.role == Opposite(role);
      PeerIsHolder(s, role, x);
      PutControl(s.sent, x.id, PeerLeft, x.id);
    }
    NoPeer(s, role);
    assert s'.listed == left;
    assert role == Send || role == Recv;
    assert WellFormed(s');
    assert AlarmRight(s');
  }

  lemma StepKeeps(s: State, e: Event)
    requires RoomInv(s)
    ensures RoomInv(Next(s, e))
  {
    if Enabled(s, e) {
      match e {
        case Join(role) => JoinKeeps(s, role);
        case Message(id, m) => MessageKeeps(s, id, m);
        case Closed(id) => ClosedKeeps(s, id);
        case AlarmFires =>
      }
    }
  }

  /** In every reachable room state: one socket a role, every listed socket told the truth, and the
      alarm set exactly when somebody waits alone. */
  lemma {:induction false} EveryRoom(events: seq<Event>)
    ensures RoomInv(Run(events))
    decreases |events|
  {
    if events != [] {
      EveryRoom(events[..|events| - 1]);
      StepKeeps(Run(events[..|events| - 1]), events[|events| - 1]);
    }
  }

  /** A `peer-left` is never false: whenever one is sent, the peer's role is empty afterwards;
      so takeovers and the late events of replaced sockets never send one. */
  lemma PeerLeftIsTrue(events: seq<Event>, e: Event, x: Socket)
    requires x in Run(events).listed
    requires Log(Next(Run(events), e).sent, x.id) == Log(Run(events).sent, x.id) + [PeerLeft]
    ensures !Occupied(Next(Run(events), e), Opposite(x.role)) && Next(Run(events), e).armed
    ensures x in Next(Run(events), e).listed
  {
    hide Run, Next, OnDeparted, Log;
    EveryRoom(events);
    OnlyDepartureSaysLeft(Run(events), e, x.id);
    DepartureTells(Run(events), e.id, x);
  }

  /** Only a departure can make `peer-left` the next output of a socket. */
  lemma OnlyDepartureSaysLeft(s: State, e: Event, y: nat)
    requires Log(Next(s, e).sent, y) == Log(s.sent, y) + [PeerLeft]
    ensures e.Closed? && e.id in s.tags
  {
    hide InRole, Log, Put, PeerOf;
    var log := Log(s.sent, y);
    assert (log + [PeerLeft])[|log|] == PeerLeft;
    if e.Message? && e.id in s.tags {
      var peer := PeerOf(s.listed, s.tags[e.id]);
      if peer != [] {
        LogPut(s.sent, peer[0].id, Forwarded(Socket(e.id, s.tags[e.id]), e.message), y);
      }
    } else if e.Join? {
      var server := Socket(s.nextId, e.role);
      var peer := PeerOf(Without(s.listed, e.role) + [server], e.role);
      if peer != [] {
        LogPut(s.sent, server.id, PeerJoined, y);
        LogPut(Put(s.sent, server.id, PeerJoined), peer[0].id, PeerJoined, y);
      }
    }
  }

  lemma DepartureTells(s: State, id: nat, x: Socket)
    requires RoomInv(s) && id in s.tags && x in s.listed
    requires Log(Next(s, Closed(id)).sent, x.id) == Log(s.sent, x.id) + [PeerLeft]
    ensures var s' := Next(s, Closed(id));
      !Occupied(s', Opposite(x.role)) && s'.armed && x in s'.listed
  {
    hide InRole, Log, Put, LastControl, Unlist, Truthful;
    var role := s.tags[id];
    var peer := PeerOf(s.listed, role);
    assert |Log(s.sent, x.id) + [PeerLeft]| == |Log(s.sent, x.id)| + 1;
    assert peer != [] && InRole(Unlist(s.listed, id), role) == [];
    LogPut(s.sent, peer[0].id, PeerLeft, x.id);
    assert peer[0].id == x.id;
    InRoleExact(s.listed, Opposite(role));
    assert peer[0] in s.listed && peer[0].role == Opposite(role);
    OppositeStays(s, id);
    UnlistExact(s.listed, id);
  }

  /** The alarm never closes a paired room. */
  lemma AlarmSparesPairs(events: seq<Event>)
    requires Enabled(Run(events), AlarmFires)
    ensures |Run(events).listed| <= 1
    ensures !(Occupied(Run(events), Send) && Occupied(Run(events), Recv))
  {
    hide Run;
    var s := Run(events);
    EveryRoom(events);
    if |s.listed| > 1 {
      InRoleExact(s.listed, Send);
      InRoleExact(s.listed, Recv);
      RolesCover(s.listed);
    }
  }

  lemma {:induction false} RolesCover(listed: seq<Socket>)
    ensures |listed| == |InRole(listed, Send)| + |InRole(listed, Recv)|
  {
    if listed != [] {
      RolesCover(listed[1..]);
    }
  }

  /** A message goes, unchanged, to the socket that holds the opposite role, and to nobody else. */
  lemma ForwardedToPeer(events: seq<Event>, id: nat, message: string, y: nat)
    requires Enabled(Run(events), Message(id, message))
    ensures var s := Run(events);
            var s' := Next(s, Message(id, message));
            var other := Opposite(s.tags[id]);
            && s'.listed == s.listed && s'.armed == s.armed
            && Log(s'.sent, y) == Log(s.sent, y)
                 + (if exists x :: x in s.listed && x.role == other && x.id == y
                    then [Forwarded(Socket(id, s.tags[id]), message)] else [])
  {
    hide Run;
    var s := Run(events);
    var other := Opposite(s.tags[id]);
    EveryRoom(events);
    InRoleExact(s.listed, other);
    var others := InRole(s.listed, other);
    if exists x :: x in s.listed && x.role == other && x.id == y {
      var x :| x in s.listed && x.role == other && x.id == y;
      assert x in others && x == others[0];
    } else if others != [] {
      assert others[0] in s.listed;
    }
  }

  // ---------------------------------------------------------------- every event, exactly

  /** The one socket that holds a role, if any. */
  ghost predicate Holds(s: State, role: Role, y: nat) {
    exists x :: x in s.listed && x.role == role && x.id == y
  }

  /** What an event makes the room say to socket `y`. */
  ghost function Said(s: State, e: Event, y: nat): seq<Out> {
    match e
    case Join(role) =>
      if Occupied(s, Opposite(role)) && (y == s.nextId || Holds(s, Opposite(role), y)) then [PeerJoined] else []
    case Message(id, message) =>
      if id in s.tags && Holds(s, Opposite(s.tags[id]), y) then [Forwarded(Socket(id, s.tags[id]), message)] else []
    case Closed(id) =>
      if id in s.tags && !HeldByOther(s, s.tags[id], id) && Holds(s, Opposite(s.tags[id]), y) then [PeerLeft] else []
    case AlarmFires => []
  }

  ghost predicate HeldByOther(s: State, role: Role, id: nat) {
    exists x :: x in s.listed && x.role == role && x.id != id
  }

  lemma PeerIs(s: State, role: Role)
    requires WellFormed(s)
    ensures var peer := PeerOf(s.listed, role);
            && |peer| <= 1 && (peer == [] <==> !Occupied(s, Opposite(role)))
            && forall y :: Holds(s, Opposite(role), y) <==> peer != [] && peer[0].id == y
  {
    hide InRole;
    InRoleExact(s.listed, Opposite(role));
    var others := InRole(s.listed, Opposite(role));
    assert role == Send || role == Recv;
    assert others != [] ==> others[0] in others;
    forall y
      ensures Holds(s, Opposite(role), y) <==> others != [] && others[0].id == y
    {
      if x :| x in s.listed && x.role == Opposite(role) && x.id == y {
        PeerIsHolder(s, role, x);
      }
    }
  }

  lemma SaidOnJoin(s: State, role: Role, y: nat)
    requires WellFormed(s)
    ensures Log(OnJoin(s, role).sent, y) == Log(s.sent, y) + Said(s, Join(role), y)
  {
    hide InRole, Log, Put, PeerOf, Holds;
    var server := Socket(s.nextId, role);
    var s' := OnJoin(s, role);
    JoinListed(s, role);
    JoinWellFormed(s, role);
    PeerIs(s', role);
    SameHolders(s, s', Opposite(role));
    var peer := PeerOf(s'.listed, role);
    if peer != [] {
      NewIsNotHolder(s, role);
      LogPut(s.sent, server.id, PeerJoined, y);
      LogPut(Put(s.sent, server.id, PeerJoined), peer[0].id, PeerJoined, y);
    }
  }

  lemma NewIsNotHolder(s: State, role: Role)
    requires WellFormed(s)
    ensures !Holds(s, Opposite(role), s.nextId)
  {
  }

  lemma SameHolders(s: State, s': State, role: Role)
    requires forall x: Socket :: x.role == role ==> (x in s.listed <==> x in s'.listed)
    ensures Occupied(s, role) <==> Occupied(s', role)
    ensures forall y :: Holds(s, role, y) <==> Holds(s', role, y)
  {
    hide InRole;
    InRoleExact(s.listed, role);
    InRoleExact(s'.listed, role);
    assert Occupied(s, role) ==> InRole(s.listed, role)[0] in InRole(s'.listed, role);
    assert Occupied(s', role) ==> InRole(s'.listed, role)[0] in InRole(s.listed, role);
  }

  lemma SaidOnClosed(s: State, id: nat, y: nat)
    requires WellFormed(s) && id in s.tags
    ensures Log(Next(s, Closed(id)).sent, y) == Log(s.sent, y) + Said(s, Closed(id), y)
  {
    hide InRole, Unlist, Log, Put, PeerOf, Holds;
    var role := s.tags[id];
    PeerIs(s, role);
    OtherHolder(s, role, id);
    var peer := PeerOf(s.listed, role);
    if peer != [] {
      LogPut(s.sent, peer[0].id, PeerLeft, y);
    }
  }

  lemma OtherHolder(s: State, role: Role, id: nat)
    ensures HeldByOther(s, role, id) <==> InRole(Unlist(s.listed, id), role) != []
  {
    hide InRole, Unlist;
    UnlistExact(s.listed, id);
    InRoleExact(Unlist(s.listed, id), role);
    var left := InRole(Unlist(s.listed, id), role);
    assert left != [] ==> left[0] in left;
    if x :| x in s.listed && x.role == role && x.id != id {
      assert x in left;
    }
  }

  lemma SaidOnMessage(s: State, id: nat, message: string, y: nat)
    requires WellFormed(s) && id in s.tags
    ensures Log(OnMessage(s, id, message).sent, y) == Log(s.sent, y) + Said(s, Message(id, message), y)
  {
    hide InRole, Log, Put, PeerOf, Holds;
    PeerIs(s, s.tags[id]);
    var peer := PeerOf(s.listed, s.tags[id]);
    if peer != [] {
      LogPut(s.sent, peer[0].id, Forwarded(Socket(id, s.tags[id]), message), y);
    }
  }

  /** In every reachable room, for every event and every socket: exactly what is said to it. The joiner
      and the peer hear of each other once, a message goes to the opposite socket once, a departure is
      told once and only if nobody else holds the role, and nobody else hears anything. */
  lemma SaidExactly(events: seq<Event>, e: Event, y: nat)
    ensures Log(Next(Run(events), e).sent, y) == Log(Run(events).sent, y) + Said(Run(events), e, y)
  {
    hide Run, Log, Said, OnJoin, OnMessage;
    EveryRoom(events);
    var s := Run(events);
    match e {
      case Join(role) => SaidOnJoin(s, role, y);
      case Message(id, m) =>
        if id in s.tags {
          SaidOnMessage(s, id, m, y);
        } else {
          SaidNothing(s, e, y);
        }
      case Closed(id) =>
        if id in s.tags {
          SaidOnClosed(s, id, y);
        } else {
          SaidNothing(s, e, y);
        }
      case AlarmFires => SaidNothing(s, e, y);
    }
  }

  lemma SaidNothing(s: State, e: Event, y: nat)
    requires match e case Join(_) => false case Message(id, _) => id !in s.tags case Closed(id) => id !in s.tags case AlarmFires => true
    ensures Next(s, e).sent == s.sent && Said(s, e, y) == [] && Log(s.sent, y) + [] == Log(s.sent, y)
  {
  }

  /** And exactly who is listed and whether the alarm is set: a join replaces its own role and sets the
      alarm exactly when it is alone, a close event unlists its own socket and sets the alarm when it
      leaves somebody alone, and the alarm leaves nobody. */
  lemma ListedExactly(events: seq<Event>, e: Event)
    requires Enabled(Run(events), e)
    ensures var s, s' := Run(events), Next(Run(events), e);
            match e
            case Join(role) =>
              && (forall x :: x in s'.listed <==> x == Socket(s.nextId, role) || (x in s.listed && x.role == Opposite(role)))
              && (s'.armed <==> !Occupied(s, Opposite(role)))
            case Message(_, _) => s'.listed == s.listed && s'.armed == s.armed
            case Closed(id) =>
              && (forall x :: x in s'.listed <==> x in s.listed && x.id != id)
              && (s'.armed <==> s.armed || (!HeldByOther(s, s.tags[id], id) && Occupied(s, Opposite(s.tags[id]))))
            case AlarmFires => s'.listed == [] && !s'.armed
  {
    hide Run, InRole, Unlist, Log, Put;
    EveryRoom(events);
    var s := Run(events);
    match e {
      case Join(role) =>
        JoinListed(s, role);
      case Message(_, _) =>
      case Closed(id) =>
        UnlistExact(s.listed, id);
        OtherHolder(s, s.tags[id], id);
        NoPeer(s, s.tags[id]);
      case AlarmFires =>
    }
  }
}

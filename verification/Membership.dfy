/** SWIM-style membership and the ring that follows it (internal/cluster/member.go, and the updateRing
    closure of internal/cluster/cluster.go). */
module Membership {
  import opened Base
  import opened RingWalks
  import opened HashRings
  import opened MemberCodec

  const ALIVE: int32 := 1
  const SUSPECT: int32 := 2
  const DEAD: int32 := 3
  const SECOND: int := 1000000000

  type Members = map<Text, NodeInfo>

  /** The node itself, its timeouts, and the readings of its clock in the order they are taken. */
  datatype Config = Config(self: Text, address: Text, failureTimeout: nat, suspectTimeout: nat, clk: nat -> int64)

  /** Each reading is later than the one before, and the first is after the epoch. */
  ghost predicate Ticking(c: Config) {
    c.clk(0) > 0 && forall i: nat, j: nat :: i < j ==> c.clk(i) < c.clk(j)
  }

  /** The member table, the ring's version and node set, and how many clock readings have been taken. */
  datatype State = State(members: Members, ringVersion: int, ringNodes: set<Text>, tick: nat)

  function AliveSet(m: Members): set<Text> {
    set k | k in m && m[k].state == ALIVE
  }

  function Now(c: Config, s: State): int64 {
    c.clk(s.tick)
  }

  function Tick(s: State): State {
    s.(tick := s.tick + 1)
  }

  // ---------------------------------------------------------------- the steps

  /** The membership-change callback: the ring gets the alive nodes, unless there are none. */
  function UpdateRing(c: Config, s: State): State {
    if AliveSet(s.members) == {} then s
    else if Now(c, s) > s.ringVersion then Tick(s).(ringVersion := Now(c, s), ringNodes := AliveSet(s.members))
    else Tick(s)
  }

  function SetNode(s: State, info: NodeInfo): State {
    s.(members := s.members[info.nodeID := info])
  }

  function UpdateNode(c: Config, s: State, id: Text, address: Text, inc: int64, state: int32): State {
    if address == [] then s else
      var now, t := Now(c, s), Tick(s);
      var info := NodeInfo(id, address, state, inc, now);
      if id !in s.members then UpdateRing(c, SetNode(t, info))
      else if inc < s.members[id].incarnation then t
      else if s.members[id].state == state && s.members[id].address == address && s.members[id].incarnation == inc then
        if now - s.members[id].lastActive as int > SECOND then SetNode(t, info) else t
      else UpdateRing(c, SetNode(t, info))
  }

  /** Moves a known node to a state unless it is there already. */
  function MarkAs(c: Config, s: State, id: Text, state: int32): State {
    if id !in s.members || s.members[id].state == state then s
    else UpdateRing(c, s.(members := s.members[id := s.members[id].(state := state)]))
  }

  function UpdateLastActive(c: Config, s: State, id: Text): State {
    if id == [] || id !in s.members || s.members[id].state != ALIVE then s
    else if Now(c, s) - s.members[id].lastActive as int < SECOND then Tick(s)
    else Tick(s).(members := s.members[id := s.members[id].(lastActive := Now(c, s))])
  }

  /** The node has been silent for longer than the failure timeout. */
  predicate TimedOut(c: Config, now: int64, info: NodeInfo) {
    now - info.lastActive as int > c.failureTimeout
  }

  /** One node's turn in a ping pass; sent says whether a ping to it would go out. */
  function PingOne(c: Config, s: State, id: Text, sent: bool): State {
    if id !in s.members || id == c.self || s.members[id].state == DEAD then s else
      var t := Tick(s);
      if TimedOut(c, Now(c, s), s.members[id]) then
        MarkAs(c, t, id, if s.members[id].state == SUSPECT then DEAD else SUSPECT)
      else if s.members[id].state == SUSPECT || !sent then t
      else UpdateLastActive(c, t, id)
  }

  /** A ping pass over the members in some order. */
  function DoPing(c: Config, s: State, order: seq<Text>, sent: Text -> bool): State {
    if order == [] then s
    else PingOne(c, DoPing(c, s, order[..|order| - 1], sent), order[|order| - 1], sent(order[|order| - 1]))
  }

  function KnownAddress(s: State, id: Text): Text {
    if id in s.members then s.members[id].address else []
  }

  function SyncOne(c: Config, s: State, m: NodeInfo): State {
    if m.nodeID == c.self || !GoodAddress(m.address) then s
    else UpdateNode(c, s, m.nodeID, m.address, m.incarnation, m.state)
  }

  function SyncAll(c: Config, s: State, ms: seq<NodeInfo>): State {
    if ms == [] then s else SyncOne(c, SyncAll(c, s, ms[..|ms| - 1]), ms[|ms| - 1])
  }

  /** Everything that can happen to the table.  A ping, an ack and a forwarded ack are contacts: they say
      that a known node is alive. */
  datatype Event =
    | Contact(id: Text, inc: int64)
    | ConnectFrom(id: Text, address: Text, inc: int64)
    | LeaveFrom(id: Text, inc: int64)
    | SyncFrom(members: seq<NodeInfo>)
    | PingPass(order: seq<Text>, sent: Text -> bool)
    | SuspectTimer(id: Text)
    | LeaveSelf

  function Step(c: Config, s: State, e: Event): State {
    match e
    case Contact(id, inc) => UpdateNode(c, s, id, KnownAddress(s, id), inc, ALIVE)
    case ConnectFrom(id, address, inc) => if |address| < 3 then s else UpdateNode(c, s, id, address, inc, ALIVE)
    case LeaveFrom(id, inc) => UpdateNode(c, s, id, [], inc, DEAD)
    case SyncFrom(ms) => SyncAll(c, s, ms)
    case PingPass(order, sent) => DoPing(c, s, order, sent)
    case SuspectTimer(id) =>
      if id !in s.members || s.members[id].state != SUSPECT then s
      else if Now(c, s) - s.members[id].lastActive as int > c.suspectTimeout then MarkAs(c, Tick(s), id, DEAD)
      else Tick(s)
    case LeaveSelf => MarkAs(c, s, c.self, DEAD)
  }

  function Run(c: Config, s: State, es: seq<Event>): State {
    if es == [] then s else Step(c, Run(c, s, es[..|es| - 1]), es[|es| - 1])
  }

  /** A manager starts knowing itself, with the ring set to itself. */
  function Init(c: Config): State {
    UpdateRing(c, State(map[c.self := NodeInfo(c.self, c.address, ALIVE, 0, c.clk(0))], 0, {}, 1))
  }

  // ---------------------------------------------------------------- what every step keeps

  /** Entries are filed under their own name, no recorded time lies in the future, the ring's version is
      behind the clock, and the ring's nodes are the alive ones whenever there are any. */
  ghost predicate Inv(c: Config, s: State) {
    && (forall k :: k in s.members ==> s.members[k].nodeID == k && s.members[k].lastActive < Now(c, s))
    && s.ringVersion < Now(c, s)
    && (AliveSet(s.members) != {} ==> s.ringNodes == AliveSet(s.members))
  }

  /** No member is forgotten, and no recorded incarnation or activity time goes back. */
  ghost predicate Grows(s: State, s': State) {
    && s.tick <= s'.tick
    && forall k :: k in s.members ==>
         && k in s'.members
         && s.members[k].incarnation <= s'.members[k].incarnation
         && s.members[k].lastActive <= s'.members[k].lastActive
  }

  lemma GrowsTrans(a: State, b: State, d: State)
    requires Grows(a, b) && Grows(b, d)
    ensures Grows(a, d)
  {
  }

  /** The entries are in order, whatever the ring. */
  ghost predicate TableOk(c: Config, s: State) {
    && (forall k :: k in s.members ==> s.members[k].nodeID == k && s.members[k].lastActive < Now(c, s))
    && s.ringVersion < Now(c, s)
  }

  lemma TickOk(c: Config, s: State)
    requires Ticking(c) && TableOk(c, s)
    ensures TableOk(c, Tick(s))
  {
    assert c.clk(s.tick) < c.clk(s.tick + 1);
  }

  /** The callback brings ring and table together. */
  lemma UpdateRingInv(c: Config, s: State)
    requires Ticking(c) && TableOk(c, s)
    ensures Inv(c, UpdateRing(c, s)) && UpdateRing(c, s).members == s.members && s.tick <= UpdateRing(c, s).tick
  {
    assert c.clk(s.tick) < c.clk(s.tick + 1);
  }

  lemma QuietInv(c: Config, s: State, s': State)
    requires Ticking(c) && Inv(c, s) && TableOk(c, s') && AliveSet(s'.members) == AliveSet(s.members)
    requires s'.ringNodes == s.ringNodes
    ensures Inv(c, s')
  {
  }

  /** An entry written at the reading just taken. */
  lemma SetNodeOk(c: Config, s: State, info: NodeInfo)
    requires Ticking(c) && TableOk(c, s) && info.lastActive == Now(c, s)
    requires info.nodeID in s.members ==> s.members[info.nodeID].incarnation <= info.incarnation
    ensures TableOk(c, SetNode(Tick(s), info)) && Grows(s, SetNode(Tick(s), info))
  {
    assert c.clk(s.tick) < c.clk(s.tick + 1);
  }

  lemma UpdateNodeInv(c: Config, s: State, id: Text, address: Text, inc: int64, state: int32)
    requires Ticking(c) && Inv(c, s)
    ensures Inv(c, UpdateNode(c, s, id, address, inc, state)) && Grows(s, UpdateNode(c, s, id, address, inc, state))
  {
    if address == [] {
      return;
    }
    TickOk(c, s);
    var info := NodeInfo(id, address, state, inc, Now(c, s));
    if id in s.members && inc < s.members[id].incarnation {
      QuietInv(c, s, Tick(s));
    } else {
      var t := SetNode(Tick(s), info);
      SetNodeOk(c, s, info);
      UpdateRingInv(c, t);
      if id in s.members && s.members[id].state == state {
        assert AliveSet(t.members) == AliveSet(s.members);
        QuietInv(c, s, t);
        QuietInv(c, s, Tick(s));
      }
    }
  }

  lemma MarkAsInv(c: Config, s: State, id: Text, state: int32)
    requires Ticking(c) && Inv(c, s)
    ensures Inv(c, MarkAs(c, s, id, state)) && Grows(s, MarkAs(c, s, id, state))
  {
    if id in s.members && s.members[id].state != state {
      UpdateRingInv(c, s.(members := s.members[id := s.members[id].(state := state)]));
    }
  }

  lemma UpdateLastActiveInv(c: Config, s: State, id: Text)
    requires Ticking(c) && Inv(c, s)
    ensures Inv(c, UpdateLastActive(c, s, id)) && Grows(s, UpdateLastActive(c, s, id))
  {
    TickOk(c, s);
    var s' := UpdateLastActive(c, s, id);
    assert AliveSet(s'.members) == AliveSet(s.members);
  }

  lemma PingOneInv(c: Config, s: State, id: Text, sent: bool)
    requires Ticking(c) && Inv(c, s)
    ensures Inv(c, PingOne(c, s, id, sent)) && Grows(s, PingOne(c, s, id, sent))
  {
    var t := Tick(s);
    TickOk(c, s);
    QuietInv(c, s, t);
    if id in s.members {
      MarkAsInv(c, t, id, if s.members[id].state == SUSPECT then DEAD else SUSPECT);
      UpdateLastActiveInv(c, t, id);
    }
  }

  lemma {:induction false} DoPingInv(c: Config, s: State, order: seq<Text>, sent: Text -> bool)
    requires Ticking(c) && Inv(c, s)
    ensures Inv(c, DoPing(c, s, order, sent)) && Grows(s, DoPing(c, s, order, sent))
  {
    if order != [] {
      var p, id := order[..|order| - 1], order[|order| - 1];
      DoPingInv(c, s, p, sent);
      PingOneInv(c, DoPing(c, s, p, sent), id, sent(id));
      GrowsTrans(s, DoPing(c, s, p, sent), DoPing(c, s, order, sent));
    }
  }

  lemma {:induction false} SyncAllInv(c: Config, s: State, ms: seq<NodeInfo>)
    requires Ticking(c) && Inv(c, s)
    ensures Inv(c, SyncAll(c, s, ms)) && Grows(s, SyncAll(c, s, ms))
  {
    if ms != [] {
      var p, m := ms[..|ms| - 1], ms[|ms| - 1];
      SyncAllInv(c, s, p);
      UpdateNodeInv(c, SyncAll(c, s, p), m.nodeID, m.address, m.incarnation, m.state);
      GrowsTrans(s, SyncAll(c, s, p), SyncAll(c, s, ms));
    }
  }

  lemma StepInv(c: Config, s: State, e: Event)
    requires Ticking(c) && Inv(c, s)
    ensures Inv(c, Step(c, s, e)) && Grows(s, Step(c, s, e))
  {
    match e
    case Contact(id, inc) => UpdateNodeInv(c, s, id, KnownAddress(s, id), inc, ALIVE);
    case ConnectFrom(id, address, inc) => UpdateNodeInv(c, s, id, address, inc, ALIVE);
    case LeaveFrom(id, inc) => UpdateNodeInv(c, s, id, [], inc, DEAD);
    case SyncFrom(ms) => SyncAllInv(c, s, ms);
    case PingPass(order, sent) => DoPingInv(c, s, order, sent);
    case SuspectTimer(id) =>
      TickOk(c, s);
      QuietInv(c, s, Tick(s));
      MarkAsInv(c, Tick(s), id, DEAD);
    case LeaveSelf => MarkAsInv(c, s, c.self, DEAD);
  }

  lemma {:induction false} RunInv(c: Config, s: State, es: seq<Event>)
    requires Ticking(c) && Inv(c, s)
    ensures Inv(c, Run(c, s, es)) && Grows(s, Run(c, s, es))
  {
    if es != [] {
      var p := es[..|es| - 1];
      RunInv(c, s, p);
      StepInv(c, Run(c, s, p), es[|es| - 1]);
      GrowsTrans(s, Run(c, s, p), Run(c, s, es));
    }
  }

  /** The ring follows membership: over every run from the start, the ring's nodes are exactly the alive
      members whenever any is alive, no member is ever forgotten, and no incarnation goes back. */
  lemma RingFollowsMembership(c: Config, es: seq<Event>, more: seq<Event>)
    requires Ticking(c)
    ensures var s := Run(c, Init(c), es);
            && ((exists k :: k in s.members && s.members[k].state == 1) ==>
                  forall k :: k in s.ringNodes <==> k in s.members && s.members[k].state == 1)
            && Grows(s, Run(c, s, more))
  {
    assert c.clk(0) < c.clk(1);
    UpdateRingInv(c, State(map[c.self := NodeInfo(c.self, c.address, ALIVE, 0, c.clk(0))], 0, {}, 1));
    RunInv(c, Init(c), es);
    RunInv(c, Run(c, Init(c), es), more);
    forall k | k in Run(c, Init(c), es).members && Run(c, Init(c), es).members[k].state == ALIVE
      ensures k in AliveSet(Run(c, Init(c), es).members)
    {
    }
  }

  // ---------------------------------------------------------------- what is recorded

  /** The entry says what was reported of the node. */
  predicate Records(m: Members, id: Text, address: Text, inc: int64, state: int32) {
    id in m && m[id].nodeID == id && m[id].address == address && m[id].incarnation == inc && m[id].state == state
  }

  /** Nothing but the entry of one node differs. */
  predicate OnlyTouches(m: Members, m': Members, id: Text) {
    m'.Keys <= m.Keys + {id} && forall k :: k in m && k != id ==> k in m' && m'[k] == m[k]
  }

  /** Whatever is reported with an address and not below the recorded incarnation is recorded as it is, for a new node
      and a known one alike; anything else leaves the table alone. */
  lemma ReportIsRecorded(c: Config, s: State, id: Text, address: Text, inc: int64, state: int32)
    requires id in s.members ==> s.members[id].nodeID == id
    ensures var m' := UpdateNode(c, s, id, address, inc, state).members;
            if address == [] || (id in s.members && inc < s.members[id].incarnation) then m' == s.members
            else Records(m', id, address, inc, state) && OnlyTouches(s.members, m', id)
  {
  }

  /** A node that connects is alive in the table at its address and on the ring; an address shorter than three bytes
      is refused. */
  lemma ConnectJoins(c: Config, s: State, id: Text, address: Text, inc: int64)
    requires Ticking(c) && Inv(c, s) && (id in s.members ==> s.members[id].incarnation <= inc)
    ensures var t := Step(c, s, ConnectFrom(id, address, inc));
            if |address| < 3 then t == s
            else Records(t.members, id, address, inc, 1) && OnlyTouches(s.members, t.members, id) && id in t.ringNodes
  {
    hide UpdateNode, Inv;
    if |address| >= 3 {
      FiledUnderItself(c, s, id);
      ReportIsRecorded(c, s, id, address, inc, ALIVE);
      UpdateNodeInv(c, s, id, address, inc, ALIVE);
      AliveOnRing(c, UpdateNode(c, s, id, address, inc, ALIVE), id);
    }
  }

  /** A ping or an ack from a known node, whatever was thought of it, makes it alive again and puts it on the ring; from
      an unknown node it changes nothing. */
  lemma ContactRevives(c: Config, s: State, id: Text, inc: int64)
    requires Ticking(c) && Inv(c, s)
    requires id in s.members ==> s.members[id].address != [] && s.members[id].incarnation <= inc
    ensures var t := Step(c, s, Contact(id, inc));
            if id !in s.members then t == s
            else && Records(t.members, id, s.members[id].address, inc, 1)
                 && OnlyTouches(s.members, t.members, id) && id in t.ringNodes
  {
    hide Inv;
    if id in s.members {
      var address := s.members[id].address;
      FiledUnderItself(c, s, id);
      ReportIsRecorded(c, s, id, address, inc, ALIVE);
      UpdateNodeInv(c, s, id, address, inc, ALIVE);
      AliveOnRing(c, UpdateNode(c, s, id, address, inc, ALIVE), id);
    }
  }

  lemma FiledUnderItself(c: Config, s: State, id: Text)
    requires Inv(c, s)
    ensures id in s.members ==> s.members[id].nodeID == id
  {
  }

  lemma AliveOnRing(c: Config, s: State, id: Text)
    requires Inv(c, s) && id in s.members && s.members[id].state == ALIVE
    ensures id in s.ringNodes
  {
    InAliveSet(s.members, id);
  }

  /** This entry of a member list is the one that counts for its node: no other has a higher incarnation, and no later
      one the same. */
  ghost predicate Decides(ms: seq<NodeInfo>, i: nat) {
    && i < |ms|
    && (forall j :: 0 <= j < i && ms[j].nodeID == ms[i].nodeID ==> ms[j].incarnation <= ms[i].incarnation)
    && (forall j :: i < j < |ms| && ms[j].nodeID == ms[i].nodeID ==> ms[j].incarnation < ms[i].incarnation)
  }

  /** A member list leaves a node as the entry that counts for it says, unless something newer was known. */
  lemma {:induction false} ListIsRecorded(c: Config, s: State, ms: seq<NodeInfo>, i: nat)
    requires Ticking(c) && Inv(c, s) && Decides(ms, i) && ms[i].nodeID != c.self && GoodAddress(ms[i].address)
    requires ms[i].nodeID in s.members ==> s.members[ms[i].nodeID].incarnation <= ms[i].incarnation
    ensures var m := ms[i]; Records(SyncAll(c, s, ms).members, m.nodeID, m.address, m.incarnation, m.state)
    decreases |ms|
  {
    hide Inv, UpdateNode;
    var n := |ms| - 1;
    var p, last := ms[..n], ms[n];
    var t := SyncAll(c, s, p);
    SyncAllInv(c, s, p);
    FiledUnderItself(c, t, last.nodeID);
    if i == n {
      NoNewer(c, s, p, last.nodeID, last.incarnation);
    } else {
      ListIsRecorded(c, s, p, i);
    }
    ReportIsRecorded(c, t, last.nodeID, last.address, last.incarnation, last.state);
  }

  /** A member list never touches the receiver's own entry, nor one it names only with addresses shorter than three
      bytes or beginning with a zero. */
  lemma {:induction false} ListLeavesAlone(c: Config, s: State, ms: seq<NodeInfo>, id: Text)
    requires forall j :: 0 <= j < |ms| && ms[j].nodeID == id ==>
                           id == c.self || |ms[j].address| < 3 || ms[j].address[0] == 0
    ensures var t := SyncAll(c, s, ms);
            (id in t.members <==> id in s.members) && (id in s.members ==> t.members[id] == s.members[id])
  {
    if ms != [] {
      ListLeavesAlone(c, s, ms[..|ms| - 1], id);
    }
  }

  /** A member list brings no incarnation of a node beyond those it names. */
  lemma {:induction false} NoNewer(c: Config, s: State, ms: seq<NodeInfo>, id: Text, top: int64)
    requires id in s.members ==> s.members[id].incarnation <= top
    requires forall j :: 0 <= j < |ms| && ms[j].nodeID == id ==> ms[j].incarnation <= top
    ensures id in SyncAll(c, s, ms).members ==> SyncAll(c, s, ms).members[id].incarnation <= top
  {
    if ms != [] {
      NoNewer(c, s, ms[..|ms| - 1], id, top);
    }
  }

  /** A manager starts with itself alive in the table and alone on the ring. */
  lemma StartsAlone(c: Config)
    requires Ticking(c)
    ensures Init(c).members == map[c.self := NodeInfo(c.self, c.address, 1, 0, c.clk(0))] && Init(c).ringNodes == {c.self}
  {
    assert c.clk(0) < c.clk(1);
    assert AliveSet(map[c.self := NodeInfo(c.self, c.address, ALIVE, 0, c.clk(0))]) == {c.self};
  }

  /** A node that leaves is dead in its own table, and off its ring exactly when another node is alive. */
  lemma LeaveSelfMarksDead(c: Config, s: State)
    requires Ticking(c) && Inv(c, s) && c.self in s.members
    ensures var t, others := Step(c, s, LeaveSelf), AliveSet(s.members) - {c.self};
            && t.members == s.members[c.self := s.members[c.self].(state := 3)]
            && t.ringNodes == if others == {} then s.ringNodes else others
  {
    var t := Step(c, s, LeaveSelf);
    StepInv(c, s, LeaveSelf);
    assert AliveSet(t.members) == AliveSet(s.members) - {c.self};
  }

  // ---------------------------------------------------------------- the failure detector

  /** What a turn of a pass does to the state of a member: it moves exactly when it is another node, not
      dead, and silent for longer than the failure timeout - to dead if already suspected, else to suspect. */
  lemma TurnMovesExactly(c: Config, s: State, id: Text, sent: bool)
    requires id in s.members
    ensures var s' := PingOne(c, s, id, sent);
            && id in s'.members
            && (s'.members[id].state != s.members[id].state <==>
                  id != c.self && s.members[id].state != DEAD && TimedOut(c, Now(c, s), s.members[id]))
            && (s'.members[id].state != s.members[id].state ==>
                  s'.members[id].state == if s.members[id].state == SUSPECT then DEAD else SUSPECT)
  {
  }

  /** A turn leaves the other members alone. */
  lemma TurnIsLocal(c: Config, s: State, id: Text, sent: bool, k: Text)
    requires k in s.members && k != id
    ensures k in PingOne(c, s, id, sent).members && PingOne(c, s, id, sent).members[k] == s.members[k]
  {
  }

  lemma {:induction false} UnvisitedUnchanged(c: Config, s: State, order: seq<Text>, sent: Text -> bool, k: Text)
    requires k in s.members && k !in order
    ensures k in DoPing(c, s, order, sent).members && DoPing(c, s, order, sent).members[k] == s.members[k]
  {
    if order != [] {
      var p := order[..|order| - 1];
      assert order == p + [order[|order| - 1]];
      UnvisitedUnchanged(c, s, p, sent, k);
      TurnIsLocal(c, DoPing(c, s, p, sent), order[|order| - 1], sent(order[|order| - 1]), k);
    }
  }

  /** A move a single pass may make. */
  predicate OneMove(from: int32, to: int32) {
    to == from || (from == SUSPECT && to == DEAD) || (from != SUSPECT && from != DEAD && to == SUSPECT)
  }

  /** In one pass, which visits each member at most once, every member makes at most one move: nobody goes
      from alive to dead. */
  lemma {:induction false} OneMovePerPass(c: Config, s: State, order: seq<Text>, sent: Text -> bool, k: Text)
    requires NoDup(order) && k in s.members
    ensures k in DoPing(c, s, order, sent).members
    ensures OneMove(s.members[k].state, DoPing(c, s, order, sent).members[k].state)
  {
    if order != [] {
      var p, id := order[..|order| - 1], order[|order| - 1];
      var t := DoPing(c, s, p, sent);
      if k == id {
        assert k !in p;
        UnvisitedUnchanged(c, s, p, sent, k);
        TurnMovesExactly(c, t, id, sent(id));
      } else {
        OneMovePerPass(c, s, p, sent, k);
        TurnIsLocal(c, t, id, sent(id), k);
      }
    }
  }

  /** A contact that is not stale leaves a record no older than one second. */
  lemma ContactRecorded(c: Config, s: State, id: Text, address: Text, inc: int64, state: int32)
    requires Ticking(c) && Inv(c, s) && address != []
    requires id in s.members ==> inc >= s.members[id].incarnation
    ensures var s' := UpdateNode(c, s, id, address, inc, state);
            id in s'.members && Now(c, s) - s'.members[id].lastActive as int <= SECOND
  {
  }

  /** All clock readings taken on the way from one state to a later one are at most limit. */
  ghost predicate ReadUpTo(c: Config, s: State, s': State, limit: int) {
    forall i :: s.tick <= i < s'.tick ==> c.clk(i) <= limit
  }

  /** A turn at which the node has not timed out does not move it. */
  lemma TurnKeepsRecent(c: Config, t: State, id: Text, sent: bool, limit: int)
    requires id in t.members && limit <= t.members[id].lastActive + c.failureTimeout
    requires ReadUpTo(c, t, PingOne(c, t, id, sent), limit)
    ensures id in PingOne(c, t, id, sent).members && PingOne(c, t, id, sent).members[id].state == t.members[id].state
  {
    TurnMovesExactly(c, t, id, sent);
    if id != c.self && t.members[id].state != DEAD {
      TurnReads(c, t, id, sent);
    }
  }

  lemma TurnReads(c: Config, t: State, id: Text, sent: bool)
    requires id in t.members && id != c.self && t.members[id].state != DEAD
    ensures PingOne(c, t, id, sent).tick > t.tick
  {
  }

  lemma {:induction false} PassKeepsRecent(c: Config, s: State, order: seq<Text>, sent: Text -> bool, k: Text, limit: int)
    requires Ticking(c) && Inv(c, s) && NoDup(order) && k in s.members
    requires limit <= s.members[k].lastActive + c.failureTimeout
    requires ReadUpTo(c, s, DoPing(c, s, order, sent), limit)
    ensures k in DoPing(c, s, order, sent).members
    ensures DoPing(c, s, order, sent).members[k].state == s.members[k].state
  {
    if order != [] {
      var p, id := order[..|order| - 1], order[|order| - 1];
      var t := DoPing(c, s, p, sent);
      DoPingInv(c, s, p, sent);
      PingOneInv(c, t, id, sent(id));
      if k == id {
        assert k !in p;
        UnvisitedUnchanged(c, s, p, sent, k);
        TurnKeepsRecent(c, t, id, sent(id), limit);
      } else {
        TurnIsLocal(c, t, id, sent(id), k);
        PassKeepsRecent(c, s, p, sent, k, limit);
      }
    }
  }

  /** Failure-detector accuracy.  After a contact from a node is accepted, and whatever happens then, a ping
      pass whose clock readings stay within the failure timeout less one second of the contact does not
      change the state of that node. */
  lemma DetectorAccuracy(c: Config, s: State, id: Text, address: Text, inc: int64, state: int32,
                         es: seq<Event>, order: seq<Text>, sent: Text -> bool)
    requires Ticking(c) && Inv(c, s) && address != [] && NoDup(order)
    requires id in s.members ==> inc >= s.members[id].incarnation
    requires var after := Run(c, UpdateNode(c, s, id, address, inc, state), es);
             ReadUpTo(c, after, DoPing(c, after, order, sent), Now(c, s) + c.failureTimeout - SECOND)
    ensures var after := Run(c, UpdateNode(c, s, id, address, inc, state), es);
            var done := DoPing(c, after, order, sent);
            id in after.members && id in done.members && done.members[id].state == after.members[id].state
  {
    var s1 := UpdateNode(c, s, id, address, inc, state);
    ContactRecorded(c, s, id, address, inc, state);
    UpdateNodeInv(c, s, id, address, inc, state);
    RunInv(c, s1, es);
    PassKeepsRecent(c, Run(c, s1, es), order, sent, id, Now(c, s) + c.failureTimeout - SECOND);
  }

  /** The second of slack is real: a contact one second after the last record is not recorded, and one
      nanosecond past the bound the node is suspected. */
  lemma BoundIsTight(c: Config, s: State, id: Text, sent: bool)
    requires id in s.members && id != c.self && s.members[id].state == ALIVE && s.members[id].address != []
    requires Now(c, s) == s.members[id].lastActive + SECOND
    requires c.clk(s.tick + 1) == Now(c, s) + c.failureTimeout - SECOND + 1
    ensures var s1 := Step(c, s, Contact(id, s.members[id].incarnation));
            id in PingOne(c, s1, id, sent).members && PingOne(c, s1, id, sent).members[id].state == SUSPECT
  {
  }

  /** The delayed callback kills exactly a node that is still suspected and has been silent for longer than
      the suspect timeout. */
  lemma TimerKillsExactly(c: Config, s: State, id: Text)
    requires id in s.members && s.members[id].state != DEAD
    ensures var s' := Step(c, s, SuspectTimer(id));
            && id in s'.members
            && (s'.members[id].state == DEAD <==>
                  s.members[id].state == SUSPECT && Now(c, s) - s.members[id].lastActive as int > c.suspectTimeout)
  {
  }

  /** A leave message changes nothing at all. */
  lemma LeaveIsIgnored(c: Config, s: State, id: Text, inc: int64)
    ensures Step(c, s, LeaveFrom(id, inc)) == s
  {
  }

  /** Of two messages with the same incarnation the later one decides: a suspected node can be revived and
      an alive one suspected without either knowing anything newer. */
  lemma SameIncarnationFlips(c: Config, s: State, m: NodeInfo)
    requires m.nodeID in s.members && m.nodeID != c.self && GoodAddress(m.address) && s.members[m.nodeID].incarnation == m.incarnation
    ensures Step(c, s, SyncFrom([m])).members[m.nodeID].state == m.state
  {
    assert [m][..0] == [];
    assert SyncAll(c, s, []) == s;
  }

  // ---------------------------------------------------------------- how a node dies

  /** The event says outright that the node is dead: a member list does, or it is this node leaving. */
  predicate Claims(c: Config, e: Event, id: Text) {
    match e
    case SyncFrom(ms) => NodeInfoDead(ms, id)
    case LeaveSelf => id == c.self
    case _ => false
  }

  predicate NodeInfoDead(ms: seq<NodeInfo>, id: Text) {
    exists i :: 0 <= i < |ms| && ms[i].nodeID == id && ms[i].state == DEAD
  }

  /** Passes visit each member at most once. */
  ghost predicate Orderly(e: Event) {
    e.PingPass? ==> NoDup(e.order)
  }

  lemma UpdateNodeState(c: Config, s: State, x: Text, address: Text, inc: int64, state: int32, id: Text)
    requires id in s.members
    ensures var t := UpdateNode(c, s, x, address, inc, state);
            id in t.members && (t.members[id].state == s.members[id].state || (x == id && t.members[id].state == state))
  {
  }

  lemma {:induction false} SyncNotDead(c: Config, s: State, ms: seq<NodeInfo>, id: Text)
    requires id in s.members && s.members[id].state != DEAD && !NodeInfoDead(ms, id)
    ensures id in SyncAll(c, s, ms).members && SyncAll(c, s, ms).members[id].state != DEAD
  {
    if ms != [] {
      var p, m := ms[..|ms| - 1], ms[|ms| - 1];
      assert !NodeInfoDead(p, id) by {
        forall i | 0 <= i < |p| ensures p[i] == ms[i] {
        }
      }
      SyncNotDead(c, s, p, id);
      UpdateNodeState(c, SyncAll(c, s, p), m.nodeID, m.address, m.incarnation, m.state, id);
    }
  }

  /** One event does not kill a node that is not suspected, unless it says outright that it is dead. */
  lemma NoSuddenDeath(c: Config, s: State, e: Event, id: Text)
    requires id in s.members && s.members[id].state != DEAD && s.members[id].state != SUSPECT
    requires Orderly(e) && !Claims(c, e, id)
    ensures id in Step(c, s, e).members && Step(c, s, e).members[id].state != DEAD
  {
    match e
    case Contact(x, inc) => UpdateNodeState(c, s, x, KnownAddress(s, x), inc, ALIVE, id);
    case ConnectFrom(x, address, inc) => UpdateNodeState(c, s, x, address, inc, ALIVE, id);
    case LeaveFrom(x, inc) =>
    case SyncFrom(ms) => SyncNotDead(c, s, ms, id);
    case PingPass(order, sent) => OneMovePerPass(c, s, order, sent, id);
    case SuspectTimer(x) =>
    case LeaveSelf =>
  }

  /** Over every run: a node that was alive and is dead was suspected in between, unless some event said outright
      that it is dead. */
  lemma {:induction false} DeathNeedsSuspicion(c: Config, s: State, es: seq<Event>, id: Text) returns (n: nat)
    requires Ticking(c) && Inv(c, s) && id in s.members && s.members[id].state == ALIVE
    requires forall i :: 0 <= i < |es| ==> Orderly(es[i]) && !Claims(c, es[i], id)
    requires id in Run(c, s, es).members && Run(c, s, es).members[id].state == DEAD
    ensures n < |es| && id in Run(c, s, es[..n]).members && Run(c, s, es[..n]).members[id].state == SUSPECT
    decreases |es|
  {
    var p := es[..|es| - 1];
    RunInv(c, s, p);
    var t := Run(c, s, p);
    n := |es| - 1;
    if t.members[id].state == DEAD {
      n := DeathNeedsSuspicion(c, s, p, id);
      assert p[..n] == es[..n];
    } else if t.members[id].state != SUSPECT {
      NoSuddenDeath(c, t, es[|es| - 1], id);
    }
  }

  // ---------------------------------------------------------------- what the detector cannot see

  /** A turn of an alive node to which a ping goes out refreshes its record, whether or not it answers. */
  lemma TurnRefreshes(c: Config, s: State, id: Text)
    requires Ticking(c) && id in s.members && id != c.self && id != [] && s.members[id].state == ALIVE
    requires c.clk(s.tick) <= s.members[id].lastActive + c.failureTimeout
    ensures var t := PingOne(c, s, id, true);
            id in t.members && t.members[id].state == ALIVE && t.members[id].lastActive > c.clk(s.tick) - SECOND
  {
    assert c.clk(s.tick) < c.clk(s.tick + 1);
  }

  lemma {:induction false} PassRefreshes(c: Config, s: State, order: seq<Text>, sent: Text -> bool, id: Text)
    requires Ticking(c) && Inv(c, s) && NoDup(order) && id in order && sent(id)
    requires id in s.members && id != c.self && id != [] && s.members[id].state == ALIVE
    requires ReadUpTo(c, s, DoPing(c, s, order, sent), s.members[id].lastActive + c.failureTimeout)
    ensures var t := DoPing(c, s, order, sent);
            id in t.members && t.members[id].state == ALIVE && t.members[id].lastActive > c.clk(s.tick) - SECOND
  {
    var p, x := order[..|order| - 1], order[|order| - 1];
    var t := DoPing(c, s, p, sent);
    DoPingInv(c, s, p, sent);
    PingOneInv(c, t, x, sent(x));
    if x == id {
      assert id !in p;
      UnvisitedUnchanged(c, s, p, sent, id);
      TurnReads(c, t, id, true);
      TurnRefreshes(c, t, id);
      assert c.clk(s.tick) <= c.clk(t.tick);
    } else {
      assert id in p;
      PassRefreshes(c, s, p, sent, id);
      TurnIsLocal(c, t, x, sent(x), id);
    }
  }

  /** A pass that visits the node, whose ping to it goes out, and whose clock readings are at most limit. */
  ghost predicate Visits(c: Config, s: State, e: Event, id: Text, limit: int) {
    e.PingPass? && NoDup(e.order) && id in e.order && e.sent(id) && ReadUpTo(c, s, Step(c, s, e), limit)
  }

  /** The latest time the n-th pass may read: within the failure timeout less one second of the beginning of the
      pass before; for the first pass, within the failure timeout of the node's record. */
  ghost function Deadline(c: Config, s: State, es: seq<Event>, n: nat, id: Text): int
    requires n < |es|
  {
    if n > 0 then c.clk(Run(c, s, es[..n - 1]).tick) + c.failureTimeout - SECOND
    else if id in s.members then s.members[id].lastActive + c.failureTimeout
    else 0
  }

  ghost predicate PacedAt(c: Config, s: State, es: seq<Event>, n: nat, id: Text) {
    n < |es| && Visits(c, Run(c, s, es[..n]), es[n], id, Deadline(c, s, es, n, id))
  }

  /** Passes that all visit the node and follow each other quickly enough. */
  ghost predicate Paced(c: Config, s: State, es: seq<Event>, id: Text) {
    forall n :: 0 <= n < |es| ==> PacedAt(c, s, es, n, id)
  }

  /** The detector's blind spot: a node that never answers anything stays alive over every run of passes, however
      long, as long as pings to it can be sent and passes follow each other quickly enough. */
  lemma {:induction false} SilentStaysAlive(c: Config, s: State, es: seq<Event>, id: Text)
    requires Ticking(c) && Inv(c, s) && id in s.members && id != c.self && id != [] && s.members[id].state == ALIVE
    requires Paced(c, s, es, id)
    ensures var t := Run(c, s, es); id in t.members && t.members[id].state == ALIVE && id in t.ringNodes
    ensures es != [] ==>
              var t := Run(c, s, es); t.members[id].lastActive > c.clk(Run(c, s, es[..|es| - 1]).tick) - SECOND
  {
    hide Step, Visits;
    RunInv(c, s, es);
    if es != [] {
      var p := es[..|es| - 1];
      PacedPrefix(c, s, es, id);
      SilentStaysAlive(c, s, p, id);
      assert |es| > 1 ==> p[..|p| - 1] == es[..|es| - 2];
      SilentStep(c, s, es, id, Run(c, s, p));
    }
    InAliveSet(Run(c, s, es).members, id);
  }

  lemma SilentStep(c: Config, s: State, es: seq<Event>, id: Text, t: State)
    requires Ticking(c) && Inv(c, s) && es != [] && Paced(c, s, es, id) && id in s.members && id != c.self && id != []
    requires t == Run(c, s, es[..|es| - 1]) && id in t.members && t.members[id].state == ALIVE
    requires |es| == 1 || t.members[id].lastActive > c.clk(Run(c, s, es[..|es| - 2]).tick) - SECOND
    ensures var u := Step(c, t, es[|es| - 1]);
            id in u.members && u.members[id].state == ALIVE && u.members[id].lastActive > c.clk(t.tick) - SECOND
  {
    hide Run, Inv;
    var n := |es| - 1;
    var e := es[n];
    assert PacedAt(c, s, es, n, id);
    FirstPass(c, s, es, id);
    RunInv(c, s, es[..n]);
    ReadLess(c, t, Step(c, t, e), Deadline(c, s, es, n, id), t.members[id].lastActive + c.failureTimeout);
    PassRefreshes(c, t, e.order, e.sent, id);
  }

  lemma FirstPass(c: Config, s: State, es: seq<Event>, id: Text)
    requires es != []
    ensures |es| == 1 ==> Run(c, s, es[..|es| - 1]) == s
  {
  }

  lemma InAliveSet(m: Members, id: Text)
    requires id in m && m[id].state == ALIVE
    ensures id in AliveSet(m)
  {
  }

  lemma ReadLess(c: Config, s: State, s': State, a: int, b: int)
    requires ReadUpTo(c, s, s', a) && a <= b
    ensures ReadUpTo(c, s, s', b)
  {
  }

  lemma PacedPrefix(c: Config, s: State, es: seq<Event>, id: Text)
    requires Paced(c, s, es, id) && es != []
    ensures Paced(c, s, es[..|es| - 1], id)
  {
    hide Run, Step, Visits;
    var p := es[..|es| - 1];
    forall n | 0 <= n < |p| ensures PacedAt(c, s, p, n, id) {
      assert PacedAt(c, s, es, n, id);
      assert p[..n] == es[..n];
      if n > 0 {
        assert p[..n - 1] == es[..n - 1];
      }
    }
  }

  // ---------------------------------------------------------------- when a silent node is found out

  /** The clock reading at which a pass looks at the node. */
  function TurnTick(c: Config, s: State, order: seq<Text>, sent: Text -> bool, id: Text): nat {
    if order == [] then s.tick
    else
      var p, x := order[..|order| - 1], order[|order| - 1];
      if x == id then DoPing(c, s, p, sent).tick else TurnTick(c, s, p, sent, id)
  }

  /** At the node's turn its record is not older than the failure timeout. */
  predicate OnTime(c: Config, s: State, e: Event, id: Text) {
    e.PingPass? && id in s.members && !TimedOut(c, c.clk(TurnTick(c, s, e.order, e.sent, id)), s.members[id])
  }

  /** What a pass makes of a node it visits once: the turn's effect on the node's entry before the pass. */
  lemma {:induction false} PassTurn(c: Config, s: State, order: seq<Text>, sent: Text -> bool, id: Text)
    requires NoDup(order) && id in order && id in s.members && id != c.self && s.members[id].state != DEAD
    ensures var t, late := DoPing(c, s, order, sent), TimedOut(c, c.clk(TurnTick(c, s, order, sent, id)), s.members[id]);
            && id in t.members
            && (late ==> t.members[id] == s.members[id].(state := if s.members[id].state == SUSPECT then DEAD else SUSPECT))
            && (!late ==> t.members[id].state == s.members[id].state)
            && (!late && !sent(id) ==> t.members[id] == s.members[id])
  {
    var p, x := order[..|order| - 1], order[|order| - 1];
    var t := DoPing(c, s, p, sent);
    assert order == p + [x];
    if x == id {
      assert id !in p;
      UnvisitedUnchanged(c, s, p, sent, id);
      TurnEffect(c, t, id, sent(id));
    } else {
      assert id in p;
      PassTurn(c, s, p, sent, id);
      TurnIsLocal(c, t, x, sent(x), id);
    }
  }

  lemma TurnEffect(c: Config, t: State, id: Text, sent: bool)
    requires id in t.members && id != c.self && t.members[id].state != DEAD
    ensures var u, late := PingOne(c, t, id, sent), TimedOut(c, Now(c, t), t.members[id]);
            && id in u.members
            && (late ==> u.members[id] == t.members[id].(state := if t.members[id].state == SUSPECT then DEAD else SUSPECT))
            && (!late ==> u.members[id].state == t.members[id].state)
            && (!late && !sent ==> u.members[id] == t.members[id])
  {
  }

  /** Dead is final in a pass. */
  lemma {:induction false} DeadStaysDead(c: Config, s: State, order: seq<Text>, sent: Text -> bool, id: Text)
    requires id in s.members && s.members[id].state == DEAD
    ensures var t := DoPing(c, s, order, sent); id in t.members && t.members[id] == s.members[id]
  {
    if order != [] {
      DeadStaysDead(c, s, order[..|order| - 1], sent, id);
    }
  }

  /** Passes that each visit the node once. */
  ghost predicate Visiting(es: seq<Event>, id: Text) {
    forall n :: 0 <= n < |es| ==> es[n].PingPass? && NoDup(es[n].order) && id in es[n].order
  }

  lemma VisitingPrefix(es: seq<Event>, id: Text)
    requires Visiting(es, id) && es != []
    ensures Visiting(es[..|es| - 1], id)
  {
  }

  /** Over every run of passes that visit it, a node that was alive is alive at the end if and only if at each of its
      turns its record was not older than the failure timeout. */
  lemma {:induction false} AliveExactly(c: Config, s: State, es: seq<Event>, id: Text)
    requires Visiting(es, id) && id in s.members && id != c.self && s.members[id].state == ALIVE
    ensures id in Run(c, s, es).members
    ensures Run(c, s, es).members[id].state == ALIVE <==>
            forall n :: 0 <= n < |es| ==> OnTime(c, Run(c, s, es[..n]), es[n], id)
  {
    if es != [] {
      var n := |es| - 1;
      var p, e := es[..n], es[n];
      VisitingPrefix(es, id);
      AliveExactly(c, s, p, id);
      PassAlive(c, Run(c, s, p), e, id);
      PrefixOnTime(c, s, es, id);
    }
  }

  /** After a pass a node is alive exactly if it was and its turn came on time. */
  lemma PassAlive(c: Config, s: State, e: Event, id: Text)
    requires e.PingPass? && NoDup(e.order) && id in e.order && id in s.members && id != c.self
    ensures id in Step(c, s, e).members
    ensures Step(c, s, e).members[id].state == ALIVE <==> s.members[id].state == ALIVE && OnTime(c, s, e, id)
  {
    hide DoPing, TurnTick, TimedOut;
    if s.members[id].state == DEAD {
      DeadStaysDead(c, s, e.order, e.sent, id);
    } else {
      PassTurn(c, s, e.order, e.sent, id);
    }
  }

  ghost predicate AllOnTime(c: Config, s: State, es: seq<Event>, id: Text) {
    forall n :: 0 <= n < |es| ==> OnTime(c, Run(c, s, es[..n]), es[n], id)
  }

  lemma PrefixOnTime(c: Config, s: State, es: seq<Event>, id: Text)
    requires es != []
    ensures var n := |es| - 1;
            AllOnTime(c, s, es, id) <==> AllOnTime(c, s, es[..n], id) && OnTime(c, Run(c, s, es[..n]), es[n], id)
  {
    hide Run, OnTime;
    var n := |es| - 1;
    var p := es[..n];
    forall m | 0 <= m < n ensures p[..m] == es[..m] && p[m] == es[m] {
    }
  }

  /** How many passes come too late for the node. */
  function Late(c: Config, s: State, es: seq<Event>, id: Text): nat {
    if es == [] then 0 else
      var p, e := es[..|es| - 1], es[|es| - 1];
      Late(c, s, p, id) + if OnTime(c, Run(c, s, p), e, id) then 0 else 1
  }

  /** What becomes of an alive node that late passes find silent: suspected at the first, dead from the second on. */
  function Fate(late: nat): int32 {
    if late == 0 then ALIVE else if late == 1 then SUSPECT else DEAD
  }

  /** Completeness of the detector, when no ping to the node goes out: over every run of passes that visit it, its
      record stays as it was, it is suspected at the first pass that comes later than the failure timeout after it,
      and dead from the next such pass on. */
  lemma {:induction false} SilentFate(c: Config, s: State, es: seq<Event>, id: Text)
    requires Visiting(es, id) && (forall n :: 0 <= n < |es| ==> !es[n].sent(id))
    requires id in s.members && id != c.self && s.members[id].state == ALIVE
    ensures var t := Run(c, s, es); id in t.members && t.members[id] == s.members[id].(state := Fate(Late(c, s, es, id)))
  {
    if es != [] {
      var p, e := es[..|es| - 1], es[|es| - 1];
      VisitingPrefix(es, id);
      SilentFate(c, s, p, id);
      SilentPass(c, Run(c, s, p), e, id);
    }
  }

  lemma SilentPass(c: Config, s: State, e: Event, id: Text)
    requires e.PingPass? && NoDup(e.order) && id in e.order && !e.sent(id) && id in s.members && id != c.self
    ensures var t := Step(c, s, e);
            && id in t.members
            && (s.members[id].state == DEAD || OnTime(c, s, e, id) ==> t.members[id] == s.members[id])
            && (s.members[id].state != DEAD && !OnTime(c, s, e, id) ==>
                  t.members[id] == s.members[id].(state := if s.members[id].state == SUSPECT then DEAD else SUSPECT))
  {
    hide DoPing, TurnTick, TimedOut;
    if s.members[id].state == DEAD {
      DeadStaysDead(c, s, e.order, e.sent, id);
    } else {
      PassTurn(c, s, e.order, e.sent, id);
    }
  }

  lemma {:induction false} TurnNotBefore(c: Config, s: State, order: seq<Text>, sent: Text -> bool, id: Text)
    requires Ticking(c) && Inv(c, s)
    ensures s.tick <= TurnTick(c, s, order, sent, id) <= DoPing(c, s, order, sent).tick
  {
    if order != [] {
      var p := order[..|order| - 1];
      TurnNotBefore(c, s, p, sent, id);
      DoPingInv(c, s, p, sent);
      PingOneInv(c, DoPing(c, s, p, sent), order[|order| - 1], sent(order[|order| - 1]));
    }
  }

  /** On the inputs alone: passes that begin later than the failure timeout after the record all come too late, so two
      of them kill a node to which no ping goes out, and one of them makes it suspect. */
  lemma {:induction false} LatePassesFindOut(c: Config, s: State, es: seq<Event>, id: Text)
    requires Ticking(c) && Inv(c, s) && Visiting(es, id) && (forall n :: 0 <= n < |es| ==> !es[n].sent(id))
    requires id in s.members && id != c.self && s.members[id].state == ALIVE
    requires Now(c, s) > s.members[id].lastActive + c.failureTimeout
    ensures Late(c, s, es, id) == |es|
    ensures var t := Run(c, s, es); id in t.members && t.members[id].state == Fate(|es|)
  {
    SilentFate(c, s, es, id);
    if es != [] {
      var p, e := es[..|es| - 1], es[|es| - 1];
      VisitingPrefix(es, id);
      LatePassesFindOut(c, s, p, id);
      SilentFate(c, s, p, id);
      RunInv(c, s, p);
      TurnNotBefore(c, Run(c, s, p), e.order, e.sent, id);
      assert c.clk(s.tick) <= c.clk(TurnTick(c, Run(c, s, p), e.order, e.sent, id));
    }
  }

  /** A probe forwarded by a proxy says it comes from the proxy but carries the incarnation of the node that asked.
      If that is above the proxy's own and is taken for a contact of the proxy, then whatever happens afterwards, a
      contact of the proxy at its own incarnation changes nothing any more. */
  lemma ForeignIncarnationSticks(c: Config, s: State, proxy: Text, asked: int64, own: int64, es: seq<Event>)
    requires Ticking(c) && Inv(c, s) && own < asked
    requires proxy in s.members && s.members[proxy].address != [] && s.members[proxy].incarnation <= asked
    ensures var t := Run(c, Step(c, s, Contact(proxy, asked)), es);
            var u := Step(c, t, Contact(proxy, own));
            u.members == t.members && u.ringNodes == t.ringNodes && u.ringVersion == t.ringVersion
  {
    var s1 := Step(c, s, Contact(proxy, asked));
    StepInv(c, s, Contact(proxy, asked));
    RunInv(c, s1, es);
  }

  // ---------------------------------------------------------------- the manager

  class MemberMgr {
    const c: Config
    const ring: HashRing
    var members: Members
    var tick: nat

    ghost predicate Valid()
      reads this, ring
    {
      ring.Valid() && forall k :: k in members ==> members[k].nodeID == k
    }

    /** The state the functions above speak of. */
    ghost function Abs(): State
      reads this, ring
    {
      State(members, ring.version, ring.Nodes(), tick)
    }

    constructor (c: Config, ring: HashRing)
      requires ring.Valid() && ring.version == 0 && ring.data == []
      modifies ring
      ensures this.c == c && this.ring == ring && Valid() && Abs() == Init(c)
    {
      this.c, this.ring := c, ring;
      members := map[c.self := NodeInfo(c.self, c.address, ALIVE, 0, c.clk(0))];
      tick := 1;
      new;
      assert Abs() == State(map[c.self := NodeInfo(c.self, c.address, ALIVE, 0, c.clk(0))], 0, {}, 1);
      OnMembershipChange();
    }

    method Clock() returns (now: int64)
      modifies this`tick
      ensures now == c.clk(old(tick)) && tick == old(tick) + 1
    {
      now := c.clk(tick);
      tick := tick + 1;
    }

    /** The updateRing closure: collects the alive members, in whatever order the table yields them. */
    method OnMembershipChange()
      requires Valid()
      modifies this`tick, ring
      ensures Valid() && Abs() == UpdateRing(c, old(Abs()))
    {
      hide BuiltFrom;
      var keys := ListOf(members.Keys);
      var ids: seq<Text> := [];
      for i := 0 to |keys|
        invariant forall k :: k in ids <==> k in keys[..i] && members[k].state == ALIVE
      {
        assert keys[..i + 1] == keys[..i] + [keys[i]];
        var m := members[keys[i]];
        if m.state == ALIVE {
          ids := ids + [m.nodeID];
        }
      }
      assert keys[..|keys|] == keys;
      assert Elems(ids) == AliveSet(members);
      if |ids| > 0 {
        assert ids[0] in Elems(ids);
        var now := Clock();
        var _ := ring.Update(now, ids);
      } else {
        assert Elems(ids) == {};
      }
    }

    method UpdateNodeInfo(id: Text, address: Text, inc: int64, state: int32)
      requires Valid()
      modifies this, ring
      ensures Valid() && Abs() == UpdateNode(c, old(Abs()), id, address, inc, state)
    {
      hide BuiltFrom, UpdateRing;
      if address == [] {
        return;
      }
      var known := id in members;
      var now := Clock();
      var info := NodeInfo(id, address, state, inc, now);
      if !known {
        members := members[id := info];
        OnMembershipChange();
        return;
      }
      var cur := members[id];
      if inc < cur.incarnation {
        return;
      }
      if cur.state == state && cur.address == address && cur.incarnation == inc {
        if now - cur.lastActive as int > SECOND {
          members := members[id := info];
        }
        return;
      }
      members := members[id := info];
      OnMembershipChange();
    }

    /** markSuspect and markDead. */
    method Mark(id: Text, state: int32)
      requires Valid()
      modifies this, ring
      ensures Valid() && Abs() == MarkAs(c, old(Abs()), id, state)
    {
      hide BuiltFrom, UpdateRing;
      if id !in members {
        return;
      }
      var info := members[id];
      if info.state == state {
        return;
      }
      members := members[id := info.(state := state)];
      OnMembershipChange();
    }

    method Refresh(id: Text)
      requires Valid()
      modifies this
      ensures Valid() && Abs() == UpdateLastActive(c, old(Abs()), id)
    {
      hide BuiltFrom;
      if id == [] || id !in members {
        return;
      }
      var info := members[id];
      if info.state != ALIVE {
        return;
      }
      var now := Clock();
      if now - info.lastActive as int < SECOND {
        return;
      }
      members := members[id := info.(lastActive := now)];
    }

    /** One node's turn of a ping pass. */
    method PingTurn(id: Text, sent: bool)
      requires Valid()
      modifies this, ring
      ensures Valid() && Abs() == PingOne(c, old(Abs()), id, sent)
    {
      hide BuiltFrom, MarkAs, UpdateLastActive;
      if id !in members || id == c.self || members[id].state == DEAD {
        return;
      }
      var info := members[id];
      var now := Clock();
      if now - info.lastActive as int > c.failureTimeout {
        Mark(id, if info.state == SUSPECT then DEAD else SUSPECT);
      } else if info.state != SUSPECT && sent {
        Refresh(id);
      }
    }

    /** A ping pass in the order the table yields its keys. */
    method PingAll(order: seq<Text>, sent: Text -> bool)
      requires Valid()
      modifies this, ring
      ensures Valid() && Abs() == DoPing(c, old(Abs()), order, sent)
    {
      hide BuiltFrom, PingOne;
      for i := 0 to |order|
        invariant Valid() && Abs() == DoPing(c, old(Abs()), order[..i], sent)
      {
        assert order[..i + 1][..i] == order[..i];
        PingTurn(order[i], sent(order[i]));
      }
      assert order[..|order|] == order;
    }

    method HandleClusterSync(ms: seq<NodeInfo>)
      requires Valid()
      modifies this, ring
      ensures Valid() && Abs() == SyncAll(c, old(Abs()), ms)
    {
      hide BuiltFrom, UpdateNode;
      for i := 0 to |ms|
        invariant Valid() && Abs() == SyncAll(c, old(Abs()), ms[..i])
      {
        assert ms[..i + 1][..i] == ms[..i];
        var m := ms[i];
        if m.nodeID != c.self && GoodAddress(m.address) {
          UpdateNodeInfo(m.nodeID, m.address, m.incarnation, m.state);
        }
      }
      assert ms[..|ms|] == ms;
    }

    /** Any event, dispatched as the code dispatches messages, passes and timers. */
    method Handle(e: Event)
      requires Valid()
      modifies this, ring
      ensures Valid() && Abs() == Step(c, old(Abs()), e)
    {
      hide BuiltFrom, UpdateNode, MarkAs, DoPing, SyncAll;
      match e {
        case Contact(id, inc) =>
          var address := if id in members then members[id].address else [];
          UpdateNodeInfo(id, address, inc, ALIVE);
        case ConnectFrom(id, address, inc) =>
          if |address| >= 3 {
            UpdateNodeInfo(id, address, inc, ALIVE);
          }
        case LeaveFrom(id, inc) => UpdateNodeInfo(id, [], inc, DEAD);
        case SyncFrom(ms) => HandleClusterSync(ms);
        case PingPass(order, sent) => PingAll(order, sent);
        case SuspectTimer(id) =>
          if id in members && members[id].state == SUSPECT {
            var now := Clock();
            if now - members[id].lastActive as int > c.suspectTimeout {
              Mark(id, DEAD);
            }
          }
        case LeaveSelf => Mark(c.self, DEAD);
      }
    }
  }
}

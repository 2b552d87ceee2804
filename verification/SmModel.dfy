/**
 The session manager's presence tracker and session registry as values: what one
 packet or session event does to the users, their session lists, the directed
 presence lists A and E and the global session map, and what it sends out.
 Users.dfy and SessionManager.dfy prove the imperative code against these functions.
 */
module SmModel {
  import opened Wrappers

  datatype BareJid = BareJid(node: string, domain: string)

  /** An address; the bare form has the empty resource. */
  datatype Jid = Jid(user: BareJid, resource: string)

  function Bare(j: Jid): Jid {
    Jid(j.user, "")
  }

  /** The content of an available presence. */
  datatype Content = Content(pri: int, body: string)

  const SIMPLE := Content(0, "")

  datatype Kind =
    | Available(content: Content) | Unavailable | Probe | Unsubscribed
    | Bounced(probe: bool) | Other

  /** A session id: the hash of start time and full address, taken to be injective. */
  datatype SmId = SmId(time: int, jid: Jid)

  /** `Routed` goes to the router, `Delivered` to the client of a local session. */
  datatype Output =
    | Routed(to: Jid, from: Jid, kind: Kind)
    | Delivered(sess: SmId, from: Jid, kind: Kind)

  datatype Session = Session(
    id: SmId, jid: Jid, A: seq<Jid>, E: seq<Jid>,
    pres: Option<Content>, available: bool, pri: int)

  /** `roster` lists the keys of the roster table in its walk order. */
  datatype User = User(
    jid: BareJid, roster: seq<Jid>, sessions: seq<Session>,
    top: Option<SmId>, available: bool)

  datatype Effect = Effect(user: User, out: seq<Output>)

  // ----- util/jid.c: lists of addresses

  function Append(list: seq<Jid>, j: Jid): seq<Jid> {
    if j in list then list else list + [j]
  }

  /** Remove the first occurrence. */
  function Zap(list: seq<Jid>, j: Jid): seq<Jid> {
    if list == [] then []
    else if list[0] == j then list[1..]
    else [list[0]] + Zap(list[1..], j)
  }

  // ----- sm/pres.c

  predicate Trust(u: User, j: Jid) {
    Bare(j) in u.roster || j in u.roster || u.jid == j.user
  }

  /** The session that the scan of `_pres_top` ends with. */
  function TopSession(sessions: seq<Session>): Option<Session>
    decreases |sessions|
  {
    if sessions == [] then None
    else
      var n := |sessions| - 1;
      var t := TopSession(sessions[..n]);
      if !sessions[n].available || sessions[n].pri < 0 then t
      else if t.None? || sessions[n].pri >= t.value.pri then Some(sessions[n])
      else t
  }

  predicate AnyAvailable(sessions: seq<Session>) {
    exists i :: 0 <= i < |sessions| && sessions[i].available
  }

  function TopOf(sessions: seq<Session>): Option<SmId> {
    match TopSession(sessions)
    case None => None
    case Some(x) => Some(x.id)
  }

  function Retop(u: User): User {
    u.(top := TopOf(u.sessions), available := AnyAvailable(u.sessions))
  }

  /** What the roster walk of an available update sends about one item. */
  function ItemAvailable(s: Session, item: Jid, content: Content): seq<Output> {
    (if s.available then [] else [Routed(item, Bare(s.jid), Probe)])
    + (if item in s.E then [] else [Routed(item, s.jid, Available(content))])
  }

  function RosterAvailable(s: Session, items: seq<Jid>, content: Content): seq<Output>
    decreases |items|
  {
    if items == [] then []
    else
      var n := |items| - 1;
      RosterAvailable(s, items[..n], content) + ItemAvailable(s, items[n], content)
  }

  function RosterUnavailable(s: Session, items: seq<Jid>): seq<Output>
    decreases |items|
  {
    if items == [] then []
    else
      var n := |items| - 1;
      RosterUnavailable(s, items[..n])
      + (if items[n] in s.E then [] else [Routed(items[n], s.jid, Unavailable)])
  }

  /** The walk over A of an unavailable update. */
  function DirectedUnavailable(u: User, s: Session, list: seq<Jid>): seq<Output>
    decreases |list|
  {
    if list == [] then []
    else
      var n := |list| - 1;
      DirectedUnavailable(u, s, list[..n])
      + (if Trust(u, list[n]) then [] else [Routed(list[n], s.jid, Unavailable)])
  }

  /** Forwarding to the user's other available sessions, among the first n. */
  function Siblings(sessions: seq<Session>, n: nat, i: nat, kind: Kind): seq<Output>
    requires i < |sessions| && n <= |sessions|
  {
    if n == 0 then []
    else
      Siblings(sessions, n - 1, i, kind)
      + (if n - 1 != i && sessions[n - 1].available
         then [Routed(sessions[n - 1].jid, sessions[i].jid, kind)] else [])
  }

  function Set(u: User, i: nat, s: Session): User
    requires i < |u.sessions|
  {
    u.(sessions := u.sessions[i := s])
  }

  function SelfProbe(u: User, s: Session): seq<Output> {
    if !s.available && Bare(s.jid) !in u.roster then [Routed(Bare(s.jid), Bare(s.jid), Probe)] else []
  }

  function GoAvailable(u: User, i: nat, content: Content): Effect
    requires i < |u.sessions|
  {
    var s := u.sessions[i];
    Effect(Retop(Set(u, i, s.(pres := Some(content), available := true, pri := content.pri))),
           RosterAvailable(s, u.roster, content) + SelfProbe(u, s)
           + Siblings(u.sessions, |u.sessions|, i, Available(content)))
  }

  function GoUnavailable(u: User, i: nat): Effect
    requires i < |u.sessions|
  {
    var s := u.sessions[i];
    Effect(Retop(Set(u, i, s.(pres := None, A := [], E := [], available := false))),
           RosterUnavailable(s, u.roster) + DirectedUnavailable(u, s, s.A)
           + Siblings(u.sessions, |u.sessions|, i, Unavailable))
  }

  /** How one session takes part in `pres_in`. */
  predicate Hears(s: Session, from: Jid) {
    s.available && from != s.jid
  }

  predicate Answers(s: Session, from: Jid, to: Jid) {
    Hears(s, from) && (to.resource == "" || to == s.jid)
  }

  function HearOne(s: Session, from: Jid, to: Jid, kind: Kind): Session {
    if kind.Probe? && Answers(s, from, to) then s.(E := Zap(s.E, from)) else s
  }

  function ReplyOne(s: Session, from: Jid, to: Jid, kind: Kind): seq<Output> {
    if !Hears(s, from) then []
    else if !kind.Probe? then [Delivered(s.id, from, kind)]
    else if !Answers(s, from, to) then []
    else if to.resource != "" then [Routed(from, to, Available(SIMPLE))]
    else [Routed(from, s.jid, Available(if s.pres.Some? then s.pres.value else SIMPLE))]
  }

  function HearAll(sessions: seq<Session>, from: Jid, to: Jid, kind: Kind): seq<Session> {
    seq(|sessions|, k requires 0 <= k < |sessions| => HearOne(sessions[k], from, to, kind))
  }

  function ReplyAll(sessions: seq<Session>, from: Jid, to: Jid, kind: Kind): seq<Output>
    decreases |sessions|
  {
    if sessions == [] then []
    else
      var n := |sessions| - 1;
      ReplyAll(sessions[..n], from, to, kind) + ReplyOne(sessions[n], from, to, kind)
  }

  /** `pres_in` */
  function In(u: User, from: Jid, to: Jid, kind: Kind): Effect {
    if kind.Probe? && !Trust(u, from) then Effect(u, [Routed(from, to, Unsubscribed)])
    else if kind.Probe? && !u.available then Effect(u, [])
    else Effect(u.(sessions := HearAll(u.sessions, from, to, kind)),
                ReplyAll(u.sessions, from, to, kind))
  }

  /** `pres_update` */
  function Update(u: User, i: nat, kind: Kind): Effect
    requires i < |u.sessions|
  {
    match kind
    case Available(content) => GoAvailable(u, i, content)
    case Unavailable => GoUnavailable(u, i)
    case Probe => In(u, u.sessions[i].jid, Bare(u.sessions[i].jid), Probe)
    case _ => Effect(u, [])
  }

  /** `pres_error` */
  function Bounce(u: User, i: nat, j: Jid): User
    requires i < |u.sessions|
  {
    var s := u.sessions[i];
    Set(u, i, s.(E := Append(s.E, j), A := Zap(s.A, j)))
  }

  /** `pres_deliver`, for an address that could be parsed; the packet goes out under the address it came with. */
  function Deliver(u: User, i: nat, from: Jid, to: Jid, kind: Kind): Effect
    requires i < |u.sessions|
  {
    var s := u.sessions[i];
    if to.user == s.jid.user then In(u, s.jid, to, kind)
    else match kind
      case Available(_) =>
        Effect(Set(u, i, s.(A := if Trust(u, to) then s.A else Append(s.A, to), E := Zap(s.E, to))),
               [Routed(to, from, kind)])
      case Unavailable =>
        Effect(Set(u, i, s.(A := Zap(s.A, to), E := Zap(s.E, to))), [Routed(to, from, kind)])
      case _ => Effect(u, [])
  }

  // ----- sm/sess.c, sm/user.c, sm/dispatch.c

  function Unlink(sessions: seq<Session>, i: nat): seq<Session>
    requires i < |sessions|
  {
    sessions[..i] + sessions[i + 1..]
  }

  /** `_sess_end_guts`: an unavailable presence on behalf of the session if it owes one, then unlinking. */
  function EndGuts(u: User, i: nat): Effect
    requires i < |u.sessions|
  {
    var e := if u.sessions[i].available || u.sessions[i].A != [] then GoUnavailable(u, i) else Effect(u, []);
    Effect(e.user.(sessions := Unlink(e.user.sessions, i)), e.out)
  }

  /** `sess_match` */
  function Match(sessions: seq<Session>, resource: string): (m: Option<nat>)
    ensures m.Some? ==> m.value < |sessions| && sessions[m.value].jid.resource == resource
    ensures m.None? ==> forall k :: 0 <= k < |sessions| ==> sessions[k].jid.resource != resource
    decreases |sessions|
  {
    if sessions == [] then None
    else
      var n := |sessions| - 1;
      var m := Match(sessions[..n], resource);
      if m.Some? then m
      else if sessions[n].jid.resource == resource then Some(n) else None
  }

  /** `sessions` maps an id to the address of the session it belongs to. */
  datatype State = State(hosts: set<string>, users: map<BareJid, User>, sessions: map<SmId, Jid>)

  datatype Result = Result(state: State, out: seq<Output>)

  function NewUser(jid: BareJid, roster: seq<Jid>): User {
    User(jid, roster, [], None, false)
  }

  /** `user_load`; `load` is what the modules make of an unloaded user: a roster, or failure. */
  function Load(s: State, jid: BareJid, load: Option<seq<Jid>>): Option<User> {
    if jid in s.users then Some(s.users[jid])
    else if load.Some? then Some(NewUser(jid, load.value))
    else None
  }

  /** The session that `sess_start` replaces: the first with the same full address. */
  function FirstWith(sessions: seq<Session>, jid: Jid): (m: Option<nat>)
    ensures m.Some? ==> m.value < |sessions| && sessions[m.value].jid == jid
    ensures m.None? ==> forall k :: 0 <= k < |sessions| ==> sessions[k].jid != jid
    decreases |sessions|
  {
    if sessions == [] then None
    else
      var n := |sessions| - 1;
      var m := FirstWith(sessions[..n], jid);
      if m.Some? then m
      else if sessions[n].jid == jid then Some(n) else None
  }

  /** `sess_start` */
  function Start(s: State, jid: Jid, time: int, load: Option<seq<Jid>>): Result {
    if jid.user.domain !in s.hosts then Result(s, [])
    else match Load(s, jid.user, load)
      case None => Result(s, [])
      case Some(u) =>
        var replaced := FirstWith(u.sessions, jid);
        var e := if replaced.Some? then EndGuts(u, replaced.value) else Effect(u, []);
        var ids := if replaced.Some? then s.sessions - {u.sessions[replaced.value].id} else s.sessions;
        var id := SmId(time, jid);
        var sess := Session(id, jid, [], [], None, false, 0);
        Result(s.(users := s.users[jid.user := e.user.(sessions := [sess] + e.user.sessions)],
                  sessions := ids[id := jid]),
               e.out)
  }

  predicate HasSession(u: User, id: SmId) {
    exists k :: 0 <= k < |u.sessions| && u.sessions[k].id == id
  }

  /** The id of a session that is in the list of its user. */
  predicate Live(s: State, id: SmId) {
    id in s.sessions && s.sessions[id].user in s.users && HasSession(s.users[s.sessions[id].user], id)
  }

  function Position(sessions: seq<Session>, id: SmId): (k: nat)
    requires exists k :: 0 <= k < |sessions| && sessions[k].id == id
    ensures k < |sessions| && sessions[k].id == id
    decreases |sessions|
  {
    if sessions[0].id == id then 0
    else
      assert exists k :: 0 <= k < |sessions[1..]| && sessions[1..][k].id == id by {
        var k :| 0 <= k < |sessions| && sessions[k].id == id;
        assert sessions[1..][k - 1].id == id;
      }
      1 + Position(sessions[1..], id)
  }

  function PositionOf(s: State, id: SmId): (k: nat)
    requires Live(s, id)
    ensures k < |s.users[s.sessions[id].user].sessions| && s.users[s.sessions[id].user].sessions[k].id == id
  {
    Position(s.users[s.sessions[id].user].sessions, id)
  }

  /** `sess_end` */
  function End(s: State, id: SmId): Result
    requires Live(s, id)
  {
    var b := s.sessions[id].user;
    var e := EndGuts(s.users[b], PositionOf(s, id));
    Result(s.(users := if e.user.sessions == [] then s.users - {b} else s.users[b := e.user],
              sessions := s.sessions - {id}),
           e.out)
  }

  /** The `to` of a presence stanza from a client. */
  datatype Address = Broadcast | Unparsable | To(jid: Jid)

  /** The `from` of a client's stanza is kept if it is an address of the same user. */
  function Signed(from: Option<Jid>, jid: Jid): Jid {
    if from.Some? && from.value.user == jid.user then from.value else jid
  }

  /** `_presence_in_sess` for a presence stanza of a live session */
  function FromSession(s: State, id: SmId, from: Option<Jid>, to: Address, kind: Kind): Result
    requires Live(s, id)
  {
    var b := s.sessions[id].user;
    var i := PositionOf(s, id);
    var e := match to
      case Broadcast => Update(s.users[b], i, kind)
      case Unparsable => Effect(s.users[b], [])
      case To(jid) => Deliver(s.users[b], i, Signed(from, s.users[b].sessions[i].jid), jid, kind);
    Result(s.(users := s.users[b := e.user]), e.out)
  }

  /** `_presence_in_router`: whether presence for this address is processed at all. */
  predicate Passes(s: State, to: Jid, kind: Kind) {
    kind.Probe? || (to.user in s.users && AnyAvailable(s.users[to.user].sessions))
  }

  /** `_presence_pkt_user` */
  function PktUser(u: User, to: Jid, from: Jid, kind: Kind): Effect {
    var m := Match(u.sessions, to.resource);
    if kind.Bounced? && m.None? then Effect(u, [])
    else
      var u1 := if kind.Bounced? then Bounce(u, m.value, from) else u;
      if kind == Bounced(true) then Effect(u1, [])
      else if to.resource != "" then
        Effect(u1, if m.None? then [] else [Delivered(u1.sessions[m.value].id, from, kind)])
      else In(u1, from, to, kind)
  }

  /** `dispatch` of a presence packet for a user: load, deliver, and free the user again if it has no sessions. */
  function Dispatch(s: State, to: Jid, from: Jid, kind: Kind, load: Option<seq<Jid>>): Result {
    if !Passes(s, to, kind) then Result(s, [])
    else match Load(s, to.user, load)
      case None => Result(s, if kind.Probe? then [Routed(from, to, Unsubscribed)] else [])
      case Some(u) =>
        var e := PktUser(u, to, from, kind);
        Result(s.(users := if e.user.sessions == [] then s.users - {to.user} else s.users[to.user := e.user]),
               e.out)
  }

  datatype Event =
    | Starting(jid: Jid, time: int, load: Option<seq<Jid>>)
    | Ending(id: SmId)
    | Sending(id: SmId, signed: Option<Jid>, to: Address, kind: Kind)
    | Receiving(dest: Jid, from: Jid, kind: Kind, load: Option<seq<Jid>>)

  predicate Possible(s: State, e: Event) {
    match e
    case Ending(id) => Live(s, id)
    case Sending(id, _, _, _) => Live(s, id)
    case _ => true
  }

  function Step(s: State, e: Event): Result
    requires Possible(s, e)
  {
    match e
    case Starting(jid, time, load) => Start(s, jid, time, load)
    case Ending(id) => End(s, id)
    case Sending(id, signed, to, kind) => FromSession(s, id, signed, to, kind)
    case Receiving(dest, from, kind, load) => Dispatch(s, dest, from, kind, load)
  }
}

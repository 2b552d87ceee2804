/**
 The router's name table as a value: what one bind, unbind or close packet does
 to `r->routes`, to every `comp->routes`, to the default route and the log sinks,
 and which packets it writes to which component.  Router.dfy proves that the
 imperative code computes exactly these functions; RouterTables.dfy and RouterAdverts.dfy prove what
 every run of them keeps.
 */
module RouterModel {
  import opened Wrappers

  /** The domain part of a bound name. */
  datatype Name = Name(domain: string)

  /** The "ip:port" key under which a component is registered; it stands for the pointer. */
  datatype CompId = CompId(ip: string, port: nat)

  /** code 0 is the echo that confirms a bind or unbind. */
  datatype Packet =
    | Reply(code: nat)
    | Presence(from: Name, unavail: bool)

  /** A bind packet together with the answers of the access lists for its sender and of the alias list for the name. */
  datatype BindRequest = BindRequest(
    name: Option<Name>, ownName: bool, aciBind: bool, multi: bool, aliased: bool,
    default: bool, aciDefault: bool, log: bool, aciLog: bool)

  /** `sent` is everything written to the component; `mark` is where in it the current
      period of holding names began. */
  datatype CompView = CompView(legacy: bool, routes: set<Name>, sent: seq<Packet>, mark: nat)

  datatype State = State(
    routes: map<Name, seq<CompId>>, comps: map<CompId, CompView>,
    defaultRoute: Option<Name>, logSinks: map<Name, CompId>)

  function Repeat(p: Packet, n: nat): (r: seq<Packet>)
    ensures |r| == n && forall i :: 0 <= i < n ==> r[i] == p
  {
    if n == 0 then [] else Repeat(p, n - 1) + [p]
  }

  /** The array slots, restricted to `names`, in which the table mentions `c`. */
  function SlotsIn(routes: map<Name, seq<CompId>>, names: set<Name>, c: CompId): set<(Name, int)> {
    set n, i | n in names && n in routes && 0 <= i < |routes[n]| && routes[n][i] == c :: (n, i)
  }

  function Slots(routes: map<Name, seq<CompId>>, c: CompId): set<(Name, int)> {
    SlotsIn(routes, routes.Keys, c)
  }

  function AddRoute(routes: map<Name, seq<CompId>>, name: Name, comp: CompId): map<Name, seq<CompId>> {
    routes[name := (if name in routes then routes[name] else []) + [comp]]
  }

  /** The removal loop from index i on; |a| plays the part of `ncomp`. */
  function SwapScan(a: seq<CompId>, i: nat, comp: CompId): seq<CompId>
    decreases |a| - i
  {
    if i >= |a| then a
    else if a[i] == comp then SwapScan(a[i := a[|a| - 1]][..|a| - 1], i + 1, comp)
    else SwapScan(a, i + 1, comp)
  }

  function RemoveRoute(routes: map<Name, seq<CompId>>, name: Name, comp: CompId): map<Name, seq<CompId>> {
    if name !in routes then routes
    else if |routes[name]| > 1 then routes[name := SwapScan(routes[name], 0, comp)]
    else routes - {name}
  }

  function Write(s: State, c: CompId, ps: seq<Packet>): State
    requires c in s.comps
  {
    s.(comps := s.comps[c := s.comps[c].(sent := s.comps[c].sent + ps)])
  }

  /** Every native component other than the source gets one copy per slot it has in the rows of `names`. */
  function BroadcastIn(s: State, names: set<Name>, p: Packet, src: CompId): State {
    s.(comps := map c | c in s.comps ::
      if c == src || s.comps[c].legacy then s.comps[c]
      else s.comps[c].(sent := s.comps[c].sent + Repeat(p, |SlotsIn(s.routes, names, c)|)))
  }

  function Broadcast(s: State, p: Packet, src: CompId): State {
    BroadcastIn(s, s.routes.Keys, p, src)
  }

  /** The names a component is to be told about: those it does not hold itself. */
  function OthersNames(routes: map<Name, seq<CompId>>, c: CompId): set<Name> {
    set n | n in routes && c !in routes[n]
  }

  /** `order` is one possible order of a hash walk over `names`. */
  ghost predicate WalkOrder(order: seq<Name>, names: set<Name>) {
    && (forall i, j :: 0 <= i < j < |order| ==> order[i] != order[j])
    && (forall n :: n in order <==> n in names)
  }

  function Adverts(order: seq<Name>): seq<Packet> {
    seq(|order|, i requires 0 <= i < |order| => Presence(order[i], false))
  }

  datatype Verdict = Refused(code: nat) | Accepted

  function DefaultSet(s: State, req: BindRequest): bool {
    req.default && req.aciDefault && s.defaultRoute.None?
  }

  /** The checks of a bind packet, in the order in which they are made. */
  function Admit(s: State, req: BindRequest): (v: Verdict)
    ensures v.Accepted? ==> req.name.Some?
  {
    if req.name.None? then Refused(400)
    else if !req.ownName && !req.aciBind then Refused(403)
    else if req.name.value in s.routes && !req.multi then Refused(409)
    else if req.aliased then Refused(409)
    else if req.default && !req.aciDefault then Refused(403)
    else if req.default && s.defaultRoute.Some? then Refused(409)
    else if req.log && !req.aciLog then Refused(403)
    else Accepted
  }

  /** The default route is recorded before the log-sink check is made. */
  predicate ReachesDefault(s: State, req: BindRequest) {
    && req.name.Some? && (req.ownName || req.aciBind)
    && (req.name.value in s.routes ==> req.multi) && !req.aliased
    && DefaultSet(s, req)
  }

  function Enter(s: State, c: CompId, name: Name): State
    requires c in s.comps
  {
    var v := s.comps[c];
    var v' := v.(routes := v.routes + {name}, mark := if v.routes == {} then |v.sent| else v.mark);
    s.(routes := AddRoute(s.routes, name, c), comps := s.comps[c := v'])
  }

  function Bind(s: State, c: CompId, req: BindRequest, order: seq<Name>): State
    requires c in s.comps
  {
    var s1 := if ReachesDefault(s, req) then s.(defaultRoute := req.name) else s;
    match Admit(s, req)
    case Refused(code) => Write(s1, c, [Reply(code)])
    case Accepted =>
      var name := req.name.value;
      var s2 := if req.log then s1.(logSinks := s1.logSinks[name := c]) else s1;
      var s3 := Broadcast(Write(Enter(s2, c, name), c, [Reply(0)]), Presence(name, false), c);
      Write(s3, c, Adverts(order))
  }

  function ClearDefault(d: Option<Name>, name: Name): Option<Name> {
    if d == Some(name) then None else d
  }

  /** The table changes shared by unbind and close for one held name. */
  function Drop(s: State, c: CompId, name: Name): State
    requires c in s.comps
  {
    State(RemoveRoute(s.routes, name, c),
          s.comps[c := s.comps[c].(routes := s.comps[c].routes - {name})],
          ClearDefault(s.defaultRoute, name),
          s.logSinks - {name})
  }

  function Deadvertise(s: State, c: CompId, name: Name): State {
    if name !in s.routes then Broadcast(s, Presence(name, true), c) else s
  }

  function Unbind(s: State, c: CompId, name: Option<Name>): State
    requires c in s.comps
  {
    if name.None? then Write(s, c, [Reply(400)])
    else if name.value !in s.comps[c].routes then Write(s, c, [Reply(404)])
    else Deadvertise(Write(Drop(s, c, name.value), c, [Reply(0)]), c, name.value)
  }

  /** The unbind walk of a closing component. */
  function DropAll(s: State, c: CompId, order: seq<Name>): (r: State)
    requires c in s.comps
    ensures r.comps.Keys == s.comps.Keys
    decreases |order|
  {
    if order == [] then s
    else DropAll(Deadvertise(Drop(s, c, order[0]), c, order[0]), c, order[1..])
  }

  function Close(s: State, c: CompId, order: seq<Name>): State
    requires c in s.comps
  {
    var d := DropAll(s, c, order);
    d.(comps := d.comps - {c})
  }

  function Accept(s: State, c: CompId): State {
    s.(comps := s.comps[c := CompView(false, {}, [], 0)])
  }

  /** The stream header of a legacy component. */
  function Head(s: State, c: CompId): State
    requires c in s.comps
  {
    s.(comps := s.comps[c := s.comps[c].(legacy := true)])
  }

  /** A legacy component has opened its stream: it gets the name it asked for, unless that is an alias. */
  function Open(s: State, c: CompId, name: Name, aliased: bool): State
    requires c in s.comps
  {
    if aliased then s else Broadcast(Enter(s, c, name), Presence(name, false), c)
  }

  datatype Event =
    | Accepting(c: CompId)
    | Heading(c: CompId)
    | Opening(c: CompId, host: Name, aliased: bool)
    | Binding(c: CompId, req: BindRequest, order: seq<Name>)
    | Unbinding(c: CompId, name: Option<Name>)
    | Closing(c: CompId, order: seq<Name>)

  /**
   Only native components bind and unbind by packets; a legacy component says that it is one before anything else
   and opens once.  The walk orders in an event must be possible orders of the table as it is then.
   */
  ghost predicate Possible(s: State, e: Event) {
    match e
    case Accepting(c) => c !in s.comps
    case Heading(c) => c in s.comps && !s.comps[c].legacy && s.comps[c].routes == {} && s.comps[c].sent == []
    case Opening(c, _, _) => c in s.comps && s.comps[c].legacy && s.comps[c].routes == {}
    case Binding(c, req, order) =>
      && c in s.comps && !s.comps[c].legacy
      && (Admit(s, req).Accepted? ==>
            WalkOrder(order, OthersNames(AddRoute(s.routes, req.name.value, c), c)))
    case Unbinding(c, _) => c in s.comps && !s.comps[c].legacy
    case Closing(c, order) => c in s.comps && WalkOrder(order, s.comps[c].routes)
  }

  ghost function Step(s: State, e: Event): State
    requires Possible(s, e)
  {
    match e
    case Accepting(c) => Accept(s, c)
    case Heading(c) => Head(s, c)
    case Opening(c, host, aliased) => Open(s, c, host, aliased)
    case Binding(c, req, order) => Bind(s, c, req, order)
    case Unbinding(c, name) => Unbind(s, c, name)
    case Closing(c, order) => Close(s, c, order)
  }

  const Initial := State(map[], map[], None, map[])

  /** `states` is a run of the router from start-up under `events`. */
  ghost predicate Run(states: seq<State>, events: seq<Event>) {
    && |states| == |events| + 1
    && states[0] == Initial
    && forall i :: 0 <= i < |events| ==>
         Possible(states[i], events[i]) && states[i + 1] == Step(states[i], events[i])
  }
}

/**
 util/jid.c: the linked lists behind the directed presence sets of a session, searched,
 appended to and zapped in place, proved against the sequences of SmModel.
 */
module JidList {
  import opened SmModel

  class Node {
    const jid: Jid
    var next: Node?

    constructor (jid: Jid)
      ensures this.jid == jid && next == null
    {
      this.jid, next := jid, null;
    }
  }

  ghost function NodeAt(nodes: seq<Node>, k: int): Node? {
    if 0 <= k < |nodes| then nodes[k] else null
  }

  /** The nodes from a head on are these, in this order. */
  ghost predicate IsList(head: Node?, nodes: seq<Node>)
    reads nodes
  {
    && head == NodeAt(nodes, 0)
    && (forall i, j :: 0 <= i < j < |nodes| ==> nodes[i] != nodes[j])
    && (forall k {:trigger nodes[k].next} :: 0 <= k < |nodes| ==> nodes[k].next == NodeAt(nodes, k + 1))
  }

  ghost function Jids(nodes: seq<Node>): (js: seq<Jid>)
    ensures |js| == |nodes|
  {
    seq(|nodes|, k requires 0 <= k < |nodes| => nodes[k].jid)
  }

  /** `jid_search` */
  method Search(head: Node?, jid: Jid, ghost nodes: seq<Node>) returns (found: bool)
    requires IsList(head, nodes)
    ensures found <==> jid in Jids(nodes)
  {
    var cur := head;
    ghost var k := 0;
    while cur != null
      invariant 0 <= k <= |nodes| && cur == NodeAt(nodes, k)
      invariant forall i :: 0 <= i < k ==> nodes[i].jid != jid
      decreases |nodes| - k
    {
      if cur.jid == jid {
        assert Jids(nodes)[k] == jid;
        return true;
      }
      cur := cur.next;
      k := k + 1;
    }
    found := false;
  }

  /** The sequence without its k-th entry, which is the first with this address. */
  lemma {:induction false} ZapIs(list: seq<Jid>, j: Jid, k: nat)
    requires k < |list| && list[k] == j && forall i :: 0 <= i < k ==> list[i] != j
    ensures Zap(list, j) == list[..k] + list[k + 1..]
    decreases k
  {
    if k > 0 {
      ZapIs(list[1..], j, k - 1);
      assert list[..k] == [list[0]] + list[1..][..k - 1] && list[1..][k..] == list[k + 1..];
    }
  }

  lemma {:induction false} ZapAbsent(list: seq<Jid>, j: Jid)
    requires j !in list
    ensures Zap(list, j) == list
  {
    if list != [] { ZapAbsent(list[1..], j); }
  }

  lemma JidsWithout(nodes: seq<Node>, k: nat)
    requires k < |nodes|
    ensures Jids(nodes[..k] + nodes[k + 1..]) == Jids(nodes)[..k] + Jids(nodes)[k + 1..]
  {}

  /** `jid_zap`: the new head; the node taken out is dead. */
  method JidZap(head: Node?, jid: Jid, ghost nodes: seq<Node>)
    returns (list: Node?, ghost left: seq<Node>, ghost dead: set<Node>)
    requires IsList(head, nodes)
    modifies nodes
    ensures IsList(list, left) && Jids(left) == Zap(Jids(nodes), jid)
    ensures (forall n :: n in left ==> n in nodes) && dead == (set n | n in nodes && n !in left) && |dead| <= 1
  {
    hide Jids, Zap;
    left, dead := nodes, {};
    if head == null {
      ZapAbsentNodes(nodes, jid);
      return null, nodes, {};
    }
    if head.jid == jid {
      RemoveAt(nodes, 0, jid);
      left, dead := nodes[1..], {head};
      assert nodes[..0] + nodes[1..] == left;
      return head.next, left, dead;
    }
    var cur;
    ghost var k;
    cur, k := Before(head, jid, nodes);
    if cur.next == null {
      ZapAbsentNodes(nodes, jid);
      return head, nodes, {};
    }
    left, dead := Unlink(head, cur, k, jid, nodes);
    list := head;
  }

  /** The node behind cur is taken out. */
  method Unlink(head: Node, cur: Node, ghost k: nat, jid: Jid, ghost nodes: seq<Node>)
      returns (ghost left: seq<Node>, ghost dead: set<Node>)
    requires IsList(head, nodes) && k < |nodes| && cur == nodes[k] && cur.next != null && cur.next.jid == jid
    requires forall i :: 0 <= i <= k ==> nodes[i].jid != jid
    modifies cur
    ensures IsList(head, left) && Jids(left) == Zap(Jids(nodes), jid)
    ensures (forall n :: n in left ==> n in nodes) && dead == (set n | n in nodes && n !in left) && |dead| <= 1
  {
    hide Jids, Zap;
    RemoveAt(nodes, k + 1, jid);
    dead := {cur.next};
    cur.next := cur.next.next;
    left := nodes[..k + 1] + nodes[k + 2..];
  }

  /** The walk to the node before the one to be removed, or to the last. */
  method Before(head: Node, jid: Jid, ghost nodes: seq<Node>) returns (cur: Node, ghost k: nat)
    requires IsList(head, nodes) && head.jid != jid
    ensures k < |nodes| && cur == nodes[k] && (cur.next == null || cur.next.jid == jid)
    ensures forall i :: 0 <= i <= k ==> nodes[i].jid != jid
  {
    cur, k := head, 0;
    while cur.next != null && cur.next.jid != jid
      invariant 0 <= k < |nodes| && cur == nodes[k]
      invariant forall i :: 0 <= i <= k ==> nodes[i].jid != jid
      decreases |nodes| - k
    {
      cur := cur.next;
      k := k + 1;
    }
  }

  lemma ZapAbsentNodes(nodes: seq<Node>, jid: Jid)
    requires forall i :: 0 <= i < |nodes| ==> nodes[i].jid != jid
    ensures Zap(Jids(nodes), jid) == Jids(nodes)
  {
    ZapAbsent(Jids(nodes), jid);
  }

  lemma RemoveAt(nodes: seq<Node>, k: nat, jid: Jid)
    requires k < |nodes| && nodes[k].jid == jid && forall i :: 0 <= i < k ==> nodes[i].jid != jid
    requires forall i, j :: 0 <= i < j < |nodes| ==> nodes[i] != nodes[j]
    ensures Jids(nodes[..k] + nodes[k + 1..]) == Zap(Jids(nodes), jid)
    ensures (set n | n in nodes && n !in nodes[..k] + nodes[k + 1..]) == {nodes[k]}
  {
    ZapIs(Jids(nodes), jid, k);
    JidsWithout(nodes, k);
    var rest := nodes[..k] + nodes[k + 1..];
    forall i | 0 <= i < |nodes| && i != k ensures nodes[i] in rest {
      assert nodes[i] == rest[if i < k then i else i - 1];
    }
  }

  /** `jid_append`: the copy of the address is a new node, and only if the address is not there yet. */
  method JidAppend(head: Node?, jid: Jid, ghost nodes: seq<Node>) returns (list: Node, ghost longer: seq<Node>)
    requires IsList(head, nodes)
    modifies nodes
    ensures IsList(list, longer) && Jids(longer) == Append(Jids(nodes), jid)
    ensures longer == nodes || (|longer| == |nodes| + 1 && longer[..|nodes|] == nodes && fresh(longer[|nodes|]))
  {
    if head == null {
      list := new Node(jid);
      longer := [list];
      return;
    }
    list := head;
    var scan := head;
    ghost var k := 0;
    while true
      invariant 0 <= k < |nodes| && scan == nodes[k]
      invariant forall i :: 0 <= i < k ==> nodes[i].jid != jid
      decreases |nodes| - k
      modifies {}
    {
      if scan.jid == jid {
        assert Jids(nodes)[k] == jid;
        longer := nodes;
        return;
      }
      if scan.next == null { break; }
      scan := scan.next;
      k := k + 1;
    }
    var copy := new Node(jid);
    scan.next := copy;
    longer := nodes + [copy];
    assert Jids(longer) == Jids(nodes) + [jid];
    assert jid !in Jids(nodes);
  }
}

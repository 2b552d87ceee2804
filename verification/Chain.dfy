/**
 sx/chain.c: the plugins of a stream, threaded on one list for writing and on another for
 reading.
 */
module Chain {
  import opened Wrappers

  type Buf = seq<bv8>

  /** The return value of a plugin and what it has made of the buffer. */
  datatype Outcome = Outcome(ret: int, buf: Buf)

  /** A plugin may have either callback or none. */
  datatype Plugin = Plugin(wio: Option<Buf -> Outcome>, rio: Option<Buf -> Outcome>)

  // ----- running a list of plugins

  function Apply(f: Option<Buf -> Outcome>, ret: int, buf: Buf): Outcome {
    if f.None? then Outcome(ret, buf) else f.value(buf)
  }

  /** The write chain over plugins in list order, `ret` being the last return value so far. */
  function Write(ps: seq<Plugin>, ret: int, buf: Buf): Outcome
    decreases |ps|
  {
    if ps == [] then Outcome(ret, buf)
    else
      var o := Apply(ps[0].wio, ret, buf);
      if ps[0].wio.Some? && o.ret <= 0 then o else Write(ps[1..], o.ret, o.buf)
  }

  function Read(ps: seq<Plugin>, ret: int, buf: Buf): Outcome
    decreases |ps|
  {
    if ps == [] then Outcome(ret, buf)
    else
      var o := Apply(ps[0].rio, ret, buf);
      if ps[0].rio.Some? && o.ret <= 0 then o else Read(ps[1..], o.ret, o.buf)
  }

  function Reverse(ps: seq<Plugin>): (r: seq<Plugin>)
    ensures |r| == |ps| && forall i :: 0 <= i < |r| ==> r[i] == ps[|ps| - 1 - i]
    decreases |ps|
  {
    if ps == [] then [] else Reverse(ps[1..]) + [ps[0]]
  }

  /** What the plugin does when writing, its reading half takes back. */
  ghost predicate Undoes(p: Plugin) {
    forall b: Buf, r: int, s: int {:trigger Apply(p.rio, s, Apply(p.wio, r, b).buf)} :: r > 0 && s > 0 ==>
      var w := Apply(p.wio, r, b);
      w.ret > 0 ==> Apply(p.rio, s, w.buf).ret > 0 && Apply(p.rio, s, w.buf).buf == b
  }

  /** For a plugin with both callbacks; one without any undoes itself, too. */
  lemma UndoesIs(p: Plugin)
    ensures p.wio.None? && p.rio.None? ==> Undoes(p)
    ensures p.wio.Some? && p.rio.Some? ==>
      (Undoes(p) <==> forall b: Buf :: p.wio.value(b).ret > 0 ==>
                        var o := p.rio.value(p.wio.value(b).buf); o.ret > 0 && o.buf == b)
  {
    if p.wio.Some? && p.rio.Some? && Undoes(p) {
      forall b: Buf | p.wio.value(b).ret > 0
        ensures var o := p.rio.value(p.wio.value(b).buf); o.ret > 0 && o.buf == b
      {
        assert Apply(p.rio, 1, Apply(p.wio, 1, b).buf) == p.rio.value(p.wio.value(b).buf);
      }
    }
  }

  lemma {:induction false} ReadAppend(a: seq<Plugin>, b: seq<Plugin>, ret: int, buf: Buf)
    requires ret > 0
    ensures var o := Read(a, ret, buf); Read(a + b, ret, buf) == if o.ret <= 0 then o else Read(b, o.ret, o.buf)
    decreases |a|
  {
    if a == [] {
      assert a + b == b;
    } else {
      assert (a + b)[0] == a[0] && (a + b)[1..] == a[1..] + b;
      var o := Apply(a[0].rio, ret, buf);
      if o.ret > 0 { ReadAppend(a[1..], b, o.ret, o.buf); }
    }
  }

  /** If every plugin undoes itself, the read chain undoes the write chain. */
  lemma {:induction false} ReadUndoesWrite(ps: seq<Plugin>, ret: int, s: int, buf: Buf)
    requires ret > 0 && s > 0 && forall i :: 0 <= i < |ps| ==> Undoes(ps[i])
    requires Write(ps, ret, buf).ret > 0
    ensures var o := Read(Reverse(ps), s, Write(ps, ret, buf).buf); o.ret > 0 && o.buf == buf
    decreases |ps|
  {
    if ps != [] {
      var w := Apply(ps[0].wio, ret, buf);
      ReadUndoesWrite(ps[1..], w.ret, s, w.buf);
      var o := Read(Reverse(ps[1..]), s, Write(ps, ret, buf).buf);
      ReadAppend(Reverse(ps[1..]), [ps[0]], s, Write(ps, ret, buf).buf);
      assert Undoes(ps[0]);
      assert Apply(ps[0].rio, o.ret, Apply(ps[0].wio, ret, buf).buf).buf == buf;
      assert [ps[0]][1..] == [];
    }
  }

  /** A chain fails with the first plugin that fails, and no later one is asked. */
  lemma {:induction false} WriteStops(ps: seq<Plugin>, qs: seq<Plugin>, ret: int, buf: Buf)
    requires ret > 0 && Write(ps, ret, buf).ret <= 0
    ensures Write(ps + qs, ret, buf) == Write(ps, ret, buf)
    decreases |ps|
  {
    if ps != [] {
      assert (ps + qs)[0] == ps[0] && (ps + qs)[1..] == ps[1..] + qs;
      var o := Apply(ps[0].wio, ret, buf);
      if o.ret > 0 { WriteStops(ps[1..], qs, o.ret, o.buf); }
    }
  }

  lemma {:induction false} ReadStops(ps: seq<Plugin>, qs: seq<Plugin>, ret: int, buf: Buf)
    requires ret > 0 && Read(ps, ret, buf).ret <= 0
    ensures Read(ps + qs, ret, buf) == Read(ps, ret, buf)
    decreases |ps|
  {
    ReadAppend(ps, qs, ret, buf);
  }

  /**
   While none fails, each plugin with the callback is given what the one before it made of the buffer, the others are
   passed over, and the chain's outcome is the last one's; the last one may fail.
   */
  lemma {:induction false} WriteRuns(ps: seq<Plugin>, os: seq<Outcome>)
    requires |os| == |ps| + 1
    requires forall i :: 0 <= i < |ps| ==> os[i + 1] == if ps[i].wio.None? then os[i] else ps[i].wio.value(os[i].buf)
    requires forall i :: 0 <= i < |ps| ==> os[i].ret > 0
    ensures Write(ps, os[0].ret, os[0].buf) == os[|ps|]
    decreases |ps|
  {
    if ps != [] {
      forall i | 0 <= i < |ps| - 1
        ensures os[1..][i + 1] == if ps[1..][i].wio.None? then os[1..][i] else ps[1..][i].wio.value(os[1..][i].buf)
      {
        assert os[1 + i + 1] == if ps[1 + i].wio.None? then os[1 + i] else ps[1 + i].wio.value(os[1 + i].buf);
      }
      WriteRuns(ps[1..], os[1..]);
    }
  }

  lemma {:induction false} ReadRuns(ps: seq<Plugin>, os: seq<Outcome>)
    requires |os| == |ps| + 1
    requires forall i :: 0 <= i < |ps| ==> os[i + 1] == if ps[i].rio.None? then os[i] else ps[i].rio.value(os[i].buf)
    requires forall i :: 0 <= i < |ps| ==> os[i].ret > 0
    ensures Read(ps, os[0].ret, os[0].buf) == os[|ps|]
    decreases |ps|
  {
    if ps != [] {
      forall i | 0 <= i < |ps| - 1
        ensures os[1..][i + 1] == if ps[1..][i].rio.None? then os[1..][i] else ps[1..][i].rio.value(os[1..][i].buf)
      {
        assert os[1 + i + 1] == if ps[1 + i].rio.None? then os[1 + i] else ps[1 + i].rio.value(os[1 + i].buf);
      }
      ReadRuns(ps[1..], os[1..]);
    }
  }

  // ----- the lists

  class Node {
    const p: Plugin
    var wnext: Node?
    var rnext: Node?

    constructor (p: Plugin)
      ensures this.p == p && wnext == null && rnext == null
    {
      this.p, wnext, rnext := p, null, null;
    }
  }

  ghost function PluginsOf(nodes: seq<Node>): (ps: seq<Plugin>)
    ensures |ps| == |nodes|
  {
    seq(|nodes|, i requires 0 <= i < |nodes| => nodes[i].p)
  }

  lemma PluginsPrepended(cn: Node, nodes: seq<Node>)
    ensures PluginsOf([cn] + nodes) == [cn.p] + PluginsOf(nodes)
  {}

  class Stream {
    var wio: Node?
    var rio: Node?
    /** The nodes in the order of the write list. */
    ghost var nodes: seq<Node>

    constructor ()
      ensures Valid() && Plugins() == []
    {
      wio, rio, nodes := null, null, [];
    }

    /** The k-th node of the write list, and null past its end. */
    ghost function At(k: int): Node?
      reads this
    {
      if 0 <= k < |nodes| then nodes[k] else null
    }

    /** Both lists run through the same nodes, one from the front and one from the back. */
    ghost predicate Valid()
      reads this, nodes
    {
      && (forall i, j :: 0 <= i < j < |nodes| ==> nodes[i] != nodes[j])
      && wio == At(0) && rio == At(|nodes| - 1)
      && (forall k {:trigger nodes[k].wnext} :: 0 <= k < |nodes| ==> nodes[k].wnext == At(k + 1))
      && (forall k {:trigger nodes[k].rnext} :: 0 <= k < |nodes| ==> nodes[k].rnext == At(k - 1))
    }

    ghost function Plugins(): seq<Plugin>
      reads this
    {
      PluginsOf(nodes)
    }

    /** The end of the read list, which is the front of the write list. */
    method Tail(ghost list: seq<Node>) returns (tail: Node)
      requires list != [] && rio == list[|list| - 1]
      requires forall k {:trigger list[k].rnext} :: 0 <= k < |list| ==> list[k].rnext == if k > 0 then list[k - 1] else null
      ensures tail == list[0]
    {
      tail := rio;
      ghost var k := |list| - 1;
      while tail.rnext != null
        invariant 0 <= k < |list| && tail == list[k]
        decreases k
      {
        tail := tail.rnext;
        k := k - 1;
      }
    }

    /** `_sx_chain_io_plugin`: to the front of the write list and the back of the read list */
    method IoPlugin(p: Plugin)
      requires Valid()
      modifies this, nodes
      ensures Valid() && Plugins() == [p] + old(Plugins())
      ensures nodes[1..] == old(nodes) && fresh(nodes[0])
    {
      hide PluginsOf;
      var cn := new Node(p);
      ghost var before := nodes;
      if wio == null {
        wio := cn;
        cn.wnext := null;
      } else {
        cn.wnext := wio;
        wio := cn;
      }
      if rio == null {
        rio := cn;
      } else {
        var tail := Tail(before);
        tail.rnext := cn;
      }
      cn.rnext := null;
      nodes := [cn] + nodes;
      PluginsPrepended(cn, before);
      Prepended(cn, before);
    }

    lemma Prepended(cn: Node, before: seq<Node>)
      requires nodes == [cn] + before && cn !in before
      requires forall i, j :: 0 <= i < j < |before| ==> before[i] != before[j]
      requires wio == cn && rio == (if before == [] then cn else before[|before| - 1])
      requires cn.wnext == (if before == [] then null else before[0]) && cn.rnext == null
      requires forall k {:trigger before[k].wnext} :: 0 <= k < |before| ==> before[k].wnext == if k + 1 < |before| then before[k + 1] else null
      requires forall k {:trigger before[k].rnext} :: 0 <= k < |before| ==> before[k].rnext == if k > 0 then before[k - 1] else cn
      ensures Valid()
    {
      forall k | 0 < k < |nodes| ensures nodes[k].wnext == At(k + 1) && nodes[k].rnext == At(k - 1) {
        assert nodes[k] == before[k - 1];
      }
    }

    /** `_sx_chain_io_write` */
    method IoWrite(input: Buf) returns (o: Outcome)
      requires Valid()
      ensures o == Write(Plugins(), 1, input)
    {
      o := Outcome(1, input);
      var scan := wio;
      ghost var k := 0;
      ghost var ps := Plugins();
      assert ps[0..] == ps;
      while scan != null
        invariant 0 <= k <= |nodes| && scan == At(k)
        invariant Write(ps[k..], o.ret, o.buf) == Write(ps, 1, input)
        decreases |nodes| - k
      {
        assert ps[k..][0] == scan.p && ps[k..][1..] == ps[k + 1..];
        if scan.p.wio.Some? {
          o := scan.p.wio.value(o.buf);
          if o.ret <= 0 { return; }
        }
        scan := scan.wnext;
        k := k + 1;
      }
    }

    /** `_sx_chain_io_read` */
    method IoRead(input: Buf) returns (o: Outcome)
      requires Valid()
      ensures o == Read(Reverse(Plugins()), 1, input)
    {
      o := Outcome(1, input);
      var scan := rio;
      ghost var k := 0;
      ghost var ps := Reverse(Plugins());
      assert ps[0..] == ps;
      while scan != null
        invariant 0 <= k <= |nodes| && scan == At(|nodes| - 1 - k)
        invariant Read(ps[k..], o.ret, o.buf) == Read(ps, 1, input)
        decreases |nodes| - k
      {
        assert ps[k..][0] == scan.p && ps[k..][1..] == ps[k + 1..];
        if scan.p.rio.Some? {
          o := scan.p.rio.value(o.buf);
          if o.ret <= 0 { return; }
        }
        scan := scan.rnext;
        k := k + 1;
      }
    }
  }
}

/**
 proxy65/socks.c: the table of byte streams, the rendezvous of two connections in a
 stream, and the release of all of them.
 */
module Proxy65 {
  import opened Wrappers
  import opened SocksHandshake
  import opened SocksConn

  const SOCK_IDLE := 300

  /** The first connection has got exactly what the second sent, but for a bounded pending part. */
  ghost predicate Relays(to: SockConn, from: SockConn)
    reads to, from
  {
    && to.OutboxOk()
    && to.sent + to.Pending() == from.received
    && |to.Pending()| <= RELAY_BUF
  }

  class Proxy {
    var streams: map<Hash, Bytestream>
    /** The accepted connections that have not been released, and the released ones in order. */
    ghost var conns: set<SockConn>
    ghost var goneConns: seq<SockConn>
    ghost var goneStreams: seq<Bytestream>
    ghost var buffers: set<array<byte>>
    /** Every connection ever accepted and every stream ever begun; no method takes one out. */
    ghost var accepted: set<SockConn>
    ghost var begun: set<Bytestream>

    constructor ()
      ensures Valid() && Synced() && Accounted()
      ensures streams == map[] && conns == {} && goneConns == [] && goneStreams == []
    {
      streams, conns, goneConns, goneStreams, buffers, accepted, begun := map[], {}, [], [], {}, {}, {};
    }

    /** What was accepted or begun is still there or has been released. */
    ghost predicate Accounted()
      reads this
    {
      && conns <= accepted && (forall sc :: sc in goneConns ==> sc in accepted)
      && (forall sc :: sc in accepted ==> sc in conns || sc in goneConns)
      && (forall h :: h in streams ==> streams[h] in begun) && (forall bs :: bs in goneStreams ==> bs in begun)
      && (forall bs :: bs in begun ==> (bs.hash in streams && streams[bs.hash] == bs) || bs in goneStreams)
    }

    /** A connection that sits in a stream. */
    ghost predicate PeerOk(bs: Bytestream, sc: SockConn)
      reads this, bs, sc
    {
      && sc in conns && sc.bs == bs && sc.hash == bs.hash
      && sc.state == if bs.activated then RELAY else CONNECTED
    }

    ghost predicate StreamOk(bs: Bytestream)
      reads this, bs, conns
    {
      && !bs.freed && bs !in goneStreams
      && |bs.peers| == 2 && 1 <= bs.npeers <= 2
      && bs.peers[0] in conns && PeerOk(bs, bs.peers[0])
      && (bs.npeers == 1 ==> bs.peers[1] == null)
      && (bs.npeers == 2 ==> bs.peers[1] in conns && bs.peers[0] != bs.peers[1] && PeerOk(bs, bs.peers[1]))
      && (bs.activated ==> bs.npeers == 2 && Relays(bs.peers[0], bs.peers[1]) && Relays(bs.peers[1], bs.peers[0]))
    }

    ghost predicate ConnOk(sc: SockConn)
      reads this, sc, streams.Values
    {
      && !sc.freed && sc !in goneConns && sc.open && sc.state != DEAD
      && sc.rbuf in buffers && sc.BufferOk()
      && (sc.state.CONNECTED? || sc.state.RELAY? <==> sc.bs != null)
      && (sc.bs != null ==> sc.hash in streams && streams[sc.hash] == sc.bs && sc in sc.bs.peers)
      && (sc.state != RELAY ==> sc.Quiet())
    }

    ghost predicate Valid()
      reads this, streams.Values, conns
    {
      && (forall sc :: sc in conns ==> ConnOk(sc))
      && (forall h :: h in streams ==> streams[h].hash == h && StreamOk(streams[h]))
      && (forall a, b :: a in conns && b in conns && a != b ==> a.rbuf != b.rbuf)
      && (forall sc :: sc in goneConns ==> sc !in conns)
      && Distinct(goneConns) && Distinct(goneStreams)
    }

    /** Every unfinished handshake has read its stream as far as it goes. */
    ghost predicate Synced()
      reads this, conns, buffers
    {
      SyncedBut(null)
    }

    ghost predicate SyncedBut(but: SockConn?)
      reads this, conns, buffers
    {
      forall sc :: sc in conns && sc != but ==> sc.rbuf in buffers && sc.HandshakeOk()
    }

    // ----- releasing

    /** The other connection of the stream. */
    ghost function PeerOf(sc: SockConn): SockConn?
      reads sc, sc.bs
    {
      if sc.bs == null || |sc.bs.peers| != 2 then null
      else if sc.bs.peers[0] == sc then sc.bs.peers[1] else sc.bs.peers[0]
    }

    /** What a teardown of this connection releases, in order. */
    ghost function Released(sc: SockConn): seq<SockConn>
      reads sc, sc.bs
    {
      if PeerOf(sc) == null then [sc] else [PeerOf(sc), sc]
    }

    ghost function ReleasedStreams(sc: SockConn): seq<Bytestream>
      reads sc
    {
      if sc.bs == null then [] else [sc.bs]
    }

    /** What a teardown needs to know of the connection, its stream and its peer. */
    ghost predicate Releasable(sc: SockConn)
      reads this, sc, sc.bs, conns
    {
      && sc in conns && !sc.freed && sc !in goneConns
      && (sc.bs != null ==>
            && !sc.bs.freed && sc.bs !in goneStreams
            && sc.bs.hash in streams && streams[sc.bs.hash] == sc.bs
            && |sc.bs.peers| == 2 && sc in sc.bs.peers && sc.bs.peers[0] != sc.bs.peers[1]
            && (PeerOf(sc) != null ==>
                  && PeerOf(sc) in conns && !PeerOf(sc).freed && PeerOf(sc) !in goneConns
                  && PeerOf(sc).open && PeerOf(sc).state != DEAD))
    }

    /** `_sock_conn_free` */
    method Free(sc: SockConn)
      requires Accounted()
      requires sc in conns && !sc.freed && sc !in goneConns
      modifies this`conns, this`goneConns, sc`freed
      ensures Accounted()
      ensures sc.freed && conns == old(conns) - {sc} && goneConns == old(goneConns) + [sc]
    {
      sc.freed := true;
      conns, goneConns := conns - {sc}, goneConns + [sc];
    }

    /** Taking a connection out of its stream, removing the stream and finding the other end. */
    method Dissolve(bs: Bytestream, sc: SockConn) returns (peer: SockConn?)
      requires Accounted()
      requires |bs.peers| == 2 && sc in bs.peers && bs.peers[0] != bs.peers[1]
      requires !bs.freed && bs !in goneStreams && bs.hash in streams && streams[bs.hash] == bs
      modifies this`streams, this`goneStreams, bs
      ensures Accounted()
      ensures peer == if old(bs.peers)[0] == sc then old(bs.peers)[1] else old(bs.peers)[0]
      ensures bs.freed && streams == old(streams) - {bs.hash} && goneStreams == old(goneStreams) + [bs]
    {
      hide Accounted;
      peer := null;
      for i := 0 to 2
        invariant |bs.peers| == 2 && !bs.freed
        invariant forall k :: i <= k < 2 ==> bs.peers[k] == old(bs.peers)[k]
        invariant peer == if i >= 1 && old(bs.peers)[0] != sc then old(bs.peers)[0]
                          else if i >= 2 && old(bs.peers)[1] != sc then old(bs.peers)[1] else null
        modifies bs`peers
      {
        if bs.peers[i] == sc {
          bs.peers := bs.peers[i := null];
        } else if bs.peers[i] != null {
          peer := bs.peers[i];
        }
      }
      bs.peers := [null, null];
      Retire(bs);
    }

    /** `xhash_zap` and `free` */
    method Retire(bs: Bytestream)
      requires Accounted()
      requires !bs.freed && bs !in goneStreams && bs.hash in streams && streams[bs.hash] == bs
      modifies this`streams, this`goneStreams, bs`freed
      ensures Accounted()
      ensures bs.freed && streams == old(streams) - {bs.hash} && goneStreams == old(goneStreams) + [bs]
    {
      streams := streams - {bs.hash};
      bs.freed := true;
      goneStreams := goneStreams + [bs];
    }

    lemma Apart(sc: SockConn)
      requires Valid() && sc in conns
      ensures sc.state != DEAD
      ensures sc.bs != null ==> forall h :: h in streams && h != sc.bs.hash ==> streams[h] != sc.bs
    {
      assert ConnOk(sc);
    }

    /**
     Marking a connection dead, dissolving its stream and marking the other end dead, which is common to both
     teardowns.
     */
    method Unpair(sc: SockConn) returns (peer: SockConn?, peerfd: bool)
      requires Accounted()
      requires Releasable(sc) && sc.state != DEAD
      modifies this`streams, this`goneStreams, sc`state, sc`bs, sc.bs, PeerOf(sc)
      ensures Accounted() && sc.state == DEAD && sc.bs == null
      ensures peer == old(PeerOf(sc)) && (peerfd <==> peer != null)
      ensures peer != null ==> peer.state == DEAD && peer.bs == null && !peer.open && !peer.freed
      ensures goneStreams == old(goneStreams) + old(ReleasedStreams(sc)) && (old(sc.bs) != null ==> old(sc.bs).freed)
      ensures streams == if old(sc.bs) == null then old(streams) else old(streams) - {old(sc.bs.hash)}
    {
      hide Accounted;
      sc.state := DEAD;
      var bs := sc.bs;
      sc.bs := null;
      peer, peerfd := null, false;
      if bs != null {
        peer := Dissolve(bs, sc);
        if peer != null && peer.state != DEAD {
          peer.state, peer.bs := DEAD, null;
          peerfd := peer.open;
          peer.open := false;
        }
      }
    }

    /** action_CLOSE of `_sock_conn_mio_callback`, which `mio_close` calls before it returns. */
    method OnClose(sc: SockConn)
      requires Accounted()
      requires Releasable(sc) && (sc.state == DEAD ==> sc.bs == null)
      modifies this`streams, this`conns, this`goneConns, this`goneStreams
      modifies sc`state, sc`bs, sc`open, sc`freed, sc.bs, PeerOf(sc)
      ensures Accounted()
      ensures conns == old(conns) - {sc, old(PeerOf(sc))}
      ensures goneConns == old(goneConns) + old(Released(sc))
      ensures goneStreams == old(goneStreams) + old(ReleasedStreams(sc))
      ensures streams == if old(sc.bs) == null then old(streams) else old(streams) - {old(sc.bs.hash)}
      ensures sc.freed && (old(sc.bs) != null ==> old(sc.bs).freed) && (old(PeerOf(sc)) != null ==> old(PeerOf(sc)).freed)
      ensures old(Valid()) ==> Valid()
      decreases if sc.state == DEAD then 0 else 1, 0
    {
      hide Valid, ConnOk, StreamOk, Accounted;
      if Valid() { Apart(sc); }
      if sc.state != DEAD {
        var peer, pfd := Unpair(sc);
        sc.open := false;
        if pfd {
          MioClose(peer);
        }
      } else {
        sc.open := false;
      }
      Free(sc);
      if old(Valid()) { TeardownKeepsValid(sc); }
    }

    /** `mio_close` on the descriptor of a connection that is already marked dead. */
    method MioClose(sc: SockConn)
      requires Accounted()
      requires sc in conns && !sc.freed && sc !in goneConns && sc.state == DEAD && sc.bs == null
      modifies this`streams, this`conns, this`goneConns, this`goneStreams, sc`state, sc`bs, sc`open, sc`freed
      ensures Accounted()
      ensures sc.freed && conns == old(conns) - {sc} && goneConns == old(goneConns) + [sc]
      ensures streams == old(streams) && goneStreams == old(goneStreams)
      decreases 0, 1
    {
      hide Accounted;
      OnClose(sc);
    }

    /** `_sock_conn_close` */
    method SockConnClose(sc: SockConn)
      requires Accounted()
      requires Releasable(sc) && sc.state != DEAD
      modifies this`streams, this`conns, this`goneConns, this`goneStreams
      modifies sc`state, sc`bs, sc`open, sc`freed, sc.bs, PeerOf(sc)
      ensures Accounted()
      ensures conns == old(conns) - {sc, old(PeerOf(sc))}
      ensures goneConns == old(goneConns) + old(Released(sc))
      ensures goneStreams == old(goneStreams) + old(ReleasedStreams(sc))
      ensures streams == if old(sc.bs) == null then old(streams) else old(streams) - {old(sc.bs.hash)}
      ensures sc.freed && (old(sc.bs) != null ==> old(sc.bs).freed) && (old(PeerOf(sc)) != null ==> old(PeerOf(sc)).freed)
      ensures old(Valid()) ==> Valid()
    {
      hide Valid, ConnOk, StreamOk, Accounted;
      if Valid() { Apart(sc); }
      var peer, peerfd := Unpair(sc);
      var myfd := sc.open;
      sc.open := false;
      if peerfd {
        MioClose(peer);
      }
      if myfd {
        MioClose(sc);
      } else {
        Free(sc);
      }
      if old(Valid()) { TeardownKeepsValid(sc); }
    }

    lemma ValidReleasable(sc: SockConn)
      requires Valid() && sc in conns
      ensures Releasable(sc) && sc.state != DEAD && ConnOk(sc) && sc.BufferOk() && sc.rbuf in buffers
      ensures sc.bs != null ==> StreamOk(sc.bs) && sc.bs.hash == sc.hash && streams[sc.hash] == sc.bs && sc.hash in streams
      ensures PeerOf(sc) != null ==> PeerOf(sc).bs == sc.bs && PeerOf(sc).hash == sc.hash && PeerOf(PeerOf(sc)) == sc
    {
      assert ConnOk(sc);
      if sc.bs != null {
        assert StreamOk(streams[sc.hash]);
        if PeerOf(sc) != null { assert ConnOk(PeerOf(sc)); }
      }
    }

    /** After a teardown everything that is left is as it was. */
    twostate predicate TornDown(sc: SockConn)
      requires old(Valid()) && old(sc in conns)
      reads this, streams.Values, conns
    {
      && conns == old(conns) - {sc, old(PeerOf(sc))} && buffers == old(buffers)
      && goneConns == old(goneConns) + old(Released(sc))
      && goneStreams == old(goneStreams) + old(ReleasedStreams(sc))
      && streams == (if old(sc.bs) == null then old(streams) else old(streams) - {old(sc.bs.hash)})
      && (forall x :: x in conns ==> unchanged(x))
      && (forall h :: h in streams ==> unchanged(streams[h]))
    }

    twostate lemma ConnsSurvive(sc: SockConn)
      requires old(Valid()) && old(sc in conns) && TornDown(sc)
      ensures forall x :: x in conns ==> ConnOk(x)
    {
      hide Relays;
      assert old(ConnOk(sc)) && (old(sc.bs) != null ==> old(StreamOk(streams[sc.hash])));
      forall x | x in conns ensures ConnOk(x) {
        assert old(ConnOk(x));
        assert x.BufferOk() && (x.state != RELAY ==> x.Quiet());
        if x.bs != null {
          var h := x.hash;
          assert h in old(streams) && old(streams)[h] == x.bs && old(x in x.bs.peers);
          assert h in streams;
          assert unchanged(streams[h]);
        }
      }
    }

    /** The streams that are left are old ones, and not the one taken down. */
    twostate lemma StreamsLeft(sc: SockConn)
      requires old(Valid()) && old(sc in conns) && TornDown(sc)
      ensures forall h :: h in streams ==> h in old(streams) && streams[h] == old(streams)[h] && streams[h].hash == h
      ensures forall h :: h in streams ==> old(StreamOk(streams[h])) && unchanged(streams[h]) && streams[h] != old(sc.bs)
    {
      hide StreamOk, Relays;
      assert old(ConnOk(sc));
    }

    twostate lemma PeerSeat(sc: SockConn)
      requires old(Valid()) && old(sc in conns)
      ensures old(PeerOf(sc)) != null ==> old(PeerOf(sc).bs) == old(sc.bs)
    {
      hide Relays;
      assert old(ConnOk(sc)) && (old(sc.bs) != null ==> old(StreamOk(streams[sc.hash])));
    }

    twostate lemma NotSeated(sc: SockConn)
      requires old(Valid()) && old(sc in conns) && TornDown(sc)
      ensures forall h :: h in streams ==> h in old(streams) && streams[h] == old(streams)[h] && streams[h].hash == h
      ensures forall h :: h in streams ==> old(StreamOk(streams[h])) && unchanged(streams[h]) && streams[h] !in goneStreams
      ensures forall h, x :: h in streams && x in old(conns) && x in streams[h].peers ==> x in conns && unchanged(x)
    {
      hide Relays, Valid, ConnOk, PeerOf;
      StreamsLeft(sc);
      PeerSeat(sc);
      forall h | h in streams
        ensures streams[h] !in goneStreams && forall x :: x in old(conns) && x in streams[h].peers ==> x in conns
      {
        assert old(StreamOk(streams[h]));
      }
    }

    twostate lemma Survives(bs: Bytestream)
      requires old(StreamOk(bs)) && unchanged(bs) && bs !in goneStreams
      requires forall sc :: sc in old(conns) && sc in bs.peers ==> sc in conns && unchanged(sc)
      ensures StreamOk(bs)
    {
      hide Relays;
    }

    twostate lemma StreamsSurvive(sc: SockConn)
      requires old(Valid()) && old(sc in conns) && TornDown(sc)
      ensures forall h :: h in streams ==> streams[h].hash == h && StreamOk(streams[h])
    {
      NotSeated(sc);
      hide Relays, ConnOk, PeerOf, Valid, StreamOk, TornDown;
      forall h | h in streams ensures StreamOk(streams[h]) {
        Survives(streams[h]);
      }
    }

    twostate lemma TeardownKeepsValid(sc: SockConn)
      requires old(Valid()) && old(sc in conns) && TornDown(sc)
      ensures Valid()
    {
      ConnsSurvive(sc);
      StreamsSurvive(sc);
      assert old(ConnOk(sc)) && (old(sc.bs) != null ==> old(StreamOk(streams[sc.hash])));
      hide ConnOk, StreamOk;
    }

    ghost function Members(bs: Bytestream): set<SockConn>
      reads this, bs, conns
    {
      set sc | sc in conns && sc in bs.peers
    }

    lemma StreamFacts(bs: Bytestream)
      requires Valid() && bs.hash in streams && streams[bs.hash] == bs
      ensures StreamOk(bs) && ConnOk(bs.peers[0]) && Releasable(bs.peers[0])
      ensures bs.peers[1] != null ==> bs.peers[1] in conns && ConnOk(bs.peers[1]) && Releasable(bs.peers[1])
      ensures forall h :: h in streams && h != bs.hash ==> streams[h] != bs
      ensures Members(bs) == conns * {bs.peers[0], bs.peers[1]}
      ensures forall sc :: sc in conns ==> (sc.bs == bs <==> sc in bs.peers)
    {
      assert StreamOk(bs) && ConnOk(bs.peers[0]);
      if bs.peers[1] != null { assert ConnOk(bs.peers[1]); }
      forall sc | sc in conns ensures sc.bs == bs <==> sc in bs.peers {
        assert ConnOk(sc);
      }
    }

    /** Closing both ends of a stream. */
    method CloseSeats(bs: Bytestream)
      requires Accounted() && Valid() && bs.hash in streams && streams[bs.hash] == bs
      modifies this`streams, this`conns, this`goneConns, this`goneStreams, bs, Members(bs)
      ensures Accounted() && streams == old(streams) && goneStreams == old(goneStreams) && unchanged(bs`freed)
      ensures conns == old(conns) - old(Members(bs))
      ensures goneConns == old(goneConns)
                + if old(bs.npeers) == 1 then old([bs.peers[0]]) else old([bs.peers[0], bs.peers[1]])
    {
      hide Valid, ConnOk, StreamOk, Members, Accounted;
      StreamFacts(bs);
      StreamShape(bs);
      var sc := bs.peers[0];
      bs.peers := bs.peers[0 := null];
      sc.bs := null;
      SockConnClose(sc);
      if bs.peers[1] != null {
        sc := bs.peers[1];
        bs.peers := bs.peers[1 := null];
        sc.bs := null;
        SockConnClose(sc);
      }
    }

    /** `proxy65_stream_free` */
    method StreamFree(bs: Bytestream)
      requires Accounted()
      requires Valid() && bs.hash in streams && streams[bs.hash] == bs
      modifies this`streams, this`conns, this`goneConns, this`goneStreams, bs, Members(bs)
      ensures Accounted()
      ensures Valid() && streams == old(streams) - {bs.hash} && conns == old(conns) - old(Members(bs))
      ensures goneStreams == old(goneStreams) + [bs]
      ensures goneConns == old(goneConns)
                + if old(bs.npeers) == 1 then old([bs.peers[0]]) else old([bs.peers[0], bs.peers[1]])
    {
      hide Valid, ConnOk, StreamOk, Members, Accounted;
      StreamFacts(bs);
      StreamShape(bs);
      ghost var last: SockConn := if bs.npeers == 1 then bs.peers[0] else bs.peers[1];
      CloseSeats(bs);
      Retire(bs);
      TeardownKeepsValid(last);
    }

    lemma StreamShape(bs: Bytestream)
      requires StreamOk(bs)
      ensures |bs.peers| == 2 && bs.peers[0] != null && (bs.npeers == 1 || bs.npeers == 2)
      ensures (bs.peers[1] == null <==> bs.npeers == 1) && bs.peers[0] != bs.peers[1]
      ensures bs.peers[0].bs == bs && (bs.peers[1] != null ==> bs.peers[1].bs == bs)
    {}

    /**
     `proxy65_socks_expire`: exactly the streams that waited too long for their activation go, with their
     connections.
     */
    method Expire(now: int)
      requires Accounted()
      requires Valid()
      modifies this`streams, this`conns, this`goneConns, this`goneStreams, streams.Values, conns
      ensures Accounted()
      ensures Valid()
      ensures forall h :: h in streams <==>
                h in old(streams) && (old(streams[h].activated) || now <= old(streams)[h].created + 300)
      ensures forall h :: h in streams ==> streams[h] == old(streams)[h] && unchanged(streams[h])
      ensures forall sc :: sc in conns <==>
                sc in old(conns) && (old(sc.bs) != null ==> old(sc.bs.activated) || now <= old(sc.bs).created + 300)
      ensures forall sc :: sc in conns ==> unchanged(sc)
    {
      Listed();
      hide ConnOk, StreamOk, Valid, Members, Accounted;
      var todo := Collect(now);
      FreeAll(todo);
    }

    method FreeAll(todo: seq<Bytestream>)
      requires Accounted()
      requires Valid() && forall bs :: bs in todo ==> bs.hash in streams && streams[bs.hash] == bs
      requires forall i, j :: 0 <= i < j < |todo| ==> todo[i].hash != todo[j].hash
      modifies this`streams, this`conns, this`goneConns, this`goneStreams, streams.Values, conns
      ensures Accounted()
      ensures Valid()
      ensures forall h :: h in streams <==> h in old(streams) && old(streams)[h] !in todo
      ensures forall h :: h in streams ==> streams[h] == old(streams)[h] && unchanged(streams[h])
      ensures forall sc :: sc in conns <==> sc in old(conns) && old(sc.bs) !in todo
      ensures forall sc :: sc in conns ==> unchanged(sc)
    {
      hide *;
      var i := 0;
      while i < |todo|
        invariant 0 <= i <= |todo| && Valid() && Accounted()
        invariant forall k :: i <= k < |todo| ==> todo[k].hash in streams && streams[todo[k].hash] == todo[k]
        invariant forall h :: h in streams <==> h in old(streams) && old(streams)[h] !in todo[..i]
        invariant forall h :: h in streams ==> streams[h] == old(streams)[h] && unchanged(streams[h])
        invariant forall sc :: sc in conns <==> sc in old(conns) && old(sc.bs) !in todo[..i]
        invariant forall sc :: sc in conns ==> unchanged(sc)
      {
        var bs := todo[i];
        OnlyMembers(bs);
        assert bs in streams.Values;
        assert todo[..i + 1] == todo[..i] + [bs];
        StreamFree(bs);
        i := i + 1;
      }
    }

    lemma OnlyMembers(bs: Bytestream)
      requires Valid() && bs.hash in streams && streams[bs.hash] == bs
      ensures forall sc :: sc in Members(bs) <==> sc in conns && sc.bs == bs
      ensures forall h :: h in streams && h != bs.hash ==> streams[h] != bs
    {
      StreamFacts(bs);
    }

    lemma Listed()
      requires Valid()
      ensures forall sc :: sc in conns && sc.bs != null ==> sc.bs.hash in streams && streams[sc.bs.hash] == sc.bs
    {
      forall sc | sc in conns && sc.bs != null ensures sc.bs.hash in streams && streams[sc.bs.hash] == sc.bs {
        assert ConnOk(sc);
      }
    }

    predicate Idle(bs: Bytestream, now: int)
      reads bs
    {
      !bs.activated && now > bs.created + SOCK_IDLE
    }

    method Collect(now: int) returns (todo: seq<Bytestream>)
      requires Valid()
      ensures forall bs :: bs in todo <==> bs.hash in streams && streams[bs.hash] == bs && Idle(bs, now)
      ensures forall i, j :: 0 <= i < j < |todo| ==> todo[i].hash != todo[j].hash
    {
      hide ConnOk, StreamOk;
      todo := [];
      var keys := streams.Keys;
      while keys != {}
        invariant keys <= streams.Keys
        invariant forall bs :: bs in todo <==> bs.hash in streams && bs.hash !in keys && streams[bs.hash] == bs && Idle(bs, now)
        invariant forall i, j :: 0 <= i < j < |todo| ==> todo[i].hash != todo[j].hash
        decreases |keys|
      {
        var h :| h in keys;
        assert streams[h].hash == h;
        if Idle(streams[h], now) {
          todo := todo + [streams[h]];
        }
        keys := keys - {h};
      }
    }

    // ----- joining

    /** A new connection. */
    method Accept() returns (sc: SockConn)
      requires Accounted()
      requires Valid() && Synced()
      modifies this`conns, this`buffers, this`accepted
      ensures Accounted()
      ensures Valid() && Synced() && fresh(sc) && conns == old(conns) + {sc}
      ensures sc.state == Shaking(GREETING) && sc.input == [] && sc.replies == []
    {
      hide Valid, ConnOk, StreamOk, Synced;
      sc := new SockConn();
      conns, buffers, accepted := conns + {sc}, buffers + {sc.rbuf}, accepted + {sc};
      AcceptKeeps(sc);
    }

    twostate lemma AcceptKeeps(new sc: SockConn)
      requires old(Valid()) && old(Synced()) && streams == old(streams) && goneConns == old(goneConns)
      requires goneStreams == old(goneStreams) && conns == old(conns) + {sc} && buffers == old(buffers) + {sc.rbuf}
      requires fresh(sc) && fresh(sc.rbuf) && sc.HandshakeOk() && sc.state.Shaking? && sc.bs == null && sc.Quiet()
      requires sc.open && !sc.freed
      requires forall x :: x in old(conns) ==> unchanged(x) && unchanged(x.rbuf)
      requires forall h :: h in streams ==> unchanged(streams[h])
      ensures Valid() && Synced()
    {
      forall x | x in conns ensures ConnOk(x) && x.rbuf in buffers && x.HandshakeOk() {
        if x != sc {
          assert old(ConnOk(x));
          assert old(x.HandshakeOk());
        }
      }
      forall h | h in streams ensures StreamOk(streams[h]) {
        assert old(StreamOk(streams[h]));
      }
    }

    ghost predicate Paired(hash: Hash)
      reads this, streams.Values
    {
      hash in streams && streams[hash].npeers == 2
    }

    ghost function Pair(hash: Hash): set<object>
      reads this, streams.Values, conns
    {
      if Paired(hash) then {streams[hash]} + Members(streams[hash]) else {}
    }

    /** `proxy65_socks_activate` */
    method Activate(hash: Hash)
      requires Valid()
      modifies Pair(hash)
      ensures Valid()
      ensures Paired(hash) ==> Relaying(streams[hash])
    {
      hide Valid, ConnOk, StreamOk;
      if hash !in streams { return; }
      var bs := streams[hash];
      HashIs(hash);
      StreamFacts(bs);
      StreamShape(bs);
      if bs.npeers < 2 { return; }
      bs.activated := true;
      bs.peers[0].state := RELAY;
      bs.peers[1].state := RELAY;
      ActivateKeeps(bs);
    }

    twostate predicate Relaying(bs: Bytestream)
      reads this, bs, conns
    {
      bs.activated && conns == old(conns) && forall sc ::
        sc in old(conns) && sc in conns && sc in bs.peers ==> sc.state == RELAY && SameButState(sc)
    }

    lemma HashIs(hash: Hash)
      requires Valid() && hash in streams
      ensures streams[hash].hash == hash
    {}

    twostate lemma ActivateKeeps(bs: Bytestream)
      requires old(Valid()) && bs.hash in old(streams) && old(streams)[bs.hash] == bs && old(bs.npeers == 2)
      requires unchanged(this) && unchanged(bs`peers) && unchanged(bs`npeers) && unchanged(bs`freed) && bs.activated
      requires |bs.peers| == 2 && bs.peers[0] in conns && bs.peers[1] in conns
      requires forall x :: x in conns && x in bs.peers ==> x.state == RELAY && SameButState(x)
      requires forall x :: x in conns && x !in bs.peers ==> unchanged(x)
      requires forall h :: h in streams && h != bs.hash ==> unchanged(streams[h])
      ensures Valid()
    {
      OtherPeers(bs);
      assert old(StreamOk(streams[bs.hash]));
      forall x | x in conns ensures ConnOk(x) {
        assert old(ConnOk(x));
        assert x.BufferOk();
      }
      forall h | h in streams ensures StreamOk(streams[h]) {
        assert old(StreamOk(streams[h]));
        if h != bs.hash {
          assert old(streams[h].peers)[0] !in old(bs.peers);
        } else {
          assert old(ConnOk(bs.peers[0])) && old(ConnOk(bs.peers[1]));
        }
      }
    }

    twostate predicate SameButState(x: SockConn)
      reads x
    {
      && unchanged(x`bs) && unchanged(x`hash) && unchanged(x`rlen) && unchanged(x`open) && unchanged(x`freed)
      && unchanged(x`wbuf) && unchanged(x`woff) && unchanged(x`received) && unchanged(x`sent)
    }

    twostate lemma OtherPeers(bs: Bytestream)
      requires old(Valid()) && bs.hash in old(streams) && old(streams)[bs.hash] == bs
      ensures forall h :: h in old(streams) && h != bs.hash ==>
                var ps := old(streams[h].peers); |ps| == 2 && ps[0] !in old(bs.peers) && (ps[1] != null ==> ps[1] !in old(bs.peers))
    {
      forall h | h in old(streams) && h != bs.hash
        ensures var ps := old(streams[h].peers); |ps| == 2 && ps[0] !in old(bs.peers) && (ps[1] != null ==> ps[1] !in old(bs.peers))
      {
        assert old(StreamOk(streams[h])) && old(StreamOk(streams[bs.hash]));
      }
    }

    // ----- reading

    /** The stream that already exists under a name. */
    ghost function Holder(hash: Hash): set<Bytestream>
      reads this
    {
      if hash in streams then {streams[hash]} else {}
    }

    twostate predicate HolderKept(hash: Hash)
      reads this, streams.Values
    {
      hash in old(streams) ==> hash in streams && streams[hash] == old(streams)[hash] && unchanged(streams[hash])
    }

    ghost predicate Full(hash: Hash)
      reads this, streams.Values
    {
      hash in streams && (streams[hash].npeers >= 2 || streams[hash].activated)
    }

    /** `_stream_get_or_create` */
    method StreamGetOrCreate(hash: Hash, now: int) returns (bs: Bytestream)
      modifies this`streams
      ensures streams == old(streams)[hash := bs] && (hash in old(streams) ==> bs == old(streams)[hash])
      ensures hash !in old(streams) ==> fresh(bs) && bs.hash == hash && bs.created == now
      ensures hash !in old(streams) ==> bs.peers == [null, null] && bs.npeers == 0 && !bs.activated && !bs.freed
    {
      if hash in streams {
        bs := streams[hash];
        return;
      }
      bs := new Bytestream(hash, now);
      streams := streams[hash := bs];
    }

    lemma JoinFacts(sc: SockConn, hash: Hash)
      requires Valid() && sc in conns
      ensures sc.BufferOk() && (sc.state.Shaking? ==> sc.bs == null)
      ensures forall h :: h in streams ==> streams[h].hash == h
      ensures hash in streams ==> |streams[hash].peers| == 2 && 1 <= streams[hash].npeers <= 2 && !streams[hash].freed
      ensures hash in streams && streams[hash].npeers == 1 ==> streams[hash].peers[1] == null
    {
      assert ConnOk(sc);
      if hash in streams { assert StreamOk(streams[hash]); }
    }

    /** The tail of `_socks_process`: taking a seat in the named stream. */
    method Join(sc: SockConn, hash: Hash, need: nat, now: int) returns (ok: bool)
      requires Accounted()
      requires sc.BufferOk() && Valid() && sc in conns && sc.state == Shaking(REQUEST) && need <= sc.rlen
      modifies this`streams, this`begun, sc`hash, sc`bs, sc`state, sc`replies, sc`rlen, sc.rbuf, Holder(hash)
      ensures Accounted()
      ensures Valid() && sc.BufferOk() && ok == !old(Full(hash))
      ensures !ok <==> hash in old(streams) && (old(streams[hash].npeers) == 2 || old(streams[hash].activated))
      ensures sc.replies == old(sc.replies) + [5, if ok then 0 else 5, 0, 1, 0, 0, 0, 0, 0, 0]
      ensures !ok ==> sc.bs == null && sc.state == old(sc.state)
      ensures !ok ==> streams == old(streams) && HolderKept(hash)
      ensures ok ==> Seated(sc) && sc.hash == hash
      ensures ok && hash !in old(streams) ==> hash in streams && streams[hash].created == now
      ensures ok ==> sc.Unread() == old(sc.Unread())[need..]
    {
      hide Valid, StreamOk, ConnOk, Accounted;
      JoinFacts(sc, hash);
      if hash in streams && (streams[hash].npeers >= 2 || streams[hash].activated) {
        Decline(sc);
        return false;
      }
      TakeSeat(sc, hash, need, now);
      ok := true;
    }

    /** Joining a stream that has a seat, which a stream that has just been created always does. */
    method TakeSeat(sc: SockConn, hash: Hash, need: nat, now: int)
      requires Accounted()
      requires sc.BufferOk() && Valid() && sc in conns && sc.state == Shaking(REQUEST) && need <= sc.rlen && !Full(hash)
      modifies this`streams, this`begun, sc`hash, sc`bs, sc`state, sc`replies, sc`rlen, sc.rbuf, Holder(hash)
      ensures Accounted()
      ensures Valid() && sc.BufferOk() && Seated(sc) && sc.hash == hash
      ensures hash !in old(streams) ==> hash in streams && streams[hash].created == now
      ensures sc.replies == old(sc.replies) + Reply(0) && sc.Unread() == old(sc.Unread())[need..]
    {
      hide Valid, StreamOk, ConnOk, Reply, Accounted;
      JoinFacts(sc, hash);
      var bs := StreamGetOrCreate(hash, now);
      Seat(sc, bs, need);
      begun := begun + {bs};
      JoinKeeps(sc);
      JoinAccounted(sc);
    }

    twostate lemma JoinAccounted(sc: SockConn)
      requires old(Accounted()) && Seated(sc) && begun == old(begun) + {sc.bs} && goneStreams == old(goneStreams)
      requires conns == old(conns) && goneConns == old(goneConns) && accepted == old(accepted)
      requires forall h :: h in old(streams) ==> old(streams)[h].hash == h
      ensures Accounted()
    {}

    method Decline(sc: SockConn)
      requires Valid() && sc in conns && sc.state.Shaking?
      modifies sc`replies
      ensures Valid() && sc.BufferOk() && sc.bs == null && sc.replies == old(sc.replies) + Reply(5)
    {
      hide Valid, StreamOk, ConnOk, Reply;
      JoinFacts(sc, Hash([]));
      sc.replies := sc.replies + Reply(5);
      ShakingKeeps(sc);
    }

    method Seat(sc: SockConn, bs: Bytestream, need: nat)
      requires sc.BufferOk() && need <= sc.rlen && |bs.peers| == 2 && bs.npeers < 2
      modifies sc`hash, sc`bs, sc`state, sc`replies, sc`rlen, sc.rbuf, bs`peers, bs`npeers
      ensures sc.BufferOk() && sc.Unread() == old(sc.Unread())[need..] && sc.replies == old(sc.replies) + Reply(0)
      ensures sc.hash == bs.hash && sc.bs == bs && sc.state == CONNECTED
      ensures bs.peers == old(bs.peers)[old(bs.npeers) := sc] && bs.npeers == old(bs.npeers) + 1
    {
      sc.hash := bs.hash;
      sc.bs := bs;
      bs.peers, bs.npeers := bs.peers[bs.npeers := sc], bs.npeers + 1;
      sc.state := CONNECTED;
      sc.replies := sc.replies + Reply(0);
      sc.Shift(need);
    }

    /** The connection has become the first or the second peer of the stream. */
    twostate predicate Seated(sc: SockConn)
      reads this, sc, streams.Values
    {
      var hash := sc.hash;
      && sc.state == CONNECTED && hash in streams && sc.bs == streams[hash]
      && streams == old(streams)[hash := sc.bs] && !sc.bs.activated && !sc.bs.freed && sc.bs.hash == hash
      && (hash in old(streams) ==>
            && sc.bs == old(streams)[hash] && old(streams[hash].npeers) == 1 && sc.bs.npeers == 2
            && !old(streams[hash].activated)
            && old(|streams[hash].peers|) == 2 && sc.bs.peers == [old(streams[hash].peers[0]), sc])
      && (hash !in old(streams) ==> fresh(sc.bs) && sc.bs.npeers == 1 && sc.bs.peers == [sc, null])
    }

    /** Nothing but one connection that is not in a stream, and perhaps the stream it joins, has changed. */
    twostate predicate OnlyHandshake(sc: SockConn)
      reads this, conns, streams.Values
    {
      && old(sc in conns) && old(sc.state).Shaking?
      && conns == old(conns) && goneConns == old(goneConns) && goneStreams == old(goneStreams) && buffers == old(buffers)
      && (forall x :: x in conns && x != sc ==> unchanged(x))
      && (forall h :: h in old(streams) ==> h in streams && streams[h] == old(streams)[h])
      && (forall h :: h in old(streams) && h in streams && streams[h] == old(streams)[h] && streams[h] != sc.bs ==>
            unchanged(streams[h]))
      && unchanged(sc`open) && unchanged(sc`freed) && unchanged(sc`wbuf) && unchanged(sc`woff)
      && unchanged(sc`received) && unchanged(sc`sent) && sc.BufferOk()
    }

    twostate lemma ShakingKeeps(sc: SockConn)
      requires old(Valid()) && OnlyHandshake(sc) && streams == old(streams) && sc.state.Shaking? && sc.bs == null
      ensures Valid()
    {
      assert old(ConnOk(sc));
      forall x | x in conns ensures ConnOk(x) {
        assert old(ConnOk(x));
      }
      forall h | h in streams ensures StreamOk(streams[h]) {
        assert old(StreamOk(streams[h]));
      }
    }

    twostate lemma JoinKeepsConns(sc: SockConn)
      requires old(Valid()) && OnlyHandshake(sc) && Seated(sc)
      ensures forall x :: x in conns ==> ConnOk(x)
    {
      hide Relays;
      assert old(ConnOk(sc));
      var hash := sc.hash;
      if hash in old(streams) { assert old(StreamOk(streams[hash])); }
      forall x | x in conns && x != sc ensures ConnOk(x) {
        assert old(ConnOk(x));
        assert x.BufferOk() && (x.state != RELAY ==> x.Quiet());
        if x.bs == sc.bs { assert hash in old(streams) && x == sc.bs.peers[0]; }
      }
    }

    twostate lemma JoinKeepsStreams(sc: SockConn)
      requires old(Valid()) && OnlyHandshake(sc) && Seated(sc)
      ensures forall h :: h in streams ==> streams[h].hash == h && StreamOk(streams[h])
    {
      assert old(ConnOk(sc));
      var hash := sc.hash;
      if hash in old(streams) { assert old(StreamOk(streams[hash])); }
      forall h | h in streams && h != sc.hash ensures StreamOk(streams[h]) {
        assert old(StreamOk(streams[h]));
      }
    }

    twostate lemma JoinKeeps(sc: SockConn)
      requires old(Valid()) && OnlyHandshake(sc) && Seated(sc)
      ensures Valid()
    {
      hide ConnOk, StreamOk, Seated;
      JoinKeepsConns(sc);
      JoinKeepsStreams(sc);
    }

    /** Whether the handshake asks for a seat that is taken. */
    ghost predicate Refuses(v: Verdict)
      reads this, streams.Values
    {
      v.Rejected? || (v.Requested? && Full(v.hash))
    }

    ghost function Replies(v: Verdict): seq<byte>
      reads this, streams.Values
    {
      v.replies + if !v.Requested? then [] else if Full(v.hash) then Reply(5) else Reply(0)
    }

    ghost function HolderOf(v: Verdict): set<Bytestream>
      reads this
    {
      if v.Requested? then Holder(v.hash) else {}
    }

    ghost function Next(sc: SockConn): Verdict
      reads sc, sc.rbuf
      requires sc.BufferOk() && sc.state.Shaking?
    {
      Resume(sc.state.phase, sc.Unread(), sc.replies)
    }

    /**
     The bytes sent in all when a read has come to this verdict.  Once the greeting is answered with 05 00, a request that
     can be decided is answered with ten bytes, of which the second is 0 if and only if it names a hash whose stream has a
     seat, and 5 if and only if it names one whose stream has two peers or is activated.
     */
    lemma RequestAnswer(b: seq<byte>)
      ensures var v, r := Parse(b), Replies(Parse(b));
        && ([5, 0] <= r && |r| > 2 ==>
              && |r| == 12 && r == [5, 0] + [5, r[3], 0, 1, 0, 0, 0, 0, 0, 0] && r[3] in {0, 4, 5, 7, 8}
              && !v.Waiting? && (r[3] == 0 <==> !Refuses(v))
              && (r[3] == 0 <==>
                    v.Requested? && !(v.hash in streams && (streams[v.hash].npeers >= 2 || streams[v.hash].activated)))
              && (r[3] == 5 <==>
                    v.Requested? && v.hash in streams && (streams[v.hash].npeers >= 2 || streams[v.hash].activated)))
        && (!([5, 0] <= r && |r| > 2) ==> r == v.replies && !v.Requested?)
    {
      hide Parse;
      VerdictReplies(b);
      var v := Parse(b);
      if v.Rejected? && v.replies !in {[], [5, 255]} {
        var code: byte :| code in {4, 7, 8} && v.replies == [5, 0] + [5, code, 0, 1, 0, 0, 0, 0, 0, 0];
        assert v.replies[3] == code;
      }
    }

    /** `_socks_process` during the handshake */
    method Process(sc: SockConn, now: int) returns (ok: bool)
      requires Accounted()
      requires Valid() && sc in conns && sc.state.Shaking?
      modifies this`streams, this`begun, sc`hash, sc`bs, sc`state, sc`replies, sc`rlen, sc.rbuf, HolderOf(Next(sc))
      ensures Accounted()
      ensures var v := old(Next(sc));
              && Valid() && sc.BufferOk() && ok == !old(Refuses(v)) && sc.replies == old(Replies(v))
              && (v.Waiting? ==> sc.state == Shaking(v.phase) && sc.Unread() == v.rest)
              && (ok && v.Requested? ==> Seated(sc) && sc.hash == v.hash && sc.Unread() == v.rest)
              && (ok && v.Requested? && v.hash !in old(streams) ==> v.hash in streams && streams[v.hash].created == now)
              && (!(v.Requested? && ok) ==> streams == old(streams) && sc.bs == null && sc.state.Shaking?)
    {
      hide Valid, StreamOk, ConnOk, Request, Full, Reply, Accounted;
      JoinFacts(sc, Hash([]));
      ghost var v := Next(sc);
      if sc.state == Shaking(GREETING) {
        ok := sc.ScanGreeting();
        ShakingKeeps(sc);
        if !ok || sc.state == Shaking(GREETING) {
          return;
        }
        RequestAfter(sc.Unread(), old(sc.replies), [5, 0]);
      }
      ok := Process2(sc, now);
    }

    method Process2(sc: SockConn, now: int) returns (ok: bool)
      requires Accounted()
      requires Valid() && sc in conns && sc.state == Shaking(REQUEST)
      modifies this`streams, this`begun, sc`hash, sc`bs, sc`state, sc`replies, sc`rlen, sc.rbuf, HolderOf(Next(sc))
      ensures Accounted()
      ensures var v := old(Next(sc));
              && Valid() && sc.BufferOk() && ok == !old(Refuses(v)) && sc.replies == old(Replies(v))
              && (v.Waiting? ==> sc.state == Shaking(v.phase) && sc.Unread() == v.rest)
              && (ok && v.Requested? ==> Seated(sc) && sc.hash == v.hash && sc.Unread() == v.rest)
              && (ok && v.Requested? && v.hash !in old(streams) ==> v.hash in streams && streams[v.hash].created == now)
              && (!(v.Requested? && ok) ==> streams == old(streams) && sc.bs == null && sc.state.Shaking?)
    {
      hide Valid, StreamOk, ConnOk, Accounted;
      JoinFacts(sc, Hash([]));
      var scan := sc.ScanRequest();
      ShakingKeeps(sc);
      match scan {
        case Incomplete => ok := true;
        case Refuse => ok := false;
        case Name(hash, need) => ok := Join(sc, hash, need, now);
      }
    }

    /** When a read event ends a connection that is not relaying, whatever it has read before. */
    predicate Hangup(sc: SockConn, nbytes: nat, recv: Recv)
      reads sc
    {
      (nbytes == 0 && sc.rlen == 0) || sc.rlen >= RBUF_SIZE || recv.Eof? || recv.RecvFailed?
    }

    ghost function Heard(sc: SockConn, recv: Recv): Verdict
      reads sc
      requires recv.Data?
    {
      Parse(sc.input + recv.bytes)
    }

    lemma ShakingFacts(sc: SockConn)
      requires Valid() && Synced() && sc in conns
      ensures sc.state != DEAD
      ensures sc.BufferOk() && sc.rbuf in buffers && forall x :: x in conns && x != sc ==> x.rbuf != sc.rbuf
      ensures sc.state.Shaking? ==> sc.rlen <= 261 && sc.bs == null && Parse(sc.input) == Waiting(sc.state.phase, sc.Unread(), sc.replies)
    {
      assert ConnOk(sc) && sc.HandshakeOk();
      if sc.state.Shaking? { WaitingIsShort(sc.input); }
    }

    lemma SyncedWeaker(sc: SockConn)
      requires Synced()
      ensures SyncedBut(sc)
    {}

    /** `_sock_conn_close` between events. */
    method Close(sc: SockConn)
      requires Accounted()
      requires Valid() && SyncedBut(sc) && sc in conns
      modifies this`streams, this`conns, this`goneConns, this`goneStreams
      modifies sc`state, sc`bs, sc`open, sc`freed, sc.bs, PeerOf(sc)
      ensures Accounted()
      ensures Valid() && Synced() && buffers == old(buffers) && conns == old(conns) - {sc, old(PeerOf(sc))}
      ensures goneConns == old(goneConns) + old(Released(sc))
      ensures goneStreams == old(goneStreams) + old(ReleasedStreams(sc))
      ensures streams == if old(sc.bs) == null then old(streams) else old(streams) - {old(sc.hash)}
    {
      hide Valid, ConnOk, StreamOk, Accounted;
      ValidReleasable(sc);
      SockConnClose(sc);
    }

    method CloseUnseated(sc: SockConn)
      requires Accounted()
      requires Valid() && SyncedBut(sc) && sc in conns && sc.bs == null
      modifies this`streams, this`conns, this`goneConns, this`goneStreams, sc`state, sc`bs, sc`open, sc`freed
      ensures Accounted()
      ensures Valid() && Synced() && sc.freed
      ensures conns == old(conns) - {sc} && goneConns == old(goneConns) + [sc]
      ensures streams == old(streams) && goneStreams == old(goneStreams)
    {
      hide Valid, ConnOk, StreamOk, Accounted;
      ValidReleasable(sc);
      SockConnClose(sc);
    }

    method Take(sc: SockConn, bytes: seq<byte>)
      requires Valid() && Synced() && sc in conns && sc.state.Shaking? && |bytes| <= RBUF_SIZE - sc.rlen
      modifies sc`rlen, sc`input, sc.rbuf
      ensures Valid() && SyncedBut(sc) && sc.BufferOk() && sc.rbuf in buffers
      ensures sc.input == old(sc.input) + bytes && Next(sc) == Parse(sc.input)
      ensures forall x :: x in conns && x != sc ==> x.rbuf != sc.rbuf
    {
      hide Valid, StreamOk, ConnOk, Parse, Resume;
      ShakingFacts(sc);
      ParseGrows(sc.input, bytes);
      sc.Fill(bytes);
      sc.input := sc.input + bytes;
      ShakingKeeps(sc);
    }

    /** The part of a read event after `recv`, during the handshake. */
    method Hear(sc: SockConn, recv: Recv, now: int) returns (again: bool)
      requires Accounted()
      requires Valid() && Synced() && sc in conns && sc.state.Shaking?
      requires recv.Data? && |recv.bytes| <= RBUF_SIZE - sc.rlen
      modifies this`streams, this`conns, this`goneConns, this`goneStreams, this`begun
      modifies sc, sc.rbuf, HolderOf(Heard(sc, recv))
      ensures Accounted()
      ensures Valid() && Synced()
      ensures sc.input == old(sc.input) + recv.bytes && sc.replies == old(Replies(Heard(sc, recv)))
      ensures again == Parse(sc.input).Waiting?
      ensures [5, 0] <= sc.replies && |sc.replies| > 2 ==>
        && |sc.replies| == 12 && sc.replies == [5, 0] + [5, sc.replies[3], 0, 1, 0, 0, 0, 0, 0, 0]
        && (sc.replies[3] == 0 <==> sc in conns)
      ensures goneStreams == old(goneStreams) && (old(Refuses(Heard(sc, recv))) ==> streams == old(streams) && sc.freed)
      ensures conns == if old(Refuses(Heard(sc, recv))) then old(conns) - {sc} else old(conns)
      ensures goneConns == if old(Refuses(Heard(sc, recv))) then old(goneConns) + [sc] else old(goneConns)
      ensures Parse(sc.input).Requested? && !old(Refuses(Heard(sc, recv))) ==> Seated(sc) && sc.hash == Parse(sc.input).hash
    {
      hide Valid, StreamOk, ConnOk, Parse, Resume, Full, Reply, Accounted;
      RequestAnswer(sc.input + recv.bytes);
      Take(sc, recv.bytes);
      var ok := Process(sc, now);
      if !ok {
        CloseUnseated(sc);
        return false;
      }
      again := sc.state.Shaking?;
    }

    // ----- relaying

    /** `_socks_peer` */
    method SocksPeer(sc: SockConn) returns (peer: SockConn?)
      requires Valid() && sc in conns
      ensures peer == PeerOf(sc)
    {
      assert ConnOk(sc) && (sc.bs != null ==> StreamOk(streams[sc.hash]));
      if sc.bs == null { return null; }
      for i := 0 to 2
        invariant forall k :: 0 <= k < i ==> sc.bs.peers[k] == null || sc.bs.peers[k] == sc
      {
        if sc.bs.peers[i] != null && sc.bs.peers[i] != sc {
          return sc.bs.peers[i];
        }
      }
      peer := null;
    }

    lemma RelayFacts(sc: SockConn)
      requires Valid() && sc in conns && sc.state == RELAY
      ensures PeerOf(sc) != null && PeerOf(sc) in conns && PeerOf(sc).state == RELAY && PeerOf(sc) != sc
      ensures PeerOf(PeerOf(sc)) == sc && Relays(sc, PeerOf(sc)) && Relays(PeerOf(sc), sc)
    {
      assert ConnOk(sc) && StreamOk(streams[sc.hash]);
    }

    /** Only what has been sent and is still owed has changed. */
    twostate predicate SameButOutbox(x: SockConn)
      reads x
    {
      && unchanged(x`state) && unchanged(x`bs) && unchanged(x`hash) && unchanged(x`rlen) && unchanged(x`open)
      && unchanged(x`freed) && unchanged(x`received)
    }

    /** Only what has been received has changed. */
    twostate predicate SameButReceived(x: SockConn)
      reads x
    {
      && unchanged(x`state) && unchanged(x`bs) && unchanged(x`hash) && unchanged(x`rlen) && unchanged(x`open)
      && unchanged(x`freed) && unchanged(x`wbuf) && unchanged(x`woff) && unchanged(x`sent)
    }

    /** What one connection has been sent and still owes has changed, and with it what its peer has delivered. */
    twostate predicate OnlyRelayed(to: SockConn)
      reads this, conns, streams.Values
    {
      var from := old(PeerOf(to));
      && to in conns && from in conns && conns == old(conns) && streams == old(streams) && buffers == old(buffers)
      && goneConns == old(goneConns) && goneStreams == old(goneStreams)
      && (forall h :: h in streams ==> unchanged(streams[h]))
      && (forall x :: x in conns && x != to && x != from ==> unchanged(x))
      && SameButOutbox(to) && SameButReceived(from) && Relays(to, from)
    }

    twostate lemma RelayKeepsConns(to: SockConn)
      requires old(Valid()) && old(to in conns) && old(to.state) == RELAY && OnlyRelayed(to)
      ensures forall x :: x in conns ==> ConnOk(x)
    {
      hide Relays;
      assert old(ConnOk(to)) && old(StreamOk(streams[to.hash]));
      forall x | x in conns ensures ConnOk(x) {
        assert old(ConnOk(x));
        assert x.BufferOk() && (x.state != RELAY ==> x.Quiet());
      }
    }

    twostate lemma RelayKeeps(to: SockConn)
      requires old(Valid()) && old(to in conns) && old(to.state) == RELAY && OnlyRelayed(to)
      ensures Valid()
    {
      RelayKeepsConns(to);
      RelayKeepsStreams(to);
      hide ConnOk, StreamOk;
    }

    twostate lemma RelayKeepsStreams(to: SockConn)
      requires old(Valid()) && old(to in conns) && old(to.state) == RELAY && OnlyRelayed(to)
      ensures forall h :: h in streams ==> streams[h].hash == h && StreamOk(streams[h])
    {
      RelayKeepsOne(to);
      assert old(ConnOk(to));
      OtherPeers(to.bs);
      forall h | h in streams && h != to.hash ensures StreamOk(streams[h]) {
        assert old(StreamOk(streams[h]));
        hide StreamOk, Relays, ConnOk;
        StreamPeers(streams[h]);
        Survives(streams[h]);
      }
    }

    twostate lemma StreamPeers(bs: Bytestream)
      requires old(StreamOk(bs))
      ensures old(|bs.peers|) == 2 && bs !in old(goneStreams)
      ensures forall x :: x in old(bs.peers) ==> x == old(bs.peers)[0] || x == old(bs.peers)[1]
    {}

    /** The stream of a relaying connection, before the step. */
    twostate lemma RelayStream(to: SockConn)
      requires old(Valid()) && old(to in conns) && old(to.state) == RELAY
      ensures old(to.hash in streams && streams[to.hash] == to.bs)
      ensures old(to.bs != null && to.bs.hash == to.hash && to.bs.activated && StreamOk(to.bs))
      ensures old(PeerOf(to) != null && PeerOf(to) != to && PeerOf(to) in conns)
      ensures old(Relays(to, PeerOf(to)) && Relays(PeerOf(to), to))
      ensures old(to.bs.peers == [to, PeerOf(to)] || to.bs.peers == [PeerOf(to), to])
    {
      hide Relays;
      assert old(ConnOk(to)) && old(StreamOk(streams[to.hash]));
    }

    twostate lemma RelayKeepsOne(to: SockConn)
      requires old(Valid()) && old(to in conns) && old(to.state) == RELAY && OnlyRelayed(to)
      ensures to.hash in streams && streams[to.hash].hash == to.hash && streams[to.hash] == to.bs && StreamOk(to.bs)
    {
      hide ConnOk, Relays, Valid, PeerOf;
      RelayStream(to);
      OtherWay(to);
    }

    /** The other direction has not moved. */
    twostate lemma OtherWay(to: SockConn)
      requires OnlyRelayed(to) && old(PeerOf(to)) != null
      ensures old(Relays(PeerOf(to), to)) ==> Relays(old(PeerOf(to)), to)
    {}

    /** Backpressure: the other end has not drained what it was given before. */
    ghost predicate Paused(sc: SockConn)
      reads sc, sc.bs, PeerOf(sc)
    {
      PeerOf(sc) != null && PeerOf(sc).wbuf.Some?
    }

    /** A read event of a relaying connection. */
    method RelayRead(sc: SockConn, recv: Recv, outcome: Sent, memory: bool) returns (again: bool)
      requires Accounted()
      requires Valid() && Synced() && sc in conns && sc.state == RELAY
      requires recv.Data? ==> 0 < |recv.bytes| <= RELAY_BUF && (outcome.Took? ==> outcome.n <= |recv.bytes|)
      modifies this`streams, this`conns, this`goneConns, this`goneStreams, sc, sc.bs, PeerOf(sc)
      ensures Accounted()
      ensures Valid() && Synced()
      ensures again ==> sc in conns && streams == old(streams) && conns == old(conns)
      ensures again ==> sc.received == old(sc.received) + if recv.Data? then recv.bytes else []
      ensures old(Paused(sc)) ==> !again && unchanged(sc) && streams == old(streams) && conns == old(conns)
      ensures again || old(Paused(sc)) || conns == old(conns) - {sc, old(PeerOf(sc))}
      ensures !again ==> recv.Eof? || recv.RecvFailed? || old(Paused(sc)) || outcome == SendFailed || !memory
    {
      hide Valid, ConnOk, StreamOk, Relays, Accounted;
      RelayFacts(sc);
      var peer := SocksPeer(sc);
      if peer == null { return false; }
      if peer.wbuf.Some? { return false; }
      match recv {
        case RecvWouldBlock => return true;
        case RecvFailed => Close(sc); return false;
        case Eof => Close(sc); return false;
        case Data(bytes) =>
          again := Pass(sc, peer, bytes, outcome, memory);
          if !again {
            Close(sc);
          }
      }
    }

    method Pass(sc: SockConn, peer: SockConn, bytes: seq<byte>, outcome: Sent, memory: bool) returns (ok: bool)
      requires Valid() && Synced() && sc in conns && sc.state == RELAY && peer == PeerOf(sc) && peer.wbuf == None
      requires 0 < |bytes| <= RELAY_BUF && (outcome.Took? ==> outcome.n <= |bytes|)
      modifies peer`wbuf, peer`woff, peer`sent, sc`received
      ensures Valid() && Synced()
      ensures ok ==> sc.received == old(sc.received) + bytes
      ensures !ok ==> outcome == SendFailed || !memory
    {
      hide Valid, ConnOk, StreamOk;
      RelayFacts(sc);
      ghost var accepted;
      ok, accepted := peer.RelayWrite(bytes, outcome, memory);
      sc.received := sc.received + bytes[..accepted];
      RelayKeeps(peer);
    }

    method Drain(sc: SockConn, outcome: Sent) returns (ok: bool)
      requires Valid() && Synced() && sc in conns && sc.state == RELAY
      requires outcome.Took? && sc.OutboxOk() ==> outcome.n <= |sc.Pending()|
      modifies sc`wbuf, sc`woff, sc`sent
      ensures Valid() && Synced() && old(sc.OutboxOk()) && sc.OutboxOk()
      ensures sc.sent + sc.Pending() == old(sc.sent + sc.Pending())
      ensures ok <==> old(sc.wbuf) == None || outcome != SendFailed
    {
      hide Valid, ConnOk, StreamOk;
      RelayFacts(sc);
      ok := sc.RelayFlush(outcome);
      RelayKeeps(sc);
    }

    /** A write event; it fails, and tears down, only if there is something to send and sending it fails. */
    method OnWrite(sc: SockConn, outcome: Sent) returns (ok: bool)
      requires Accounted()
      requires Valid() && Synced() && sc in conns && sc.OutboxOk() && (outcome.Took? ==> outcome.n <= |sc.Pending()|)
      modifies this`streams, this`conns, this`goneConns, this`goneStreams, sc, sc.bs, PeerOf(sc)
      ensures Accounted()
      ensures Valid() && Synced()
      ensures ok <==> !(old(sc.state) == RELAY && old(sc.wbuf).Some? && outcome == SendFailed)
      ensures ok ==> unchanged(this) && unchanged(sc`received) && unchanged(sc`state)
      ensures ok && sc.state == RELAY ==> sc.OutboxOk() && sc.sent + sc.Pending() == old(sc.sent + sc.Pending())
      ensures !ok ==> conns == old(conns) - {sc, old(PeerOf(sc))}
    {
      hide Valid, ConnOk, StreamOk, Synced, SyncedBut, Relays, Distinct, Accounted;
      if sc.state != RELAY { return true; }
      RelayFacts(sc);
      ok := Drain(sc, outcome);
      if !ok {
        SyncedWeaker(sc);
        Close(sc);
      }
    }

    ghost function Named(sc: SockConn, recv: Recv): set<Bytestream>
      reads this, sc
    {
      if sc.state.Shaking? && recv.Data? then HolderOf(Heard(sc, recv)) else {}
    }

    /** A read event outside relaying; an unfinished handshake never runs into the full-buffer test. */
    method OnRead(sc: SockConn, nbytes: nat, recv: Recv, now: int) returns (again: bool)
      requires Accounted()
      requires Valid() && Synced() && sc in conns && sc.state != RELAY
      requires recv.Data? ==> recv.bytes != [] && |recv.bytes| <= RBUF_SIZE - sc.rlen
      modifies this`streams, this`conns, this`goneConns, this`goneStreams, this`begun
      modifies sc, sc.rbuf, sc.bs, PeerOf(sc), Named(sc, recv)
      ensures Accounted()
      ensures Valid() && Synced()
      ensures old(Hangup(sc, nbytes, recv)) ==> !again && conns == old(conns) - {sc, old(PeerOf(sc))}
      ensures !old(Hangup(sc, nbytes, recv)) && recv.Data? && old(sc.state).Shaking? ==>
        && sc.input == old(sc.input) + recv.bytes && sc.replies == old(Replies(Heard(sc, recv)))
        && (again <==> Parse(sc.input).Waiting?) && (sc in conns <==> !old(Refuses(Heard(sc, recv))))
        && ([5, 0] <= sc.replies && |sc.replies| > 2 ==>
              && |sc.replies| == 12 && sc.replies == [5, 0] + [5, sc.replies[3], 0, 1, 0, 0, 0, 0, 0, 0]
              && (sc.replies[3] == 0 <==> sc in conns))
        && (!Parse(sc.input).Waiting? && sc in conns ==> Seated(sc) && sc.hash == Parse(sc.input).hash)
      ensures !old(Hangup(sc, nbytes, recv)) && !(recv.Data? && old(sc.state).Shaking?) ==>
        unchanged(this) && sc.input == old(sc.input) && sc.replies == old(sc.replies) && sc.state == old(sc.state)
      ensures old(sc.state).Shaking? && (nbytes > 0 || old(sc.rlen) > 0) && !recv.Eof? && !recv.RecvFailed? ==> !old(Hangup(sc, nbytes, recv))
    {
      hide Valid, ConnOk, StreamOk, Parse, Reply, Full, Accounted;
      ShakingFacts(sc);
      if nbytes == 0 && sc.rlen == 0 {
        Close(sc);
        return false;
      }
      if sc.rlen >= RBUF_SIZE {
        Close(sc);
        return false;
      }
      match recv {
        case RecvWouldBlock => return true;
        case RecvFailed => Close(sc); return false;
        case Eof => Close(sc); return false;
        case Data(bytes) =>
          if sc.state.Shaking? {
            again := Hear(sc, recv, now);
          } else {
            FillSeated(sc, bytes);
            again := false;
          }
      }
    }

    /** Bytes that arrive between the handshake and the activation stay in the buffer. */
    method FillSeated(sc: SockConn, bytes: seq<byte>)
      requires Valid() && Synced() && sc in conns && sc.state == CONNECTED && |bytes| <= RBUF_SIZE - sc.rlen
      modifies sc`rlen, sc.rbuf
      ensures Valid() && Synced()
    {
      hide Valid, ConnOk, StreamOk;
      ShakingFacts(sc);
      sc.Fill(bytes);
      FillKeeps(sc);
    }

    twostate lemma FillKeeps(sc: SockConn)
      requires old(Valid()) && old(sc in conns) && unchanged(this) && sc.BufferOk()
      requires unchanged(sc`state) && unchanged(sc`bs)
      requires unchanged(sc`hash) && unchanged(sc`open) && unchanged(sc`freed)
      requires unchanged(sc`wbuf) && unchanged(sc`woff) && unchanged(sc`received) && unchanged(sc`sent)
      requires forall x :: x in conns && x != sc ==> unchanged(x)
      requires forall h :: h in streams ==> unchanged(streams[h])
      ensures Valid()
    {
      forall x | x in conns ensures ConnOk(x) {
        assert old(ConnOk(x));
        assert x.BufferOk() && (x.state != RELAY ==> x.Quiet());
      }
      forall h | h in streams ensures StreamOk(streams[h]) {
        assert old(StreamOk(streams[h]));
      }
    }

    // ----- what the invariant says

    /** A connection is past its handshake exactly when it sits in a stream of the table, and then in one only. */
    lemma SeatedIff(sc: SockConn)
      requires Valid() && sc in conns
      ensures sc.state.CONNECTED? || sc.state.RELAY? <==> exists h :: h in streams && sc in streams[h].peers
      ensures forall h, k :: h in streams && k in streams && sc in streams[h].peers && sc in streams[k].peers ==> h == k
    {
      assert ConnOk(sc);
      forall h | h in streams && sc in streams[h].peers ensures h == sc.hash && sc.bs == streams[h] {
        assert StreamOk(streams[h]);
      }
    }

    /** A stream has one or two distinct live peers, and is activated exactly when they relay. */
    lemma PeersAgree(h: Hash)
      requires Valid() && h in streams
      ensures |Members(streams[h])| == streams[h].npeers && 1 <= streams[h].npeers <= 2
      ensures streams[h].activated <==> forall sc :: sc in Members(streams[h]) ==> sc.state == RELAY
      ensures streams[h].activated ==> streams[h].npeers == 2
    {
      var bs := streams[h];
      assert StreamOk(bs) && bs.peers[0] in Members(bs);
      assert Members(bs) == if bs.npeers == 1 then {bs.peers[0]} else {bs.peers[0], bs.peers[1]};
    }

    /** Whatever was accepted or begun is either still there or has been released, and released once. */
    lemma ReleasedOnce(sc: SockConn, bs: Bytestream)
      requires Valid() && Accounted() && sc in accepted && bs in begun
      ensures sc in conns <==> sc !in goneConns
      ensures (bs.hash in streams && streams[bs.hash] == bs) <==> bs !in goneStreams
      ensures forall i, j :: 0 <= i < j < |goneConns| && goneConns[i] == sc ==> goneConns[j] != sc
      ensures forall i, j :: 0 <= i < j < |goneStreams| && goneStreams[i] == bs ==> goneStreams[j] != bs
    {
      if sc in conns { assert ConnOk(sc); }
      if bs.hash in streams { assert StreamOk(streams[bs.hash]); }
    }

    /** What one end has been sent is a prefix of what the other has delivered, at most one buffer behind. */
    lemma RelayedPrefix(sc: SockConn)
      requires Valid() && sc in conns && sc.state == RELAY
      ensures PeerOf(sc) != null && sc.sent <= PeerOf(sc).received
      ensures sc.OutboxOk() && PeerOf(sc).received[|sc.sent|..] == sc.Pending() && |sc.Pending()| <= 8192
    {
      RelayFacts(sc);
    }
  }

  ghost predicate Distinct<T>(s: seq<T>) {
    forall i, j :: 0 <= i < j < |s| ==> s[i] != s[j]
  }
}

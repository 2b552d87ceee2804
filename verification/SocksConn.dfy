/**
 proxy65/socks.c: one SOCKS connection, its read buffer during the handshake and its
 pending write buffer while relaying.
 */
module SocksConn {
  import opened Wrappers
  import opened SocksHandshake

  const RELAY_BUF := 8192

  datatype SockState = Shaking(phase: Phase) | CONNECTED | RELAY | DEAD

  /** What `send` does with a non-empty buffer. */
  datatype Sent = Took(n: nat) | SendWouldBlock | SendFailed

  /** What `recv` gives. */
  datatype Recv = Data(bytes: seq<byte>) | Eof | RecvWouldBlock | RecvFailed

  datatype Scan = Incomplete | Refuse | Name(hash: Hash, need: nat)

  class Bytestream {
    const hash: Hash
    const created: int
    var peers: seq<SockConn?>
    var npeers: nat
    var activated: bool
    var freed: bool

    constructor (hash: Hash, now: int)
      ensures this.hash == hash && created == now && peers == [null, null] && npeers == 0
      ensures !activated && !freed
    {
      this.hash, created := hash, now;
      peers, npeers, activated, freed := [null, null], 0, false, false;
    }
  }

  class SockConn {
    const rbuf: array<byte>
    var rlen: nat
    var state: SockState
    var open: bool
    var hash: Hash
    var bs: Bytestream?
    var wbuf: Option<seq<byte>>
    var woff: nat
    var freed: bool

    ghost var input: seq<byte>
    ghost var replies: seq<byte>
    ghost var received: seq<byte>
    ghost var sent: seq<byte>

    constructor ()
      ensures fresh(rbuf) && BufferOk() && HandshakeOk() && state == Shaking(GREETING) && open && bs == null && !freed
      ensures Quiet() && OutboxOk() && input == [] && replies == []
    {
      rbuf := new byte[RBUF_SIZE](_ => 0);
      rlen, state, open, hash, bs, freed := 0, Shaking(GREETING), true, Hash([]), null, false;
      wbuf, woff := None, 0;
      input, replies, received, sent := [], [], [], [];
    }

    predicate BufferOk()
      reads this
    {
      rbuf.Length == RBUF_SIZE && rlen <= RBUF_SIZE
    }

    /** The bytes in the read buffer. */
    function Unread(): seq<byte>
      reads this, rbuf
      requires BufferOk()
    {
      rbuf[..rlen]
    }

    /** Reading so far has come exactly as far as the whole input stream allows. */
    ghost predicate HandshakeOk()
      reads this, rbuf
    {
      BufferOk() && (state.Shaking? ==> Parse(input) == Waiting(state.phase, Unread(), replies))
    }

    predicate OutboxOk()
      reads this
    {
      if wbuf.Some? then woff < |wbuf.value| else woff == 0
    }

    /** Bytes accepted from the other side and not yet sent. */
    function Pending(): seq<byte>
      reads this
      requires OutboxOk()
    {
      if wbuf.Some? then wbuf.value[woff..] else []
    }

    ghost predicate Quiet()
      reads this
    {
      wbuf == None && woff == 0 && received == [] && sent == []
    }

    /** `_hex_is_valid` on the name in the buffer */
    method HexIsValid(from: nat, len: nat) returns (valid: bool)
      requires from + len <= rbuf.Length
      ensures valid <==> ValidHash(rbuf[from..from + len])
    {
      if len != HASH_LEN { return false; }
      ghost var name := rbuf[from..from + len];
      var i := 0;
      while i < len
        invariant i <= len
        invariant forall k :: 0 <= k < i ==> IsHex(name[k])
      {
        assert name[i] == rbuf[from + i];
        if !IsHex(rbuf[from + i]) { return false; }
        i := i + 1;
      }
      valid := true;
    }

    method LowerCased(from: nat, len: nat) returns (hex: seq<byte>)
      requires from + len <= rbuf.Length
      ensures hex == Lower(rbuf[from..from + len])
    {
      hex := rbuf[from..from + len];
      ghost var name := hex;
      var i := 0;
      while i < len
        invariant i <= len && |hex| == len
        invariant forall k :: 0 <= k < i ==> hex[k] == Lower(name)[k]
        invariant forall k :: i <= k < len ==> hex[k] == name[k]
      {
        if 65 <= hex[i] <= 70 {
          hex := hex[i := hex[i] - 65 + 97];
        }
        i := i + 1;
      }
    }

    method HasNoAuth(count: nat) returns (have: bool)
      requires 2 + count <= rbuf.Length
      ensures have <==> 0 in rbuf[2..2 + count]
    {
      have := false;
      var i := 0;
      while i < count
        invariant i <= count && (have <==> 0 in rbuf[2..2 + i])
      {
        assert rbuf[2..2 + i + 1] == rbuf[2..2 + i] + [rbuf[2 + i]];
        if rbuf[2 + i] == 0 {
          have := true;
        }
        i := i + 1;
      }
    }

    /** `memmove(buf, buf + need, n - need)` */
    method Shift(need: nat)
      requires BufferOk() && need <= rlen
      modifies rbuf, this`rlen
      ensures BufferOk() && Unread() == old(Unread())[need..]
    {
      var n := rlen - need;
      var i := 0;
      while i < n
        invariant i <= n
        invariant forall k :: 0 <= k < i ==> rbuf[k] == old(rbuf[need + k])
        invariant forall k :: i <= k < rlen ==> rbuf[k] == old(rbuf[k])
        modifies rbuf
      {
        rbuf[i] := rbuf[need + i];
        i := i + 1;
      }
      rlen := n;
    }

    /** The greeting half of `_socks_process`; the result is false when it fails. */
    method ScanGreeting() returns (ok: bool)
      requires BufferOk() && state == Shaking(GREETING)
      modifies this`rlen, this`state, this`replies, rbuf
      ensures BufferOk() && (!ok ==> state == old(state))
      ensures var v := Parse(old(Unread()));
              if v == Waiting(GREETING, old(Unread()), []) then ok && state == Shaking(GREETING)
                && Unread() == old(Unread()) && replies == old(replies)
              else if ok then state == Shaking(REQUEST) && v == Request(Unread(), [5, 0]) && replies == old(replies) + [5, 0]
              else v.Rejected? && replies == old(replies) + v.replies
    {
      var n := rlen;
      if n < 2 { return true; }
      if rbuf[0] != 5 { return false; }
      var need := 2 + Count(rbuf[1]);
      if n < need { return true; }
      var have := HasNoAuth(Count(rbuf[1]));
      assert Unread()[2..need] == rbuf[2..need];
      replies := replies + [5, if have then 0 else 255];
      if !have { return false; }
      Shift(need);
      state := Shaking(REQUEST);
      ok := true;
    }

    /** The request half of `_socks_process`, up to looking for the stream. */
    method ScanRequest() returns (scan: Scan)
      requires BufferOk() && state == Shaking(REQUEST)
      modifies this`replies
      ensures match Request(Unread(), old(replies))
              case Waiting(_, _, _) => scan == Incomplete && replies == old(replies)
              case Rejected(all) => scan == Refuse && replies == all
              case Requested(hash, rest, _) =>
                && scan.Name? && scan.hash == hash && replies == old(replies)
                && scan.need <= rlen && Unread()[scan.need..] == rest
    {
      var n := rlen;
      if n < 5 { return Incomplete; }
      if rbuf[0] != 5 || rbuf[1] != 1 {
        replies := replies + Reply(7);
        return Refuse;
      }
      if rbuf[3] != 3 {
        replies := replies + Reply(8);
        return Refuse;
      }
      var alen := Count(rbuf[4]);
      var need := 5 + alen + 2;
      if n < need { return Incomplete; }
      assert Unread()[5..5 + alen] == rbuf[5..5 + alen];
      var valid := HexIsValid(5, alen);
      if !valid {
        replies := replies + Reply(4);
        return Refuse;
      }
      var hex := LowerCased(5, alen);
      scan := Name(Hash(hex), need);
    }

    /** `recv` into the free part of the read buffer. */
    method Fill(bytes: seq<byte>)
      requires BufferOk() && rlen + |bytes| <= RBUF_SIZE
      modifies this`rlen, rbuf
      ensures BufferOk() && Unread() == old(Unread()) + bytes
    {
      var i := 0;
      while i < |bytes|
        invariant i <= |bytes|
        invariant forall k :: 0 <= k < rlen ==> rbuf[k] == old(rbuf[k])
        invariant forall k :: 0 <= k < i ==> rbuf[rlen + k] == bytes[k]
        modifies rbuf
      {
        rbuf[rlen + i] := bytes[i];
        i := i + 1;
      }
      rlen := rlen + |bytes|;
    }

    // ----- relaying to this connection

    /** `_socks_relay_flush`; `outcome` is what `send` does, and it takes no more than it is given. */
    method RelayFlush(outcome: Sent) returns (ok: bool)
      requires OutboxOk() && (outcome.Took? ==> outcome.n <= |Pending()|)
      modifies this`wbuf, this`woff, this`sent
      ensures OutboxOk() && sent + Pending() == old(sent + Pending())
      ensures ok <==> old(wbuf) == None || outcome != SendFailed
      ensures sent == old(sent) + if ok && outcome.Took? then old(Pending())[..outcome.n] else []
    {
      if wbuf == None { return true; }
      if outcome == SendFailed { return false; }
      if outcome == SendWouldBlock { return true; }
      sent := sent + Pending()[..outcome.n];
      woff := woff + outcome.n;
      if woff >= |wbuf.value| {
        wbuf, woff := None, 0;
      }
      ok := true;
    }

    /**
     `_socks_relay_write`; `memory` is whether the buffer can be had.  A failure accepts only what
     `send` has taken, and ends the connection.
     */
    method RelayWrite(data: seq<byte>, outcome: Sent, memory: bool) returns (ok: bool, ghost accepted: nat)
      requires OutboxOk() && data != [] && (outcome.Took? ==> outcome.n <= |data|)
      modifies this`wbuf, this`woff, this`sent
      ensures OutboxOk() && accepted <= |data| && (ok ==> accepted == |data|)
      ensures sent + Pending() == old(sent + Pending()) + data[..accepted]
      ensures |Pending()| <= |old(Pending())| + |data|
      ensures !ok ==> !memory || outcome == SendFailed
      ensures sent == old(sent) + if old(wbuf) == None && outcome.Took? then data[..outcome.n] else []
      ensures old(wbuf) == None && ok ==> Pending() == (if outcome.Took? then data[outcome.n..] else data)
    {
      if wbuf.Some? {
        if !memory { return false, 0; }
        assert (wbuf.value + data)[woff..] == wbuf.value[woff..] + data;
        wbuf := Some(wbuf.value + data);
        return true, |data|;
      }
      if outcome == SendFailed { return false, 0; }
      var n := if outcome.Took? then outcome.n else 0;
      sent := sent + data[..n];
      if n < |data| {
        if !memory { return false, n; }
        wbuf, woff := Some(data[n..]), 0;
      }
      ok, accepted := true, |data|;
    }
  }
}

/**
 The SOCKS5 greeting and request of RFC 1928 sections 3 and 4, as proxy65/socks.c
 reads them: what a byte stream amounts to, whatever the reads it arrives in.
 */
module SocksHandshake {
  type byte = x: int | 0 <= x < 256

  const RBUF_SIZE := 512
  const HASH_LEN := 40

  /** The stream hash as its 40 lower-case hexadecimal digits. */
  datatype Hash = Hash(hex: seq<byte>)

  datatype Phase = GREETING | REQUEST

  /** `replies` is what has been sent; `rest` is what stays in the read buffer. */
  datatype Verdict =
    | Waiting(phase: Phase, rest: seq<byte>, replies: seq<byte>)
    | Rejected(replies: seq<byte>)
    | Requested(hash: Hash, rest: seq<byte>, replies: seq<byte>)

  function Reply(rep: byte): seq<byte> {
    [5, rep, 0, 1, 0, 0, 0, 0, 0, 0]
  }

  /** The value of a length byte. */
  function Count(b: byte): nat {
    b
  }

  predicate IsHex(c: byte) {
    48 <= c <= 57 || 97 <= c <= 102 || 65 <= c <= 70
  }

  predicate ValidHash(s: seq<byte>) {
    |s| == HASH_LEN && forall i :: 0 <= i < |s| ==> IsHex(s[i])
  }

  function Lower(s: seq<byte>): seq<byte> {
    seq(|s|, i requires 0 <= i < |s| => if 65 <= s[i] <= 70 then s[i] - 65 + 97 else s[i])
  }

  /** The request half of `_socks_process`. */
  function Request(b: seq<byte>, replies: seq<byte>): Verdict {
    if |b| < 5 then Waiting(REQUEST, b, replies)
    else if b[0] != 5 || b[1] != 1 then Rejected(replies + Reply(7))
    else if b[3] != 3 then Rejected(replies + Reply(8))
    else
      var need: nat := 7 + Count(b[4]);
      if |b| < need then Waiting(REQUEST, b, replies)
      else if !ValidHash(b[5..5 + Count(b[4])]) then Rejected(replies + Reply(4))
      else Requested(Hash(Lower(b[5..5 + Count(b[4])])), b[need..], replies)
  }

  /** Both halves, on a stream from its beginning. */
  function Parse(b: seq<byte>): Verdict {
    if |b| < 2 then Waiting(GREETING, b, [])
    else if b[0] != 5 then Rejected([])
    else if |b| < 2 + Count(b[1]) then Waiting(GREETING, b, [])
    else if 0 !in b[2..2 + Count(b[1])] then Rejected([5, 255])
    else Request(b[2 + Count(b[1])..], [5, 0])
  }

  /** A verdict of which some replies have been sent before. */
  function After(before: seq<byte>, v: Verdict): Verdict {
    match v
    case Waiting(phase, rest, replies) => Waiting(phase, rest, before + replies)
    case Rejected(replies) => Rejected(before + replies)
    case Requested(hash, rest, replies) => Requested(hash, rest, before + replies)
  }

  /** Going on from a half-read handshake, as `_socks_process` does. */
  function Resume(phase: Phase, b: seq<byte>, replies: seq<byte>): Verdict {
    match phase
    case REQUEST => Request(b, replies)
    case GREETING => After(replies, Parse(b))
  }

  lemma RequestAfter(b: seq<byte>, before: seq<byte>, replies: seq<byte>)
    ensures Request(b, before + replies) == After(before, Request(b, replies))
  {
    assert forall r: seq<byte> {:trigger (before + replies) + r} :: (before + replies) + r == before + (replies + r);
  }

  /** Reading a stream in pieces; a verdict ends the reading, and later pieces stay in the buffer. */
  function Feed(v: Verdict, piece: seq<byte>): Verdict {
    match v
    case Waiting(phase, rest, replies) => Resume(phase, rest + piece, replies)
    case Rejected(_) => v
    case Requested(hash, rest, replies) => Requested(hash, rest + piece, replies)
  }

  function FeedAll(pieces: seq<seq<byte>>): Verdict
    decreases |pieces|
  {
    if pieces == [] then Waiting(GREETING, [], [])
    else Feed(FeedAll(pieces[..|pieces| - 1]), pieces[|pieces| - 1])
  }

  function Concat(pieces: seq<seq<byte>>): seq<byte>
    decreases |pieces|
  {
    if pieces == [] then [] else Concat(pieces[..|pieces| - 1]) + pieces[|pieces| - 1]
  }

  lemma RequestGrows(b: seq<byte>, c: seq<byte>, replies: seq<byte>)
    ensures Feed(Request(b, replies), c) == Request(b + c, replies)
  {
    if |b| >= 5 && b[0] == 5 && b[1] == 1 && b[3] == 3 {
      var need: nat := 7 + Count(b[4]);
      if |b| >= need {
        assert (b + c)[5..5 + Count(b[4])] == b[5..5 + Count(b[4])];
        assert (b + c)[need..] == b[need..] + c;
      }
    }
  }

  /** More bytes extend a verdict, they never change it. */
  lemma ParseGrows(b: seq<byte>, c: seq<byte>)
    ensures Feed(Parse(b), c) == Parse(b + c)
  {
    if |b| < 2 || (b[0] == 5 && |b| < 2 + Count(b[1])) {
      assert forall r: seq<byte> {:trigger [] + r} :: [] + r == r;
    } else if b[0] == 5 {
      assert (b + c)[2..2 + Count(b[1])] == b[2..2 + Count(b[1])];
      assert (b + c)[2 + Count(b[1])..] == b[2 + Count(b[1])..] + c;
      RequestGrows(b[2 + Count(b[1])..], c, [5, 0]);
    }
  }

  /** The outcome, the replies and the bytes left over do not depend on how the stream is split. */
  lemma {:induction false} SplitsDoNotMatter(pieces: seq<seq<byte>>)
    ensures FeedAll(pieces) == Parse(Concat(pieces))
    decreases |pieces|
  {
    if pieces != [] {
      SplitsDoNotMatter(pieces[..|pieces| - 1]);
      ParseGrows(Concat(pieces[..|pieces| - 1]), pieces[|pieces| - 1]);
    }
  }

  /** An incomplete handshake never fills the read buffer. */
  lemma WaitingIsShort(b: seq<byte>)
    requires Parse(b).Waiting?
    ensures |Parse(b).rest| <= 261 < 512 == RBUF_SIZE
    ensures Parse(b).phase == GREETING ==> |Parse(b).rest| <= 256
  {}

  /** VER NMETHODS METHODS, VER CONNECT RSV DOMAIN LEN NAME, and at least the two port bytes. */
  predicate Spelled(b: seq<byte>, methods: seq<byte>, reserved: seq<byte>, name: seq<byte>, rest: seq<byte>) {
    && |methods| < 256 && |name| < 256 && |reserved| == 1 && |rest| >= 2
    && b == [5, |methods|] + methods + ([5, 1] + reserved + [3, |name|] + name + rest)
  }

  /** A connection names a stream exactly when its bytes spell out a well-formed greeting and request. */
  lemma RequestedIff(b: seq<byte>, hash: Hash)
    ensures (Parse(b).Requested? && Parse(b).hash == hash) <==>
      exists methods: seq<byte>, reserved: seq<byte>, name: seq<byte>, rest: seq<byte> ::
        Spelled(b, methods, reserved, name, rest) && 0 in methods && ValidHash(name) && hash == Hash(Lower(name))
  {
    if Parse(b).Requested? && Parse(b).hash == hash {
      RequestedIsSpelled(b);
    }
    if methods: seq<byte>, reserved: seq<byte>, name: seq<byte>, rest: seq<byte> :|
        Spelled(b, methods, reserved, name, rest) && 0 in methods && ValidHash(name) && hash == Hash(Lower(name)) {
      SpelledIsRequested(b, methods, reserved, name, rest);
    }
  }

  lemma RequestedIsSpelled(b: seq<byte>)
    requires Parse(b).Requested?
    ensures exists methods: seq<byte>, reserved: seq<byte>, name: seq<byte>, rest: seq<byte> ::
        Spelled(b, methods, reserved, name, rest) && 0 in methods && ValidHash(name) && Parse(b).hash == Hash(Lower(name))
  {
    var methods, r := b[2..2 + Count(b[1])], b[2 + Count(b[1])..];
    var reserved, name, rest := [r[2]], r[5..5 + Count(r[4])], r[5 + Count(r[4])..];
    assert r == [5, 1] + reserved + [3, |name|] + name + rest;
    assert b == [5, |methods|] + methods + r;
    assert Spelled(b, methods, reserved, name, rest);
  }

  lemma SpelledIsRequested(b: seq<byte>, methods: seq<byte>, reserved: seq<byte>, name: seq<byte>, rest: seq<byte>)
    requires Spelled(b, methods, reserved, name, rest) && 0 in methods && ValidHash(name)
    ensures Parse(b) == Requested(Hash(Lower(name)), rest[2..], [5, 0])
  {
    var r := [5, 1] + reserved + [3, |name|] + name + rest;
    assert b[0] == 5 && Count(b[1]) == |methods|;
    assert b[2..2 + |methods|] == methods && b[2 + |methods|..] == r;
    SpelledRequest(r, reserved, name, rest);
  }

  lemma SpelledRequest(r: seq<byte>, reserved: seq<byte>, name: seq<byte>, rest: seq<byte>)
    requires |name| < 256 && |reserved| == 1 && |rest| >= 2 && ValidHash(name)
    requires r == [5, 1] + reserved + [3, |name|] + name + rest
    ensures Request(r, [5, 0]) == Requested(Hash(Lower(name)), rest[2..], [5, 0])
  {
    assert r[0] == 5 && r[1] == 1 && r[3] == 3 && Count(r[4]) == |name|;
    assert r[5..5 + |name|] == name;
    assert r[7 + |name|..] == rest[2..];
  }

  // ----- the replies, byte by byte

  lemma HexDigits(c: byte)
    ensures IsHex(c) <==> c as char in "0123456789abcdefABCDEF"
  {
    var digits := "0123456789abcdefABCDEF";
    if IsHex(c) {
      assert digits[if c <= 57 then c - 48 else if c >= 97 then c - 97 + 10 else c - 65 + 16] as int == c;
    }
  }

  lemma HashSpelling(name: seq<byte>)
    ensures ValidHash(name) <==> |name| == 40 && forall i :: 0 <= i < 40 ==> name[i] as char in "0123456789abcdefABCDEF"
    ensures |Lower(name)| == |name|
    ensures forall i :: 0 <= i < |name| ==>
      Lower(name)[i] as char == if 'A' <= name[i] as char <= 'F' then "abcdef"[name[i] - 65] else name[i] as char
  {
    forall i | 0 <= i < |name| ensures IsHex(name[i]) <==> name[i] as char in "0123456789abcdefABCDEF" {
      HexDigits(name[i]);
    }
  }

  /**
   The greeting is answered with 05 00 if it lists "no authentication", with 05 FF and a refusal if it does not, and
   not at all before it is complete or if it is not of version 5.
   */
  lemma GreetingReplies(b: seq<byte>)
    ensures var replies := Parse(b).replies;
      && (replies == [] <==> |b| < 2 || b[0] != 5 || |b| < 2 + b[1] as int)
      && (replies == [5, 255] <==> |b| >= 2 && b[0] == 5 && |b| >= 2 + b[1] as int && 0 !in b[2..2 + b[1] as int])
      && ((replies == [] || replies == [5, 255]) ==>
            (Parse(b).Rejected? <==> |b| >= 2 && (b[0] != 5 || |b| >= 2 + b[1] as int)) && !Parse(b).Requested?)
      && (replies != [] && replies != [5, 255] ==> [5, 0] <= replies && (|replies| > 2 <==> Parse(b).Rejected?))
  {}

  /**
   After a greeting answered with 05 00, a request of five bytes or more is refused with code 7 if it is no CONNECT of
   version 5, else with code 8 if its address is no domain name, else, once it is complete, with code 4 if the
   name is no hash; and only then.
   */
  lemma RequestReplies(b: seq<byte>, r: seq<byte>)
    requires |b| >= 2 && b[0] == 5 && |b| >= 2 + b[1] as int && 0 in b[2..2 + b[1] as int] && r == b[2 + b[1] as int..]
    ensures var v := Parse(b);
      && (v.Rejected? && v.replies == [5, 0] + [5, 7, 0, 1, 0, 0, 0, 0, 0, 0] <==> |r| >= 5 && (r[0] != 5 || r[1] != 1))
      && (v.Rejected? && v.replies == [5, 0] + [5, 8, 0, 1, 0, 0, 0, 0, 0, 0] <==>
            |r| >= 5 && r[0] == 5 && r[1] == 1 && r[3] != 3)
      && (v.Rejected? && v.replies == [5, 0] + [5, 4, 0, 1, 0, 0, 0, 0, 0, 0] <==>
            && |r| >= 5 && r[0] == 5 && r[1] == 1 && r[3] == 3 && |r| >= 7 + r[4] as int
            && !(r[4] == 40 && forall i :: 5 <= i < 45 ==> r[i] as char in "0123456789abcdefABCDEF"))
      && (v.Requested? <==>
            && |r| >= 47 && r[0] == 5 && r[1] == 1 && r[3] == 3 && r[4] == 40
            && forall i :: 5 <= i < 45 ==> r[i] as char in "0123456789abcdefABCDEF")
      && (v.Requested? || v.Waiting? ==> v.replies == [5, 0])
  {
    hide ValidHash, Lower;
    assert forall rep: byte :: ([5, 0] + [5, rep, 0, 1, 0, 0, 0, 0, 0, 0])[3] == rep;
    assert forall rep: byte :: Reply(rep) == [5, rep, 0, 1, 0, 0, 0, 0, 0, 0];
    if |r| >= 5 && r[0] == 5 && r[1] == 1 && r[3] == 3 && |r| >= 7 + Count(r[4]) {
      var name := r[5..5 + Count(r[4])];
      HashSpelling(name);
      assert forall i :: 0 <= i < |name| ==> name[i] == r[5 + i];
      assert forall i :: 5 <= i < 5 + |name| ==> r[i] == name[i - 5];
    }
  }

  /** What can have been sent with each verdict. */
  lemma VerdictReplies(b: seq<byte>)
    ensures var v := Parse(b);
      && (v.Waiting? ==> v.replies in {[], [5, 0]})
      && (v.Requested? ==> v.replies == [5, 0])
      && (v.Rejected? ==>
            || v.replies in {[], [5, 255]}
            || exists code: byte :: code in {4, 7, 8} && v.replies == [5, 0] + [5, code, 0, 1, 0, 0, 0, 0, 0, 0])
  {
    GreetingReplies(b);
    var m := if |b| >= 2 then 2 + Count(b[1]) else 0;
    if |b| >= 2 && b[0] == 5 && |b| >= m && 0 in b[2..m] {
      RequestReplies(b, b[m..]);
      hide Parse;
    }
  }
}

/**
 sm/mod_offline.c: messages for absent users, spooled as one escaped line each.
 */
module Offline {
  /** OFFLINE_LINE_MAX less the terminator that `fgets` writes. */
  const LINE := 65535

  datatype Message = Message(from: string, body: string)

  // ----- escaping

  function EscapeChar(c: char): string {
    if c == '\\' then "\\\\" else if c == '\n' || c == '\r' then "\\n" else [c]
  }

  function Escape(s: string): string
    decreases |s|
  {
    if s == [] then [] else EscapeChar(s[0]) + Escape(s[1..])
  }

  function Unescape(s: string): (u: string)
    ensures |u| <= |s|
    decreases |s|
  {
    if s == [] then []
    else if s[0] == '\\' && |s| > 1 then [if s[1] == 'n' then '\n' else s[1]] + Unescape(s[2..])
    else [s[0]] + Unescape(s[1..])
  }

  /** What a body comes back as: every CR is an LF. */
  function Normalize(s: string): string {
    seq(|s|, i requires 0 <= i < |s| => if s[i] == '\r' then '\n' else s[i])
  }

  function Width(c: char): nat {
    if c == '\\' || c == '\n' || c == '\r' then 2 else 1
  }

  lemma {:induction false} EscapeSnoc(s: string, c: char)
    ensures Escape(s + [c]) == Escape(s) + EscapeChar(c)
    decreases |s|
  {
    if s == [] {
      assert [c][1..] == [];
    } else {
      assert (s + [c])[1..] == s[1..] + [c];
      EscapeSnoc(s[1..], c);
    }
  }

  lemma EscapeTo(s: string, i: nat)
    requires i < |s|
    ensures Escape(s[..i + 1]) == Escape(s[..i]) + EscapeChar(s[i])
  {
    assert s[..i + 1] == s[..i] + [s[i]];
    EscapeSnoc(s[..i], s[i]);
  }

  lemma {:induction false} EscapeGrows(s: string, i: nat)
    requires i <= |s|
    ensures |Escape(s[..i])| <= |Escape(s)|
    decreases |s| - i
  {
    if i < |s| {
      EscapeTo(s, i);
      EscapeGrows(s, i + 1);
    } else {
      assert s[..i] == s;
    }
  }

  /** `_offline_escape`: the length first, then the text. */
  method OfflineEscape(input: string) returns (out: array<char>)
    ensures fresh(out) && out[..] == Escape(input) + ['\0']
  {
    hide Escape, EscapeChar;
    var outlen := EscapedLength(input);
    out := new char[outlen + 1](_ => '\0');
    var i, j := 0, 0;
    NothingEscaped(input);
    while i < |input|
      invariant i <= |input| && j == |Escape(input[..i])| && j <= outlen
      invariant out[..j] == Escape(input[..i])
    {
      EscapeTo(input, i);
      EscapeGrows(input, i + 1);
      j := Put(out, j, input[i]);
      i := i + 1;
    }
    assert input[..i] == input;
    out[j] := '\0';
    assert out[..] == out[..j] + ['\0'];
  }

  lemma NothingEscaped(s: string)
    ensures Escape(s[..0]) == []
  {}

  method Put(out: array<char>, at: nat, c: char) returns (j: nat)
    requires at + |EscapeChar(c)| <= out.Length
    modifies out
    ensures j == at + |EscapeChar(c)| && out[..j] == old(out[..at]) + EscapeChar(c)
  {
    j := at;
    if c == '\\' {
      out[j] := '\\';
      out[j + 1] := '\\';
      j := j + 2;
    } else if c == '\n' || c == '\r' {
      out[j] := '\\';
      out[j + 1] := 'n';
      j := j + 2;
    } else {
      out[j] := c;
      j := j + 1;
    }
  }

  method EscapedLength(input: string) returns (outlen: nat)
    ensures outlen == |Escape(input)|
  {
    hide Escape;
    outlen := 0;
    var i := 0;
    NothingEscaped(input);
    while i < |input|
      invariant i <= |input| && outlen == |Escape(input[..i])|
    {
      EscapeTo(input, i);
      outlen := outlen + Width(input[i]);
      i := i + 1;
    }
    assert input[..i] == input;
  }

  lemma UnescapeAt(s: string, i: nat)
    requires i < |s|
    ensures Unescape(s[i..]) ==
      if s[i] == '\\' && i + 1 < |s| then [if s[i + 1] == 'n' then '\n' else s[i + 1]] + Unescape(s[i + 2..])
      else [s[i]] + Unescape(s[i + 1..])
  {
    assert s[i..][1..] == s[i + 1..];
    if i + 1 < |s| { assert s[i..][2..] == s[i + 2..]; }
  }

  /** `_offline_unescape` */
  method OfflineUnescape(input: string) returns (out: string)
    ensures out == Unescape(input)
  {
    hide Unescape;
    out := [];
    var i := 0;
    assert input[0..] == input;
    while i < |input|
      invariant i <= |input| && out + Unescape(input[i..]) == Unescape(input)
    {
      ghost var before := out;
      UnescapeAt(input, i);
      if input[i] == '\\' && i + 1 < |input| {
        i := i + 1;
        out := out + [if input[i] == 'n' then '\n' else input[i]];
      } else {
        out := out + [input[i]];
      }
      i := i + 1;
      assert before + ([out[|before|]] + Unescape(input[i..])) == out + Unescape(input[i..]);
    }
    NothingUnescaped(input[i..]);
  }

  lemma NothingUnescaped(s: string)
    requires s == []
    ensures Unescape(s) == []
  {}

  lemma UnescapeOne(c: char, rest: string)
    ensures Unescape(EscapeChar(c) + rest) == Normalize([c]) + Unescape(rest)
  {
    var s := EscapeChar(c) + rest;
    if Width(c) == 2 {
      assert s[2..] == rest;
    } else {
      assert s[1..] == rest;
    }
    assert Normalize([c]) == [if c == '\r' then '\n' else c];
  }

  /** Unescaping undoes escaping, but for the kind of line end. */
  lemma {:induction false} UnescapeEscape(s: string)
    ensures Unescape(Escape(s)) == Normalize(s)
    decreases |s|
  {
    hide EscapeChar;
    if s != [] {
      UnescapeOne(s[0], Escape(s[1..]));
      UnescapeEscape(s[1..]);
      assert Normalize(s) == Normalize([s[0]]) + Normalize(s[1..]);
    }
  }

  lemma {:induction false} EscapeIsOneLine(s: string)
    ensures '\n' !in Escape(s) && '\r' !in Escape(s) && ('\0' !in s ==> '\0' !in Escape(s))
    decreases |s|
  {
    if s != [] { EscapeIsOneLine(s[1..]); }
  }

  // ----- the spool file

  /** The place of the first such character, or the end. */
  function Find(s: string, c: char): (i: nat)
    ensures i <= |s| && c !in s[..i] && (i < |s| ==> s[i] == c)
    decreases |s|
  {
    if s == [] || s[0] == c then 0
    else
      var i := 1 + Find(s[1..], c);
      assert s[..i] == [s[0]] + s[1..][..i - 1];
      i
  }

  lemma FindIs(s: string, c: char, i: nat)
    requires i <= |s| && c !in s[..i] && (i < |s| ==> s[i] == c)
    ensures Find(s, c) == i
  {
    var k := Find(s, c);
    assert forall t :: 0 <= t < i ==> s[..i][t] == s[t];
    assert forall t :: 0 <= t < k ==> s[..k][t] == s[t];
  }

  /** How much `fgets` takes: a line with its end, or a full buffer. */
  function Taken(file: string): (n: nat)
    ensures n <= |file| && (file != [] ==> n > 0)
  {
    var end := Find(file, '\n');
    if end < |file| && end < LINE then end + 1 else if |file| < LINE then |file| else LINE
  }

  function Cut(s: string, c: char): string {
    s[..Find(s, c)]
  }

  /** What C takes for the string in a buffer. */
  function CString(s: string): string {
    Cut(s, '\0')
  }

  /** One line of the file. */
  function Record(m: Message): string {
    CString(m.from) + ['\t'] + CString(Escape(m.body)) + ['\n']
  }

  lemma CutNone(s: string, c: char)
    requires c !in s
    ensures Cut(s, c) == s
  {
    assert s[..|s|] == s;
    FindIs(s, c, |s|);
  }

  lemma CutAt(s: string, c: char, rest: string)
    requires c !in s
    ensures Cut(s + [c] + rest, c) == s
  {
    var t := s + [c] + rest;
    assert t[..|s|] == s;
    FindIs(t, c, |s|);
  }

  /** A NUL ends the body, escaped or not. */
  lemma EscapeCString(body: string)
    ensures CString(Escape(body)) == Escape(CString(body))
    ensures '\0' !in CString(body)
  {
    hide Escape;
    var b := CString(body);
    EscapeIsOneLine(b);
    if b == body {
      CutNone(Escape(b), '\0');
    } else {
      var rest := body[|b| + 1..];
      assert body == b + (['\0'] + rest);
      EscapeAppend(b, ['\0'] + rest);
      EscapeNul(rest);
      assert Escape(body) == Escape(b) + ['\0'] + Escape(rest);
      CutAt(Escape(b), '\0', Escape(rest));
    }
  }

  lemma EscapeNul(rest: string)
    ensures Escape(['\0'] + rest) == ['\0'] + Escape(rest)
  {}

  lemma {:induction false} EscapeAppend(a: string, b: string)
    ensures Escape(a + b) == Escape(a) + Escape(b)
    decreases |a|
  {
    if a == [] {
      assert a + b == b;
    } else {
      assert (a + b)[1..] == a[1..] + b;
      EscapeAppend(a[1..], b);
    }
  }

  /** What is made of one line: no message or one. */
  function ParseLine(line: string): seq<Message> {
    var l := Cut(Cut(CString(line), '\n'), '\r');
    var tab := Find(l, '\t');
    if l == [] || tab == |l| then [] else [Message(l[..tab], Unescape(l[tab + 1..]))]
  }

  function Deliver(file: string): seq<Message>
    decreases |file|
  {
    if file == [] then [] else ParseLine(file[..Taken(file)]) + Deliver(file[Taken(file)..])
  }

  lemma DeliverStep(file: string)
    requires file != []
    ensures Deliver(file) == ParseLine(file[..Taken(file)]) + Deliver(file[Taken(file)..])
  {
    hide ParseLine;
  }

  lemma NothingDelivered(file: string)
    requires file == []
    ensures Deliver(file) == []
  {}

  lemma TerminatedIs(s: string)
    ensures CString(s + ['\0']) == CString(s)
  {
    var k := Find(s, '\0');
    assert (s + ['\0'])[..k] == s[..k];
    FindIs(s + ['\0'], '\0', k);
  }

  /** The spool of one user. */
  class Spool {
    var file: string

    constructor ()
      ensures file == []
    {
      file := [];
    }

    /** `_offline_save_to_file` for a message; one without a body is not kept. */
    method Save(m: Message)
      modifies this
      ensures file == old(file) + if m.body == [] then [] else Record(m)
    {
      if m.body == [] { return; }
      var escaped := OfflineEscape(m.body);
      TerminatedIs(Escape(m.body));
      file := file + (CString(m.from) + ['\t'] + CString(escaped[..]) + ['\n']);
    }

    /** `_offline_deliver_from_file` */
    method DeliverAll() returns (delivered: seq<Message>)
      modifies this
      ensures delivered == Deliver(old(file)) && file == []
    {
      hide Deliver, ParseLine;
      delivered := [];
      var rest := file;
      while rest != []
        invariant delivered + Deliver(rest) == Deliver(file)
        invariant file == old(file)
        decreases |rest|
      {
        DeliverStep(rest);
        var n := Taken(rest);
        var messages := DeliverLine(rest[..n]);
        assert delivered + (messages + Deliver(rest[n..])) == (delivered + messages) + Deliver(rest[n..]);
        delivered := delivered + messages;
        rest := rest[n..];
      }
      NothingDelivered(rest);
      file := [];
    }

    method DeliverLine(line: string) returns (messages: seq<Message>)
      ensures messages == ParseLine(line)
    {
      var l := Cut(Cut(CString(line), '\n'), '\r');
      if l == [] { return []; }
      var tab := Find(l, '\t');
      if tab == |l| { return []; }
      var body := OfflineUnescape(l[tab + 1..]);
      messages := [Message(l[..tab], body)];
    }
  }

  // ----- saving and delivering

  predicate FromOk(from: string) {
    '\t' !in from && '\r' !in from && '\n' !in from && '\0' !in from
  }

  /** The message as it is to come back: the text of its body up to a NUL, each line end an LF. */
  function AsSent(m: Message): Message {
    Message(m.from, Normalize(CString(m.body)))
  }

  lemma RecordIs(m: Message)
    requires FromOk(m.from)
    ensures var text := Escape(CString(m.body));
      && Record(m) == m.from + ['\t'] + text + ['\n']
      && '\n' !in text && '\r' !in text && '\0' !in text && Unescape(text) == AsSent(m).body
  {
    hide Escape, Unescape, Normalize;
    CutNone(m.from, '\0');
    EscapeCString(m.body);
    EscapeIsOneLine(CString(m.body));
    UnescapeEscape(CString(m.body));
  }

  /** A record that `fgets` returns whole, at worst without its line end. */
  predicate Fits(m: Message) {
    |Record(m)| <= LINE + 1
  }

  /** A line of a sender, a tab and the start of an escaped body. */
  lemma ParseIs(from: string, text: string, end: string)
    requires FromOk(from) && '\n' !in text && '\r' !in text && '\0' !in text && (end == [] || end == ['\n'])
    ensures ParseLine(from + ['\t'] + text + end) == [Message(from, Unescape(text))]
  {
    var l := from + ['\t'] + text;
    CutNone(l + end, '\0');
    if end == [] {
      assert l + end == l;
      CutNone(l, '\n');
    } else {
      assert l + end == l + ['\n'] + [];
      CutAt(l, '\n', []);
    }
    CutNone(l, '\r');
    assert l[..|from|] == from && l[|from| + 1..] == text;
    FindIs(l, '\t', |from|);
  }

  lemma EmptyLine()
    ensures Deliver(['\n']) == []
  {
    var f := ['\n'];
    FindIs(f, '\n', 0);
    CutNone(f, '\0');
    CutAt([], '\n', []);
    CutNone([], '\r');
    assert [] + ['\n'] + [] == f && f[..1] == f && f[1..] == [];
  }

  /** A record that fits is one message. */
  lemma WholeRecord(m: Message)
    requires FromOk(m.from) && Fits(m)
    ensures Deliver(Record(m)) == [AsSent(m)]
  {
    hide Escape, Unescape, Normalize, ParseLine, CString, Record;
    RecordIs(m);
    var text := Escape(CString(m.body));
    var l := m.from + ['\t'] + text;
    var file := l + ['\n'];
    assert file[..|l|] == l;
    FindIs(file, '\n', |l|);
    if |l| < LINE {
      assert file[..|l| + 1] == l + ['\n'] && file[|l| + 1..] == [];
      ParseIs(m.from, text, ['\n']);
    } else {
      assert |l| == LINE && Taken(file) == LINE && file[..LINE] == l && l + [] == l;
      ParseIs(m.from, text, []);
      EmptyLine();
      assert file[LINE..] == ['\n'];
    }
  }

  predicate EndsLine(a: string) {
    a == [] || a[|a| - 1] == '\n'
  }

  lemma TakenFromFront(a: string, b: string)
    requires a != [] && EndsLine(a)
    ensures Taken(a + b) == Taken(a) && EndsLine(a[Taken(a)..])
    ensures (a + b)[..Taken(a)] == a[..Taken(a)] && (a + b)[Taken(a)..] == a[Taken(a)..] + b
  {
    var k := Find(a, '\n');
    assert forall t :: 0 <= t < k ==> a[t] == a[..k][t];
    assert (a + b)[..k] == a[..k];
    FindIs(a + b, '\n', k);
  }

  /** Reading starts afresh on every line. */
  lemma {:induction false} DeliverAppend(a: string, b: string)
    requires EndsLine(a)
    ensures Deliver(a + b) == Deliver(a) + Deliver(b)
    decreases |a|
  {
    hide ParseLine, Taken;
    if a == [] {
      assert a + b == b;
    } else {
      TakenFromFront(a, b);
      DeliverStep(a);
      DeliverStep(a + b);
      DeliverAppend(a[Taken(a)..], b);
    }
  }

  /** The file after a series of saves: a message without a body is not kept. */
  function Records(ms: seq<Message>): string
    decreases |ms|
  {
    if ms == [] then [] else (if ms[0].body == [] then [] else Record(ms[0])) + Records(ms[1..])
  }

  function AllSent(ms: seq<Message>): seq<Message>
    decreases |ms|
  {
    if ms == [] then [] else (if ms[0].body == [] then [] else [AsSent(ms[0])]) + AllSent(ms[1..])
  }

  lemma RecordsStep(ms: seq<Message>)
    requires ms != [] && ms[0].body != []
    ensures Deliver(Records(ms)) == Deliver(Record(ms[0])) + Deliver(Records(ms[1..]))
    ensures AllSent(ms) == [AsSent(ms[0])] + AllSent(ms[1..])
  {
    hide Deliver;
    DeliverAppend(Record(ms[0]), Records(ms[1..]));
  }

  /** Any series of saves that fit is delivered as it was saved, in order, but for the kind of line ends. */
  lemma {:induction false} SavedIsDelivered(ms: seq<Message>)
    requires forall i :: 0 <= i < |ms| ==> FromOk(ms[i].from) && Fits(ms[i])
    ensures Deliver(Records(ms)) == AllSent(ms)
    decreases |ms|
  {
    hide Record, Fits, AsSent;
    if ms != [] {
      SavedIsDelivered(ms[1..]);
      if ms[0].body == [] {
        assert [] + Records(ms[1..]) == Records(ms[1..]);
      } else {
        WholeRecord(ms[0]);
        RecordsStep(ms);
      }
    }
  }

  // ----- records too long for the line buffer

  /** What is left of an escaped body that has been cut. */
  lemma {:induction false} CutBody(b: string, k: nat)
    requires k < |Escape(b)|
    ensures Unescape(Escape(b)[..k]) == Normalize(b) <==> k == |Escape(b)| - 1 && b[|b| - 1] == '\\'
    decreases |b|
  {
    hide Unescape, Normalize;
    var e, rest := Escape(b), b[1..];
    assert e == EscapeChar(b[0]) + Escape(rest);
    NormalizeCons(b);
    if k >= |EscapeChar(b[0])| {
      var j := k - |EscapeChar(b[0])|;
      assert e[..k] == EscapeChar(b[0]) + Escape(rest)[..j];
      UnescapeOne(b[0], Escape(rest)[..j]);
      assert rest != [] && rest[|rest| - 1] == b[|b| - 1];
      CutBody(rest, j);
      SamePrefix(Normalize([b[0]]), Unescape(Escape(rest)[..j]), Normalize(rest));
    } else {
      UnescapeShort(e[..k]);
      if k == 1 { assert e[..1] == ['\\']; }
      if rest == [] { assert Escape(rest) == []; }
    }
  }

  lemma SamePrefix(p: string, a: string, b: string)
    ensures p + a == p + b <==> a == b
  {
    if p + a == p + b {
      assert (p + a)[|p|..] == a && (p + b)[|p|..] == b;
    }
  }

  lemma NormalizeCons(b: string)
    requires b != []
    ensures Normalize(b) == Normalize([b[0]]) + Normalize(b[1..]) && |Normalize(b)| == |b|
    ensures Normalize([b[0]]) == [if b[0] == '\r' then '\n' else b[0]]
  {}

  lemma UnescapeShort(s: string)
    requires |s| <= 1
    ensures Unescape(s) == s
  {}

  /** The spool line that an over-long record leaves behind when only its last character is cut. */
  lemma LoneBackslash()
    ensures Deliver(['\\', '\n']) == []
  {
    var f := ['\\', '\n'];
    assert f[..1] == ['\\'];
    FindIs(f, '\n', 1);
    assert f[..2] == f && f[2..] == [];
    var l: string := ['\\'];
    assert l[..1] == l;
    FindIs(l, '\r', 1);
    FindIs(l, '\t', 1);
  }

  /** What survives: a record that fits, or of which only half of a last backslash is cut off. */
  predicate Survives(m: Message) {
    Fits(m) || (|Record(m)| == LINE + 2 && CString(m.body) != [] && CString(m.body)[|CString(m.body)| - 1] == '\\')
  }

  /** The first thing delivered of a record is its message exactly if it survives, and then there is nothing else. */
  lemma FirstOfRecord(m: Message)
    requires FromOk(m.from) && |m.from| <= 3071
    ensures var d := Deliver(Record(m));
      d != [] && (d[0] == AsSent(m) <==> Survives(m)) && (Survives(m) ==> |d| == 1)
  {
    hide Escape, Unescape, Normalize, ParseLine, CString, Deliver;
    if Fits(m) {
      WholeRecord(m);
    } else {
      var b, k := CString(m.body), LINE - |m.from| - 1;
      var text := Escape(b);
      LongRecord(m, k);
      CutBody(b, k);
      if k == |text| - 1 && b[|b| - 1] == '\\' {
        LastChar(b);
        assert text[k..] == ['\\'] && ['\\'] + ['\n'] == ['\\', '\n'];
        LoneBackslash();
      }
    }
  }

  lemma LongRecord(m: Message, k: nat)
    requires FromOk(m.from) && k == LINE - |m.from| - 1 && !Fits(m)
    ensures var text := Escape(CString(m.body));
      && k < |text| && CString(m.body) != [] && |text| - k == |Record(m)| - LINE - 1
      && Deliver(Record(m)) == [Message(m.from, Unescape(text[..k]))] + Deliver(text[k..] + ['\n'])
  {
    hide Unescape, ParseLine, CString, Record;
    RecordIs(m);
    var text := Escape(CString(m.body));
    var l := m.from + ['\t'] + text;
    var file := Record(m);
    assert file[..|l|] == l;
    FindIs(file, '\n', |l|);
    assert Taken(file) == LINE;
    assert file[..LINE] == m.from + ['\t'] + text[..k] + [] && file[LINE..] == text[k..] + ['\n'];
    assert forall c :: c in text[..k] ==> c in text;
    ParseIs(m.from, text[..k], []);
  }

  predicate AllSurvive(ms: seq<Message>) {
    forall i :: 0 <= i < |ms| && ms[i].body != [] ==> Survives(ms[i])
  }

  lemma AllSurviveStep(ms: seq<Message>)
    requires ms != []
    ensures AllSurvive(ms) <==> (ms[0].body != [] ==> Survives(ms[0])) && AllSurvive(ms[1..])
  {
    hide Survives;
    assert forall i :: 1 <= i < |ms| ==> ms[i] == ms[1..][i - 1];
  }

  lemma SameStart<T>(d: seq<T>, rest: seq<T>, x: T, xs: seq<T>)
    requires d != []
    ensures d + rest == [x] + xs ==> d[0] == x
    ensures d == [x] ==> (d + rest == [x] + xs <==> rest == xs)
  {
    if d + rest == [x] + xs {
      assert (d + rest)[0] == d[0] && ([x] + xs)[1..] == xs;
      if d == [x] { assert (d + rest)[1..] == rest; }
    }
  }

  /**
   A series of saves comes back as saved exactly when every record of it survives.  A full address is three parts of at
   most 1023 characters and two separators.
   */
  lemma {:induction false} SeriesSurvivesIff(ms: seq<Message>)
    requires forall i :: 0 <= i < |ms| ==> FromOk(ms[i].from) && |ms[i].from| <= 3071
    ensures Deliver(Records(ms)) == AllSent(ms) <==> AllSurvive(ms)
    decreases |ms|
  {
    hide Record, Survives, AsSent, Deliver, AllSurvive, FromOk;
    if ms == [] {
      Nothing();
    } else {
      SeriesSurvivesIff(ms[1..]);
      AllSurviveStep(ms);
      if ms[0].body == [] {
        assert [] + Records(ms[1..]) == Records(ms[1..]);
        assert [] + AllSent(ms[1..]) == AllSent(ms[1..]);
      } else {
        FirstOfRecord(ms[0]);
        RecordsStep(ms);
        SameStart(Deliver(Record(ms[0])), Deliver(Records(ms[1..])), AsSent(ms[0]), AllSent(ms[1..]));
      }
    }
  }

  lemma Nothing()
    ensures Deliver([]) == [] && AllSurvive([])
  {}

  lemma {:induction false} LastChar(b: string)
    requires b != [] && b[|b| - 1] == '\\'
    ensures |Escape(b)| >= 1 && Escape(b)[|Escape(b)| - 1] == '\\'
  {
    EscapeTo(b, |b| - 1);
    assert b[..|b|] == b;
  }

  // ----- the texts, character by character

  /** A backslash is doubled, LF and CR become a backslash and an n, and nothing else changes. */
  lemma EscapedIs(a: string, c: char, b: string)
    ensures Escape(a + [c] + b)
         == Escape(a) + (if c == '\\' then "\\\\" else if c == '\n' || c == '\r' then "\\n" else [c]) + Escape(b)
    ensures Escape([]) == []
  {
    hide Escape;
    EscapeAppend(a + [c], b);
    EscapeSnoc(a, c);
    Unescaped();
  }

  lemma Unescaped()
    ensures Escape([]) == [] && Unescape([]) == []
  {}

  /** A backslash stands for what follows it, an n for LF; a last one and everything else stand for themselves. */
  lemma UnescapedIs(c: char, x: char, rest: string)
    ensures Unescape([]) == [] && Unescape(['\\']) == ['\\']
    ensures Unescape(['\\', x] + rest) == [if x == 'n' then '\n' else x] + Unescape(rest)
    ensures c != '\\' ==> Unescape([c] + rest) == [c] + Unescape(rest)
  {
    assert (['\\', x] + rest)[2..] == rest && ([c] + rest)[1..] == rest;
    assert ['\\'][1..] == [];
  }

  /** The message a line of the spool stands for ends at the first NUL, LF or CR; without a tab it is none. */
  lemma LineMeans(l: string, end: string, from: string, text: string)
    requires '\0' !in l && '\n' !in l && '\r' !in l
    requires end == [] || end[0] == '\0' || end[0] == '\n' || end[0] == '\r'
    ensures '\t' !in l ==> ParseLine(l + end) == []
    ensures l == from + ['\t'] + text && '\t' !in from ==> ParseLine(l + end) == [Message(from, Unescape(text))]
  {
    hide Unescape;
    CutsTo(l, end);
    if '\t' !in l { FindIs(l, '\t', |l|); }
    if l == from + ['\t'] + text && '\t' !in from {
      FindIs(l, '\t', |from|);
      assert l[..|from|] == from && l[|from| + 1..] == text;
    }
  }

  lemma CutsTo(l: string, end: string)
    requires '\0' !in l && '\n' !in l && '\r' !in l
    requires end == [] || end[0] == '\0' || end[0] == '\n' || end[0] == '\r'
    ensures Cut(Cut(CString(l + end), '\n'), '\r') == l
  {
    var a := CString(l + end);
    CutKeeps(l, end, '\0');
    var e1 := a[|l|..];
    assert a == l + e1;
    CutKeeps(l, e1, '\n');
    var b := Cut(a, '\n');
    var e2 := b[|l|..];
    assert b == l + e2;
    CutKeeps(l, e2, '\r');
    if end != [] {
      assert e1 == [] || e1[0] == end[0];
      assert e2 == [] || e2[0] == e1[0];
    }
  }

  lemma CutKeeps(l: string, end: string, c: char)
    requires c !in l
    ensures l <= Cut(l + end, c) <= l + end
    ensures end != [] && end[0] == c ==> Cut(l + end, c) == l
    ensures end == [] ==> Cut(l + end, c) == l
  {
    assert forall t :: 0 <= t < |l| ==> (l + end)[t] in l;
    if end != [] && end[0] == c { FindIs(l + end, c, |l|); }
  }

  /**
   A line is read with its LF if that is among its first 65535 characters, and else in pieces of so many; the last line of
   a file need not have one.
   */
  lemma DeliveredIs(l: string, rest: string)
    requires '\n' !in l
    ensures |l| < 65535 ==> Deliver(l + ['\n'] + rest) == ParseLine(l + ['\n']) + Deliver(rest)
    ensures |l| >= 65535 ==> Deliver(l + ['\n'] + rest) == ParseLine(l[..65535]) + Deliver(l[65535..] + ['\n'] + rest)
    ensures 0 < |l| <= 65535 ==> Deliver(l) == ParseLine(l)
    ensures |l| > 65535 ==> Deliver(l) == ParseLine(l[..65535]) + Deliver(l[65535..])
    ensures Deliver([]) == []
  {
    hide ParseLine, Deliver;
    var file := l + ['\n'] + rest;
    FindIs(file, '\n', |l|);
    FindIs(l, '\n', |l|);
    DeliverStep(file);
    NothingDelivered([]);
    if |l| < 65535 {
      assert file[..|l| + 1] == l + ['\n'] && file[|l| + 1..] == rest;
    } else {
      assert file[..65535] == l[..65535] && file[65535..] == l[65535..] + ['\n'] + rest;
    }
    if l != [] {
      DeliverStep(l);
      if |l| <= 65535 { assert l[..|l|] == l && l[|l|..] == []; }
    }
  }

  /** The spool line of a message: its sender, a tab, its escaped body and an LF; it fits with at most 65536 characters. */
  lemma SpooledIs(m: Message)
    requires FromOk(m.from) && '\0' !in m.body
    ensures Record(m) == m.from + "\t" + Escape(m.body) + "\n"
    ensures Fits(m) <==> |m.from| + |Escape(m.body)| + 2 <= 65536
    ensures Survives(m) <==>
      |m.from| + |Escape(m.body)| + 2 <= 65536
      || (|m.from| + |Escape(m.body)| + 2 == 65537 && m.body != [] && m.body[|m.body| - 1] == '\\')
  {
    hide Escape;
    RecordIs(m);
    CutNone(m.body, '\0');
  }
}

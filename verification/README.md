# Verified models of jabberd2

jabberd2 is an XMPP server built from cooperating daemons.  This project models the
in-memory state machines and codecs at its core in Dafny and proves what they keep.
`dafny verify dfyconfig.toml` checks everything.

* **Router** (`RouterModel`, `RouterTables`, `RouterPackets`, `RouterAdverts`, `RouterFailures`,
  `Router`): who may bind which name and what is answered, the two name indexes and the
  available/unavailable adverts, over all interleavings of connect, bind, unbind and close.
* **Session manager** (`SmModel`, `SmUsers`, `SmDelivery`, `SmPresence`, `SmRuns`, `SmStale`,
  `Users`, `SessionManager`, `JidList`): who is sent which presence, presence tracking with the
  directed set A and the bounced set E, the cached top session, and the global session table,
  over all runs.
* **SOCKS5 bytestream proxy** (`SocksHandshake`, `SocksConn`, `Proxy65`): the incremental
  handshake, the rendezvous heap with its teardown, and the relay with backpressure.
* **bcrypt** (`BcryptBase64`, `BcryptKey`, `BcryptCipher`, `Bcrypt`, `BcryptText`): its base 64, settings
  and hashes as texts, the key set-up with the sign-extension bug and its safety measure, the
  block cipher, and hashing as verification.
* **Stream library** (`WebSocketModel`, `WebSocketFrames`, `WebSocketWire`, `Rounding`,
  `WebSocket`, `WebSocketSend`, `Chain`, `StreamIo`): WebSocket frames, plugin chains and the
  write queue.
* **Utilities** (`Access`, `Config`, `Base64`, `Base64Text`, `Offline`).

Where the source changes things in place the model has classes and loops; each such
method is proved equal to a function on values, and the properties are lemmas about
those functions over all inputs and runs.  The classes of the SOCKS proxy carry their
invariant on the heap itself.

Findings.  Each is a lemma that says exactly when the code does what it is for, or, where only
that can be said, that it does not on a given input:

* a second `multi` bind of a name by one component breaks the router's tables
  (`RouterTables.BindKeepsTable`); an unbind right after it does not mend them
  (`RepeatedBindLeaks`), one after another component's bind of the name does
  (`RepeatedBindHeals`); a bind refused as a log sink can leave a default route that nobody
  bound (`StepKeepsDefault`);
* names with several holders cost the truth of the adverts: a component that holds a name is
  told that it is available when another one binds it too, and a component that gives up a
  name which others still hold, and keeps another, is not told that it is available
  (`RouterAdverts.BindAgreement`, `UnbindAgreement`; for one component `BinderAgreesIff`,
  `LeaverAgreesIff`); `RunKeepsRouterOk` says exactly which runs keep it, and `RouterFailures`
  has runs from start-up that reach these cases, with native components alone and with a
  legacy one, and the default route that nobody bound;
* a session that never was available and only sent directed presence to roster contacts does
  not tell them when it ends (`SmStale.EndTellsAll`, reached in `SilentEndIsReached`);
* directed presence goes out under any address of the user that the client writes into it, but
  is accounted for under the session that sent it: a session can be shown to a contact by its
  sibling, or forget a contact it told, and the contact is left with stale presence
  (`SmStale.AccountsIff`, reached in `LentIsReached` and `WithdrawnIsReached`);
* a WebSocket ping between two fragments makes the rest of the message be treated as a ping
  (`WebSocketFrames.PingSwallowsContinuation`, `MessageArrivesIff`); RFC 6455 section 5.4 allows
  such a ping; and a close frame discards the text that came before it in the same read event
  (`WebSocketWire.CloseDiscards`);
* the payload that a WebSocket header announces lies inside the buffer made for it if and only
  if the frame has at most 2^30 bytes (`WebSocket.StaysInsideIff`);
* after a partial write of its last buffer a closing stream is never reported closed by write
  events (`StreamIo.CloseCompletesIff`, `PartialWriteStallsClose`), and a buffer that a plugin
  wants to retry goes behind all others (`RetryKeepsOrderIff`); a write that fails loses its
  buffer and leaves the stream unclosed (`WriteIs`);
* a dotted netmask with holes is silently widened (`Access.MaskMeansAndIff`); across address
  families a prefix of at most 96 bits compares IPv4 bits under a mapped rule and matches
  nothing under any other (`ShortPrefixIff`);
* configuration values do not always mean what README.config:15-30 says: they do for all texts if
  and only if no value can form an opening `${` with what stands around it
  (`Config.SubstitutionIff`), and there is a file whose loading goes on for ever
  (`CycleNeverLoads`); it ends if no text ends in a dollar sign, or none begins with a brace
  (`LoadEndsIfCapped`, `LoadEndsIfBlunt`);
* over-long offline records are cut, and exactly then is a series of messages not delivered as it
  was saved (`Offline.SeriesSurvivesIff`).

## Model

| member | source | states |
|---|---|---|
| `RouterTables.SwapScanRemoves` | router/router.c:179-200 | of an array without repetitions, the removal loop with its move of the last slot removes exactly the one component and keeps the others |
| `RouterTables.BindKeepsTable` | router/router.c:297-312 | a bind keeps `r->routes` the exact inverse of all `comp->routes` if and only if it is not an accepted second bind of a name the component holds already |
| `RouterTables.StepKeepsTable` | router/router.c:159-200 | connect, legacy opening, bind, unbind and close keep the two indexes exact inverses, rows non-empty and without repetitions |
| `RouterTables.StepKeepsSinks` | router/router.c:278-293 | no packet, refused or repeated binds included, leaves a log sink that is closed or no longer holds its name |
| `RouterTables.StepKeepsDefault` | router/router.c:262-293 | the default route stays a bound name if and only if the event is not a bind that records it and is then refused as a log sink |
| `RouterTables.RepeatedBindLeaks` | router/router.c:179-200 | a second `multi` bind of a held name and then an unbind leave the row as it was before both, naming a component that no longer holds the name |
| `RouterTables.RepeatedBindHeals` | router/router.c:179-200 | if another component binds the name in between, the unbind clears both entries and the indexes are inverse again |
| `RouterAdverts.BindAgreement` | router/router.c:304-312 | a bind keeps every native component's last adverts in agreement with the table if and only if the name does not get a second holder that a native holder (or the binder itself) would be told about |
| `RouterAdverts.BinderAgreesIff` | router/router.c:304-312 | a binder that knew the truth still knows it if and only if nobody held the name or it held none itself |
| `RouterAdverts.OpenAgreement` | router/router.c:811-836 | the opening of a legacy component keeps all native components' adverts true if and only if none of them holds its name |
| `RouterAdverts.UnbindAgreement` | router/router.c:352-369 | an unbind keeps them if and only if a native component does not leave a name it shares while keeping another |
| `RouterAdverts.LeaverAgreesIff` | router/router.c:352-369 | a component that knew the truth still knows it after an unbind if and only if nobody else holds the name or it keeps none |
| `RouterAdverts.OthersAgreeAfterUnbind` | router/router.c:352-369 | everybody else who knew the truth still does |
| `RouterAdverts.CloseAgreement` | router/router.c:1058-1081 | a close leaves everybody else's adverts true, whatever names were shared |
| `RouterAdverts.StepAgreementIff` | router/router.c:36-98 | any event but a repeated bind keeps the adverts true if and only if it is none of the two kinds above |
| `RouterAdverts.RunKeepsRouterOk` | router/router.c:36-98 | a run without repeated binds has true tables, sinks and adverts at every moment if and only if no event in it is of those kinds |
| `RouterAdverts.SingleHoldersAgree` | router/router.c:36-98 | so has every run in which no name gets a second holder |
| `RouterAdverts.RunKeepsTable` | router/router.c:297-312 | in every run without repeated binds, shared names included, the indexes stay exact inverses and the sinks valid |
| `RouterAdverts.ToldTheTruth` | router/router.c:51-98 | a native component that holds a name has "available" as the last advert for exactly the names that others hold and it does not |
| `RouterAdverts.CloseForgets` | router/router.c:1058-1081 | after its close no row and no log sink mentions a component |
| `RouterFailures.SharedBindIsReached` | router/router.c:297-312 | a run in which two native components come to share a name, and the first is told it is available elsewhere |
| `RouterFailures.SharedUnbindIsReached` | router/router.c:352-369 | a run in which a native component leaves a name it shares with a legacy one that opened under it, and is not told that it is available |
| `RouterFailures.NativeUnbindIsReached` | router/router.c:352-369 | a run of native components alone in which one that shares a name knows the truth until it leaves the name |
| `RouterFailures.DanglingDefaultIsReached` | router/router.c:262-293 | a run whose second event leaves a default route that nobody bound |
| `RouterPackets.BindEntersIff` | router/router.c:202-312 | a bind enters the name in both tables if and only if a name is given, it is the component's own or "bind" is allowed, it is free or `multi` is set, it is no alias, a requested default route is allowed and none is set, and a requested log is allowed; otherwise neither table changes |
| `RouterPackets.BindAnswer` | router/router.c:202-294 | which of 400, 403, 409 and the echo a bind is answered with, by if-and-only-ifs on the request and the tables; a refusal is all that is written to anybody |
| `RouterPackets.BindRecords` | router/router.c:243-293 | the default route is recorded if it is asked for, allowed and free and the name is not refused, even if a log sink is refused after that; a log sink if the bind is let in |
| `RouterPackets.BindTells` | router/router.c:304-312 | after the echo the binder is told of the names of the walk, every other native component of the new name, once for each of its places in the table, and nobody else of anything |
| `RouterPackets.UnbindRefused` | router/router.c:331-350 | 400 without a name, 404 for a name that is not held, and nothing else happens |
| `RouterPackets.UnbindTakes` | router/router.c:352-369 | an unbind takes exactly the name out of the row, the component, the sinks and the default route; the others are told that it is gone if and only if nobody is left |
| `RouterPackets.CloseTakes` | router/router.c:1058-1081 | a close takes exactly the component's places in the table, the sinks of its names, and the default route if it is one of them |
| `RouterPackets.CloseTells` | router/router.c:1003-1026 | every native component that holds a name is told of exactly the names that only the closed one held |
| `RouterPackets.OpenEntersIff` | router/router.c:811-836 | a legacy opening enters and announces its name unless it is an alias |
| `RouterPackets.HoldsIff` | router/router.c:202-369 | in every run a component holds a name if and only if a bind that met these conditions, or its opening, let it in and no unbind of the name or close of its own has let it go since |
| `RouterPackets.OutsiderNeverHolds` | router/router.c:220-228 | so a component that may not bind other names never holds a foreign name by a bind |
| `Router.Router.AcceptPeer` | router/router.c:1097-1118 | connecting registers a component without names |
| `Router.Router.HeadLegacy` | router/router.c:786-793 | the stream header of a legacy component marks it as one |
| `Router.Router.OpenLegacy` | router/router.c:811-836 | its opening binds the name it asked for and advertises it, unless it is an alias |
| `Router.Router.RouteAdd` | router/router.c:159-177 | appends the component to the row of the name, creating it if needed, and returns the number of holders |
| `Router.Router.RouteRemove` | router/router.c:179-200 | is the removal proved exact by SwapScanRemoves, dropping a row of one |
| `Router.Router.BroadcastRow` | router/router.c:36-49 | writes the packet once for every slot of the row to its component, except the source and legacy components |
| `Router.Router.Advertise` | router/router.c:51-72 | is the broadcast over the whole table |
| `Router.Router.AdvertiseReverse` | router/router.c:74-98 | tells a component, in walk order, of exactly the names it does not hold itself |
| `Router.Router.CheckBind` | router/router.c:202-293 | answers a bind with the first failed check, aliased names included, recording the default route before the log-sink check as the code does; which answer that is on which request is `RouterPackets.BindAnswer` |
| `Router.Router.ProcessBind` | router/router.c:202-312 | the whole bind is the model's Bind, replies and adverts included |
| `Router.Router.ProcessUnbind` | router/router.c:331-372 | the whole unbind is the model's Unbind |
| `Router.Router.UnbindWalker` | router/router.c:1003-1026 | one name given up by a closing component |
| `Router.Router.UnbindAll` | router/router.c:1058-1081 | the walk over all names of a closing component, in any order |
| `Router.Router.CloseComponent` | router/router.c:1058-1081 | the whole close is the model's Close under some walk order |
| `SmUsers.ZapRemoves` | util/jid.c:422-460 | on a list without duplicates, zapping leaves exactly the other addresses and no duplicates |
| `SmUsers.AppendKeeps` | util/jid.c:463-488 | appending adds exactly the one address and no duplicate |
| `SmUsers.ListsInOrder` | util/jid.c:422-488 | zapping takes the first occurrence and moves nothing else, a new address is appended last |
| `JidList.Search` | util/jid.c:412-419 | the pointer walk finds an address if and only if it is in the list |
| `JidList.JidZap` | util/jid.c:422-460 | the in-place removal leaves a well-formed list of the model's Zap and frees at most the one node |
| `JidList.JidAppend` | util/jid.c:463-488 | the in-place append leaves a well-formed list of the model's Append, with a new node only for a new address |
| `SmUsers.TopSessionIsTop` | sm/pres.c:41-69 | the scan ends with the last available session of maximal priority 0 or more, or none |
| `SmUsers.TopIsUnique` | sm/pres.c:41-69 | there is only one such session |
| `SmUsers.CachedTop` | sm/pres.c:41-69 | the cached top and availability are those, and the cached top is a linked, available session |
| `SmUsers.GoAvailableKeeps` | sm/pres.c:79-135 | an available update keeps the user invariant: A and E duplicate-free and disjoint, A untrusted, available iff presence is cached, caches right |
| `SmUsers.GoUnavailableKeeps` | sm/pres.c:137-216 | so does an unavailable update |
| `SmUsers.DeliverKeeps` | sm/pres.c:295-333 | so does directed presence |
| `SmUsers.PktUserKeeps` | sm/mod_presence.c:87-131 | so does presence arriving from the router, bounces included |
| `SmUsers.EndGutsKeeps` | sm/sess.c:62-83 | so does the end of a session |
| `SmUsers.EndGutsUnlinks` | sm/sess.c:70-79 | the end of a session unlinks that session only and keeps the order of the others |
| `SmPresence.GoUnavailableTells` | sm/pres.c:137-216 | whom an unavailable update reaches: exactly the roster items not in E and the untrusted members of A |
| `SmPresence.DeliverAccountsIff` | sm/pres.c:295-333 | directed presence keeps a contact's account with a session unless another session lends it the address while the contact is unaccounted for, or it withdraws under another address from an untrusted contact in A |
| `SmPresence.EndGutsTells` | sm/sess.c:62-68 | at the end of a session an accounted contact is told if and only if the session is available or has directed presence out |
| `SmRuns.StepKeepsRegistry` | sm/sess.c:85-182 | `sm->sessions` stays the union of all users' lists and every loaded user keeps a session, over starts, ends and packets |
| `SmRuns.SessionsAreUnique` | sm/sess.c:129-151 | no two live sessions share a full address or an id |
| `SmStale.RunKeepsRegistry` | sm/dispatch.c:129-169 | the registry invariant holds after every event of every run |
| `SmStale.StepAccountsIff` | sm/pres.c:220-333 | any event keeps the account of any contact with any session if and only if it is neither of these two |
| `SmStale.AccountsIff` | sm/pres.c:220-333 | in any run, whoever was last sent a session's available presence and has not bounced is a roster item outside E or a member of A at every moment if and only if no such event happens, the second kind counting only while something is owed |
| `SmStale.OwnSignatureIsHonest` | sm/mod_presence.c:36-43 | none happens where sessions write their own address, or none, into directed presence |
| `SmStale.OwedIsAccounted` | sm/pres.c:220-333 | so in a run without such events everyone owed is accounted for |
| `SmStale.UnavailableTellsAll` | sm/pres.c:137-216 | no stale presence: in such a run, everyone owed it is sent unavailable when the session goes unavailable |
| `SmStale.EndTellsAll` | sm/sess.c:62-68 | in such a run they are told at the end of the session if and only if it is available or A is non-empty, and always if untrusted |
| `SmStale.SilentEndIsReached` | sm/sess.c:62-68 | for any user and roster contact there is a run that ends in a session which owes the contact word and ends without it |
| `SmStale.LentIsReached` | sm/mod_presence.c:36-43 | for any two addresses of a user there is a run in which one session shows the other to an untrusted contact, and the other goes without a word |
| `SmStale.WithdrawnIsReached` | sm/pres.c:319-326 | for any two addresses there is a run in which a session withdraws under the other, and goes without a word to a contact it had told |
| `SmStale.ReplacementTellsAll` | sm/sess.c:129-150 | the same when a new session replaces one with the same address |
| `Users.UserRecord.PresTop` | sm/pres.c:41-69 | the loop computes the model's top and availability |
| `Users.UserRecord.BecomeAvailable` | sm/pres.c:79-135 | the in-place update and everything sent are the model's GoAvailable |
| `Users.UserRecord.BecomeUnavailable` | sm/pres.c:137-216 | likewise GoUnavailable |
| `Users.UserRecord.PresUpdate` | sm/pres.c:72-217 | likewise Update, own probes included |
| `Users.UserRecord.PresIn` | sm/pres.c:220-284 | likewise In: probes refused to the untrusted, answered per session, E cleared; other presence delivered; who gets what is `SmDelivery.InDelivers`, `BareProbeAnswers` and `FullProbeAnswers` |
| `SmUsers.BounceKeeps` | sm/pres.c:287-292 | a bounce puts the address into E and out of A, touches no other address and no other session, and keeps the user invariant |
| `Users.UserRecord.PresDeliver` | sm/pres.c:295-333 | likewise Deliver, the packet going out under the address it came with |
| `SmUsers.ProbeShowsIff` | sm/pres.c:220-355 | trust decides who learns of a user: a probe is answered with available presence if and only if the prober is trusted and an available session other than its own is asked for; the untrusted are told "unsubscribed" and nothing changes |
| `Users.UserRecord.SessMatch` | sm/sess.c:190-200 | finds the first session with the resource or none |
| `Users.UserRecord.PresPktUser` | sm/mod_presence.c:87-131 | likewise PktUser |
| `SmDelivery.InDelivers` | sm/pres.c:245-281 | presence other than a probe is delivered once to each available session whose address is not the sender's, in list order, as it came; nothing else is sent and no session changes |
| `SmDelivery.UntrustedProbe` | sm/pres.c:226-234 | a probe is answered with "unsubscribed" alone if and only if the prober is neither in the roster, bare or full, nor the user |
| `SmDelivery.BareProbeAnswers` | sm/pres.c:236-276 | a trusted probe of the bare address is answered for each available session but the prober's own, in list order, with its cached presence under its address; exactly those sessions take the prober out of E |
| `SmDelivery.FullProbeAnswers` | sm/pres.c:258-276 | one of a full address is answered, if an available session has it, with one presence without content |
| `SmDelivery.PktUserDelivers` | sm/mod_presence.c:113-131 | presence that is no bounce goes for a full address, a probe too, to the first session with the resource or to nobody, and is taken in for the bare one |
| `SmDelivery.BarePresenceDelivers` | sm/mod_presence.c:113-131 | so for the bare address it reaches every available session but the sender's own |
| `SmDelivery.BounceTracks` | sm/mod_presence.c:94-131 | a bounce moves its sender from A to E in the first session with the resource, is dropped if it was a probe and delivered if not; without such a session nothing happens |
| `SmDelivery.DispatchDelivers` | sm/dispatch.c:129-169 | the same for a packet from the router: every available session of a loaded user gets it and no state changes, whatever loading would give |
| `SmDelivery.DispatchAnswers` | sm/dispatch.c:129-169 | a probe from the router: the untrusted, and whoever asks for an account that cannot be loaded, are told "unsubscribed"; loading alone changes nothing |
| `SmDelivery.DispatchHandsOver` | sm/dispatch.c:129-169 | a packet for a full address goes to that session if any session of the user is available, a probe always |
| `SmDelivery.DispatchBounces` | sm/dispatch.c:129-169 | bounces are tracked only while the user is loaded and a session is available |
| `SmDelivery.AvailableSends` | sm/pres.c:79-135 | everything an available presence sends, by an if-and-only-if and a count: itself to the roster items not in E and the other available sessions, and probes to the roster and the user if the session was not available; the session keeps it with its priority |
| `SmDelivery.UnavailableSends` | sm/pres.c:137-216 | likewise an unavailable one: to the roster items not in E, to A and to the other available sessions; the session forgets its presence, A and E |
| `SmDelivery.OtherUpdates` | sm/pres.c:196-212 | a probe without an address is taken in as one of the user itself, anything else is dropped |
| `SmDelivery.DirectedPresence` | sm/pres.c:310-333 | directed presence goes out once; an available one puts an untrusted address into A, an unavailable one takes it out, both take it out of E, anything else is dropped |
| `SmDelivery.DirectedToSelf` | sm/pres.c:303-308 | to the own user it is taken in as one from the session |
| `SmDelivery.EndRemovesOne` | sm/sess.c:85-101 | the end of a session takes it and only it from both tables, frees the user with its last one, and sends the last presence if one is owed |
| `SmDelivery.StartEnters` | sm/sess.c:103-182 | a new session becomes the first of its user, blank and under its own id, an older one of the same address goes as if it had ended; otherwise nothing happens |
| `SmDelivery.SendingIs` | sm/mod_presence.c:31-53 | what a client's presence does by its address, and under which address it goes out |
| `Users.UserRecord.EndSession` | sm/sess.c:62-79 | the last presence if one is owed, then the unlinking |
| `SessionManager.Manager.FromClient` | sm/mod_presence.c:31-53 | presence from a live session, its `from` kept if it is of the same user, is the model's FromSession and keeps the registry |
| `SessionManager.Manager.UserLoad` | sm/user.c:49-75 | returns the loaded user, or enters one if the modules can load it |
| `SessionManager.Manager.FreeIfIdle` | sm/user.c:77-82 | a user without sessions leaves the table |
| `SessionManager.Manager.Unlist` | sm/sess.c:62-83 | `_sess_end_guts` on both tables |
| `SessionManager.Manager.SessEnd` | sm/sess.c:85-101 | is the model's End and keeps the registry |
| `SessionManager.Manager.SessStart` | sm/sess.c:103-182 | is the model's Start, replacing a session of the same address |
| `SessionManager.Manager.Dispatch` | sm/dispatch.c:129-169 | is the model's Dispatch: filter, load, deliver, free if idle |
| `SessionManager.Manager.PassesUser` | sm/mod_presence.c:58-84 | only probes pass for users without an available session, without loading them |
| `SocksHandshake.ParseGrows` | proxy65/socks.c:151-245 | more bytes extend a handshake verdict and never change it |
| `SocksHandshake.SplitsDoNotMatter` | proxy65/socks.c:356-384 | outcome, replies and leftover bytes depend on the byte stream only, not on the reads |
| `SocksHandshake.WaitingIsShort` | proxy65/socks.c:364-367 | an incomplete handshake holds at most 261 bytes, so the full-buffer test never fires in it |
| `SocksHandshake.RequestedIff` | proxy65/socks.c:131-245 | a connection gets to name a stream if and only if its bytes are a well-formed greeting with no-auth and a CONNECT to a 40-digit hexadecimal name |
| `SocksHandshake.GreetingReplies` | proxy65/socks.c:155-185 | the greeting is answered 05 00 if it lists no-auth, 05 FF and a refusal if it does not, and not at all before it is complete or if it is not of version 5 |
| `SocksHandshake.RequestReplies` | proxy65/socks.c:142-218 | after 05 00 the ten bytes of a refusal carry 7, 8 or 4 if and only if the request is no CONNECT, else its address no domain name, else the complete name no hash |
| `SocksHandshake.HashSpelling` | proxy65/socks.c:131-212 | a hash is 40 of the characters 0-9, a-f, A-F, kept with the capitals lowered |
| `SocksConn.SockConn.HexIsValid` | proxy65/socks.c:131-140 | true exactly for 40 hexadecimal digits |
| `SocksConn.SockConn.Shift` | proxy65/socks.c:181-183 | the memmove leaves exactly the unread bytes |
| `SocksConn.SockConn.ScanGreeting` | proxy65/socks.c:155-185 | the in-place greeting is the parser's, reply by reply |
| `SocksConn.SockConn.ScanRequest` | proxy65/socks.c:187-218 | so is the request, up to the stream table; its reply bytes are `SocksHandshake.RequestReplies` |
| `SocksConn.SockConn.RelayFlush` | proxy65/socks.c:247-266 | sent bytes plus pending bytes stay the same whatever part is sent |
| `SocksConn.SockConn.RelayWrite` | proxy65/socks.c:268-296 | sent plus pending grows by exactly the accepted data, all of it unless it fails |
| `Proxy65.Proxy.OnClose` | proxy65/socks.c:407-440 | the close callback releases the connection, its peer and the stream once each, in order, and nothing else, and keeps the heap invariant |
| `Proxy65.Proxy.SockConnClose` | proxy65/socks.c:89-129 | so does a teardown, through the callbacks it causes |
| `Proxy65.Proxy.StreamFree` | proxy65/socks.c:34-49 | so does freeing a stream |
| `Proxy65.Proxy.Expire` | proxy65/socks.c:469-493 | exactly the streams that are not activated and more than 300 seconds old go, with exactly their connections; everything else is untouched |
| `Proxy65.Proxy.Accept` | proxy65/socks.c:448-459 | a new connection is in the greeting |
| `Proxy65.Proxy.Activate` | proxy65/socks.c:60-76 | activation needs two peers and sets both relaying |
| `Proxy65.Proxy.StreamGetOrCreate` | proxy65/socks.c:21-32 | finds the stream or enters an empty one |
| `Proxy65.Proxy.Join` | proxy65/socks.c:220-242 | seats the connection as first or second peer with the ten bytes 05 00 00 01 and six zeros, or refuses with 05 in the second byte, if and only if the stream has two peers or is activated |
| `Proxy65.Proxy.RequestAnswer` | proxy65/socks.c:142-230 | all bytes sent by the end of a handshake: a decided request is answered with 05, a code and eight fixed bytes; the code is 0 if and only if it names a hash whose stream has a seat, and 5 if and only if that stream has two peers or is activated |
| `Proxy65.Proxy.OnRead` | proxy65/socks.c:348-384 | a read event: the outcome is the parser's on the whole input, the table decides only between seat and refusal, and the reply byte is 0 if and only if the connection is kept; failures tear down |
| `Proxy65.Proxy.RelayRead` | proxy65/socks.c:317-344 | a relayed read: backpressure changes nothing, success hands on every byte, failure tears both ends down |
| `Proxy65.Proxy.OnWrite` | proxy65/socks.c:386-397 | a write event keeps sent plus pending, and tears down only when sending fails |
| `Proxy65.Proxy.SocksPeer` | proxy65/socks.c:298-307 | finds the other end |
| `Proxy65.Proxy.SeatedIff` | proxy65/socks.c:220-230 | a connection is past its handshake if and only if it sits in a stream of the table, and in one only |
| `Proxy65.Proxy.PeersAgree` | proxy65/socks.c:60-76 | a stream has one or two distinct live peers and is activated if and only if all of them relay |
| `Proxy65.Proxy.RelayedPrefix` | proxy65/socks.c:247-296 | what one end was sent is a prefix of what the other delivered; the gap is the pending buffer, at most 8192 bytes |
| `Proxy65.Proxy.ReleasedOnce` | proxy65/socks.c:89-129 | every connection and stream that ever was is still there or has been released exactly once |
| `Proxy65.Proxy.TeardownKeepsValid` | proxy65/socks.c:89-129 | after a teardown everything left is as it was, in a valid heap |
| `BcryptBase64.EncodeInto` | util/crypt_blowfish.c:405-435 | the in-place encoder writes the specified characters and nothing else |
| `BcryptBase64.DecodeFrom` | util/crypt_blowfish.c:381-403 | the decoder is the specified one, failing on the first character outside the alphabet or past the end |
| `BcryptBase64.DecodeEncode` | util/crypt_blowfish.c:381-435 | decoding an encoding gives the bytes back for every size, wherever it stands in a text |
| `BcryptBase64.EncodeDecode` | util/crypt_blowfish.c:381-435 | encoding a decoding gives the text back, with the unused bits of its last character cleared |
| `BcryptText.ItoaIs` | util/crypt_blowfish.c:360-361 | the 64 characters in their order |
| `BcryptText.AtoiIs` | util/crypt_blowfish.c:363-379 | each character of the alphabet is read as its position, and no other is read |
| `BcryptText.EncodedIs` | util/crypt_blowfish.c:405-435 | every character of an encoding is the entry in the alphabet of its six bits of its three bytes |
| `BcryptText.DecodesIff` | util/crypt_blowfish.c:381-403 | decoding succeeds if and only if all characters it needs are there and in the alphabet |
| `BcryptKey.SetKey` | util/crypt_blowfish.c:534-633 | both key arrays are computed as specified for all flags, keys and P words |
| `BcryptKey.NextWord` | util/crypt_blowfish.c:583-602 | four characters of the endless key make the big-endian word and its buggy form, and the flag of a harmful sign |
| `BcryptKey.SameIffBenign` | util/crypt_blowfish.c:576-603 | the bug leaves a word unchanged if and only if every high character after the first is preceded by 0xff bytes only |
| `BcryptKey.CollidesIff` | util/crypt_blowfish.c:605-620 | the safety measure strikes if and only if there is a harmful sign and every word is so hidden |
| `BcryptKey.SafetyChanges` | util/crypt_blowfish.c:605-633 | $2a$ differs from $2b$ and $2y$ only in the first initial word and exactly for such keys |
| `BcryptKey.NoBuggyTwin` | util/crypt_blowfish.c:622-633 | no password gives the buggy algorithm the keys of such a $2a$ password |
| `BcryptKey.CollidingIsItsOwnTwin` | util/crypt_blowfish.c:605-620 | without the measure it would be its own twin |
| `BcryptKey.AsciiVariantsCoincide` | util/crypt_blowfish.c:576-633 | for ASCII keys all variants give the same keys |
| `BcryptText.KeyWordIs` | util/crypt_blowfish.c:583-602 | the words of a key are those of its endless reading with its terminator, the first character on top |
| `BcryptText.BuggyWordIs` | util/crypt_blowfish.c:583-602 | with the bug a high character turns those before it in the word into 0xff |
| `BcryptText.VariantIs` | util/crypt_blowfish.c:566-603 | what the letters a, b, x and y select, and the one bit that a flips |
| `BcryptText.CollidesIs` | util/crypt_blowfish.c:576-620 | when that bit is flipped, on the characters and the words |
| `BcryptCipher.EncryptIsPermutation` | util/crypt_blowfish.c:494-515 | for any P words and S boxes the block cipher is a permutation, with the inverse given |
| `BcryptCipher.MixIs` | util/crypt_blowfish.c:456-468 | which S box each of the four bytes of a word goes to, and what is made of the entries |
| `BcryptCipher.EncryptIs` | util/crypt_blowfish.c:494-515 | the sixteen rounds on their concrete words |
| `BcryptCipher.Cipher.EncryptBlock` | util/crypt_blowfish.c:456-515 | the sixteen rounds on L and R in place are the specified cipher |
| `Bcrypt.BfCrypt` | util/crypt_blowfish.c:640-767 | the output buffer holds the specified hash and its terminator, or is untouched |
| `Bcrypt.CryptFails` | util/crypt_blowfish.c:658-684 | which error comes when: ERANGE for a short buffer, EINVAL for a bad prefix, cost or salt |
| `Bcrypt.HashCarriesSalt` | util/crypt_blowfish.c:756-759 | the hash carries the decoded salt in the one spelling that encoding gives it |
| `Bcrypt.FixedPoint` | util/crypt_blowfish.c:676-767 | hashing with a hash as setting gives that hash |
| `Bcrypt.SpellingDoesNotMatter` | util/crypt_blowfish.c:676-684 | settings with the same prefix and decoded salt give the same result |
| `BcryptText.PrefixIs` | util/crypt_blowfish.c:663-674 | the prefixes accepted, character by character |
| `BcryptText.AcceptedIff` | util/crypt_blowfish.c:658-684 | for every cost of at most 31 in two decimal digits: the setting is accepted if and only if there is room, the prefix and the 22 salt characters are right and 1 << cost is at least the minimum |
| `BcryptText.CostIsNeeded` | util/crypt_blowfish.c:668-676 | without such a cost none is |
| `BcryptText.HashIs` | util/crypt_blowfish.c:676-767 | the hash is the prefix, the salt and 23 bytes of what the cipher gives for exactly 1 << cost rounds, in 60 characters |
| `BcryptText.BytesAre` | util/crypt_blowfish.c:437-450 | the words of the cipher are written with their most significant byte first |
| `WebSocketModel.SplitsDoNotMatter` | sx/websocket.c:410-513 | without a close frame the output does not depend on how the stream is split |
| `WebSocketModel.ConsumeOut` | sx/websocket.c:476-485 | earlier output is only appended to |
| `WebSocketFrames.FrameIsRead` | sx/websocket.c:81-151 | a masked frame in any of the three length forms is read as the frame it is |
| `WebSocketWire.FrameOkIff` | sx/websocket.c:95-124 | the three length forms on the header bytes |
| `WebSocketWire.TooLargeBreaks` | sx/websocket.c:129-146 | where a header announces more than 2^30 bytes the model ends |
| `WebSocketWire.WireIs` | sx/websocket.c:473-474 | each payload byte is masked with the key byte at its index mod 4 |
| `WebSocketWire.EmitIs` | sx/websocket.c:476-485 | a payload is copied up to its first NUL and filled up, and the slash of a self-closed "<open" goes |
| `WebSocketWire.FrameDoes` | sx/websocket.c:466-497 | what a frame does by the low four bits of its first byte: 1 hands on, 8 closes, 9 is answered with the bytes as they stood on the wire, 0 repeats the opcode before it, anything else does nothing |
| `WebSocketWire.CloseDiscards` | sx/websocket.c:499-513 | a close frame discards the text read before it in the same read event and everything after it, and only that |
| `WebSocketFrames.FramesAreRead` | sx/websocket.c:466-497 | a series of frames without close hands on exactly the emitted payloads |
| `WebSocketFrames.EmitsUnchangedIff` | sx/websocket.c:471-485 | a payload is handed on unchanged if and only if nothing but NULs follows a NUL and it is not a self-closed open element |
| `WebSocketFrames.TextArrives` | sx/websocket.c:410-513 | any TEXT and CONTINUATION frames in any split hand on exactly the concatenated payloads |
| `WebSocketFrames.ContinuationIff` | sx/websocket.c:466-470 | a continuation is read as text if and only if the last opcode remembered is TEXT |
| `WebSocketFrames.PingSwallowsContinuation` | sx/websocket.c:466-470 | a ping between fragments makes the rest of the message be answered instead of read |
| `WebSocketFrames.MessageArrivesIff` | sx/websocket.c:410-513 | the text of a fragmented message, in any split, is handed on if and only if no frame of another opcode stands before a continuation with output |
| `Rounding.RoundUpIsLeast` | sx/websocket.c:134-144 | the shift-and-or lines give the least power of two that holds the frame |
| `Rounding.FitsIntIff` | sx/websocket.c:134-144 | which fits an int if and only if the frame has at most 2^30 bytes |
| `Rounding.NewSize` | sx/websocket.c:134-144 | the lines themselves, up to the one that leaves the range of an int |
| `WebSocket.Frame.ReadHeader` | sx/websocket.c:81-151 | the resumable header states: loaded exactly when the header is complete, fields as in the bytes, room for the whole frame |
| `WebSocket.StaysInsideIff` | sx/websocket.c:129-146 | with the unsigned size and the int rounding of the source, the announced payload lies inside the buffer if and only if the frame has at most 2^30 bytes |
| `WebSocket.LargeFrame` | sx/websocket.c:110-118 | a header that announces a larger frame |
| `WebSocket.Frame.Store` | sx/websocket.c:413-424 | the raw index never passes the capacity |
| `WebSocket.Frame.UnmaskPayload` | sx/websocket.c:473-474 | unmasking in place |
| `WebSocket.Conn.Output` | sx/websocket.c:476-485 | copying with strncpy and unclosing the open element is Emit |
| `WebSocket.Conn.Complete` | sx/websocket.c:466-502 | a complete frame is the model's Finish |
| `WebSocket.Conn.Rio` | sx/websocket.c:410-513 | the buffered loop with its bulk copies is the byte-by-byte model |
| `WebSocketSend.FragmentBuffer` | sx/websocket.c:153-195 | the built frame is the specified one, or none above the limit |
| `WebSocketSend.FrameIsReadBack` | sx/websocket.c:153-195 | every frame built is read back by an RFC 6455 reader that insists on the shortest length form |
| `WebSocketSend.ReadIsBuilt` | sx/websocket.c:153-195 | and whatever that reader reads is the frame that is built of its payload |
| `WebSocketSend.BuiltIs` | sx/websocket.c:153-195 | the bytes of a built frame in its three length forms, and the limit of 4294967280 |
| `Chain.Stream.IoPlugin` | sx/chain.c:25-48 | a plugin goes to the front of the write list and the back of the read list, over the same nodes |
| `Chain.Stream.IoWrite` | sx/chain.c:75-87 | runs the write callbacks in list order up to the first failure |
| `Chain.Stream.IoRead` | sx/chain.c:89-101 | runs the read callbacks in the exact reverse order |
| `Chain.ReadUndoesWrite` | sx/chain.c:75-101 | if every plugin undoes itself, the read chain undoes the write chain |
| `Chain.UndoesIs` | sx/chain.c:75-101 | what it is for one plugin to undo itself |
| `Chain.WriteStops` | sx/chain.c:75-87 | no plugin after a failed one is asked |
| `Chain.WriteRuns` | sx/chain.c:75-87 | each plugin with the callback is given what the one before it made of the buffer, the others are passed over, and the outcome is the last one's |
| `Chain.ReadRuns` | sx/chain.c:89-101 | so for reading |
| `Chain.ReadStops` | sx/chain.c:89-101 | no plugin after a failed one is asked when reading either |
| `StreamIo.WriteConserves` | sx/io.c:347-414 | a write event loses and reorders nothing, whatever part is written |
| `StreamIo.RunConserves` | sx/io.c:287-414 | over every smooth run, sent, pending and queued bytes are what was pushed, in order, and want_write 0 means nothing is left |
| `StreamIo.GracefulCloseIsComplete` | sx/io.c:402-407 | when a graceful close completes, everything pushed has been sent |
| `StreamIo.CloseCompletesIff` | sx/io.c:347-414 | a write event completes the close if and only if it takes and writes the last buffer whole |
| `StreamIo.PartialWriteStallsClose` | sx/io.c:347-414 | after a partial write of the last buffer write events never complete it; a read event does |
| `StreamIo.RetryKeepsOrderIff` | sx/io.c:315-319 | a plugin's "try again" keeps the queue as it was if and only if all buffers in it are the same |
| `StreamIo.WriteIs` | sx/io.c:367-414 | what is written of a buffer is sent from its front and the rest waits; a failed write loses the whole of it and stops reading and writing without closing the stream |
| `StreamIo.FatalCloses` | sx/io.c:325-366 | a plugin that fails for good closes the stream and loses the buffer it was asked about |
| `StreamIo.KeptIsGone` | sx/io.c:313-345 | a buffer that a plugin keeps, or makes nothing of, is gone, and nothing else |
| `StreamIo.RetryWaits` | sx/io.c:315-319 | after "try again" nothing is sent and something is still wanted |
| `StreamIo.IdleIsLeftAlone` | sx/io.c:347-354 | a stream that wants nothing is left alone |
| `StreamIo.ReadIs` | sx/io.c:264-284 | a read event closes a closing stream if and only if something was read and nothing is left to write |
| `StreamIo.QueuedIs` | sx/io.c:464-525 | what a raw write and a close put into the queue, by the state of the stream |
| `StreamIo.EventsAre` | sx/io.c:272-525 | the events of a run and what each does |
| `StreamIo.Stream.GetPendingWrite` | sx/io.c:287-345 | is the model's GetPending for every verdict |
| `StreamIo.Stream.SxCanWrite` | sx/io.c:347-414 | is the model's CanWrite |
| `StreamIo.Stream.SxCanRead` | sx/io.c:272-284 | is the model's CanRead |
| `StreamIo.Stream.SxRawWrite` | sx/io.c:464-480 | is the model's RawWrite, dropping what comes after the close |
| `StreamIo.Stream.SxClose` | sx/io.c:499-525 | is the model's Close |
| `Access.CalcNetsize` | util/access.c:42-68 | the loop counts so that the prefix fills everything from the lowest set bit of the mask up |
| `Access.HalfIs` | util/access.c:57-61 | the halving of the loop keeps the sign and loses nothing of an even mask |
| `Access.MaskMeansAndIff` | util/access.c:42-68 | a dotted mask means comparison under the mask if and only if it is ones followed by zeros |
| `Access.NoMaskIsEmpty` | util/access.c:54-61 | the mask 0.0.0.0 is the empty prefix |
| `Access.SameFamilyIsPrefix` | util/access.c:123-133 | two IPv4 addresses match if and only if their first n bits agree, all 32 for a longer prefix |
| `Access.BitIs` | util/access.c:147-153 | the bits of a byte from the left |
| `Access.MapIs` | util/access.c:71-77 | the bytes of a mapped address |
| `Access.Match6IsPrefix` | util/access.c:135-154 | IPv6 matching holds if and only if the first n bits agree, all 128 for a longer prefix and none for a negative one |
| `Access.CrossFamilyIsPrefix` | util/access.c:95-119 | for 96 < n <= 128, matching across families holds if and only if the IPv6 forms agree on n bits |
| `Access.ShortPrefixIff` | util/access.c:95-119 | for 1 <= n <= 96, matching across families agrees with the IPv6 forms if and only if the forms agree on n more bits past the mapping, 32 at most (mapped), or differ within the n bits anyway (not mapped) |
| `Access.RuleDecidableIff` | util/access.c:125-133 | comparing a rule with every address has a meaning in C if and only if its prefix is not empty or it has no IPv4 part |
| `Access.Access.Check` | util/access.c:204-252 | the decision by order, allow rules and deny rules |
| `Access.Access.Allow` | util/access.c:164-182 | adds the rule, or reports an address that cannot be parsed |
| `Config.Expandx` | util/config.c:339-408 | the rewriting loop, whose result contains no opening |
| `Config.RoundIs` | util/config.c:350-399 | one round on a text in its parts: the first ${name} gives way to the first value of the name; without a value or a closing brace expansion fails |
| `Config.Finishes` | util/config.c:350-399 | if no value contains an opening or ends in a dollar sign, the loop ends within as many rounds as there are dollar signs that a brace or more dollar signs up to one follow |
| `Config.DollarFreeFinishes` | util/config.c:350-399 | with dollar-free values it ends within as many rounds as there are dollar signs |
| `Config.FinishesAhead` | util/config.c:350-399 | if no value contains an opening, is empty or begins with a brace, it ends within as many rounds as there are characters from the first opening on |
| `Config.ExpandIsSubstitution` | util/config.c:350-399 | with inert values it ends within as many rounds as the text has characters and is one left-to-right substitution, as README.config documents |
| `Config.SubstitutionIff` | util/config.c:350-399 | it is that substitution for all texts if and only if all values are inert: no opening, not empty, not beginning with a brace, not ending in a dollar sign |
| `Config.SubstitutedIs` | README.config:15-30 | what the documented substitution is, on a text in its parts |
| `Config.CycleNeverFinishes` | util/config.c:350-399 | two values without an opening that are rewritten into each other for ever |
| `Config.Config.LoadWithId` | util/config.c:150-260 | the loading loop: each text expanded with the values so far, "1" for none, the first failure ends it |
| `Config.LoadIs` | util/config.c:196-215 | one element: its expanded text, or "1", is added under its key, with the values so far; a failure ends the loading |
| `Config.LoadedHasNoOpening` | util/config.c:196-214 | whatever is loaded, no stored value contains an opening |
| `Config.CycleNeverLoads` | util/config.c:196-214 | a file of three elements that no number of rounds is enough to load |
| `Config.LoadEndsIfCapped` | util/config.c:150-260 | the loading of a file ends if no text in it ends in a dollar sign |
| `Config.LoadEndsIfBlunt` | util/config.c:150-260 | the loading of a file ends if no text in it begins with a brace |
| `Config.LoadsAsDocumented` | util/config.c:150-260 | a file whose texts neither begin with a brace nor end in a dollar sign is loaded as documented |
| `Base64.EncodeBinary` | util/base64.c:225-258 | writes the specified text and terminator, exactly the announced length |
| `Base64.EncodeLenIs` | util/base64.c:213-216 | the announced length is that of the encoding with its terminator |
| `Base64.DecodeBinary` | util/base64.c:165-208 | writes the specified bytes, within the announced bound |
| `Base64.DecodeLength` | util/base64.c:139-151 | counts the letters and computes the announced length |
| `Base64.BytesLength` | util/base64.c:206-207 | the closing length formula counts the bytes written |
| `Base64.DecodeEncode` | util/base64.c:139-258 | decoding an encoding gives back the input for every content |
| `Base64Text.TextIs` | util/base64.c:225-254 | every character of the text is the entry in the alphabet, written out, of its six bits of its group of three bytes |
| `Base64Text.TextEnds` | util/base64.c:241-254 | the text has four characters for each three bytes begun, the last (3 - n % 3) % 3 of them "=" |
| `Base64Text.SixIs` | util/base64.c:165-175 | the decoder reads each character of that alphabet as its position and takes no other |
| `Base64Text.DecodedIs` | util/base64.c:171-208 | decoding stops at the first other character and gives the bytes of the groups of four |
| `Base64Text.DecodeLenIs` | util/base64.c:139-151 | the length announced for decoding: three bytes for each four letters begun and a terminator, which is enough |
| `Offline.OfflineEscape` | sm/mod_offline.c:45-75 | allocates and fills exactly the escaped text |
| `Offline.OfflineUnescape` | sm/mod_offline.c:77-102 | is the specified unescaping |
| `Offline.UnescapeEscape` | sm/mod_offline.c:45-102 | unescaping an escaped body gives it back with each CR an LF |
| `Offline.EscapedIs` | sm/mod_offline.c:61-72 | a backslash is doubled, LF and CR become a backslash and an n, nothing else changes |
| `Offline.UnescapedIs` | sm/mod_offline.c:87-98 | what a backslash stands for, with any character behind it and with none |
| `Offline.Spool.Save` | sm/mod_offline.c:105-139 | appends one line for a message with a body, up to a NUL in it |
| `Offline.Spool.DeliverAll` | sm/mod_offline.c:141-191 | delivers what the lines parse to and empties the spool |
| `Offline.SpooledIs` | sm/mod_offline.c:122-129 | the spool line of a message, and the 65536 characters it may have |
| `Offline.LineMeans` | sm/mod_offline.c:151-169 | a line ends at the first NUL, LF or CR; without a tab it is no message, else the sender is before the first one |
| `Offline.DeliveredIs` | sm/mod_offline.c:149-150 | how the file is cut into lines of at most 65535 characters |
| `Offline.SavedIsDelivered` | sm/mod_offline.c:105-191 | any series of saves that fit the line buffer is delivered as saved, in order, each body up to a NUL and each CR an LF |
| `Offline.SeriesSurvivesIff` | sm/mod_offline.c:146-191 | any series of saves is delivered as saved if and only if each record fits, or only half of a last escaped backslash of it is cut off |

## Left out

Reductions of what is modelled:

- Pointers that are stored in tables are represented by the keys they are registered under: the router's rows and log sinks hold "ip:port" keys, the cached top session an id.
- Session ids: the hash of time and address is taken to be injective.
- Hash walks are modelled as any order of the keys; the roster is a fixed list of keys in walk order.
- Router.Router.ProcessBind: leaves out the alias binds that follow for a name that aliases point to, for which the tables are not inverse; like ProcessUnbind, OpenLegacy and CloseComponent it requires that every component in the table is connected; a repeated bind followed by a close ends this, and what the code does from then on is not modelled.
- Router.Router.OpenLegacy: leaves out the aliases of the name as well.
- SmStale.UnavailableTellsAll: leaves out contacts that are trusted only through their bare address while written to at a full one, and the user's own account, because trust is by bare address and A and E compare full ones.
- SmStale.EndTellsAll: rosters do not change during a run.
- SessionManager.Manager.Dispatch: other modules on the packet chains are not modelled; the outcome of loading a user is a parameter.
- Proxy65.Proxy.OnWrite: `mio_write` is modelled as a later write event, and no progress of the relay is claimed.
- Proxy65.Proxy.OnRead: bytes that arrive between the handshake and the activation stay in the read buffer, as in the code; the relayed streams start at the activation.
- Bcrypt.BfCrypt: the key schedule from expanded keys, salt and cost to the six output words is a function parameter, and so are the initial P words.
- BcryptCipher.Cipher.EncryptBlock: the source writes the sixteen rounds out; here they are a loop over pairs.
- WebSocket.Conn.Rio: says nothing about what follows a header that announces more than 2^30 bytes: from there on the code works on memory that is not its buffer (WebSocket.StaysInsideIff).
- WebSocket.Frame.ReadHeader: reports such a header instead of loading it.
- WebSocketModel.SplitsDoNotMatter: stops at a close frame, which discards text decoded earlier in the same read.
- Access.Access.Check: needs every rule to be comparable with the address (Access.RuleDecidableIff), because a shift by the width of the word is undefined in C; address parsing is a parameter.
- Config.Expandx: takes a limit of rounds, because the loop need not end; XML parsing and attributes are left out of LoadWithId.
- StreamIo.RunConserves: no plugin interferes and no read or write fails; GetPendingWrite and SxCanWrite are proved for all of these.
- Offline.SeriesSurvivesIff: senders have at most 3071 characters, the longest full address util/jid.c accepts.
- Integers are unbounded where the source's ranges are not at issue; memory is available except where a parameter says otherwise (`SocksConn.SockConn.RelayWrite`).

Not modelled:

- Router aliases beyond the check of a bound name: the native path adds the name, not the alias, to the component's names (router/router.c:317).
- The handshake and the packets of legacy components; packet routing, throttling and rates in router/router.c.
- `access_deny`, which is `access_allow` on the other list; the nad chain of sx/chain.c, which has the shape of the io chain.
- The HTTP upgrade, pong contents and close codes of sx/websocket.c; XML parsing, stream errors and resets in sx/io.c.
- The key schedule loops, salt generation and self-test of util/crypt_blowfish.c.
- Subscriptions, privacy lists, vcards, disco and the other session manager modules; c2s and its bound-resource count.
- Sockets, event loops, TLS, SASL, logging and configuration files.

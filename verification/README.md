# A Dafny model of VntcApp's client state machines and wire codec

This project models parts of VntcApp and of the remote-desktop client it embeds, and proves what
those parts are for. Each component of the program is a module (or two: one with the operations, one
with whole runs). Code that changes fields step by step is a class whose methods are tied to functions
of the old state; the laws are proved about those functions and about every run built from them.

| files | component |
|---|---|
| `Basics` | bytes, options and other definitions shared by the modules |
| `AudioStream`, `AudioHistogram`, `AudioBuffer` | the audio jitter buffer, its occupancy histogram and its drop decision |
| `LoginPassword`, `LoginRuns` | choosing the login password, its provenance tag, and what is remembered |
| `VideoDecoder` | the decoder failure counter and the shared list of unsupported codecs |
| `WireBytes`, `SseCodec`, `SseCursor`, `VntConfig` | the serialization codec between Dart and Rust, up to the 28-field configuration |
| `FrameHandoff`, `SessionRegistry` | handing frames to the UI, and the registry of UI sessions |
| `TlsFallback`, `HolePunch`, `Throttle` | the TLS fallback, the hole-punching back-off, the throttled timer |
| `Clipboard`, `ClipboardSync` | the clipboard of one side, and the two sides together |
| `LanPeers` | merging LAN discovery responses |
| `PortForward` | holding back and forwarding bytes around a remote login |

Conventions. Hashing is a parameter known only to return 32 bytes. Clocks, the network, codec libraries,
hash-map iteration order and thread interleaving are parameters or nondeterministic steps, so the theorems hold
for all of them. A Rust panic is a failed result. `Order` is the machine's byte order, which both ends of the
bridge share. Strings on the wire are byte sequences valid under RFC 3629; validity by the byte ranges of its
section 4 is proved to be the same as being an encoding by the layout of its section 3.

## Where the code does not do what it seems to promise

- **Shared passwords can be remembered.** A token carries a shared address-book password to the next connection
  together with its provenance tag, and a handler that remembers passwords can then write it to the peer's
  configuration in two ways. A switch-sides identifier makes `handle_hash` keep the password and lose the tag
  (client.rs:3411-3416; `LoginRuns.SwitchingSidesStoresShared`). And a peer that ends the login without ever sending its
  hash leaves the salt empty, so the tag is compared under the wrong salt (client.rs:1712-1732, 2530-2552; nothing in
  client/io_loop.rs:1333-1349 or port_forward.rs:151-153 waits for the hash; `LoginRuns.NoHashStoresShared`).
  `LoginRuns.SharedStoredExactly` is the exact condition; `LoginRuns.SharedNeverStored` shows that with a hash received on
  the connection and no switching sides it never happens, and `LoginRuns.HonestExactly` that the switch-sides branch is
  the only step that hides the tag. A change of the peer's salt is one more way to lose track; `LoginRuns.SaltChange`
  gives its exact condition.
- **Stored LAN addresses are not always discarded.** A record is replaced by id and user name
  (config.rs:2012-2014), but only ids are remembered within a round (lan.rs:317), so an id that answers under two
  user names keeps the second name's stored addresses. `LanPeers.TwoNamesKeepStored` is an input, and
  `LanPeers.StoredDiscardedExactly` the exact condition.
- **Insertion does not protect the session registry.** `insert_peer_session_id` does not look for the id elsewhere;
  the registry stays consistent exactly when the id is new or already belongs to that peer
  (`SessionRegistry.InsertAgreesExactly`).
- **The limit on hole punching can be put off.** The 20 s limit is only looked at when a sleep ends, and every empty
  datagram makes a listener begin a new one (common.rs:2245-2275). `HolePunch.TimesOutExactly` is the exact condition for
  giving up; `HolePunch.DatagramsPostponeTheLimit` shows a listener that, for as long as empty datagrams come every
  10 ms, neither gives up nor sends.
- **A new connection can echo the clipboard.** The client's initial sync sends its last message, or else reads the
  clipboard without regard to the owner tag (client/io_loop.rs:1375-1388, clipboard.rs:470-494), so after a reconnect it
  can send back what the host sent it. `ClipboardSync.EchoAfterReconnect` is such a run, and
  `ClipboardSync.InitialSyncEchoes` says exactly when and what; apart from it nothing is echoed
  (`ClipboardSync.EchoFree`).
- **An empty audio format is not refused.** `resize` has no guard against a sample rate or channel count of zero
  (client.rs:1228-1232); it then asks for a ring without room, whose constructor panics, so `AudioBuffer.AudioBuffer.Resize`
  fails exactly for these formats and changes nothing.
- **The decoder does not always get its buffer back.** `update_use_texture_render` drops all stored frames
  (flutter.rs:657-661), and the next store returns an empty buffer; `FrameHandoff.SwapReturnsPreviousFrame` says exactly
  when.
- **Lists are limited to 2^31 - 1 elements.** A longer one never comes back (`SseCodec.ListLimit`).
- **Failed sends lose forwarded bytes.** They are only logged; conservation holds exactly when no byte was in a
  failed send (`PortForward.ByteConservation`).

## Model

| member | source | states |
|---|---|---|
| AudioHistogram.DrainHistogram | vntcrustdesk-src/src/client.rs:1261-1286 | the in-place loop ends with an all-zero histogram, two thirds of the leading empty buckets, and the first fullest bucket of the histogram with bucket 0 cleared |
| AudioHistogram.IgnoringBucketZeroIsHarmless | vntcrustdesk-src/src/client.rs:1265-1293 | for every histogram, deciding from that bucket gives the same drop as deciding from the first fullest bucket over all thirty |
| AudioHistogram.LowestRecorded | vntcrustdesk-src/src/client.rs:1242-1246 | every occupancy recorded in the window reaches the first nonempty bucket |
| AudioHistogram.SafeDropping | vntcrustdesk-src/src/client.rs:1280-1297 | in a window recorded at one rate, a drop is even, less than a third of what is buffered, and at most two thirds of any recorded occupancy plus one |
| AudioHistogram.ShrinkIsSafe | vntcrustdesk-src/src/client.rs:1238-1298 | whatever one call of `try_shrink` drops, in any window and with any occupancy, is even, less than a third of what is buffered, and at most two thirds of any occupancy recorded at that rate plus one |
| AudioHistogram.ShrinkExactly | vntcrustdesk-src/src/client.rs:1238-1298 | exactly what one call does, in numbers: the tenth of a second counted, when the histogram is emptied, and the even number of samples dropped from the first fullest and the leading empty tenths |
| AudioHistogram.SteadyWindowDrops | vntcrustdesk-src/src/client.rs:1261-1297 | if all occupancies of a window are in one tenth of a second from 600 ms on, a quarter of it, rounded to an even number, is dropped whenever that is less than a third of what is buffered |
| AudioHistogram.ShrinksEveryTwelveSeconds | vntcrustdesk-src/src/client.rs:1248-1259 | two shrinks are at least twelve seconds apart, and no call is left twelve seconds behind one |
| AudioStream.RunRefines | vntcrustdesk-src/src/client.rs:1299-1317 | over every interleaving of appends, drops and device pops the ring is the end of the stream and fits, and the device gets stream samples in order with none repeated |
| AudioStream.PopDelivers | vntcrustdesk-src/src/client.rs:1498-1541 | a device pop hands over the next buffered samples of the stream |
| AudioStream.AppendExactly | vntcrustdesk-src/src/client.rs:1303-1317 | appending keeps all samples if they fit and otherwise the newest that do |
| AudioStream.DropExactly | vntcrustdesk-src/src/client.rs:1289-1297 | dropping takes the oldest samples away and nothing else |
| AudioBuffer.Ring.PopForDevice | vntcrustdesk-src/src/client.rs:1498-1541 | the callback takes what is there and pads with silence |
| AudioBuffer.AudioBuffer.Resize | vntcrustdesk-src/src/client.rs:1228-1236 | keeps the capacity at three times the rate; the ring is replaced only when the rate changes, the histogram never; fails exactly for an empty format, changing nothing |
| AudioBuffer.AudioBuffer.AppendPcm2 | vntcrustdesk-src/src/client.rs:1303-1317 | keeps exactly the last min(capacity, old + new) samples and returns that number |
| AudioBuffer.AudioBuffer.TryShrink | vntcrustdesk-src/src/client.rs:1238-1298 | leaves exactly the histogram and shrink time of the reference step and the buffered samples but for the oldest it drops, within the safe bounds |
| AudioBuffer.AudioBuffer.AppendPcm | vntcrustdesk-src/src/client.rs:1322-1325 | keeps the last samples that fit, then takes the reference shrink step on them: histogram, shrink time, and the oldest samples dropped |
| LoginPassword.ChoiceCases | vntcrustdesk-src/src/client.rs:3418-3468 | the pure rule: the first nonempty of shared, last, preset, configuration, personal book and built-in default, each with its source; the last password keeps its tag |
| LoginPassword.PersonalPasswordExactly | vntcrustdesk-src/src/client.rs:3508-3530 | the personal book counts only with two equal tokens; its first personal entry and the first peer of the id in it decide |
| LoginPassword.HashReceivedExactly | vntcrustdesk-src/src/client.rs:3399-3480 | what a hash message does to every field, with and without a well-formed switch-sides identifier |
| LoginPassword.LoginFromUiExactly | vntcrustdesk-src/src/client.rs:3565-3597 | what a login by the user does to every field, with and without a typed password |
| LoginPassword.ConfigKept | vntcrustdesk-src/src/client.rs:2530-2552 | which password the configuration keeps, case by case over remember, the tag and the loaded one |
| LoginPassword.TokenRestores | vntcrustdesk-src/src/client.rs:1833-1850 | a connection opened with the token of another has its password and source again, and begins with the loaded configuration |
| LoginPassword.LoginConfigHandler.HandleHash | vntcrustdesk-src/src/client.rs:3399-3505 | the staged assignments end in the state of that rule, the switch-sides branch apart, and the reply digests that password with the challenge |
| LoginPassword.LoginConfigHandler.HandleLoginFromUi | vntcrustdesk-src/src/client.rs:3565-3597 | a typed password replaces the stored one and its source; an empty one falls back to the stored, then the configured |
| LoginPassword.LoginConfigHandler.HandleLoginError | vntcrustdesk-src/src/client.rs:3345-3388 | only an empty or wrong password error forgets the password; which errors allow another try |
| LoginPassword.LoginConfigHandler.HandlePeerInfo | vntcrustdesk-src/src/client.rs:2517-2552 | keeps the configuration password of that rule and changes nothing else |
| LoginPassword.LoginConfigHandler.Initialize | vntcrustdesk-src/src/client.rs:1833-1850 | a token restores password and tag together |
| LoginPassword.LoginConfigHandler.GetConnToken | vntcrustdesk-src/src/client.rs:2767-2777 | a token carries the password with its tag, and exists only for a nonempty password |
| LoginRuns.Provenance | vntcrustdesk-src/src/client.rs:3399-3597 | in every run with one salt the stored password and every token are empty, of undefined source, the personal book's bytes, or the salted hash of the tag's shared text |
| LoginRuns.HonestExactly | vntcrustdesk-src/src/client.rs:3408-3418 | a step keeps the tag of a shared password truthful if and only if it is not the switch-sides branch with such a password stored |
| LoginRuns.SharedNeverStored | vntcrustdesk-src/src/client.rs:2530-2552 | no run without switch-sides connections newly stores a shared password once a hash has arrived on the connection |
| LoginRuns.SharedStoredExactly | vntcrustdesk-src/src/client.rs:2530-2552 | in any run it is stored if and only if the handler remembers, the password is really shared and new, and its tag was reset or cannot be recognised for want of the salt |
| LoginRuns.TypedIsRemembered | vntcrustdesk-src/src/client.rs:2530-2552 | over any run, a password typed with remember on and not replaced since is what the configuration holds after the login; typed with it off, the configuration is left without one |
| LoginRuns.RefusedIsForgotten | vntcrustdesk-src/src/client.rs:3345-3388 | a refused password is in no later token and no later choice; other login errors change nothing |
| LoginRuns.SwitchingSidesStoresShared | vntcrustdesk-src/src/client.rs:3411-3416 | a run that stores a shared password through a switch-sides connection |
| LoginRuns.NoHashStoresShared | vntcrustdesk-src/src/client/io_loop.rs:1333-1349 | a run that stores one without switching sides: the peer ends the login before any hash |
| LoginRuns.SaltChange | vntcrustdesk-src/src/client.rs:1712-1732 | after a salt change a kept shared password is recognised if and only if both salts hash it alike |
| VideoDecoder.CounterAtLimit | vntcrustdesk-src/src/client.rs:1615-1632 | the counter is at least 3 exactly when all frames since the reset failed, at least one, or the last three did |
| VideoDecoder.CounterExactly | vntcrustdesk-src/src/client.rs:1615-1632 | the counter as a number, from the failures at the end of the history |
| VideoDecoder.CounterGrows | vntcrustdesk-src/src/client.rs:1615-1632 | the source's recurrence agrees with the closed form over the decode history |
| VideoDecoder.VideoHandler.HandleFrame | vntcrustdesk-src/src/client.rs:1597-1647 | the counter stays the closed form of the history; a change of format, or a message without payload, resets it |
| VideoDecoder.VideoHandler.Reset | vntcrustdesk-src/src/client.rs:1650-1662 | a new decoder starts a new history |
| VideoDecoder.UnsupportedList.Check | vntcrustdesk-src/src/client.rs:2919-2939 | one thread's check marks the format, and asks for an update, exactly if it is not marked and the decoder is invalid or the history is nothing but failures or ends with three |
| VideoDecoder.AtMostOneUpdate | vntcrustdesk-src/src/client.rs:2919-2939 | in every interleaving of display threads the list has no duplicates and at most one update is sent per format |
| WireBytes.WordRoundTrip | rust/src/frb_generated.rs:1349-1361 | writing an integer of any width in either byte order and reading it back is the cast to that width |
| WireBytes.WordBytes | rust/src/frb_generated.rs:2335-2339 | the byte of weight 256^k stands at index k in little-endian order, and k from the end in big-endian order |
| WireBytes.ReadWordBytes | rust/src/frb_generated.rs:1349-1361 | any bytes are read as the number of the type that is written as these bytes |
| WireBytes.EncodedIsValid | rust/src/frb_generated.rs:1327-1333 | every encoding of characters is accepted as UTF-8 |
| WireBytes.ValidIsEncoded | rust/src/frb_generated.rs:1327-1333 | everything accepted as UTF-8 is the encoding of some characters |
| WireBytes.Utf8Examples | rust/src/frb_generated.rs:1327-1333 | the examples of RFC 3629, and its overlong forms, surrogates and too large characters refused |
| SseCodec.RoundTrip | rust/src/frb_generated.rs:1327-1883 | for every type and any trailing bytes, decoding an encoded value returns it and leaves those bytes if all its lengths are below 2^31, and never returns it otherwise |
| SseCodec.ListLimit | rust/src/frb_generated.rs:2348-2355 | a list of round-tripping elements comes back if and only if it has fewer than 2^31 elements |
| SseCodec.PrefixFree | rust/src/frb_generated.rs:2313-2753 | equal bytes after two encodings mean the same value and the same continuation |
| SseCodec.ParsedConforms | rust/src/frb_generated.rs:1327-1883 | whatever bytes are decoded, the result belongs to the type and can be encoded again without loss |
| SseCodec.WordFormat | rust/src/frb_generated.rs:2335-2339 | a word is its bytes, an enum the four bytes of its index |
| SseCodec.BoolFormat | rust/src/frb_generated.rs:2321-2326 | a truth value is written as 1 or 0, and every byte but 0 is read as true |
| SseCodec.OptFormat | rust/src/frb_generated.rs:2458-2466 | the marker of an optional value is 1 or 0, and every byte but 0 announces a value |
| SseCodec.StringFormat | rust/src/frb_generated.rs:1327-1333 | a string is its length in four bytes and its bytes; any length is read as the source reads it, panics included |
| SseCodec.ListFormat | rust/src/frb_generated.rs:2388-2395 | a list is its length in four bytes and its elements in order |
| SseCodec.ListCount | rust/src/frb_generated.rs:1411-1423 | a list is read with as many elements as its length says, none for a negative one |
| SseCodec.RecordFormat | rust/src/frb_generated.rs:2721-2753 | a record is its fields in order |
| SseCursor.SseDeserializer.Decode | rust/src/frb_generated.rs:1335-1600 | the advancing cursor ends with the parser's value and rest, or panics where it does |
| SseCursor.SseDeserializer.DecodeString | rust/src/frb_generated.rs:1327-1333 | the byte-by-byte loop reads the string the parser reads, and panics on invalid UTF-8 |
| SseCursor.SseDeserializer.DecodeItems | rust/src/frb_generated.rs:1411-1423 | the loop that pushes elements refines the recursive list parser, nested lists included |
| SseCursor.SseSerializer.EncodeValue | rust/src/frb_generated.rs:2313-2485 | the write cursor grows by exactly the encoding |
| SseCursor.SseSerializer.EncodeAllItems | rust/src/frb_generated.rs:2388-2395 | the loop over the elements writes their encodings in order |
| VntConfig.LayoutConforms | rust/src/frb_generated.rs:2721-2753 | the 28 fields are written as values of the types listed for their places |
| VntConfig.LayoutInverse | rust/src/frb_generated.rs:1821-1883 | reading the 28 fields back in order gives the same record |
| VntConfig.LayoutBack | rust/src/frb_generated.rs:1821-1883 | any decoded list of fields is the one its record is written as |
| VntConfig.Representations | rust/src/frb_generated.rs:2543-2558 | what stands for each Rust value on the wire, tuples and lists in their own order |
| VntConfig.FieldsOfA | rust/src/frb_generated.rs:2724-2730 | the values at places 0 to 6 are those of the named fields |
| VntConfig.FieldsOfB | rust/src/frb_generated.rs:2731-2737 | the same for places 7 to 13 |
| VntConfig.FieldsOfC | rust/src/frb_generated.rs:2738-2744 | the same for places 14 to 20 |
| VntConfig.FieldsOfD | rust/src/frb_generated.rs:2745-2751 | the same for places 21 to 27 |
| VntConfig.ConfigFormat | rust/src/frb_generated.rs:2721-2753 | the bytes of a configuration are those of its 28 fields, one after another |
| VntConfig.VntConfigRoundTrip | rust/src/frb_generated.rs:1821-1883 | a configuration comes back, leaving exactly the trailing bytes, if and only if all its strings and lists are shorter than 2^31 |
| VntConfig.VntConfigPrefixFree | rust/src/frb_generated.rs:2721-2753 | no configuration's encoding is a proper prefix of another's |
| VntConfig.SseEncode | rust/src/frb_generated.rs:2721-2753 | the 28 writes, one after another, write the encoding of the configuration after what was there |
| VntConfig.SseDecode | rust/src/frb_generated.rs:1821-1883 | the 28 reads, one after another, and the record built from them end as the parser does, panics included |
| VntConfig.RouteTableRoundTrip | rust/src/frb_generated.rs:1411-1423 | the nested route lists come back if and only if every list and string in them is short enough |
| VntConfig.ErrorTypeDecodes | rust/src/frb_generated.rs:1688-1706 | the nine error codes decode to their variants and every other number panics |
| FrameHandoff.FrameStable | vntcrustdesk-src/src/flutter.rs:1196-1213 | in every interleaving the stored frame never changes while it stays valid |
| FrameHandoff.FrameIsLastStored | vntcrustdesk-src/src/flutter.rs:1196-1213 | a valid frame is the decoder's frame at the last accepted store |
| FrameHandoff.SwapReturnsPreviousFrame | vntcrustdesk-src/src/flutter.rs:1196-1213 | over every run, at an accepted store the decoder gets back exactly the frame it handed over at the accepted store before if the frames were not cleared since, and an empty buffer otherwise |
| FrameHandoff.ReturnedValidWasSent | vntcrustdesk-src/src/flutter.rs:1214-1245 | when the producer has returned and the frame is valid, an Rgba event for the display was sent and the frame has been valid ever since |
| FrameHandoff.ReleaseExactly | vntcrustdesk-src/src/flutter.rs:1098-1102 | a release by the UI, or a withdrawal, takes the frame's validity and changes no other frame |
| FrameHandoff.StoreRefusedExactly | vntcrustdesk-src/src/flutter.rs:1196-1213 | over every run a store is refused if and only if the frame of the last accepted one was not released, withdrawn or cleared since |
| FrameHandoff.ReleaseLetsNextFrameIn | vntcrustdesk-src/src/flutter.rs:1098-1102 | over every run the next store after a release is accepted and puts the decoder's current frame in place |
| FrameHandoff.ProducerNeverStuck | vntcrustdesk-src/src/flutter.rs:1196-1245 | in every phase the producer has a step to make, whatever the others do |
| FrameHandoff.NotificationsFor | vntcrustdesk-src/src/flutter.rs:1215-1232 | events are sent if and only if some session is to be told, and all are for the display, whatever the order |
| FrameHandoff.LoopSends | vntcrustdesk-src/src/flutter.rs:1215-1232 | with any steps of other threads between two sessions, the loop tells exactly the sessions it has to, in its order, and knows at the end whether there were any |
| FrameHandoff.FlutterHandler.StoreRgba | vntcrustdesk-src/src/flutter.rs:1196-1213 | the first critical section is the protocol's store step and is refused exactly while a frame is valid |
| FrameHandoff.FlutterHandler.SendEvents | vntcrustdesk-src/src/flutter.rs:1215-1232 | the session loop, undisturbed, sends exactly the events of the sessions to be told |
| FrameHandoff.FlutterHandler.TellSession | vntcrustdesk-src/src/flutter.rs:1217-1231 | one turn of the loop: the guards decide whether the session is told |
| FrameHandoff.FlutterHandler.WithdrawIfUnsent | vntcrustdesk-src/src/flutter.rs:1233-1245 | an unannounced frame is withdrawn |
| FrameHandoff.FlutterHandler.GetFrame | vntcrustdesk-src/src/flutter.rs:1088-1095 | a frame is returned exactly while one is valid |
| FrameHandoff.FlutterHandler.NextFrame | vntcrustdesk-src/src/flutter.rs:1098-1102 | the UI's release is the protocol's release step: only the validity of that display's frame changes |
| FrameHandoff.FlutterHandler.ClearFrames | vntcrustdesk-src/src/flutter.rs:657-661 | all stored frames are given up |
| SessionRegistry.AlwaysAgreed | vntcrustdesk-src/src/flutter.rs:2098-2282 | every reachable registry holds each session under one peer and no peer without a session |
| SessionRegistry.InsertExactly | vntcrustdesk-src/src/flutter.rs:2229-2282 | inserting adds the session to its peer, and the peer if it is missing, and changes nothing else |
| SessionRegistry.RemoveExactly | vntcrustdesk-src/src/flutter.rs:2098-2119 | for any registry, removing takes the session from its first holder in the order and changes nothing else; the peer goes, and is returned, exactly with its last session |
| SessionRegistry.RemoveTakesOnlyThatId | vntcrustdesk-src/src/flutter.rs:2098-2119 | in an agreed registry exactly that session is gone, and the peers that had no other |
| SessionRegistry.InsertThenRemove | vntcrustdesk-src/src/flutter.rs:2098-2243 | removing a session just inserted gives the registry back |
| SessionRegistry.InsertAgreesExactly | vntcrustdesk-src/src/flutter.rs:2229-2282 | inserting keeps that if and only if the id is not in use by another peer |
| SessionRegistry.PredictionCorrect | vntcrustdesk-src/src/flutter.rs:2098-2139 | the prediction is true exactly when the removal returns a peer, and the removal gives the same registry, whatever the iteration orders |
| SessionRegistry.PredictionCorrectExactly | vntcrustdesk-src/src/flutter.rs:2119-2139 | for any registry at all, prediction and removal agree in every pair of orders if and only if the holders of the id agree on being left empty |
| SessionRegistry.ReachablePrediction | vntcrustdesk-src/src/flutter.rs:2119-2139 | the prediction is exact in every reachable registry |
| SessionRegistry.Sessions.RemoveSessionById | vntcrustdesk-src/src/flutter.rs:2098-2119 | the loop with its early exit and the removal of an empty peer |
| SessionRegistry.Sessions.WouldRemovePeer | vntcrustdesk-src/src/flutter.rs:2129-2139 | the predicting loop stops at the same peer |
| SessionRegistry.Sessions.InsertSession | vntcrustdesk-src/src/flutter.rs:2229-2243 | the session is added under its peer, which is created if missing |
| SessionRegistry.Sessions.InsertPeerSessionId | vntcrustdesk-src/src/flutter.rs:2251-2282 | the session is added only under an existing peer |
| TlsFallback.PostFollowsPlan | vntcrustdesk-src/src/common.rs:1166-1248 | whatever the network does, the recursion makes the attempts of the fixed plan of open combinations, cut at the first that is not a request error |
| TlsFallback.FollowExactly | vntcrustdesk-src/src/common.rs:1166-1248 | the attempts are the plan up to the first that is not a request error, and the answer is that attempt's |
| TlsFallback.RequestExactly | vntcrustdesk-src/libs/hbb_common/src/tls.rs:42-95 | a whole request tries the backends and flags the cache leaves open, in order, and records only what was answered |
| TlsFallback.FreshHost | vntcrustdesk-src/src/common.rs:1166-1248 | for a host nothing is known of the order is rustls strict and lax, then native TLS strict and lax |
| TlsFallback.FallbackTerminates | vntcrustdesk-src/src/common.rs:1166-1248 | at most four attempts, fewer when something is cached, none repeated; the answered one is the last; without an answer an error ended it or all were tried |
| TlsFallback.NextRequestIsSingle | vntcrustdesk-src/libs/hbb_common/src/tls.rs:42-95 | after an answered request the cache holds the combination that worked and the next request makes one attempt with it |
| TlsFallback.StrictWhenNotAllowed | vntcrustdesk-src/libs/hbb_common/src/tls.rs:83-95 | with the fallback off no attempt accepts an invalid certificate |
| TlsFallback.SameSequence | vntcrustdesk-src/src/common.rs:1256-1355 | `get_http_response_async` tries the same sequence, or nothing for a malformed request |
| HolePunch.PunchUdp | vntcrustdesk-src/src/common.rs:2231-2280 | the loop over the wake-ups computes the specified run, with its packet count |
| HolePunch.IntervalShape | vntcrustdesk-src/src/common.rs:2253-2263 | the retry interval is 20, 30, 45, 67, 100, 150 and then 200 ms, and never shrinks |
| HolePunch.IntervalInRun | vntcrustdesk-src/src/common.rs:2253-2263 | throughout any run it is the entry for the number of packets sent, between 20 and 200 ms |
| HolePunch.WakeUpExactly | vntcrustdesk-src/src/common.rs:2249-2265 | a wake-up sends exactly if the interval has passed since the last packet, and then notes the time and lengthens the interval |
| HolePunch.ResultExactly | vntcrustdesk-src/src/common.rs:2244-2279 | the first event that does not leave the loop running decides the result; with no sleep cut short every wake-up before it sends |
| HolePunch.PacketsExactly | vntcrustdesk-src/src/common.rs:2231-2280 | the packets of a run are the first and one for each wake-up within the limit |
| HolePunch.AtMost104 | vntcrustdesk-src/src/common.rs:2231-2280 | no run sends more than 104 packets, whatever the gap before the start of the limit, the time between the readings of a wake-up, late wake-ups and datagrams in between; the sleeps are not cut short |
| HolePunch.Reaches104 | vntcrustdesk-src/src/common.rs:2231-2280 | the run whose sleeps all end on time sends 104 |
| HolePunch.TimesOutExactly | vntcrustdesk-src/src/common.rs:2245-2275 | the loop gives up if and only if a sleep ends after the limit before anything else ends the loop |
| HolePunch.DatagramsPostponeTheLimit | vntcrustdesk-src/src/common.rs:2245-2275 | any number of empty datagrams, each before the end of a sleep, leaves a listener waiting and its packets unsent |
| Throttle.ThrottledInterval.PollTick | vntcrustdesk-src/src/common.rs:1784-1799 | a poll returns the inner instant when the inner interval is ready and the minimum has passed, and only then moves the next tick |
| Throttle.ThrottledInterval.PollAll | vntcrustdesk-src/src/common.rs:1779-1799 | the ready times of a whole sequence of polls |
| Throttle.TicksSpaced | vntcrustdesk-src/src/common.rs:1784-1799 | ready ticks are at least the minimum interval apart, whatever the inner interval and the polls |
| Throttle.TicksExactly | vntcrustdesk-src/src/common.rs:1784-1799 | a poll ticks if and only if the inner interval is ready, the first tick is due and the minimum has passed since every tick so far |
| Throttle.WindowBound | vntcrustdesk-src/src/common.rs:1784-1799 | any window of length T holds at most floor(T / minimum) + 1 ticks |
| Clipboard.AppliedIsSilent | vntcrustdesk-src/src/clipboard.rs:208-232 | what an applied update writes can never be sent on, whatever formats it brought and whichever side reads it |
| Clipboard.GetExactly | vntcrustdesk-src/src/clipboard.rs:313-357 | which formats a read finds, by kind, owner tag, force and files |
| Clipboard.GetInOrder | vntcrustdesk-src/src/clipboard.rs:328-357 | a read keeps the order of the clipboard and its repetitions |
| Clipboard.ForPeerExactly | vntcrustdesk-src/src/clipboard.rs:470-494 | a peer without multi-format support gets the first text, another one everything |
| Clipboard.ForcedReadIgnoresOwner | vntcrustdesk-src/src/clipboard.rs:328-357 | a forced read of an applied update finds what it would find in a local copy of it |
| Clipboard.ClipboardContext.GetFormatsFilter | vntcrustdesk-src/src/clipboard.rs:328-357 | nothing behind an owner tag unless forced; otherwise everything but the tag and empty text |
| Clipboard.ClipboardContext.CheckClipboard | vntcrustdesk-src/src/clipboard.rs:52-76 | a message is produced exactly when there is something to send, and is remembered |
| Clipboard.ClipboardContext.GetCurrentClipboardMsg | vntcrustdesk-src/src/clipboard.rs:470-494 | the initial sync starts from the last message, or else from a forced read, which it remembers; a peer without multi-format support gets the first text |
| Clipboard.ClipboardContext.UpdateClipboard | vntcrustdesk-src/src/clipboard.rs:199-232 | an update is written with the side's own tag, and an empty one not at all |
| ClipboardSync.EchoFree | vntcrustdesk-src/src/clipboard.rs:328-357 | in every run a side whose clipboard was last written by an applied update sends nothing until its next local copy, but for one message at most in each initial sync of the client |
| ClipboardSync.CopyArrives | vntcrustdesk-src/src/client.rs:1004-1030 | content copied on either side, its notification handled and its message applied, is on the other side's clipboard with that side's owner tag |
| ClipboardSync.SilentUntilCopy | vntcrustdesk-src/src/clipboard.rs:328-357 | a side with nothing to send stays so until its next local copy, and sends at most one message for each of its initial syncs |
| ClipboardSync.InitialSyncEchoes | vntcrustdesk-src/src/client/io_loop.rs:1375-1388 | an initial sync by a client that sent nothing before sends an applied update back exactly when a local copy of it would be something to send to this peer |
| ClipboardSync.EchoAfterReconnect | vntcrustdesk-src/src/client/io_loop.rs:1375-1388 | a run in which the host's text comes back although nothing was copied on the client |
| ClipboardSync.StepDecreases | vntcrustdesk-src/src/client.rs:1004-1030 | every step other than a copy or an initial sync lowers a lexicographic measure, and a message costs a pending notification |
| ClipboardSync.Quiescence | vntcrustdesk-src/src/client.rs:1004-1030 | after the last copy the messages sent number at most the notifications pending then and the initial syncs to come, and the exchange ends within a fixed number of steps, three more for each of those |
| ClipboardSync.StopsOnlyWhenQuiet | vntcrustdesk-src/src/server/clipboard_service.rs:80-109 | copies and new connections apart, it stops exactly when nothing is pending or on its way |
| LanPeers.HandleReceivedPeers | vntcrustdesk-src/src/lan.rs:305-343 | the loop with its response set computes the merge of the responses so far |
| LanPeers.MoveToFront | vntcrustdesk-src/src/lan.rs:305-343 | the final list is the distinct responders, latest response first and online, then the silent peers in their original order, offline |
| LanPeers.StaysDistinct | vntcrustdesk-src/src/lan.rs:305-343 | a list without duplicates stays one |
| LanPeers.EarliestWins | vntcrustdesk-src/src/lan.rs:319-325 | a responder's addresses are the union of its responses of the round, the earliest winning |
| LanPeers.StoredDiscardedExactly | vntcrustdesk-src/src/lan.rs:316-325 | stored addresses are discarded, whatever was stored, if and only if no id answers under two user names |
| LanPeers.TwoNamesKeepStored | vntcrustdesk-src/src/lan.rs:316-325 | an input for which they are kept |
| PortForward.NothingRawBeforeLogin | vntcrustdesk-src/src/port_forward.rs:129-189 | in every select order no raw byte goes out before the peer information, all bytes read are held in order, and login succeeds exactly when that message comes before anything that ends the loop |
| PortForward.LoginExactly | vntcrustdesk-src/src/port_forward.rs:129-189 | the loop reads events up to the first that ends it, whose kind decides the result |
| PortForward.HeardExactly | vntcrustdesk-src/src/port_forward.rs:129-189 | the login loop holds exactly the local bytes and sends the remote exactly the messages of its handlers and of the UI, in order |
| PortForward.ForwardExactly | vntcrustdesk-src/src/port_forward.rs:197-219 | forwarding copies everything up to the first end of either side and nothing after it; bytes are lost exactly where a send failed |
| PortForward.ByteConservation | vntcrustdesk-src/src/port_forward.rs:190-219 | at every moment after the flush each direction has delivered exactly the bytes read, in order, if and only if no byte was in a failed send |
| PortForward.EndToEnd | vntcrustdesk-src/src/port_forward.rs:106-219 | of a whole connection the remote gets all local bytes of login and forwarding in order, and the local side all remote ones, if and only if no send of bytes failed |
| PortForward.Tunnel.ConnectAndLogin | vntcrustdesk-src/src/port_forward.rs:106-195 | the select loop and the flush compute the specified connection |
| PortForward.Tunnel.RunForward | vntcrustdesk-src/src/port_forward.rs:197-219 | the forwarding loop computes the specified connection |

## Left out

- Sockets, rendezvous, relays, STUN, KCP and the UI event streams: their outcomes are parameters or steps.
- Audio resampling and rechanneling, and the device callback's wait for a short buffer: floating point and scheduling; a callback is its final pop.
- Frames that go to the texture or GPU renderer: they bypass the stored frames.
- The ring buffer crate, the codec libraries and the operating system's clipboard: foreign code, modelled by what it is documented to do.
- The clipboard's payload encoding and compression: what a receiver makes of a message is left open, so the clipboard theorems hold for any encoding.
- The file clipboard and the clients without a multi-format clipboard: separate paths beside the one modelled.
- The log, dialogs and the event that copies a connected password to the personal address book: no part of the state modelled.
- Opaque pointers, dispatch tables and the Dart half of the bridge: not Rust code or deliberately one-sided.
- The remaining records of the codec (device, peer, NAT and handshake information): further instances of the same shapes, for which `SseCodec.RoundTrip` already holds.
- The gap between the two locks of `remove_session_by_session_id`: registry operations are atomic here.
- When the LAN list is written to disk during a round: only the final list is modelled.
- AudioBuffer.AudioBuffer.AppendPcm: runs its two halves without a device pop in between; `TryShrink` takes any occupancy, so that case is covered there.
- HolePunch.PunchUdp: returns the length of the received datagram, not its bytes.

# Atlas: a Dafny model of the prototype envelope codec, the mesh store and the chat client logic

Atlas is an offline-first messaging prototype. A node generates an identity,
encrypts and signs chat messages, and hands them to a simulated mesh layer.
The mesh keeps a table of nearby peers, a store of broadcast messages and a
list of peer subscribers. This project models three parts of it in Dafny and
proves properties about them:

- **Crypto** (`services/cryptoService.ts`). This layer is a string-framing
  codec, not cryptography.
  - `encrypt` writes `enc:`, at most five characters of the recipient key, a
    colon and the base64 of the UTF-8 bytes of the text.
  - `decrypt` reads back the last colon-separated field.
  - `sign` joins a tag, part of the payload's base64 and part of the private
    key.
  - `verify` checks only the `sig_` tag.
  - `generateIdentity` builds prefixed id and key strings.
  - The codecs the layer relies on are modelled with their own round trips:
    UTF-8 (RFC 3629 section 3) in `Utf8`, and base64 (RFC 4648 section 4) in
    `Base64`, whose decoding is the WHATWG forgiving-base64 decode that `atob`
    runs.
- **Mesh** (`services/meshService.ts`). The class `MeshNetwork` holds the
  peer table (a map plus its key insertion order, which `getPeers` follows),
  the message store and the subscriber list. It offers `broadcast`,
  `getPeers`, `subscribePeers`, the initial seeding of four mock peers and
  one firing of the discovery interval.
- **App** (`App.tsx`), with the logic lifted out of the React component:
  - `formatTime`;
  - the send guard, addressing, encryption and signing of
    `handleSendMessage`;
  - the chat visibility filter;
  - the `[VOICE_MSG]:` content prefix;
  - the message log and `toggleStealth`, as methods of a `ChatSession` class.

Randomness and clocks are parameters:
- `GenerateIdentity` receives the two random slices and the two `Date.now()`
  readings.
- The `MeshNetwork` constructor receives one clock reading per seeded peer.
- `DiscoveryTick` receives one `TickDraw` per peer: its three `Math.random()`
  draws and the clock.
- `SendMessage` receives the random message id and the clock.

Subscriber callbacks are opaque handles. Each call of a callback is recorded
in the `notifications` field.

Files:
- `wrappers.dfy`: `Option`, `Result`.
- `bytes.dfy`: the `Byte` type of the codecs.
- `types.dfy`: the records of `types.ts`. The TypeScript field `type` is
  called `kind`.
- `text.dfy`: the JavaScript string operations the code uses.
- `utf8.dfy`, `base64.dfy`: the two codecs.
- `crypto.dfy`, `mesh.dfy`, `app.dfy`: the three parts above.

Where the system's design and its code disagree, the model follows the
code:
- The design describes real end-to-end encryption and signature checking.
- The code's `verify` accepts any signature that starts with `sig_`.
- The code's `decrypt` works with any key.
- Both are modelled exactly as written.

## Model

| member | source | states |
|---|---|---|
| Text.Take | services/cryptoService.ts:36 | `substring(0, n)` is a prefix of its input of length min(length, n) |
| Text.NatToString | App.tsx:219 | `toString` of a non-negative integer is a canonical decimal numeral, and it is "0" exactly for zero |
| Text.ParseNatToString | App.tsx:219 | reading the rendered numeral back gives the number |
| Text.NatToStringParse | App.tsx:219 | every canonical numeral is the rendering of its own value, so rendering is a bijection onto numerals |
| Text.IntToString | App.tsx:219 | a negative integer renders as a minus sign before the numeral of its magnitude |
| Text.PadStart | App.tsx:219 | `padStart` keeps the string as the suffix, fills only in front, and reaches length max(length, target) |
| Text.TrimStart | App.tsx:118 | only leading whitespace is dropped, and what remains does not start with whitespace |
| Text.TrimEnd | App.tsx:118 | only trailing whitespace is dropped, and what remains does not end with whitespace |
| Text.Trim | App.tsx:118 | `trim()` is no longer than its input, and neither its first nor its last character is whitespace; TrimEmptyIffBlank gives when it is empty |
| Text.TrimEmptyIffBlank | App.tsx:118 | `trim()` is empty exactly when every character is ECMAScript whitespace or a line terminator |
| Text.IndexOf | App.tsx:224 | the result is the first occurrence at or after the start position, and None means there is no occurrence |
| Text.RemoveFirst | App.tsx:224 | `replace(pat, '')` leaves a string without `pat` unchanged, and otherwise cuts exactly the first occurrence, keeping what precedes and follows it |
| Text.RemoveFirstOfPrefix | App.tsx:224 | `replace(pat, '')` on a string that starts with `pat` removes exactly that prefix |
| Text.LastField | services/cryptoService.ts:54-55 | the last `split(':')` element is a colon-free suffix, and it is preceded by a colon unless it is the whole string |
| Text.LastFieldAfterColon | services/cryptoService.ts:54-55 | when `y` has no colon, the last field of `x + ":" + y` is `y`, whatever `x` is |
| Utf8.EncodeChar | services/cryptoService.ts:47 | a character takes one to four bytes, and one byte exactly when it is ASCII |
| Utf8.Encode | services/cryptoService.ts:47 | a text takes between one and four bytes per character, and exactly one per character when it is all ASCII |
| Utf8.DecodeChar | services/cryptoService.ts:56 | a successful read consumes between one byte and all the bytes |
| Utf8.Decode | services/cryptoService.ts:56 | decoded text has at most as many characters as there were bytes; the round-trip lemmas pin which bytes decode and to what |
| Utf8.DecodeEncodeChar | services/cryptoService.ts:47-56 | a character's bytes decode back to it, whatever bytes follow |
| Utf8.DecodeEncode | services/cryptoService.ts:47-56 | decoding the UTF-8 encoding of any text gives the text |
| Utf8.EncodeDecodedChar | services/cryptoService.ts:47-56 | the bytes a character was read from are that character's encoding (overlong forms, surrogates and values above U+10FFFF are refused) |
| Utf8.EncodeDecode | services/cryptoService.ts:47-56 | bytes that decode are exactly the encoding of the text they decode to |
| Base64.CharOf | services/cryptoService.ts:47 | every six-bit value maps to an alphabet character |
| Base64.ValueOf | services/cryptoService.ts:56 | an alphabet character's value is below 64 and maps back to the character |
| Base64.ValueOfCharOf | services/cryptoService.ts:47-56 | value and character are inverse on the 64 values |
| Base64.UnpaddedLength | services/cryptoService.ts:47 | the unpadded length is 0 only for no bytes, and it leaves remainder 0, 2 or 3 by four for byte counts with remainder 0, 1 or 2 by three |
| Base64.EncodeSingle | services/cryptoService.ts:47 | a last single byte gives two alphabet characters, the second with its four unused low bits zero |
| Base64.EncodePair | services/cryptoService.ts:47 | a last pair of bytes gives three alphabet characters, the third with its two unused low bits zero |
| Base64.EncodeUnpadded | services/cryptoService.ts:47 | the unpadded characters are all in the alphabet, there are UnpaddedLength of them, and the unused low bits of a last single byte's or last pair's final character are zero, as in the canonical form of RFC 4648 section 3.5 |
| Base64.Padding | services/cryptoService.ts:47 | the padding is made only of '=' and completes the unpadded characters to a multiple of four |
| Base64.Encode | services/cryptoService.ts:47 | `btoa` output has a length that is a multiple of four and uses only alphabet characters and '=' |
| Base64.RemoveWhitespace | services/cryptoService.ts:56 | a character remains exactly when it was in the input and is not ASCII whitespace, and whitespace-free text is unchanged |
| Base64.RemoveWhitespaceAppend | services/cryptoService.ts:56 | whitespace removal works piece by piece, so the kept characters stay in their order |
| Base64.RemoveWhitespaceOne | services/cryptoService.ts:56 | a single character is dropped exactly when it is ASCII whitespace |
| Base64.RemoveWhitespaceSkips | services/cryptoService.ts:56 | inserting one whitespace character anywhere does not change what remains after removal |
| Base64.DecodeSkipsWhitespace | services/cryptoService.ts:56 | `atob` reads a text with whitespace inserted anywhere exactly as the text without it |
| Base64.StripPadding | services/cryptoService.ts:56 | at most two trailing characters are removed, all of them '=', and only when the length is a multiple of four |
| Base64.DecodeGroups | services/cryptoService.ts:56 | each full group of four characters gives three bytes, and a last group of two or three characters gives one or two |
| Base64.Decode | services/cryptoService.ts:56 | `atob` fails exactly when, without whitespace and padding, the length leaves remainder one by four or a character is outside the alphabet |
| Base64.DecodeEncodeTriple | services/cryptoService.ts:47-56 | three bytes survive the trip through four characters |
| Base64.DecodeEncodeGroups | services/cryptoService.ts:47-56 | the unpadded characters decode back to the bytes |
| Base64.StripPaddingOfEncode | services/cryptoService.ts:47-56 | removing the padding of an encoding leaves its unpadded characters |
| Base64.DecodeEncode | services/cryptoService.ts:47-56 | `atob(btoa(x))` gives back `x` for every byte sequence |
| Base64.EncodeHasNoColon | services/cryptoService.ts:48 | no encoding contains a colon |
| Crypto.BinaryBytes | services/cryptoService.ts:36 | a string has bytes exactly when every code is below 256, and then there is one byte per character, equal to its code |
| Crypto.Btoa | services/cryptoService.ts:36 | `btoa` succeeds exactly on binary strings |
| Crypto.GenerateIdentity | services/cryptoService.ts:11-30 | the alias is kept; the identity's public key is the key pair's; the prefixes are `atls_`, `pk_` and `sk_`; the two keys differ; settings are read receipts on and stealth off |
| Crypto.GeneratedKeysCarryClock | services/cryptoService.ts:13-15 | both keys embed the same entropy slice, and each key's tail reads back as its own clock reading |
| Crypto.Sign | services/cryptoService.ts:34-37 | `sign` succeeds exactly when the payload is a binary string, and every signature starts with `sig_` |
| Crypto.SignatureLayout | services/cryptoService.ts:36 | a signature is the tag, at most 16 characters of the payload's base64, an underscore and at most 8 characters of the private key |
| Crypto.SignatureRevealsKeyPrefix | services/cryptoService.ts:36 | the private key's first eight characters can be read back from every signature |
| Crypto.VerifyAcceptsSigned | services/cryptoService.ts:36-42 | every signature `sign` makes verifies, for any payload and any public key |
| Crypto.Verify | services/cryptoService.ts:40-42 | `verify` is true exactly when the signature starts with `sig_` |
| Crypto.VerifyIgnoresPayloadAndKey | services/cryptoService.ts:40-42 | `verify` is true exactly when the signature starts with `sig_`, independent of payload and key |
| Crypto.Encrypt | services/cryptoService.ts:45-49 | the output starts with `enc:`, and its last colon-separated field is the base64 of the UTF-8 bytes of the text |
| Crypto.EncryptShape | services/cryptoService.ts:45-49 | the output does not depend on the private key, and it is `enc:`, the first min(5, length) key characters, a colon and the encoding |
| Crypto.EncryptIsBinaryIff | services/cryptoService.ts:47-48 | the encrypted payload is a binary string exactly when the kept key characters are |
| Crypto.BinaryConcat | services/cryptoService.ts:48 | a concatenation is binary exactly when both parts are |
| Crypto.DecodeField | services/cryptoService.ts:56 | it fails with InvalidCharacter exactly when `atob` fails, and with MalformedUri exactly when the bytes are not UTF-8 |
| Crypto.Decrypt | services/cryptoService.ts:52-57 | a payload without `enc:` is returned unchanged; otherwise only its last colon-separated field is decoded |
| Crypto.DecryptIgnoresKey | services/cryptoService.ts:52-57 | the private key never changes the result |
| Crypto.DecryptEncrypt | services/cryptoService.ts:45-57 | decrypting an encryption gives the text back, for any text and any keys |
| Crypto.DecryptedTextReencodes | services/cryptoService.ts:54-56 | a successful decrypt's text re-encodes to exactly the bytes that were decoded |
| Mesh.SeedPeers | services/meshService.ts:33-38 | four mock peers with distinct ids |
| Mesh.ValuesInOrder | services/meshService.ts:24 | the table's values, one per key, in key order |
| Mesh.ClampDistance | services/meshService.ts:47 | the clamped distance lies in [0.1, 10]; a distance already in range is unchanged, one above 10 becomes 10, and one below 0.1 becomes 0.1 |
| Mesh.TickPeer | services/meshService.ts:46-52 | id, key and alias are kept; `lastSeen` becomes now; the distance is the drifted value clamped to [0.1, 10]; the status is Offline above 0.98, else Online above 0.95, else unchanged |
| Mesh.TickNeverPromotesToRelay | services/meshService.ts:51-52 | a peer that is a relay after a tick was a relay before |
| Mesh.StoreOf | services/meshService.ts:20 | every entry of the store sits under its own id and is one of the broadcast messages |
| Mesh.StoreOfKeys | services/meshService.ts:20 | the store has one entry per broadcast id, and each entry is stored under its own id |
| Mesh.StoreOfLatest | services/meshService.ts:20 | the entry for an id is the latest message broadcast with that id |
| Mesh.StoreOfOverwrite | services/meshService.ts:20 | broadcasting two messages with one id leaves the same store as broadcasting only the later one |
| Mesh.Fanout | services/meshService.ts:55 | each subscriber, in order, is called exactly once with the snapshot |
| Mesh.MeshNetwork.GetPeers | services/meshService.ts:23-25 | the peers listed are exactly the table's values, one per key, in insertion order, as many as there are keys |
| Mesh.MeshNetwork.constructor | services/meshService.ts:9-14 | the new network holds exactly the four seeded peers, keyed by their distinct ids in seeding order, with an empty store and no subscribers |
| Mesh.MeshNetwork.SetPeer | services/meshService.ts:40 | `Map.set` updates the entry; a new key goes last in the order and a known key keeps its place |
| Mesh.MeshNetwork.Broadcast | services/meshService.ts:18-21 | the store maps the message's id to the message; every other entry, the peers and the subscribers are unchanged; the store still matches the broadcast history |
| Mesh.MeshNetwork.SubscribePeers | services/meshService.ts:27-30 | the callback is appended, and it is called exactly once with the current `getPeers()` |
| Mesh.MeshNetwork.DiscoveryTick | services/meshService.ts:43-55 | the key set and order are unchanged; every peer is updated with its own draws; every distance ends in [0.1, 10]; every subscriber is called once with the new peers; the store is untouched |
| Mesh.MeshNetwork.UpdatePeers | services/meshService.ts:44-53 | each peer in table order becomes TickPeer of its old value, and the key set is unchanged |
| Mesh.MeshNetwork.NotifySubscribers | services/meshService.ts:55 | the notifications grow by one call per subscriber, in order, each with the current snapshot |
| App.JsRemainder60 | App.tsx:218 | JavaScript's `% 60`: magnitude below 60, the sign of the dividend, and congruent to it modulo 60 |
| App.FormatTime | App.tsx:216-220 | the output starts with the numeral of the whole minutes, then a colon, then at least two more characters; FormatTimeShape and FormatTimeReadsBack pin the digits |
| App.TwoDigits | App.tsx:219 | a seconds value below 60, padded, is exactly its tens digit and its units digit |
| App.FormatTimeShape | App.tsx:216-220 | for a non-negative count, the output is the numeral of the whole minutes, a colon and exactly two digits of the remaining seconds |
| App.FormatTimeReadsBack | App.tsx:216-220 | the two digits read below 60, and 60 times the minutes plus the seconds gives the original count |
| App.VoiceContent | App.tsx:178 | voice-note content starts with the `[VOICE_MSG]:` prefix |
| App.AudioUrlOf | App.tsx:223-224 | content is recognised as a voice note exactly when it starts with the prefix |
| App.VoiceRoundTrip | App.tsx:223-224 | a voice note is recognised, and the extracted URL is exactly the one it was built from |
| App.AudioUrlOfIsVoiceContent | App.tsx:223-224 | any recognised content is the voice content of the URL extracted from it |
| App.ShownMessages | App.tsx:406-409 | a message is shown exactly when it is an emergency, or there is an active peer and it comes from that peer or is mine |
| App.ShownMessagesAppend | App.tsx:406-409 | the filter keeps log order: filtering a joined log gives the filtered parts joined |
| App.NoActivePeerShowsEmergencies | App.tsx:406-408 | without an active peer, exactly the emergencies are shown |
| App.IsShown | App.tsx:407-408 | an emergency is always shown; without an active peer only emergencies are shown; with one, a message is shown exactly when it is an emergency, comes from that peer or is mine |
| App.RecipientKey | App.tsx:120-122 | the key is `BROADCAST` for emergencies and shared knowledge; otherwise it is the active peer's non-empty public key, or `BROADCAST` |
| App.ReceiverId | App.tsx:131 | the receiver is `GLOBAL_SOS` for an emergency; otherwise it is the active peer's non-empty id, or `GLOBAL` |
| App.ChosenText | App.tsx:117 | a non-empty custom text is sent; otherwise the input box is sent |
| App.SendBlocked | App.tsx:118 | the send stops exactly when the text is all whitespace, or a chat message has no active peer, or there is no identity |
| App.ComposeSend | App.tsx:115-147 | nothing is sent exactly when the guard stops the send; a sent message carries the text encrypted for RecipientKey, signed with the sender's private key, from this identity to ReceiverId, with the given id, type and time, hop count 0 and no reference; the log entry is mine, with the same id and the chosen text |
| App.ComposeSkippedIff | App.tsx:117-118 | nothing is sent exactly when the chosen text is blank, or a chat message has no active peer, or there is no identity |
| App.ComposeSignThrewIff | App.tsx:124-125 | `sign` throws exactly when the guard passes and a kept recipient-key character has code 256 or more |
| App.ComposeSentMessage | App.tsx:127-147 | a sent message has the given id and time, hop count 0, this node as sender and the chosen receiver; its payload decrypts to the text under any key and its signature verifies; the log entry is mine, with the same id, time, type and text |
| App.WithStealthToggled | App.tsx:208-213 | only `settings.stealthMode` flips; the rest of the identity and the keys are kept |
| App.ToggleStealthTwice | App.tsx:208-213 | toggling twice restores the identity |
| App.ChatSession.constructor | App.tsx:49-58 | no identity, no active peer, an empty log, empty input and no emergency flag |
| App.ChatSession.SendMessage | App.tsx:115-158 | the outcome is that of the guard, encryption and signing on the current state; a send broadcasts the message and appends exactly one entry, keeping earlier ones; otherwise nothing changes; input is cleared only when no custom text was given; the emergency flag is raised by a sent emergency |
| App.ChatSession.Deliver | App.tsx:138-157 | the message is stored in the mesh, one entry is appended, the emergency flag follows the message type, and input is cleared when asked |
| App.ChatSession.ToggleStealth | App.tsx:208-214 | the identity, if any, becomes its toggled form, and nothing else changes |

## Left out

- The asynchrony of the services (`async`/`await`) and the timers are not modelled. This covers the 3000 ms discovery interval, the 500 ms shake timeout and the 1500 ms identity delay. One interval firing is the method `DiscoveryTick`; one call of `handleSendMessage` is `SendMessage`.
- `Math.random()` and `Date.now()` are not modelled; their values are parameters (see above).
- The logging in `broadcast` is left out, since it only writes to the console.
- The emergency tone (Web Audio) is left out. So are the shake animation flag, microphone capture with MediaRecorder and FileReader, the waveform bars, all rendering, and the static knowledge base: none of these computes anything the model states.
- `handleCreateIdentity` and the other UI event handlers outside the send path, view switching and the SOS confirmation are not part of this model.
- Mesh.MeshNetwork: the JavaScript peer objects are shared by reference between the mock list, the map and the component state. The model keeps peers as values, so aliasing of peer objects is not captured.
- Mesh.MeshNetwork: callbacks are opaque handles whose calls are logged. What a callback does, including calling back into the network, is not modelled.
- Mesh.TickPeer: distances are exact reals. The floating-point rounding of the drift is not modelled.
- Mesh.TickPeer: the draws are any reals. The model does not restrict them to `Math.random()`'s range [0, 1).
- Text.Take: strings are sequences of Unicode scalar values. JavaScript's `substring` counts UTF-16 code units, so the two differ for key or payload characters outside the Basic Multilingual Plane.
- Crypto.Encrypt: lone surrogates, which make `encodeURIComponent` throw, cannot occur in the model's text.
- Text.NatToString: numbers of 10^21 and above, which JavaScript prints in exponent form, are rendered as plain numerals.
- App.FormatTime: the count is an integer. Fractional or non-finite seconds are not modelled; the recording timer only counts whole seconds.
- App.ComposeSend: an absent `customText` is represented by the empty string. This is the same for `customText || inputText` and for `!customText`.
- App.ChatSession.SendMessage: the flag `hasNewEmergency` stays raised after an emergency is sent. In the program, the effect at App.tsx:75-80 lowers it again whenever the log changes while the view is CHAT, and `triggerSOS` switches to that view. The view and that effect are not modelled.
- The message fields `isRead` and `referencedMessageId` are carried in the records but never set by the modelled code (they stay None).

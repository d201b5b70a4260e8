/**
 * The logic of the client component (App.tsx) lifted out of React: the
 * recording-timer rendering, the voice-note content prefix, which messages a
 * chat shows, how a message is composed, signed and broadcast, and the two
 * pieces of client state that change in place (the message log and the
 * stealth setting of the identity).
 */
module App {
  import opened Wrappers
  import opened Text
  import opened Types
  import Crypto
  import Mesh

  // ---------------------------------------------------------------------
  // formatTime (App.tsx:216-220)
  // ---------------------------------------------------------------------

  /** JavaScript's `seconds % 60`: the remainder has the sign of `seconds`. */
  function JsRemainder60(seconds: int): (r: int)
    ensures -60 < r < 60
    ensures seconds >= 0 ==> r >= 0
    ensures seconds <= 0 ==> r <= 0
    ensures (seconds - r) % 60 == 0
  {
    if seconds >= 0 then seconds % 60 else -((-seconds) % 60)
  }

  /**
   * `formatTime(seconds)`: whole minutes, a colon, then the remaining seconds
   * padded to two characters. `Math.floor(seconds / 60)` is Dafny's `/`,
   * which rounds down for a positive divisor.
   */
  function FormatTime(seconds: int): (r: string)
    ensures var minutes := IntToString(seconds / 60);
      |r| >= |minutes| + 3 && r[..|minutes|] == minutes && r[|minutes|] == ':'
  {
    var minutes := IntToString(seconds / 60);
    var rest := PadStart(IntToString(JsRemainder60(seconds)), 2, '0');
    assert (minutes + ":" + rest)[..|minutes|] == minutes;
    minutes + ":" + rest
  }

  /** A value below 60, padded to two characters, is its tens digit then its units digit. */
  lemma TwoDigits(x: nat)
    requires x < 60
    ensures PadStart(NatToString(x), 2, '0') == [DigitChar(x / 10), DigitChar(x % 10)]
  {
    if x >= 10 {
      assert NatToString(x / 10) == [DigitChar(x / 10)];
    }
  }

  lemma ParseTwoDigits(x: nat)
    requires x < 60
    ensures var t := [DigitChar(x / 10), DigitChar(x % 10)];
      AllDigits(t) && ParseDigits(t) == x
  {
    var t := [DigitChar(x / 10), DigitChar(x % 10)];
    var u := [DigitChar(x / 10)];
    assert t[..1] == u && u[..0] == [];
    assert ParseDigits(u) == x / 10;
    assert ParseDigits(t) == 10 * (x / 10) + x % 10;
  }

  /** For a non-negative count, the text is the minutes' numeral, a colon and exactly two digits. */
  lemma FormatTimeShape(seconds: int)
    requires seconds >= 0
    ensures var r := FormatTime(seconds);
      && |r| >= 4
      && r[..|r| - 3] == NatToString(seconds / 60)
      && r[|r| - 3] == ':'
      && r[|r| - 2..] == [DigitChar(seconds % 60 / 10), DigitChar(seconds % 60 % 10)]
  {
    TwoDigits(seconds % 60);
    var m := NatToString(seconds / 60);
    var t := [DigitChar(seconds % 60 / 10), DigitChar(seconds % 60 % 10)];
    assert IntToString(seconds / 60) == m;
    assert JsRemainder60(seconds) == seconds % 60;
    assert PadStart(IntToString(JsRemainder60(seconds)), 2, '0') == t;
    var r := FormatTime(seconds);
    assert r == m + ":" + t;
    assert r[..|r| - 3] == m;
    assert r[|r| - 2..] == t;
  }

  /** The rendering can be read back: seconds-part below 60, and minutes * 60 + seconds is the count. */
  lemma FormatTimeReadsBack(seconds: int)
    requires seconds >= 0
    ensures var r := FormatTime(seconds);
      && |r| >= 4 && r[|r| - 3] == ':'
      && IsNumeral(r[..|r| - 3]) && AllDigits(r[|r| - 2..])
      && ParseDigits(r[|r| - 2..]) < 60
      && 60 * ParseDigits(r[..|r| - 3]) + ParseDigits(r[|r| - 2..]) == seconds
  {
    FormatTimeShape(seconds);
    ParseNatToString(seconds / 60);
    ParseTwoDigits(seconds % 60);
  }

  // ---------------------------------------------------------------------
  // Voice-note content (App.tsx:178, 223-224)
  // ---------------------------------------------------------------------

  const VoicePrefix: string := "[VOICE_MSG]:"

  /** The content a recorded voice note is sent as. */
  function VoiceContent(audioUrl: string): (r: string)
    ensures VoicePrefix <= r && |r| == |VoicePrefix| + |audioUrl|
  {
    VoicePrefix + audioUrl
  }

  /** `renderMessageContent`: the audio URL of a voice note, or None for ordinary text. */
  function AudioUrlOf(content: string): (r: Option<string>)
    ensures r.Some? <==> VoicePrefix <= content
  {
    if VoicePrefix <= content then Some(RemoveFirst(content, VoicePrefix)) else None
  }

  /** A voice note is recognised as one, and yields exactly the URL it was built from. */
  lemma VoiceRoundTrip(audioUrl: string)
    ensures AudioUrlOf(VoiceContent(audioUrl)) == Some(audioUrl)
  {
    RemoveFirstOfPrefix(VoiceContent(audioUrl), VoicePrefix);
  }

  /** Whatever content is recognised as a voice note is the voice content of the URL found in it. */
  lemma AudioUrlOfIsVoiceContent(content: string)
    requires AudioUrlOf(content).Some?
    ensures VoiceContent(AudioUrlOf(content).value) == content
  {
    RemoveFirstOfPrefix(content, VoicePrefix);
    assert content == content[..|VoicePrefix|] + content[|VoicePrefix|..];
  }

  // ---------------------------------------------------------------------
  // Which messages a chat shows (App.tsx:406-409)
  // ---------------------------------------------------------------------

  /** An emergency is always shown; anything else only in a chat with its sender, or when it is mine. */
  function IsShown(m: DecryptedMessage, activePeer: Option<Peer>): (r: bool)
    ensures m.kind == Emergency ==> r
    ensures activePeer.None? ==> (r <==> m.kind == Emergency)
    ensures activePeer.Some? && m.isMe ==> r
    ensures activePeer.Some? ==> (r <==> m.kind == Emergency || m.senderId == activePeer.value.id || m.isMe)
  {
    m.kind == Emergency || (activePeer.Some? && (m.senderId == activePeer.value.id || m.isMe))
  }

  /** `messages.filter(...)`: the shown messages, in log order. */
  function ShownMessages(messages: seq<DecryptedMessage>, activePeer: Option<Peer>): (r: seq<DecryptedMessage>)
    ensures forall m :: m in r <==> m in messages && IsShown(m, activePeer)
    ensures |r| <= |messages|
    decreases |messages|
  {
    if messages == [] then []
    else
      var init := ShownMessages(messages[..|messages| - 1], activePeer);
      var last := messages[|messages| - 1];
      if IsShown(last, activePeer) then init + [last] else init
  }

  /** Filtering keeps order: the shown part of a joined log is the shown parts joined. */
  lemma {:induction false} ShownMessagesAppend(a: seq<DecryptedMessage>, b: seq<DecryptedMessage>, activePeer: Option<Peer>)
    ensures ShownMessages(a + b, activePeer) == ShownMessages(a, activePeer) + ShownMessages(b, activePeer)
    decreases |b|
  {
    if b != [] {
      var b' := b[..|b| - 1];
      assert (a + b)[..|a + b| - 1] == a + b';
      ShownMessagesAppend(a, b', activePeer);
    } else {
      assert a + b == a;
    }
  }

  /** Without an active peer, only emergencies are shown, and all of them. */
  lemma NoActivePeerShowsEmergencies(messages: seq<DecryptedMessage>)
    ensures forall m :: m in ShownMessages(messages, None) <==> m in messages && m.kind == Emergency
  {
  }

  // ---------------------------------------------------------------------
  // Composing and sending a message (App.tsx:115-158)
  // ---------------------------------------------------------------------

  /** `customText || inputText`: the custom text unless it is empty. */
  function ChosenText(customText: string, inputText: string): (r: string)
    ensures r == "" <==> customText == "" && inputText == ""
    ensures r == customText || r == inputText
    ensures customText != "" ==> r == customText
    ensures customText == "" ==> r == inputText
  {
    if customText != "" then customText else inputText
  }

  /** The early return of `handleSendMessage`: blank text, a chat with nobody, or no identity. */
  function SendBlocked(text: string, kind: MessageType, activePeer: Option<Peer>, credentials: Option<Credentials>): (r: bool)
    ensures r <==> AllWhitespace(text) || (activePeer.None? && kind == Chat) || credentials.None?
  {
    TrimEmptyIffBlank(text);
    Trim(text) == "" || (activePeer.None? && kind == Chat) || credentials.None?
  }

  /** The key the text is encrypted for: broadcast for emergencies and shared knowledge, else the active peer's. */
  function RecipientKey(kind: MessageType, activePeer: Option<Peer>): (r: string)
    ensures r != ""
    ensures kind == Emergency || kind == KnowledgeShare ==> r == "BROADCAST"
    ensures r == "BROADCAST" || (activePeer.Some? && r == activePeer.value.publicKey)
    ensures kind != Emergency && kind != KnowledgeShare && activePeer.Some? && activePeer.value.publicKey != ""
      ==> r == activePeer.value.publicKey
  {
    if kind == Emergency || kind == KnowledgeShare then "BROADCAST"
    else if activePeer.Some? && activePeer.value.publicKey != "" then activePeer.value.publicKey
    else "BROADCAST"
  }

  /** The receiver the message is addressed to: the SOS channel, the active peer or everyone. */
  function ReceiverId(kind: MessageType, activePeer: Option<Peer>): (r: string)
    ensures r != ""
    ensures kind == Emergency ==> r == "GLOBAL_SOS"
    ensures kind != Emergency ==> r == "GLOBAL" || (activePeer.Some? && r == activePeer.value.id)
    ensures kind != Emergency && activePeer.Some? && activePeer.value.id != "" ==> r == activePeer.value.id
    ensures kind != Emergency && (activePeer.None? || activePeer.value.id == "") ==> r == "GLOBAL"
  {
    if kind == Emergency then "GLOBAL_SOS"
    else if activePeer.Some? && activePeer.value.id != "" then activePeer.value.id
    else "GLOBAL"
  }

  /** What `handleSendMessage` ends in: no send, a throw from `sign`, or a message sent and logged. */
  datatype SendOutcome = Skipped | SignThrew | Sent(message: Message, entry: DecryptedMessage)

  /**
   * The pure part of `handleSendMessage`: the guard, encryption, signing and
   * the two records it builds. `messageId` and `now` stand for the random id
   * and `Date.now()`.
   */
  function ComposeSend(
    kind: MessageType, customText: string, inputText: string,
    activePeer: Option<Peer>, credentials: Option<Credentials>,
    messageId: string, now: int): (r: SendOutcome)
    ensures r.Skipped? <==> SendBlocked(ChosenText(customText, inputText), kind, activePeer, credentials)
    ensures r.Sent? ==>
      && credentials.Some?
      && r.message.payload == Crypto.Encrypt(ChosenText(customText, inputText), RecipientKey(kind, activePeer),
                                             credentials.value.keys.privateKey)
      && Crypto.Sign(r.message.payload, credentials.value.keys.privateKey) == Some(r.message.signature)
      && r.message.senderId == credentials.value.identity.id
      && r.message.receiverId == ReceiverId(kind, activePeer)
      && r.message.id == messageId && r.message.kind == kind && r.message.timestamp == now
      && r.message.hopCount == 0 && r.message.referencedMessageId.None?
      && r.entry.id == messageId && r.entry.isMe && r.entry.content == ChosenText(customText, inputText)
  {
    var text := ChosenText(customText, inputText);
    if SendBlocked(text, kind, activePeer, credentials) then Skipped
    else
      var c := credentials.value;
      var encrypted := Crypto.Encrypt(text, RecipientKey(kind, activePeer), c.keys.privateKey);
      match Crypto.Sign(encrypted, c.keys.privateKey)
      case None => SignThrew
      case Some(signature) =>
        var message := Message(messageId, kind, c.identity.id, ReceiverId(kind, activePeer),
                               encrypted, signature, now, 0, None);
        Sent(message, DecryptedMessage(message.id, c.identity.id, text, message.timestamp, true, None, kind))
  }

  /**
   * Nothing is sent exactly when the chosen text is blank, or a chat message
   * has no active peer, or there is no identity.
   */
  lemma ComposeSkippedIff(
    kind: MessageType, customText: string, inputText: string,
    activePeer: Option<Peer>, credentials: Option<Credentials>, messageId: string, now: int)
    ensures ComposeSend(kind, customText, inputText, activePeer, credentials, messageId, now).Skipped?
      <==> AllWhitespace(ChosenText(customText, inputText))
           || (kind == Chat && activePeer.None?)
           || credentials.None?
  {
    TrimEmptyIffBlank(ChosenText(customText, inputText));
  }

  /** `sign` throws exactly when the send is not blocked and a kept recipient-key character is 256 or above. */
  lemma ComposeSignThrewIff(
    kind: MessageType, customText: string, inputText: string,
    activePeer: Option<Peer>, credentials: Option<Credentials>, messageId: string, now: int)
    ensures ComposeSend(kind, customText, inputText, activePeer, credentials, messageId, now).SignThrew?
      <==> !SendBlocked(ChosenText(customText, inputText), kind, activePeer, credentials)
           && !Crypto.IsBinaryString(Take(RecipientKey(kind, activePeer), 5))
  {
    if credentials.Some? {
      Crypto.EncryptIsBinaryIff(ChosenText(customText, inputText), RecipientKey(kind, activePeer),
                                credentials.value.keys.privateKey);
    }
  }

  /**
   * A sent message starts at hop 0 from this node, goes to the chosen
   * receiver, carries a payload that decrypts (under any key) to the text and
   * a signature that verifies (under any key); the logged entry is mine and
   * shares its id and timestamp.
   */
  lemma ComposeSentMessage(
    kind: MessageType, customText: string, inputText: string,
    activePeer: Option<Peer>, credentials: Option<Credentials>, messageId: string, now: int,
    anyPrivateKey: string, anyPublicKey: string)
    requires ComposeSend(kind, customText, inputText, activePeer, credentials, messageId, now).Sent?
    ensures var o := ComposeSend(kind, customText, inputText, activePeer, credentials, messageId, now);
      var text := ChosenText(customText, inputText);
      && credentials.Some?
      && o.message.id == messageId && o.message.kind == kind && o.message.timestamp == now
      && o.message.hopCount == 0
      && o.message.senderId == credentials.value.identity.id
      && o.message.receiverId == ReceiverId(kind, activePeer)
      && Crypto.Decrypt(o.message.payload, anyPrivateKey) == Success(text)
      && Crypto.Verify(o.message.payload, o.message.signature, anyPublicKey)
      && o.entry.id == o.message.id && o.entry.timestamp == o.message.timestamp
      && o.entry.isMe && o.entry.kind == kind && o.entry.content == text
      && o.entry.senderId == o.message.senderId
  {
    var text := ChosenText(customText, inputText);
    Crypto.DecryptEncrypt(text, RecipientKey(kind, activePeer), credentials.value.keys.privateKey, anyPrivateKey);
  }

  // ---------------------------------------------------------------------
  // The stealth setting (App.tsx:208-214)
  // ---------------------------------------------------------------------

  /** The identity with `settings.stealthMode` flipped and everything else kept. */
  function WithStealthToggled(c: Credentials): (r: Credentials)
    ensures r.identity.settings.stealthMode == !c.identity.settings.stealthMode
    ensures r.identity.settings.sendReadReceipts == c.identity.settings.sendReadReceipts
    ensures r.identity.id == c.identity.id && r.identity.publicKey == c.identity.publicKey
    ensures r.identity.alias == c.identity.alias && r.keys == c.keys
  {
    c.(identity := c.identity.(settings := c.identity.settings.(stealthMode := !c.identity.settings.stealthMode)))
  }

  /** Toggling twice restores the identity. */
  lemma ToggleStealthTwice(c: Credentials)
    ensures WithStealthToggled(WithStealthToggled(c)) == c
  {
  }

  // ---------------------------------------------------------------------
  // The client's state
  // ---------------------------------------------------------------------

  /** The component state `handleSendMessage` and `toggleStealth` read and write. */
  class ChatSession {
    var credentials: Option<Credentials>
    var activePeer: Option<Peer>
    var messages: seq<DecryptedMessage>
    var inputText: string
    var hasNewEmergency: bool
    /** The shared mesh instance (`MeshService`). */
    const mesh: Mesh.MeshNetwork

    /** The initial `useState` values (App.tsx:49-58). */
    constructor (network: Mesh.MeshNetwork)
      ensures mesh == network
      ensures credentials == None && activePeer == None && messages == []
      ensures inputText == "" && !hasNewEmergency
    {
      mesh := network;
      credentials, activePeer, messages := None, None, [];
      inputText, hasNewEmergency := "", false;
    }

    /**
     * `handleSendMessage(e, kind, customText)`: on a send, broadcasts the
     * message, appends exactly one entry to the log, raises the emergency flag
     * for an emergency and clears the input unless custom text was sent.
     */
    method SendMessage(kind: MessageType, customText: string, messageId: string, now: int)
      returns (outcome: SendOutcome)
      requires mesh.Valid()
      modifies this, mesh
      ensures mesh.Valid()
      ensures outcome == ComposeSend(kind, customText, old(inputText), activePeer, credentials, messageId, now)
      ensures credentials == old(credentials) && activePeer == old(activePeer)
      ensures outcome.Sent? ==>
        && messages == old(messages) + [outcome.entry]
        && mesh.messageStore == old(mesh.messageStore)[outcome.message.id := outcome.message]
        && mesh.broadcasts == old(mesh.broadcasts) + [outcome.message]
      ensures !outcome.Sent? ==>
        && messages == old(messages)
        && mesh.messageStore == old(mesh.messageStore)
        && mesh.broadcasts == old(mesh.broadcasts)
      ensures inputText == if outcome.Sent? && customText == "" then "" else old(inputText)
      ensures hasNewEmergency == (old(hasNewEmergency) || (outcome.Sent? && kind == Emergency))
      ensures mesh.peerOrder == old(mesh.peerOrder) && mesh.peers == old(mesh.peers)
      ensures mesh.subscribers == old(mesh.subscribers) && mesh.notifications == old(mesh.notifications)
    {
      outcome := ComposeSend(kind, customText, inputText, activePeer, credentials, messageId, now);
      if outcome.Sent? {
        Deliver(outcome.message, outcome.entry, customText == "");
      }
    }

    /** The effects of a send that went through: broadcast, log entry, emergency flag, cleared input. */
    method Deliver(message: Message, entry: DecryptedMessage, clearInput: bool)
      requires mesh.Valid()
      modifies this, mesh
      ensures mesh.Valid()
      ensures credentials == old(credentials) && activePeer == old(activePeer)
      ensures messages == old(messages) + [entry]
      ensures mesh.messageStore == old(mesh.messageStore)[message.id := message]
      ensures mesh.broadcasts == old(mesh.broadcasts) + [message]
      ensures inputText == if clearInput then "" else old(inputText)
      ensures hasNewEmergency == (old(hasNewEmergency) || message.kind == Emergency)
      ensures mesh.peerOrder == old(mesh.peerOrder) && mesh.peers == old(mesh.peers)
      ensures mesh.subscribers == old(mesh.subscribers) && mesh.notifications == old(mesh.notifications)
    {
      mesh.Broadcast(message);
      messages := messages + [entry];
      if message.kind == Emergency {
        hasNewEmergency := true;
      }
      if clearInput {
        inputText := "";
      }
    }

    /** `toggleStealth()`: flips the stealth setting of the identity, if there is one. */
    method ToggleStealth()
      modifies this
      ensures credentials == if old(credentials).Some? then Some(WithStealthToggled(old(credentials).value)) else None
      ensures activePeer == old(activePeer) && messages == old(messages)
      ensures inputText == old(inputText) && hasNewEmergency == old(hasNewEmergency)
    {
      if credentials.Some? {
        credentials := Some(WithStealthToggled(credentials.value));
      }
    }
  }
}

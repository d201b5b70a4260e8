/**
 * The records shared by the crypto layer, the mesh layer and the client
 * (types.ts). The TypeScript field `type` is called `kind` here because
 * `type` is a Dafny keyword.
 */
module Types {
  import opened Wrappers

  /** Reachability of a peer (types.ts:2-6). */
  datatype NodeStatus = Online | Offline | Relay

  /** The private/public key strings of a node (types.ts:8-11). */
  datatype KeyPair = KeyPair(publicKey: string, privateKey: string)

  /** Local, per-node preferences (types.ts:17-20). */
  datatype Settings = Settings(sendReadReceipts: bool, stealthMode: bool)

  /** The node's own identity (types.ts:13-21). */
  datatype Identity = Identity(id: string, publicKey: string, alias: string, settings: Settings)

  /** What `generateIdentity` returns and what the client keeps as its identity state. */
  datatype Credentials = Credentials(identity: Identity, keys: KeyPair)

  /** The kinds of message on the mesh (types.ts:23-28). */
  datatype MessageType = Chat | Receipt | Emergency | KnowledgeShare

  /** A wire message (types.ts:30-40); `timestamp` is milliseconds since the epoch. */
  datatype Message = Message(
    id: string,
    kind: MessageType,
    senderId: string,
    receiverId: string,
    payload: string,
    signature: string,
    timestamp: int,
    hopCount: int,
    referencedMessageId: Option<string>)

  /** A peer as the directory knows it (types.ts:50-57); `distance` is exact here. */
  datatype Peer = Peer(
    id: string,
    publicKey: string,
    alias: string,
    lastSeen: int,
    status: NodeStatus,
    distance: real)

  /** A message as the client shows it (types.ts:59-67). */
  datatype DecryptedMessage = DecryptedMessage(
    id: string,
    senderId: string,
    content: string,
    timestamp: int,
    isMe: bool,
    isRead: Option<bool>,
    kind: MessageType)
}

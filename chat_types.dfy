/** Values exchanged by the chat hub: users, history entries, outgoing events. */
module ChatTypes {

  datatype Option<+T> = None | Some(value: T) {
    function GetOr(default: T): T {
      match this
      case Some(v) => v
      case None => default
    }
  }

  type SessionId = string
  type ChannelId = string
  type UserId = int

  /** The role text stored on a user row: "ADMIN", "VIP", "USER" (or anything else). */
  const AdminRole: string := "ADMIN"

  predicate IsAdmin(role: string) {
    role == AdminRole
  }

  /** The part of a user row the hub uses; the avatar bytes are an opaque display field and left out. */
  datatype User = User(id: UserId, username: string, role: string)

  /**
   * One stored history entry (a JSON object in the Redis list "chat:history:<channel>"):
   * the author's id, name and role are snapshotted when the message is sent.
   */
  datatype Entry = Entry(messageId: string, userId: UserId, username: string, role: string,
                         content: string, time: int)

  /** The type of a broadcast event built by the hub's broadcast helper. */
  datatype BroadcastKind = Join | Leave | Chat

  /** Every text frame the hub can send to a session, by its "type" field. */
  datatype Event =
    | Broadcast(kind: BroadcastKind, messageId: Option<string>, user: User,
                content: Option<string>, time: int)
    | Recall(recalledId: string)
    | InitialList(users: seq<User>)
    | History(messages: seq<Entry>)
    | MuteStatus(muted: bool, expireTime: Option<int>)
    | Error(text: string)

  /** Close statuses used when admission fails. */
  datatype CloseStatus = BadData | PolicyViolation

  /**
   * What the JSON library makes of an inbound payload: not a JSON object, or an object with
   * (possibly missing) string fields "type" and "messageId".
   */
  datatype Parsed = NotJson | JsonObject(typeField: Option<string>, messageIdField: Option<string>)

  predicate IsRecallCommand(p: Parsed) {
    p.JsonObject? && p.typeField == Some("RECALL")
  }
}

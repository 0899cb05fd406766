/**
 * The mute endpoints: they change the mute table and tell the target's open sessions in the
 * channel about their new status through the hub.
 */
module ChatControl {
  import opened ChatTypes
  import opened Mutes
  import opened ChatHandler

  /** The rows of the pair in the table. */
  function Rows(table: set<Mute>, u: UserId, c: ChannelId): set<Mute>
  {
    set m | m in table && ForPair(m, u, c)
  }

  /** The pair has some row exactly when its row set is non-empty. */
  lemma RowsNonEmpty(table: set<Mute>, u: UserId, c: ChannelId)
    ensures Rows(table, u, c) != {} <==> HasRecord(table, u, c)
  {
    if HasRecord(table, u, c) {
      var m :| m in table && ForPair(m, u, c);
      assert m in Rows(table, u, c);
    }
  }

  /** The number of rows of the pair, as the already-muted `selectCount` query counts them. */
  function RowCount(table: set<Mute>, u: UserId, c: ChannelId): (n: nat)
    ensures n > 0 <==> HasRecord(table, u, c)
  {
    RowsNonEmpty(table, u, c);
    |Rows(table, u, c)|
  }

  class ChatController {
    /** The mute table. */
    var table: set<Mute>
    /** The hub whose open sessions hear about mute changes. */
    const hub: ChatHub

    /** The injected handler, and the `t_mute` rows the database already holds. */
    constructor(hub: ChatHub, stored: set<Mute>)
      ensures this.hub == hub && table == stored
    {
      this.hub := hub;
      table := stored;
    }

    /**
     * `muteUser` (POST /chat/mute). `users` is the user table; an absent `duration` is 10
     * minutes. On success the target's sessions in the channel, and only those, receive
     * MUTE_STATUS with the new expiry; on every rejection no frame is sent.
     */
    method MuteUser(userId: UserId, channelId: ChannelId, duration: Option<int>,
                    users: map<UserId, User>, now: int)
      returns (r: MuteOutcome)
      modifies this, hub`outbox
      ensures (r, table) ==
        MuteSpec(old(table), if userId in users then Some(users[userId]) else None,
                 userId, channelId, duration, now)
      ensures !r.Muted? ==> hub.outbox == old(hub.outbox)
      ensures r.Muted? ==> forall x :: (hub.Sent(x) == old(hub.Sent(x)) +
        (if x in hub.UserSessions(channelId, userId) then [MuteStatus(true, Some(r.expireTime))] else []))
    {
      var target := if userId in users then Some(users[userId]) else None;
      var d := duration.GetOr(DefaultDuration);
      if target.None? {
        return UserNotFound;
      }
      if IsAdmin(target.value.role) {
        return TargetIsAdmin;
      }
      if d > MaxDuration {
        return TooLong;
      }
      if d <= 0 {
        return NotPositive;
      }
      table := Purged(table, userId, channelId, now);
      var count := RowCount(table, userId, channelId);
      if count > 0 {
        return AlreadyMuted;
      }
      var mute := NewMute(userId, channelId, d, now);
      table := table + {mute};
      hub.NotifyUserMuteStatus(userId, channelId, true, Some(mute.expireTime));
      return Muted(mute.expireTime);
    }

    /**
     * `unmuteUser` (POST /chat/unmute): every row of the pair is deleted and the target's
     * sessions in the channel receive MUTE_STATUS "not muted"; it always succeeds.
     */
    method UnmuteUser(userId: UserId, channelId: ChannelId)
      modifies this, hub`outbox
      ensures table == Unmuted(old(table), userId, channelId)
      ensures forall x :: (hub.Sent(x) == old(hub.Sent(x)) +
        (if x in hub.UserSessions(channelId, userId) then [MuteStatus(false, None)] else []))
    {
      table := Unmuted(table, userId, channelId);
      hub.NotifyUserMuteStatus(userId, channelId, false, None);
    }
  }
}

/**
 * The mute table (rows of t_mute) and the three questions asked of it: the chat gate
 * ("is this user silenced now?"), the purge of expired rows, and the already-muted check.
 * Times are integer clock ticks; a duration in minutes is TicksPerMinute ticks per minute.
 */
module Mutes {
  import opened ChatTypes

  const TicksPerMinute: nat := 60000
  const DefaultDuration: int := 10
  const MaxDuration: int := 1440

  /** One row of the mute table (the database id is left out). */
  datatype Mute = Mute(userId: UserId, channelId: ChannelId, createTime: int, expireTime: int)

  predicate ForPair(m: Mute, u: UserId, c: ChannelId) {
    m.userId == u && m.channelId == c
  }

  /**
   * The chat gate and the join-time status: some row of the pair expires strictly after `now`.
   * A silenced user always has a row of the pair.
   */
  predicate IsMuted(table: set<Mute>, u: UserId, c: ChannelId, now: int): (muted: bool)
    ensures muted ==> HasRecord(table, u, c)
  {
    exists m :: m in table && ForPair(m, u, c) && m.expireTime > now
  }

  /** The already-muted check: the pair has any row at all, whatever its expiry; exactly when unmute would delete something. */
  predicate HasRecord(table: set<Mute>, u: UserId, c: ChannelId): (found: bool)
    ensures found <==> Unmuted(table, u, c) != table
  {
    var r := exists m :: m in table && ForPair(m, u, c);
    if r then
      var m :| m in table && ForPair(m, u, c);
      assert m !in Unmuted(table, u, c);
      r
    else
      assert Unmuted(table, u, c) == table;
      r
  }

  /**
   * The purge: drops the pair's rows whose expiry is strictly before `now`. It only deletes,
   * touches no other pair, and never changes whether the user is silenced at `now`.
   */
  function Purged(table: set<Mute>, u: UserId, c: ChannelId, now: int): (r: set<Mute>)
    ensures r <= table
    ensures forall m :: m in table && !ForPair(m, u, c) ==> m in r
    ensures IsMuted(r, u, c, now) == IsMuted(table, u, c, now)
  {
    var r := set m | m in table && !(ForPair(m, u, c) && m.expireTime < now);
    assert IsMuted(table, u, c, now) ==> IsMuted(r, u, c, now) by {
      if IsMuted(table, u, c, now) {
        var m :| m in table && ForPair(m, u, c) && m.expireTime > now;
        assert m in r;
      }
    }
    r
  }

  /** The unmute delete: drops every row of the pair and keeps every other row. */
  function Unmuted(table: set<Mute>, u: UserId, c: ChannelId): (r: set<Mute>)
    ensures r <= table
    ensures forall m :: m in table ==> (m in r <==> !ForPair(m, u, c))
  {
    set m | m in table && !ForPair(m, u, c)
  }

  /** The outcomes of the mute endpoint, each with the message text it returns. */
  datatype MuteOutcome =
    | Muted(expireTime: int)
    | UserNotFound
    | TargetIsAdmin
    | TooLong
    | NotPositive
    | AlreadyMuted
  {
    function Message(): string {
      match this
      case Muted(_) => "禁言成功"
      case UserNotFound => "用户不存在"
      case TargetIsAdmin => "无法禁言管理员"
      case TooLong => "禁言时间不能超过24小时"
      case NotPositive => "禁言时间必须大于0"
      case AlreadyMuted => "该用户已被禁言"
    }
  }

  /** The row a successful mute inserts. */
  function NewMute(u: UserId, c: ChannelId, duration: int, now: int): Mute {
    Mute(u, c, now, now + duration * TicksPerMinute)
  }

  /**
   * The mute endpoint's guard chain, in the order the controller applies it: the target must
   * exist, must not be an ADMIN, the duration (10 when absent) must be at most 1440 and above 0;
   * then the pair's expired rows are purged, any remaining row of the pair rejects, and
   * otherwise one row expiring `duration` minutes after `now` is inserted.
   */
  function MuteSpec(table: set<Mute>, target: Option<User>, u: UserId, c: ChannelId,
                    duration: Option<int>, now: int): (r: (MuteOutcome, set<Mute>))
    ensures forall m :: !ForPair(m, u, c) ==> (m in r.1 <==> m in table)
    ensures !r.0.Muted? && r.0 != AlreadyMuted ==> r.1 == table
    ensures r.0 == AlreadyMuted ==> r.1 <= table && HasRecord(r.1, u, c)
    ensures r.0.Muted? ==> r.0.expireTime > now && IsMuted(r.1, u, c, now) && !HasRecord(r.1 - {NewMute(u, c, duration.GetOr(DefaultDuration), now)}, u, c)
  {
    var d := duration.GetOr(DefaultDuration);
    if target.None? then (UserNotFound, table)
    else if IsAdmin(target.value.role) then (TargetIsAdmin, table)
    else if d > MaxDuration then (TooLong, table)
    else if d <= 0 then (NotPositive, table)
    else
      var purged := Purged(table, u, c, now);
      if HasRecord(purged, u, c) then (AlreadyMuted, purged)
      else (Muted(now + d * TicksPerMinute), purged + {NewMute(u, c, d, now)})
  }

  /** A missing target is rejected and the table is untouched. */
  lemma UnknownTargetRejected(table: set<Mute>, u: UserId, c: ChannelId, duration: Option<int>, now: int)
    ensures MuteSpec(table, None, u, c, duration, now) == (UserNotFound, table)
  {
  }

  /** An ADMIN target is rejected whatever the duration: the role check precedes the duration checks. */
  lemma AdminTargetRejected(table: set<Mute>, target: User, u: UserId, c: ChannelId,
                            duration: Option<int>, now: int)
    requires IsAdmin(target.role)
    ensures MuteSpec(table, Some(target), u, c, duration, now) == (TargetIsAdmin, table)
  {
  }

  /**
   * For an existing non-ADMIN target, a duration above 1440 or at most 0 is rejected with the
   * table unchanged; every duration in 1..1440 passes the duration checks.
   */
  lemma DurationBounds(table: set<Mute>, target: User, u: UserId, c: ChannelId, d: int, now: int)
    requires !IsAdmin(target.role)
    ensures d > MaxDuration ==> MuteSpec(table, Some(target), u, c, Some(d), now) == (TooLong, table)
    ensures d <= 0 ==> MuteSpec(table, Some(target), u, c, Some(d), now) == (NotPositive, table)
    ensures 0 < d <= MaxDuration ==>
      MuteSpec(table, Some(target), u, c, Some(d), now).0 in {AlreadyMuted, Muted(now + d * TicksPerMinute)}
  {
  }

  /** An absent duration is the default of 10 minutes. */
  lemma AbsentDurationIsTen(table: set<Mute>, target: Option<User>, u: UserId, c: ChannelId, now: int)
    ensures MuteSpec(table, target, u, c, None, now) == MuteSpec(table, target, u, c, Some(10), now)
  {
  }

  /**
   * Once the guards pass, the purge removes exactly the pair's rows that expired before `now`;
   * rows of other pairs are untouched, and the pair's remaining rows decide "already muted".
   */
  lemma PurgeBeforeCheck(table: set<Mute>, target: User, u: UserId, c: ChannelId, d: int, now: int)
    requires !IsAdmin(target.role) && 0 < d <= MaxDuration
    ensures var (r, t) := MuteSpec(table, Some(target), u, c, Some(d), now);
      && (forall m :: m in table && !ForPair(m, u, c) ==> m in t)
      && (forall m :: m in table && ForPair(m, u, c) ==> (m in t <==> m.expireTime >= now))
      && (r == AlreadyMuted <==> exists m :: m in table && ForPair(m, u, c) && m.expireTime >= now)
      && (r == AlreadyMuted ==> t <= table)
  {
  }

  /**
   * A successful mute inserts exactly one row, expiring `d` minutes after `now`; afterwards the
   * pair has that one row and the chat gate reports the user silenced.
   */
  lemma SuccessfulMute(table: set<Mute>, target: User, u: UserId, c: ChannelId, d: int, now: int)
    requires MuteSpec(table, Some(target), u, c, Some(d), now).0.Muted?
    ensures var (r, t) := MuteSpec(table, Some(target), u, c, Some(d), now);
      && 0 < d <= MaxDuration
      && r.expireTime == now + d * TicksPerMinute
      && t == Purged(table, u, c, now) + {NewMute(u, c, d, now)}
      && (forall m :: m in t && ForPair(m, u, c) ==> m == NewMute(u, c, d, now))
      && IsMuted(t, u, c, now)
  {
    var t := MuteSpec(table, Some(target), u, c, Some(d), now).1;
    assert NewMute(u, c, d, now) in t;
  }

  /**
   * Muting the same pair again before the first row's expiry has passed is rejected with
   * AlreadyMuted, whatever the second duration.
   */
  lemma {:induction false} MuteTwiceRejected(table: set<Mute>, target: User, u: UserId, c: ChannelId,
                                             d: int, now: int, d2: int, later: int)
    requires MuteSpec(table, Some(target), u, c, Some(d), now).0.Muted?
    requires now <= later <= now + d * TicksPerMinute
    requires 0 < d2 <= MaxDuration
    ensures var t := MuteSpec(table, Some(target), u, c, Some(d), now).1;
      MuteSpec(t, Some(target), u, c, Some(d2), later) == (AlreadyMuted, Purged(t, u, c, later))
  {
    var t := MuteSpec(table, Some(target), u, c, Some(d), now).1;
    var m := NewMute(u, c, d, now);
    assert m in t;
    assert m in Purged(t, u, c, later);
  }

  /** When every row of the pair expired strictly before `now`, a valid mute of a non-ADMIN succeeds. */
  lemma RemuteAfterExpiry(table: set<Mute>, target: User, u: UserId, c: ChannelId, d: int, now: int)
    requires !IsAdmin(target.role) && 0 < d <= MaxDuration
    requires forall m :: m in table && ForPair(m, u, c) ==> m.expireTime < now
    ensures MuteSpec(table, Some(target), u, c, Some(d), now).0 == Muted(now + d * TicksPerMinute)
  {
  }

  /**
   * The three expiry tests disagree at the boundary: a row expiring exactly at `now` no longer
   * silences the user (the gate needs expiry > now), survives the purge (which needs
   * expiry < now), and so makes a new mute fail as already muted.
   */
  lemma BoundaryRowBlocksButDoesNotSilence(target: User, u: UserId, c: ChannelId, d: int, now: int)
    requires !IsAdmin(target.role) && 0 < d <= MaxDuration
    ensures var table := {Mute(u, c, now - TicksPerMinute, now)};
      && !IsMuted(table, u, c, now)
      && MuteSpec(table, Some(target), u, c, Some(d), now) == (AlreadyMuted, table)
  {
    var table := {Mute(u, c, now - TicksPerMinute, now)};
    assert Purged(table, u, c, now) == table;
    assert Mute(u, c, now - TicksPerMinute, now) in table;
  }

  /**
   * Unmute leaves no row for the pair (so the user is not silenced), keeps every other row,
   * and a second unmute changes nothing.
   */
  lemma UnmuteClears(table: set<Mute>, u: UserId, c: ChannelId, now: int)
    ensures !HasRecord(Unmuted(table, u, c), u, c)
    ensures !IsMuted(Unmuted(table, u, c), u, c, now)
    ensures forall m :: m in table && !ForPair(m, u, c) ==> m in Unmuted(table, u, c)
    ensures Unmuted(Unmuted(table, u, c), u, c) == Unmuted(table, u, c)
  {
  }
}

/**
 * The WebSocket chat handler: the session registry (three maps), admission and close,
 * the mute gate, chat fan-out with bounded per-channel history, recall, and the private
 * pushes (initial user list, history replay, mute status). Every frame a session is sent is
 * appended to that session's outbox.
 */
module ChatHandler {
  import opened ChatTypes
  import opened History
  import opened Mutes
  import Query

  /** The result of the handshake: registered, or closed with a status. */
  datatype Admission = Admitted(user: User, channel: ChannelId) | Closed(status: CloseStatus)

  /** The text of the private error a silenced sender receives. */
  const MutedNotice: string := "您已被禁言"

  /** The MUTE_STATUS frame a session receives on joining: silenced or not, and if so one active row's expiry. */
  ghost predicate StatusReport(mutes: set<Mute>, u: UserId, c: ChannelId, now: int, e: Event)
  {
    && e.MuteStatus?
    && e.muted == IsMuted(mutes, u, c, now)
    && (e.muted ==> e.expireTime.Some?
                    && exists m :: m in mutes && ForPair(m, u, c) && m.expireTime > now
                                   && m.expireTime == e.expireTime.value)
    && (!e.muted ==> e.expireTime.None?)
  }

  /**
   * `after` is `before` followed by the private welcome of an admitted session: the INITIAL_LIST
   * of the channel's present users, the newest 50 entries of `h` (no frame when `h` is empty),
   * and the session's MUTE_STATUS.
   */
  ghost predicate Welcomed(before: seq<Event>, after: seq<Event>, members: set<SessionId>,
                           su: map<SessionId, User>, h: seq<Entry>, mutes: set<Mute>,
                           u: UserId, c: ChannelId, now: int)
  {
    var k := |before|;
    && |after| >= k + 2
    && after[..k] == before
    && after[k].InitialList? && ListsPresentUsers(members, su, after[k].users)
    && after[k + 1..|after| - 1] == (if h == [] then [] else [History(Newest(h, ReplayCount))])
    && StatusReport(mutes, u, c, now, after[|after| - 1])
  }

  /**
   * The three registry maps agree: a session has a user iff it has a channel, and it has
   * channel c iff it is in c's session set.
   */
  ghost predicate RegistryOk(cs: map<ChannelId, set<SessionId>>, su: map<SessionId, User>,
                             sc: map<SessionId, ChannelId>)
  {
    && su.Keys == sc.Keys
    && (forall s :: s in sc ==> sc[s] in cs && s in cs[sc[s]])
    && (forall c, s :: c in cs && s in cs[c] ==> s in sc && sc[s] == c)
  }

  /** Every channel's list is within the ceiling and carries unique message ids. */
  ghost predicate HistoryOk(history: map<ChannelId, seq<Entry>>)
  {
    forall c :: c in history ==> |history[c]| <= MaxHistory && UniqueIds(history[c])
  }

  /** Replacing one channel's list by a bounded list with unique ids keeps HistoryOk. */
  lemma HistoryOkUpdate(history: map<ChannelId, seq<Entry>>, c: ChannelId, h: seq<Entry>)
    requires HistoryOk(history) && |h| <= MaxHistory && UniqueIds(h)
    ensures HistoryOk(history[c := h])
  {
  }

  /** Registering a new session in all three maps keeps them in agreement. */
  lemma RegistryAdd(cs: map<ChannelId, set<SessionId>>, su: map<SessionId, User>,
                    sc: map<SessionId, ChannelId>, s: SessionId, u: User, c: ChannelId)
    requires RegistryOk(cs, su, sc) && s !in sc
    ensures RegistryOk(cs[c := (if c in cs then cs[c] else {}) + {s}], su[s := u], sc[s := c])
  {
  }

  /** Removing a session from all three maps keeps them in agreement. */
  lemma RegistryRemove(cs: map<ChannelId, set<SessionId>>, su: map<SessionId, User>,
                       sc: map<SessionId, ChannelId>, s: SessionId)
    requires RegistryOk(cs, su, sc) && s in sc
    ensures RegistryOk(cs[sc[s] := cs[sc[s]] - {s}], su - {s}, sc - {s})
  {
  }

  /**
   * Closing a session right after admitting it restores the registry: the user and channel
   * maps are as before, and the channel's session set is as before (the channel key, once
   * created, stays, possibly with an empty set).
   */
  lemma RegisterThenClose(cs: map<ChannelId, set<SessionId>>, su: map<SessionId, User>,
                          sc: map<SessionId, ChannelId>, s: SessionId, u: User, c: ChannelId)
    requires RegistryOk(cs, su, sc) && s !in sc
    ensures var cs', su', sc' := cs[c := (if c in cs then cs[c] else {}) + {s}], su[s := u], sc[s := c];
      && s in sc' && sc'[s] == c
      && su' - {s} == su && sc' - {s} == sc
      && cs'[c := cs'[c] - {s}] == cs[c := if c in cs then cs[c] else {}]
  {
    var members := if c in cs then cs[c] else {};
    assert s !in members;
    assert s !in su;
    assert members + {s} - {s} == members;
    assert su[s := u] - {s} == su;
    assert sc[s := c] - {s} == sc;
  }

  /** Index `i` holds the first entry of `w` whose message id is `id`. */
  ghost predicate FirstMatch(w: seq<Entry>, id: string, i: int)
  {
    0 <= i < |w| && w[i].messageId == id && FreshId(id, w[..i])
  }

  /** The first match is unique. */
  lemma FirstMatchUnique(w: seq<Entry>, id: string, i: nat)
    requires i < |w| && w[i].messageId == id
    requires forall j :: 0 <= j < i ==> w[j].messageId != id
    ensures FirstMatch(w, id, i)
    ensures forall i' :: FirstMatch(w, id, i') ==> i' == i
  {
    forall i' | FirstMatch(w, id, i') ensures i' == i {
    }
  }

  /** The sessions among `members` whose user has id `u`: only sessions that have a user. */
  function SessionsOf(members: set<SessionId>, su: map<SessionId, User>, u: UserId): (r: set<SessionId>)
    ensures r <= members
  {
    set s | s in members && s in su && su[s].id == u
  }

  /** A session counts for one user only, and every session with a user counts for that user. */
  lemma SessionsOfPartition(members: set<SessionId>, su: map<SessionId, User>, u: UserId, v: UserId)
    ensures u != v ==> SessionsOf(members, su, u) !! SessionsOf(members, su, v)
    ensures forall s :: s in members && s in su ==> s in SessionsOf(members, su, su[s].id)
  {
  }

  /** Adding a new session of user `user` adds exactly it to that user's sessions, and to no one else's. */
  lemma SessionsOfAdd(members: set<SessionId>, su: map<SessionId, User>, s: SessionId, user: User, u: UserId)
    requires s !in su
    ensures SessionsOf(members + {s}, su[s := user], u) ==
      SessionsOf(members, su, u) + (if user.id == u then {s} else {})
  {
  }

  /** Removing a session removes exactly it from its user's sessions. */
  lemma SessionsOfRemove(members: set<SessionId>, su: map<SessionId, User>, s: SessionId, u: UserId)
    ensures SessionsOf(members - {s}, su - {s}, u) == SessionsOf(members, su, u) - {s}
  {
  }

  /** The users attached to the sessions in `members`. */
  ghost function PresentUsers(members: set<SessionId>, su: map<SessionId, User>): set<User>
  {
    set s | s in members && s in su :: su[s]
  }

  /**
   * An INITIAL_LIST for a channel with sessions `members`: no user id twice, every listed user
   * is attached to one of those sessions, and the listed ids are exactly the ids present.
   */
  ghost predicate ListsPresentUsers(members: set<SessionId>, su: map<SessionId, User>, users: seq<User>)
  {
    && (forall i, j :: 0 <= i < j < |users| ==> users[i].id != users[j].id)
    && (forall i :: 0 <= i < |users| ==> users[i] in PresentUsers(members, su))
    && Ids(users) == set u | u in PresentUsers(members, su) :: u.id
  }

  /** The distinct user ids in a list of users. */
  function Ids(users: seq<User>): set<UserId>
  {
    set i | 0 <= i < |users| :: users[i].id
  }

  lemma IdsSnoc(users: seq<User>, u: User)
    ensures Ids(users + [u]) == Ids(users) + {u.id}
  {
    var r := users + [u];
    assert r[|users|].id == u.id;
    forall id | id in Ids(users) ensures id in Ids(r) {
      var i :| 0 <= i < |users| && users[i].id == id;
      assert r[i] == users[i];
    }
  }

  /** The JOIN, LEAVE and CHAT frames, as the broadcast helper builds them. */
  function JoinEvent(user: User, now: int): Event { Broadcast(Join, None, user, None, now) }
  function LeaveEvent(user: User, now: int): Event { Broadcast(Leave, None, user, None, now) }
  function ChatEvent(user: User, content: string, id: string, now: int): Event {
    Broadcast(Chat, Some(id), user, Some(content), now)
  }

  /** The history entry saved for a chat message: the author's snapshot, the raw content, the id. */
  function ChatEntry(user: User, content: string, id: string, now: int): Entry {
    Entry(id, user.id, user.username, user.role, content, now)
  }

  class ChatHub {
    /** channel -> the sessions joined to it (a key is never removed once created) */
    var channelSessions: map<ChannelId, set<SessionId>>
    /** session -> its authenticated user */
    var sessionUsers: map<SessionId, User>
    /** session -> its channel */
    var sessionChannels: map<SessionId, ChannelId>
    /** channel -> its Redis history list, oldest first */
    var history: map<ChannelId, seq<Entry>>
    /** session -> every frame sent to it, in order */
    var outbox: map<SessionId, seq<Event>>

    /**
     * The registry's invariant: a session has a user iff it has a channel, and it has channel c
     * iff it is in c's session set; every history list is bounded and has unique message ids.
     */
    ghost predicate Valid()
      reads this`channelSessions, this`sessionUsers, this`sessionChannels, this`history
    {
      && RegistryOk(channelSessions, sessionUsers, sessionChannels)
      && HistoryOk(history)
    }

    function Members(c: ChannelId): set<SessionId>
      reads this`channelSessions
    {
      if c in channelSessions then channelSessions[c] else {}
    }

    /** The sessions of user `u` in channel `c` (the sessions `getUserSessionCount` counts). */
    function UserSessions(c: ChannelId, u: UserId): set<SessionId>
      reads this`channelSessions, this`sessionUsers
    {
      SessionsOf(Members(c), sessionUsers, u)
    }

    function Sent(s: SessionId): seq<Event>
      reads this`outbox
    {
      if s in outbox then outbox[s] else []
    }

    function HistoryOf(c: ChannelId): seq<Entry>
      reads this`history
    {
      if c in history then history[c] else []
    }

    /**
     * The registry and every outbox start empty; the history store is the one Redis already
     * holds (it outlives the process), bounded and with unique ids.
     */
    constructor (stored: map<ChannelId, seq<Entry>>)
      requires HistoryOk(stored)
      ensures Valid()
      ensures channelSessions == map[] && sessionUsers == map[] && sessionChannels == map[]
      ensures history == stored && outbox == map[]
    {
      channelSessions := map[];
      sessionUsers := map[];
      sessionChannels := map[];
      history := stored;
      outbox := map[];
    }

    /** `getUserSessionCount`: how many sessions of user `u` are in channel `c`. */
    method UserSessionCount(c: ChannelId, u: UserId) returns (n: nat)
      ensures n == |UserSessions(c, u)|
      ensures n == 0 <==> forall s :: s in Members(c) && s in sessionUsers ==> sessionUsers[s].id != u
    {
      n := |UserSessions(c, u)|;
      if n == 0 {
        forall x | x in Members(c) && x in sessionUsers
          ensures sessionUsers[x].id != u
        {
          assert x !in UserSessions(c, u);
        }
      } else {
        var x :| x in UserSessions(c, u);
        assert x in Members(c) && x in sessionUsers && sessionUsers[x].id == u;
      }
    }

    /** `broadcast`: every session of channel `c` receives `e`; no other session receives anything. */
    method Broadcast(c: ChannelId, e: Event)
      modifies this`outbox
      ensures forall x :: Sent(x) == old(Sent(x)) + (if x in Members(c) then [e] else [])
    {
      var todo := Members(c);
      while todo != {}
        invariant todo <= Members(c)
        invariant forall x :: Sent(x) == old(Sent(x)) + (if x in Members(c) - todo then [e] else [])
        decreases todo
      {
        var x :| x in todo;
        outbox := outbox[x := Sent(x) + [e]];
        todo := todo - {x};
      }
    }

    /**
     * `notifyUserMuteStatus`: only the sessions of user `u` in channel `c` receive the
     * MUTE_STATUS frame (with the expiry only when muted and one is given); others get nothing.
     */
    method NotifyUserMuteStatus(u: UserId, c: ChannelId, muted: bool, expireTime: Option<int>)
      modifies this`outbox
      ensures forall x :: (Sent(x) == old(Sent(x)) +
        (if x in UserSessions(c, u)
         then [MuteStatus(muted, if muted && expireTime.Some? then expireTime else None)]
         else []))
    {
      var e := MuteStatus(muted, if muted && expireTime.Some? then expireTime else None);
      var todo := Members(c);
      while todo != {}
        invariant todo <= Members(c)
        invariant forall x ::
          Sent(x) == old(Sent(x)) + (if x in UserSessions(c, u) - todo then [e] else [])
        decreases todo
      {
        var x :| x in todo;
        if x in sessionUsers && sessionUsers[x].id == u {
          outbox := outbox[x := Sent(x) + [e]];
        }
        todo := todo - {x};
      }
    }

    /** The users listed by `sendInitialList`: one per distinct user id among the channel's sessions. */
    method ListUsers(c: ChannelId) returns (users: seq<User>)
      ensures ListsPresentUsers(Members(c), sessionUsers, users)
    {
      users := [];
      var added: set<UserId> := {};
      var todo := Members(c);
      while todo != {}
        invariant todo <= Members(c)
        invariant forall i, j :: 0 <= i < j < |users| ==> users[i].id != users[j].id
        invariant forall i :: 0 <= i < |users| ==> users[i] in PresentUsers(Members(c), sessionUsers)
        invariant added == Ids(users)
        invariant forall s :: s in Members(c) - todo && s in sessionUsers ==> sessionUsers[s].id in added
        decreases todo
      {
        var x :| x in todo;
        if x in sessionUsers && sessionUsers[x].id !in added {
          IdsSnoc(users, sessionUsers[x]);
          users := users + [sessionUsers[x]];
          added := added + {sessionUsers[x].id};
        }
        todo := todo - {x};
      }
      forall id | id in set u | u in PresentUsers(Members(c), sessionUsers) :: u.id
        ensures id in added
      {
        var s :| s in Members(c) && s in sessionUsers && sessionUsers[s].id == id;
      }
    }

    /** `sendInitialList`: session `s` receives the INITIAL_LIST of channel `c`, when the channel exists. */
    method SendInitialList(s: SessionId, c: ChannelId)
      modifies this`outbox
      ensures c !in channelSessions ==> outbox == old(outbox)
      ensures c in channelSessions ==>
        && |Sent(s)| == |old(Sent(s))| + 1
        && Sent(s)[..|old(Sent(s))|] == old(Sent(s))
        && Sent(s)[|old(Sent(s))|].InitialList?
        && ListsPresentUsers(Members(c), sessionUsers, Sent(s)[|old(Sent(s))|].users)
      ensures forall x :: x != s ==> Sent(x) == old(Sent(x))
    {
      if c !in channelSessions {
        return;
      }
      var users := ListUsers(c);
      outbox := outbox[s := Sent(s) + [InitialList(users)]];
    }

    /** `sendHistory`: session `s` receives the newest 50 entries of `c`, unless the history is empty. */
    method SendHistory(s: SessionId, c: ChannelId)
      modifies this`outbox
      ensures Sent(s) == old(Sent(s)) +
        (if HistoryOf(c) == [] then [] else [History(Newest(HistoryOf(c), ReplayCount))])
      ensures forall x :: x != s ==> Sent(x) == old(Sent(x))
    {
      var recent := Newest(HistoryOf(c), ReplayCount);
      if recent == [] {
        return;
      }
      outbox := outbox[s := Sent(s) + [History(recent)]];
    }

    /** `checkAndSendMuteStatus`: session `s` receives whether `user` is silenced in `c` now. */
    method CheckAndSendMuteStatus(s: SessionId, user: User, c: ChannelId, mutes: set<Mute>, now: int)
      modifies this`outbox
      ensures |Sent(s)| == |old(Sent(s))| + 1 && Sent(s)[..|old(Sent(s))|] == old(Sent(s))
      ensures StatusReport(mutes, user.id, c, now, Sent(s)[|old(Sent(s))|])
      ensures forall x :: x != s ==> Sent(x) == old(Sent(x))
    {
      var e;
      if IsMuted(mutes, user.id, c, now) {
        var m :| m in mutes && ForPair(m, user.id, c) && m.expireTime > now;
        e := MuteStatus(true, Some(m.expireTime));
      } else {
        e := MuteStatus(false, None);
      }
      outbox := outbox[s := Sent(s) + [e]];
    }

    /**
     * What an admitted session receives privately, in order: the INITIAL_LIST of its channel,
     * the newest 50 history entries (unless the history is empty), and its MUTE_STATUS.
     */
    method SendWelcome(s: SessionId, user: User, c: ChannelId, mutes: set<Mute>, now: int)
      requires c in channelSessions
      modifies this`outbox
      ensures Welcomed(old(Sent(s)), Sent(s), Members(c), sessionUsers, HistoryOf(c), mutes, user.id, c, now)
      ensures forall x :: x != s ==> Sent(x) == old(Sent(x))
    {
      ghost var sent1 := Sent(s);
      SendInitialList(s, c);
      ghost var sent2 := Sent(s);
      SendHistory(s, c);
      ghost var sent3 := Sent(s);
      CheckAndSendMuteStatus(s, user, c, mutes, now);
      assert Sent(s)[..|sent1|] == sent1;
      assert Sent(s)[|sent2|..|Sent(s)| - 1] == sent3[|sent2|..];
      assert Sent(s)[|sent1|] == sent2[|sent1|];
    }

    /**
     * The registration step of admission: the session is put in all three maps, and the user's
     * session count in the channel is then compared with 1, which holds iff the user had no
     * session in the channel before.
     */
    method Register(s: SessionId, user: User, c: ChannelId) returns (first: bool)
      requires Valid() && s !in sessionChannels
      modifies this`channelSessions, this`sessionUsers, this`sessionChannels
      ensures Valid()
      ensures sessionUsers == old(sessionUsers)[s := user]
      ensures sessionChannels == old(sessionChannels)[s := c]
      ensures channelSessions == old(channelSessions)[c := old(Members(c)) + {s}]
      ensures UserSessions(c, user.id) == old(UserSessions(c, user.id)) + {s}
      ensures first <==> old(UserSessions(c, user.id)) == {}
    {
      ghost var before := UserSessions(c, user.id);
      RegistryAdd(channelSessions, sessionUsers, sessionChannels, s, user, c);
      SessionsOfAdd(Members(c), sessionUsers, s, user, user.id);
      assert s !in before;
      sessionUsers := sessionUsers[s := user];
      sessionChannels := sessionChannels[s := c];
      channelSessions := channelSessions[c := Members(c) + {s}];
      assert UserSessions(c, user.id) == before + {s};
      var count := UserSessionCount(c, user.id);
      first := count == 1;
      assert |before + {s}| == |before| + 1;
    }

    /**
     * The admitted branch of `afterConnectionEstablished`: the session is registered in all three
     * maps, JOIN is broadcast to the channel iff the user had no session there before, and the
     * session then gets the user list, the recent history (if any) and its mute status.
     */
    method Enter(s: SessionId, user: User, c: ChannelId, mutes: set<Mute>, now: int)
      requires Valid() && s !in sessionChannels
      modifies this
      ensures Valid()
      ensures history == old(history)
      ensures sessionUsers == old(sessionUsers)[s := user]
      ensures sessionChannels == old(sessionChannels)[s := c]
      ensures channelSessions == old(channelSessions)[c := old(Members(c)) + {s}]
      ensures UserSessions(c, user.id) == old(UserSessions(c, user.id)) + {s}
      ensures
        var join := old(UserSessions(c, user.id)) == {};
        && (forall x :: x != s ==>
              Sent(x) == old(Sent(x)) + (if join && x in Members(c) then [JoinEvent(user, now)] else []))
        && Welcomed(old(Sent(s)) + (if join then [JoinEvent(user, now)] else []), Sent(s),
                    Members(c), sessionUsers, HistoryOf(c), mutes, user.id, c, now)
    {
      var first := Register(s, user, c);
      assert Valid();
      if first {
        Broadcast(c, JoinEvent(user, now));
      }
      SendWelcome(s, user, c, mutes, now);
      assert RegistryOk(channelSessions, sessionUsers, sessionChannels) && HistoryOk(history);
    }

    /**
     * `afterConnectionEstablished`. A query without `token` or `channel` closes with BAD_DATA; a
     * token that fails verification, or names no user, closes with POLICY_VIOLATION; in those
     * cases nothing changes. Otherwise the session is registered in all three maps, JOIN is
     * broadcast iff the user had no session in the channel before, and the session then gets
     * the user list, the recent history (if any) and its mute status.
     */
    method AfterConnectionEstablished(s: SessionId, query: Option<string>,
                                      validToken: string -> bool, userIdOf: string -> UserId,
                                      users: map<UserId, User>, mutes: set<Mute>, now: int)
      returns (a: Admission)
      requires Valid() && s !in sessionChannels
      modifies this
      ensures Valid()
      ensures history == old(history)
      ensures var p := Query.QueryParams(query);
        && (a == Closed(BadData) <==> "token" !in p || "channel" !in p)
        && (a == Closed(PolicyViolation) <==>
              "token" in p && "channel" in p && (!validToken(p["token"]) || userIdOf(p["token"]) !in users))
        && (a.Admitted? ==> a.user == users[userIdOf(p["token"])] && a.channel == p["channel"])
      ensures a.Closed? ==>
        && channelSessions == old(channelSessions) && sessionUsers == old(sessionUsers)
        && sessionChannels == old(sessionChannels) && outbox == old(outbox)
      ensures a.Admitted? ==>
        && sessionUsers == old(sessionUsers)[s := a.user]
        && sessionChannels == old(sessionChannels)[s := a.channel]
        && channelSessions == old(channelSessions)[a.channel := old(Members(a.channel)) + {s}]
        && UserSessions(a.channel, a.user.id) == old(UserSessions(a.channel, a.user.id)) + {s}
      ensures a.Admitted? ==>
        var c, u := a.channel, a.user;
        var join := old(UserSessions(c, u.id)) == {};
        && (forall x :: x != s ==>
              Sent(x) == old(Sent(x)) + (if join && x in Members(c) then [JoinEvent(u, now)] else []))
        && Welcomed(old(Sent(s)) + (if join then [JoinEvent(u, now)] else []), Sent(s),
                    Members(c), sessionUsers, HistoryOf(c), mutes, u.id, c, now)
    {
      var params := Query.ParseQuery(query);
      if "token" !in params || "channel" !in params {
        return Closed(BadData);
      }
      var token, c := params["token"], params["channel"];
      if !validToken(token) {
        return Closed(PolicyViolation);
      }
      var uid := userIdOf(token);
      if uid !in users {
        return Closed(PolicyViolation);
      }
      var user := users[uid];
      Enter(s, user, c, mutes, now);
      a := Admitted(user, c);
    }

    /**
     * `afterConnectionClosed`: the session leaves all three maps, and LEAVE is broadcast to the
     * remaining sessions of its channel iff it was its user's last session there.
     */
    method AfterConnectionClosed(s: SessionId, now: int)
      requires Valid()
      modifies this
      ensures Valid()
      ensures history == old(history)
      ensures sessionUsers == old(sessionUsers) - {s} && sessionChannels == old(sessionChannels) - {s}
      ensures forall c :: Members(c) == old(Members(c)) - {s}
      ensures s !in old(sessionChannels) ==> outbox == old(outbox)
      ensures s in old(sessionChannels) ==>
        var c, u := old(sessionChannels[s]), old(sessionUsers[s]);
        var last := old(UserSessions(c, u.id)) == {s};
        forall x :: Sent(x) == old(Sent(x)) + (if last && x in Members(c) then [LeaveEvent(u, now)] else [])
    {
      var channel := if s in sessionChannels then Some(sessionChannels[s]) else None;
      var user := if s in sessionUsers then Some(sessionUsers[s]) else None;
      if channel.None? {
        assert forall c :: s !in Members(c);
        sessionUsers := sessionUsers - {s};
        return;
      }
      RegistryRemove(channelSessions, sessionUsers, sessionChannels, s);
      var c := channel.value;
      ghost var before := UserSessions(c, user.value.id);
      assert s in before;
      sessionChannels := sessionChannels - {s};
      sessionUsers := sessionUsers - {s};
      if c in channelSessions {
        channelSessions := channelSessions[c := channelSessions[c] - {s}];
        if user.Some? {
          assert UserSessions(c, user.value.id) == before - {s};
          var count := UserSessionCount(c, user.value.id);
          if count == 0 {
            assert before == {s};
            Broadcast(c, LeaveEvent(user.value, now));
          } else {
            assert before != {s};
          }
        }
      }
    }

    /** `saveToHistory`: the channel's list becomes the old list with the entry pushed and trimmed. */
    method SaveToHistory(c: ChannelId, e: Entry)
      requires Valid() && FreshId(e.messageId, HistoryOf(c))
      modifies this`history
      ensures Valid()
      ensures history == old(history)[c := Appended(old(HistoryOf(c)), e)]
    {
      AppendedUnique(HistoryOf(c), e);
      HistoryOkUpdate(history, c, Appended(HistoryOf(c), e));
      history := history[c := Appended(HistoryOf(c), e)];
    }

    /**
     * `handleRecallMessage`: with no id nothing happens. Otherwise the newest RecallWindow
     * entries are searched; the first entry with that id decides: if `user` may recall it, the
     * first equal entry is removed from the list and RECALL is broadcast to the channel; if not,
     * or if no entry matches, nothing changes.
     */
    method HandleRecallMessage(c: ChannelId, user: User, messageId: Option<string>)
      requires Valid()
      modifies this`history, this`outbox
      ensures Valid()
      ensures messageId.None? || FreshId(messageId.value, Newest(old(HistoryOf(c)), RecallWindow)) ==>
        history == old(history) && outbox == old(outbox)
      ensures messageId.Some? ==>
        var h := old(HistoryOf(c));
        var w := Newest(h, RecallWindow);
        forall i :: FirstMatch(w, messageId.value, i) ==>
          if MayRecall(user, w[i]) then
            && history == old(history)[c := RemoveFirst(h, w[i])]
            && forall x :: Sent(x) == old(Sent(x)) + (if x in Members(c) then [Recall(messageId.value)] else [])
          else history == old(history) && outbox == old(outbox)
    {
      if messageId.None? {
        return;
      }
      var id := messageId.value;
      var window := Newest(HistoryOf(c), RecallWindow);
      var found := FindById(window, id);
      if found.None? {
        return;
      }
      var i := found.value;
      FirstMatchUnique(window, id, i);
      var entry := window[i];
      if MayRecall(user, entry) {
        var h := HistoryOf(c);
        RemoveFirstUnique(h, entry);
        assert |h| <= MaxHistory;
        HistoryOkUpdate(history, c, RemoveFirst(h, entry));
        history := history[c := RemoveFirst(h, entry)];
        assert Valid();
        Broadcast(c, Recall(id));
        assert RegistryOk(channelSessions, sessionUsers, sessionChannels) && HistoryOk(history);
      }
    }

    /**
     * The chat branch of `handleTextMessage`: the CHAT frame reaches every session of the channel,
     * then the entry is saved to the channel's history.
     */
    method PostChat(c: ChannelId, user: User, content: string, id: string, now: int)
      requires Valid() && FreshId(id, HistoryOf(c))
      modifies this`history, this`outbox
      ensures Valid()
      ensures history == old(history)[c := Appended(old(HistoryOf(c)), ChatEntry(user, content, id, now))]
      ensures forall x :: Sent(x) == old(Sent(x)) + (if x in Members(c) then [ChatEvent(user, content, id, now)] else [])
    {
      Broadcast(c, ChatEvent(user, content, id, now));
      SaveToHistory(c, ChatEntry(user, content, id, now));
    }

    /**
     * `handleTextMessage`. A session not in the registry is ignored. A silenced sender alone
     * gets one ERROR frame, with no broadcast and no history change. A RECALL command goes to
     * the recall handler. Anything else is chat: the raw payload is broadcast to the channel
     * under the fresh id and saved to the channel's history.
     */
    method HandleTextMessage(s: SessionId, payload: string, parsed: Parsed, mutes: set<Mute>,
                             now: int, freshId: string)
      requires Valid()
      requires s in sessionChannels ==> FreshId(freshId, HistoryOf(sessionChannels[s]))
      modifies this
      ensures Valid()
      ensures channelSessions == old(channelSessions) && sessionUsers == old(sessionUsers)
      ensures sessionChannels == old(sessionChannels)
      ensures s !in sessionChannels ==> history == old(history) && outbox == old(outbox)
      ensures s in sessionChannels && IsMuted(mutes, sessionUsers[s].id, sessionChannels[s], now) ==>
        && history == old(history)
        && forall x :: Sent(x) == old(Sent(x)) + (if x == s then [Error(MutedNotice)] else [])
      ensures s in sessionChannels && !IsMuted(mutes, sessionUsers[s].id, sessionChannels[s], now)
              && !IsRecallCommand(parsed) ==>
        var c, user := sessionChannels[s], sessionUsers[s];
        && history == old(history)[c := Appended(old(HistoryOf(c)), ChatEntry(user, payload, freshId, now))]
        && forall x :: Sent(x) == old(Sent(x)) +
             (if x in Members(c) then [ChatEvent(user, payload, freshId, now)] else [])
      ensures s in sessionChannels && !IsMuted(mutes, sessionUsers[s].id, sessionChannels[s], now)
              && IsRecallCommand(parsed) ==>
        var c, user, id := sessionChannels[s], sessionUsers[s], parsed.messageIdField;
        var w := Newest(old(HistoryOf(c)), RecallWindow);
        && (id.None? || FreshId(id.value, w) ==> history == old(history) && outbox == old(outbox))
        && (id.Some? ==>
              forall i :: FirstMatch(w, id.value, i) ==>
                if MayRecall(user, w[i]) then
                  && history == old(history)[c := RemoveFirst(old(HistoryOf(c)), w[i])]
                  && forall x :: Sent(x) == old(Sent(x)) + (if x in Members(c) then [Recall(id.value)] else [])
                else history == old(history) && outbox == old(outbox))
    {
      if s !in sessionUsers || s !in sessionChannels {
        return;
      }
      var user, c := sessionUsers[s], sessionChannels[s];
      if IsMuted(mutes, user.id, c, now) {
        outbox := outbox[s := Sent(s) + [Error(MutedNotice)]];
        return;
      }
      if IsRecallCommand(parsed) {
        HandleRecallMessage(c, user, parsed.messageIdField);
        return;
      }
      PostChat(c, user, payload, freshId, now);
    }
  }
}

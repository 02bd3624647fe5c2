/**
 * The Socket.IO handlers of Backend/app.py: the `active_users` registry (socket id to user name),
 * the message store, and what each handler emits.
 */
module Server {
  import opened Wrappers
  import opened Seqs

  /** A Socket.IO session id (`request.sid`). */
  type Sid = string

  /** A stored chat message: `username`, `message`, `timestamp` (milliseconds). */
  datatype Record = Record(username: string, text: string, timestamp: int)

  /** The events the server emits, with their payloads. */
  datatype Event =
    | ConnectionResponse(sid: Sid)
    | JoinResponse(username: string, activeUsers: seq<string>)
    | UserJoined(username: string, activeUsers: seq<string>)
    | UserLeft(username: string, activeUsers: seq<string>)
    | NewMessage(id: string, username: string, text: string, timestamp: int)
    | UserTyping(username: string, isTyping: bool)
    | MessageDeleted(messageId: string)
    | ErrorReply

  /**
   * One emit: `room` is the addressed room (absent: every connected client) and `skip` the
   * `skip_sid` left out of it.
   */
  datatype Emission = Emission(event: Event, room: Option<Sid>, skip: Option<Sid>)

  /** `socketio.emit(event, payload)`: every connected client. */
  function Broadcast(e: Event): Emission { Emission(e, None, None) }

  /** `emit(event, payload)` inside a handler: the sender's own room only. */
  function Reply(e: Event, sid: Sid): Emission { Emission(e, Some(sid), None) }

  /** The clients an emission reaches, out of those connected. */
  function Recipients(em: Emission, connected: set<Sid>): (r: set<Sid>)
    ensures r <= connected
    ensures em.room.Some? ==> r <= {em.room.value}
    ensures em.skip.Some? ==> em.skip.value !in r
    ensures em.room.None? && em.skip.None? ==> r == connected
  {
    (if em.room.Some? then connected * {em.room.value} else connected)
      - (if em.skip.Some? then {em.skip.value} else {})
  }

  /** The `user_typing` relay as app.py writes it: `emit(..., skip_sid=request.sid)`. */
  function TypingRelayAsWritten(sid: Sid, e: Event): Emission {
    Emission(e, Some(sid), Some(sid))
  }

  /** Addressed to the sender's room and skipping the sender, the relay reaches no client at all. */
  lemma TypingRelayAsWrittenReachesNobody(sid: Sid, e: Event, connected: set<Sid>)
    ensures Recipients(TypingRelayAsWritten(sid, e), connected) == {}
  {
  }

  /** The relay as intended: every other client, which `broadcast=True` with `skip_sid` gives. */
  function TypingRelay(sid: Sid, e: Event): Emission {
    Emission(e, None, Some(sid))
  }

  /** The intended relay reaches exactly the connected clients other than the sender. */
  lemma TypingRelayReachesOthers(sid: Sid, e: Event, connected: set<Sid>)
    ensures Recipients(TypingRelay(sid, e), connected) == connected - {sid}
  {
  }

  /** The default user name when a payload carries none. */
  const Anonymous: string := "Anonymous"

  /**
   * `active_users` as a Python dict: `order` is its insertion order (the order of
   * `list(active_users.values())`), `users` its contents.
   */
  predicate RegistryOk(order: seq<Sid>, users: map<Sid, string>) {
    NoDup(order) && (forall s :: s in order ==> s in users) && (forall s :: s in users ==> s in order)
  }

  /** `list(active_users.values())`. */
  function Names(order: seq<Sid>, users: map<Sid, string>): (r: seq<string>)
    requires forall s :: s in order ==> s in users
    ensures |r| == |order|
    ensures forall k :: 0 <= k < |order| ==> r[k] == users[order[k]]
  {
    seq(|order|, k requires 0 <= k < |order| => users[order[k]])
  }

  /** A first join adds its name at the end of the values; the other names keep their places. */
  lemma JoinNewAppendsName(order: seq<Sid>, users: map<Sid, string>, sid: Sid, name: string)
    requires RegistryOk(order, users) && sid !in users
    ensures RegistryOk(order + [sid], users[sid := name])
    ensures Names(order + [sid], users[sid := name]) == Names(order, users) + [name]
  {
    NoDupSnoc(order, sid);
    var o := order + [sid];
    var u := users[sid := name];
    assert forall k :: 0 <= k < |order| ==> o[k] == order[k] && order[k] != sid;
  }

  /** A repeat join overwrites the name in the sid's own place and nowhere else. */
  lemma RejoinOverwritesInPlace(order: seq<Sid>, users: map<Sid, string>, sid: Sid, name: string)
    requires RegistryOk(order, users) && sid in users
    ensures RegistryOk(order, users[sid := name])
    ensures forall k :: 0 <= k < |order| ==>
      Names(order, users[sid := name])[k] == if order[k] == sid then name else Names(order, users)[k]
  {
  }

  /** Position of a registered sid in insertion order. */
  function IndexOf(order: seq<Sid>, sid: Sid): (i: nat)
    requires sid in order
    ensures i < |order| && order[i] == sid
  {
    if order[0] == sid then 0 else 1 + IndexOf(order[1..], sid)
  }

  /** Cutting position `i` out of the order cuts that name out of the values. */
  lemma NamesCut(order: seq<Sid>, users: map<Sid, string>, i: int)
    requires forall s :: s in order ==> s in users
    requires 0 <= i < |order|
    ensures forall s :: s in order[..i] + order[i + 1..] ==> s in users
    ensures Names(order[..i] + order[i + 1..], users) == Names(order, users)[..i] + Names(order, users)[i + 1..]
  {
    var rest := order[..i] + order[i + 1..];
    forall s | s in rest ensures s in users {
      var k :| 0 <= k < |rest| && rest[k] == s;
      if k < i { assert rest[k] == order[k]; } else { assert rest[k] == order[k + 1]; }
    }
    var before := Names(order, users);
    var after := Names(rest, users);
    forall k | 0 <= k < |after| ensures after[k] == (before[..i] + before[i + 1..])[k] {
      if k < i {
        assert rest[k] == order[k];
      } else {
        assert rest[k] == order[k + 1];
      }
    }
  }

  /** Names never looks at entries outside the order. */
  lemma NamesIgnoreOthers(order: seq<Sid>, users: map<Sid, string>, sid: Sid)
    requires forall s :: s in order ==> s in users
    requires sid !in order
    ensures Names(order, users - {sid}) == Names(order, users)
  {
  }

  /**
   * `del active_users[sid]`: the entry leaves the insertion order at its own position and the
   * remaining names keep their relative order.
   */
  lemma LeaveDropsName(order: seq<Sid>, users: map<Sid, string>, sid: Sid)
    requires RegistryOk(order, users) && sid in users
    ensures RegistryOk(Without(order, sid), users - {sid})
    ensures
      var i := IndexOf(order, sid);
      Names(Without(order, sid), users - {sid}) == Names(order, users)[..i] + Names(order, users)[i + 1..]
  {
    var i := IndexOf(order, sid);
    WithoutAt(order, i);
    WithoutKeepsNoDup(order, sid);
    NamesCut(order, users, i);
    NamesIgnoreOthers(Without(order, sid), users, sid);
  }

  /** A first join followed by the same socket's disconnect restores the registry exactly. */
  lemma JoinThenLeaveRestores(order: seq<Sid>, users: map<Sid, string>, sid: Sid, name: string)
    requires RegistryOk(order, users) && sid !in users
    ensures Without(order + [sid], sid) == order
    ensures users[sid := name] - {sid} == users
  {
    WithoutConcat(order, [sid], sid);
    WithoutAbsent(order, sid);
  }

  predicate IsHexDigit(c: char) {
    '0' <= c <= '9' || 'a' <= c <= 'f' || 'A' <= c <= 'F'
  }

  function LowerHex(c: char): (d: char)
    requires IsHexDigit(c)
  {
    if 'A' <= c <= 'F' then (c as int - 'A' as int + 'a' as int) as char else c
  }

  /** The text form of an ObjectId: 24 hexadecimal digits, lower case. */
  predicate IsCanonicalId(s: string) {
    |s| == 24 && forall k :: 0 <= k < |s| ==> '0' <= s[k] <= '9' || 'a' <= s[k] <= 'f'
  }

  /**
   * `ObjectId(message_id)`: 24 hexadecimal digits in either case name the ObjectId whose text form
   * is their lower-case spelling; anything else raises.
   */
  function ParseObjectId(s: string): (r: Option<string>)
    ensures r.Some? <==> |s| == 24 && forall k :: 0 <= k < |s| ==> IsHexDigit(s[k])
    ensures r.Some? ==> IsCanonicalId(r.value)
  {
    if |s| == 24 && forall k :: 0 <= k < |s| ==> IsHexDigit(s[k]) then
      Some(seq(24, k requires 0 <= k < 24 => LowerHex(s[k])))
    else None
  }

  /** `ObjectId(str(oid)) == oid`: the text form of a stored id parses back to that id. */
  lemma ParseCanonical(s: string)
    requires IsCanonicalId(s)
    ensures ParseObjectId(s) == Some(s)
  {
    assert forall k :: 0 <= k < |s| ==> IsHexDigit(s[k]);
    var r := seq(24, k requires 0 <= k < 24 => LowerHex(s[k]));
    assert ParseObjectId(s) == Some(r);
    forall k | 0 <= k < 24 ensures r[k] == s[k] {
      assert !('A' <= s[k] <= 'F');
    }
    assert r == s;
  }

  /** Two spellings that differ only in letter case name the same ObjectId. */
  lemma ParseIgnoresCase(s: string, t: string)
    requires |s| == |t|
    requires forall k :: 0 <= k < |s| ==> IsHexDigit(s[k]) && IsHexDigit(t[k]) && LowerHex(s[k]) == LowerHex(t[k])
    ensures ParseObjectId(s) == ParseObjectId(t)
  {
    if |s| == 24 {
      var rs := seq(24, k requires 0 <= k < 24 => LowerHex(s[k]));
      var rt := seq(24, k requires 0 <= k < 24 => LowerHex(t[k]));
      assert ParseObjectId(s) == Some(rs);
      assert ParseObjectId(t) == Some(rt);
      assert rs == rt;
    }
  }

  class ChatServer {
    /** Insertion order of `active_users`. */
    var order: seq<Sid>
    /** `active_users`: socket id to user name. */
    var activeUsers: map<Sid, string>
    /** The messages collection, by the text form of its `_id`. */
    var store: map<string, Record>
    /** Everything emitted so far, oldest first. */
    var outbox: seq<Emission>

    /** The registry is a well-formed ordered dict, and every stored key is an ObjectId's text. */
    ghost predicate Valid()
      reads this
    {
      && RegistryOk(order, activeUsers)
      && forall k :: k in store ==> IsCanonicalId(k)
    }

    /** `list(active_users.values())`. */
    function ActiveNames(): seq<string>
      reads this
      requires Valid()
    {
      Names(order, activeUsers)
    }

    constructor ()
      ensures Valid()
      ensures order == [] && activeUsers == map[] && store == map[] && outbox == []
    {
      order, activeUsers, store, outbox := [], map[], map[], [];
    }

    /** `connect`: the new client is told its session id. */
    method Connect(sid: Sid)
      modifies this`outbox
      ensures outbox == old(outbox) + [Reply(ConnectionResponse(sid), sid)]
    {
      outbox := outbox + [Reply(ConnectionResponse(sid), sid)];
    }

    /**
     * `disconnect`: an unregistered socket changes nothing and emits nothing; a registered one
     * loses exactly its entry, and `user_left` with the remaining names goes to everyone.
     */
    method Disconnect(sid: Sid)
      requires Valid()
      modifies this`order, this`activeUsers, this`outbox
      ensures Valid()
      ensures sid !in old(activeUsers) ==>
        order == old(order) && activeUsers == old(activeUsers) && outbox == old(outbox)
      ensures sid in old(activeUsers) ==>
        && activeUsers == old(activeUsers) - {sid}
        && order == Without(old(order), sid)
        && outbox == old(outbox) + [Broadcast(UserLeft(old(activeUsers)[sid], ActiveNames()))]
    {
      if sid in activeUsers {
        var name := activeUsers[sid];
        LeaveDropsName(order, activeUsers, sid);
        activeUsers := activeUsers - {sid};
        order := Without(order, sid);
        outbox := outbox + [Broadcast(UserLeft(name, Names(order, activeUsers)))];
      }
    }

    /**
     * `join`: the socket's entry becomes the given name (`Anonymous` by default), a first join
     * taking the last place in the order; the joiner gets `join_response` and everyone
     * `user_joined`, both carrying every name after the update.
     */
    method Join(sid: Sid, username: Option<string>)
      requires Valid()
      modifies this`order, this`activeUsers, this`outbox
      ensures Valid()
      ensures activeUsers == old(activeUsers)[sid := username.GetOr(Anonymous)]
      ensures order == if sid in old(activeUsers) then old(order) else old(order) + [sid]
      ensures
        var name := username.GetOr(Anonymous);
        outbox == old(outbox) + [Reply(JoinResponse(name, ActiveNames()), sid), Broadcast(UserJoined(name, ActiveNames()))]
    {
      var name := username.GetOr(Anonymous);
      if sid !in activeUsers {
        JoinNewAppendsName(order, activeUsers, sid, name);
        order := order + [sid];
      }
      activeUsers := activeUsers[sid := name];
      var names := Names(order, activeUsers);
      outbox := outbox + [Reply(JoinResponse(name, names), sid), Broadcast(UserJoined(name, names))];
    }

    /**
     * `send_message`: the message (defaults `Anonymous` and the empty text) is stored under the
     * id the database assigned and broadcast with it; when the insert fails, only the sender
     * gets an error and nothing is stored.
     */
    method SendMessage(sid: Sid, username: Option<string>, text: Option<string>, now: int, inserted: Option<string>)
      requires Valid()
      requires inserted.Some? ==> IsCanonicalId(inserted.value) && inserted.value !in store
      modifies this`store, this`outbox
      ensures Valid()
      ensures
        var r := Record(username.GetOr(Anonymous), text.GetOr(""), now);
        if inserted.Some? then
          && store == old(store)[inserted.value := r]
          && |store| == |old(store)| + 1
          && outbox == old(outbox) + [Broadcast(NewMessage(inserted.value, r.username, r.text, now))]
        else
          store == old(store) && outbox == old(outbox) + [Reply(ErrorReply, sid)]
      ensures inserted.Some? ==> ParseObjectId(inserted.value) == Some(inserted.value)
    {
      var r := Record(username.GetOr(Anonymous), text.GetOr(""), now);
      if inserted.Some? {
        ParseCanonical(inserted.value);
        store := store[inserted.value := r];
        outbox := outbox + [Broadcast(NewMessage(inserted.value, r.username, r.text, now))];
      } else {
        outbox := outbox + [Reply(ErrorReply, sid)];
      }
    }

    /**
     * `typing`: `user_typing` with defaults `Anonymous` and `false` goes to every client but the
     * sender (the corrected relay; see TypingRelayAsWritten).
     */
    method Typing(sid: Sid, username: Option<string>, isTyping: Option<bool>)
      modifies this`outbox
      ensures outbox == old(outbox) + [TypingRelay(sid, UserTyping(username.GetOr(Anonymous), isTyping.GetOr(false)))]
    {
      outbox := outbox + [TypingRelay(sid, UserTyping(username.GetOr(Anonymous), isTyping.GetOr(false)))];
    }

    /**
     * `delete_message`: a missing or empty id returns at once; an id that is not an ObjectId
     * earns the sender an error; otherwise the message is removed if stored, and
     * `message_deleted` goes to everyone only when something was removed.
     */
    method DeleteMessage(sid: Sid, messageId: Option<string>)
      requires Valid()
      modifies this`store, this`outbox
      ensures Valid()
      ensures messageId.None? || messageId.value == "" ==> store == old(store) && outbox == old(outbox)
      ensures messageId.Some? && messageId.value != "" && ParseObjectId(messageId.value).None? ==>
        store == old(store) && outbox == old(outbox) + [Reply(ErrorReply, sid)]
      ensures messageId.Some? && messageId.value != "" && ParseObjectId(messageId.value).Some? ==>
        var key := ParseObjectId(messageId.value).value;
        && store == old(store) - {key}
        && outbox == old(outbox) + (if key in old(store) then [Broadcast(MessageDeleted(messageId.value))] else [])
    {
      if messageId.None? || messageId.value == "" {
        return;
      }
      var key := ParseObjectId(messageId.value);
      if key.None? {
        outbox := outbox + [Reply(ErrorReply, sid)];
      } else if key.value in store {
        store := store - {key.value};
        outbox := outbox + [Broadcast(MessageDeleted(messageId.value))];
      }
    }
  }
}

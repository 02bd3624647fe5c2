/**
 * The chat client's state and the handlers that change it (Frontend/src/App.jsx): the socket
 * event handlers, the user actions (send, delete, keystroke, emoji) and the stop-typing timer.
 */
module Client {
  import opened Wrappers
  import opened Seqs
  import opened Text
  import opened Ledger
  import opened Presence

  /** What the client emits on its socket. */
  datatype Outbound =
    | Join(username: string)
    | SendMessage(username: string, message: string)
    | DeleteMessage(messageId: Option<string>)
    | Typing(username: string, isTyping: bool)

  /** The error shown when the auth endpoint rejects a request without saying why. */
  const AuthFailedText: string := "Authentication failed"

  class ChatClient {
    var messages: seq<Message>
    var activeUsers: seq<string>
    var typingUsers: seq<string>
    /** The text in the input box (`inputMessage`). */
    var draft: string
    var username: string
    var isJoined: bool
    /** `socket` is set. */
    var hasSocket: bool
    var isConnected: bool
    var authError: string
    /** The armed stop-typing timer (`typingTimeoutRef`), with the name its callback will emit. */
    var pendingStop: Option<string>
    /** Everything emitted on the socket so far, oldest first. */
    var outbox: seq<Outbound>

    /** No assigned `_id` is listed twice, and the typing list never names anyone twice. */
    ghost predicate Valid()
      reads this
    {
      UniqueIds(messages) && NoDup(typingUsers)
    }

    /** The initial `useState` values. */
    constructor ()
      ensures Valid()
      ensures messages == [] && activeUsers == [] && typingUsers == [] && draft == ""
      ensures username == "" && !isJoined && !hasSocket && !isConnected && authError == ""
      ensures pendingStop == None && outbox == []
    {
      messages, activeUsers, typingUsers, draft := [], [], [], "";
      username, isJoined, hasSocket, isConnected, authError := "", false, false, false, "";
      pendingStop, outbox := None, [];
    }

    /** `setSocket(newSocket)` once the connection object exists. */
    method AttachSocket()
      modifies this`hasSocket
      ensures hasSocket
    {
      hasSocket := true;
    }

    /** `connect`: the client is online, and a user who has signed in announces themselves. */
    method OnConnect()
      modifies this`isConnected, this`outbox
      ensures isConnected
      ensures outbox == old(outbox) + (if username != "" then [Join(username)] else [])
    {
      isConnected := true;
      if username != "" {
        outbox := outbox + [Join(username)];
      }
    }

    /** `disconnect` and `connect_error`: offline; nothing else is reset. */
    method OnConnectionLost()
      modifies this`isConnected
      ensures !isConnected
    {
      isConnected := false;
    }

    /** `reconnect`: online again, without a new announcement. */
    method OnReconnect()
      modifies this`isConnected
      ensures isConnected
    {
      isConnected := true;
    }

    /**
     * `new_message`: a message whose `_id` is already listed is ignored; any other is appended,
     * and the notification sound is due exactly when it was appended and comes from someone else.
     */
    method OnNewMessage(m: Message) returns (notify: bool)
      requires Valid()
      modifies this`messages
      ensures Valid()
      ensures HasId(old(messages), m.id) ==> messages == old(messages)
      ensures !HasId(old(messages), m.id) ==> messages == old(messages) + [m]
      ensures notify <==> !HasId(old(messages), m.id) && m.username != Some(username)
    {
      notify := !HasId(messages, m.id) && m.username != Some(username);
      ArriveKeepsUniqueIds(messages, m);
      messages := Arrive(messages, m);
    }

    /** `message_deleted`: every entry carrying the deleted `_id` goes, the rest stay in order. */
    method OnMessageDeleted(messageId: Option<string>)
      requires Valid()
      modifies this`messages
      ensures Valid()
      ensures messages == WithoutId(old(messages), messageId)
      ensures forall m :: m in messages <==> m in old(messages) && m.id != messageId
    {
      WithoutIdKeepsUniqueIds(messages, messageId);
      messages := WithoutId(messages, messageId);
    }

    /**
     * `user_joined`: the roster becomes the server's list, or empty when the event has none,
     * and one notice "<name> joined the chat" is appended.
     */
    method OnUserJoined(name: string, active: Option<seq<string>>, now: int)
      requires Valid()
      modifies this`activeUsers, this`messages
      ensures Valid()
      ensures activeUsers == active.GetOr([])
      ensures messages == old(messages) + [SystemNotice(JoinedText(name), now)]
    {
      activeUsers := active.GetOr([]);
      NoticeKeepsUniqueIds(messages, JoinedText(name), now);
      messages := messages + [SystemNotice(JoinedText(name), now)];
    }

    /**
     * `user_left`: the roster becomes the server's list when the event has one, otherwise the
     * leaving name is filtered out; one notice "<name> left the chat" is appended.
     */
    method OnUserLeft(name: string, active: Option<seq<string>>, now: int)
      requires Valid()
      modifies this`activeUsers, this`messages
      ensures Valid()
      ensures active.Some? ==> activeUsers == active.value
      ensures active.None? ==> activeUsers == Without(old(activeUsers), name)
      ensures messages == old(messages) + [SystemNotice(LeftText(name), now)]
    {
      if active.Some? {
        activeUsers := active.value;
      } else {
        activeUsers := Without(activeUsers, name);
      }
      NoticeKeepsUniqueIds(messages, LeftText(name), now);
      messages := messages + [SystemNotice(LeftText(name), now)];
    }

    /**
     * `user_typing`: a typist is added once, keeping the order of the others, or every
     * occurrence of the name is removed. Messages and roster are not touched.
     */
    method OnUserTyping(name: string, isTyping: bool)
      requires Valid()
      modifies this`typingUsers
      ensures Valid()
      ensures isTyping ==> typingUsers == if name in old(typingUsers) then old(typingUsers) else old(typingUsers) + [name]
      ensures !isTyping ==> typingUsers == Without(old(typingUsers), name)
    {
      if isTyping {
        WithTypistAppendsOnce(typingUsers, name);
        typingUsers := WithTypist(typingUsers, name);
      } else {
        WithoutKeepsNoDup(typingUsers, name);
        typingUsers := Without(typingUsers, name);
      }
    }

    /** `join_response`: the roster becomes the server's list, or empty when the reply has none. */
    method OnJoinResponse(active: Option<seq<string>>)
      modifies this`activeUsers
      ensures activeUsers == active.GetOr([])
    {
      activeUsers := active.GetOr([]);
    }

    /**
     * The history fetch issued once the user has joined: a reply carrying `messages` replaces
     * the list wholesale; a reply without it, or a failed fetch, leaves the list alone.
     */
    method OnHistoryLoaded(fetched: Option<seq<Message>>)
      requires Valid()
      requires fetched.Some? ==> UniqueIds(fetched.value)
      modifies this`messages
      ensures Valid()
      ensures messages == if fetched.Some? then fetched.value else old(messages)
    {
      if fetched.Some? {
        messages := fetched.value;
      }
    }

    /** A successful login or signup: the error is cleared, the user is named and joined. */
    method OnAuthSuccess(name: string)
      modifies this`authError, this`username, this`isJoined
      ensures authError == "" && username == name && isJoined
    {
      authError := "";
      username := name;
      isJoined := true;
    }

    /**
     * A rejected login or signup: the server's error text is shown, or the generic text when the
     * server gave none; the user stays signed out.
     */
    method OnAuthRejected(serverError: Option<string>)
      modifies this`authError
      ensures authError == if serverError.Some? && serverError.value != "" then serverError.value else AuthFailedText
      ensures authError != ""
    {
      if serverError.Some? && serverError.value != "" {
        authError := serverError.value;
      } else {
        authError := AuthFailedText;
      }
    }

    /**
     * `handleSendMessage`: with a draft that is not blank, a socket and a joined user, the
     * trimmed draft is sent, the draft cleared and `typing false` emitted; otherwise nothing
     * happens. The armed stop-typing timer is left armed either way.
     */
    method SendDraft()
      modifies this`draft, this`outbox
      ensures
        var text := Trim(old(draft));
        if text != "" && hasSocket && isJoined then
          && outbox == old(outbox) + [SendMessage(username, text), Typing(username, false)]
          && draft == ""
        else
          outbox == old(outbox) && draft == old(draft)
    {
      var text := Trim(draft);
      if text != "" && hasSocket && isJoined {
        outbox := outbox + [SendMessage(username, text), Typing(username, false)];
        draft := "";
      }
    }

    /**
     * `handleDeleteMessage`: a confirmed request from a joined client asks the server to delete;
     * the local list is left as it is until `message_deleted` arrives.
     */
    method RequestDelete(messageId: Option<string>, confirmed: bool)
      modifies this`outbox
      ensures outbox == old(outbox) + (if hasSocket && isJoined && confirmed then [DeleteMessage(messageId)] else [])
    {
      if hasSocket && isJoined && confirmed {
        outbox := outbox + [DeleteMessage(messageId)];
      }
    }

    /**
     * `handleTyping`: the draft takes the new value; a joined client emits `typing true` and
     * re-arms the one stop-typing timer, which replaces any timer armed before.
     */
    method Keystroke(value: string)
      modifies this`draft, this`outbox, this`pendingStop
      ensures draft == value
      ensures hasSocket && isJoined ==> outbox == old(outbox) + [Typing(username, true)] && pendingStop == Some(username)
      ensures !(hasSocket && isJoined) ==> outbox == old(outbox) && pendingStop == old(pendingStop)
    {
      draft := value;
      if hasSocket && isJoined {
        outbox := outbox + [Typing(username, true)];
        pendingStop := Some(username);
      }
    }

    /** Two seconds without a keystroke: the armed timer emits one `typing false` and is spent. */
    method FireStopTimer()
      modifies this`outbox, this`pendingStop
      ensures pendingStop == None
      ensures outbox == old(outbox) + (if old(pendingStop).Some? then [Typing(old(pendingStop).value, false)] else [])
    {
      if pendingStop.Some? {
        outbox := outbox + [Typing(pendingStop.value, false)];
        pendingStop := None;
      }
    }

    /** `onEmojiClick`: the emoji is appended to the draft. */
    method OnEmojiClick(emoji: string)
      modifies this`draft
      ensures draft == old(draft) + emoji
    {
      draft := draft + emoji;
    }
  }
}

/**
 The server's realtime connection registry: for every user id, the set of open
 WebSocket connections of that user. Sockets are opaque handles; sending frames,
 receiving keep-alive text and closing are I/O and are not modelled.
 */
module Realtime {
  import opened Optional

  type UserId = string

  /** An open WebSocket, identified only by an opaque handle. */
  type Socket = nat

  /** `connections`: user id to the set of that user's open sockets. */
  type Registry = map<UserId, set<Socket>>

  /**
   The close code the handler passes to `close` when a client connects without a
   `user_id` query parameter. The handshake has not been accepted at that point, so
   the server refuses it and the client may never see this code.
   */
  const MissingUserCloseCode: int := 4000

  /** The registry invariant: no user is kept with an empty socket set. */
  predicate NoEmptyEntry(reg: Registry) {
    forall u :: u in reg ==> reg[u] != {}
  }

  /** The sockets `send_to_user` writes to: the user's entry, or none when absent. */
  function Sockets(reg: Registry, user: UserId): set<Socket> {
    if user in reg then reg[user] else {}
  }

  /** Every user other than `user` keeps exactly the entry it had. */
  ghost predicate OthersUnchanged(reg: Registry, reg': Registry, user: UserId) {
    forall u :: u != user ==> (u in reg <==> u in reg') && (u in reg ==> reg[u] == reg'[u])
  }

  /** `add_conn`: register `ws` as one more socket of `user`. */
  function AddConn(reg: Registry, user: UserId, ws: Socket): (r: Registry)
    ensures user in r && ws in r[user]
    ensures Sockets(r, user) - {ws} == Sockets(reg, user) - {ws}
    ensures OthersUnchanged(reg, r, user)
    ensures NoEmptyEntry(reg) ==> NoEmptyEntry(r)
  {
    reg[user := Sockets(reg, user) + {ws}]
  }

  /** `remove_conn`: forget `ws`, dropping the user's entry once it becomes empty. */
  function RemoveConn(reg: Registry, user: UserId, ws: Socket): (r: Registry)
    ensures user !in reg ==> r == reg
    ensures ws !in Sockets(r, user)
    ensures Sockets(r, user) == Sockets(reg, user) - {ws}
    ensures user in r ==> r[user] != {}
    ensures OthersUnchanged(reg, r, user)
    ensures NoEmptyEntry(reg) ==> NoEmptyEntry(r)
  {
    if user in reg then
      var rest := reg[user] - {ws};
      if rest == {} then reg - {user} else reg[user := rest]
    else
      reg
  }

  /** What the handshake of `/ws` answers. */
  datatype Handshake = Rejected(closeCode: int) | Accepted

  /**
   The accept/reject decision of `ws_endpoint`: a missing or empty `user_id` is
   refused with the handler's close code and registers nothing; otherwise the
   socket is accepted and added to that user's sockets.
   */
  function Connect(reg: Registry, userParam: Option<UserId>, ws: Socket): (r: (Registry, Handshake))
    ensures r.1.Rejected? <==> (userParam.None? || userParam.value == "")
    ensures r.1.Rejected? ==> r.1.closeCode == MissingUserCloseCode && r.0 == reg
    ensures r.1.Accepted? ==> Sockets(r.0, userParam.value) == Sockets(reg, userParam.value) + {ws}
    ensures r.1.Accepted? ==> OthersUnchanged(reg, r.0, userParam.value)
    ensures NoEmptyEntry(reg) ==> NoEmptyEntry(r.0)
  {
    match userParam
    case None => (reg, Rejected(MissingUserCloseCode))
    case Some(user) =>
      if user == "" then (reg, Rejected(MissingUserCloseCode))
      else (AddConn(reg, user, ws), Accepted)
  }

  /** The `WebSocketDisconnect` handler of `ws_endpoint`. */
  function Disconnect(reg: Registry, user: UserId, ws: Socket): (r: Registry)
    ensures user !in reg ==> r == reg
    ensures Sockets(r, user) == Sockets(reg, user) - {ws}
    ensures OthersUnchanged(reg, r, user)
    ensures NoEmptyEntry(reg) ==> NoEmptyEntry(r)
  {
    RemoveConn(reg, user, ws)
  }

  /** Removing a socket that was just added restores the registry it was added to. */
  lemma AddThenRemove(reg: Registry, user: UserId, ws: Socket)
    requires NoEmptyEntry(reg)
    requires ws !in Sockets(reg, user)
    ensures RemoveConn(AddConn(reg, user, ws), user, ws) == reg
  {
    var r := RemoveConn(AddConn(reg, user, ws), user, ws);
    assert Sockets(r, user) == Sockets(reg, user);
    assert r.Keys == reg.Keys;
  }

  /** Adding a socket that is already registered changes nothing. */
  lemma AddConnIdempotent(reg: Registry, user: UserId, ws: Socket)
    requires ws in Sockets(reg, user)
    ensures AddConn(reg, user, ws) == reg
  {
    assert reg[user] + {ws} == reg[user];
  }

  /**
   A whole session: a socket accepted for a user and then disconnected leaves the
   registry as it was, so it no longer receives that user's notifications.
   */
  lemma SessionLeavesNoTrace(reg: Registry, user: UserId, ws: Socket)
    requires NoEmptyEntry(reg)
    requires user != "" && ws !in Sockets(reg, user)
    ensures Connect(reg, Some(user), ws).1 == Accepted
    ensures Disconnect(Connect(reg, Some(user), ws).0, user, ws) == reg
  {
    AddThenRemove(reg, user, ws);
  }
}

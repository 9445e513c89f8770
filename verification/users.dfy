/** The session table of user.js: which vendor id is connected through which
    socket id. */
module Users {
  import opened Messages

  type SocketId = string

  /** The module-level `connectedUsers` dictionary, keyed by socket id. */
  class ConnectedUsers {
    var table: map<SocketId, VendorId>

    constructor ()
      ensures table == map[]
    {
      table := map[];
    }

    /** getVID: the vendor id bound to the socket, or undefined. */
    function GetVID(socket: SocketId): (r: Option<VendorId>)
      reads this
      ensures r.Some? <==> socket in table
      ensures r.Some? ==> table[socket] == r.value
    {
      if socket in table then Some(table[socket]) else None
    }

    /** addConnectedUser: bind the socket to the id unless it is already bound;
        the first binding wins and no other key changes. */
    method AddConnectedUser(id: VendorId, socket: SocketId)
      modifies this
      ensures socket in old(table) ==> table == old(table)
      ensures socket !in old(table) ==> table == old(table)[socket := id]
      ensures GetVID(socket) == if socket in old(table) then old(GetVID(socket)) else Some(id)
    {
      if socket !in table {
        table := table[socket := id];
      }
    }

    /** removeConnectedUser: delete the socket's binding; an absent socket is a
        no-op, and no other key changes. */
    method RemoveConnectedUser(socket: SocketId)
      modifies this
      ensures table == old(table) - {socket}
      ensures GetVID(socket) == None
    {
      table := table - {socket};
    }
  }

  /** A socket that connects and then disconnects: while connected its id is
      found, afterwards nothing is, and the rest of the table is as before. */
  method ConnectThenDisconnect(users: ConnectedUsers, id: VendorId, socket: SocketId)
    returns (during: Option<VendorId>, after: Option<VendorId>)
    requires socket !in users.table
    modifies users
    ensures during == Some(id) && after == None
    ensures users.table == old(users.table)
  {
    users.AddConnectedUser(id, socket);
    during := users.GetVID(socket);
    users.RemoveConnectedUser(socket);
    after := users.GetVID(socket);
  }
}

/**
 * The communications manager: it holds the broadcast connection and, to
 * start discovery, writes the discovery token on it.
 */
module Comms {
  import opened Wrappers
  import opened Net
  import Messages

  /** The error a connection's write may report. */
  datatype WriteError = WriteError(message: string)

  /** A connection seen from the manager: every payload handed to `Write` is
      recorded, and each write answers with the byte count and error the
      connection was set up to give. */
  class Conn {
    var written: seq<seq<byte>>
    var replyCount: int
    var replyErr: Option<WriteError>

    constructor (count: int, err: Option<WriteError>)
      ensures written == [] && replyCount == count && replyErr == err
    {
      written, replyCount, replyErr := [], count, err;
    }

    /** Sends one payload. */
    method Write(b: seq<byte>) returns (n: int, err: Option<WriteError>)
      modifies this`written
      ensures written == old(written) + [b]
      ensures n == replyCount && err == replyErr
    {
      written := written + [b];
      n, err := replyCount, replyErr;
    }
  }

  class CommsManager {
    var broadcastConn: Conn

    /** `MakeManager`: a manager over the given broadcast connection. */
    constructor MakeManager(conn: Conn)
      ensures broadcastConn == conn
    {
      broadcastConn := conn;
    }

    /** `StartDiscovery`: one write of the discovery token on the broadcast
        connection. Its byte count and error are discarded, so the call
        completes whatever the connection answers. */
    method StartDiscovery()
      modifies broadcastConn`written
      ensures broadcastConn.written == old(broadcastConn.written) + [Messages.DiscoveryMessage]
    {
      var _, _ := broadcastConn.Write(Messages.DiscoveryMessage);
    }

    /** `StopDiscovery`: does nothing. */
    method StopDiscovery()
      ensures broadcastConn == old(broadcastConn)
      ensures unchanged(broadcastConn)
    {
    }
  }
}

/** Non-blocking connections (common/netwrap.c), reduced to the bytes they carry. */
module Network {
  import opened ByteStrings

  datatype RecvResult = Received(data: Bytes) | WouldBlock | Failed

  /** A connection: `incoming` is what the peer has sent and this side has not read yet. */
  class Socket {
    var incoming: Bytes
    ghost var asks: nat        // how often recv has been called
    ghost var refused: bool    // whether it had nothing the last time
    ghost var broken: bool     // whether it failed the last time

    constructor (stream: Bytes)
      ensures incoming == stream
    {
      incoming, asks, refused, broken := stream, 0, false, false;
    }

    /** The peer sends more. */
    method Arrive(data: Bytes)
      modifies this`incoming
      ensures incoming == old(incoming) + data
    {
      incoming := incoming + data;
    }

    /** recv: between one and `limit` of the next bytes, or nothing yet, or a broken connection. */
    method Recv(limit: nat) returns (r: RecvResult)
      requires limit > 0
      modifies this
      ensures r.Received? ==> 0 < |r.data| <= limit && r.data + incoming == old(incoming)
      ensures !r.Received? ==> incoming == old(incoming)
      ensures asks == old(asks) + 1 && refused == r.WouldBlock? && broken == r.Failed?
    {
      asks, refused, broken := asks + 1, false, false;
      if * {
        refused := true;
        return WouldBlock;
      }
      var fails: bool := *;
      if fails || incoming == [] {
        broken := true;
        return Failed;
      }
      var n: nat :| 0 < n <= limit && n <= |incoming|;
      r := Received(incoming[..n]);
      incoming := incoming[n..];
    }
  }
}

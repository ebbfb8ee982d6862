/** Fixed-size messages over a byte stream that arrives and leaves in arbitrary pieces
    (Toooba/src_Core/BSV_Additional_Libs/BlueStuff/SocketPacketUtils/socket_packet_utils.c). */
module SocketPackets {
  import opened PyText

  const NO_DATA: byte := 0xff

  /** A connection: whether it was accepted yet, all that the peer will ever send, how much of it was
      read, and what was written. The sizes of the pieces are arbitrary, and a blocking call makes
      progress. */
  class Connection {
    const wire: nat -> byte
    var open: bool
    var pos: nat
    var sent: seq<byte>

    constructor (wire: nat -> byte)
      ensures this.wire == wire && !open && pos == 0 && sent == []
    {
      this.wire := wire;
      open, pos, sent := false, 0, [];
    }

    /** `acceptConnection`: an open connection stays, a missing one may have come. */
    method Accept()
      modifies this`open
      ensures old(open) ==> open
    {
      if !open {
        var came: bool :| true;
        open := came;
      }
    }

    /** The next n bytes from position p of the stream. */
    function Segment(p: nat, n: nat): (s: seq<byte>)
      ensures |s| == n
    {
      seq(n, i requires 0 <= i < n => wire(p + i))
    }

    lemma {:induction false} SegmentAt(p: nat, n: nat, i: nat)
      requires i < n
      ensures Segment(p, n)[i] == wire(p + i)
    {}

    lemma {:induction false} SegmentNext(p: nat, n: nat)
      ensures Segment(0, p) + Segment(p, n) == Segment(0, p + n)
    {}

    /** `read`: -1 when nothing is there yet, which a blocking call never returns. */
    method Read(bytes: array<byte>, at: nat, n: nat, blocking: bool) returns (count: int)
      requires at + n <= bytes.Length
      modifies this`pos, bytes
      ensures count == -1 || 0 <= count <= n
      ensures n > 0 ==> count != 0
      ensures blocking ==> count != -1
      ensures count == -1 ==> pos == old(pos) && bytes[..] == old(bytes[..])
      ensures count >= 0 ==> pos == old(pos) + count && bytes[at..at + count] == Segment(old(pos), count)
      ensures bytes[..at] == old(bytes[..at])
    {
      var ready: bool :| blocking ==> ready;
      if !ready {
        return -1;
      }
      var c: nat :| c <= n && (n > 0 ==> c > 0);
      forall i | 0 <= i < c {
        bytes[at + i] := wire(pos + i);
      }
      pos := pos + c;
      count := c;
    }

    method Write(bytes: seq<byte>, blocking: bool) returns (count: int)
      modifies this`sent
      ensures count == -1 || 0 <= count <= |bytes|
      ensures bytes != [] ==> count != 0
      ensures blocking ==> count != -1
      ensures sent == if count == -1 then old(sent) else old(sent) + bytes[..count]
    {
      var ready: bool :| blocking ==> ready;
      if !ready {
        return -1;
      }
      var c: nat :| c <= |bytes| && (bytes != [] ==> c > 0);
      sent := sent + bytes[..c];
      count := c;
    }
  }

  /** `serv_socket_getN`: the message and a last byte that is 0 when it is valid. Either a whole
      message is taken from the stream, or nothing. */
  method GetN(conn: Connection, bytes: array<byte>, nbytes: nat)
    requires bytes.Length == nbytes + 1
    modifies conn`open, conn`pos, bytes
    ensures old(conn.open) ==> conn.open
    ensures !conn.open ==> bytes[nbytes] == NO_DATA
    ensures bytes[nbytes] == 0 || bytes[nbytes] == NO_DATA == 0xff
    ensures bytes[nbytes] == 0 ==>
              conn.pos == old(conn.pos) + nbytes && bytes[..nbytes] == conn.Segment(old(conn.pos), nbytes)
    ensures bytes[nbytes] == NO_DATA ==> conn.pos == old(conn.pos)
  {
    conn.Accept();
    if !conn.open {
      bytes[nbytes] := NO_DATA;
      return;
    }
    var count := conn.Read(bytes, 0, nbytes, false);
    if count == nbytes {
      bytes[nbytes] := 0;
      return;
    } else if count > 0 {
      while count < nbytes
        invariant conn.open && 0 <= count <= nbytes && conn.pos == old(conn.pos) + count
        invariant bytes[..count] == conn.Segment(old(conn.pos), count)
      {
        ghost var before := bytes[..count];
        var res := conn.Read(bytes, count, nbytes - count, true);
        assert bytes[..count + res] == before + bytes[count..count + res];
        count := count + res;
      }
      bytes[nbytes] := 0;
    } else {
      bytes[nbytes] := NO_DATA;
    }
  }

  /** `serv_socket_putN`: 1 when the whole message went out, 0 when nothing did. */
  method PutN(conn: Connection, data: seq<byte>) returns (accepted: bool)
    modifies conn`open, conn`sent
    ensures old(conn.open) ==> conn.open
    ensures accepted ==> conn.open
    ensures conn.sent == if accepted then old(conn.sent) + data else old(conn.sent)
  {
    conn.Accept();
    if !conn.open {
      return false;
    }
    var count := conn.Write(data, false);
    if count == |data| {
      assert data[..|data|] == data;
      return true;
    } else if count > 0 {
      while count < |data|
        invariant conn.open && 0 <= count <= |data| && conn.sent == old(conn.sent) + data[..count]
      {
        var res := conn.Write(data[count..], true);
        assert data[..count + res] == data[..count] + data[count..][..res];
        count := count + res;
      }
      assert data[..|data|] == data;
      return true;
    } else {
      return false;
    }
  }

  function Concat(msgs: seq<seq<byte>>): seq<byte> {
    if msgs == [] then [] else Concat(msgs[..|msgs| - 1]) + msgs[|msgs| - 1]
  }

  lemma {:induction false} ConcatNext(msgs: seq<seq<byte>>, m: seq<byte>)
    ensures Concat(msgs + [m]) == Concat(msgs) + m
  {
    assert (msgs + [m])[..|msgs + [m]| - 1] == msgs;
  }

  /** Any number of receiving calls: the valid messages, in order, are the stream cut into whole
      messages, whatever the pieces were and however many calls found no data. */
  method ReceiveRun(conn: Connection, nbytes: nat, calls: nat) returns (received: seq<seq<byte>>)
    requires conn.pos == 0
    modifies conn`open, conn`pos
    ensures |received| <= calls && forall k :: 0 <= k < |received| ==> |received[k]| == nbytes
    ensures Concat(received) == conn.Segment(0, conn.pos)
  {
    received := [];
    var bytes := new byte[nbytes + 1](_ => 0);
    for c := 0 to calls
      invariant |received| <= c && forall k :: 0 <= k < |received| ==> |received[k]| == nbytes
      invariant Concat(received) == conn.Segment(0, conn.pos)
    {
      ghost var before := conn.pos;
      GetN(conn, bytes, nbytes);
      if bytes[nbytes] == 0 {
        var msg := bytes[..nbytes];
        conn.SegmentNext(before, nbytes);
        ConcatNext(received, msg);
        received := received + [msg];
      }
    }
  }

  /** Any number of sending calls: exactly the accepted messages are on the wire, whole and in order. */
  method SendRun(conn: Connection, msgs: seq<seq<byte>>) returns (accepted: seq<seq<byte>>)
    requires conn.sent == []
    modifies conn`open, conn`sent
    ensures |accepted| <= |msgs| && conn.sent == Concat(accepted)
  {
    accepted := [];
    for c := 0 to |msgs|
      invariant |accepted| <= c && conn.sent == Concat(accepted)
    {
      var ok := PutN(conn, msgs[c]);
      if ok {
        ConcatNext(accepted, msgs[c]);
        accepted := accepted + [msgs[c]];
      }
    }
  }
}

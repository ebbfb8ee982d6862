/** The 7-byte requests of the debug client (Toooba/src_Testbench/Top/C_Imported_Functions.c). */
module DebugRequest {
  import opened Arithmetic
  import opened Wrappers
  import opened PyText
  import opened SocketPackets

  // The DMI_STATUS constants of C_Imported_Functions.h
  const STATUS_ERR: byte := 0
  const STATUS_OK: byte := 1
  const STATUS_UNAVAIL: byte := 2

  const DATA_SIZE := 7

  /** The codes that the debug client knows. */
  lemma {:induction false} Codes()
    ensures STATUS_ERR == 0 && STATUS_OK == 1 && STATUS_UNAVAIL == 2 && DATA_SIZE == 7
  {}

  /** What `read` says: some bytes, nothing yet, or an error that is no EAGAIN. */
  datatype Outcome = Got(count: nat) | Nothing | HardError

  /** Some outcome; the peer is silent at most `patience` times in a row. */
  method ReadSome(conn: Connection, bytes: array<byte>, at: nat, n: nat, patience: nat) returns (r: Outcome)
    requires at + n <= bytes.Length && n > 0
    modifies conn`pos, bytes
    ensures r.Got? ==> 0 < r.count <= n && conn.pos == old(conn.pos) + r.count &&
                       bytes[at..at + r.count] == conn.Segment(old(conn.pos), r.count)
    ensures r.Nothing? ==> patience > 0
    ensures !r.Got? ==> conn.pos == old(conn.pos)
    ensures bytes[..at] == old(bytes[..at])
  {
    var failed: bool :| true;
    if failed {
      return HardError;
    }
    var count := conn.Read(bytes, at, n, patience == 0);
    return if count == -1 then Nothing else Got(count);
  }

  /** The result word of `c_debug_client_request_recv`: its bytes are the 7 bytes of the request and
      the status on top. `available` is what `poll` says, `None` when it fails. */
  method RequestRecv(conn: Connection, available: Option<bool>) returns (result: nat, ghost status: byte)
    modifies conn`pos
    ensures status in {STATUS_ERR, STATUS_OK, STATUS_UNAVAIL} && StatusOf(result) == status
    ensures status == STATUS_OK ==>
              && conn.pos == old(conn.pos) + DATA_SIZE
              && result == LittleEndian(conn.Segment(old(conn.pos), DATA_SIZE) + [STATUS_OK])
    ensures status == STATUS_UNAVAIL <==> available == Some(false)
    ensures status == STATUS_UNAVAIL ==> conn.pos == old(conn.pos)
    ensures status == STATUS_ERR ==> old(conn.pos) <= conn.pos < old(conn.pos) + DATA_SIZE
  {
    var pResult := new byte[8](_ => 0);
    if available.None? {
      pResult[7] := STATUS_ERR;
      result, status := Word(pResult);
      return;
    }
    if !available.value {
      pResult[7] := STATUS_UNAVAIL;
      result, status := Word(pResult);
      return;
    }
    pResult[0] := STATUS_ERR;
    var ok := ReceiveRequest(conn, pResult);
    pResult[7] := if ok then STATUS_OK else STATUS_ERR;
    if ok {
      assert pResult[..] == pResult[..7] + [STATUS_OK];
    }
    result, status := Word(pResult);
  }

  /** The loop until the 7 bytes are there, or a hard error. */
  method ReceiveRequest(conn: Connection, pResult: array<byte>) returns (ok: bool)
    requires pResult.Length == 8
    modifies conn`pos, pResult
    ensures ok ==> conn.pos == old(conn.pos) + DATA_SIZE && pResult[..7] == conn.Segment(old(conn.pos), DATA_SIZE)
    ensures !ok ==> old(conn.pos) <= conn.pos < old(conn.pos) + DATA_SIZE
  {
    var nRecd := 0;
    var patience: nat :| true;
    while nRecd < DATA_SIZE
      invariant 0 <= nRecd <= DATA_SIZE && conn.pos == old(conn.pos) + nRecd
      invariant pResult[..nRecd] == conn.Segment(old(conn.pos), nRecd)
      decreases DATA_SIZE - nRecd, patience
    {
      ghost var before := pResult[..nRecd];
      var r := ReadSome(conn, pResult, nRecd, DATA_SIZE - nRecd, patience);
      match r
      case HardError =>
        return false;
      case Got(n) =>
        assert pResult[..nRecd + n] == before + pResult[nRecd..nRecd + n];
        nRecd := nRecd + n;
        patience :| true;
      case Nothing =>
        patience := patience - 1;
    }
    return true;
  }

  /** The 8 bytes read as one 64-bit word. */
  method Word(p: array<byte>) returns (result: nat, ghost status: byte)
    requires p.Length == 8
    ensures result == LittleEndian(p[..]) && status == p[7] && StatusOf(result) == status
  {
    result := LittleEndian(p[..]);
    status := p[7];
    WordBytes(p[..]);
  }

  // ---- the two decoders ----

  function StatusOf(word: nat): nat {
    word / 0x100_0000_0000_0000
  }

  /** With shifts and masks, as the log does. */
  function ShiftDecode(word: nat): (nat, nat, nat) {
    (word % 0x100, word / 0x100 % 0x1_0000, word / 0x100_0000 % 0x1_0000_0000)
  }

  function At(b: seq<byte>, i: nat): (v: nat)
    requires i < |b|
    ensures v < 0x100
  {
    b[i]
  }

  /** Byte by byte, as the main loop does. */
  function ByteDecode(b: seq<byte>): (nat, nat, nat)
    requires |b| == 8
  {
    (At(b, 0), At(b, 2) * 0x100 + At(b, 1), ((At(b, 6) * 0x100 + At(b, 5)) * 0x100 + At(b, 4)) * 0x100 + At(b, 3))
  }

  function Addr(b: seq<byte>): nat
    requires |b| == 8
  {
    At(b, 1) + 0x100 * At(b, 2)
  }

  function Data(b: seq<byte>): nat
    requires |b| == 8
  {
    At(b, 3) + 0x100 * (At(b, 4) + 0x100 * (At(b, 5) + 0x100 * At(b, 6)))
  }

  lemma {:induction false} WordBytes(b: seq<byte>)
    requires |b| == 8
    ensures LittleEndian(b) == At(b, 0) + 0x100 * (Addr(b) + 0x1_0000 * (Data(b) + 0x1_0000_0000 * At(b, 7)))
    ensures StatusOf(LittleEndian(b)) == At(b, 7) == b[7]
  {
    assert b[0..] == b && LittleEndian(b[8..]) == 0;
    LittleEndianTail(b, 8);
    LittleEndianTail(b, 7);
    LittleEndianTail(b, 6);
    LittleEndianTail(b, 5);
    LittleEndianTail(b, 4);
    LittleEndianTail(b, 3);
    LittleEndianTail(b, 2);
    LittleEndianTail(b, 1);
    var below := At(b, 0) + 0x100 * (Addr(b) + 0x1_0000 * Data(b));
    DivModIs(LittleEndian(b), 0x100_0000_0000_0000, At(b, 7), below);
  }

  lemma {:induction false} LittleEndianTail(b: seq<byte>, n: nat)
    requires 0 < n <= |b|
    ensures LittleEndian(b[n - 1..]) == At(b, n - 1) + 0x100 * LittleEndian(b[n..])
  {
    assert b[n - 1..][0] == b[n - 1] && b[n - 1..][1..] == b[n..];
  }

  /** Both decoders read the same op, address and data from every word. */
  lemma {:induction false} DecodersAgree(b: seq<byte>)
    requires |b| == 8
    ensures ShiftDecode(LittleEndian(b)) == ByteDecode(b)
    ensures ByteDecode(b) ==
            (b[0] as nat, b[1] as nat + 0x100 * b[2] as nat,
             b[3] as nat + 0x100 * b[4] as nat + 0x1_0000 * b[5] as nat + 0x100_0000 * b[6] as nat)
  {
    WordBytes(b);
    var word, high := LittleEndian(b), Data(b) + 0x1_0000_0000 * At(b, 7);
    DivModIs(word, 0x100, Addr(b) + 0x1_0000 * high, At(b, 0));
    DivModIs(word / 0x100, 0x1_0000, high, Addr(b));
    DivModIs(word, 0x100_0000, high, At(b, 0) + 0x100 * Addr(b));
    DivModIs(high, 0x1_0000_0000, At(b, 7), Data(b));
  }
}

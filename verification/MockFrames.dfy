/** How the mock card reads a write command: it takes a full frame for a chained
    one, and tells enciphered data from plain by nothing but lengths. */
module MockFrames {
  import opened ByteStrings
  import opened Results
  import opened Framing

  const WRITE_RECORD: byte := 0x3B
  const WRITE_DATA: byte := 0x3D
  const UPDATE_RECORD: byte := 0xDB

  /** Command byte and a full chunk: the mock asks for the next frame. */
  const FULL_FRAME: nat := TX_FRAME_MAX + 1

  /** mock_write_payload: the declared length, if the rest of the frame is exactly
      that long or longer by exactly a MAC; otherwise nothing can be seen. */
  function WritePayload(tx: Bytes, header: nat, macLen: nat): (n: Option<nat>)
    requires header >= 3
    ensures n.Some? ==> 1 + header + n.value <= |tx|
  {
    if |tx| < 1 + header then None
    else
      var declared := FromU24(tx[header - 2..header + 1]);
      var present := |tx| - 1 - header;
      if present == declared || (macLen > 0 && present >= macLen && present - macLen == declared) then Some(declared)
      else None
  }

  method MeasureWrite(tx: Bytes, header: nat, macLen: nat) returns (plain: bool, dataLen: nat)
    requires header >= 3
    ensures plain <==> WritePayload(tx, header, macLen).Some?
    ensures dataLen == if plain then WritePayload(tx, header, macLen).value else 0
  {
    hide FromU24;
    if |tx| < 1 + header {
      return false, 0;
    }
    var declared := FromU24(tx[1 + header - 3..1 + header]);
    var present := |tx| - 1 - header;
    if present == declared {
      return true, declared;
    }
    if macLen > 0 && present >= macLen && present - macLen == declared {
      return true, declared;
    }
    plain, dataLen := false, 0;
  }

  /** What a WriteRecord or WriteData frame carries as far as the mock can see. */
  function Carried(tx: Bytes, macLen: nat): Option<Bytes> {
    var n := WritePayload(tx, 7, macLen);
    if n.Some? then Some(tx[8..8 + n.value]) else None
  }

  /** The header of both commands: number, offset and length. */
  function WriteHeader(fileNo: byte, offset: nat, len: nat): (h: Bytes)
    requires offset < 0x1000000 && len < 0x1000000
    ensures |h| == 7
  {
    [fileNo] + U24(offset) + U24(len)
  }

  /** What the header says is read back. */
  lemma HeaderRead(cmd: byte, fileNo: byte, offset: nat, len: nat, rest: Bytes)
    requires offset < 0x1000000 && len < 0x1000000
    ensures var tx := [cmd] + WriteHeader(fileNo, offset, len) + rest;
            && tx[0] == cmd && tx[1] == fileNo && FromU24(tx[2..5]) == offset && FromU24(tx[5..8]) == len
            && |tx| == 8 + |rest| && tx[8..] == rest
  {
    hide U24, FromU24;
    var tx := [cmd] + WriteHeader(fileNo, offset, len) + rest;
    assert tx[2..5] == U24(offset) && tx[5..8] == U24(len);
  }

  /** Behind such a header the mock takes the declared bytes exactly if the rest
      of the frame is that long, or longer by a MAC. */
  lemma CarriedBehind(cmd: byte, fileNo: byte, offset: nat, len: nat, rest: Bytes, macLen: nat)
    requires offset < 0x1000000 && len < 0x1000000
    ensures Carried([cmd] + WriteHeader(fileNo, offset, len) + rest, macLen)
         == if |rest| == len || (macLen > 0 && |rest| == len + macLen) then Some(rest[..len]) else None
  {
    hide WriteHeader, FromU24;
    var tx := [cmd] + WriteHeader(fileNo, offset, len) + rest;
    HeaderRead(cmd, fileNo, offset, len, rest);
    if |rest| >= len {
      assert tx[8..8 + len] == tx[8..][..len];
    }
  }
}

/** The request that sendHreg sends to a peer: a Modbus/TCP MBAP header
    (Modbus Messaging on TCP/IP Implementation Guide V1.0b, section 3.1.3)
    followed by a Write Single Register PDU (Modbus Application Protocol
    Specification V1.1b3, section 6.6). */
module MasterFrame {
  import opened Bytes

  const MB_FC_WRITE_REG: byte := 0x06
  const MBAP_SIZE: nat := 7
  const PDU_SIZE: nat := 5  // function code, address, value
  const FRAME_SIZE: nat := 12  // MBAP_SIZE + PDU_SIZE

  datatype Option<T> = None | Some(value: T)

  /** The decoded content of a Write Single Register request. */
  datatype WriteRequest = WriteRequest(transaction: word, unit: byte, address: word, value: word)

  /** The 12 bytes sendHreg builds in its zeroed buffer. */
  function WriteRegFrame(transaction: word, address: word, value: word): (f: seq<byte>)
    ensures |f| == FRAME_SIZE
  {
    // the length bytes are `(len + 1) >> 8` and `(len + 1) & 0xFF` with `len` = PDU_SIZE
    [Hi(transaction), Lo(transaction), 0, 0, (PDU_SIZE + 1) / 0x100, (PDU_SIZE + 1) % 0x100, 0,
     MB_FC_WRITE_REG, Hi(address), Lo(address), Hi(value), Lo(value)]
  }

  /** sendHreg's buffer: zeroed, then the PDU and the MBAP header filled in. */
  method FillWriteRegFrame(transaction: word, address: word, value: word) returns (buffer: array<byte>)
    ensures fresh(buffer)
    ensures buffer[..] == WriteRegFrame(transaction, address, value)
  {
    buffer := new byte[FRAME_SIZE](_ => 0);  // memset
    // the PDU
    buffer[MBAP_SIZE] := MB_FC_WRITE_REG;
    buffer[MBAP_SIZE + 1] := Hi(address);
    buffer[MBAP_SIZE + 2] := Lo(address);
    buffer[MBAP_SIZE + 3] := Hi(value);
    buffer[MBAP_SIZE + 4] := Lo(value);
    // the MBAP header; the length is that of the PDU plus the unit id
    buffer[0] := Hi(transaction);
    buffer[1] := Lo(transaction);
    buffer[4] := (PDU_SIZE + 1) / 0x100;
    buffer[5] := (PDU_SIZE + 1) % 0x100;
    FrameOfBytes(buffer[..], transaction, address, value);
  }

  /** The bytes of sendHreg's frame, one by one. */
  lemma FrameBytes(transaction: word, address: word, value: word)
    ensures var f := WriteRegFrame(transaction, address, value);
            && f[0] == Hi(transaction) && f[1] == Lo(transaction) && f[2] == 0 && f[3] == 0
            && f[4] == 0 && f[5] == 6 && f[6] == 0 && f[7] == MB_FC_WRITE_REG
            && f[8] == Hi(address) && f[9] == Lo(address) && f[10] == Hi(value) && f[11] == Lo(value)
  {
  }

  /** A 12-byte sequence holding the frame's bytes one by one is the frame. */
  lemma FrameOfBytes(f: seq<byte>, transaction: word, address: word, value: word)
    requires |f| == FRAME_SIZE
    requires f[0] == Hi(transaction) && f[1] == Lo(transaction) && f[2] == 0 && f[3] == 0
    requires f[4] == 0 && f[5] == 6 && f[6] == 0 && f[7] == MB_FC_WRITE_REG
    requires f[8] == Hi(address) && f[9] == Lo(address) && f[10] == Hi(value) && f[11] == Lo(value)
    ensures f == WriteRegFrame(transaction, address, value)
  {
    FrameBytes(transaction, address, value);
    SameBytes(f, WriteRegFrame(transaction, address, value));
  }

  /** A reference reader for a complete Write Single Register request over
      Modbus/TCP: protocol id 0, a length field matching the frame, function
      code 0x06. */
  function ParseWriteReg(f: seq<byte>): (r: Option<WriteRequest>)
    ensures r.Some? ==> |f| == FRAME_SIZE && f[7] == MB_FC_WRITE_REG
  {
    if |f| == FRAME_SIZE && WordOf(f[2], f[3]) == 0 && WordOf(f[4], f[5]) == |f| - 6
       && f[7] == MB_FC_WRITE_REG
    then Some(WriteRequest(WordOf(f[0], f[1]), f[6], WordOf(f[8], f[9]), WordOf(f[10], f[11])))
    else None
  }

  /** sendHreg's frame reads back as the request it was built from,
      addressed to unit 0. */
  lemma ParseWriteRegFrame(transaction: word, address: word, value: word)
    ensures ParseWriteReg(WriteRegFrame(transaction, address, value)) == Some(WriteRequest(transaction, 0, address, value))
  {
    FrameHeaderFields(transaction, address, value);
    FrameWordFields(transaction, address, value);
    ParseFields(WriteRegFrame(transaction, address, value), transaction, address, value);
  }

  /** The constant fields of sendHreg's frame: protocol id 0, a length
      field that counts every byte after it (the unit id and the PDU),
      unit 0, and function code 0x06. */
  lemma FrameHeaderFields(transaction: word, address: word, value: word)
    ensures var f := WriteRegFrame(transaction, address, value);
            && WordOf(f[2], f[3]) == 0
            && WordOf(f[4], f[5]) == |f| - 6
            && f[6] == 0 && f[7] == MB_FC_WRITE_REG
  {
  }

  /** The three variable fields of sendHreg's frame, read back as words. */
  lemma FrameWordFields(transaction: word, address: word, value: word)
    ensures var f := WriteRegFrame(transaction, address, value);
            WordOf(f[0], f[1]) == transaction && WordOf(f[8], f[9]) == address && WordOf(f[10], f[11]) == value
  {
    SplitJoin(transaction);
    SplitJoin(address);
    SplitJoin(value);
  }

  /** A frame whose fields read as those of a request to unit 0 parses to it. */
  lemma ParseFields(f: seq<byte>, transaction: word, address: word, value: word)
    requires |f| == FRAME_SIZE && f[6] == 0 && f[7] == MB_FC_WRITE_REG
    requires WordOf(f[0], f[1]) == transaction && WordOf(f[2], f[3]) == 0 && WordOf(f[4], f[5]) == |f| - 6
    requires WordOf(f[8], f[9]) == address && WordOf(f[10], f[11]) == value
    ensures ParseWriteReg(f) == Some(WriteRequest(transaction, 0, address, value))
  {
  }

  /** Conversely, every well-formed Write Single Register request to unit 0
      is the frame sendHreg builds for its transaction, address and value. */
  lemma WriteRegFrameOfParse(f: seq<byte>)
    requires ParseWriteReg(f).Some? && ParseWriteReg(f).value.unit == 0
    ensures var q := ParseWriteReg(f).value;
            f == WriteRegFrame(q.transaction, q.address, q.value)
  {
    var q := ParseWriteReg(f).value;
    var g := WriteRegFrame(q.transaction, q.address, q.value);
    ParseWriteRegFrame(q.transaction, q.address, q.value);
    assert ParseWriteReg(g) == ParseWriteReg(f);
    JoinInjective(f[0], f[1], g[0], g[1]);
    JoinInjective(f[2], f[3], g[2], g[3]);
    JoinInjective(f[4], f[5], g[4], g[5]);
    JoinInjective(f[8], f[9], g[8], g[9]);
    JoinInjective(f[10], f[11], g[10], g[11]);
    assert f[6] == g[6] && f[7] == g[7];
    SameBytes(f, g);
  }

  /** Two frames that agree byte by byte are equal. */
  lemma SameBytes(f: seq<byte>, g: seq<byte>)
    requires |f| == 12 && |g| == 12
    requires f[0] == g[0] && f[1] == g[1] && f[2] == g[2] && f[3] == g[3] && f[4] == g[4] && f[5] == g[5]
    requires f[6] == g[6] && f[7] == g[7] && f[8] == g[8] && f[9] == g[9] && f[10] == g[10] && f[11] == g[11]
    ensures f == g
  {
  }

  /** The transaction id after a send: incremented, wrapping at 16 bits. */
  function NextTransaction(t: word): (n: word)
    ensures n != t
    ensures t < 0xFFFF ==> n == t + 1
    ensures t == 0xFFFF ==> n == 0
  {
    (t + 1) % 0x1_0000
  }
}

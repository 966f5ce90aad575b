/**
 What the virtual Bluetooth peer answers to each request, byte by byte: requests, responses and packets are
 written out, whatever follows them.
 */
module GattAnswers {
  import opened Wrappers
  import opened Bytes
  import opened GattServer

  // ---------------------------------------------------------------------------------------------
  // Packets
  // ---------------------------------------------------------------------------------------------

  /** A packet for a PDU: handle with the packet boundary flag, both lengths, channel 4 and the PDU. */
  lemma PacketBytes(low: u8, high: u8, n0: u8, n1: u8, att: seq<u8>)
    requires high < 0x10 && |att| == n0 as int + 0x100 * n1 as int <= 65_531
    ensures var total := |att| + 4;
            SendAtt(low + 0x100 * high, att)
            == Some([low, high + 0x20, total % 0x100, total / 0x100, n0, n1, 4, 0] + att)
  {
    var handle: u16 := low + 0x100 * high;
    var total: u16 := |att| + 4;
    assert Le16(Flagged(handle)) == [low, high + 0x20];
    assert Le16(total) == [total % 0x100, total / 0x100] && Le16(|att|) == [n0, n1] && Le16(4) == [4, 0];
    assert [low, high + 0x20] + [total % 0x100, total / 0x100] + [n0, n1] + [4, 0]
        == [low, high + 0x20, total % 0x100, total / 0x100, n0, n1, 4, 0];
  }

  /** A packet as it arrives: its flags and both lengths may be anything that leaves the PDU whole. */
  lemma PacketIsReceived(low: u8, high: u8, t0: u8, t1: u8, n0: u8, n1: u8, c0: u8, c1: u8, rest: seq<u8>)
    ensures var total, n := t0 as int + 0x100 * t1 as int, n0 as int + 0x100 * n1 as int;
            ReceiveAcl([low, high, t0, t1, n0, n1, c0, c1] + rest)
            == if total <= |rest| + 4 && n <= |rest| && c0 == 4 && c1 == 0
               then Some(Request(low + 0x100 * (high % 0x10), rest[..n])) else None
  {
    var packet := [low, high, t0, t1, n0, n1, c0, c1] + rest;
    var n := n0 as int + 0x100 * n1 as int;
    assert n <= |rest| ==> packet[8..8 + n] == rest[..n];
  }

  // ---------------------------------------------------------------------------------------------
  // Requests
  // ---------------------------------------------------------------------------------------------

  /** An error response. */
  function Error(opcode: u8, low: u8, high: u8, code: u8): Option<seq<u8>> {
    Some([0x01, opcode, low, high, code])
  }

  lemma ErrorBytes(opcode: u8, low: u8, high: u8, code: u8)
    ensures AttError(opcode, low + 0x100 * high, code) == [0x01, opcode, low, high, code]
  {
    assert Le16(low + 0x100 * high) == [low, high];
  }

  /** The exchange of the MTU is answered with 247, whatever the client proposes. */
  lemma ExchangeMtu(name: seq<u8>, a: u8, b: u8, more: seq<u8>)
    ensures GattResponse(name, [0x02, a, b] + more) == Some([0x03, 247, 0])
  {
    assert [0x03] + Le16(247) == [0x03, 247, 0];
  }

  /** Reading handle 3 gives the name as far as it fits, and every other handle is not found. */
  lemma ReadName(name: seq<u8>, low: u8, high: u8, more: seq<u8>)
    ensures GattResponse(name, [0x0A, low, high] + more)
         == if low != 3 || high != 0 then Error(0x0A, low, high, 0x0A)
            else if |name| <= 246 then Some([0x0B] + name) else Some([0x0B] + name[..246])
  {
    ErrorBytes(0x0A, low, high, 0x0A);
    assert |name| <= 246 ==> ([0x0B] + name)[..|name| + 1] == [0x0B] + name;
    assert |name| > 246 ==> ([0x0B] + name)[..247] == [0x0B] + name[..246];
  }

  /** Find Information from a handle on; the ending handle does not count. */
  lemma FindInformationBytes(name: seq<u8>, low: u8, high: u8, e0: u8, e1: u8, more: seq<u8>)
    ensures GattResponse(name, [0x04, low, high, e0, e1] + more)
         == if high > 0 || low > 3 then Error(0x04, low, high, 0x0A)
            else if low == 3 then Some([0x05, 0x01, 3, 0, 0x00, 0x2A])
            else if low == 2 then Some([0x05, 0x01, 2, 0, 0x03, 0x28, 3, 0, 0x00, 0x2A])
            else Some([0x05, 0x01, 1, 0, 0x00, 0x28, 2, 0, 0x03, 0x28, 3, 0, 0x00, 0x2A])
  {
    ErrorBytes(0x04, low, high, 0x0A);
    if high == 0 && low <= 3 {
      ListBytes(low);
    }
  }

  lemma ListBytes(start: u16)
    requires start <= 3
    ensures [0x05, 0x01] + Pair(1, PRIMARY_SERVICE, start) + Pair(2, CHARACTERISTIC, start)
              + Pair(3, DEVICE_NAME, start)
         == if start == 3 then [0x05, 0x01, 3, 0, 0x00, 0x2A]
            else if start == 2 then [0x05, 0x01, 2, 0, 0x03, 0x28, 3, 0, 0x00, 0x2A]
            else [0x05, 0x01, 1, 0, 0x00, 0x28, 2, 0, 0x03, 0x28, 3, 0, 0x00, 0x2A]
  {
    PairBytes();
    var a, b, c: seq<u8> := [1, 0, 0x00, 0x28], [2, 0, 0x03, 0x28], [3, 0, 0x00, 0x2A];
    assert [0x05, 0x01] + a + b + c == [0x05, 0x01, 1, 0, 0x00, 0x28, 2, 0, 0x03, 0x28, 3, 0, 0x00, 0x2A];
    assert [0x05, 0x01] + [] + b + c == [0x05, 0x01, 2, 0, 0x03, 0x28, 3, 0, 0x00, 0x2A];
    assert [0x05, 0x01] + [] + [] + c == [0x05, 0x01, 3, 0, 0x00, 0x2A];
  }

  lemma PairBytes()
    ensures Le16(1) + Le16(PRIMARY_SERVICE) == [1, 0, 0x00, 0x28]
    ensures Le16(2) + Le16(CHARACTERISTIC) == [2, 0, 0x03, 0x28]
    ensures Le16(3) + Le16(DEVICE_NAME) == [3, 0, 0x00, 0x2A]
  {
  }

  /** Read By Type finds the service up to handle 1 and the characteristic up to handle 2. */
  lemma ReadByTypeBytes(name: seq<u8>, low: u8, high: u8, e0: u8, e1: u8, k0: u8, k1: u8, more: seq<u8>)
    ensures GattResponse(name, [0x08, low, high, e0, e1, k0, k1] + more)
         == if k0 == 0x00 && k1 == 0x28 && high == 0 && low <= 1 then Some([0x09, 6, 1, 0, 3, 0, 0x00, 0x18])
            else if k0 == 0x03 && k1 == 0x28 && high == 0 && low <= 2
            then Some([0x09, 7, 2, 0, 0x02, 3, 0, 0x00, 0x2A])
            else Error(0x08, low, high, 0x0A)
  {
    ErrorBytes(0x08, low, high, 0x0A);
  }

  /** Read By Group Type finds the service up to handle 1. */
  lemma ReadByGroupTypeBytes(name: seq<u8>, low: u8, high: u8, e0: u8, e1: u8, k0: u8, k1: u8, more: seq<u8>)
    ensures GattResponse(name, [0x10, low, high, e0, e1, k0, k1] + more)
         == if k0 == 0x00 && k1 == 0x28 && high == 0 && low <= 1 then Some([0x11, 6, 1, 0, 3, 0, 0x00, 0x18])
            else Error(0x10, low, high, 0x0A)
  {
    ErrorBytes(0x10, low, high, 0x0A);
  }

  /** Writing is refused; commands and confirmations have no response, and neither has an empty PDU. */
  lemma WritesAndCommands(name: seq<u8>, low: u8, high: u8, more: seq<u8>)
    ensures GattResponse(name, [0x12, low, high] + more) == Error(0x12, low, high, 0x03)
    ensures GattResponse(name, [0x52] + more) == None && GattResponse(name, [0x1E] + more) == None
    ensures GattResponse(name, []) == None
  {
    ErrorBytes(0x12, low, high, 0x03);
  }

  /** How many bytes a known request needs at least. */
  predicate IsShort(opcode: u8, length: nat) {
    || (opcode in {0x02, 0x0A, 0x12} && length < 3) || (opcode == 0x04 && length < 5)
    || (opcode in {0x08, 0x10} && length < 7)
  }

  /** Everything else, and every request that is too short, is not supported. */
  lemma OtherRequests(name: seq<u8>, opcode: u8, more: seq<u8>)
    requires opcode !in {0x02, 0x04, 0x08, 0x0A, 0x10, 0x12, 0x52, 0x1E} || IsShort(opcode, 1 + |more|)
    ensures GattResponse(name, [opcode] + more) == Error(opcode, 0, 0, 0x06)
  {
    ErrorBytes(opcode, 0, 0, 0x06);
  }
}

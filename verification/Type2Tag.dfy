/**
 The emulated Type 2 tag: a memory of four-byte pages that holds one NDEF message in a TLV
 (NFC Forum Type 2 Tag 1.1, section 2.3), and the commands that read and write pages.
 */
module Type2Tag {
  import opened Wrappers
  import opened Bytes

  const MEMORY_BYTES := 1024
  const DATA_AREA := 16
  const NDEF_TAG: u8 := 0x03
  const TERMINATOR: u8 := 0xFE

  /** Serial number, lock bytes and the capability container, which announces 0x7E * 8 bytes of data. */
  const HEADER: seq<u8> := [
    0x04, 0x48, 0x44, 0x08, 0x02, 0x11, 0x22, 0x33, 0x44, 0x55, 0x66, 0x77, 0xE1, 0x10, 0x7E, 0x00]

  /** One byte, or 0xFF and two bytes for longer messages. */
  function LengthField(length: u16): seq<u8> {
    if length < 0xFF then [length] else [0xFF, length / 0x100, length % 0x100]
  }

  function Zeros(n: nat): (z: seq<u8>)
    ensures |z| == n
  {
    seq(n, _ => 0)
  }

  /** The part of the memory that is not zero. */
  function Image(ndef: seq<u8>): seq<u8>
    requires |ndef| <= 0xFFFF
  {
    HEADER + [NDEF_TAG] + LengthField(|ndef|) + ndef + [TERMINATOR]
  }

  /** A memory of which only a front part has been filled. */
  function Padded(front: seq<u8>): seq<u8>
    requires |front| <= MEMORY_BYTES
  {
    front + Zeros(MEMORY_BYTES - |front|)
  }

  method BuildMemory(ndef: seq<u8>) returns (built: bool, memory: array<u8>)
    ensures fresh(memory) && memory.Length == MEMORY_BYTES
    ensures built <==> |ndef| <= 1003
    ensures built ==> |Image(ndef)| <= MEMORY_BYTES && memory[..] == Padded(Image(ndef))
  {
    memory := new u8[MEMORY_BYTES](_ => 0);
    var cursor := Fill(memory, [], HEADER, 0);
    cursor := Fill(memory, HEADER, [NDEF_TAG], cursor);
    ghost var front := HEADER + [NDEF_TAG];
    if |ndef| < 0xFF {
      cursor := Fill(memory, front, [|ndef|], cursor);
    } else {
      if |ndef| / 0x100 > 0xFF {
        return false, memory;
      }
      cursor := Fill(memory, front, [0xFF, |ndef| / 0x100, |ndef| % 0x100], cursor);
    }
    if cursor + |ndef| >= MEMORY_BYTES {
      return false, memory;
    }
    front := front + LengthField(|ndef|);
    cursor := Fill(memory, front, ndef, cursor);
    cursor := Fill(memory, front + ndef, [TERMINATOR], cursor);
    built := true;
  }

  /** Copies bytes behind what has been filled and moves the cursor behind them. */
  method Fill(memory: array<u8>, ghost front: seq<u8>, bytes: seq<u8>, at: nat) returns (cursor: nat)
    requires memory.Length == MEMORY_BYTES && at == |front| && |front| + |bytes| <= MEMORY_BYTES
    requires memory[..] == Padded(front)
    modifies memory
    ensures memory[..] == Padded(front + bytes) && cursor == |front + bytes|
  {
    for i := 0 to |bytes|
      invariant memory[..] == Padded(front + bytes[..i])
    {
      memory[at + i] := bytes[i];
      assert bytes[..i + 1] == bytes[..i] + [bytes[i]];
    }
    assert bytes[..|bytes|] == bytes;
    cursor := at + |bytes|;
  }

  // ---------------------------------------------------------------------------------------------
  // Commands
  // ---------------------------------------------------------------------------------------------

  function Offset(page: u8): nat {
    var p: int := page;
    4 * p
  }

  /** Reading stops at the end of the memory; reading behind it is refused. */
  function ReadPages(memory: seq<u8>, offset: nat, length: nat): seq<u8> {
    if offset >= |memory| then [0x00] else memory[offset..Min(offset + length, |memory|)]
  }

  /** The page and bytes of a write that is carried out; the first four pages are read-only. */
  datatype Write = Write(page: u8, bytes: seq<u8>)

  function Writing(command: seq<u8>, size: nat): (w: Option<Write>)
    ensures w.Some? ==> |w.value.bytes| == 4 && 16 <= Offset(w.value.page) && Offset(w.value.page) + 4 <= size
  {
    if |command| >= 6 && command[0] == 0xA2 && 16 <= Offset(command[1]) && Offset(command[1]) + 4 <= size
    then Some(Write(command[1], command[2..6]))
    else None
  }

  function Reply(memory: seq<u8>, command: seq<u8>): seq<u8> {
    if |command| >= 2 && command[0] == 0x30 then ReadPages(memory, Offset(command[1]), 16)
    else if |command| >= 3 && command[0] == 0x3A && command[1] <= command[2] then
      ReadPages(memory, Offset(command[1]), Offset(command[2]) - Offset(command[1]) + 4)
    else if |command| >= 6 && command[0] == 0xA2 then
      if Writing(command, |memory|).Some? then [0x0A] else [0x00]
    else if |command| >= 1 && command[0] == 0x60 then [0x00, 0x04, 0x04, 0x02, 0x01, 0x00, 0x13, 0x03]
    else if |command| >= 1 && command[0] == 0x3C then Zeros(32)
    else [0x00]
  }

  function Written(memory: seq<u8>, command: seq<u8>): (m: seq<u8>)
    ensures |m| == |memory|
  {
    match Writing(command, |memory|)
    case None => memory
    case Some(w) => memory[..Offset(w.page)] + w.bytes + memory[Offset(w.page) + 4..]
  }

  method HandleCommand(memory: array<u8>, command: seq<u8>) returns (reply: seq<u8>)
    modifies memory
    ensures reply == Reply(old(memory[..]), command) && memory[..] == Written(old(memory[..]), command)
  {
    if |command| >= 2 && command[0] == 0x30 {
      return ReadPages(memory[..], Offset(command[1]), 16);
    }
    if |command| >= 3 && command[0] == 0x3A && command[1] <= command[2] {
      return ReadPages(memory[..], Offset(command[1]), Offset(command[2]) - Offset(command[1]) + 4);
    }
    if |command| >= 6 && command[0] == 0xA2 {
      var offset := Offset(command[1]);
      if offset < 16 || offset + 4 > memory.Length {
        return [0x00];
      }
      memory[offset], memory[offset + 1] := command[2], command[3];
      memory[offset + 2], memory[offset + 3] := command[4], command[5];
      return [0x0A];
    }
    if |command| >= 1 && command[0] == 0x60 {
      return [0x00, 0x04, 0x04, 0x02, 0x01, 0x00, 0x13, 0x03];
    }
    if |command| >= 1 && command[0] == 0x3C {
      return Zeros(32);
    }
    reply := [0x00];
  }

  /** A write is acknowledged exactly when it is carried out, and nothing else is answered that way. */
  lemma AcknowledgedExactly(memory: seq<u8>, command: seq<u8>)
    requires |memory| == MEMORY_BYTES
    ensures Reply(memory, command) == [0x0A] <==> Writing(command, MEMORY_BYTES).Some?
    ensures Reply(memory, command) != [0x0A] ==> Written(memory, command) == memory
  {
    if |command| >= 2 && command[0] == 0x30 {
      assert |Reply(memory, command)| >= 4;
    } else if |command| >= 3 && command[0] == 0x3A && command[1] <= command[2] {
      assert |Reply(memory, command)| >= 4;
    }
  }

  function Pages(memory: seq<u8>, first: nat, last: nat): seq<u8>
    requires |memory| == MEMORY_BYTES && first <= last + 1 && last < 256
    decreases last + 1 - first
  {
    if first > last then [] else Page(memory, first) + Pages(memory, first + 1, last)
  }

  lemma {:induction false} PagesAreContiguous(memory: seq<u8>, first: nat, last: nat)
    requires |memory| == MEMORY_BYTES && first <= last + 1 && last < 256
    ensures Pages(memory, first, last) == memory[4 * first..4 * last + 4]
    decreases last + 1 - first
  {
    if first <= last {
      PagesAreContiguous(memory, first + 1, last);
    }
  }

  /** A fast read gives the pages it names, first and last included. */
  lemma FastReadGivesPages(memory: seq<u8>, first: u8, last: u8)
    requires |memory| == MEMORY_BYTES && first <= last
    ensures Reply(memory, [0x3A, first, last]) == Pages(memory, first, last)
  {
    PagesAreContiguous(memory, first, last);
  }

  // ---------------------------------------------------------------------------------------------
  // Runs
  // ---------------------------------------------------------------------------------------------

  function AfterCommands(memory: seq<u8>, commands: seq<seq<u8>>): (m: seq<u8>)
    ensures |m| == |memory|
    decreases |commands|
  {
    if commands == [] then memory
    else
      var last := |commands| - 1;
      Written(AfterCommands(memory, commands[..last]), commands[last])
  }

  function Page(memory: seq<u8>, page: u8): seq<u8>
    requires |memory| == MEMORY_BYTES
  {
    memory[Offset(page)..Offset(page) + 4]
  }

  /** What the last write to a page stored, if there was one. */
  function LastWritten(commands: seq<seq<u8>>, page: u8): Option<seq<u8>> {
    if commands == [] then None
    else
      var last := |commands| - 1;
      match Writing(commands[last], MEMORY_BYTES)
      case Some(Write(p, bytes)) => if p == page then Some(bytes) else LastWritten(commands[..last], page)
      case None => LastWritten(commands[..last], page)
  }

  lemma WriteChangesOnePage(memory: seq<u8>, command: seq<u8>, page: u8)
    requires |memory| == MEMORY_BYTES
    ensures Page(Written(memory, command), page)
         == match Writing(command, MEMORY_BYTES)
            case Some(Write(p, bytes)) => if p == page then bytes else Page(memory, page)
            case None => Page(memory, page)
  {
    match Writing(command, MEMORY_BYTES)
    case None =>
    case Some(Write(p, bytes)) =>
      var after, at := Written(memory, command), Offset(p);
      assert forall i :: 0 <= i < MEMORY_BYTES ==> after[i] == if at <= i < at + 4 then bytes[i - at] else memory[i];
      assert Page(after, page) == if p == page then bytes else Page(memory, page);
  }

  /** After every run of commands a page holds what was last written to it, or what it held before. */
  lemma {:induction false} PagesHoldLastWrite(memory: seq<u8>, commands: seq<seq<u8>>, page: u8)
    requires |memory| == MEMORY_BYTES
    ensures Page(AfterCommands(memory, commands), page)
         == match LastWritten(commands, page)
            case Some(bytes) => bytes
            case None => Page(memory, page)
    decreases |commands|
  {
    if commands != [] {
      var last := |commands| - 1;
      PagesHoldLastWrite(memory, commands[..last], page);
      WriteChangesOnePage(AfterCommands(memory, commands[..last]), commands[last], page);
    }
  }

  /** No run of commands changes the serial number, the lock bytes or the capability container. */
  lemma {:induction false} HeaderIsReadOnly(memory: seq<u8>, commands: seq<seq<u8>>)
    requires |memory| == MEMORY_BYTES
    ensures AfterCommands(memory, commands)[..DATA_AREA] == memory[..DATA_AREA]
    decreases |commands|
  {
    if commands != [] {
      HeaderIsReadOnly(memory, commands[..|commands| - 1]);
    }
  }

  // ---------------------------------------------------------------------------------------------
  // A reader
  // ---------------------------------------------------------------------------------------------

  function Read(page: u8): seq<u8> {
    [0x30, page]
  }

  /** The replies to READ commands for every fourth page from one on. */
  function ReadFrom(memory: seq<u8>, page: nat): seq<u8>
    decreases 256 - page
  {
    if page >= 256 then [] else Reply(memory, Read(page)) + ReadFrom(memory, page + 4)
  }

  lemma FourPages(memory: seq<u8>, page: nat)
    requires |memory| == MEMORY_BYTES && page < 256 && page % 4 == 0
    ensures memory[4 * page..] == Reply(memory, Read(page)) + memory[4 * (page + 4)..]
  {
    assert Reply(memory, Read(page)) == memory[4 * page..4 * page + 16];
  }

  lemma {:induction false} ReadsWholeMemory(memory: seq<u8>, page: nat)
    requires |memory| == MEMORY_BYTES && page <= 256 && page % 4 == 0
    ensures ReadFrom(memory, page) == memory[4 * page..]
    decreases 256 - page
  {
    if page < 256 {
      FourPages(memory, page);
      ReadsWholeMemory(memory, page + 4);
    }
  }

  datatype Tlv = Tlv(tag: u8, value: seq<u8>)

  /** The TLVs of a data area up to its terminator; None if it is cut off. */
  function Tlvs(memory: seq<u8>, at: nat): Option<seq<Tlv>>
    decreases |memory| - at
  {
    if at >= |memory| then None
    else if memory[at] == TERMINATOR then Some([])
    else if memory[at] == 0x00 then Tlvs(memory, at + 1)
    else if at + 1 >= |memory| then None
    else if memory[at + 1] < 0xFF then TlvOf(memory, at, at + 2, memory[at + 1])
    else if at + 4 > |memory| then None
    else
      var high: int, low: int := memory[at + 2], memory[at + 3];
      TlvOf(memory, at, at + 4, 0x100 * high + low)
  }

  function TlvOf(memory: seq<u8>, at: nat, value: nat, length: nat): Option<seq<Tlv>>
    requires at < value && at < |memory|
    decreases |memory| - at, 0
  {
    if value + length > |memory| then None
    else
      match Tlvs(memory, value + length)
      case None => None
      case Some(more) => Some([Tlv(memory[at], memory[value..value + length])] + more)
  }

  lemma ImageFields(ndef: seq<u8>)
    requires |ndef| <= 1003
    ensures var m := Padded(Image(ndef));
            var value := DATA_AREA + 1 + |LengthField(|ndef|)|;
            && |m| == MEMORY_BYTES && m[DATA_AREA] == NDEF_TAG
            && m[DATA_AREA + 1..value] == LengthField(|ndef|)
            && value + |ndef| < MEMORY_BYTES && m[value..value + |ndef|] == ndef && m[value + |ndef|] == TERMINATOR
  {
    var m, field := Padded(Image(ndef)), LengthField(|ndef|);
    var value := DATA_AREA + 1 + |field|;
    assert m == (HEADER + [NDEF_TAG]) + field + (ndef + [TERMINATOR] + Zeros(MEMORY_BYTES - |Image(ndef)|));
    assert m == (HEADER + [NDEF_TAG] + field) + ndef + ([TERMINATOR] + Zeros(MEMORY_BYTES - |Image(ndef)|));
    Middle(HEADER + [NDEF_TAG], field, ndef + [TERMINATOR] + Zeros(MEMORY_BYTES - |Image(ndef)|));
    Middle(HEADER + [NDEF_TAG] + field, ndef, [TERMINATOR] + Zeros(MEMORY_BYTES - |Image(ndef)|));
  }

  lemma LengthBytes(ndef: seq<u8>)
    requires |ndef| <= 1003
    ensures var m, field := Padded(Image(ndef)), LengthField(|ndef|);
            m[DATA_AREA + 1] == field[0]
            && (|ndef| >= 0xFF ==> m[DATA_AREA + 2] == field[1] && m[DATA_AREA + 3] == field[2])
  {
    ImageFields(ndef);
    var m, field := Padded(Image(ndef)), LengthField(|ndef|);
    var inside := m[DATA_AREA + 1..DATA_AREA + 1 + |field|];
    assert inside == field && m[DATA_AREA + 1] == inside[0];
    assert |ndef| >= 0xFF ==> m[DATA_AREA + 2] == inside[1] && m[DATA_AREA + 3] == inside[2];
  }

  lemma ImageIsOneTlv(ndef: seq<u8>)
    requires |ndef| <= 1003
    ensures Tlvs(Padded(Image(ndef)), DATA_AREA) == Some([Tlv(NDEF_TAG, ndef)])
  {
    ImageFields(ndef);
    LengthBytes(ndef);
    var m, value := Padded(Image(ndef)), DATA_AREA + 1 + |LengthField(|ndef|)|;
    assert Tlvs(m, value + |ndef|) == Some([]);
    assert [Tlv(NDEF_TAG, ndef)] + [] == [Tlv(NDEF_TAG, ndef)];
    assert TlvOf(m, DATA_AREA, value, |ndef|) == Some([Tlv(NDEF_TAG, ndef)]);
  }

  /**
   Reading the pages of a freshly built tag and parsing them gives its message, whole and alone, in
   front of a terminator.
   */
  lemma NdefReadsBack(ndef: seq<u8>, memory: seq<u8>)
    requires |ndef| <= 1003 && |Image(ndef)| <= MEMORY_BYTES && memory == Padded(Image(ndef))
    ensures Tlvs(ReadFrom(memory, 0), DATA_AREA) == Some([Tlv(NDEF_TAG, ndef)])
  {
    ReadsWholeMemory(memory, 0);
    assert memory[0..] == memory;
    ImageIsOneTlv(ndef);
  }

  // ---------------------------------------------------------------------------------------------
  // Commands and memory, byte by byte
  // ---------------------------------------------------------------------------------------------

  /** A read gives sixteen bytes, or what is left of the memory. */
  lemma ReadBytes(memory: seq<u8>, page: u8, more: seq<u8>)
    requires |memory| == 1024
    ensures Reply(memory, [0x30, page] + more) == memory[4 * page as int..Min(4 * page as int + 16, 1024)]
    ensures Written(memory, [0x30, page] + more) == memory
  {
  }

  /** A fast read gives the pages it names, and nothing if they are the wrong way round. */
  lemma FastReadBytes(memory: seq<u8>, first: u8, last: u8, more: seq<u8>)
    requires |memory| == 1024
    ensures Reply(memory, [0x3A, first, last] + more)
         == if first <= last then memory[4 * first as int..4 * last as int + 4] else [0x00]
    ensures Written(memory, [0x3A, first, last] + more) == memory
  {
  }

  /** A write stores its four bytes in every page but the first four. */
  lemma WriteBytes(memory: seq<u8>, page: u8, a: u8, b: u8, c: u8, d: u8, more: seq<u8>)
    requires |memory| == 1024
    ensures var command, at := [0xA2, page, a, b, c, d] + more, 4 * page as int;
            if page < 4 then Reply(memory, command) == [0x00] && Written(memory, command) == memory
            else Reply(memory, command) == [0x0A]
                 && Written(memory, command) == memory[..at] + [a, b, c, d] + memory[at + 4..]
  {
    assert ([0xA2, page, a, b, c, d] + more)[2..6] == [a, b, c, d];
  }

  /** Version and signature are constant; what is none of these commands, or too short for it, is refused. */
  lemma OtherCommands(memory: seq<u8>, more: seq<u8>)
    requires |memory| == 1024
    ensures Reply(memory, [0x60] + more) == [0x00, 0x04, 0x04, 0x02, 0x01, 0x00, 0x13, 0x03]
    ensures |Reply(memory, [0x3C] + more)| == 32 && forall b <- Reply(memory, [0x3C] + more) :: b == 0
    ensures |more| < 1 ==> Reply(memory, [0x30] + more) == [0x00]
    ensures |more| < 2 ==> Reply(memory, [0x3A] + more) == [0x00]
    ensures |more| < 5 ==> Reply(memory, [0xA2] + more) == [0x00] && Written(memory, [0xA2] + more) == memory
    ensures Reply(memory, []) == [0x00]
    ensures forall code: u8 :: code !in {0x30, 0x3A, 0xA2, 0x60, 0x3C} ==> Reply(memory, [code] + more) == [0x00]
  {
  }

  /** The memory of a fresh tag up to its zeros: serial number, lock bytes, container, tag, length, message, end. */
  lemma ImageBytes(ndef: seq<u8>)
    requires |ndef| <= 1003
    ensures var header := [0x04, 0x48, 0x44, 0x08, 0x02, 0x11, 0x22, 0x33, 0x44, 0x55, 0x66, 0x77,
                           0xE1, 0x10, 0x7E, 0x00];
            var length := if |ndef| < 255 then [|ndef|] else [0xFF, |ndef| / 256, |ndef| % 256];
            Image(ndef) == header + [0x03] + length + ndef + [0xFE]
  {
  }
}

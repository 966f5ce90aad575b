/**
 The emulated Type 4 tag: a capability container and an NDEF file, selected by identifier and read in
 pieces (ISO/IEC 7816-4 SELECT and READ BINARY).
 */
module Type4Tag {
  import opened Wrappers
  import opened Bytes

  datatype File = CapabilityContainer | NdefFile

  const SELECT_NAME: seq<u8> := [0x00, 0xA4, 0x04, 0x00]
  const SELECT_FILE: seq<u8> := [0x00, 0xA4, 0x00, 0x0C]
  const READ_BINARY: seq<u8> := [0x00, 0xB0]

  const OK: seq<u8> := [0x90, 0x00]
  const FILE_NOT_FOUND: seq<u8> := [0x6A, 0x82]
  const NOTHING_SELECTED: seq<u8> := [0x69, 0x86]
  const WRONG_OFFSET: seq<u8> := [0x6B, 0x00]
  const NOT_SUPPORTED: seq<u8> := [0x6D, 0x00]

  /** A 16-bit big-endian field; what does not fit becomes the largest value. */
  function Be16(n: nat): (b: seq<u8>)
    ensures |b| == 2
  {
    var v := Min(n, 0xFFFF);
    [v / 0x100, v % 0x100]
  }

  function U16Be(high: u8, low: u8): u16 {
    var h: int, l: int := high, low;
    0x100 * h + l
  }

  lemma Be16ReadsBack(n: nat)
    ensures U16Be(Be16(n)[0], Be16(n)[1]) == Min(n, 0xFFFF)
  {
  }

  function Container(length: nat): (c: seq<u8>)
    ensures |c| == 15
  {
    [0x00, 0x0F, 0x20, 0x00, 0xFF, 0x00, 0xFF, 0x04, 0x06, 0xE1, 0x04] + Be16(length + 2) + [0x00, 0xFF]
  }

  function Contents(file: File, ndef: seq<u8>): seq<u8> {
    match file
    case CapabilityContainer => Container(|ndef|)
    case NdefFile => Be16(|ndef|) + ndef
  }

  /**
   The container announces its own length, and its maximum file size is the length of the NDEF file
   exactly up to messages of 65533 bytes.
   */
  lemma ContainerDescribesFile(ndef: seq<u8>)
    ensures var c := Container(|ndef|);
            && U16Be(c[0], c[1]) == |c|
            && (U16Be(c[11], c[12]) == |Contents(NdefFile, ndef)| <==> |ndef| <= 65_533)
  {
    var c := Container(|ndef|);
    assert c[11] == Be16(|ndef| + 2)[0] && c[12] == Be16(|ndef| + 2)[1];
    Be16ReadsBack(|ndef| + 2);
  }

  // ---------------------------------------------------------------------------------------------
  // Commands
  // ---------------------------------------------------------------------------------------------

  datatype Outcome = Outcome(selected: Option<File>, reply: seq<u8>)

  predicate StartsWith(command: seq<u8>, prefix: seq<u8>) {
    |command| >= |prefix| && command[..|prefix|] == prefix
  }

  /** The file a command selects by its identifier, if the command is well formed and there is one. */
  function Selecting(command: seq<u8>): Option<File> {
    if |command| >= 7 && !StartsWith(command, SELECT_NAME) && StartsWith(command, SELECT_FILE) && command[4] == 2 then
      if command[5..7] == [0xE1, 0x03] then Some(CapabilityContainer)
      else if command[5..7] == [0xE1, 0x04] then Some(NdefFile)
      else None
    else None
  }

  function ReadLength(byte: u8): nat {
    if byte == 0 then 256 else byte
  }

  function ReadBinary(file: seq<u8>, offset: nat, length: nat): seq<u8> {
    if offset > |file| then WRONG_OFFSET else file[offset..Min(offset + length, |file|)] + OK
  }

  function Handle(ndef: seq<u8>, selected: Option<File>, command: seq<u8>): Outcome {
    if |command| >= 5 && StartsWith(command, SELECT_NAME) then Outcome(selected, OK)
    else if |command| >= 7 && StartsWith(command, SELECT_FILE) && command[4] == 2 then
      match Selecting(command)
      case Some(file) => Outcome(Some(file), OK)
      case None => Outcome(selected, FILE_NOT_FOUND)
    else if |command| >= 5 && StartsWith(command, READ_BINARY) then
      match selected
      case None => Outcome(None, NOTHING_SELECTED)
      case Some(file) =>
        Outcome(selected, ReadBinary(Contents(file, ndef), U16Be(command[2], command[3]), ReadLength(command[4])))
    else Outcome(selected, NOT_SUPPORTED)
  }

  class Tag {
    const ndef: seq<u8>
    var selected: Option<File>

    constructor (ndef: seq<u8>)
      ensures this.ndef == ndef && selected == None
    {
      this.ndef := ndef;
      selected := None;
    }

    method HandleCommand(command: seq<u8>) returns (reply: seq<u8>)
      modifies this
      ensures Outcome(selected, reply) == Handle(ndef, old(selected), command)
    {
      if |command| >= 5 && command[..4] == SELECT_NAME {
        return OK;
      }
      if |command| >= 7 && command[..4] == SELECT_FILE && command[4] == 2 {
        if command[5..7] == [0xE1, 0x03] {
          selected := Some(CapabilityContainer);
        } else if command[5..7] == [0xE1, 0x04] {
          selected := Some(NdefFile);
        } else {
          return FILE_NOT_FOUND;
        }
        return OK;
      }
      if |command| >= 5 && command[..2] == READ_BINARY {
        var offset, length := U16Be(command[2], command[3]), ReadLength(command[4]);
        if selected.None? {
          return NOTHING_SELECTED;
        }
        var file := Contents(selected.value, ndef);
        if offset > |file| {
          return WRONG_OFFSET;
        }
        return file[offset..Min(offset + length, |file|)] + OK;
      }
      reply := NOT_SUPPORTED;
    }
  }

  predicate Succeeded(reply: seq<u8>) {
    |reply| >= 2 && reply[|reply| - 2..] == OK
  }

  /** Which commands succeed: selecting by name, selecting one of the two files, and reading inside the selected one. */
  lemma SucceedsExactly(ndef: seq<u8>, selected: Option<File>, command: seq<u8>)
    ensures Succeeded(Handle(ndef, selected, command).reply)
            <==> || (|command| >= 5 && StartsWith(command, SELECT_NAME))
                 || Selecting(command).Some?
                 || (|command| >= 5 && StartsWith(command, READ_BINARY) && selected.Some?
                     && U16Be(command[2], command[3]) <= |Contents(selected.value, ndef)|)
  {
    if StartsWith(command, READ_BINARY) {
      Disjoint(command, READ_BINARY, SELECT_NAME);
      Disjoint(command, READ_BINARY, SELECT_FILE);
    }
  }

  lemma Disjoint(command: seq<u8>, p: seq<u8>, q: seq<u8>)
    requires |p| >= 2 && |q| >= 2 && p[1] != q[1] && StartsWith(command, p)
    ensures !StartsWith(command, q)
  {
    assert command[1] == command[..|p|][1];
    assert |command| >= |q| ==> command[1] == command[..|q|][1];
  }

  // ---------------------------------------------------------------------------------------------
  // Runs
  // ---------------------------------------------------------------------------------------------

  function SelectedAfter(ndef: seq<u8>, selected: Option<File>, commands: seq<seq<u8>>): Option<File>
    decreases |commands|
  {
    if commands == [] then selected
    else
      var last := |commands| - 1;
      Handle(ndef, SelectedAfter(ndef, selected, commands[..last]), commands[last]).selected
  }

  function LastSelected(commands: seq<seq<u8>>): Option<File> {
    if commands == [] then None
    else
      match Selecting(commands[|commands| - 1])
      case Some(file) => Some(file)
      case None => LastSelected(commands[..|commands| - 1])
  }

  /** After every run the file last selected is selected; no other command, and no failure, changes that. */
  lemma {:induction false} LastSelectionHolds(ndef: seq<u8>, selected: Option<File>, commands: seq<seq<u8>>)
    ensures SelectedAfter(ndef, selected, commands)
         == match LastSelected(commands)
            case Some(file) => Some(file)
            case None => selected
    decreases |commands|
  {
    if commands != [] {
      LastSelectionHolds(ndef, selected, commands[..|commands| - 1]);
    }
  }

  // ---------------------------------------------------------------------------------------------
  // A reader
  // ---------------------------------------------------------------------------------------------

  type ReadSize = n: nat | 1 <= n <= 256 witness 1

  function Read(offset: u16, size: ReadSize): seq<u8> {
    READ_BINARY + Be16(offset) + [size % 0x100]
  }

  /** Reads of some sizes, each starting where the one before ended, that reach the end of a file. */
  predicate Tiles(length: nat, offset: nat, sizes: seq<ReadSize>)
    decreases |sizes|
  {
    if sizes == [] then offset >= length
    else offset <= length && offset <= 0xFFFF && Tiles(length, offset + sizes[0], sizes[1..])
  }

  /** The replies to such reads; reads change nothing. */
  function Replies(ndef: seq<u8>, selected: Option<File>, offset: nat, sizes: seq<ReadSize>): seq<seq<u8>>
    requires Tiles(|ndef| + 2, offset, sizes)
    decreases |sizes|
  {
    if sizes == [] then []
    else
      var now := Handle(ndef, selected, Read(offset, sizes[0]));
      [now.reply] + Replies(ndef, now.selected, offset + sizes[0], sizes[1..])
  }

  function Data(reply: seq<u8>): seq<u8>
    requires Succeeded(reply)
  {
    reply[..|reply| - 2]
  }

  function AllData(replies: seq<seq<u8>>): seq<u8>
    requires forall i :: 0 <= i < |replies| ==> Succeeded(replies[i])
  {
    if replies == [] then [] else Data(replies[0]) + AllData(replies[1..])
  }

  lemma ReadFields(offset: u16, size: ReadSize)
    ensures var c := Read(offset, size);
            && |c| == 5 && StartsWith(c, READ_BINARY) && !StartsWith(c, SELECT_NAME) && !StartsWith(c, SELECT_FILE)
            && U16Be(c[2], c[3]) == offset && ReadLength(c[4]) == size
  {
    var c := Read(offset, size);
    assert c[2] == Be16(offset)[0] && c[3] == Be16(offset)[1];
    assert c[1] == 0xB0 && SELECT_NAME[1] == SELECT_FILE[1] == 0xA4;
    Be16ReadsBack(offset);
  }

  lemma ReadReply(ndef: seq<u8>, offset: u16, size: ReadSize)
    requires offset <= |ndef| + 2
    ensures var file := Contents(NdefFile, ndef);
            Handle(ndef, Some(NdefFile), Read(offset, size))
            == Outcome(Some(NdefFile), file[offset..Min(offset + size, |file|)] + OK)
  {
    ReadFields(offset, size);
  }

  /** The bytes of a file that one read covers. */
  function Tile(file: seq<u8>, offset: nat, size: nat): seq<u8>
    requires offset <= |file|
  {
    file[offset..Min(offset + size, |file|)]
  }

  function From(file: seq<u8>, offset: nat): seq<u8> {
    if offset <= |file| then file[offset..] else []
  }

  lemma TileFirst(file: seq<u8>, offset: nat, size: nat)
    requires offset <= |file|
    ensures Tile(file, offset, size) + From(file, offset + size) == From(file, offset)
    ensures Succeeded(Tile(file, offset, size) + OK) && Data(Tile(file, offset, size) + OK) == Tile(file, offset, size)
  {
  }

  /** However the file is tiled with reads, each of them succeeds and their data put together is the file. */
  lemma {:induction false} TilesGiveFile(ndef: seq<u8>, offset: nat, sizes: seq<ReadSize>)
    requires Tiles(|ndef| + 2, offset, sizes)
    ensures var replies := Replies(ndef, Some(NdefFile), offset, sizes);
            && (forall i :: 0 <= i < |replies| ==> Succeeded(replies[i]))
            && AllData(replies) == From(Contents(NdefFile, ndef), offset)
    decreases |sizes|
  {
    if sizes != [] {
      var file := Contents(NdefFile, ndef);
      ReadReply(ndef, offset, sizes[0]);
      TilesGiveFile(ndef, offset + sizes[0], sizes[1..]);
      TileFirst(file, offset, sizes[0]);
      var later := Replies(ndef, Some(NdefFile), offset + sizes[0], sizes[1..]);
      OneMoreReply(Tile(file, offset, sizes[0]) + OK, later);
      assert Replies(ndef, Some(NdefFile), offset, sizes) == [Tile(file, offset, sizes[0]) + OK] + later;
    }
  }

  lemma OneMoreReply(reply: seq<u8>, later: seq<seq<u8>>)
    requires Succeeded(reply) && forall i :: 0 <= i < |later| ==> Succeeded(later[i])
    ensures forall i :: 0 <= i < |[reply] + later| ==> Succeeded(([reply] + later)[i])
    ensures AllData([reply] + later) == Data(reply) + AllData(later)
  {
    assert ([reply] + later)[1..] == later;
  }

  /**
   A reader that selects the NDEF file of a tag in any state, reads it in any tiles and decodes the
   length field gets the message, exactly when its length fits that field.
   */
  lemma NdefReadsBack(ndef: seq<u8>, selected: Option<File>, sizes: seq<ReadSize>)
    requires Tiles(|ndef| + 2, 0, sizes)
    ensures Handle(ndef, selected, SELECT_FILE + [2, 0xE1, 0x04]) == Outcome(Some(NdefFile), OK)
    ensures var replies := Replies(ndef, Some(NdefFile), 0, sizes);
            && (forall i :: 0 <= i < |replies| ==> Succeeded(replies[i]))
            && var file := AllData(replies);
            && |file| == |ndef| + 2 && file[2..] == ndef
            && (U16Be(file[0], file[1]) == |ndef| <==> |ndef| <= 0xFFFF)
  {
    var select := SELECT_FILE + [2, 0xE1, 0x04];
    assert select[..4] == SELECT_FILE && select[5..7] == [0xE1, 0x04] && select[2] != SELECT_NAME[2];
    TilesGiveFile(ndef, 0, sizes);
    Be16ReadsBack(|ndef|);
  }

  // ---------------------------------------------------------------------------------------------
  // Commands, byte by byte
  // ---------------------------------------------------------------------------------------------

  /** Selecting by name always succeeds, and selecting by identifier for E103 and E104. */
  lemma SelectBytes(ndef: seq<u8>, selected: Option<File>, a: u8, b: u8, more: seq<u8>)
    ensures Handle(ndef, selected, [0x00, 0xA4, 0x04, 0x00, a] + more) == Outcome(selected, [0x90, 0x00])
    ensures Handle(ndef, selected, [0x00, 0xA4, 0x00, 0x0C, 0x02, 0xE1, 0x03] + more)
         == Outcome(Some(CapabilityContainer), [0x90, 0x00])
    ensures Handle(ndef, selected, [0x00, 0xA4, 0x00, 0x0C, 0x02, 0xE1, 0x04] + more)
         == Outcome(Some(NdefFile), [0x90, 0x00])
    ensures a != 0xE1 || b !in {0x03, 0x04} ==>
              Handle(ndef, selected, [0x00, 0xA4, 0x00, 0x0C, 0x02, a, b] + more) == Outcome(selected, [0x6A, 0x82])
  {
    var name, file := [0x00, 0xA4, 0x04, 0x00, a] + more, [0x00, 0xA4, 0x00, 0x0C, 0x02, a, b] + more;
    var container := [0x00, 0xA4, 0x00, 0x0C, 0x02, 0xE1, 0x03] + more;
    var message := [0x00, 0xA4, 0x00, 0x0C, 0x02, 0xE1, 0x04] + more;
    assert name[..4] == SELECT_NAME && file[..4] == container[..4] == message[..4] == SELECT_FILE;
    assert file[2] == container[2] == message[2] == 0 && SELECT_NAME[2] == 4;
    assert file[5..7] == [a, b] && container[5..7] == [0xE1, 0x03] && message[5..7] == [0xE1, 0x04];
  }

  /** A read gives up to 256 bytes of the selected file from a 16-bit offset on. */
  lemma ReadBytes(ndef: seq<u8>, selected: File, high: u8, low: u8, length: u8, more: seq<u8>)
    ensures var offset, size := 256 * high as int + low as int, if length == 0 then 256 else length as int;
            var file := Contents(selected, ndef);
            Handle(ndef, Some(selected), [0x00, 0xB0, high, low, length] + more)
            == Outcome(Some(selected), if offset > |file| then [0x6B, 0x00]
                                       else if offset + size <= |file| then file[offset..offset + size] + [0x90, 0x00]
                                       else file[offset..] + [0x90, 0x00])
  {
    ReadIsRead(high, low, length, more);
  }

  /** Without a selected file there is nothing to read. */
  lemma NothingToRead(ndef: seq<u8>, high: u8, low: u8, length: u8, more: seq<u8>)
    ensures Handle(ndef, None, [0x00, 0xB0, high, low, length] + more) == Outcome(None, [0x69, 0x86])
  {
    ReadIsRead(high, low, length, more);
  }

  lemma ReadIsRead(high: u8, low: u8, length: u8, more: seq<u8>)
    ensures var command := [0x00, 0xB0, high, low, length] + more;
            && StartsWith(command, READ_BINARY) && !StartsWith(command, SELECT_NAME)
            && !StartsWith(command, SELECT_FILE) && U16Be(command[2], command[3]) == 256 * high as int + low as int
  {
    var command := [0x00, 0xB0, high, low, length] + more;
    assert command[..2] == READ_BINARY && command[1] != SELECT_NAME[1] && command[1] != SELECT_FILE[1];
  }

  /** The two files: the container with the size of the message file, and the message behind its length. */
  lemma FileBytes(ndef: seq<u8>)
    requires |ndef| <= 65_533
    ensures Contents(CapabilityContainer, ndef)
         == [0x00, 0x0F, 0x20, 0x00, 0xFF, 0x00, 0xFF, 0x04, 0x06, 0xE1, 0x04,
             (|ndef| + 2) / 256, (|ndef| + 2) % 256, 0x00, 0xFF]
    ensures Contents(NdefFile, ndef) == [|ndef| / 256, |ndef| % 256] + ndef
  {
  }

  /** What is neither of these commands, or too short for one, is not supported. */
  lemma OtherCommands(ndef: seq<u8>, selected: Option<File>, command: seq<u8>)
    requires |command| < 5 || command[0] != 0x00 || command[1] !in {0xA4, 0xB0}
    ensures Handle(ndef, selected, command) == Outcome(selected, [0x6D, 0x00])
  {
    if |command| >= 5 {
      assert command[..4][0] == command[0] && command[..4][1] == command[1];
      assert command[..2][0] == command[0] && command[..2][1] == command[1];
    }
  }
}

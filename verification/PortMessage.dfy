/** What arrives at the driver's port: a command word in memory that the client filled, and the branch it selects. */
module PortMessages {
  import opened Units
  import opened Wire
  import opened WhiteListLoop

  /** All bytes the driver could read from the start of the message on; behind it they are arbitrary. */
  datatype RawMemory = RawMemory(read: nat -> byte) {
    function At(i: nat): byte {
      read(i)
    }
  }

  ghost predicate HoldsMessage(raw: RawMemory, message: seq<byte>) {
    forall i :: 0 <= i < |message| ==> raw.At(i) == message[i]
  }

  /** The units behind the 4-byte command word. */
  function BehindCommand(raw: RawMemory): Memory {
    Memory((i: nat) => UnitAt([raw.At(4 + 2 * i), raw.At(5 + 2 * i)], 0))
  }

  /** The DWORD at the start, as a little-endian machine reads it. */
  function Dword(raw: RawMemory): nat {
    var b0: nat, b1: nat, b2: nat, b3: nat := raw.At(0), raw.At(1), raw.At(2), raw.At(3);
    b0 + 0x100 * b1 + 0x1_0000 * b2 + 0x100_0000 * b3
  }

  /** What CommunicationPortMessage goes on to do. */
  datatype Branch =
    | InvalidParameter
    | WhiteListBranch(ptr: Memory, inputBufferSize: nat)
    | ReportedItemsBranch
    | LockedFilesBranch

  /** The switch of CommunicationPortMessage. */
  function Dispatch(raw: RawMemory, inputBufferSize: nat): Branch {
    if inputBufferSize < 4 then InvalidParameter
    else
      var command := Dword(raw);
      if command == 0x1000 then WhiteListBranch(BehindCommand(raw), inputBufferSize - 4)
      else if command == 0x2000 then ReportedItemsBranch
      else if command == 0x3000 then LockedFilesBranch
      else InvalidParameter
  }

  /** The commands of the client, as it writes them. */
  datatype DriverCommand = SetWhiteListCommand | GetReportedItemsCommand | LockedFilesUpdatedCommand

  /** The enumeration the client declares for itself. */
  function Code(command: DriverCommand): nat {
    match command
    case SetWhiteListCommand => 0x1000
    case GetReportedItemsCommand => 0x2000
    case LockedFilesUpdatedCommand => 0x3000
  }

  /** A 32-bit integer, least significant byte first. */
  function Int32Bytes(w: nat): seq<byte>
    requires w < 0x1_0000
  {
    [w % 0x100, w / 0x100, 0, 0]
  }

  /** A message that begins with a command's code selects the branch of that command and no other. */
  lemma CommandSelectsBranch(raw: RawMemory, size: nat, command: DriverCommand)
    requires size >= 4 && HoldsMessage(raw, Int32Bytes(Code(command)))
    ensures Dispatch(raw, size).WhiteListBranch? <==> command.SetWhiteListCommand?
    ensures Dispatch(raw, size).ReportedItemsBranch? <==> command.GetReportedItemsCommand?
    ensures Dispatch(raw, size).LockedFilesBranch? <==> command.LockedFilesUpdatedCommand?
  {
    var bytes := Int32Bytes(Code(command));
    assert raw.At(0) == bytes[0] && raw.At(1) == bytes[1] && raw.At(2) == bytes[2] && raw.At(3) == bytes[3];
  }

  /** Which bytes select which branch; anything else, and anything shorter than a command word, is refused. */
  lemma BranchOfBytes(raw: RawMemory, size: nat)
    ensures Dispatch(raw, size).WhiteListBranch? <==>
            size >= 4 && [raw.At(0), raw.At(1), raw.At(2), raw.At(3)] == [0x00, 0x10, 0x00, 0x00]
    ensures Dispatch(raw, size).ReportedItemsBranch? <==>
            size >= 4 && [raw.At(0), raw.At(1), raw.At(2), raw.At(3)] == [0x00, 0x20, 0x00, 0x00]
    ensures Dispatch(raw, size).LockedFilesBranch? <==>
            size >= 4 && [raw.At(0), raw.At(1), raw.At(2), raw.At(3)] == [0x00, 0x30, 0x00, 0x00]
    ensures Dispatch(raw, size).WhiteListBranch? ==>
              Dispatch(raw, size) == WhiteListBranch(BehindCommand(raw), size - 4)
  {
  }
}

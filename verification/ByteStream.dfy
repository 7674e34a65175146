/** The byte stream between the host and a Waldo device, and the serial port beneath it. */
module ByteStream {
  import opened Basics
  import opened Framing

  /** A serial port as its user sees it: bytes that have arrived, bytes still on the wire, and everything written
      so far. How many bytes arrive between two looks, and how much of a write succeeds, is up to the environment. */
  class SerialPort {
    var incoming: seq<byte>
    var wire: seq<byte>
    var written: seq<byte>

    function Unread(): seq<byte>
      reads this
    {
      incoming + wire
    }

    method Available() returns (n: nat)
      modifies this`incoming, this`wire
      ensures n == |incoming| && Unread() == old(Unread())
    {
      var arrived: nat :| arrived <= |wire|;
      assert incoming + wire == incoming + wire[..arrived] + wire[arrived..];
      incoming, wire := incoming + wire[..arrived], wire[arrived..];
      n := |incoming|;
    }

    method Read() returns (b: byte)
      requires incoming != []
      modifies this`incoming
      ensures old(incoming) == [b] + incoming
    {
      b := incoming[0];
      incoming := incoming[1..];
    }

    /** A non-blocking write: it may fail, and it may take only part of the data. */
    method Write(data: seq<byte>) returns (ok: bool, used: nat)
      modifies this`written
      ensures used <= |data| && written == old(written) + data[..used]
      ensures !ok ==> used == 0
    {
      ok := *;
      used := 0;
      if ok {
        used :| 0 <= used <= |data|;
      }
      written := written + data[..used];
    }
  }

  /** A send that wrote some of a command's encoding, and reports success exactly when that was all of it. */
  ghost predicate Wrote(before: seq<byte>, after: seq<byte>, c: Command, ok: bool) {
    |c.data| < 256 &&
    exists used: nat ::
      used <= |Encode(c)| && ok == (used == |Encode(c)|) && after == before + Encode(c)[..used]
  }

  class WaldoCommandByteStream {
    var buffer: seq<byte>
    var port: SerialPort?

    ghost predicate Valid()
      reads this
    {
      Waiting(buffer)
    }

    /** Everything that the device has sent and the stream has not turned into commands. */
    function Stream(): seq<byte>
      reads this, port
    {
      buffer + if port == null then [] else port.Unread()
    }

    constructor ()
      ensures Valid() && buffer == [] && port == null
    {
      buffer, port := [], null;
    }

    method Setup(inPort: SerialPort?)
      requires Valid()
      modifies this`port
      ensures Valid() && port == inPort
    {
      port := inPort;
    }

    method Reset()
      modifies this`buffer
      ensures Valid() && buffer == []
    {
      buffer := [];
    }

    /** The next command, if the bytes that have arrived complete one: it is the one that heads the stream, and the
        rest of the stream is left to be parsed. Without one, the stream is parsed as before. */
    method Receive() returns (command: Option<Command>)
      requires Valid()
      modifies this`buffer
      modifies if port == null then {} else {port}
      ensures Valid()
      ensures command.Some? ==> Parse(old(Stream())) == Prepend(command.value, Parse(Stream()))
      ensures command.Some? ==> port != null && buffer == [] && |port.Unread()| < |old(port.Unread())|
      ensures command.None? ==> Parse(Stream()) == Parse(old(Stream()))
      ensures command.None? && port != null ==> port.incoming == []
      ensures port != null ==> port.written == old(port.written)
    {
      if port == null {
        return None;
      }
      var available := port.Available();
      for i := 0 to available
        invariant Valid() && |port.incoming| == available - i
        invariant Parse(Stream()) == Parse(old(Stream()))
        invariant |port.Unread()| == |old(port.Unread())| - i
        invariant port.written == old(port.written)
      {
        command := ReceiveByte();
        if command.Some? {
          return;
        }
      }
      command := None;
    }

    /** One pass of the loop in `Receive`. */
    method ReceiveByte() returns (command: Option<Command>)
      requires Valid() && port != null && port.incoming != []
      modifies this`buffer, port`incoming
      ensures Valid() && |port.incoming| == |old(port.incoming)| - 1
      ensures command.Some? ==> Parse(old(Stream())) == Prepend(command.value, Parse(Stream())) && buffer == []
      ensures command.None? ==> Parse(Stream()) == Parse(old(Stream()))
    {
      ghost var before, stream := buffer, Stream();
      var b := ReadFromSerialPort();
      ReadRefinesParse(before, b, port.Unread(), buffer, stream);
      SkipToGuard();
      var ready := IsReadyToParseCommand();
      if !ready {
        return None;
      }
      var c := ParseCommandAndConsumeBuffer();
      command := Some(c);
    }

    method ReadFromSerialPort() returns (b: byte)
      requires port != null && port.incoming != []
      modifies this`buffer, port`incoming
      ensures buffer == old(buffer) + [b]
      ensures old(port.incoming) == [b] + port.incoming
      ensures old(port.Unread()) == [b] + port.Unread()
    {
      b := port.Read();
      buffer := buffer + [b];
    }

    method SkipToGuard()
      modifies this`buffer
      ensures buffer == Sync(old(buffer))
    {
      while buffer != []
        invariant Sync(buffer) == Sync(old(buffer))
        decreases |buffer|
      {
        var hasValidGuard := AgreesWithGuard();
        if hasValidGuard {
          return;
        }
        buffer := buffer[1..];
      }
    }

    /** The inner loop of the original's `SkipToGuard`, which removes the first byte on the first mismatch. */
    method AgreesWithGuard() returns (agrees: bool)
      ensures agrees == Matches(buffer)
    {
      var guardSize := if GUARD_SIZE < |buffer| then GUARD_SIZE else |buffer|;
      for i := 0 to guardSize
        invariant forall k | 0 <= k < i :: buffer[k] == GUARD[k]
      {
        if buffer[i] != GUARD[i] {
          return false;
        }
      }
      agrees := true;
    }

    /** Whether the buffer is a whole command. Its first clause is the check in the original that the buffer then
        holds exactly that command. */
    method IsReadyToParseCommand() returns (ready: bool)
      requires Complete(buffer) ==> |buffer| == CommandSize(buffer)
      ensures ready == Complete(buffer)
    {
      if |buffer| < GUARD_SIZE + HEADER_SIZE {
        return false;
      }
      var commandSize := GUARD_SIZE + HEADER_SIZE + buffer[GUARD_SIZE + 1];
      if |buffer| < commandSize {
        return false;
      }
      assert |buffer| == commandSize;
      ready := true;
    }

    method ParseCommandAndConsumeBuffer() returns (command: Command)
      requires Complete(buffer) && |buffer| == CommandSize(buffer)
      modifies this`buffer
      ensures command == FirstCommand(old(buffer)) && buffer == []
    {
      var payloadSize := buffer[GUARD_SIZE + 1];
      command := Command(buffer[GUARD_SIZE], buffer[PREFIX_SIZE..PREFIX_SIZE + payloadSize]);
      buffer := [];
    }

    /** Sends a command: true exactly when the port took all bytes of its encoding. A payload of 250 to 255 bytes
        overflows the original's fixed 256-byte write buffer. */
    method Send(command: Command) returns (ok: bool)
      requires |command.data| <= 249 || |command.data| >= 256
      modifies if port == null then {} else {port}
      ensures port == null || |command.data| >= 256 ==> !ok
      ensures port != null ==> port.incoming == old(port.incoming) && port.wire == old(port.wire)
      ensures port != null && |command.data| >= 256 ==> port.written == old(port.written)
      ensures port != null && |command.data| <= 249 ==> Wrote(old(port.written), port.written, command, ok)
    {
      if port == null {
        return false;
      }
      if |command.data| >= 256 {
        return false;
      }
      var writeBuffer := GUARD + [command.kind] + [|command.data|] + command.data;
      assert writeBuffer == Encode(command);
      var success, used := port.Write(writeBuffer);
      assert port.written == old(port.written) + Encode(command)[..used];
      if !success {
        return false;
      }
      ok := used == |writeBuffer|;
    }
  }
}

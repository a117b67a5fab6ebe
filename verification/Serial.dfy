// The COM1 port as the kernel's debug code sees it.  What goes out on the wire
// is recorded in two ghost logs: the bytes of serial_printf's formatted output
// and the bytes of every other debugging message.
module SerialPort {
  import opened CInt

  const EOF: int := -1

  datatype Channel = Formatted | Debug

  class Serial {
    ghost var text: seq<byte>
    ghost var trace: seq<byte>

    constructor ()
      ensures text == [] && trace == []
    {
      text, trace := [], [];
    }

    // serial_writec: the character comes back as a plain (signed) char.
    method Writec(c: byte, ghost channel: Channel) returns (r: int)
      modifies this
      ensures text == if channel == Formatted then old(text) + [c] else old(text)
      ensures trace == if channel == Debug then old(trace) + [c] else old(trace)
      ensures -128 <= r < 128 && (r == c || r == c - 0x100)
    {
      if channel == Formatted {
        text := text + [c];
      } else {
        trace := trace + [c];
      }
      r := if c < 0x80 then c else c - 0x100;
    }

    // serial_writes
    method Writes(s: seq<byte>)
      modifies this
      ensures text == old(text)
      ensures trace == old(trace) + s
    {
      for i := 0 to |s|
        invariant text == old(text)
        invariant trace == old(trace) + s[..i]
      {
        var _ := Writec(s[i], Debug);
        assert s[..i + 1] == s[..i] + [s[i]];
      }
      assert s[..|s|] == s;
    }
  }
}

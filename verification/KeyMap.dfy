// The keyboard mapping gb of kernel/arch/i386/ps2kb.c, indexed by scancode:
// the unmodified key set and the one with shift held down.  Zero means
// unmapped.  The two characters outside ASCII are stored as the last byte of
// their UTF-8 form (0xAC and 0xA3), as an unsigned char keeps them.
module KeyMap {
  import opened CInt

  function DefaultKey(scancode: byte): byte {
    match scancode
    case 0x01 => 0x01 case 0x03 => 0x03 case 0x04 => 0x04 case 0x05 => 0x05 case 0x06 => 0x06 case 0x07 => 0x07
    case 0x09 => 0x09 case 0x0A => 0x0A case 0x0B => 0x0B case 0x0C => 0x0C case 0x0D => 0x09 case 0x0E => 0x60
    case 0x11 => 0x11 case 0x12 => 0x12 case 0x14 => 0x14 case 0x15 => 0x71 case 0x16 => 0x31 case 0x1A => 0x7A
    case 0x1B => 0x73 case 0x1C => 0x61 case 0x1D => 0x77 case 0x1E => 0x32 case 0x1F => 0x1F
    case 0x21 => 0x63 case 0x22 => 0x78 case 0x23 => 0x64 case 0x24 => 0x65 case 0x25 => 0x34 case 0x26 => 0x33
    case 0x29 => 0x20 case 0x2A => 0x76 case 0x2B => 0x66 case 0x2C => 0x74 case 0x2D => 0x72 case 0x2E => 0x35
    case 0x31 => 0x6E case 0x32 => 0x62 case 0x33 => 0x68 case 0x34 => 0x67 case 0x35 => 0x79 case 0x36 => 0x36
    case 0x3A => 0x6D case 0x3B => 0x6A case 0x3C => 0x75 case 0x3D => 0x37 case 0x3E => 0x38
    case 0x41 => 0x2C case 0x42 => 0x6B case 0x43 => 0x69 case 0x44 => 0x6F case 0x45 => 0x30 case 0x46 => 0x39
    case 0x49 => 0x2E case 0x4A => 0x2F case 0x4B => 0x6C case 0x4C => 0x3B case 0x4D => 0x70 case 0x4E => 0x2D
    case 0x52 => 0x27 case 0x54 => 0x5B case 0x55 => 0x3D case 0x59 => 0x59 case 0x5A => 0x0A case 0x5B => 0x5D
    case 0x5D => 0x23
    case 0x61 => 0x5C case 0x66 => 0x08 case 0x6B => 0x6B
    case 0x72 => 0x72 case 0x74 => 0x74 case 0x75 => 0x75 case 0x78 => 0x78 case 0x7A => 0x7A case 0x7D => 0x7D
    case 0x83 => 0x83
    case _ => 0
  }

  function ShiftKey(scancode: byte): byte {
    match scancode
    case 0x0D => 0x09 case 0x0E => 0xAC
    case 0x11 => 0x11 case 0x12 => 0x12 case 0x14 => 0x14 case 0x15 => 0x51 case 0x16 => 0x21 case 0x1A => 0x5A
    case 0x1B => 0x53 case 0x1C => 0x41 case 0x1D => 0x57 case 0x1E => 0x22
    case 0x21 => 0x43 case 0x22 => 0x58 case 0x23 => 0x44 case 0x24 => 0x45 case 0x25 => 0x24 case 0x26 => 0xA3
    case 0x29 => 0x20 case 0x2A => 0x56 case 0x2B => 0x46 case 0x2C => 0x54 case 0x2D => 0x52 case 0x2E => 0x25
    case 0x31 => 0x4E case 0x32 => 0x42 case 0x33 => 0x48 case 0x34 => 0x47 case 0x35 => 0x59 case 0x36 => 0x5E
    case 0x3A => 0x4D case 0x3B => 0x4A case 0x3C => 0x55 case 0x3D => 0x26 case 0x3E => 0x2A
    case 0x41 => 0x3C case 0x42 => 0x4B case 0x43 => 0x49 case 0x44 => 0x4F case 0x45 => 0x29 case 0x46 => 0x28
    case 0x49 => 0x3E case 0x4A => 0x3F case 0x4B => 0x4C case 0x4C => 0x3A case 0x4D => 0x50 case 0x4E => 0x5F
    case 0x52 => 0x40 case 0x54 => 0x7B case 0x55 => 0x2B case 0x59 => 0x59 case 0x5A => 0x0A case 0x5B => 0x7D
    case 0x5D => 0x7E
    case 0x61 => 0x7C case 0x66 => 0x08
    case _ => 0
  }

  // Where the unmodified set has a lower-case letter, the shifted one has its
  // capital, unless the key just carries its own scancode: cursor and page keys
  // and F11, whose scancodes are the codes of letters.
  lemma Capitals(scancode: byte)
    requires 'a' as int <= DefaultKey(scancode) <= 'z' as int
    ensures ShiftKey(scancode) == DefaultKey(scancode) - 32 <==> DefaultKey(scancode) != scancode
    ensures DefaultKey(scancode) == scancode ==> ShiftKey(scancode) == 0
  {}

  // Shift neither maps a key the unmodified set leaves out, nor moves the
  // modifiers, tab, newline, backspace or space.
  lemma ShiftKeeps(scancode: byte)
    ensures ShiftKey(scancode) != 0 ==> DefaultKey(scancode) != 0
    ensures ShiftKey(scancode) != 0 && DefaultKey(scancode) <= 32 ==> ShiftKey(scancode) == DefaultKey(scancode)
  {}

  // If s is the scancode code, it carries these two characters.
  predicate Key(s: byte, code: byte, plain: char, shifted: char) {
    s == code ==> DefaultKey(s) == plain as int && ShiftKey(s) == shifted as int
  }

  // The rows of a British keyboard, from left to right.
  lemma DigitRow(s: byte)
    ensures Key(s, 0x0E, '`', '\U{AC}') && Key(s, 0x16, '1', '!') && Key(s, 0x1E, '2', '"')
    ensures Key(s, 0x26, '3', '\U{A3}')
    ensures Key(s, 0x25, '4', '$') && Key(s, 0x2E, '5', '%') && Key(s, 0x36, '6', '^') && Key(s, 0x3D, '7', '&')
    ensures Key(s, 0x3E, '8', '*') && Key(s, 0x46, '9', '(') && Key(s, 0x45, '0', ')') && Key(s, 0x4E, '-', '_')
    ensures Key(s, 0x55, '=', '+')
  {}

  lemma UpperRow(s: byte)
    ensures Key(s, 0x0D, '\t', '\t') && Key(s, 0x15, 'q', 'Q') && Key(s, 0x1D, 'w', 'W') && Key(s, 0x24, 'e', 'E')
    ensures Key(s, 0x2D, 'r', 'R') && Key(s, 0x2C, 't', 'T') && Key(s, 0x35, 'y', 'Y') && Key(s, 0x3C, 'u', 'U')
    ensures Key(s, 0x43, 'i', 'I') && Key(s, 0x44, 'o', 'O') && Key(s, 0x4D, 'p', 'P') && Key(s, 0x54, '[', '{')
    ensures Key(s, 0x5B, ']', '}')
  {}

  lemma MiddleRow(s: byte)
    ensures Key(s, 0x1C, 'a', 'A') && Key(s, 0x1B, 's', 'S') && Key(s, 0x23, 'd', 'D') && Key(s, 0x2B, 'f', 'F')
    ensures Key(s, 0x34, 'g', 'G') && Key(s, 0x33, 'h', 'H') && Key(s, 0x3B, 'j', 'J') && Key(s, 0x42, 'k', 'K')
    ensures Key(s, 0x4B, 'l', 'L') && Key(s, 0x4C, ';', ':') && Key(s, 0x52, '\'', '@') && Key(s, 0x5D, '#', '~')
  {}

  lemma LowerRow(s: byte)
    ensures Key(s, 0x61, '\\', '|') && Key(s, 0x1A, 'z', 'Z') && Key(s, 0x22, 'x', 'X') && Key(s, 0x21, 'c', 'C')
    ensures Key(s, 0x2A, 'v', 'V') && Key(s, 0x32, 'b', 'B') && Key(s, 0x31, 'n', 'N') && Key(s, 0x3A, 'm', 'M')
    ensures Key(s, 0x41, ',', '<') && Key(s, 0x49, '.', '>') && Key(s, 0x4A, '/', '?')
  {}

  lemma WideKeys(s: byte)
    ensures Key(s, 0x29, ' ', ' ') && Key(s, 0x5A, '\n', '\n') && Key(s, 0x66, '\U{08}', '\U{08}')
  {}

  // The keys of these rows.
  predicate IsCharacterKey(scancode: byte) {
    match scancode
    case 0x0E => true case 0x16 => true case 0x1E => true case 0x26 => true case 0x25 => true case 0x2E => true
    case 0x36 => true case 0x3D => true case 0x3E => true case 0x46 => true case 0x45 => true case 0x4E => true
    case 0x55 => true case 0x0D => true case 0x15 => true case 0x1D => true case 0x24 => true case 0x2D => true
    case 0x2C => true case 0x35 => true case 0x3C => true case 0x43 => true case 0x44 => true case 0x4D => true
    case 0x54 => true case 0x5B => true case 0x1C => true case 0x1B => true case 0x23 => true case 0x2B => true
    case 0x34 => true case 0x33 => true case 0x3B => true case 0x42 => true case 0x4B => true case 0x4C => true
    case 0x52 => true case 0x5D => true case 0x61 => true case 0x1A => true case 0x22 => true case 0x21 => true
    case 0x2A => true case 0x32 => true case 0x31 => true case 0x3A => true case 0x41 => true case 0x49 => true
    case 0x4A => true case 0x29 => true case 0x5A => true case 0x66 => true
    case _ => false
  }

  // Every other key in the map carries its own scancode, shifted or not at all.
  lemma OtherKeys(scancode: byte)
    requires DefaultKey(scancode) != 0 && !IsCharacterKey(scancode)
    ensures DefaultKey(scancode) == scancode
    ensures ShiftKey(scancode) == 0 || ShiftKey(scancode) == scancode
  {}
}

/** `writeJsonString`: the string escape of the generator's JSON reports, and the reader that undoes it. */
module JsonString {
  import opened Prelude

  type byte = x: int | 0 <= x < 256

  const QUOTE: byte := 0x22
  const BACKSLASH: byte := 0x5c

  function HexDigit(v: nat): byte
    requires v < 16
  {
    if v < 10 then 0x30 + v else 0x61 + (v - 10)
  }

  function EscapeByte(c: byte): seq<byte> {
    if c == QUOTE then [BACKSLASH, QUOTE]
    else if c == BACKSLASH then [BACKSLASH, BACKSLASH]
    else if c == 0x08 then [BACKSLASH, 0x62]
    else if c == 0x0c then [BACKSLASH, 0x66]
    else if c == 0x0a then [BACKSLASH, 0x6e]
    else if c == 0x0d then [BACKSLASH, 0x72]
    else if c == 0x09 then [BACKSLASH, 0x74]
    else if c < 0x20 then [BACKSLASH, 0x75, 0x30, 0x30, HexDigit(c / 16), HexDigit(c % 16)]
    else [c]
  }

  function Escape(s: seq<byte>): seq<byte> {
    if s == [] then [] else EscapeByte(s[0]) + Escape(s[1..])
  }

  method WriteJsonString(s: seq<byte>) returns (out: seq<byte>)
    ensures out == [QUOTE] + Escape(s) + [QUOTE]
  {
    out := [QUOTE];
    for i := 0 to |s|
      invariant out + Escape(s[i..]) == [QUOTE] + Escape(s)
    {
      assert s[i..][0] == s[i] && s[i..][1..] == s[i + 1..];
      out := out + EscapeByte(s[i]);
    }
    assert s[|s|..] == [];
    out := out + [QUOTE];
  }

  // ---- reading, by section 7 of RFC 8259 -------------------------------------------------------------------------------------

  function HexValue(c: byte): Option<nat> {
    if 0x30 <= c <= 0x39 then Some(c - 0x30)
    else if 0x61 <= c <= 0x66 then Some(c - 0x61 + 10)
    else if 0x41 <= c <= 0x46 then Some(c - 0x41 + 10)
    else None
  }

  function ShortEscape(c: byte): Option<byte> {
    if c == QUOTE || c == BACKSLASH || c == 0x2f then Some(c)
    else if c == 0x62 then Some(0x08)
    else if c == 0x66 then Some(0x0c)
    else if c == 0x6e then Some(0x0a)
    else if c == 0x72 then Some(0x0d)
    else if c == 0x74 then Some(0x09)
    else None
  }

  /** A `\u` escape of an ASCII code point; other code points are outside this reader. */
  function UnicodeEscape(t: seq<byte>): Option<byte>
    requires |t| == 4
  {
    match (HexValue(t[0]), HexValue(t[1]), HexValue(t[2]), HexValue(t[3]))
    case (Some(a), Some(b), Some(c), Some(d)) => if a == 0 && b == 0 && c < 8 then Some(16 * c + d) else None
    case _ => None
  }

  function Prepend(c: byte, r: Option<(seq<byte>, seq<byte>)>): Option<(seq<byte>, seq<byte>)> {
    match r case None => None case Some(p) => Some(([c] + p.0, p.1))
  }

  /** Read up to the first unescaped quote: the string, and what follows it. Control bytes are not allowed inside. */
  function Read(t: seq<byte>): Option<(seq<byte>, seq<byte>)>
    decreases |t|
  {
    if t == [] || t[0] < 0x20 then None
    else if t[0] == QUOTE then Some(([], t[1..]))
    else if t[0] != BACKSLASH then Prepend(t[0], Read(t[1..]))
    else if |t| == 1 then None
    else if t[1] == 0x75 then
      if |t| < 6 then None
      else match UnicodeEscape(t[2..6]) case None => None case Some(c) => Prepend(c, Read(t[6..]))
    else match ShortEscape(t[1]) case None => None case Some(c) => Prepend(c, Read(t[2..]))
  }

  lemma ReadEscapedByte(c: byte, t: seq<byte>)
    ensures Read(EscapeByte(c) + t) == Prepend(c, Read(t))
  {
    var u := EscapeByte(c) + t;
    if c < 0x20 && |EscapeByte(c)| == 6 {
      assert u[2..6] == [0x30, 0x30, HexDigit(c / 16), HexDigit(c % 16)] && u[6..] == t;
      assert UnicodeEscape(u[2..6]) == Some(c);
    } else if |EscapeByte(c)| == 2 {
      assert u[2..] == t;
    } else {
      assert u[1..] == t;
    }
  }

  /**
   * Whatever follows it, a written string is read back byte for byte up to its own closing quote: the escape is undone,
   * no quote inside it is bare, and no escape runs over its end.
   */
  lemma {:induction false} EscapeIsUndone(s: seq<byte>, rest: seq<byte>)
    ensures Read(Escape(s) + [QUOTE] + rest) == Some((s, rest))
  {
    if s == [] {
      assert Escape(s) + [QUOTE] + rest == [QUOTE] + rest;
    } else {
      var tail := Escape(s[1..]) + [QUOTE] + rest;
      assert Escape(s) + [QUOTE] + rest == EscapeByte(s[0]) + tail;
      ReadEscapedByte(s[0], tail);
      EscapeIsUndone(s[1..], rest);
      assert [s[0]] + s[1..] == s;
    }
  }

  /** No control byte is left; a byte that needs no escape stands for itself. */
  lemma {:induction false} EscapeIsPrintable(s: seq<byte>)
    ensures forall i | 0 <= i < |Escape(s)| :: Escape(s)[i] >= 0x20
    ensures (forall i | 0 <= i < |s| :: s[i] >= 0x20 && s[i] != QUOTE && s[i] != BACKSLASH) ==> Escape(s) == s
  {
    if s != [] {
      EscapeIsPrintable(s[1..]);
    }
  }

  /** The form of every byte: two bytes for the seven short escapes, six for the other controls, else the byte itself. */
  lemma EscapeIsShort(c: byte)
    ensures |EscapeByte(c)| == if c in {0x22, 0x5c, 0x08, 0x09, 0x0a, 0x0c, 0x0d} then 2 else if c < 0x20 then 6 else 1
    ensures |EscapeByte(c)| == 1 ==> EscapeByte(c) == [c]
    ensures forall i | 0 <= i < |EscapeByte(c)| :: !(0x41 <= EscapeByte(c)[i] <= 0x46) || EscapeByte(c) == [c]
  {
  }
}

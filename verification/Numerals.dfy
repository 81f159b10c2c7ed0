/** The numerals that the preload parser reads, stated on their characters. */
module Numerals {
  import opened MailboxAbi
  import opened Prelude
  import opened Selector

  const LOWER := "0123456789abcdef"
  const UPPER := "0123456789ABCDEF"

  /** `c` is the digit `d` in one of the two cases. */
  predicate IsDigit(c: char, d: nat) { d < 16 && (c == LOWER[d] || c == UPPER[d]) }

  lemma DigitMeans(c: char, d: nat)
    ensures d < 16 ==> (Digit(c) == d <==> IsDigit(c, d))
  {
  }

  ghost predicate HasDigit(c: char, base: nat) { exists d: nat :: d < base && IsDigit(c, d) }

  lemma HasDigitMeans(c: char, base: nat)
    requires base <= 16
    ensures Digit(c) < base <==> HasDigit(c, base)
  {
    if Digit(c) < base { DigitMeans(c, Digit(c)); }
    if HasDigit(c, base) {
      var d: nat :| d < base && IsDigit(c, d);
      DigitMeans(c, d);
    }
  }

  /** A digit string has a value exactly when all its characters are digits of the base. */
  lemma {:induction false} ValueIsOfDigits(digits: string, base: nat)
    requires base <= 16
    ensures Value(digits, base).Some? <==> forall i | 0 <= i < |digits| :: HasDigit(digits[i], base)
  {
    hide HasDigit, Digit;
    if digits != "" {
      var n := |digits| - 1;
      ValueIsOfDigits(digits[..n], base);
      HasDigitMeans(digits[n], base);
      assert forall i | 0 <= i < n :: digits[..n][i] == digits[i];
    }
  }

  /** The empty string counts nothing, and one more digit counts all before it `base` times. */
  lemma ValueGrows(digits: string, base: nat, c: char, d: nat)
    requires d < base <= 16 && IsDigit(c, d) && Value(digits, base).Some?
    ensures Value("", base) == Some(0)
    ensures Value(digits + [c], base) == Some(Value(digits, base).value * base + d)
  {
    DigitMeans(c, d);
    var t := digits + [c];
    assert t[..|t| - 1] == digits && t[|t| - 1] == c;
  }

  /** The base by the prefix, for every text: `0x` or `0X` sixteen, another leading zero eight, else ten. */
  lemma MagnitudeMeans(t: string)
    ensures Magnitude("") == None
    ensures t != "" && t[0] != '0' ==> Magnitude(t) == Value(t, 10)
    ensures t != "" ==> Magnitude("0x" + t) == Value(t, 16) && Magnitude("0X" + t) == Value(t, 16)
    ensures Magnitude("0x") == None && Magnitude("0X") == None
    ensures t == "" || (t[0] != 'x' && t[0] != 'X') ==> Magnitude("0" + t) == Value("0" + t, 8) == Value(t, 8)
  {
    assert ("0x" + t)[2..] == t && ("0X" + t)[2..] == t;
    LeadingZero(t, 8);
    MarkIsNoDigit('x', t);
    MarkIsNoDigit('X', t);
    MarkIsNoDigit('x', "");
    MarkIsNoDigit('X', "");
    assert ['0', 'x'] + "" == "0x" && ['0', 'X'] + "" == "0X";
    if t != "" && Digit(t[0]) >= 16 { BadDigit(t, 0, 16); }
  }

  lemma {:induction false} BadDigit(s: string, i: nat, base: nat)
    requires i < |s| && Digit(s[i]) >= base
    ensures Value(s, base) == None
    decreases |s|
  {
    if i < |s| - 1 { BadDigit(s[..|s| - 1], i, base); }
  }

  lemma MarkIsNoDigit(x: char, t: string)
    requires x == 'x' || x == 'X'
    ensures Value(['0', x] + t, 8) == None
  {
    BadDigit(['0', x] + t, 1, 8);
  }

  /** The characters that may lead: space, tab, line feed, vertical tab, form feed, carriage return. */
  lemma SpacesAre(c: char)
    ensures IsSpace(c) <==> c == ' ' || c == '\t' || c == '\n' || c == '\U{B}' || c == '\U{C}' || c == '\r'
  {
  }

  lemma {:induction false} CStringStops(s: string, rest: string)
    requires forall i | 0 <= i < |s| :: s[i] != '\0'
    ensures CString(s + "\0" + rest) == s && CString(s) == s
  {
    if s != "" {
      assert (s + "\0" + rest)[1..] == s[1..] + "\0" + rest;
      CStringStops(s[1..], rest);
    }
  }

  /** A sign and a numeral, or a numeral that begins with neither space nor sign. */
  predicate SignAndBody(sign: string, body: string) {
    && (sign == "" || sign == "+" || sign == "-")
    && (sign == "" && body != "" ==> !IsSpace(body[0]) && body[0] != '+' && body[0] != '-')
    && (forall i | 0 <= i < |body| :: body[i] != '\0')
  }

  lemma SignedIsRead(sign: string, body: string)
    requires SignAndBody(sign, body)
    ensures var n := Magnitude(body);
            ParseU64(sign + body) ==
            if n.None? || n.value >= W64 then None else Some(if sign == "-" then (W64 - n.value) % W64 else n.value)
  {
    hide Magnitude;
    var t := sign + body;
    CStringStops(t, "");
    if sign == "" {
      assert t == body;
    } else {
      assert t[0] == sign[0] && t[1..] == body;
    }
    ReadFrom(t);
  }

  /** Reading a text that is its own C string and does not begin with a space. */
  lemma ReadFrom(t: string)
    requires CString(t) == t && (t == "" || !IsSpace(t[0]))
    ensures ParseU64(t) ==
            var signed := t != "" && (t[0] == '+' || t[0] == '-');
            match Magnitude(if signed then t[1..] else t)
            case None => None
            case Some(v) => if v >= W64 then None else if signed && t[0] == '-' then Some(if v == 0 then 0 else W64 - v) else Some(v)
  {
    hide Magnitude;
    assert SkipSpaces(t) == t;
  }

  lemma NulEnds(t: string, rest: string)
    requires forall i | 0 <= i < |t| :: t[i] != '\0'
    ensures ParseU64(t + "\0" + rest) == ParseU64(t)
  {
    CStringStops(t, rest);
  }

  /**
   What is read, for every text: up to the first NUL, past leading spaces and one sign, the rest is one numeral below
   2^64, and a minus sign negates it modulo 2^64. Anything else is refused.
   */
  lemma TextIsRead(spaces: string, sign: string, body: string, tail: string)
    requires (forall i | 0 <= i < |spaces| :: IsSpace(spaces[i])) && SignAndBody(sign, body) && (tail == "" || tail[0] == '\0')
    ensures var n := Magnitude(body);
            ParseU64(spaces + (sign + body) + tail) ==
            if n.None? || n.value >= W64 then None else Some(if sign == "-" then (W64 - n.value) % W64 else n.value)
  {
    hide Magnitude, ParseU64;
    var t := spaces + (sign + body);
    SignedIsRead(sign, body);
    ParseSkipsSpaces(spaces, sign + body);
    forall i | 0 <= i < |t| ensures t[i] != '\0' {
      if i < |spaces| { assert IsSpace(spaces[i]); }
    }
    if tail == "" {
      assert t + tail == t;
    } else {
      NulEnds(t, tail[1..]);
      assert t + tail == t + "\0" + tail[1..];
    }
  }

  /** Every text is of that form. */
  lemma EveryTextSplits(s: string) returns (spaces: string, sign: string, body: string, tail: string)
    ensures s == spaces + (sign + body) + tail
    ensures (forall i | 0 <= i < |spaces| :: IsSpace(spaces[i])) && SignAndBody(sign, body) && (tail == "" || tail[0] == '\0')
  {
    hide IsSpace;
    var i := SpaceCount(s);
    spaces := s[..i];
    var t;
    t, tail := SplitAtNul(s[i..]);
    sign, body := SplitSign(t);
    assert s == s[..i] + s[i..];
    assert s[..i] + (t + tail) == s[..i] + t + tail;
  }

  lemma SplitSign(t: string) returns (sign: string, body: string)
    requires (t == "" || !IsSpace(t[0])) && forall i | 0 <= i < |t| :: t[i] != '\0'
    ensures t == sign + body && SignAndBody(sign, body)
  {
    hide IsSpace;
    if t != "" && (t[0] == '+' || t[0] == '-') { sign, body := [t[0]], t[1..]; } else { sign, body := "", t; }
  }

  lemma SplitAtNul(s: string) returns (t: string, tail: string)
    ensures s == t + tail && (forall i | 0 <= i < |t| :: t[i] != '\0') && (tail == "" || tail[0] == '\0')
  {
    FindIsFirstOf(s, '\0');
    var k := Find(s, '\0');
    t, tail := s[..k], s[k..];
  }

  lemma {:induction false} SpaceCount(s: string) returns (n: nat)
    ensures n <= |s| && (forall i | 0 <= i < n :: IsSpace(s[i])) && (n < |s| ==> !IsSpace(s[n]))
  {
    n := 0;
    if s != "" && IsSpace(s[0]) {
      n := SpaceCount(s[1..]);
      n := n + 1;
    }
  }

  lemma {:induction false} FindIsFirstOf(s: string, c: char)
    ensures var p := Find(s, c); (forall i | 0 <= i < p :: s[i] != c) && (p < |s| ==> s[p] == c)
  {
    if s != "" && s[0] != c { FindIsFirstOf(s[1..], c); }
  }

  /** An occurrence is a way to cut the text before and after it. */
  lemma OccursMeans(text: string, from: string, p: nat)
    ensures OccursAt(text, from, p) <==> exists before, after :: |before| == p && text == before + from + after
  {
    if OccursAt(text, from, p) { assert text == text[..p] + from + text[p + |from|..]; }
    if before, after :| |before| == p && text == before + from + after { assert text[p..p + |from|] == from; }
  }
}

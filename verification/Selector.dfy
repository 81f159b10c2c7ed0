/** State selectors of the preload files: `7`, `3+4`, `3:7`, parsed with the C library's `strtoull` in base 0. */
module Selector {
  import opened MailboxAbi
  import opened Prelude

  // ---- numbers ---------------------------------------------------------------------------------------------------------------

  /** The C string: everything before the first NUL. */
  function CString(s: string): string {
    if s == "" || s[0] == '\0' then "" else [s[0]] + CString(s[1..])
  }

  predicate IsSpace(c: char) { c == ' ' || '\t' <= c <= '\r' }

  function SkipSpaces(s: string): string { if s != "" && IsSpace(s[0]) then SkipSpaces(s[1..]) else s }

  function Digit(c: char): nat {
    if '0' <= c <= '9' then c as nat - '0' as nat
    else if 'a' <= c <= 'z' then c as nat - 'a' as nat + 10
    else if 'A' <= c <= 'Z' then c as nat - 'A' as nat + 10
    else 99
  }

  /** The value of a nonempty digit string, most significant digit first. */
  function Value(digits: string, base: nat): Option<nat> {
    if digits == "" then Some(0)
    else
      var last := Digit(digits[|digits| - 1]);
      match Value(digits[..|digits| - 1], base)
      case None => None
      case Some(v) => if last < base then Some(v * base + last) else None
  }

  predicate StartsHex(s: string) { |s| >= 3 && s[0] == '0' && (s[1] == 'x' || s[1] == 'X') && Digit(s[2]) < 16 }

  /** An unsigned numeral in base 0: `0x` is hexadecimal, another leading zero octal, else decimal. */
  function Magnitude(s: string): Option<nat> {
    if s == "" then None
    else if StartsHex(s) then Value(s[2..], 16)
    else if s[0] == '0' then Value(s, 8)
    else Value(s, 10)
  }

  /** `PreloadParseU64`: the whole C string must be one numeral below 2^64; a minus sign negates modulo 2^64. */
  function ParseU64(s: string): Option<u64> {
    var t := SkipSpaces(CString(s));
    var signed := t != "" && (t[0] == '+' || t[0] == '-');
    match Magnitude(if signed then t[1..] else t)
    case None => None
    case Some(v) => if v >= W64 then None else if signed && t[0] == '-' then Some(if v == 0 then 0 else W64 - v) else Some(v)
  }

  // ---- selectors ------------------------------------------------------------------------------------------------------------

  datatype Range = Range(begin: u64, count: u64)

  /** `find`: the position of a character, or the length. */
  function Find(s: string, c: char): (p: nat)
    ensures p <= |s|
  {
    if s == "" || s[0] == c then 0 else 1 + Find(s[1..], c)
  }

  /** `PreloadParseStateSelector`, its comparisons in 64 bits. */
  function ParseBounded(s: string, nstates: u32): Option<Range> {
    var plus := Find(s, '+');
    var colon := Find(s, ':');
    if s == "" then None
    else if plus < |s| then
      match (ParseU64(s[..plus]), ParseU64(s[plus + 1..]))
      case (Some(b), Some(c)) =>
        if c == 0 || b >= nstates || c > nstates || Add64(b, c) > nstates then None else Some(Range(b, c))
      case _ => None
    else if colon < |s| then
      match (ParseU64(s[..colon]), ParseU64(s[colon + 1..]))
      case (Some(b), Some(e)) => if b >= nstates || e > nstates || e <= b then None else Some(Range(b, e - b))
      case _ => None
    else
      match ParseU64(s)
      case Some(b) => if b >= nstates then None else Some(Range(b, 1))
      case None => None
  }

  /** `PreloadParseStateSelectorUnbounded` */
  function ParseUnbounded(s: string): Option<Range> {
    var plus := Find(s, '+');
    var colon := Find(s, ':');
    if s == "" then None
    else if plus < |s| then
      match (ParseU64(s[..plus]), ParseU64(s[plus + 1..]))
      case (Some(b), Some(c)) => if c == 0 then None else Some(Range(b, c))
      case _ => None
    else if colon < |s| then
      match (ParseU64(s[..colon]), ParseU64(s[colon + 1..]))
      case (Some(b), Some(e)) => if e <= b then None else Some(Range(b, e - b))
      case _ => None
    else
      match ParseU64(s)
      case Some(b) => Some(Range(b, 1))
      case None => None
  }

  /** Parsing is the same with and without a bound: the bound only rejects ranges that leave `[0, nstates)`. */
  lemma BoundedIsUnboundedThatFits(s: string, nstates: u32)
    ensures ParseBounded(s, nstates) ==
            match ParseUnbounded(s)
            case None => None
            case Some(r) => if r.begin + r.count <= nstates then Some(r) else None
    ensures ParseUnbounded(s).Some? ==> ParseUnbounded(s).value.count >= 1
    ensures ParseBounded(s, nstates).Some? ==> ParseBounded(s, nstates).value.begin < W32 && ParseBounded(s, nstates).value.count < W32
  {
  }

  /** `PreloadSelectorIncludesState0` */
  function IncludesState0(s: string): Option<bool> {
    match ParseUnbounded(s) case None => None case Some(r) => Some(r.begin == 0 && r.count != 0)
  }

  predicate InRange(r: Range, i: nat) { r.begin <= i < r.begin + r.count }

  /** The state-0 test is membership of 0 in the selected range, with a bound or without. */
  lemma State0IsMembership(s: string, nstates: u32)
    ensures IncludesState0(s).Some? <==> ParseUnbounded(s).Some?
    ensures ParseUnbounded(s).Some? ==> (IncludesState0(s) == Some(true) <==> InRange(ParseUnbounded(s).value, 0))
    ensures ParseBounded(s, nstates).Some? ==> (IncludesState0(s) == Some(true) <==> InRange(ParseBounded(s, nstates).value, 0))
  {
    BoundedIsUnboundedThatFits(s, nstates);
  }

  // ---- printing ---------------------------------------------------------------------------------------------------------------

  function DigitChar(d: nat): char
    requires d < 16
  {
    if d < 10 then ('0' as nat + d) as char else ('a' as nat + d - 10) as char
  }

  /** A numeral without leading zeros. */
  function ToBase(n: nat, base: nat): (s: string)
    requires 2 <= base <= 16
    ensures s != ""
  {
    if n < base then [DigitChar(n)] else ToBase(n / base, base) + [DigitChar(n % base)]
  }

  /** `std::to_string` */
  function ToDecimal(n: nat): string { ToBase(n, 10) }

  function Format(begin: u32, count: u32): string {
    if count <= 1 then ToDecimal(begin) else ToDecimal(begin) + "+" + ToDecimal(count)
  }

  predicate AllDigits(s: string, base: nat) { forall i | 0 <= i < |s| :: Digit(s[i]) < base && s[i] != '\0' }

  lemma DigitIsRead(d: nat)
    requires d < 16
    ensures Digit(DigitChar(d)) == d && DigitChar(d) != '\0' && (DigitChar(d) == '0' <==> d == 0)
  {
  }

  lemma ValueAppends(s: string, d: nat, base: nat)
    requires d < base <= 16 && Value(s, base).Some?
    ensures Value(s + [DigitChar(d)], base) == Some(Value(s, base).value * base + d)
  {
    DigitIsRead(d);
    var t := s + [DigitChar(d)];
    assert t[..|t| - 1] == s && t[|t| - 1] == DigitChar(d);
  }

  lemma QuotientAndRemainder(n: nat, base: nat)
    requires 2 <= base <= n
    ensures 0 < n / base < n && 0 <= n % base < base && n / base * base + n % base == n
  {
  }

  lemma AppendDigit(s: string, d: nat, base: nat)
    requires AllDigits(s, base) && d < base <= 16
    ensures AllDigits(s + [DigitChar(d)], base)
  {
    DigitIsRead(d);
  }

  lemma {:induction false} BaseDigits(n: nat, base: nat)
    requires 2 <= base <= 16
    ensures AllDigits(ToBase(n, base), base) && Value(ToBase(n, base), base) == Some(n)
    ensures ToBase(n, base)[0] == '0' ==> n == 0 && ToBase(n, base) == "0"
  {
    hide Value, DigitChar, AllDigits;
    if n < base {
      OneDigit(n, base);
    } else {
      QuotientAndRemainder(n, base);
      BaseDigits(n / base, base);
      ValueAppends(ToBase(n / base, base), n % base, base);
      AppendDigit(ToBase(n / base, base), n % base, base);
    }
  }

  lemma OneDigit(n: nat, base: nat)
    requires n < base <= 16
    ensures Value([DigitChar(n)], base) == Some(n) && AllDigits([DigitChar(n)], base)
    ensures [DigitChar(n)][0] == '0' ==> n == 0 && [DigitChar(n)] == "0"
  {
    hide Digit, DigitChar;
    DigitIsRead(n);
    var t := [DigitChar(n)];
    assert t[..|t| - 1] == "";
  }

  lemma {:induction false} DigitsAreCString(s: string)
    requires forall i | 0 <= i < |s| :: s[i] != '\0'
    ensures CString(s) == s
  {
    if s != "" { DigitsAreCString(s[1..]); }
  }

  lemma {:induction false} LeadingZero(s: string, base: nat)
    requires base > 0
    ensures Value("0" + s, base) == Value(s, base)
  {
    var t := "0" + s;
    if s == "" {
      assert t[..|t| - 1] == "";
    } else {
      assert t[..|t| - 1] == "0" + s[..|s| - 1];
      LeadingZero(s[..|s| - 1], base);
    }
  }

  lemma MagnitudeOfDecimal(n: nat)
    ensures Magnitude(ToDecimal(n)) == Some(n)
  {
    hide ToBase, Value;
    BaseDigits(n, 10);
    if ToDecimal(n)[0] == '0' { LeadingZeroAlone(); }
  }

  lemma LeadingZeroAlone()
    ensures Value("0", 8) == Some(0)
  {
    OneDigit(0, 8);
    assert [DigitChar(0)] == "0";
  }

  lemma MagnitudeOfHex(n: nat)
    ensures Magnitude("0x" + ToBase(n, 16)) == Some(n)
    ensures forall i | 0 <= i < |"0x" + ToBase(n, 16)| :: ("0x" + ToBase(n, 16))[i] != '\0'
  {
    hide ToBase, Value;
    BaseDigits(n, 16);
    assert ("0x" + ToBase(n, 16))[2..] == ToBase(n, 16);
  }

  lemma MagnitudeOfOctal(n: nat)
    ensures Magnitude("0" + ToBase(n, 8)) == Some(n)
    ensures forall i | 0 <= i < |"0" + ToBase(n, 8)| :: ("0" + ToBase(n, 8))[i] != '\0'
  {
    hide ToBase, Value;
    BaseDigits(n, 8);
    LeadingZero(ToBase(n, 8), 8);
    assert ("0" + ToBase(n, 8))[1] == ToBase(n, 8)[0];
  }

  lemma ParseDecimal(n: u64)
    ensures ParseU64(ToDecimal(n)) == Some(n)
  {
    hide ToBase, Value, Magnitude;
    BaseDigits(n, 10);
    DigitsAreCString(ToDecimal(n));
    MagnitudeOfDecimal(n);
  }

  /** A sign before a decimal numeral: a minus negates modulo 2^64. */
  lemma ParseSigned(n: u64, sign: char)
    requires sign == '+' || sign == '-'
    ensures ParseU64([sign] + ToDecimal(n)) == Some(if sign == '-' then (W64 - n) % W64 else n)
  {
    hide ToBase, Value, Magnitude;
    BaseDigits(n, 10);
    DigitsAreCString([sign] + ToDecimal(n));
    MagnitudeOfDecimal(n);
    assert ([sign] + ToDecimal(n))[1..] == ToDecimal(n);
  }

  /** Leading spaces are ignored. */
  lemma {:induction false} ParseSkipsSpaces(spaces: string, s: string)
    requires forall i | 0 <= i < |spaces| :: IsSpace(spaces[i])
    ensures SkipSpaces(CString(spaces + s)) == SkipSpaces(CString(s))
    ensures ParseU64(spaces + s) == ParseU64(s)
  {
    hide Magnitude;
    if spaces == "" {
      assert spaces + s == s;
    } else {
      assert (spaces + s)[1..] == spaces[1..] + s;
      ParseSkipsSpaces(spaces[1..], s);
    }
  }

  /** Prefixes choose the base. */
  lemma ParsePrefixed(n: u64)
    ensures ParseU64("0x" + ToBase(n, 16)) == Some(n) && ParseU64("0" + ToBase(n, 8)) == Some(n)
  {
    hide ToBase, Value, Magnitude;
    MagnitudeOfHex(n);
    MagnitudeOfOctal(n);
    DigitsAreCString("0x" + ToBase(n, 16));
    DigitsAreCString("0" + ToBase(n, 8));
  }

  lemma {:induction false} NotFound(s: string, c: char)
    requires c !in s
    ensures Find(s, c) == |s|
  {
    if s != "" { NotFound(s[1..], c); }
  }

  lemma {:induction false} FoundAfter(s: string, c: char, t: string)
    requires c !in s
    ensures Find(s + [c] + t, c) == |s|
  {
    if s == "" {
      assert s + [c] + t == [c] + t;
    } else {
      assert (s + [c] + t)[1..] == s[1..] + [c] + t;
      FoundAfter(s[1..], c, t);
    }
  }

  lemma DecimalHasNoMark(n: nat)
    ensures '+' !in ToDecimal(n) && ':' !in ToDecimal(n)
  {
    BaseDigits(n, 10);
  }

  /** Parsing a printed selector gives its range back exactly when it is nonempty and fits. */
  lemma FormatRoundTrip(begin: u32, count: u32, nstates: u32)
    ensures ParseBounded(Format(begin, count), nstates) == Some(Range(begin, count)) <==> 1 <= count && begin + count <= nstates
    ensures count >= 1 ==> ParseUnbounded(Format(begin, count)) == Some(Range(begin, count))
    ensures count == 0 ==> ParseUnbounded(Format(begin, count)) == Some(Range(begin, 1))
  {
    var b, c, s := ToDecimal(begin), ToDecimal(count), Format(begin, count);
    BoundedIsUnboundedThatFits(s, nstates);
    assert ParseUnbounded(s) == Some(Range(begin, if count <= 1 then 1 else count)) by {
      hide ParseBounded, ToDecimal, ParseU64;
      DecimalHasNoMark(begin);
      ParseDecimal(begin);
      if count <= 1 {
        NotFound(b, '+');
        NotFound(b, ':');
      } else {
        ParseDecimal(count);
        FoundAfter(b, '+', c);
        assert s[..|b|] == b && s[|b| + 1..] == c;
      }
    }
    hide Format, ParseBounded, ParseUnbounded;
  }

  // ---- replacing -----------------------------------------------------------------------------------------------------------------

  predicate OccursAt(text: string, from: string, p: nat) { p + |from| <= |text| && text[p..p + |from|] == from }

  /** The first occurrence at or after `p`. */
  function FindText(text: string, from: string, p: nat): (r: Option<nat>)
    requires p <= |text|
    ensures r.Some? ==> p <= r.value && r.value + |from| <= |text|
    decreases |text| - p
  {
    if OccursAt(text, from, p) then Some(p)
    else if p == |text| then None
    else FindText(text, from, p + 1)
  }

  /** What is found is an occurrence, and nothing before it is. */
  lemma {:induction false} FindIsFirst(text: string, from: string, p: nat)
    requires p <= |text|
    ensures FindText(text, from, p).Some? ==> OccursAt(text, from, FindText(text, from, p).value)
    ensures forall q: nat | p <= q && (FindText(text, from, p).Some? ==> q < FindText(text, from, p).value) ::
              !OccursAt(text, from, q)
    decreases |text| - p
  {
    if !OccursAt(text, from, p) && p < |text| { FindIsFirst(text, from, p + 1); }
  }

  /** The pieces between successive non-overlapping occurrences, from the left. */
  function Split(text: string, from: string): (pieces: seq<string>)
    requires from != ""
    ensures pieces != []
    decreases |text|
  {
    match FindText(text, from, 0)
    case None => [text]
    case Some(p) => [text[..p]] + Split(text[p + |from|..], from)
  }

  function Join(pieces: seq<string>, glue: string): string
    requires pieces != []
    decreases |pieces|
  {
    if |pieces| == 1 then pieces[0] else pieces[0] + glue + Join(pieces[1..], glue)
  }

  lemma OccursInPrefix(text: string, from: string, p: nat, q: nat)
    requires p <= |text| && from != ""
    ensures OccursAt(text[..p], from, q) ==> q < p && OccursAt(text, from, q)
  {
    if q + |from| <= p { assert text[q..q + |from|] == text[..p][q..q + |from|]; }
  }

  /** Splitting loses nothing, and leaves no occurrence inside a piece. */
  lemma {:induction false} JoinUndoesSplit(text: string, from: string)
    requires from != ""
    ensures Join(Split(text, from), from) == text
    ensures forall i | 0 <= i < |Split(text, from)| :: forall q: nat :: !OccursAt(Split(text, from)[i], from, q)
    decreases |text|
  {
    hide Join, FindText;
    FindIsFirst(text, from, 0);
    match FindText(text, from, 0) {
      case None => SplitNone(text, from, from);
      case Some(p) =>
        var rest := text[p + |from|..];
        JoinUndoesSplit(rest, from);
        SplitFirst(text, from, p);
        JoinFirst(text[..p], Split(rest, from), from);
        assert text == text[..p] + from + rest;
        forall q: nat
          ensures !OccursAt(text[..p], from, q)
        {
          OccursInPrefix(text, from, p, q);
        }
    }
  }

  /** `PreloadReplaceAll`: every occurrence is replaced once, and inserted text is never searched again. */
  method ReplaceAll(text: string, from: string, to: string) returns (result: string)
    ensures from == "" ==> result == text
    ensures from != "" ==> result == Join(Split(text, from), to)
  {
    hide Split, Join, FindText;
    result := text;
    if from == "" { return; }
    var pos: nat := 0;
    ghost var goal := Join(Split(text, from), to);
    assert text[0..] == text;
    while true
      invariant pos <= |result|
      invariant result[..pos] + Join(Split(result[pos..], from), to) == goal
      decreases |result| - pos
    {
      var at := FindText(result, from, pos);
      FindInSuffix(result, from, pos, 0);
      if at.None? {
        SplitNone(result[pos..], from, to);
        assert result == result[..pos] + result[pos..];
        return;
      }
      var p := at.value;
      ghost var done, suffix := result[..pos], result[pos..];
      ReplaceOne(done, suffix, from, to, p - pos);
      assert result[..p] == done + suffix[..p - pos] && result[p + |from|..] == suffix[p - pos + |from|..];
      Halves(result[..p] + to, result[p + |from|..]);
      result := result[..p] + to + result[p + |from|..];
      pos := p + |to|;
    }
  }

  lemma OccursInSuffix(text: string, from: string, pos: nat, q: nat)
    requires pos <= |text|
    ensures OccursAt(text[pos..], from, q) <==> OccursAt(text, from, pos + q)
  {
    if pos + q + |from| <= |text| { assert text[pos..][q..q + |from|] == text[pos + q..pos + q + |from|]; }
  }

  lemma {:induction false} FindInSuffix(text: string, from: string, pos: nat, q: nat)
    requires pos + q <= |text|
    ensures FindText(text[pos..], from, q) ==
            match FindText(text, from, pos + q) case None => None case Some(p) => Some(p - pos)
    decreases |text| - pos - q
  {
    OccursInSuffix(text, from, pos, q);
    if pos + q < |text| { FindInSuffix(text, from, pos, q + 1); }
  }

  lemma SplitNone(text: string, from: string, glue: string)
    requires from != "" && FindText(text, from, 0) == None
    ensures Join(Split(text, from), glue) == text
  {
  }

  lemma SplitFirst(text: string, from: string, p: nat)
    requires from != "" && FindText(text, from, 0) == Some(p)
    ensures p + |from| <= |text| && Split(text, from) == [text[..p]] + Split(text[p + |from|..], from)
  {
    hide FindText;
  }

  lemma Halves(a: string, b: string)
    ensures (a + b)[..|a|] == a && (a + b)[|a|..] == b
  {
  }

  lemma JoinFirst(piece: string, rest: seq<string>, glue: string)
    requires rest != []
    ensures Join([piece] + rest, glue) == piece + glue + Join(rest, glue)
  {
    assert ([piece] + rest)[1..] == rest;
  }

  /** Replacing the first occurrence of a suffix takes one piece off its split. */
  lemma ReplaceOne(done: string, suffix: string, from: string, to: string, k: nat)
    requires from != "" && FindText(suffix, from, 0) == Some(k)
    ensures k + |from| <= |suffix|
    ensures done + Join(Split(suffix, from), to)
            == (done + suffix[..k] + to) + Join(Split(suffix[k + |from|..], from), to)
  {
    SplitFirst(suffix, from, k);
    var rest := Split(suffix[k + |from|..], from);
    JoinFirst(suffix[..k], rest, to);
    Reassociate(done, suffix[..k], to, Join(rest, to));
  }

  lemma Reassociate(a: string, b: string, c: string, d: string)
    ensures a + (b + c + d) == a + b + c + d
  {
  }
}

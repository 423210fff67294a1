/**
 * The text pieces of the JSON the first-toot tool writes: `escape_json`
 * and the decimal form `ostringstream` gives a `time_t`.
 */
module JsonText {
  import opened Distsn

  /** The three characters `escape_json` rewrites. */
  predicate NeedsEscape(c: char) {
    c == '\n' || c == '"' || c == '\\'
  }

  /** What `escape_json` writes for one input character. */
  function EscapeChar(c: char): string {
    if c == '\n' then "\\n"
    else if c == '"' then "\\\""
    else if c == '\\' then "\\\\"
    else [c]
  }

  /** The whole escaped text: every character rewritten in order. */
  function Escaped(s: string): string
    decreases |s|
  {
    if s == [] then [] else EscapeChar(s[0]) + Escaped(s[1..])
  }

  lemma {:induction false} EscapedAppend(s: string, t: string)
    ensures Escaped(s + t) == Escaped(s) + Escaped(t)
    decreases |s|
  {
    if s == [] {
      assert s + t == t;
    } else {
      assert (s + t)[0] == s[0];
      assert (s + t)[1..] == s[1..] + t;
      EscapedAppend(s[1..], t);
    }
  }

  /** `escape_json`: builds the output one character at a time. */
  method EscapeJson(input: string) returns (out: string)
    ensures out == Escaped(input)
  {
    out := "";
    for i := 0 to |input|
      invariant out == Escaped(input[..i])
    {
      var c := input[i];
      if c == '\n' {
        out := out + "\\n";
      } else if c == '"' {
        out := out + "\\\"";
      } else if c == '\\' {
        out := out + "\\\\";
      } else {
        out := out + [c];
      }
      assert input[..i + 1] == input[..i] + [c];
      EscapedAppend(input[..i], [c]);
    }
    assert input[..|input|] == input;
  }

  /** How many characters of `s` `escape_json` has to rewrite. */
  function CountSpecial(s: string): nat
    decreases |s|
  {
    if s == [] then 0 else (if NeedsEscape(s[0]) then 1 else 0) + CountSpecial(s[1..])
  }

  /** Each rewritten character grows by exactly one. */
  lemma {:induction false} EscapedLength(s: string)
    ensures |Escaped(s)| == |s| + CountSpecial(s)
    decreases |s|
  {
    if s != [] {
      EscapedLength(s[1..]);
    }
  }

  /** The escaped text never holds a raw newline. */
  lemma {:induction false} EscapedNoNewline(s: string)
    ensures '\n' !in Escaped(s)
    decreases |s|
  {
    if s != [] {
      EscapedNoNewline(s[1..]);
      assert '\n' !in EscapeChar(s[0]);
    }
  }

  /** Text without any of the three characters comes back unchanged. */
  lemma {:induction false} EscapedIdentity(s: string)
    requires forall i :: 0 <= i < |s| ==> !NeedsEscape(s[i])
    ensures Escaped(s) == s
    decreases |s|
  {
    if s != [] {
      EscapedIdentity(s[1..]);
      assert s == [s[0]] + s[1..];
    }
  }

  /** The body of a JSON string that uses only the escapes `\n`, `\"` and
      `\\`, and no raw newline or quote. */
  predicate WellEscaped(t: string)
    decreases |t|
  {
    if t == [] then true
    else if t[0] == '\\' then 1 < |t| && (t[1] == 'n' || t[1] == '"' || t[1] == '\\') && WellEscaped(t[2..])
    else t[0] != '"' && t[0] != '\n' && WellEscaped(t[1..])
  }

  /** Reads such a string body back (section 7 of RFC 8259, for the escapes
      `escape_json` uses). */
  function Unescape(t: string): string
    decreases |t|
  {
    if t == [] then []
    else if t[0] == '\\' && 1 < |t| then (if t[1] == 'n' then "\n" else [t[1]]) + Unescape(t[2..])
    else [t[0]] + Unescape(t[1..])
  }

  lemma {:induction false} EscapedWellEscaped(s: string)
    ensures WellEscaped(Escaped(s))
    decreases |s|
  {
    if s != [] {
      EscapedWellEscaped(s[1..]);
      var t := Escaped(s);
      assert t == EscapeChar(s[0]) + Escaped(s[1..]);
      if NeedsEscape(s[0]) {
        assert t[2..] == Escaped(s[1..]);
      } else {
        assert t[1..] == Escaped(s[1..]);
      }
    }
  }

  /** Reading one escaped character back, whatever follows it. */
  lemma UnescapeEscapeChar(c: char, rest: string)
    ensures Unescape(EscapeChar(c) + rest) == [c] + Unescape(rest)
  {
    var t := EscapeChar(c) + rest;
    if NeedsEscape(c) {
      assert t[0] == '\\' && t[2..] == rest;
    } else {
      assert t[0] == c && t[1..] == rest;
    }
  }

  /** Round trip: reading the escaped text gives the original back. */
  lemma {:induction false} UnescapeEscaped(s: string)
    ensures Unescape(Escaped(s)) == s
    decreases |s|
  {
    if s != [] {
      UnescapeEscaped(s[1..]);
      UnescapeEscapeChar(s[0], Escaped(s[1..]));
      assert s == [s[0]] + s[1..];
    }
  }

  /** The other direction: every well-escaped body is the escape of what it reads as. */
  lemma {:induction false} EscapedUnescape(t: string)
    requires WellEscaped(t)
    ensures Escaped(Unescape(t)) == t
    decreases |t|
  {
    if t != [] {
      if t[0] == '\\' {
        EscapedUnescape(t[2..]);
        var c := if t[1] == 'n' then '\n' else t[1];
        assert Unescape(t) == [c] + Unescape(t[2..]);
        EscapedAppend([c], Unescape(t[2..]));
        assert t == t[..2] + t[2..];
      } else {
        EscapedUnescape(t[1..]);
        assert Unescape(t) == [t[0]] + Unescape(t[1..]);
        EscapedAppend([t[0]], Unescape(t[1..]));
        assert t == [t[0]] + t[1..];
      }
    }
  }

  predicate AllDigits(s: string) {
    forall i :: 0 <= i < |s| ==> '0' <= s[i] <= '9'
  }

  function DigitChar(d: nat): char
    requires d < 10
  {
    (48 + d) as char
  }

  /** Decimal digits of `n`, most significant first, without leading zeros. */
  function NatText(n: nat): (r: string)
    ensures 0 < |r| && AllDigits(r)
    ensures r[0] == '0' ==> n == 0
    decreases n
  {
    if n < 10 then [DigitChar(n)] else NatText(n / 10) + [DigitChar(n % 10)]
  }

  /** What `ostringstream << t` writes for a `time_t`: a minus sign exactly
      for a negative time, then decimal digits. */
  function IntText(n: int): (r: string)
    ensures 0 < |r| && (r[0] == '-' <==> n < 0)
    ensures AllDigits(if n < 0 then r[1..] else r)
  {
    if n < 0 then "-" + NatText(-n) else NatText(n)
  }

  function DigitsValue(s: string): nat
    requires AllDigits(s)
    decreases |s|
  {
    if s == [] then 0 else 10 * DigitsValue(s[..|s| - 1]) + (s[|s| - 1] as int - 48)
  }

  /** Reads a `first_toot_time` field back: an optional minus sign and at least one digit. */
  function ParseTime(s: string): Option<int> {
    if 1 < |s| && s[0] == '-' && AllDigits(s[1..]) then Some(-(DigitsValue(s[1..]) as int))
    else if 0 < |s| && AllDigits(s) then Some(DigitsValue(s))
    else None
  }

  lemma {:induction false} NatTextValue(n: nat)
    ensures DigitsValue(NatText(n)) == n
    decreases n
  {
    if n >= 10 {
      NatTextValue(n / 10);
      var r := NatText(n);
      assert r[..|r| - 1] == NatText(n / 10);
    }
  }

  /** Round trip: the time field reads back as the time written. */
  lemma IntTextRoundTrip(n: int)
    ensures ParseTime(IntText(n)) == Some(n)
  {
    if n < 0 {
      NatTextValue(-n);
      ParseNegative(NatText(-n));
    } else {
      NatTextValue(n);
      ParseDigits(NatText(n));
    }
  }

  /** A minus sign before digits reads as the negated digits. */
  lemma ParseNegative(digits: string)
    requires 0 < |digits| && AllDigits(digits)
    ensures ParseTime("-" + digits) == Some(-(DigitsValue(digits) as int))
  {
    assert ("-" + digits)[1..] == digits;
  }

  /** Digits alone read as their value. */
  lemma ParseDigits(digits: string)
    requires 0 < |digits| && AllDigits(digits)
    ensures ParseTime(digits) == Some(DigitsValue(digits))
  {
    assert digits[0] != '-';
  }

  /** The time field needs no escaping inside its quotes. */
  lemma IntTextPlain(n: int)
    ensures forall i :: 0 <= i < |IntText(n)| ==> !NeedsEscape(IntText(n)[i])
  {
    var r := IntText(n);
    if n < 0 {
      assert r[1..] == NatText(-n);
      assert forall i :: 1 <= i < |r| ==> r[i] == r[1..][i - 1];
    }
  }

  /** The time text holds no NUL, so `%s` prints all of it. */
  lemma IntTextNoNul(n: int)
    ensures '\0' !in IntText(n)
  {
    var r := IntText(n);
    if n < 0 {
      assert forall i :: 1 <= i < |r| ==> r[i] == r[1..][i - 1];
    }
    assert forall i :: 0 <= i < |r| ==> r[i] != '\0';
  }

  /** What `%s` prints of a `c_str()`: the characters before the first NUL. */
  function CStr(s: string): (r: string)
    ensures r <= s && '\0' !in r
    ensures |r| < |s| ==> s[|r|] == '\0'
    decreases |s|
  {
    if s == [] || s[0] == '\0' then [] else [s[0]] + CStr(s[1..])
  }

  /** A text without NUL is printed whole. */
  lemma CStrPlain(s: string)
    requires '\0' !in s
    ensures CStr(s) == s
  {
  }

  lemma {:induction false} CStrAppend(a: string, b: string)
    requires '\0' !in a
    ensures CStr(a + b) == a + CStr(b)
    decreases |a|
  {
    if a == [] {
      assert a + b == b;
    } else {
      assert (a + b)[0] == a[0];
      assert (a + b)[1..] == a[1..] + b;
      CStrAppend(a[1..], b);
      assert a == [a[0]] + a[1..];
    }
  }

  /** Cutting at the first NUL commutes with `escape_json`, which neither
      writes nor rewrites a NUL. */
  lemma {:induction false} CStrEscaped(s: string)
    ensures CStr(Escaped(s)) == Escaped(CStr(s))
    decreases |s|
  {
    if s != [] {
      if s[0] == '\0' {
        assert Escaped(s) == [s[0]] + Escaped(s[1..]);
      } else {
        CStrEscaped(s[1..]);
        assert '\0' !in EscapeChar(s[0]);
        CStrAppend(EscapeChar(s[0]), Escaped(s[1..]));
        assert CStr(s) == [s[0]] + CStr(s[1..]);
        EscapedAppend([s[0]], CStr(s[1..]));
        assert Escaped([s[0]]) == EscapeChar(s[0]);
      }
    }
  }
}

/**
 * The Python string operations the LINKTYPE table generator relies on:
 * `str.split`, `str.strip`, `str.replace` of one character by nothing,
 * `str.removeprefix`, `int()` of a decimal string, and the `X`, `d` and
 * `<` format specifications.
 */
module LinktypeText {
  import opened Wrappers

  // ---------------------------------------------------------------------
  // Splitting and joining

  /** `s.split(sep)`: the pieces between separators, empty ones included. */
  function Split(s: string, sep: char): (r: seq<string>)
    ensures |r| >= 1
    ensures forall i :: 0 <= i < |r| ==> sep !in r[i]
  {
    if s == [] then [""]
    else if s[0] == sep then [""] + Split(s[1..], sep)
    else
      var rest := Split(s[1..], sep);
      [[s[0]] + rest[0]] + rest[1..]
  }

  /** `sep.join(parts)`. */
  function Join(parts: seq<string>, sep: char): string
  {
    if |parts| == 0 then ""
    else if |parts| == 1 then parts[0]
    else parts[0] + [sep] + Join(parts[1..], sep)
  }

  /** Joining the pieces again gives the string back. */
  lemma {:induction false} JoinSplit(s: string, sep: char)
    ensures Join(Split(s, sep), sep) == s
  {
    if s != [] {
      var rest := Split(s[1..], sep);
      JoinSplit(s[1..], sep);
      if s[0] == sep {
        assert Split(s, sep) == [""] + rest;
        if |rest| == 1 {
          assert Join(Split(s, sep), sep) == "" + [sep] + rest[0];
        }
      } else {
        var r := Split(s, sep);
        assert r[0] == [s[0]] + rest[0] && r[1..] == rest[1..];
        if |rest| > 1 {
          assert Join(rest, sep) == rest[0] + [sep] + Join(rest[1..], sep);
        }
      }
    }
  }

  // ---------------------------------------------------------------------
  // Stripping

  /** `str.isspace()` of one character. */
  predicate IsSpace(c: char)
  {
    ('\t' <= c <= '\r') || ('\U{1C}' <= c <= ' ') || c == '\U{85}' || c == '\U{A0}' ||
    c == '\U{1680}' || ('\U{2000}' <= c <= '\U{200A}') || c == '\U{2028}' || c == '\U{2029}' ||
    c == '\U{202F}' || c == '\U{205F}' || c == '\U{3000}'
  }

  function TrimStart(s: string): (r: string)
    ensures |r| <= |s| && r == s[|s| - |r|..]
    ensures r == [] || !IsSpace(r[0])
    ensures forall i :: 0 <= i < |s| - |r| ==> IsSpace(s[i])
  {
    if s != [] && IsSpace(s[0]) then TrimStart(s[1..]) else s
  }

  function TrimEnd(s: string): (r: string)
    ensures |r| <= |s| && r == s[..|r|]
    ensures r == [] || !IsSpace(r[|r| - 1])
    ensures forall i :: |r| <= i < |s| ==> IsSpace(s[i])
  {
    if s != [] && IsSpace(s[|s| - 1]) then TrimEnd(s[..|s| - 1]) else s
  }

  /** `s.strip()`: whitespace removed from both ends, nothing else touched. */
  function Strip(s: string): (r: string)
    ensures r == [] || (!IsSpace(r[0]) && !IsSpace(r[|r| - 1]))
  {
    TrimEnd(TrimStart(s))
  }

  /** How much leading whitespace `strip` removes. */
  function LeadingSpace(s: string): (n: nat)
    ensures n <= |s| && TrimStart(s) == s[n..]
  {
    |s| - |TrimStart(s)|
  }

  /** The stripped string is the part of s that starts after the leading run of whitespace. */
  lemma StripInfix(s: string)
    ensures LeadingSpace(s) + |Strip(s)| <= |s|
    ensures Strip(s) == s[LeadingSpace(s)..LeadingSpace(s) + |Strip(s)|]
  {
    var i := LeadingSpace(s);
    var t := TrimStart(s);
    var n := |Strip(s)|;
    assert Strip(s) == t[..n];
    TakeOfDrop(s, i, n);
  }

  lemma TakeOfDrop<T>(s: seq<T>, i: nat, n: nat)
    requires i + n <= |s|
    ensures s[i..][..n] == s[i..i + n]
  {
  }

  /** Everything `strip` removes, at either end, is whitespace. */
  lemma StripRemovesSpace(s: string)
    ensures forall k :: 0 <= k < LeadingSpace(s) ==> IsSpace(s[k])
    ensures forall k :: LeadingSpace(s) + |Strip(s)| <= k < |s| ==> IsSpace(s[k])
  {
    var i := LeadingSpace(s);
    var t := TrimStart(s);
    forall k | i + |Strip(s)| <= k < |s|
      ensures IsSpace(s[k])
    {
      var u := TrimEnd(t);
      assert u == Strip(s) && |u| <= k - i < |t|;
      assert IsSpace(t[k - i]);
      assert s[k] == t[k - i];
    }
  }

  /** A string that neither starts nor ends with whitespace is its own strip. */
  lemma StripNoSpace(s: string)
    requires s == [] || (!IsSpace(s[0]) && !IsSpace(s[|s| - 1]))
    ensures Strip(s) == s
  {
  }

  lemma StripIdempotent(s: string)
    ensures Strip(Strip(s)) == Strip(s)
  {
  }

  // ---------------------------------------------------------------------
  // Removing characters and prefixes

  /** `s.replace(c, '')`. */
  function Remove(s: string, c: char): (r: string)
    ensures c !in r
    ensures forall x :: x in r ==> x in s
    ensures |r| <= |s|
    ensures c !in s ==> r == s
  {
    if s == [] then []
    else if s[0] == c then Remove(s[1..], c)
    else [s[0]] + Remove(s[1..], c)
  }

  /** `s.removeprefix(p)`. */
  function RemovePrefix(s: string, p: string): (r: string)
    ensures p <= s ==> p + r == s
    ensures !(p <= s) ==> r == s
  {
    if p <= s then s[|p|..] else s
  }

  // ---------------------------------------------------------------------
  // Decimal numbers

  predicate IsDigit(c: char)
  {
    '0' <= c <= '9'
  }

  predicate AllDigits(s: string)
  {
    forall i :: 0 <= i < |s| ==> IsDigit(s[i])
  }

  function DigitValue(c: char): (d: nat)
    requires IsDigit(c)
    ensures d < 10
  {
    c as int - '0' as int
  }

  /** The number a string of decimal digits spells. */
  function DecimalValue(s: string): nat
    requires AllDigits(s)
  {
    if s == [] then 0 else 10 * DecimalValue(s[..|s| - 1]) + DigitValue(s[|s| - 1])
  }

  /** What `int()` accepts after its sign: digits, with single underscores between digits. */
  predicate DigitGroups(s: string)
  {
    |s| > 0 && IsDigit(s[0]) && IsDigit(s[|s| - 1]) &&
    (forall i :: 0 <= i < |s| ==> IsDigit(s[i]) || s[i] == '_') &&
    (forall i :: 0 <= i < |s| - 1 ==> !(s[i] == '_' && s[i + 1] == '_'))
  }

  /** Removing the underscores from digits and underscores leaves digits. */
  lemma {:induction false} RemoveUnderscores(s: string)
    requires forall i :: 0 <= i < |s| ==> IsDigit(s[i]) || s[i] == '_'
    ensures AllDigits(Remove(s, '_'))
  {
    if s != [] {
      RemoveUnderscores(s[1..]);
    }
  }

  /**
   * `int(s)` of a string without '-': surrounding whitespace, an optional
   * '+', then digit groups; anything else raises `ValueError`, here `None`.
   */
  function ParseUnsigned(s: string): (r: Option<nat>)
    requires '-' !in s
    ensures r.Some? <==> (var t := Strip(s); var b := if t != [] && t[0] == '+' then t[1..] else t; DigitGroups(b))
  {
    var t := Strip(s);
    var body := if t != [] && t[0] == '+' then t[1..] else t;
    if DigitGroups(body) then
      RemoveUnderscores(body);
      Some(DecimalValue(Remove(body, '_')))
    else None
  }

  /** `f'{n}'`: the decimal digits of n, no leading zero. */
  function Decimal(n: nat): (r: string)
    ensures |r| >= 1 && AllDigits(r)
    ensures n > 0 ==> r[0] != '0'
  {
    if n < 10 then [('0' as int + n) as char]
    else Decimal(n / 10) + [('0' as int + n % 10) as char]
  }

  /** k copies of a character. */
  function Fill(k: nat, c: char): (r: string)
    ensures |r| == k && forall i :: 0 <= i < k ==> r[i] == c
  {
    if k == 0 then [] else Fill(k - 1, c) + [c]
  }

  /** Left-padding with a character up to a minimum width. */
  function PadLeft(s: string, width: nat, fill: char): (r: string)
    ensures |r| == if |s| < width then width else |s|
    ensures r[|r| - |s|..] == s
    ensures forall i :: 0 <= i < |r| - |s| ==> r[i] == fill
  {
    if |s| < width then Fill(width - |s|, fill) + s else s
  }

  /** `f'{n:03d}'`. */
  function Decimal3(n: nat): (r: string)
    ensures |r| >= 3 && AllDigits(r)
  {
    PadLeft(Decimal(n), 3, '0')
  }

  lemma {:induction false} DecimalRoundTrip(n: nat)
    ensures DecimalValue(Decimal(n)) == n
  {
    if n >= 10 {
      var d := Decimal(n);
      DecimalRoundTrip(n / 10);
      assert d[..|d| - 1] == Decimal(n / 10);
    }
  }

  /** Leading zeros do not change the number a digit string spells. */
  lemma {:induction false} LeadingZeros(k: nat, s: string)
    requires AllDigits(s)
    ensures AllDigits(Fill(k, '0') + s)
    ensures DecimalValue(Fill(k, '0') + s) == DecimalValue(s)
  {
    var z := Fill(k, '0');
    if s == [] {
      assert z + s == z;
      if k > 0 {
        assert z[..k - 1] == Fill(k - 1, '0');
        LeadingZeros(k - 1, s);
        assert Fill(k - 1, '0') + s == Fill(k - 1, '0');
      }
    } else {
      var init := s[..|s| - 1];
      LeadingZeros(k, init);
      assert (z + s)[..|z + s| - 1] == z + init;
    }
  }

  /** `int()` of a nonempty digit string is the number it spells. */
  lemma ParseDigits(s: string)
    requires |s| > 0 && AllDigits(s)
    ensures '-' !in s && ParseUnsigned(s) == Some(DecimalValue(s))
  {
    assert IsDigit(s[0]) && IsDigit(s[|s| - 1]);
    StripNoSpace(s);
    assert '_' !in s by {
      forall i | 0 <= i < |s| ensures s[i] != '_' { assert IsDigit(s[i]); }
    }
    assert '-' !in s by {
      forall i | 0 <= i < |s| ensures s[i] != '-' { assert IsDigit(s[i]); }
    }
  }

  /** `int()` reads back what `f'{n}'` and `f'{n:03d}'` print. */
  lemma ParseDecimal(n: nat)
    ensures '-' !in Decimal(n) && ParseUnsigned(Decimal(n)) == Some(n)
    ensures '-' !in Decimal3(n) && ParseUnsigned(Decimal3(n)) == Some(n)
  {
    var d := Decimal(n);
    DecimalRoundTrip(n);
    ParseDigits(d);
    var p := Decimal3(n);
    if |d| < 3 {
      assert p == Fill(3 - |d|, '0') + d;
      LeadingZeros(3 - |d|, d);
    }
    ParseDigits(p);
  }

  // ---------------------------------------------------------------------
  // Hexadecimal numbers

  function HexDigit(d: nat): (c: char)
    requires d < 16
    ensures IsHexDigit(c)
  {
    if d < 10 then ('0' as int + d) as char else ('A' as int + d - 10) as char
  }

  predicate IsHexDigit(c: char)
  {
    ('0' <= c <= '9') || ('A' <= c <= 'F')
  }

  predicate AllHexDigits(s: string)
  {
    forall i :: 0 <= i < |s| ==> IsHexDigit(s[i])
  }

  function HexDigitValue(c: char): (d: nat)
    requires IsHexDigit(c)
    ensures d < 16
  {
    if c <= '9' then c as int - '0' as int else c as int - 'A' as int + 10
  }

  /** `f'{n:X}'`: upper-case hexadecimal digits, no leading zero. */
  function Hex(n: nat): (r: string)
    ensures |r| >= 1 && AllHexDigits(r)
  {
    if n < 16 then [HexDigit(n)] else Hex(n / 16) + [HexDigit(n % 16)]
  }

  /** `f'{n:04X}'`. */
  function Hex4(n: nat): (r: string)
    ensures |r| >= 4 && AllHexDigits(r)
  {
    PadLeft(Hex(n), 4, '0')
  }

  /** The number a string of hexadecimal digits spells. */
  function HexValue(s: string): nat
    requires AllHexDigits(s)
  {
    if s == [] then 0 else 16 * HexValue(s[..|s| - 1]) + HexDigitValue(s[|s| - 1])
  }

  lemma {:induction false} HexRoundTrip(n: nat)
    ensures HexValue(Hex(n)) == n
  {
    if n >= 16 {
      var h := Hex(n);
      HexRoundTrip(n / 16);
      assert h[..|h| - 1] == Hex(n / 16);
    }
  }

  lemma HexDigitsPadded(k: nat, s: string)
    requires AllHexDigits(s)
    ensures AllHexDigits(Fill(k, '0') + s)
  {
    var z := Fill(k, '0');
    forall i | 0 <= i < |z + s|
      ensures IsHexDigit((z + s)[i])
    {
      if i >= k {
        assert (z + s)[i] == s[i - k];
      }
    }
  }

  lemma {:induction false} LeadingHexZeros(k: nat, s: string)
    requires AllHexDigits(s)
    ensures AllHexDigits(Fill(k, '0') + s)
    ensures HexValue(Fill(k, '0') + s) == HexValue(s)
  {
    var z := Fill(k, '0');
    HexDigitsPadded(k, s);
    if s == [] {
      assert z + s == z;
      if k > 0 {
        assert z[..k - 1] == Fill(k - 1, '0');
        LeadingHexZeros(k - 1, s);
        assert Fill(k - 1, '0') + s == Fill(k - 1, '0');
      }
    } else {
      var init := s[..|s| - 1];
      LeadingHexZeros(k, init);
      InitOfConcat(z, s);
      assert HexValue(z + s) == 16 * HexValue(z + init) + HexDigitValue(s[|s| - 1]);
    }
  }

  /** The concatenation without its last element, and that element. */
  lemma InitOfConcat<T>(a: seq<T>, b: seq<T>)
    requires |b| > 0
    ensures (a + b)[..|a + b| - 1] == a + b[..|b| - 1]
    ensures (a + b)[|a + b| - 1] == b[|b| - 1]
  {
  }


  /** The four (or more) digits of `f'{n:04X}'` read back as n. */
  lemma Hex4RoundTrip(n: nat)
    ensures HexValue(Hex4(n)) == n
  {
    var h := Hex(n);
    HexRoundTrip(n);
    if |h| < 4 {
      LeadingHexZeros(4 - |h|, h);
      assert Hex4(n) == Fill(4 - |h|, '0') + h;
    }
  }

  /** A 16-bit value prints as exactly four digits. */
  lemma Hex4Width(n: nat)
    requires n < 0x1_0000
    ensures |Hex4(n)| == 4
  {
    if n >= 16 {
      var a := n / 16;
      if a >= 16 {
        var b := a / 16;
        if b >= 16 {
          var c := b / 16;
          assert c < 16;
          assert |Hex(c)| == 1;
          assert |Hex(b)| == 2;
        }
        assert |Hex(b)| <= 2;
        assert |Hex(a)| <= 3;
      }
      assert |Hex(a)| <= 3;
      assert |Hex(n)| <= 4;
    }
  }

  /** `f'{s: <width}'`: s, then spaces up to the width. */
  function PadRight(s: string, width: nat): (r: string)
    ensures |r| == if |s| < width then width else |s|
    ensures r[..|s|] == s
    ensures forall i :: |s| <= i < |r| ==> r[i] == ' '
  {
    if |s| < width then s + Fill(width - |s|, ' ') else s
  }
}

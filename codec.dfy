/** Text encodings the model needs in place of the JavaScript library calls it does not
    model: decimal numbers (`toString`, `parseInt`), an escaped, comma-separated list of
    fields standing for `JSON.stringify`/`JSON.parse` of a flat record, and `split`. The
    field encoding never produces '.', which is what base64url guarantees for the parts of
    a token. */
module Codec {
  import opened Wrappers
  import Text

  predicate IsDigit(c: char) {
    '0' <= c <= '9'
  }

  predicate AllDigits(s: string) {
    forall i :: 0 <= i < |s| ==> IsDigit(s[i])
  }

  function DigitChar(d: nat): (c: char)
    requires d < 10
    ensures IsDigit(c)
  {
    ('0' as int + d) as char
  }

  /** Decimal rendering of a natural number, as `Number.prototype.toString` gives it. */
  function NatToString(n: nat): (s: string)
    ensures s != [] && AllDigits(s)
  {
    if n < 10 then [DigitChar(n)] else NatToString(n / 10) + [DigitChar(n % 10)]
  }

  /** The value of a string of decimal digits, most significant first. */
  function DigitsValue(s: string): nat
    requires AllDigits(s)
  {
    if s == [] then 0 else DigitsValue(s[..|s| - 1]) * 10 + (s[|s| - 1] as int - '0' as int)
  }

  /** Reads a natural number written in decimal and nothing else. */
  function ParseNat(s: string): Option<nat> {
    if s != [] && AllDigits(s) then Some(DigitsValue(s)) else None
  }

  lemma {:induction false} ParseNatToString(n: nat)
    ensures ParseNat(NatToString(n)) == Some(n)
  {
    var s := NatToString(n);
    if n >= 10 {
      ParseNatToString(n / 10);
      assert s[..|s| - 1] == NatToString(n / 10);
      assert s[|s| - 1] == DigitChar(n % 10);
      assert DigitsValue(s) == (n / 10) * 10 + n % 10;
    } else {
      assert s == [DigitChar(n)];
      assert DigitsValue(s) == DigitsValue([]) * 10 + n;
    }
  }

  /** Length of the longest prefix of s made of decimal digits. */
  function DigitPrefix(s: string): (k: nat)
    ensures k <= |s| && AllDigits(s[..k])
    ensures k == |s| || !IsDigit(s[k])
  {
    if s != [] && IsDigit(s[0]) then
      var k := 1 + DigitPrefix(s[1..]);
      assert s[..k] == [s[0]] + s[1..][..k - 1];
      k
    else 0
  }

  /** The digits that open s, read as a number; None when s does not open with a digit. */
  function LeadingNumber(s: string): (r: Option<nat>)
    ensures r.None? <==> s == [] || !IsDigit(s[0])
  {
    var k := DigitPrefix(s);
    if k == 0 then None else Some(DigitsValue(s[..k]))
  }

  /** What `parseInt` reads once the whitespace is skipped: one optional sign, then as many
      digits as follow. */
  function ParseSigned(t: string): (r: Option<int>)
    ensures r.Some? ==> t != []
  {
    var neg := t != [] && t[0] == '-';
    var body := if t != [] && (t[0] == '-' || t[0] == '+') then t[1..] else t;
    match LeadingNumber(body)
    case None => None
    case Some(v) => Some(if neg then -(v as int) else v as int)
  }

  /** `parseInt(s)` for decimal text: leading whitespace, an optional sign, then as many
      digits as follow; None is NaN (no digit where the number should start). */
  function ParseIntPrefix(s: string): (r: Option<int>)
    ensures r.Some? ==> !Text.AllSpace(s)
  {
    var t := s[Text.LeadingSpaces(s)..];
    var r := ParseSigned(t);
    assert r.Some? ==> !Text.AllSpace(s) by {
      if r.Some? {
        assert s[Text.LeadingSpaces(s)] == t[0];
      }
    }
    r
  }

  /** Leading whitespace followed by anything else is counted exactly. */
  lemma {:induction false} LeadingSpacesOf(pre: string, rest: string)
    requires Text.AllSpace(pre) && rest != [] && !Text.IsSpace(rest[0])
    ensures Text.LeadingSpaces(pre + rest) == |pre|
  {
    var s := pre + rest;
    assert !Text.IsSpace(s[|pre|]);
    assert forall i :: 0 <= i < |pre| ==> Text.IsSpace(s[i]) by {
      forall i | 0 <= i < |pre| ensures Text.IsSpace(s[i]) {
        assert s[i] == pre[i];
      }
    }
  }

  /** The digits of a numeral end where a non-digit starts. */
  lemma {:induction false} DigitPrefixOf(d: string, suffix: string)
    requires AllDigits(d) && (suffix == [] || !IsDigit(suffix[0]))
    ensures DigitPrefix(d + suffix) == |d|
  {
    if d == [] {
      assert d + suffix == suffix;
    } else {
      assert (d + suffix)[1..] == d[1..] + suffix;
      DigitPrefixOf(d[1..], suffix);
    }
  }

  /** A numeral followed by a non-digit reads as the numeral's value. */
  lemma {:induction false} LeadingNumberOf(d: string, suffix: string)
    requires d != [] && AllDigits(d) && (suffix == [] || !IsDigit(suffix[0]))
    ensures LeadingNumber(d + suffix) == Some(DigitsValue(d))
  {
    DigitPrefixOf(d, suffix);
    assert (d + suffix)[..|d|] == d;
  }

  /** Leading whitespace does not change what `parseInt` reads. */
  lemma {:induction false} ParseIntPrefixAfterSpaces(pre: string, rest: string)
    requires Text.AllSpace(pre) && rest != [] && !Text.IsSpace(rest[0])
    ensures ParseIntPrefix(pre + rest) == ParseSigned(rest)
  {
    LeadingSpacesOf(pre, rest);
    assert (pre + rest)[|pre|..] == rest;
  }

  /** `parseInt` reads the number written after any leading whitespace and one optional
      sign, and stops at the first character that is not a digit. */
  lemma {:induction false} ParseIntPrefixOfNumeral(pre: string, sign: string, n: nat, suffix: string)
    requires Text.AllSpace(pre) && (sign == "" || sign == "-" || sign == "+")
    requires suffix == [] || !IsDigit(suffix[0])
    ensures ParseIntPrefix(pre + sign + NatToString(n) + suffix) == Some(if sign == "-" then -(n as int) else n)
  {
    var d := NatToString(n);
    var rest := sign + (d + suffix);
    assert pre + sign + d + suffix == pre + rest;
    assert rest[0] == if sign == "" then d[0] else sign[0];
    ParseIntPrefixAfterSpaces(pre, rest);
    ParseSignedNumeral(sign, n, suffix);
  }

  /** The signed part of ParseIntPrefixOfNumeral. */
  lemma {:induction false} ParseSignedNumeral(sign: string, n: nat, suffix: string)
    requires sign == "" || sign == "-" || sign == "+"
    requires suffix == [] || !IsDigit(suffix[0])
    ensures ParseSigned(sign + (NatToString(n) + suffix)) == Some(if sign == "-" then -(n as int) else n)
  {
    var d := NatToString(n);
    ParseNatToString(n);
    assert DigitsValue(d) == n;
    LeadingNumberOf(d, suffix);
    ParseSignedDigits(sign, d + suffix);
  }

  /** After one optional sign, text that opens with a digit reads as its leading number. */
  lemma {:induction false} ParseSignedDigits(sign: string, body: string)
    requires (sign == "" || sign == "-" || sign == "+") && body != [] && IsDigit(body[0])
    ensures LeadingNumber(body).Some?
    ensures ParseSigned(sign + body)
         == Some(if sign == "-" then -(LeadingNumber(body).value as int) else LeadingNumber(body).value)
  {
    var t := sign + body;
    if sign == "" {
      assert t == body;
      assert t[0] != '-' && t[0] != '+';
    } else {
      assert t[0] == sign[0] && t[1..] == body;
    }
  }

  /** Text whose first character after the whitespace and one optional sign is no digit
      reads as NaN. */
  lemma {:induction false} ParseIntPrefixNaN(pre: string, sign: string, rest: string)
    requires Text.AllSpace(pre) && (sign == "" || sign == "-" || sign == "+")
    requires rest != [] && !IsDigit(rest[0]) && !Text.IsSpace(rest[0]) && rest[0] != '-' && rest[0] != '+'
    ensures ParseIntPrefix(pre + sign + rest).None?
  {
    var after := sign + rest;
    assert pre + sign + rest == pre + after;
    assert after[0] == if sign == "" then rest[0] else sign[0];
    ParseIntPrefixAfterSpaces(pre, after);
    if sign != "" {
      assert after[1..] == rest;
    }
  }

  /** '.' and ',' can be told apart from the text of a field only when escaped. */
  function EscapeChar(c: char): (r: string)
    ensures '.' !in r && ',' !in r && r != []
  {
    if c == '~' then "~~" else if c == ',' then "~c" else if c == '.' then "~d" else [c]
  }

  function Escape(f: string): (r: string)
    ensures '.' !in r && ',' !in r
  {
    if f == [] then [] else EscapeChar(f[0]) + Escape(f[1..])
  }

  /** One field read off the front of a text: its unescaped characters, what follows the
      comma that ended it, and whether a comma ended it (rather than the end of the text). */
  datatype FieldRead = FieldRead(text: string, rest: string, more: bool)

  function ReadField(s: string): (r: FieldRead)
    ensures r.more ==> |r.rest| < |s|
  {
    if s == [] then FieldRead([], [], false)
    else if s[0] == ',' then FieldRead([], s[1..], true)
    else if s[0] == '~' && |s| >= 2 then
      var c := if s[1] == 'c' then ',' else if s[1] == 'd' then '.' else s[1];
      var r := ReadField(s[2..]);
      FieldRead([c] + r.text, r.rest, r.more)
    else
      var r := ReadField(s[1..]);
      FieldRead([s[0]] + r.text, r.rest, r.more)
  }

  /** Splits a text into its fields. */
  function DecodeFields(s: string): (fs: seq<string>)
    ensures |fs| >= 1
    decreases |s|
  {
    var r := ReadField(s);
    if r.more then [r.text] + DecodeFields(r.rest) else [r.text]
  }

  /** Joins fields with commas, each escaped. */
  function EncodeFields(fs: seq<string>): (s: string)
    requires |fs| >= 1
    ensures '.' !in s
  {
    if |fs| == 1 then Escape(fs[0]) else Escape(fs[0]) + "," + EncodeFields(fs[1..])
  }

  /** Reading one escaped character gives back that character. */
  lemma ReadEscapedChar(c: char, tail: string)
    ensures ReadField(EscapeChar(c) + tail)
      == FieldRead([c] + ReadField(tail).text, ReadField(tail).rest, ReadField(tail).more)
  {
    var s := EscapeChar(c) + tail;
    if c == '~' || c == ',' || c == '.' {
      assert s[0] == '~' && |s| >= 2;
      assert s[2..] == tail;
    } else {
      assert s[0] == c;
      assert s[1..] == tail;
    }
  }

  /** Reading an escaped field gives back the field, and stops where the escaped text
      stops. */
  lemma {:induction false} ReadEscaped(f: string, t: string)
    requires t == [] || t[0] == ','
    ensures ReadField(Escape(f) + t) == FieldRead(f, ReadField(t).rest, ReadField(t).more)
  {
    if f == [] {
      assert Escape(f) + t == t;
    } else {
      ReadEscaped(f[1..], t);
      var tail := Escape(f[1..]) + t;
      assert Escape(f) + t == EscapeChar(f[0]) + tail;
      ReadEscapedChar(f[0], tail);
      assert f == [f[0]] + f[1..];
    }
  }

  /** Decoding undoes encoding. */
  lemma {:induction false} DecodeEncodeFields(fs: seq<string>)
    requires |fs| >= 1
    ensures DecodeFields(EncodeFields(fs)) == fs
  {
    if |fs| == 1 {
      ReadEscaped(fs[0], []);
      assert Escape(fs[0]) + [] == Escape(fs[0]);
    } else {
      var rest := EncodeFields(fs[1..]);
      var s := EncodeFields(fs);
      assert s == Escape(fs[0]) + ("," + rest);
      assert ReadField("," + rest) == FieldRead([], rest, true) by {
        assert ("," + rest)[0] == ',' && ("," + rest)[1..] == rest;
      }
      ReadEscaped(fs[0], "," + rest);
      assert ReadField(s) == FieldRead(fs[0], rest, true);
      DecodeEncodeFields(fs[1..]);
      assert DecodeFields(s) == [fs[0]] + fs[1..];
    }
  }

  /** `String.prototype.split(sep)` with a one-character separator. */
  function Split(s: string, sep: char): (parts: seq<string>)
    ensures |parts| >= 1
  {
    if s == [] then [[]]
    else
      var rest := Split(s[1..], sep);
      if s[0] == sep then [[]] + rest else [[s[0]] + rest[0]] + rest[1..]
  }

  /** Splitting a text that starts with a separator-free part a. */
  lemma {:induction false} SplitPrefix(a: string, b: string, sep: char)
    requires sep !in a
    ensures Split(a, sep) == [a]
    ensures Split(a + [sep] + b, sep) == [a] + Split(b, sep)
  {
    if a != [] {
      SplitPrefix(a[1..], b, sep);
      assert (a + [sep] + b)[1..] == a[1..] + [sep] + b;
      assert a == [a[0]] + a[1..];
    } else {
      assert a + [sep] + b == [sep] + b;
      assert ([sep] + b)[1..] == b;
    }
  }

  /** Splitting three separator-free parts joined by the separator gives them back. */
  lemma SplitThree(a: string, b: string, c: string, sep: char)
    requires sep !in a && sep !in b && sep !in c
    ensures Split(a + [sep] + b + [sep] + c, sep) == [a, b, c]
  {
    var rest := b + [sep] + c;
    assert a + [sep] + b + [sep] + c == a + [sep] + rest;
    SplitPrefix(a, rest, sep);
    SplitPrefix(b, c, sep);
    SplitPrefix(c, [], sep);
  }
}

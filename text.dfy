/**
 * The Python string operations the protocol's text frames go through:
 * `str.strip()`, `str.split("|")`, f-string formatting of integers and `int()`.
 */
module Text {
  import opened Wrappers
  import opened Seqs

  /** Python's `str.isspace()` for a single character. */
  predicate IsSpace(c: char)
  {
    ('\U{9}' <= c <= '\U{D}') || ('\U{1C}' <= c <= '\U{1F}') || c == ' '
    || c == '\U{85}' || c == '\U{A0}' || c == '\U{1680}' || ('\U{2000}' <= c <= '\U{200A}')
    || c == '\U{2028}' || c == '\U{2029}' || c == '\U{202F}' || c == '\U{205F}' || c == '\U{3000}'
  }

  /** `s.lstrip()`: a suffix of `s` that does not start with whitespace. */
  function LStrip(s: string): (r: string)
    ensures |r| <= |s| && r == s[|s| - |r|..]
    ensures forall i :: 0 <= i < |s| - |r| ==> IsSpace(s[i])
    ensures r == [] || !IsSpace(r[0])
  {
    if s != [] && IsSpace(s[0]) then
      var r := LStrip(s[1..]);
      DropDrop(s, 1, |s| - 1 - |r|);
      r
    else
      s
  }

  /** `s.rstrip()`: a prefix of `s` that does not end with whitespace. */
  function RStrip(s: string): (r: string)
    ensures |r| <= |s| && r == s[..|r|]
    ensures forall i :: |r| <= i < |s| ==> IsSpace(s[i])
    ensures r == [] || !IsSpace(r[|r| - 1])
  {
    if s != [] && IsSpace(s[|s| - 1]) then RStrip(s[..|s| - 1]) else s
  }

  /** `s.strip()`: `s` without its leading and trailing whitespace. */
  function Strip(s: string): (r: string)
  {
    RStrip(LStrip(s))
  }

  /** `strip()` keeps the slice that starts where `lstrip()` stops. */
  lemma StripBounds(s: string)
    ensures |s| - |LStrip(s)| + |Strip(s)| <= |s|
    ensures Strip(s) == s[|s| - |LStrip(s)|..|s| - |LStrip(s)| + |Strip(s)|]
  {
    var l := LStrip(s);
    var lo := |s| - |l|;
    var r := RStrip(l);
    assert l == s[lo..] && r == l[..|r|];
    DropTake(s, lo, |r|);
  }

  /** The stripped text starts and ends with a non-space. */
  lemma StripEnds(s: string)
    ensures Strip(s) == [] || (!IsSpace(Strip(s)[0]) && !IsSpace(Strip(s)[|Strip(s)| - 1]))
  {
    var l := LStrip(s);
    var r := RStrip(l);
    if r != [] {
      assert r[0] == l[0];
    }
  }

  /** Everything after the kept slice is whitespace. */
  lemma StripTrailing(s: string)
    ensures forall i :: |s| - |LStrip(s)| + |Strip(s)| <= i < |s| ==> IsSpace(s[i])
  {
    var l := LStrip(s);
    var lo := |s| - |l|;
    var r := RStrip(l);
    assert Strip(s) == r;
    forall i | lo + |r| <= i < |s| ensures IsSpace(s[i]) {
      assert s[i] == l[i - lo];
    }
  }

  /** Stripping never removes a character that is not whitespace. */
  lemma {:induction false} LStripKeeps(s: string, c: char)
    requires !IsSpace(c)
    ensures (c in LStrip(s)) == (c in s)
  {
    if s != [] && IsSpace(s[0]) {
      assert s[0] != c;
      assert s == [s[0]] + s[1..];
      LStripKeeps(s[1..], c);
    }
  }

  /** A string with no whitespace at either end is its own strip. */
  lemma StripNoop(s: string)
    requires s == [] || (!IsSpace(s[0]) && !IsSpace(s[|s| - 1]))
    ensures Strip(s) == s
  {
  }

  /** Leading whitespace goes; what follows a non-space stays as it is. */
  lemma {:induction false} StripPrefix(a: string, b: string)
    requires b != [] && !IsSpace(b[0]) && !IsSpace(b[|b| - 1])
    ensures Strip(a + b) == LStrip(a) + b
  {
    if a != [] && IsSpace(a[0]) {
      assert (a + b)[1..] == a[1..] + b;
      StripPrefix(a[1..], b);
    } else {
      var s := a + b;
      assert s != [] && !IsSpace(s[0]) by {
        if a == [] { assert s[0] == b[0]; } else { assert s[0] == a[0]; }
      }
      assert s[|s| - 1] == b[|b| - 1];
    }
  }

  /** `s.split(sep)`: the fields between the separators, always at least one. */
  function Split(s: string, sep: char): (r: seq<string>)
    ensures |r| >= 1
  {
    if s == [] then [[]]
    else
      var rest := Split(s[1..], sep);
      if s[0] == sep then [[]] + rest else [[s[0]] + rest[0]] + rest[1..]
  }

  /** `sep.join(fields)`, the inverse of Split. */
  function Join(fields: seq<string>, sep: char): (r: string)
    requires |fields| >= 1
  {
    if |fields| == 1 then fields[0] else fields[0] + [sep] + Join(fields[1..], sep)
  }

  predicate FreeOf(fields: seq<string>, sep: char)
  {
    forall i :: 0 <= i < |fields| ==> sep !in fields[i]
  }

  /** No field of Split contains the separator, and joining the fields gives `s` back. */
  lemma {:induction false} JoinSplit(s: string, sep: char)
    ensures FreeOf(Split(s, sep), sep)
    ensures Join(Split(s, sep), sep) == s
  {
    if s != [] {
      JoinSplit(s[1..], sep);
      var rest := Split(s[1..], sep);
      var r := Split(s, sep);
      if s[0] == sep {
        assert r[1..] == rest;
        assert s == [] + [sep] + s[1..];
      } else {
        assert r[1..] == rest[1..];
        if |rest| == 1 {
          assert s == [s[0]] + rest[0];
        } else {
          assert rest == [rest[0]] + rest[1..];
          assert s == ([s[0]] + rest[0]) + [sep] + Join(rest[1..], sep);
        }
      }
    }
  }

  /** Splitting a join of separator-free fields gives the fields back. */
  lemma {:induction false} SplitJoin(fields: seq<string>, sep: char)
    requires |fields| >= 1 && FreeOf(fields, sep)
    ensures Split(Join(fields, sep), sep) == fields
  {
    if |fields| == 1 {
      SplitFree(fields[0], sep);
    } else {
      assert FreeOf(fields[1..], sep) by {
        forall i | 0 <= i < |fields[1..]| ensures sep !in fields[1..][i] {
          assert fields[1..][i] == fields[i + 1];
        }
      }
      SplitJoin(fields[1..], sep);
      SplitCons(fields[0], Join(fields[1..], sep), sep);
      assert fields == [fields[0]] + fields[1..];
    }
  }

  /** A string without the separator is a single field. */
  lemma {:induction false} SplitFree(s: string, sep: char)
    requires sep !in s
    ensures Split(s, sep) == [s]
  {
    if s != [] {
      SplitFree(s[1..], sep);
      assert [s[0]] + s[1..] == s;
    }
  }

  /** Splitting at the first separator. */
  lemma SplitCons(a: string, b: string, sep: char)
    requires sep !in a
    ensures Split(a + [sep] + b, sep) == [a] + Split(b, sep)
  {
    SplitAppend(a, b, sep);
    SplitFree(a, sep);
  }

  /** The fields on either side of one separator, put together. */
  lemma {:induction false} SplitAppend(a: string, b: string, sep: char)
    ensures Split(a + [sep] + b, sep) == Split(a, sep) + Split(b, sep)
  {
    if a == [] {
      assert a + [sep] + b == [sep] + b;
      assert ([sep] + b)[1..] == b;
    } else {
      var s := a + [sep] + b;
      assert s[0] == a[0];
      assert s[1..] == a[1..] + [sep] + b;
      SplitAppend(a[1..], b, sep);
      var left, right := Split(a[1..], sep), Split(b, sep);
      var rest := Split(s[1..], sep);
      assert rest == left + right;
      if a[0] != sep {
        assert rest[0] == left[0];
        assert rest[1..] == left[1..] + right;
        SeqAssoc([[a[0]] + left[0]], left[1..], right);
      } else {
        SeqAssoc([[]], left, right);
      }
    }
  }

  /** A string holding the separator has at least two fields. */
  lemma SplitMany(s: string, sep: char)
    requires sep in s
    ensures |Split(s, sep)| >= 2
  {
    var i :| 0 <= i < |s| && s[i] == sep;
    assert s == s[..i] + [sep] + s[i + 1..];
    SplitAppend(s[..i], s[i + 1..], sep);
  }

  // ---------------------------------------------------------------- integers

  predicate IsDigit(c: char)
  {
    '0' <= c <= '9'
  }

  function DigitChar(d: nat): (c: char)
    requires d < 10
    ensures IsDigit(c) && c as int - '0' as int == d
  {
    ('0' as int + d) as char
  }

  /** The decimal form of a non-negative integer, without leading zeros. */
  function FormatNat(n: nat): (r: string)
    ensures r != []
  {
    if n < 10 then [DigitChar(n)] else FormatNat(n / 10) + [DigitChar(n % 10)]
  }

  /** Every character of the decimal form is a digit. */
  lemma {:induction false} FormatNatDigits(n: nat)
    ensures forall i :: 0 <= i < |FormatNat(n)| ==> IsDigit(FormatNat(n)[i])
  {
    if n >= 10 {
      FormatNatDigits(n / 10);
      var s := FormatNat(n);
      assert forall i :: 0 <= i < |s| - 1 ==> s[i] == FormatNat(n / 10)[i];
    }
  }

  /** The decimal form has no leading zero: it starts with `0` only for zero itself. */
  lemma {:induction false} FormatNatNoLeadingZero(n: nat)
    ensures FormatNat(n)[0] == '0' <==> n == 0
  {
    if n >= 10 {
      FormatNatNoLeadingZero(n / 10);
      assert FormatNat(n)[0] == FormatNat(n / 10)[0];
    }
  }

  /** A larger number has at least as many digits. */
  lemma {:induction false} FormatNatMonotone(a: nat, b: nat)
    requires a <= b
    ensures |FormatNat(a)| <= |FormatNat(b)|
  {
    if 10 <= a {
      FormatNatMonotone(a / 10, b / 10);
    }
  }

  /** `f"{n}"` for an integer `n`. */
  function FormatInt(n: int): (r: string)
  {
    if n < 0 then "-" + FormatNat(-n) else FormatNat(n)
  }

  /**
   * The body Python's `int()` accepts after the sign: ASCII digits, with
   * single underscores allowed between two digits.
   */
  predicate IsDigitBody(s: string)
  {
    s != [] && IsDigit(s[0]) && IsDigit(s[|s| - 1])
    && (forall i :: 0 <= i < |s| ==> IsDigit(s[i]) || s[i] == '_')
    && (forall i :: 0 <= i < |s| - 1 ==> !(s[i] == '_' && s[i + 1] == '_'))
  }

  /** The value of a digit body; underscores are only separators. */
  function DigitsValue(s: string): (r: nat)
  {
    if s == [] then 0
    else
      var last := s[|s| - 1];
      if IsDigit(last) then DigitsValue(s[..|s| - 1]) * 10 + (last as int - '0' as int)
      else DigitsValue(s[..|s| - 1])
  }

  /**
   * The whitespace `int()` trims. It first turns non-ASCII whitespace into
   * spaces and leaves every ASCII character as it is, then trims only
   * `\t\n\v\f\r` and space; so the ASCII separators U+001C..U+001F, which
   * `str.isspace()` counts as whitespace, are not trimmed.
   */
  predicate IsIntSpace(c: char)
  {
    IsSpace(c) && !('\U{1C}' <= c <= '\U{1F}')
  }

  /**
   * The leading trim of `int()`: a suffix that does not start with its whitespace.
   * `IntLStrip` and `IntRStrip` are `LStrip` and `RStrip` over `IsIntSpace`. They are
   * not one pair of trims taking the whitespace set as a parameter, because with that
   * shared definition the lemmas below about concrete characters (`IntStripNarrower`,
   * `IntStripOneSpace`) and `Server.MetadataSeparatorRefused` become too costly for the
   * solver on some seeds.
   */
  function IntLStrip(s: string): (r: string)
    ensures |r| <= |s| && r == s[|s| - |r|..]
    ensures forall i :: 0 <= i < |s| - |r| ==> IsIntSpace(s[i])
    ensures r == [] || !IsIntSpace(r[0])
  {
    if s != [] && IsIntSpace(s[0]) then
      var r := IntLStrip(s[1..]);
      DropDrop(s, 1, |s| - 1 - |r|);
      r
    else
      s
  }

  /** The trailing trim of `int()`: a prefix that does not end with its whitespace. */
  function IntRStrip(s: string): (r: string)
    ensures |r| <= |s| && r == s[..|r|]
    ensures forall i :: |r| <= i < |s| ==> IsIntSpace(s[i])
    ensures r == [] || !IsIntSpace(r[|r| - 1])
  {
    if s != [] && IsIntSpace(s[|s| - 1]) then IntRStrip(s[..|s| - 1]) else s
  }

  /** The text `int()` reads once it has trimmed its whitespace at both ends. */
  function IntStrip(s: string): (r: string)
  {
    IntRStrip(IntLStrip(s))
  }

  /** A string with none of `int()`'s whitespace at either end is left as it is. */
  lemma IntStripNoop(s: string)
    requires s == [] || (!IsIntSpace(s[0]) && !IsIntSpace(s[|s| - 1]))
    ensures IntStrip(s) == s
  {
  }

  /** `int(s)` for a string: None stands for the ValueError it raises. */
  function ParseInt(s: string): (r: Option<int>)
  {
    ParseTrimmed(IntStrip(s))
  }

  /** What `int()` reads once its whitespace is trimmed: an optional sign and a digit body. */
  function ParseTrimmed(t: string): (r: Option<int>)
  {
    if t != [] && (t[0] == '-' || t[0] == '+') then
      if IsDigitBody(t[1..]) then
        var v: int := DigitsValue(t[1..]);
        Some(if t[0] == '-' then -v else v)
      else None
    else if IsDigitBody(t) then Some(DigitsValue(t))
    else None
  }

  lemma {:induction false} DigitsValueFormatNat(n: nat)
    ensures DigitsValue(FormatNat(n)) == n
  {
    if n >= 10 {
      var s := FormatNat(n);
      assert s[..|s| - 1] == FormatNat(n / 10);
      DigitsValueFormatNat(n / 10);
    }
  }

  lemma FormatNatIsBody(n: nat)
    ensures IsDigitBody(FormatNat(n))
  {
    FormatNatDigits(n);
  }

  /** The formatted integer has no whitespace, no `|` and no underscore. */
  lemma FormatIntChars(n: int)
    ensures FormatInt(n) != []
    ensures forall i :: 0 <= i < |FormatInt(n)| ==> !IsSpace(FormatInt(n)[i])
    ensures '|' !in FormatInt(n)
    ensures forall i :: 0 <= i < |FormatInt(n)| ==> FormatInt(n)[i] as int < 0x80
  {
    var s := FormatInt(n);
    if n < 0 {
      FormatNatDigits(-n);
      assert forall i :: 1 <= i < |s| ==> s[i] == FormatNat(-n)[i - 1];
    } else {
      FormatNatDigits(n);
    }
  }

  lemma ParseUnsigned(t: string)
    requires IsDigitBody(t)
    ensures ParseInt(t) == Some(DigitsValue(t) as int)
  {
    DigitNotSpace(t[0]);
    DigitNotSpace(t[|t| - 1]);
    IntStripNoop(t);
    ParseBareDigits(t);
  }

  lemma ParseBareDigits(t: string)
    requires IntStrip(t) == t && t != [] && IsDigit(t[0]) && IsDigitBody(t)
    ensures ParseInt(t) == Some(DigitsValue(t) as int)
  {
  }

  lemma DigitNotSpace(c: char)
    requires IsDigit(c)
    ensures !IsSpace(c)
  {
  }

  lemma ParseNegative(t: string)
    requires IsDigitBody(t)
    ensures ParseInt("-" + t) == Some(-(DigitsValue(t) as int))
  {
    var s := "-" + t;
    assert s[1..] == t;
    assert s[|s| - 1] == t[|t| - 1];
    DigitNotSpace(t[|t| - 1]);
    IntStripNoop(s);
  }

  /**
   * `int()` trims less than `strip()`: a leading U+001C is whitespace to
   * `strip()` but makes `int()` fail, while a leading space is trimmed by both.
   */
  lemma IntStripNarrower()
    ensures Strip("\U{1C}5") == "5" && ParseInt("\U{1C}5") == None
    ensures Strip(" 5") == "5" && ParseInt(" 5") == Some(5)
  {
    StripOneSpace('\U{1C}', '5');
    StripOneSpace(' ', '5');
    IntStripKeeps('\U{1C}', '5');
    ParseRefuses("\U{1C}5");
    IntStripOneSpace(' ', '5');
    ParseOneDigit('5');
    ParseAfterTrim(" 5", "5");
  }

  lemma StripOneSpace(c: char, d: char)
    requires IsSpace(c) && !IsSpace(d)
    ensures Strip([c, d]) == [d]
  {
    calc {
      Strip([c, d]);
      RStrip(LStrip([c, d]));
      { assert [c, d][1..] == [d]; }
      RStrip(LStrip([d]));
      { StripNoop([d]); }
      [d];
    }
  }

  lemma IntStripOneSpace(c: char, d: char)
    requires IsIntSpace(c) && !IsIntSpace(d)
    ensures IntStrip([c, d]) == [d] && IntStrip([d]) == [d]
  {
    IntStripNoop([d]);
    calc {
      IntStrip([c, d]);
      IntRStrip(IntLStrip([c, d]));
      { assert [c, d][1..] == [d]; }
      IntRStrip(IntLStrip([d]));
      [d];
    }
  }

  lemma IntStripKeeps(c: char, d: char)
    requires !IsIntSpace(c) && !IsIntSpace(d)
    ensures IntStrip([c, d]) == [c, d]
  {
    IntStripNoop([c, d]);
  }

  lemma ParseOneDigit(d: char)
    requires IsDigit(d)
    ensures ParseInt([d]) == Some(d as int - '0' as int)
  {
    var t := [d];
    assert IsDigitBody(t) by {
      assert forall i :: 0 <= i < |t| ==> t[i] == d;
    }
    assert DigitsValue(t) == d as int - '0' as int by {
      assert t[..0] == [];
    }
    DigitNotSpace(d);
    IntStripNoop(t);
    ParseBareDigits(t);
  }

  /** Text that `int()` leaves untrimmed and that starts with neither a sign nor a digit is refused. */
  lemma ParseRefuses(t: string)
    requires IntStrip(t) == t && t != [] && !IsDigit(t[0]) && t[0] != '-' && t[0] != '+'
    ensures ParseInt(t) == None
  {
  }

  /** `int()` reads text as it reads the text its trimming leaves. */
  lemma ParseAfterTrim(s: string, t: string)
    requires IntStrip(s) == t && IntStrip(t) == t
    ensures ParseInt(s) == ParseInt(t)
  {
  }


  /** `int(f"{n}") == n` for every integer. */
  lemma ParseFormat(n: int)
    ensures ParseInt(FormatInt(n)) == Some(n)
  {
    var m: nat := if n < 0 then -n else n;
    var t := FormatNat(m);
    FormatNatIsBody(m);
    DigitsValueFormatNat(m);
    if n < 0 {
      FormatIntNegative(n);
      ParseNegative(t);
    } else {
      ParseUnsigned(t);
    }
  }

  lemma FormatIntNegative(n: int)
    requires n < 0
    ensures FormatInt(n) == "-" + FormatNat(-n)
  {
  }
}

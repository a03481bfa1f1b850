/** The JavaScript string operations the core relies on: `split` on a single
    character, `join`, `String(n)` for integers and `parseInt(s, 10)`. */
module Strings {

  import opened Nostr

  /** `s.split(sep)` for a one-character separator: one more part than there
      are separators, and the empty string yields `[""]`. */
  function Split(s: string, sep: char): (parts: seq<string>)
    ensures |parts| >= 1
    decreases |s|
  {
    if |s| == 0 then [""]
    else
      var rest := Split(s[1..], sep);
      if s[0] == sep then [""] + rest
      else [[s[0]] + rest[0]] + rest[1..]
  }

  /** `parts.join(sep)`. */
  function Join(parts: seq<string>, sep: string): string
    decreases |parts|
  {
    if |parts| == 0 then ""
    else if |parts| == 1 then parts[0]
    else parts[0] + sep + Join(parts[1..], sep)
  }

  /** Every occurrence of `from` replaced by `to`. */
  function Replace(s: string, from: char, to: char): (r: string)
    ensures |r| == |s|
    ensures forall i :: 0 <= i < |s| ==> r[i] == (if s[i] == from then to else s[i])
    decreases |s|
  {
    if |s| == 0 then "" else [if s[0] == from then to else s[0]] + Replace(s[1..], from, to)
  }

  /** No part of a split contains the separator. */
  lemma {:induction false} SplitPartsHaveNoSeparator(s: string, sep: char)
    ensures forall i :: 0 <= i < |Split(s, sep)| ==> sep !in Split(s, sep)[i]
    decreases |s|
  {
    if |s| > 0 {
      SplitPartsHaveNoSeparator(s[1..], sep);
    }
  }

  /** Joining the parts of a split with another character replaces the
      separator by that character; with the same character it is the identity. */
  lemma {:induction false} JoinSplit(s: string, from: char, to: char)
    ensures Join(Split(s, from), [to]) == Replace(s, from, to)
    decreases |s|
  {
    if |s| > 0 {
      var rest := Split(s[1..], from);
      JoinSplit(s[1..], from, to);
      if s[0] == from {
        assert Split(s, from) == [""] + rest;
        assert Join([""] + rest, [to]) == "" + [to] + Join(rest, [to]) by {
          assert ([""] + rest)[1..] == rest;
        }
      } else {
        var parts := Split(s, from);
        assert parts == [[s[0]] + rest[0]] + rest[1..];
        if |rest| == 1 {
          assert Join(parts, [to]) == [s[0]] + rest[0];
        } else {
          assert parts[1..] == rest[1..];
          assert Join(rest, [to]) == rest[0] + [to] + Join(rest[1..], [to]);
          assert Join(parts, [to]) == [s[0]] + rest[0] + [to] + Join(rest[1..], [to]);
        }
      }
    }
  }

  lemma ReplaceSame(s: string, c: char)
    ensures Replace(s, c, c) == s
  {
  }

  /** A string without the separator splits into itself. */
  lemma {:induction false} SplitWithoutSeparator(s: string, sep: char)
    requires sep !in s
    ensures Split(s, sep) == [s]
    decreases |s|
  {
    if |s| > 0 {
      SplitWithoutSeparator(s[1..], sep);
      assert [s[0]] + s[1..] == s;
    }
  }

  /** Splitting at the first separator. */
  lemma {:induction false} SplitAtFirst(x: string, sep: char, y: string)
    requires sep !in x
    ensures Split(x + [sep] + y, sep) == [x] + Split(y, sep)
    decreases |x|
  {
    if |x| == 0 {
      assert x + [sep] + y == [sep] + y;
      assert ([sep] + y)[1..] == y;
    } else {
      var s := x + [sep] + y;
      assert s[0] == x[0];
      assert s[1..] == x[1..] + [sep] + y;
      SplitAtFirst(x[1..], sep, y);
      assert [x[0]] + x[1..] == x;
    }
  }

  /** Three separator-free parts joined by the separator split back into them. */
  lemma SplitThree(a: string, b: string, d: string, sep: char)
    requires sep !in a && sep !in b && sep !in d
    ensures Split(a + [sep] + b + [sep] + d, sep) == [a, b, d]
  {
    assert a + [sep] + b + [sep] + d == a + [sep] + (b + [sep] + d);
    SplitAtFirst(a, sep, b + [sep] + d);
    SplitAtFirst(b, sep, d);
    SplitWithoutSeparator(d, sep);
  }

  // ---------------------------------------------------------------------
  // Decimal numbers

  predicate IsDigit(c: char)
  {
    '0' <= c <= '9'
  }

  function DigitChar(d: nat): (c: char)
    requires d < 10
    ensures IsDigit(c) && c as int - '0' as int == d
  {
    ('0' as int + d) as char
  }

  /** The decimal numeral of a natural number, without leading zeros. */
  function NatToString(n: nat): (s: string)
    ensures |s| > 0
    ensures forall i :: 0 <= i < |s| ==> IsDigit(s[i])
  {
    if n < 10 then [DigitChar(n)] else NatToString(n / 10) + [DigitChar(n % 10)]
  }

  /** `String(i)` for an integer. */
  function IntToString(i: int): (s: string)
    ensures |s| > 0
  {
    if i < 0 then "-" + NatToString(-i) else NatToString(i)
  }

  /** The value of a numeral (read left to right). */
  function DigitsValue(ds: string): nat
    requires forall i :: 0 <= i < |ds| ==> IsDigit(ds[i])
  {
    if |ds| == 0 then 0
    else
      var last := ds[|ds| - 1];
      assert IsDigit(last);
      DigitsValue(ds[..|ds| - 1]) * 10 + (last as int - '0' as int)
  }

  /** The longest prefix of decimal digits. */
  function LeadingDigits(s: string): (ds: string)
    ensures |ds| <= |s| && ds == s[..|ds|]
    ensures forall i :: 0 <= i < |ds| ==> IsDigit(ds[i])
    ensures |ds| < |s| ==> !IsDigit(s[|ds|])
  {
    if |s| > 0 && IsDigit(s[0]) then [s[0]] + LeadingDigits(s[1..]) else ""
  }

  /** StrWhiteSpaceChar of ECMA-262: white space and line terminators,
      including every Unicode space separator. */
  predicate IsJsWhiteSpace(c: char)
  {
    var n := c as int;
    n == 0x09 || n == 0x0A || n == 0x0B || n == 0x0C || n == 0x0D || n == 0x20
    || n == 0xA0 || n == 0x1680 || (0x2000 <= n <= 0x200A) || n == 0x2028
    || n == 0x2029 || n == 0x202F || n == 0x205F || n == 0x3000 || n == 0xFEFF
  }

  function TrimStart(s: string): (t: string)
    ensures |t| <= |s| && t == s[|s| - |t|..]
    ensures |t| > 0 ==> !IsJsWhiteSpace(t[0])
  {
    if |s| > 0 && IsJsWhiteSpace(s[0]) then TrimStart(s[1..]) else s
  }

  /** `parseInt(s, 10)`, with None for NaN: leading white space is skipped,
      one sign is accepted, and the longest run of digits after it is read;
      anything after that run is ignored. */
  function ParseInt(s: string): (r: Option<int>)
  {
    var t := TrimStart(s);
    var negative := |t| > 0 && t[0] == '-';
    var u := if |t| > 0 && (t[0] == '-' || t[0] == '+') then t[1..] else t;
    var z := LeadingDigits(u);
    var v: int := if z == "" then 0 else DigitsValue(z);
    if z == "" then None else Some(if negative then -v else v)
  }

  lemma {:induction false} DigitsValueOfNatToString(n: nat)
    ensures DigitsValue(NatToString(n)) == n
  {
    if n >= 10 {
      var s := NatToString(n);
      assert s[..|s| - 1] == NatToString(n / 10);
      DigitsValueOfNatToString(n / 10);
    }
  }

  lemma LeadingDigitsOfDigits(s: string)
    requires forall i :: 0 <= i < |s| ==> IsDigit(s[i])
    ensures LeadingDigits(s) == s
  {
  }

  /** `parseInt(String(i), 10) == i` for every integer. */
  lemma ParseIntOfIntToString(i: int)
    ensures ParseInt(IntToString(i)) == Some(i)
  {
    var s := IntToString(i);
    var m: nat := if i < 0 then -i else i;
    var digits := NatToString(m);
    assert !IsJsWhiteSpace(s[0]);
    assert TrimStart(s) == s;
    LeadingDigitsOfDigits(digits);
    DigitsValueOfNatToString(m);
    if i < 0 {
      assert s[1..] == digits;
    }
  }

  /** A decimal numeral never contains the address separator. */
  lemma IntToStringHasNoColon(i: int)
    ensures ':' !in IntToString(i)
  {
    var s := IntToString(i);
    var m: nat := if i < 0 then -i else i;
    var digits := NatToString(m);
    forall k | 0 <= k < |s|
      ensures s[k] != ':'
    {
      if i < 0 {
        if k > 0 {
          assert s[k] == digits[k - 1];
        }
      } else {
        assert s[k] == digits[k];
      }
    }
  }
}

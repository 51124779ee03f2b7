/** Text helpers the document passes rely on: Python's `str(int)`, the integer
    text accepted by `pd.to_numeric`, `str.strip()` and `str.join`. */
module Text {
  import opened Wrappers

  predicate IsDigit(c: char) {
    '0' <= c <= '9'
  }

  predicate AllDigits(s: string) {
    forall k :: 0 <= k < |s| ==> IsDigit(s[k])
  }

  function DigitChar(d: nat): (c: char)
    requires d < 10
    ensures IsDigit(c) && c as int - '0' as int == d
  {
    ('0' as int + d) as char
  }

  function DigitValue(c: char): nat
    requires IsDigit(c)
  {
    c as int - '0' as int
  }

  /** Decimal digits of a natural number, most significant first, no leading zeros. */
  function NatToString(n: nat): (s: string)
    ensures |s| >= 1 && AllDigits(s)
    ensures |s| > 1 ==> s[0] != '0'
    decreases n
  {
    if n < 10 then [DigitChar(n)] else NatToString(n / 10) + [DigitChar(n % 10)]
  }

  /** Python's `str` of an integer: a minus sign for negatives, then the digits. */
  function IntToString(i: int): (s: string)
    ensures |s| >= 1 && (IsDigit(s[0]) || s[0] == '-')
  {
    if i < 0 then "-" + NatToString(-i) else NatToString(i)
  }

  /** The value of a non-empty run of decimal digits. */
  function DigitsValue(s: string): nat
    requires AllDigits(s)
  {
    if s == [] then 0 else DigitsValue(s[..|s| - 1]) * 10 + DigitValue(s[|s| - 1])
  }

  /** The integer texts `pd.to_numeric` turns into numbers: an optional minus
      sign followed by at least one decimal digit. */
  predicate IsIntegerText(s: string) {
    (|s| >= 1 && AllDigits(s)) || (|s| >= 2 && s[0] == '-' && AllDigits(s[1..]))
  }

  /** Integer parsing as `pd.to_numeric(..., errors="coerce")` does it on a text
      value: a text that is not a number gives a missing value rather than an error. */
  function ParseInt(s: string): (r: Option<int>)
    ensures r.Some? <==> IsIntegerText(s)
  {
    if |s| >= 2 && s[0] == '-' && AllDigits(s[1..]) then Some(-(DigitsValue(s[1..]) as int))
    else if |s| >= 1 && AllDigits(s) then Some(DigitsValue(s))
    else None
  }

  lemma {:induction false} DigitsValueOfNatToString(n: nat)
    ensures DigitsValue(NatToString(n)) == n
    decreases n
  {
    var s := NatToString(n);
    if n < 10 {
      assert s[..|s| - 1] == [];
    } else {
      DigitsValueOfNatToString(n / 10);
      assert s[..|s| - 1] == NatToString(n / 10);
    }
  }

  /** Reading back the text `str` writes gives the same integer. */
  lemma ParseIntToString(i: int)
    ensures ParseInt(IntToString(i)) == Some(i)
  {
    if i < 0 {
      ParseNegative(-i);
    } else {
      ParseNatural(i);
    }
  }

  lemma ParseNatural(n: nat)
    ensures ParseInt(NatToString(n)) == Some(n)
  {
    var s := NatToString(n);
    assert IsDigit(s[0]);
    DigitsValueOfNatToString(n);
    assert ParseInt(s) == Some(DigitsValue(s));
  }

  lemma ParseNegative(n: nat)
    ensures ParseInt("-" + NatToString(n)) == Some(-(n as int))
  {
    var digits := NatToString(n);
    var s := "-" + digits;
    assert s[0] == '-' && s[1..] == digits;
    DigitsValueOfNatToString(n);
    assert ParseInt(s) == Some(-(DigitsValue(digits) as int));
  }

  /** Distinct integers have distinct texts. */
  lemma IntToStringInjective(a: int, b: int)
    ensures IntToString(a) == IntToString(b) ==> a == b
  {
    ParseIntToString(a);
    ParseIntToString(b);
  }

  /** The characters Python's `str.isspace()` accepts, which `str.strip()` removes. */
  predicate IsSpace(c: char) {
    var n := c as int;
    (0x09 <= n <= 0x0D) || (0x1C <= n <= 0x20) || n == 0x85 || n == 0xA0 || n == 0x1680
    || (0x2000 <= n <= 0x200A) || n == 0x2028 || n == 0x2029 || n == 0x202F
    || n == 0x205F || n == 0x3000
  }

  /** `str.lstrip()`: the longest suffix that does not start with whitespace. */
  function TrimStart(s: string): (t: string)
    ensures |t| <= |s| && s[|s| - |t|..] == t
    ensures forall k :: 0 <= k < |s| - |t| ==> IsSpace(s[k])
    ensures t == [] || !IsSpace(t[0])
  {
    if s != [] && IsSpace(s[0]) then TrimStart(s[1..]) else s
  }

  /** `str.rstrip()`: the longest prefix that does not end with whitespace. */
  function TrimEnd(s: string): (t: string)
    ensures |t| <= |s| && s[..|t|] == t
    ensures forall k :: |t| <= k < |s| ==> IsSpace(s[k])
    ensures t == [] || !IsSpace(t[|t| - 1])
  {
    if s != [] && IsSpace(s[|s| - 1]) then TrimEnd(s[..|s| - 1]) else s
  }

  /** `str.strip()`. */
  function Trim(s: string): string {
    TrimEnd(TrimStart(s))
  }

  /** Stripping keeps one slice of the text and cuts only whitespace before and
      after it. */
  lemma TrimSlice(s: string) returns (a: nat, b: nat)
    ensures 0 <= a <= b <= |s| && s[a..b] == Trim(s)
    ensures forall k :: 0 <= k < a ==> IsSpace(s[k])
    ensures forall k :: b <= k < |s| ==> IsSpace(s[k])
  {
    var u := TrimStart(s);
    var t := TrimEnd(u);
    a := |s| - |u|;
    b := a + |t|;
    assert s[a..] == u;
    assert s[a..b] == u[..|t|];
    assert forall k :: b <= k < |s| ==> s[k] == u[k - a];
  }

  /** Trimming leaves no whitespace at either end, and trimming again changes
      nothing; what it removed is whitespace (the contracts of TrimStart and TrimEnd). */
  lemma TrimIdempotent(s: string)
    ensures var t := Trim(s); (t == [] || (!IsSpace(t[0]) && !IsSpace(t[|t| - 1]))) && Trim(t) == t
  {
    var u := TrimStart(s);
    var t := TrimEnd(u);
    assert t != [] ==> t[0] == u[0];
    assert TrimStart(t) == t;
  }

  /** A text without whitespace at either end is left as it is. */
  lemma TrimUnchanged(s: string)
    requires s == [] || (!IsSpace(s[0]) && !IsSpace(s[|s| - 1]))
    ensures Trim(s) == s
  {
    assert TrimStart(s) == s;
  }

  /** The total length of a list of texts. */
  function TotalLength(parts: seq<string>): nat {
    if parts == [] then 0 else |parts[0]| + TotalLength(parts[1..])
  }

  /** `sep.join(parts)`: the parts in order, starting with the first, with one
      separator between each two neighbours. */
  function Join(parts: seq<string>, sep: string): (r: string)
    ensures parts == [] ==> r == ""
    ensures parts != [] ==> |r| == TotalLength(parts) + (|parts| - 1) * |sep|
    ensures parts != [] ==> r[..|parts[0]|] == parts[0]
  {
    if parts == [] then ""
    else if |parts| == 1 then parts[0]
    else parts[0] + sep + Join(parts[1..], sep)
  }

  /** A slice of the right operand of a concatenation, taken in the whole. */
  lemma SliceOfConcat(r: string, a: string, b: string, x: nat, len: nat, at: nat)
    requires r == a + b && x + len <= |b| && at == |a| + x
    ensures at + len <= |r| && r[at..at + len] == b[x..x + len]
  {
    assert r[at..at + len] == b[x..x + len];
  }

  /** The parts before position i are the first part and the parts of the rest
      before position i - 1. */
  lemma TotalLengthPrefix(parts: seq<string>, i: nat)
    requires 0 < i <= |parts|
    ensures TotalLength(parts[..i]) == |parts[0]| + TotalLength(parts[1..][..i - 1])
  {
    assert parts[..i][1..] == parts[1..][..i - 1];
  }

  /** Where part i starts in `sep.join(parts)`, counted part by part. */
  function PartOffset(parts: seq<string>, sep: string, i: nat): nat
    requires i < |parts|
  {
    if i == 0 then 0 else |parts[0]| + |sep| + PartOffset(parts[1..], sep, i - 1)
  }

  /** The offset of part i is the length of the parts before it plus one
      separator for each of them. */
  lemma {:induction false} PartOffsetFormula(parts: seq<string>, sep: string, i: nat)
    requires i < |parts|
    ensures PartOffset(parts, sep, i) == TotalLength(parts[..i]) + i * |sep|
  {
    if i == 0 {
      assert parts[..0] == [];
    } else {
      PartOffsetFormula(parts[1..], sep, i - 1);
      TotalLengthPrefix(parts, i);
      assert i * |sep| == (i - 1) * |sep| + |sep|;
    }
  }

  /** Where each part sits in `sep.join(parts)`: part i starts after the parts
      before it and one separator after each of them, and is followed by a
      separator unless it is the last. */
  lemma JoinLayout(parts: seq<string>, sep: string, i: nat)
    requires i < |parts|
    ensures var r := Join(parts, sep);
      var off := TotalLength(parts[..i]) + i * |sep|;
      && off + |parts[i]| <= |r| && r[off..off + |parts[i]|] == parts[i]
      && (i < |parts| - 1 ==>
            off + |parts[i]| + |sep| <= |r| && r[off + |parts[i]|..off + |parts[i]| + |sep|] == sep)
  {
    PartOffsetFormula(parts, sep, i);
    JoinPart(parts, sep, i);
    if i < |parts| - 1 {
      JoinSeparator(parts, sep, i);
    }
  }

  /** The first part opens the joined text, followed by a separator when more
      parts come. */
  lemma JoinHead(parts: seq<string>, sep: string)
    requires parts != []
    ensures var r := Join(parts, sep); var n := |parts[0]|;
      && n <= |r| && r[0..n] == parts[0]
      && (1 < |parts| ==> n + |sep| <= |r| && r[n..n + |sep|] == sep)
  {
    var r := Join(parts, sep);
    var n := |parts[0]|;
    assert r[0..n] == r[..n];
    if 1 < |parts| {
      var tail := Join(parts[1..], sep);
      assert r == parts[0] + (sep + tail);
      SliceOfConcat(r, parts[0], sep + tail, 0, |sep|, n);
      assert (sep + tail)[0..|sep|] == sep;
    }
  }

  /** A join of two or more parts: the first part and a separator, then the
      rest joined. */
  lemma JoinCons(parts: seq<string>, sep: string)
    requires 1 < |parts|
    ensures Join(parts, sep) == (parts[0] + sep) + Join(parts[1..], sep)
  {
  }

  /** The induction behind JoinLayout for the parts, on the offset counted part
      by part. */
  lemma {:induction false} JoinPart(parts: seq<string>, sep: string, i: nat)
    requires i < |parts|
    ensures var off := PartOffset(parts, sep, i);
      off + |parts[i]| <= |Join(parts, sep)| && Join(parts, sep)[off..off + |parts[i]|] == parts[i]
    decreases i
  {
    if i == 0 {
      JoinHead(parts, sep);
    } else {
      var rest := parts[1..];
      JoinPart(rest, sep, i - 1);
      JoinCons(parts, sep);
      SliceOfConcat(Join(parts, sep), parts[0] + sep, Join(rest, sep),
                    PartOffset(rest, sep, i - 1), |parts[i]|, PartOffset(parts, sep, i));
    }
  }

  /** The induction behind JoinLayout for the separators. */
  lemma {:induction false} JoinSeparator(parts: seq<string>, sep: string, i: nat)
    requires i < |parts| - 1
    ensures var at := PartOffset(parts, sep, i) + |parts[i]|;
      at + |sep| <= |Join(parts, sep)| && Join(parts, sep)[at..at + |sep|] == sep
    decreases i
  {
    if i == 0 {
      JoinHead(parts, sep);
    } else {
      var rest := parts[1..];
      JoinSeparator(rest, sep, i - 1);
      JoinCons(parts, sep);
      SliceOfConcat(Join(parts, sep), parts[0] + sep, Join(rest, sep),
                    PartOffset(rest, sep, i - 1) + |parts[i]|, |sep|, PartOffset(parts, sep, i) + |parts[i]|);
    }
  }
}

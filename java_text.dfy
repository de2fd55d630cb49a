/** The parts of `java.lang.String`, `Integer`, `Long` and `Boolean` that the
    core relies on, with Java's own edge cases: `trim` strips every character up
    to U+0020, `split` with limit 0 drops trailing empty pieces, `split` with a
    positive limit keeps them, `replace` scans left to right without overlap. */
module JavaText {
  import opened Wrappers

  // ---------------------------------------------------------------- prefixes

  predicate StartsWith(s: string, p: string)
  {
    |p| <= |s| && s[..|p|] == p
  }

  predicate EndsWith(s: string, p: string)
  {
    |p| <= |s| && s[|s| - |p|..] == p
  }

  /** `s.contains(p)`: some position of `s` starts an occurrence of `p`. */
  predicate Contains(s: string, p: string)
    decreases |s|
  {
    StartsWith(s, p) || (s != [] && Contains(s[1..], p))
  }

  lemma {:induction false} ContainsAt(s: string, p: string, k: nat)
    requires k + |p| <= |s| && s[k..k + |p|] == p
    ensures Contains(s, p)
    decreases k
  {
    if k > 0 {
      assert s[1..][k - 1..k - 1 + |p|] == s[k..k + |p|];
      ContainsAt(s[1..], p, k - 1);
    } else {
      assert s[..|p|] == s[0..|p|];
    }
  }

  /** Text lacking one of the pattern's characters cannot contain the pattern. */
  lemma {:induction false} NoCharNoContains(s: string, p: string, i: nat)
    requires i < |p| && p[i] !in s
    ensures !Contains(s, p)
    decreases |s|
  {
    if i < |s| {
      assert s[i] in s;
      if |p| <= |s| {
        assert s[..|p|][i] == s[i];
      }
    }
    assert !StartsWith(s, p);
    if s != [] {
      assert forall c :: c in s[1..] ==> c in s;
      NoCharNoContains(s[1..], p, i);
    }
  }

  /** An occurrence cannot straddle a character that does not occur in the pattern. */
  lemma {:induction false} NoOccurrenceAcross(a: string, b: string, p: string)
    requires a != [] && a[|a| - 1] !in p
    requires !Contains(a, p) && !Contains(b, p)
    ensures !Contains(a + b, p)
    decreases |a|
  {
    if |p| <= |a| {
      assert (a + b)[..|p|] == a[..|p|];
    } else {
      assert (a + b)[|a| - 1] == a[|a| - 1];
    }
    assert !StartsWith(a + b, p);
    if |a| == 1 {
      assert (a + b)[1..] == b;
    } else {
      assert (a + b)[1..] == a[1..] + b;
      assert a[1..][|a[1..]| - 1] == a[|a| - 1];
      NoOccurrenceAcross(a[1..], b, p);
    }
  }

  /** Symmetrically, an occurrence cannot straddle the first character of the suffix. */
  lemma {:induction false} NoOccurrenceBefore(a: string, b: string, p: string)
    requires b != [] && b[0] !in p
    requires !Contains(a, p) && !Contains(b, p)
    ensures !Contains(a + b, p)
    decreases |a|
  {
    if a == [] {
      assert a + b == b;
    } else {
      if |p| <= |a| {
        assert (a + b)[..|p|] == a[..|p|];
      } else {
        assert (a + b)[|a|] == b[0];
      }
      assert !StartsWith(a + b, p);
      assert (a + b)[1..] == a[1..] + b;
      NoOccurrenceBefore(a[1..], b, p);
    }
  }

  /** Two pieces, each lacking some character of the pattern, joined at a
      character outside the pattern, do not contain the pattern. */
  lemma NoOccurrenceInPieces(a: string, b: string, p: string, i: nat, j: nat)
    requires a != [] && a[|a| - 1] !in p
    requires i < |p| && p[i] !in a && j < |p| && p[j] !in b
    ensures !Contains(a + b, p)
  {
    NoCharNoContains(a, p, i);
    NoCharNoContains(b, p, j);
    NoOccurrenceAcross(a, b, p);
  }

  /** Appending text keeps every occurrence. */
  lemma {:induction false} ContainsExtend(a: string, b: string, p: string)
    requires Contains(a, p)
    ensures Contains(a + b, p)
    decreases |a|
  {
    if StartsWith(a, p) {
      assert (a + b)[..|p|] == a[..|p|];
    } else {
      assert (a + b)[1..] == a[1..] + b;
      ContainsExtend(a[1..], b, p);
    }
  }

  /** Whatever contains a pattern contains every piece of it. */
  lemma {:induction false} ContainsPiece(s: string, p: string, q: string, i: nat)
    requires Contains(s, p) && i + |q| <= |p| && p[i..i + |q|] == q
    ensures Contains(s, q)
    decreases |s|
  {
    if StartsWith(s, p) {
      assert s[i..i + |q|] == p[i..i + |q|];
      ContainsAt(s, q, i);
    } else {
      ContainsPiece(s[1..], p, q, i);
    }
  }

  /** The characters the regex `.` does not match: Java's line terminators. */
  predicate IsLineTerminator(c: char)
  {
    c == '\n' || c == '\r' || c == '\U{0085}' || c == '\U{2028}' || c == '\U{2029}'
  }

  // ---------------------------------------------------------------- trimming

  /** `String.trim()` removes characters whose code is at most U+0020. */
  predicate IsTrimmable(c: char)
  {
    c <= ' '
  }

  function TrimStart(s: string): (r: string)
    ensures |r| <= |s|
    ensures r != [] ==> !IsTrimmable(r[0])
    ensures forall i :: 0 <= i < |s| - |r| ==> IsTrimmable(s[i])
    decreases |s|
  {
    if s != [] && IsTrimmable(s[0]) then TrimStart(s[1..]) else s
  }

  function TrimEnd(s: string): (r: string)
    ensures |r| <= |s| && r == s[..|r|]
    ensures r != [] ==> !IsTrimmable(r[|r| - 1])
    ensures forall i :: |r| <= i < |s| ==> IsTrimmable(s[i])
    decreases |s|
  {
    if s != [] && IsTrimmable(s[|s| - 1]) then TrimEnd(s[..|s| - 1]) else s
  }

  /** What `TrimStart` keeps is a suffix. (Kept out of its contract: as an
      `ensures`, `s == s[e..]` for a non-literal `e` unfolds without end.) */
  lemma {:induction false} TrimStartSuffix(s: string)
    ensures TrimStart(s) == s[|s| - |TrimStart(s)|..]
    decreases |s|
  {
    if s != [] && IsTrimmable(s[0]) {
      TrimStartSuffix(s[1..]);
      assert s[1..][|s| - 1 - |TrimStart(s)|..] == s[|s| - |TrimStart(s)|..];
    }
  }

  /** `s.trim()` */
  function Trim(s: string): string
  {
    TrimEnd(TrimStart(s))
  }

  /** `s.trim().isEmpty()` holds exactly for the strings made of trimmable characters. */
  lemma TrimEmptyIff(s: string)
    ensures Trim(s) == [] <==> forall i :: 0 <= i < |s| ==> IsTrimmable(s[i])
  {
    var t := TrimStart(s);
    TrimStartSuffix(s);
    if Trim(s) == [] {
      assert t == [];
    } else {
      assert !IsTrimmable(Trim(s)[0]);
      assert Trim(s)[0] == t[0] == s[|s| - |t|];
    }
  }

  /** A string with a non-trimmable character does not trim to nothing. */
  lemma TrimNonEmpty(s: string, k: nat)
    requires k < |s| && !IsTrimmable(s[k])
    ensures Trim(s) != []
  {
    var t := TrimStart(s);
    TrimStartSuffix(s);
    var d := |s| - |t|;
    assert k >= d;
    assert t[k - d] == s[k];
  }

  /** Text without whitespace at either end is its own trim. */
  lemma TrimUnchanged(s: string)
    requires s != [] && !IsTrimmable(s[0]) && !IsTrimmable(s[|s| - 1])
    ensures Trim(s) == s
  {
    TrimStartNoop(s);
  }

  /** Trailing whitespace after a non-trimmable character belongs to the suffix alone. */
  lemma {:induction false} TrimEndAppend(a: string, b: string)
    requires a != [] && !IsTrimmable(a[|a| - 1])
    ensures TrimEnd(a + b) == a + TrimEnd(b)
    decreases |b|
  {
    if b == [] {
      assert a + b == a;
    } else if IsTrimmable(b[|b| - 1]) {
      assert (a + b)[..|a + b| - 1] == a + b[..|b| - 1];
      TrimEndAppend(a, b[..|b| - 1]);
    } else {
      assert (a + b)[|a + b| - 1] == b[|b| - 1];
    }
  }

  lemma TrimStartNoop(s: string)
    requires s != [] && !IsTrimmable(s[0])
    ensures TrimStart(s) == s
  {
  }

  lemma {:induction false} TrimIdempotent(s: string)
    ensures Trim(Trim(s)) == Trim(s)
  {
    var t := Trim(s);
    if t != [] {
      TrimStartNoop(t);
      assert TrimEnd(t) == t;
    }
  }

  /** A trailing trimmable character does not change the trim. */
  lemma {:induction false} TrimDropLast(s: string)
    requires s != [] && IsTrimmable(s[|s| - 1])
    ensures Trim(s) == Trim(s[..|s| - 1])
    decreases |s|
  {
    var init := s[..|s| - 1];
    if IsTrimmable(s[0]) {
      if |s| > 1 {
        assert init[0] == s[0];
        assert init[1..] == s[1..][..|s| - 2];
        TrimDropLast(s[1..]);
      }
    } else {
      assert init[0] == s[0];
      TrimStartNoop(init);
    }
  }

  /** Trimming the end first changes nothing about the trim. */
  lemma {:induction false} TrimOfTrimEnd(s: string)
    ensures Trim(TrimEnd(s)) == Trim(s)
    decreases |s|
  {
    if s != [] && IsTrimmable(s[|s| - 1]) {
      TrimDropLast(s);
      TrimOfTrimEnd(s[..|s| - 1]);
    }
  }

  // ---------------------------------------------------------------- replace

  /** `s.replace(p, "")`: every occurrence found by a left-to-right scan is deleted. */
  function RemoveAll(s: string, p: string): (r: string)
    requires p != []
    ensures |r| <= |s|
    decreases |s|
  {
    if StartsWith(s, p) then RemoveAll(s[|p|..], p)
    else if s == [] then []
    else [s[0]] + RemoveAll(s[1..], p)
  }

  lemma {:induction false} RemoveAllAbsent(s: string, p: string)
    requires p != [] && !Contains(s, p)
    ensures RemoveAll(s, p) == s
    decreases |s|
  {
    if s != [] {
      RemoveAllAbsent(s[1..], p);
      assert s == [s[0]] + s[1..];
    }
  }

  // ---------------------------------------------------------------- search

  function IndexOf(s: string, c: char): (k: nat)
    requires c in s
    ensures k < |s| && s[k] == c && c !in s[..k]
  {
    if s[0] == c then 0 else 1 + IndexOf(s[1..], c)
  }

  /** `s.lastIndexOf(p)`, -1 rendered as `None`. */
  function LastIndexOf(s: string, p: string): (r: Option<nat>)
    ensures r.Some? ==> r.value + |p| <= |s| && s[r.value..r.value + |p|] == p
    decreases |s|
  {
    if |s| < |p| then None
    else if EndsWith(s, p) then Some(|s| - |p|)
    else if s == [] then None
    else LastIndexOf(s[..|s| - 1], p)
  }

  // ---------------------------------------------------------------- split

  /** The pieces of `parts` glued back together with `d` between neighbours. */
  function Join(parts: seq<string>, d: char): string
  {
    if |parts| == 0 then ""
    else if |parts| == 1 then parts[0]
    else parts[0] + [d] + Join(parts[1..], d)
  }

  /** Every piece between delimiters, including empty ones at either end. */
  function SplitAll(s: string, d: char): (parts: seq<string>)
    ensures |parts| >= 1
    ensures forall i :: 0 <= i < |parts| ==> d !in parts[i]
    ensures Join(parts, d) == s
    decreases |s|
  {
    if d !in s then [s]
    else
      var k := IndexOf(s, d);
      var rest := SplitAll(s[k + 1..], d);
      assert ([s[..k]] + rest)[1..] == rest;
      assert s == s[..k] + [d] + s[k + 1..];
      [s[..k]] + rest
  }

  function DropTrailingEmpty(parts: seq<string>): (r: seq<string>)
    ensures |r| <= |parts| && r == parts[..|r|]
    ensures r != [] ==> r[|r| - 1] != ""
    ensures forall i :: |r| <= i < |parts| ==> parts[i] == ""
  {
    if parts != [] && parts[|parts| - 1] == "" then DropTrailingEmpty(parts[..|parts| - 1]) else parts
  }

  /** `s.split(d)` (limit 0); a string without the delimiter, even the empty one, yields itself. */
  function JavaSplit(s: string, d: char): seq<string>
  {
    if d !in s then [s] else DropTrailingEmpty(SplitAll(s, d))
  }

  /** `s.split(d, limit)` for a positive limit: at most `limit` pieces, the last
      keeping every further delimiter, trailing empty pieces kept. */
  function SplitLimit(s: string, d: char, limit: nat): (parts: seq<string>)
    requires limit >= 1
    ensures 1 <= |parts| <= limit
    ensures Join(parts, d) == s
    ensures forall i :: 0 <= i < |parts| - 1 ==> d !in parts[i]
    ensures |parts| < limit ==> d !in parts[|parts| - 1]
    decreases limit
  {
    if limit == 1 || d !in s then [s]
    else
      var k := IndexOf(s, d);
      var rest := SplitLimit(s[k + 1..], d, limit - 1);
      assert ([s[..k]] + rest)[1..] == rest;
      assert s == s[..k] + [d] + s[k + 1..];
      [s[..k]] + rest
  }

  lemma {:induction false} IndexOfFirst(s: string, c: char, j: nat)
    requires j < |s| && s[j] == c && c !in s[..j]
    ensures IndexOf(s, c) == j
    decreases j
  {
    if j > 0 {
      assert s[0] == s[..j][0];
      assert s[1..][..j - 1] == s[..j][1..];
      IndexOfFirst(s[1..], c, j - 1);
    }
  }

  /** A delimiter-free leading field is split off and the rest is split with one piece fewer. */
  lemma SplitLimitField(field: string, rest: string, d: char, limit: nat)
    requires d !in field && limit >= 2
    ensures SplitLimit(field + [d] + rest, d, limit) == [field] + SplitLimit(rest, d, limit - 1)
  {
    var s := field + [d] + rest;
    assert s[|field|] == d;
    assert s[..|field|] == field;
    IndexOfFirst(s, d, |field|);
    assert s[|field| + 1..] == rest;
  }

  /** Splitting a joined sequence of delimiter-free pieces gives the pieces back. */
  lemma {:induction false} SplitAllJoin(parts: seq<string>, d: char)
    requires |parts| >= 1
    requires forall i :: 0 <= i < |parts| ==> d !in parts[i]
    ensures SplitAll(Join(parts, d), d) == parts
    decreases |parts|
  {
    if |parts| > 1 {
      var s := Join(parts, d);
      assert s == parts[0] + [d] + Join(parts[1..], d);
      assert s[|parts[0]|] == d;
      assert s[..|parts[0]|] == parts[0];
      assert d in s;
      IndexOfFirst(s, d, |parts[0]|);
      var k := |parts[0]|;
      assert s[k + 1..] == Join(parts[1..], d);
      SplitAllJoin(parts[1..], d);
      assert parts == [parts[0]] + parts[1..];
    }
  }

  /** The round trip `String.join(",", f).split(",") == f`, given that no piece
      holds the delimiter and the last piece is not empty. */
  lemma JavaSplitJoin(parts: seq<string>, d: char)
    requires |parts| >= 2
    requires forall i :: 0 <= i < |parts| ==> d !in parts[i]
    requires parts[|parts| - 1] != ""
    ensures JavaSplit(Join(parts, d), d) == parts
  {
    var s := Join(parts, d);
    assert s == parts[0] + [d] + Join(parts[1..], d);
    assert s[|parts[0]|] == d;
    SplitAllJoin(parts, d);
  }

  // ---------------------------------------------------------------- decimal numbers

  predicate IsDigit(c: char)
  {
    '0' <= c <= '9'
  }

  predicate AllDigits(s: string)
  {
    forall i :: 0 <= i < |s| ==> IsDigit(s[i])
  }

  function DigitChar(v: nat): (c: char)
    requires v < 10
    ensures IsDigit(c) && (c as int) - ('0' as int) == v
  {
    (('0' as int) + v) as char
  }

  /** The value of a string of decimal digits, most significant first. */
  function DigitsValue(s: string): nat
    requires AllDigits(s)
  {
    if s == [] then 0 else DigitsValue(s[..|s| - 1]) * 10 + ((s[|s| - 1] as int) - ('0' as int))
  }

  /** `String.valueOf(n)` for a non-negative number. */
  function NatToString(n: nat): (s: string)
    ensures |s| >= 1 && AllDigits(s)
  {
    if n < 10 then [DigitChar(n)] else NatToString(n / 10) + [DigitChar(n % 10)]
  }

  /** `String.valueOf(i)` */
  function IntToString(i: int): string
  {
    if i < 0 then "-" + NatToString(-i) else NatToString(i)
  }

  /** The numerals Java's `parseInt`/`parseLong` accept, without their range
      check, for ASCII text: an optional `+` or `-`, then at least one digit
      `0`-`9`. Java also takes the other Unicode decimal digits (through
      `Character.digit`); those are refused here. */
  function ParseInteger(s: string): Option<int>
  {
    if |s| > 0 && (s[0] == '-' || s[0] == '+') then
      if |s| > 1 && AllDigits(s[1..]) then
        var v: int := DigitsValue(s[1..]);
        Some(if s[0] == '-' then -v else v)
      else None
    else if |s| > 0 && AllDigits(s) then Some(DigitsValue(s))
    else None
  }

  const IntMin: int := -0x8000_0000
  const IntMax: int := 0x7FFF_FFFF
  const LongMin: int := -0x8000_0000_0000_0000
  const LongMax: int := 0x7FFF_FFFF_FFFF_FFFF

  /** `Integer.parseInt(s)`; `None` is the `NumberFormatException`. */
  function ParseInt(s: string): (r: Option<int>)
    ensures r.Some? ==> IntMin <= r.value <= IntMax && ParseInteger(s) == r
  {
    match ParseInteger(s)
    case Some(v) => if IntMin <= v <= IntMax then Some(v) else None
    case None => None
  }

  /** `Long.parseLong(s)`; `None` is the `NumberFormatException`. */
  function ParseLong(s: string): (r: Option<int>)
    ensures r.Some? ==> LongMin <= r.value <= LongMax && ParseInteger(s) == r
  {
    match ParseInteger(s)
    case Some(v) => if LongMin <= v <= LongMax then Some(v) else None
    case None => None
  }

  /** Two's-complement wrap-around of a 32-bit `int` result. */
  function Wrap32(x: int): (r: int)
    ensures IntMin <= r <= IntMax
    ensures IntMin <= x <= IntMax ==> r == x
  {
    (x - IntMin) % 0x1_0000_0000 + IntMin
  }

  lemma {:induction false} DigitsValueOfNatToString(n: nat)
    ensures DigitsValue(NatToString(n)) == n
  {
    if n >= 10 {
      DigitsValueOfNatToString(n / 10);
      var s := NatToString(n);
      assert s[..|s| - 1] == NatToString(n / 10);
    }
  }

  /** Java's decimal rendering and parsing of integers are inverse. */
  lemma ParseIntegerOfIntToString(i: int)
    ensures ParseInteger(IntToString(i)) == Some(i)
  {
    if i < 0 {
      var digits := NatToString(-i);
      var s := "-" + digits;
      assert s[1..] == digits;
      assert s[0] == '-';
      DigitsValueOfNatToString(-i);
      assert ParseInteger(s) == Some(0 - DigitsValue(digits));
    } else {
      var digits := NatToString(i);
      DigitsValueOfNatToString(i);
      assert digits[0] != '-' && digits[0] != '+';
    }
  }

  function Zeros(k: nat): (s: string)
    ensures |s| == k && AllDigits(s)
  {
    if k == 0 then "" else Zeros(k - 1) + "0"
  }

  /** `String.format("%06d", n)`: the decimal digits, left-padded with zeros to six places. */
  function Format06(n: nat): (s: string)
    ensures |s| >= 6 && AllDigits(s)
  {
    var digits := NatToString(n);
    (if |digits| < 6 then Zeros(6 - |digits|) else "") + digits
  }

  lemma {:induction false} DigitsValueLeadingZeros(k: nat, s: string)
    requires AllDigits(s)
    ensures DigitsValue(Zeros(k) + s) == DigitsValue(s)
    decreases |s|
  {
    if s == [] {
      assert Zeros(k) + s == Zeros(k);
      ZerosValue(k);
    } else {
      var t := Zeros(k) + s;
      assert t[..|t| - 1] == Zeros(k) + s[..|s| - 1];
      DigitsValueLeadingZeros(k, s[..|s| - 1]);
    }
  }

  lemma {:induction false} ZerosValue(k: nat)
    ensures DigitsValue(Zeros(k)) == 0
  {
    if k > 0 {
      assert Zeros(k)[..k - 1] == Zeros(k - 1);
      ZerosValue(k - 1);
    }
  }

  /** The zero-padded rendering still reads back as the number. */
  lemma ParseIntegerOfFormat06(n: nat)
    ensures ParseInteger(Format06(n)) == Some(n)
  {
    var digits := NatToString(n);
    var k := if |digits| < 6 then 6 - |digits| else 0;
    assert Format06(n) == Zeros(k) + digits by {
      if k == 0 { assert Zeros(0) + digits == digits; }
    }
    DigitsValueOfNatToString(n);
    DigitsValueLeadingZeros(k, digits);
    ParseIntegerOfDigits(Format06(n));
  }

  /** A non-empty run of digits, with no sign, reads as its decimal value. */
  lemma ParseIntegerOfDigits(s: string)
    requires |s| > 0 && AllDigits(s)
    ensures ParseInteger(s) == Some(DigitsValue(s))
  {
    assert IsDigit(s[0]);
  }

  // ---------------------------------------------------------------- booleans

  function LowerAscii(c: char): char
  {
    if 'A' <= c <= 'Z' then ((c as int) + 32) as char else c
  }

  /** `String.valueOf(b)` */
  function BoolToString(b: bool): string
  {
    if b then "true" else "false"
  }

  /** `Boolean.parseBoolean(s)`: `s.equalsIgnoreCase("true")`. */
  function ParseBoolean(s: string): bool
  {
    |s| == 4 && LowerAscii(s[0]) == 't' && LowerAscii(s[1]) == 'r' && LowerAscii(s[2]) == 'u' && LowerAscii(s[3]) == 'e'
  }

  lemma ParseBooleanOfBoolToString(b: bool)
    ensures ParseBoolean(BoolToString(b)) == b
  {
  }

  // ---------------------------------------------------------------- encoded length

  /** Number of bytes of one character in UTF-8, the default charset of `getBytes()`. */
  function Utf8Width(c: char): nat
  {
    if c as int < 0x80 then 1 else if c as int < 0x800 then 2 else if c as int < 0x1_0000 then 3 else 4
  }

  /** `s.getBytes().length` */
  function Utf8Length(s: string): (n: nat)
    ensures |s| <= n <= 4 * |s|
  {
    if s == [] then 0 else Utf8Length(s[..|s| - 1]) + Utf8Width(s[|s| - 1])
  }
}

// The parts of the .NET runtime the modelled code leans on: string
// operations with their ordinal meaning, 32-bit integers, Int32.TryParse,
// Boolean.TryParse, numeric formatting, and the facilities left outside
// the model (hashing, floating point, date parsing, culture casing), which
// are given as a record of functions.

module DotNet {
  import opened Wrappers

  // ---------------------------------------------------------------------
  // Characters

  /** char.IsWhiteSpace: the Unicode space separators plus the control
      characters U+0009..U+000D, U+0085, and the line/paragraph separators. */
  predicate IsWhiteSpace(c: char)
  {
    c == ' ' || ('\t' <= c <= '\r') || c == '\U{85}' || c == '\U{A0}' || c == '\U{1680}'
    || ('\U{2000}' <= c <= '\U{200A}') || c == '\U{2028}' || c == '\U{2029}'
    || c == '\U{202F}' || c == '\U{205F}' || c == '\U{3000}'
  }

  predicate IsAsciiDigit(c: char)
  {
    '0' <= c <= '9'
  }

  predicate IsAsciiLetter(c: char)
  {
    ('a' <= c <= 'z') || ('A' <= c <= 'Z')
  }

  /** ToLower and ToUpper on the ASCII letters; other characters are kept. */
  function LowerChar(c: char): char
  {
    if 'A' <= c <= 'Z' then (c as int + 32) as char else c
  }

  function UpperChar(c: char): char
  {
    if 'a' <= c <= 'z' then (c as int - 32) as char else c
  }

  function ToLower(s: string): (r: string)
    ensures |r| == |s|
    ensures forall i :: 0 <= i < |s| ==> r[i] == LowerChar(s[i])
  {
    seq(|s|, i requires 0 <= i < |s| => LowerChar(s[i]))
  }

  // ---------------------------------------------------------------------
  // Trimming

  function TrimStartBy(s: string, strip: char -> bool): (r: string)
    ensures |r| <= |s| && r == s[|s| - |r|..]
    ensures |r| > 0 ==> !strip(r[0])
    ensures forall i :: 0 <= i < |s| - |r| ==> strip(s[i])
    decreases |s|
  {
    if |s| > 0 && strip(s[0]) then
      var r := TrimStartBy(s[1..], strip);
      assert forall i :: 1 <= i < |s| - |r| ==> s[i] == s[1..][i - 1];
      r
    else s
  }

  function TrimEndBy(s: string, strip: char -> bool): (r: string)
    ensures |r| <= |s| && r == s[..|r|]
    ensures |r| > 0 ==> !strip(r[|r| - 1])
    ensures forall i :: |r| <= i < |s| ==> strip(s[i])
  {
    if |s| > 0 && strip(s[|s| - 1]) then TrimEndBy(s[..|s| - 1], strip) else s
  }

  function TrimBy(s: string, strip: char -> bool): string
  {
    TrimEndBy(TrimStartBy(s, strip), strip)
  }

  /** String.Trim(): strips char.IsWhiteSpace characters at both ends. */
  function Trim(s: string): string
  {
    TrimBy(s, IsWhiteSpace)
  }

  /** string.IsNullOrEmpty(s.Trim()), the emptiness test used throughout. */
  predicate IsBlank(s: string)
  {
    Trim(s) == ""
  }

  lemma BlankIffAllWhiteSpace(s: string)
    ensures IsBlank(s) <==> forall i :: 0 <= i < |s| ==> IsWhiteSpace(s[i])
  {
  }

  lemma TrimOfNonBlankEnds(s: string)
    requires |s| > 0 && !IsWhiteSpace(s[0]) && !IsWhiteSpace(s[|s| - 1])
    ensures Trim(s) == s
  {
  }

  lemma TrimByKeeps(s: string, strip: char -> bool)
    requires |s| > 0 && !strip(s[0]) && !strip(s[|s| - 1])
    ensures TrimBy(s, strip) == s
  {
  }

  /** Trim(s) is a slice of s, and trimming twice is trimming once. */
  lemma TrimIsSlice(s: string)
    ensures exists a, b :: 0 <= a <= b <= |s| && Trim(s) == s[a..b]
  {
    TrimByIsSlice(s, IsWhiteSpace);
  }

  /** TrimBy(s, strip) is a slice of s. */
  lemma TrimByIsSlice(s: string, strip: char -> bool)
    ensures exists a, b :: 0 <= a <= b <= |s| && TrimBy(s, strip) == s[a..b]
  {
    var a := |s| - |TrimStartBy(s, strip)|;
    var b := a + |TrimBy(s, strip)|;
    assert 0 <= a <= b <= |s| && TrimBy(s, strip) == s[a..b] by {
      var u := TrimStartBy(s, strip);
      var t := TrimEndBy(u, strip);
      assert u == s[a..] && t == u[..|t|];
      assert u[..|t|] == s[a..b];
    }
  }

  lemma TrimAddsNothing(s: string)
    ensures |Trim(s)| <= |s|
    ensures forall x :: x in Trim(s) ==> x in s
  {
    TrimIsSlice(s);
    var a, b :| 0 <= a <= b <= |s| && Trim(s) == s[a..b];
    SliceAddsNothing(s, a, b);
  }

  lemma SliceAddsNothing(s: string, a: nat, b: nat)
    requires a <= b <= |s|
    ensures forall x :: x in s[a..b] ==> x in s
  {
    forall x | x in s[a..b] ensures x in s {
      var i :| 0 <= i < b - a && s[a..b][i] == x;
      assert s[a + i] == x;
    }
  }

  lemma TrimIdempotent(s: string)
    ensures Trim(Trim(s)) == Trim(s)
  {
    var u := TrimStartBy(s, IsWhiteSpace);
    var t := TrimEndBy(u, IsWhiteSpace);
    if |t| > 0 {
      assert t[0] == u[0];
      TrimByKeeps(t, IsWhiteSpace);
    }
  }

  // ---------------------------------------------------------------------
  // Searching (ordinal comparison)

  predicate StartsWith(s: string, prefix: string)
  {
    |prefix| <= |s| && s[..|prefix|] == prefix
  }

  predicate EndsWith(s: string, suffix: string)
  {
    |suffix| <= |s| && s[|s| - |suffix|..] == suffix
  }

  lemma AppendedSuffix(s: string, suffix: string)
    ensures EndsWith(s + suffix, suffix)
  {
    assert (s + suffix)[|s|..] == suffix;
  }

  predicate OccursAt(s: string, p: string, i: int)
  {
    0 <= i && i + |p| <= |s| && s[i..i + |p|] == p
  }

  /** String.IndexOf(p, from): the first position at or after from where p occurs. */
  function IndexOf(s: string, p: string, from: nat): (r: Option<nat>)
    ensures r.Some? ==> from <= r.value && OccursAt(s, p, r.value)
    ensures r.Some? ==> forall k :: from <= k < r.value ==> !OccursAt(s, p, k)
    ensures r.None? ==> forall k :: from <= k ==> !OccursAt(s, p, k)
    decreases |s| - from
  {
    if from + |p| > |s| then None
    else if s[from..from + |p|] == p then Some(from)
    else IndexOf(s, p, from + 1)
  }

  predicate Contains(s: string, p: string)
  {
    IndexOf(s, p, 0).Some?
  }

  lemma AbsentFirstChar(s: string, p: string)
    requires |p| > 0 && p[0] !in s
    ensures !Contains(s, p)
  {
    forall k | 0 <= k
      ensures !OccursAt(s, p, k)
    {
      if k + |p| <= |s| {
        assert s[k..k + |p|][0] == s[k];
      }
    }
  }

  lemma ContainsChar(s: string, c: char)
    ensures Contains(s, [c]) <==> c in s
  {
    if Contains(s, [c]) {
      var j := IndexOf(s, [c], 0).value;
      assert s[j..j + 1] == [c];
      assert s[j] == c;
    }
    if c in s {
      var i :| 0 <= i < |s| && s[i] == c;
      assert s[i..i + 1] == [c];
      assert OccursAt(s, [c], i);
    }
  }

  // ---------------------------------------------------------------------
  // String.Replace(old, new): every non-overlapping occurrence of old,
  // scanning left to right, is replaced. An empty pattern is refused.

  function Replace(s: string, pat: string, rep: string): string
    requires |pat| > 0
    decreases |s|
  {
    if |s| < |pat| then s
    else if s[..|pat|] == pat then rep + Replace(s[|pat|..], pat, rep)
    else [s[0]] + Replace(s[1..], pat, rep)
  }

  /** String.Replace as called: an empty pattern is an ArgumentException. */
  function ReplaceChecked(s: string, pat: string, rep: string): (r: Result<string>)
    ensures r.Ok? <==> |pat| > 0
    ensures r.Ok? ==> r.value == Replace(s, pat, rep)
  {
    if |pat| == 0 then Err(InvalidArgument("oldValue")) else Ok(Replace(s, pat, rep))
  }

  /** Replacing a whole non-empty string gives the replacement. */
  lemma ReplaceWhole(s: string, rep: string)
    requires |s| > 0
    ensures Replace(s, s, rep) == rep
  {
    assert s[..|s|] == s;
    assert s[|s|..] == "";
  }

  lemma {:induction false} ReplaceAbsent(s: string, pat: string, rep: string)
    requires |pat| > 0
    requires forall k :: 0 <= k ==> !OccursAt(s, pat, k)
    ensures Replace(s, pat, rep) == s
    decreases |s|
  {
    if |s| >= |pat| {
      assert !OccursAt(s, pat, 0);
      assert s[..|pat|] != pat;
      forall k | 0 <= k
        ensures !OccursAt(s[1..], pat, k)
      {
        assert !OccursAt(s, pat, k + 1);
        if k + |pat| <= |s| - 1 {
          assert s[1..][k..k + |pat|] == s[k + 1..k + 1 + |pat|];
        }
      }
      ReplaceAbsent(s[1..], pat, rep);
    }
  }

  /** Replacing a character by the empty string removes every copy of it. */
  lemma {:induction false} ReplaceCharByNothing(s: string, c: char)
    ensures Replace(s, [c], "") == Filter(s, c)
    decreases |s|
  {
    if |s| >= 1 {
      ReplaceCharByNothing(s[1..], c);
      if s[..1] == [c] {
        assert s[0] == c;
      } else {
        assert s[0] != c;
      }
    }
  }

  /** s with every copy of c turned into d. */
  function Substitute(s: string, c: char, d: char): (r: string)
    ensures |r| == |s|
    ensures forall i :: 0 <= i < |s| ==> r[i] == if s[i] == c then d else s[i]
  {
    seq(|s|, i requires 0 <= i < |s| => if s[i] == c then d else s[i])
  }

  lemma SubstituteRemoves(s: string, c: char, d: char)
    requires c != d
    ensures c !in Substitute(s, c, d)
    ensures forall x :: x in Substitute(s, c, d) && x != d ==> x in s
  {
    var r := Substitute(s, c, d);
    forall x | x in r && x != d ensures x in s {
      var i :| 0 <= i < |r| && r[i] == x;
      assert s[i] == x;
    }
  }

  lemma {:induction false} ReplaceCharByChar(s: string, c: char, d: char)
    ensures Replace(s, [c], [d]) == Substitute(s, c, d)
    decreases |s|
  {
    if |s| >= 1 {
      ReplaceCharByChar(s[1..], c, d);
      assert s[..1] == [s[0]];
      assert Substitute(s, c, d) == [Substitute(s, c, d)[0]] + Substitute(s[1..], c, d);
    }
  }

  /** s with every copy of c deleted. */
  function Filter(s: string, c: char): (r: string)
    ensures c !in r
    ensures forall x :: x in r <==> x in s && x != c
  {
    if |s| == 0 then ""
    else if s[0] == c then Filter(s[1..], c)
    else [s[0]] + Filter(s[1..], c)
  }

  // ---------------------------------------------------------------------
  // String.Split(c): the pieces between the separators.

  function Split(s: string, c: char): (r: seq<string>)
    ensures |r| >= 1
    ensures c !in s ==> r == [s]
    decreases |s|
  {
    match IndexOf(s, [c], 0)
    case None =>
      assert forall i :: 0 <= i < |s| ==> !OccursAt(s, [c], i);
      assert forall i :: 0 <= i < |s| ==> s[i] != c by {
        forall i | 0 <= i < |s| ensures s[i] != c {
          assert !OccursAt(s, [c], i);
          assert s[i..i + 1] == [s[i]];
        }
      }
      [s]
    case Some(i) =>
      ContainsChar(s, c);
      [s[..i]] + Split(s[i + 1..], c)
  }

  /** The first piece is the text before the first separator. */
  lemma SplitHead(s: string, c: char)
    ensures StartsWith(s, Split(s, c)[0]) && c !in Split(s, c)[0]
    ensures c in s <==> |Split(s, c)| >= 2
    ensures c in s ==> |Split(s, c)[0]| < |s| && s[|Split(s, c)[0]|] == c
  {
    ContainsChar(s, c);
    match IndexOf(s, [c], 0)
    case None =>
    case Some(i) =>
      assert s[i..i + 1] == [c];
      forall k | 0 <= k < i ensures s[k] != c {
        assert !OccursAt(s, [c], k);
        assert s[k..k + 1] == [s[k]];
      }
  }

  /** No piece holds the separator. */
  lemma {:induction false} SplitNoSeparator(s: string, c: char)
    ensures forall k :: 0 <= k < |Split(s, c)| ==> c !in Split(s, c)[k]
    decreases |s|
  {
    SplitHead(s, c);
    match IndexOf(s, [c], 0)
    case None =>
    case Some(i) =>
      SplitNoSeparator(s[i + 1..], c);
  }

  /** With a separator, the string starts with the first two pieces joined
      by it. */
  lemma SplitFirstTwo(s: string, c: char)
    requires c in s
    ensures |Split(s, c)| >= 2 && StartsWith(s, Split(s, c)[0] + [c] + Split(s, c)[1])
  {
    SplitHead(s, c);
    ContainsChar(s, c);
    var i := IndexOf(s, [c], 0).value;
    var rest := s[i + 1..];
    SplitHead(rest, c);
    assert Split(s, c) == [s[..i]] + Split(rest, c);
    var joined := s[..i] + [c] + Split(rest, c)[0];
    assert s[..|joined|] == joined by {
      assert s[..|joined|] == s[..i] + [s[i]] + rest[..|Split(rest, c)[0]|];
    }
  }

  /** Two separator-free pieces joined by the separator split back into
      themselves. */
  lemma SplitPair(a: string, b: string, c: char)
    requires c !in a && c !in b
    ensures Split(a + [c] + b, c) == [a, b]
  {
    var s := a + [c] + b;
    assert s[|a|] == c;
    SplitHead(s, c);
    var i := IndexOf(s, [c], 0).value;
    assert s[..|a|] == a;
    assert s[i + 1..] == b;
  }

  // ---------------------------------------------------------------------
  // 32-bit integers

  const INT32_MIN: int := -0x8000_0000
  const INT32_MAX: int := 0x7fff_ffff

  predicate InInt32(x: int)
  {
    INT32_MIN <= x <= INT32_MAX
  }

  /** The low 32 bits of x read as a signed integer (unchecked arithmetic). */
  function Wrap32(x: int): (r: int)
    ensures InInt32(r)
    ensures InInt32(x) ==> r == x
    ensures (x - r) % 0x1_0000_0000 == 0
  {
    (x - INT32_MIN) % 0x1_0000_0000 + INT32_MIN
  }

  // ---------------------------------------------------------------------
  // Decimal rendering and Int32.TryParse

  function DigitChar(d: nat): char
    requires d < 10
  {
    ('0' as int + d) as char
  }

  function DigitValue(c: char): nat
    requires IsAsciiDigit(c)
  {
    c as int - '0' as int
  }

  predicate AllDigits(s: string)
  {
    forall i :: 0 <= i < |s| ==> IsAsciiDigit(s[i])
  }

  /** The decimal digits of n, without leading zeros. */
  function NatToString(n: nat): (r: string)
    ensures |r| > 0 && AllDigits(r)
    ensures r[0] != '0' || n == 0
  {
    if n < 10 then [DigitChar(n)] else NatToString(n / 10) + [DigitChar(n % 10)]
  }

  /** Int32.ToString(): an optional minus sign and the decimal digits. */
  function IntToString(i: int): string
  {
    if i < 0 then "-" + NatToString(-i) else NatToString(i)
  }

  function DigitsValue(s: string): nat
    requires AllDigits(s)
  {
    if |s| == 0 then 0 else DigitsValue(s[..|s| - 1]) * 10 + DigitValue(s[|s| - 1])
  }

  function Power10(k: nat): nat
  {
    if k == 0 then 1 else 10 * Power10(k - 1)
  }

  lemma {:induction false} DigitsBelow(s: string)
    requires AllDigits(s)
    ensures DigitsValue(s) < Power10(|s|)
  {
    if |s| > 0 {
      DigitsBelow(s[..|s| - 1]);
    }
  }

  lemma {:induction false} DigitsOfNat(n: nat)
    ensures DigitsValue(NatToString(n)) == n
  {
    if n >= 10 {
      DigitsOfNat(n / 10);
      var s := NatToString(n);
      assert s[..|s| - 1] == NatToString(n / 10);
    }
  }

  /** The white space NumberStyles.Integer lets surround a number. */
  predicate IsNumberWhite(c: char)
  {
    c == ' ' || ('\t' <= c <= '\r')
  }

  /** Int32.TryParse(s) with NumberStyles.Integer: white space around, an
      optional sign, at least one ASCII digit, and a value in range. */
  function ParseInt32(s: string): (r: Option<int>)
    ensures r.Some? ==> InInt32(r.value)
  {
    var t := TrimBy(s, IsNumberWhite);
    var negative := |t| > 0 && t[0] == '-';
    var digits := if |t| > 0 && (t[0] == '-' || t[0] == '+') then t[1..] else t;
    if |digits| == 0 || !AllDigits(digits) then None
    else
      var v: int := if negative then -(DigitsValue(digits) as int) else DigitsValue(digits);
      if InInt32(v) then Some(v) else None
  }

  /** A run of ASCII digits parses as its value when that fits in 32 bits,
      and fails to parse otherwise. */
  lemma ParseDigits(d: string)
    requires |d| > 0 && AllDigits(d)
    ensures ParseInt32(d) == if DigitsValue(d) <= INT32_MAX then Some(DigitsValue(d) as int) else None
  {
    assert IsAsciiDigit(d[0]) && IsAsciiDigit(d[|d| - 1]);
    TrimByKeeps(d, IsNumberWhite);
  }

  /** Rendering a 32-bit integer and parsing it back gives the integer. */
  lemma ParseRendered(i: int)
    requires InInt32(i)
    ensures ParseInt32(IntToString(i)) == Some(i)
  {
    var s := IntToString(i);
    var n: nat := if i < 0 then -i else i;
    var d := NatToString(n);
    DigitsOfNat(n);
    assert d[|d| - 1] == s[|s| - 1];
    TrimByKeeps(s, IsNumberWhite);
    if i < 0 {
      assert s[1..] == d;
    } else {
      assert s == d;
    }
  }

  /** Boolean.TryParse: "true" or "false" in any letter case, once white
      space and NUL characters are stripped from both ends. */
  predicate IsWhiteOrNul(c: char)
  {
    IsWhiteSpace(c) || c == '\0'
  }

  function ParseBool(s: string): (r: Option<bool>)
    ensures r == Some(true) <==> ToLower(TrimBy(s, IsWhiteOrNul)) == "true"
    ensures r == Some(false) <==> ToLower(TrimBy(s, IsWhiteOrNul)) == "false"
  {
    var t := ToLower(TrimBy(s, IsWhiteOrNul));
    if t == "true" then Some(true) else if t == "false" then Some(false) else None
  }

  /** An integer rendered with the custom format "0000" (or "00"): at least
      width digits, zero padded, after a minus sign when it is negative. */
  function ZeroPad(digits: string, width: nat): (r: string)
    ensures |r| >= width && |r| >= |digits|
    decreases width - |digits|
  {
    if |digits| >= width then digits else ZeroPad("0" + digits, width)
  }

  function FormatPadded(i: int, width: nat): string
  {
    if i < 0 then "-" + ZeroPad(NatToString(-i), width) else ZeroPad(NatToString(i), width)
  }

  // ---------------------------------------------------------------------
  // Facilities outside the model

  /** A calendar date as DateTime.Parse yields it. */
  datatype Date = Date(year: int, month: int, day: int)

  /** What the runtime computes that the model does not reproduce: the MD5
      digest rendered as hex, Double.TryParse, Convert.ToDouble(x) / 1000
      rendered back, DateTime.Parse, TextInfo.ToTitleCase for en-GB, and
      whether new Uri(s) accepts s as an absolute URI. */
  datatype Runtime = Runtime(
    md5Hex: string -> string,
    parsesAsDouble: string -> bool,
    unitToMilliUnit: string -> Result<string>,
    parseDate: string -> Result<Date>,
    titleCase: string -> string,
    isAbsoluteUri: string -> bool)
}

// The string helpers of the mapping interpreter (RDFer/RDFer.cs): URI and
// literal clean-up, shortening a URI against the namespace table, counting
// occurrences, the bracket stripping of placeholders, the two placeholder
// scans, the date conversion and the output format names.

module RdferText {
  import opened Wrappers
  import opened DotNet
  import opened RdfOutputs

  // ---------------------------------------------------------------------
  // CountStringOccurrences

  /** The number of non-overlapping occurrences of pattern found by
      scanning from position from, each search resuming after the last
      occurrence found. */
  function OccurrenceCount(text: string, pattern: string, from: nat): nat
    requires |pattern| > 0
    decreases |text| - from
  {
    match IndexOf(text, pattern, from)
    case None => 0
    case Some(j) => 1 + OccurrenceCount(text, pattern, j + |pattern|)
  }

  /** The copies of c in s. */
  function CharCount(s: string, c: char): nat
  {
    if |s| == 0 then 0 else (if s[0] == c then 1 else 0) + CharCount(s[1..], c)
  }

  lemma {:induction false} CharCountAppend(a: string, b: string, c: char)
    ensures CharCount(a + b, c) == CharCount(a, c) + CharCount(b, c)
    decreases |a|
  {
    if |a| == 0 {
      assert a + b == b;
    } else {
      assert (a + b)[0] == a[0] && (a + b)[1..] == a[1..] + b;
      CharCountAppend(a[1..], b, c);
    }
  }

  lemma {:induction false} CharCountAbsent(s: string, c: char)
    requires c !in s
    ensures CharCount(s, c) == 0
    decreases |s|
  {
    if |s| > 0 {
      assert s[1..] == s[1..] && forall x :: x in s[1..] ==> x in s;
      CharCountAbsent(s[1..], c);
    }
  }

  /** Counting a one-character pattern counts the copies of the character. */
  lemma {:induction false} CharOccurrences(text: string, c: char, from: nat)
    requires from <= |text|
    ensures OccurrenceCount(text, [c], from) == CharCount(text[from..], c)
    decreases |text| - from
  {
    match IndexOf(text, [c], from)
    case None =>
      NoCopyFrom(text, c, from);
    case Some(j) =>
      assert text[j..j + 1] == [c];
      NoCopyBefore(text, c, from, j);
      FirstCopyAt(text, c, from, j);
      CharOccurrences(text, c, j + 1);
      OccurrenceStep(text, [c], from);
  }

  /** Where c is not found from from on, no copy of c is left. */
  lemma NoCopyFrom(text: string, c: char, from: nat)
    requires from <= |text| && IndexOf(text, [c], from).None?
    ensures CharCount(text[from..], c) == 0
  {
    forall k | from <= k < |text|
      ensures text[k] != c
    {
      assert !OccursAt(text, [c], k);
      assert text[k..k + 1] == [text[k]];
    }
    CharCountAbsent(text[from..], c);
  }

  /** When c is first found at j, the copies from from on are that one
      and those after it. */
  lemma FirstCopyAt(text: string, c: char, from: nat, j: nat)
    requires from <= j < |text| && text[j] == c && CharCount(text[from..j], c) == 0
    ensures CharCount(text[from..], c) == 1 + CharCount(text[j + 1..], c)
  {
    var before, rest := text[from..j], text[j + 1..];
    var tail := [c] + rest;
    assert tail[0] == c && tail[1..] == rest;
    assert text[from..] == before + tail;
    CharCountAppend(before, tail, c);
  }

  /** Before the first place c is found there is no copy of it. */
  lemma NoCopyBefore(text: string, c: char, from: nat, j: nat)
    requires from <= j <= |text|
    requires forall k :: from <= k < j ==> !OccursAt(text, [c], k)
    ensures CharCount(text[from..j], c) == 0
  {
    forall k | from <= k < j
      ensures text[k] != c
    {
      assert !OccursAt(text, [c], k);
      assert text[k..k + 1] == [text[k]];
    }
    CharCountAbsent(text[from..j], c);
  }

  /** CountStringOccurrences; an empty pattern would never stop the scan,
      so it is excluded. */
  method CountStringOccurrences(text: string, pattern: string) returns (count: nat)
    requires |pattern| > 0
    ensures count == OccurrenceCount(text, pattern, 0)
  {
    count := 0;
    var i := 0;
    var next := IndexOf(text, pattern, i);
    ghost var total := OccurrenceCount(text, pattern, 0);
    while next.Some?
      invariant i <= |text|
      invariant next == IndexOf(text, pattern, i)
      invariant count + OccurrenceCount(text, pattern, i) == total
      decreases |text| - i
    {
      OccurrenceStep(text, pattern, i);
      i := next.value + |pattern|;
      count := count + 1;
      next := IndexOf(text, pattern, i);
    }
  }

  /** One step of the scan: a match at j counts one and the scan goes on
      after it. */
  lemma OccurrenceStep(text: string, pattern: string, from: nat)
    requires |pattern| > 0 && IndexOf(text, pattern, from).Some?
    ensures var j := IndexOf(text, pattern, from).value;
      j + |pattern| <= |text| &&
      OccurrenceCount(text, pattern, from) == 1 + OccurrenceCount(text, pattern, j + |pattern|)
  {
  }

  // ---------------------------------------------------------------------
  // SanitiseUri

  /** The characters a cleaned URI keeps: letters, digits and _ # - / : . */
  predicate UriChar(c: char)
  {
    IsAsciiLetter(c) || IsAsciiDigit(c) || c == '_' || c == '#' || c == '-' || c == '/' || c == ':' || c == '.'
  }

  predicate AllUriChars(s: string)
  {
    forall i :: 0 <= i < |s| ==> UriChar(s[i])
  }

  /** Every other character becomes a hyphen. */
  function DashOthers(s: string): (r: string)
    ensures |r| == |s|
    ensures forall i :: 0 <= i < |s| ==> r[i] == if UriChar(s[i]) then s[i] else '-'
  {
    seq(|s|, i requires 0 <= i < |s| => if UriChar(s[i]) then s[i] else '-')
  }

  predicate NoDoubleHyphen(s: string)
  {
    forall i :: 0 <= i < |s| - 1 ==> !(s[i] == '-' && s[i + 1] == '-')
  }

  /** Every run of hyphens shortened to one. */
  function CollapseHyphens(s: string): (r: string)
    ensures |s| > 0 ==> |r| > 0 && r[0] == s[0]
    decreases |s|
  {
    if |s| < 2 then s
    else if s[0] == '-' && s[1] == '-' then CollapseHyphens(s[1..])
    else [s[0]] + CollapseHyphens(s[1..])
  }

  /** The collapse has no double hyphen and keeps to the URI characters. */
  lemma {:induction false} CollapseHyphensClean(s: string)
    ensures NoDoubleHyphen(CollapseHyphens(s))
    ensures AllUriChars(s) ==> AllUriChars(CollapseHyphens(s))
    decreases |s|
  {
    if |s| >= 2 {
      assert forall i :: 1 <= i < |s| ==> s[i] == s[1..][i - 1];
      CollapseHyphensClean(s[1..]);
      if !(s[0] == '-' && s[1] == '-') {
        var rest := CollapseHyphens(s[1..]);
        assert forall i :: 1 <= i < |rest| + 1 ==> ([s[0]] + rest)[i] == rest[i - 1];
      }
    }
  }

  /** A string without a double hyphen is its own collapse. */
  lemma {:induction false} CollapseFixed(s: string)
    requires NoDoubleHyphen(s)
    ensures CollapseHyphens(s) == s
    decreases |s|
  {
    if |s| >= 2 {
      assert !(s[0] == '-' && s[1] == '-');
      assert NoDoubleHyphen(s[1..]) by {
        forall i | 0 <= i < |s[1..]| - 1
          ensures !(s[1..][i] == '-' && s[1..][i + 1] == '-')
        {
          assert s[1..][i] == s[i + 1] && s[1..][i + 1] == s[i + 2];
        }
      }
      CollapseFixed(s[1..]);
      assert s == [s[0]] + s[1..];
    }
  }

  /** String.Replace("--", "-") keeps the first character and never grows
      the string; it shrinks it when a double hyphen occurs. */
  lemma {:induction false} HalvingShape(s: string)
    ensures var r := Replace(s, "--", "-");
      |r| <= |s| && (|s| > 0 ==> |r| > 0 && r[0] == s[0]) &&
      (!NoDoubleHyphen(s) ==> |r| < |s|)
    decreases |s|
  {
    if |s| >= 2 {
      HalvingShape(s[1..]);
      HalvingShape(s[2..]);
      assert s[..2] == [s[0], s[1]];
      if s[..2] != "--" && !NoDoubleHyphen(s) {
        var i :| 0 <= i < |s| - 1 && s[i] == '-' && s[i + 1] == '-';
        assert i > 0;
        assert s[1..][i - 1] == '-' && s[1..][i] == '-';
      }
    }
  }

  /** One halving pass leaves the collapse unchanged. */
  lemma {:induction false} HalvingKeepsCollapse(s: string)
    ensures CollapseHyphens(Replace(s, "--", "-")) == CollapseHyphens(s)
    decreases |s|, 0
  {
    if |s| >= 2 {
      if s[..2] == "--" {
        assert s[0] == '-' && s[1] == '-';
        PrefixedHalving('-', s[2..]);
        assert s[1..] == "-" + s[2..];
      } else {
        assert Replace(s, "--", "-") == [s[0]] + Replace(s[1..], "--", "-");
        PrefixedHalving(s[0], s[1..]);
        assert s == [s[0]] + s[1..];
      }
    }
  }

  lemma {:induction false} PrefixedHalving(c: char, t: string)
    ensures CollapseHyphens([c] + Replace(t, "--", "-")) == CollapseHyphens([c] + t)
    decreases |t|, 1
  {
    var r := Replace(t, "--", "-");
    HalvingShape(t);
    HalvingKeepsCollapse(t);
    if |t| > 0 {
      assert ([c] + r)[1..] == r && ([c] + t)[1..] == t;
    }
  }

  /** The hyphen loop: halving until no double hyphen is left yields the
      collapse of where it started. */
  method CollapseDoubleHyphens(start: string) returns (v: string)
    ensures v == CollapseHyphens(start)
  {
    v := start;
    while Contains(v, "--")
      invariant CollapseHyphens(v) == CollapseHyphens(start)
      decreases |v|
    {
      assert !NoDoubleHyphen(v) by {
        var k := IndexOf(v, "--", 0).value;
        assert v[k..k + 2] == "--";
        assert v[k..k + 2][0] == v[k] && v[k..k + 2][1] == v[k + 1];
      }
      HalvingShape(v);
      HalvingKeepsCollapse(v);
      v := Replace(v, "--", "-");
    }
    assert NoDoubleHyphen(v) by {
      forall i | 0 <= i < |v| - 1
        ensures !(v[i] == '-' && v[i + 1] == '-')
      {
        assert !OccursAt(v, "--", i);
        assert v[i..i + 2] == [v[i], v[i + 1]];
      }
    }
    CollapseFixed(v);
  }

  /** Removing one leading and one trailing hyphen; after the collapse no
      hyphen is left at the start. */
  function TrimHyphens(s: string): string
  {
    var t := if StartsWith(s, "-") then s[1..] else s;
    if EndsWith(t, "-") then t[..|t| - 1] else t
  }

  /** The slash collapse as intended, Regex.Replace(s, "([^:])//", "$1/"):
      scanning left to right, a double slash after any character but a
      colon loses one slash. */
  function CollapseSlashes(s: string): (r: string)
    ensures |r| <= |s|
    ensures |s| > 0 ==> |r| > 0 && r[0] == s[0]
    decreases |s|
  {
    if |s| < 3 then s
    else if s[0] != ':' && s[1] == '/' && s[2] == '/' then [s[0], '/'] + CollapseSlashes(s[3..])
    else [s[0]] + CollapseSlashes(s[1..])
  }

  /** The slash collapse as written, Regex.Replace(s, "([^:])//", "\\1/"):
      a .NET replacement text recognises only `$` substitutions, so every
      match, the character before the slashes included, is replaced by a
      backslash, the digit 1 and a slash. */
  function CollapseSlashesAsWritten(s: string): (r: string)
    ensures |r| == |s|
    decreases |s|
  {
    if |s| < 3 then s
    else if s[0] != ':' && s[1] == '/' && s[2] == '/' then ['\\', '1', '/'] + CollapseSlashesAsWritten(s[3..])
    else [s[0]] + CollapseSlashesAsWritten(s[1..])
  }

  /** Collapsing slashes brings in no new character and no double hyphen. */
  lemma {:induction false} CollapseSlashesClean(s: string)
    ensures AllUriChars(s) ==> AllUriChars(CollapseSlashes(s))
    ensures NoDoubleHyphen(s) ==> NoDoubleHyphen(CollapseSlashes(s))
    decreases |s|
  {
    if |s| >= 3 {
      var r := CollapseSlashes(s);
      if s[0] != ':' && s[1] == '/' && s[2] == '/' {
        var rest := CollapseSlashes(s[3..]);
        assert forall i :: 3 <= i < |s| ==> s[i] == s[3..][i - 3];
        CollapseSlashesClean(s[3..]);
        assert forall i :: 2 <= i < |r| ==> r[i] == rest[i - 2];
      } else {
        var rest := CollapseSlashes(s[1..]);
        assert forall i :: 1 <= i < |s| ==> s[i] == s[1..][i - 1];
        CollapseSlashesClean(s[1..]);
        assert forall i :: 1 <= i < |r| ==> r[i] == rest[i - 1];
      }
    }
  }

  /** The last slash goes when there are more than three slashes in all. */
  function DropTrailingSlash(s: string): (r: string)
    ensures |r| > 0 ==> |s| > 0 && r[0] == s[0]
  {
    if EndsWith(s, "/") && OccurrenceCount(s, "/", 0) > 3 then s[..|s| - 1] else s
  }

  function StripAngleBrackets(value: string): string
  {
    Replace(Replace(value, "<", ""), ">", "")
  }

  /** What SanitiseUri returns, with the slash collapse as intended. */
  function SanitiseUriOf(value: string): string
  {
    DropTrailingSlash(CollapseSlashes(TrimHyphens(CollapseHyphens(DashOthers(StripAngleBrackets(value))))))
  }

  /** What SanitiseUri returns with the slash collapse as written. */
  function SanitiseUriAsWritten(value: string): string
  {
    DropTrailingSlash(CollapseSlashesAsWritten(TrimHyphens(CollapseHyphens(DashOthers(StripAngleBrackets(value))))))
  }

  /** The slash collapse as written loses the character before a double
      slash and puts a backslash, which is no URI character, in its place:
      "a//b" becomes "\1/b" where "a/b" was meant. */
  lemma SlashReplacementLiteral(c: char, b: char)
    requires PlainSegment([c]) && c != ':' && PlainSegment([b])
    ensures SanitiseUriAsWritten([c, '/', '/', b]) == ['\\', '1', '/', b]
    ensures !AllUriChars(SanitiseUriAsWritten([c, '/', '/', b]))
    ensures SanitiseUriOf([c, '/', '/', b]) == [c, '/', b]
  {
    assert [c][0] == c && [b][0] == b;
    var s := [c, '/', '/', b];
    assert AllUriChars(s) && '-' !in s && '<' !in s && '>' !in s;
    SlashesOnlyStage(s);
    SlashPairAsWritten(c, b);
    SlashPairIntended(c, b);
  }

  lemma SlashPairAsWritten(c: char, b: char)
    requires c != ':' && b != '/'
    ensures DropTrailingSlash(CollapseSlashesAsWritten([c, '/', '/', b])) == ['\\', '1', '/', b]
  {
    var s, w := [c, '/', '/', b], ['\\', '1', '/', b];
    assert s[3..] == [b];
    assert CollapseSlashesAsWritten(s) == w;
    assert !EndsWith(w, "/") by { assert w[|w| - 1..] == [b]; }
  }

  lemma SlashPairIntended(c: char, b: char)
    requires c != ':' && b != '/'
    ensures DropTrailingSlash(CollapseSlashes([c, '/', '/', b])) == [c, '/', b]
  {
    var s, r := [c, '/', '/', b], [c, '/', b];
    assert s[3..] == [b];
    assert CollapseSlashes(s) == r;
    assert !EndsWith(r, "/") by { assert r[|r| - 1..] == [b]; }
  }


  method SanitiseUri(value: string) returns (r: string)
    ensures r == SanitiseUriOf(value)
  {
    r := StripAngleBrackets(value);
    r := DashOthers(r);
    r := CollapseDoubleHyphens(r);
    ghost var collapsed := r;
    if StartsWith(r, "-") {
      r := r[1..];
    }
    if EndsWith(r, "-") {
      r := r[..|r| - 1];
    }
    assert r == TrimHyphens(collapsed);
    r := CollapseSlashes(r);
    ghost var slashed := r;
    if EndsWith(r, "/") {
      var slashes := CountStringOccurrences(r, "/");
      if slashes > 3 {
        r := r[..|r| - 1];
      }
    }
    assert r == DropTrailingSlash(slashed);
  }

  /** A cleaned URI holds only letters, digits and _ # - / : . , has no
      double hyphen and does not start with a hyphen. */
  lemma SanitisedUriIsClean(value: string)
    ensures AllUriChars(SanitiseUriOf(value))
    ensures NoDoubleHyphen(SanitiseUriOf(value))
    ensures !StartsWith(SanitiseUriOf(value), "-")
  {
    var dashed := DashOthers(StripAngleBrackets(value));
    DashOthersClean(StripAngleBrackets(value));
    var collapsed := CollapseHyphens(dashed);
    CollapseHyphensClean(dashed);
    TrimmedClean(collapsed);
    SlashStagesClean(TrimHyphens(collapsed));
    var r := SanitiseUriOf(value);
    assert CleanUri(r);
    assert !StartsWith(r, "-") by {
      if |r| > 0 {
        assert r[..1] == [r[0]];
      }
    }
  }

  /** The shape every cleaning stage after the collapse of hyphens keeps. */
  predicate CleanUri(s: string)
  {
    AllUriChars(s) && NoDoubleHyphen(s) && (|s| > 0 ==> s[0] != '-')
  }

  lemma DashOthersClean(s: string)
    ensures AllUriChars(DashOthers(s))
  {
  }

  lemma TrimmedClean(s: string)
    requires AllUriChars(s) && NoDoubleHyphen(s)
    ensures CleanUri(TrimHyphens(s))
  {
    var t := if StartsWith(s, "-") then s[1..] else s;
    assert |s| > 0 ==> s[..1] == [s[0]];
    assert forall i :: 0 <= i < |t| ==> t[i] == s[i + |s| - |t|];
    if |t| > 0 && StartsWith(s, "-") {
      assert s[0] == '-' && s[1] == t[0];
    }
    var u := if EndsWith(t, "-") then t[..|t| - 1] else t;
    assert forall i :: 0 <= i < |u| ==> u[i] == t[i];
  }

  lemma SlashStagesClean(t: string)
    requires CleanUri(t)
    ensures CleanUri(DropTrailingSlash(CollapseSlashes(t)))
  {
    var c := CollapseSlashes(t);
    CollapseSlashesClean(t);
    var r := DropTrailingSlash(c);
    assert forall i :: 0 <= i < |r| ==> r[i] == c[i];
  }

  lemma StripAbsent(s: string)
    requires '<' !in s && '>' !in s
    ensures StripAngleBrackets(s) == s
  {
    forall k | 0 <= k
      ensures !OccursAt(s, "<", k) && !OccursAt(s, ">", k)
    {
      if k + 1 <= |s| {
        assert s[k..k + 1][0] == s[k];
      }
    }
    ReplaceAbsent(s, "<", "");
    ReplaceAbsent(s, ">", "");
  }

  lemma TrimHyphensAbsent(s: string)
    requires |s| > 0 && s[0] != '-' && s[|s| - 1] != '-'
    ensures TrimHyphens(s) == s
  {
    assert !StartsWith(s, "-") by {
      assert s[..1] == [s[0]];
    }
    assert !EndsWith(s, "-") by {
      assert s[|s| - 1..] == [s[|s| - 1]];
    }
  }

  /** On a URI that is already clean, only the trailing-slash rule acts. */
  lemma CleanUriKept(s: string)
    requires |s| > 0 && s[0] != '-' && s[|s| - 1] != '-'
    requires AllUriChars(s) && NoDoubleHyphen(s) && '<' !in s && '>' !in s
    requires SlashPairsAfterColon(s)
    ensures SanitiseUriOf(s) == DropTrailingSlash(s)
    ensures SanitiseUriAsWritten(s) == DropTrailingSlash(s)
  {
    StripAbsent(s);
    assert DashOthers(s) == s;
    CollapseFixed(s);
    TrimHyphensAbsent(s);
    KeptSlashes(s);
  }

  /** A segment of a URI that SanitiseUri keeps as it is and that holds
      no slash. */
  predicate PlainSegment(s: string)
  {
    AllUriChars(s) && '/' !in s && '-' !in s
  }

  /** SanitiseUri is not idempotent. As written, "a//" becomes `\1/`, and a
      second pass turns the backslash into a hyphen, drops it, and leaves
      "1/". As intended, the double-slash rule halves the slash pairs it
      finds in one left-to-right scan, so "a///" becomes "a//", which a
      second pass turns into "a/". The same holds for any plain character
      other than ':' in place of 'a'. */
  lemma SanitiseUriNotIdempotent(c: char)
    requires PlainSegment([c]) && c != ':'
    ensures SanitiseUriAsWritten([c, '/', '/']) == ['\\', '1', '/']
    ensures SanitiseUriAsWritten(['\\', '1', '/']) == ['1', '/']
    ensures SanitiseUriOf([c, '/', '/', '/']) == [c, '/', '/']
    ensures SanitiseUriOf([c, '/', '/']) == [c, '/']
  {
    assert [c][0] == c;
    SanitiseTripleSlash(c);
    SanitiseDoubleSlash(c);
    BackslashDashed();
  }

  /** As written, a second pass turns the backslash into a leading hyphen,
      which is then dropped. */
  lemma BackslashDashed()
    ensures SanitiseUriAsWritten(['\\', '1', '/']) == ['1', '/']
  {
    var s, dashed, t := ['\\', '1', '/'], ['-', '1', '/'], ['1', '/'];
    StripAbsent(s);
    assert DashOthers(s) == dashed;
    CollapseFixed(dashed);
    assert dashed[..1] == "-" && dashed[1..] == t;
    assert t[|t| - 1..] == "/";
    assert TrimHyphens(dashed) == t;
    EscapedSlashes();
    SlashCountRule(t);
  }

  /** The slash counts of the texts the replacement as written produces. */
  lemma EscapedSlashes()
    ensures CharCount(['1', '/'], '/') == 1
    ensures CharCount(['\\', '1', '/'], '/') == 1
    ensures CharCount(['\\', '1', '/', '/'], '/') == 2
  {
    assert ['1', '/'][1..] == ['/'] && ['/'][1..] == [];
    assert ['\\', '1', '/'][1..] == ['1', '/'];
    assert ['\\', '1', '/', '/'][1..] == ['1', '/', '/'] && ['1', '/', '/'][1..] == ['/', '/'];
    assert ['/', '/'][1..] == ['/'];
  }

  /** Three slashes after c: as written `\1//`, as intended "c//". */
  lemma SanitiseTripleSlash(c: char)
    requires UriChar(c) && c != '-' && c != ':' && c != '/'
    ensures SanitiseUriAsWritten([c, '/', '/', '/']) == ['\\', '1', '/', '/']
    ensures SanitiseUriOf([c, '/', '/', '/']) == [c, '/', '/']
  {
    var s, once := [c, '/', '/', '/'], [c, '/', '/'];
    assert AllUriChars(s) && '-' !in s && '<' !in s && '>' !in s;
    SlashesOnlyStage(s);
    CollapseTripleSlash(c);
    SlashesAfter(c);
    SlashCountRule(once);
    EscapedSlashes();
    SlashCountRule(['\\', '1', '/', '/']);
  }

  /** The slash collapse replaces c and the first two of three slashes:
      as written by `\1/`, as intended by c and one slash. */
  lemma CollapseTripleSlash(c: char)
    requires c != ':'
    ensures CollapseSlashesAsWritten([c, '/', '/', '/']) == ['\\', '1', '/', '/']
    ensures CollapseSlashes([c, '/', '/', '/']) == [c, '/', '/']
  {
    var s := [c, '/', '/', '/'];
    assert s[3..] == ['/'];
    assert CollapseSlashes(['/']) == ['/'];
    assert CollapseSlashesAsWritten(['/']) == ['/'];
  }

  lemma SanitiseDoubleSlash(c: char)
    requires UriChar(c) && c != '-' && c != ':' && c != '/'
    ensures SanitiseUriAsWritten([c, '/', '/']) == ['\\', '1', '/']
    ensures SanitiseUriOf([c, '/', '/']) == [c, '/']
  {
    var once := [c, '/', '/'];
    assert AllUriChars(once) && '-' !in once && '<' !in once && '>' !in once;
    SlashesOnlyStage(once);
    DoubleSlashAsWritten(c);
    DoubleSlashIntended(c);
  }

  lemma DoubleSlashAsWritten(c: char)
    requires c != ':'
    ensures DropTrailingSlash(CollapseSlashesAsWritten([c, '/', '/'])) == ['\\', '1', '/']
  {
    var once := [c, '/', '/'];
    assert once[3..] == [];
    assert CollapseSlashesAsWritten(once) == ['\\', '1', '/'];
    EscapedSlashes();
    SlashCountRule(['\\', '1', '/']);
  }

  lemma DoubleSlashIntended(c: char)
    requires c != ':' && c != '/'
    ensures DropTrailingSlash(CollapseSlashes([c, '/', '/'])) == [c, '/']
  {
    var once, twice := [c, '/', '/'], [c, '/'];
    assert once[3..] == [];
    assert CollapseSlashes(once) == twice;
    SlashesAfter(c);
    SlashCountRule(twice);
  }

  /** A character other than a slash followed by one or two slashes. */
  lemma SlashesAfter(c: char)
    requires c != '/'
    ensures CharCount([c, '/'], '/') == 1
    ensures CharCount([c, '/', '/'], '/') == 2
  {
    assert [c, '/'][1..] == ['/'] && ['/'][1..] == [];
    assert [c, '/', '/'][1..] == ['/', '/'] && ['/', '/'][1..] == ['/'];
  }

  /** On text of URI characters without hyphens or angle brackets, only the
      slash stages of SanitiseUri act. */
  lemma SlashesOnlyStage(s: string)
    requires |s| > 0 && AllUriChars(s) && '-' !in s && '<' !in s && '>' !in s
    ensures SanitiseUriOf(s) == DropTrailingSlash(CollapseSlashes(s))
    ensures SanitiseUriAsWritten(s) == DropTrailingSlash(CollapseSlashesAsWritten(s))
  {
    StripAbsent(s);
    assert DashOthers(s) == s;
    CollapseFixed(s);
    TrimHyphensAbsent(s);
  }

  /** The trailing slash is dropped only from a URI with more than three
      slashes, so the root of a site, such as "http://example.com/", keeps
      its slash, and a path one segment below it, such as
      "http://example.com/a/", loses it. */
  lemma TrailingSlashRule(scheme: string, host: string, segment: string)
    requires |scheme| > 0 && scheme[|scheme| - 1] == ':' && PlainSegment(scheme)
    requires |host| > 0 && PlainSegment(host) && |segment| > 0 && PlainSegment(segment)
    ensures SanitiseUriOf(scheme + "//" + host + "/") == scheme + "//" + host + "/"
    ensures SanitiseUriOf(scheme + "//" + host + "/" + segment + "/") == scheme + "//" + host + "/" + segment
    ensures SanitiseUriAsWritten(scheme + "//" + host + "/") == scheme + "//" + host + "/"
    ensures SanitiseUriAsWritten(scheme + "//" + host + "/" + segment + "/") == scheme + "//" + host + "/" + segment
  {
    var root := scheme + "//" + host + "/";
    var path := root + segment + "/";
    SiteRootClean(scheme, host);
    CharCountAppend(scheme + "//" + host, "/", '/');
    CharCountAppend(scheme + "//", host, '/');
    CharCountAppend(scheme, "//", '/');
    assert "//"[1..] == "/" && "/"[1..] == [];
    CharCountAbsent(scheme, '/');
    CharCountAbsent(host, '/');
    assert CharCount(root, '/') == 3;
    SlashesOnlyStage(root);
    KeptSlashes(root);
    SlashCountRule(root);
    SegmentBelowClean(root, segment);
    CharCountAppend(root + segment, "/", '/');
    CharCountAppend(root, segment, '/');
    CharCountAbsent(segment, '/');
    SlashesOnlyStage(path);
    KeptSlashes(path);
    SlashCountRule(path);
    assert path[..|path| - 1] == root + segment;
  }

  /** A site root is made of URI characters without hyphens, and its one
      slash pair follows the scheme's colon. */
  lemma SiteRootClean(scheme: string, host: string)
    requires |scheme| > 0 && scheme[|scheme| - 1] == ':' && PlainSegment(scheme)
    requires |host| > 0 && PlainSegment(host)
    ensures var root := scheme + "//" + host + "/";
      AllUriChars(root) && '-' !in root && '<' !in root && '>' !in root && SlashPairsAfterColon(root)
  {
    var root := scheme + "//" + host + "/";
    var m := |scheme|;
    assert forall i :: 0 <= i < m ==> root[i] == scheme[i];
    assert root[m] == '/' && root[m + 1] == '/' && root[|root| - 1] == '/';
    assert forall i :: m + 2 <= i < |root| - 1 ==> root[i] == host[i - m - 2];
    assert AllUriChars(root);
    forall i | 0 <= i < |root| && DoubledAt(root, i)
      ensures root[i] == ':'
    {
    }
  }

  /** A plain segment and a slash added to a clean URI ending in a slash
      keep it clean. */
  lemma SegmentBelowClean(root: string, segment: string)
    requires |root| > 0 && root[|root| - 1] == '/'
    requires AllUriChars(root) && '-' !in root && '<' !in root && '>' !in root && SlashPairsAfterColon(root)
    requires |segment| > 0 && PlainSegment(segment)
    ensures var path := root + segment + "/";
      AllUriChars(path) && '-' !in path && '<' !in path && '>' !in path && SlashPairsAfterColon(path)
  {
    var path := root + segment + "/";
    var m := |root|;
    assert forall i :: 0 <= i < m ==> path[i] == root[i];
    assert forall i :: m <= i < |path| - 1 ==> path[i] == segment[i - m];
    assert path[|path| - 1] == '/';
    assert AllUriChars(path);
    forall i | 0 <= i < |path| && DoubledAt(path, i)
      ensures path[i] == ':'
    {
      if i + 2 < m {
        assert DoubledAt(root, i);
      }
    }
  }

  /** On a clean URI ending in a slash, the slash goes exactly when there
      are more than three slashes. */
  lemma CleanSlashRule(s: string)
    requires |s| > 0 && s[0] != '-' && s[|s| - 1] == '/'
    requires AllUriChars(s) && NoDoubleHyphen(s) && '<' !in s && '>' !in s
    requires SlashPairsAfterColon(s)
    ensures SanitiseUriOf(s) == if CharCount(s, '/') > 3 then s[..|s| - 1] else s
    ensures SanitiseUriAsWritten(s) == SanitiseUriOf(s)
  {
    CleanUriKept(s);
    SlashCountRule(s);
  }

  /** The trailing-slash rule in terms of the number of slashes. */
  lemma SlashCountRule(s: string)
    requires |s| > 0 && s[|s| - 1] == '/'
    ensures DropTrailingSlash(s) == if CharCount(s, '/') > 3 then s[..|s| - 1] else s
  {
    CharOccurrences(s, '/', 0);
    assert s[0..] == s;
    assert s[|s| - 1..] == "/";
  }

  /** A slash pair in s at i + 1 follows a ':' at i. */
  predicate DoubledAt(s: string, i: int)
  {
    0 <= i < |s| - 2 && s[i + 1] == '/' && s[i + 2] == '/'
  }

  /** Every "//" in s comes right after a ':', so the slash collapse
      leaves s alone. */
  predicate SlashPairsAfterColon(s: string)
  {
    forall i :: 0 <= i < |s| && DoubledAt(s, i) ==> s[i] == ':'
  }

  lemma {:induction false} KeptSlashes(s: string)
    requires SlashPairsAfterColon(s)
    ensures CollapseSlashes(s) == s
    ensures CollapseSlashesAsWritten(s) == s
    decreases |s|
  {
    if |s| >= 3 {
      assert !(s[0] != ':' && s[1] == '/' && s[2] == '/') by {
        assert DoubledAt(s, 0) ==> s[0] == ':';
      }
      var t := s[1..];
      forall i | 0 <= i < |t| && DoubledAt(t, i)
        ensures t[i] == ':'
      {
        assert DoubledAt(s, i + 1);
      }
      KeptSlashes(t);
      assert s == [s[0]] + t;
    }
  }

  // ---------------------------------------------------------------------
  // ShortUri

  /** The first entry, in table order, whose URI starts the value. */
  function FirstUriPrefix(ns: NamespaceTable, value: string, from: nat): (r: Option<nat>)
    ensures r.Some? ==> from <= r.value < |ns| && StartsWith(value, ns[r.value].1)
    ensures r.Some? ==> forall j :: from <= j < r.value ==> !StartsWith(value, ns[j].1)
    ensures r.None? ==> forall j :: from <= j < |ns| ==> !StartsWith(value, ns[j].1)
    decreases |ns| - from
  {
    if from >= |ns| then None
    else if StartsWith(value, ns[from].1) then Some(from)
    else FirstUriPrefix(ns, value, from + 1)
  }

  /** What ShortUri returns: the prefix of that entry and the rest of the
      value, or no prefix and the whole value. */
  function ShortUriOf(ns: NamespaceTable, value: string): (string, string)
  {
    match FirstUriPrefix(ns, value, 0)
    case Some(i) => (ns[i].0, value[|ns[i].1|..])
    case None => ("", value)
  }

  method ShortUri(ns: NamespaceTable, value: string) returns (prefix: string, shortUri: string)
    ensures (prefix, shortUri) == ShortUriOf(ns, value)
  {
    prefix := "";
    shortUri := value;
    var i := 0;
    while i < |ns|
      invariant 0 <= i <= |ns|
      invariant FirstUriPrefix(ns, value, 0) == FirstUriPrefix(ns, value, i)
    {
      if StartsWith(value, ns[i].1) {
        prefix := ns[i].0;
        shortUri := value[|ns[i].1|..];
        return;
      }
      i := i + 1;
    }
  }

  /** Shortening loses nothing: the URI the returned prefix stands for,
      followed by the short form, is the value again; with no matching
      entry the value comes back whole under no prefix. */
  lemma ShortUriExpands(ns: NamespaceTable, value: string)
    requires DistinctPrefixes(ns)
    ensures var (prefix, shortUri) := ShortUriOf(ns, value);
      match FirstUriPrefix(ns, value, 0)
      case Some(i) => Lookup(ns, prefix) == Some(ns[i].1) && ns[i].1 + shortUri == value
      case None => prefix == "" && shortUri == value
  {
    match FirstUriPrefix(ns, value, 0)
    case Some(i) =>
      LookupFindsEntry(ns, i);
      assert value == value[..|ns[i].1|] + value[|ns[i].1|..];
    case None =>
  }

  // ---------------------------------------------------------------------
  // SanitiseString

  /** The control characters SanitiseString deletes: U+000B, U+000E,
      U+0013 and U+001D. */
  const DeletedControls: seq<char> := ['\U{0B}', '\U{0E}', '\U{13}', '\U{1D}']

  /** The characters of s outside cs, in order. */
  function Without(s: string, cs: set<char>): (r: string)
    ensures forall x :: x in r <==> x in s && x !in cs
  {
    if |s| == 0 then ""
    else if s[0] in cs then Without(s[1..], cs)
    else [s[0]] + Without(s[1..], cs)
  }

  lemma {:induction false} WithoutThenFilter(s: string, cs: set<char>, c: char)
    ensures Filter(Without(s, cs), c) == Without(s, cs + {c})
    decreases |s|
  {
    if |s| > 0 {
      WithoutThenFilter(s[1..], cs, c);
    }
  }

  /** The first n deleted control characters, as a set. */
  function ControlSet(n: nat): set<char>
    requires n <= |DeletedControls|
  {
    if n == 0 then {} else ControlSet(n - 1) + {DeletedControls[n - 1]}
  }

  /** What SanitiseString returns: the value without the four control
      characters; quotes and angle brackets are left as they are, because
      the results of their replacements are discarded. */
  function SanitiseStringOf(value: string): string
  {
    Without(value, ControlSet(4))
  }

  method SanitiseString(value: string) returns (r: string)
    ensures r == SanitiseStringOf(value)
  {
    r := value;
    WithoutNothing(value, {});
    var i := 0;
    while i < |DeletedControls|
      invariant 0 <= i <= |DeletedControls|
      invariant r == Without(value, ControlSet(i))
    {
      ReplaceCharByNothing(r, DeletedControls[i]);
      WithoutThenFilter(value, ControlSet(i), DeletedControls[i]);
      r := Replace(r, [DeletedControls[i]], "");
      i := i + 1;
    }
  }

  /** The cleaned literal has no deleted control character and keeps every
      other character, apostrophes and angle brackets included. */
  lemma SanitisedStringKeepsRest(value: string)
    ensures forall i :: 0 <= i < |DeletedControls| ==> DeletedControls[i] !in SanitiseStringOf(value)
    ensures forall x :: x in value && x !in DeletedControls ==> x in SanitiseStringOf(value)
    ensures SanitiseStringOf("it's <b>") == "it's <b>"
  {
    assert ControlSet(4) == {'\U{0B}', '\U{0E}', '\U{13}', '\U{1D}'};
    WithoutNothing("it's <b>", ControlSet(4));
  }

  lemma {:induction false} WithoutNothing(s: string, cs: set<char>)
    requires forall x :: x in s ==> x !in cs
    ensures Without(s, cs) == s
    decreases |s|
  {
    if |s| > 0 {
      assert s[0] in s;
      assert forall x :: x in s[1..] ==> x in s;
      WithoutNothing(s[1..], cs);
      assert s == [s[0]] + s[1..];
    }
  }

  // ---------------------------------------------------------------------
  // RemoveClosingBrackets

  /** One opening '{' or '^' and then one closing '}' or '~' are removed. */
  function RemoveClosingBrackets(m: string): (r: string)
    ensures |r| <= |m|
  {
    var unopened := if StartsWith(m, "{") || StartsWith(m, "^") then m[1..] else m;
    if EndsWith(unopened, "}") || EndsWith(unopened, "~") then unopened[..|unopened| - 1] else unopened
  }

  /** Removing the brackets undoes wrapping a path in them. */
  lemma UnwrapWrapped(p: string)
    ensures RemoveClosingBrackets("{" + p + "}") == p
    ensures RemoveClosingBrackets("^" + p + "~") == p
  {
    UnwrapOne(p, '{', '}');
    UnwrapOne(p, '^', '~');
  }

  lemma UnwrapOne(p: string, open: char, close: char)
    requires open == '{' || open == '^'
    requires close == '}' || close == '~'
    ensures RemoveClosingBrackets([open] + p + [close]) == p
  {
    var w := [open] + p + [close];
    assert w[..1] == [open];
    assert StartsWith(w, [open]);
    var u := w[1..];
    assert u == p + [close];
    assert u[|u| - 1..] == [close];
    assert EndsWith(u, [close]);
    assert u[..|u| - 1] == p;
  }

  /** A text with no bracket at either end is left alone. */
  lemma BareTextKept(m: string)
    requires |m| > 0 && m[0] != '{' && m[0] != '^' && m[|m| - 1] != '}' && m[|m| - 1] != '~'
    ensures RemoveClosingBrackets(m) == m
  {
    assert m[..1] == [m[0]];
    assert m[|m| - 1..] == [m[|m| - 1]];
  }

  // ---------------------------------------------------------------------
  // The placeholder scans: Regex.Matches(value, "{(.*?)}") and
  // Regex.Matches(value, "\^(.*?)~"). The lazy match ends at the first
  // closing character; '.' does not match a line feed.

  /** The first position at or after from holding close, unless a line
      feed comes first. */
  function CloseAt(s: string, close: char, from: nat): (r: Option<nat>)
    ensures r.Some? ==> from <= r.value < |s| && s[r.value] == close
    ensures r.Some? ==> forall k :: from <= k < r.value ==> s[k] != close && s[k] != '\n'
    decreases |s| - from
  {
    if from >= |s| then None
    else if s[from] == close then Some(from)
    else if s[from] == '\n' then None
    else CloseAt(s, close, from + 1)
  }

  /** A placeholder: the opening character, text free of the closing
      character and of line feeds, and the closing character. */
  predicate Placeholder(m: string, open: char, close: char)
  {
    |m| >= 2 && m[0] == open && m[|m| - 1] == close &&
    forall k :: 1 <= k < |m| - 1 ==> m[k] != close && m[k] != '\n'
  }

  /** The matches, in order, that a scan from position from finds. */
  function Placeholders(s: string, open: char, close: char, from: nat): (r: seq<string>)
    ensures forall i :: 0 <= i < |r| ==> Placeholder(r[i], open, close)
    decreases |s| - from
  {
    if from >= |s| then []
    else if s[from] != open then Placeholders(s, open, close, from + 1)
    else match CloseAt(s, close, from + 1)
      case Some(j) =>
        var m := s[from..j + 1];
        assert forall k :: 1 <= k < |m| - 1 ==> m[k] == s[from + k];
        [m] + Placeholders(s, open, close, j + 1)
      case None => Placeholders(s, open, close, from + 1)
  }

  /** A text without the opening character has no placeholder. */
  lemma {:induction false} NoOpenNoPlaceholder(s: string, open: char, close: char, from: nat)
    requires open !in s
    ensures Placeholders(s, open, close, from) == []
    decreases |s| - from
  {
    if from < |s| {
      assert s[from] in s;
      NoOpenNoPlaceholder(s, open, close, from + 1);
    }
  }

  /** The scans of the interpreter, internal calls first. */
  function FieldPlaceholders(value: string): (r: seq<string>)
    ensures forall i :: 0 <= i < |r| ==> |r[i]| >= 2
  {
    Placeholders(value, '^', '~', 0) + Placeholders(value, '{', '}', 0)
  }

  /** "{a}-{b}" holds two path placeholders, and "x^n~" one call. */
  lemma ScanExamples()
    ensures Placeholders("{a}-{b}", '{', '}', 0) == ["{a}", "{b}"]
    ensures Placeholders("x^n~", '^', '~', 0) == ["^n~"]
  {
    var s := "{a}-{b}";
    assert CloseAt(s, '}', 1) == Some(2);
    assert CloseAt(s, '}', 5) == Some(6);
    assert s[0..3] == "{a}" && s[4..7] == "{b}";
    assert Placeholders(s, '{', '}', 7) == [];
    assert Placeholders(s, '{', '}', 4) == ["{b}"];
    assert Placeholders(s, '{', '}', 3) == ["{b}"];
    var t := "x^n~";
    assert CloseAt(t, '~', 2) == Some(3);
    assert t[1..4] == "^n~";
    assert Placeholders(t, '^', '~', 4) == [];
    assert Placeholders(t, '^', '~', 1) == ["^n~"];
  }

  // ---------------------------------------------------------------------
  // DateToInt

  /** The month table: English three-letter abbreviations. */
  function MonthNumber(abbreviation: string): (r: Option<string>)
    ensures r.Some? ==> |r.value| == 2 && AllDigits(r.value)
  {
    match abbreviation
    case "Jan" => Some("01") case "Feb" => Some("02") case "Mar" => Some("03")
    case "Apr" => Some("04") case "May" => Some("05") case "Jun" => Some("06")
    case "Jul" => Some("07") case "Aug" => Some("08") case "Sep" => Some("09")
    case "Oct" => Some("10") case "Nov" => Some("11") case "Dec" => Some("12")
    case _ => None
  }

  /** DateToInt: "DD MMM YYYY" becomes YYYYMMDD, "Y BC" becomes -Y, any
      other year Y becomes Y0000. An unknown month is a missing key, and a
      text shorter than three characters fails the " BC" test. */
  function DateToInt(date: string): (r: Result<string>)
    ensures var d := Trim(date);
      (|d| == 11 && d[2] == ' ' && d[6] == ' ' ==>
        (MonthNumber(d[3..6]).None? ==> r == Err(KeyNotFound(d[3..6]))) &&
        (MonthNumber(d[3..6]).Some? ==> r == Ok(d[7..] + MonthNumber(d[3..6]).value + d[..2]))) &&
      (!(|d| == 11 && d[2] == ' ' && d[6] == ' ') ==>
        (|d| < 3 ==> r == Err(ArgumentOutOfRange)) &&
        (|d| >= 3 && EndsWith(d, " BC") ==> r == Ok("-" + d[..|d| - 3])) &&
        (|d| >= 3 && !EndsWith(d, " BC") ==> r == Ok(d + "0000")))
  {
    var d := Trim(date);
    if |d| == 11 && d[2] == ' ' && d[6] == ' ' then
      match MonthNumber(d[3..6])
      case Some(m) => Ok(d[|d| - 4..] + m + d[..2])
      case None => Err(KeyNotFound(d[3..6]))
    else if |d| < 3 then Err(ArgumentOutOfRange)
    else if d[|d| - 3..] == " BC" then Ok("-" + d[..|d| - 3])
    else Ok(d + "0000")
  }

  /** A full date gives eight characters: the year, the month's two digits
      and the day. */
  lemma FullDateShape(date: string)
    requires var d := Trim(date); |d| == 11 && d[2] == ' ' && d[6] == ' ' && MonthNumber(d[3..6]).Some?
    ensures DateToInt(date).Ok? && |DateToInt(date).value| == 8
  {
  }

  lemma FullDateExample(date: string)
    requires date == "05 Mar 1999"
    ensures DateToInt(date) == Ok("19990305")
  {
    TrimOfNonBlankEnds(date);
    assert Trim(date) == date && |date| == 11;
    assert date[2] == ' ' && date[6] == ' ';
    assert date[3..6] == "Mar" && date[7..] == "1999" && date[..2] == "05";
    assert MonthNumber("Mar") == Some("03");
    assert date[|date| - 4..] == "1999";
    assert "1999" + "03" + "05" == "19990305";
  }

  // ---------------------------------------------------------------------
  // ParseFormat

  /** The output format a (trimmed, case-folded) name selects; any other
      name, "nq" and "nquads" included, selects RDF/XML. */
  function ParseFormat(format: string): (r: RdfFormat)
    ensures r != NQuads
    ensures r == TriG <==> ToLower(Trim(format)) == "trig"
    ensures r == Turtle <==> ToLower(Trim(format)) in {"ttl", "turtle"}
    ensures r == N3 <==> ToLower(Trim(format)) in {"n3", "notation3"}
    ensures r == NTriples <==> ToLower(Trim(format)) in {"nt", "ntriples"}
  {
    match ToLower(Trim(format))
    case "rdf" => RdfXml
    case "ttl" => Turtle
    case "turtle" => Turtle
    case "n3" => N3
    case "notation3" => N3
    case "trig" => TriG
    case "nt" => NTriples
    case "ntriples" => NTriples
    case _ => RdfXml
  }

  lemma NQuadsNameUnknown(name: string)
    requires name == "nq" || name == "nquads"
    ensures ParseFormat(name) == RdfXml
  {
    TrimOfNonBlankEnds(name);
    assert ToLower(name) == name;
  }
}

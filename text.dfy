/**
 * The Python string operations the extractors rely on, over `string = seq<char>`:
 * `sep.join`, `str.splitlines` (through a one-character split helper),
 * `str.startswith`/`endswith`, `str.replace`, `str.strip`, `str.lower`, `int()`
 * and `str(int)`, and `filter(None, ...)` on a list of strings.  Line breaks are `'\n'` only and
 * whitespace is the ASCII part of `str.isspace`.
 */
module Text {
  import opened Wrappers

  // ---------------------------------------------------------------------------
  // Characters
  // ---------------------------------------------------------------------------

  /** `str.isspace` on one character, restricted to ASCII: space, `\t \n \v \f \r`
      and the separators `\x1c`-`\x1f`. */
  predicate IsSpace(c: char) {
    c == ' ' || (9 <= c as int <= 13) || (28 <= c as int <= 31)
  }

  predicate AllSpace(s: string) {
    forall i :: 0 <= i < |s| ==> IsSpace(s[i])
  }

  predicate IsDigit(c: char) {
    '0' <= c <= '9'
  }

  predicate AllDigits(s: string) {
    forall i :: 0 <= i < |s| ==> IsDigit(s[i])
  }

  // ---------------------------------------------------------------------------
  // Joining and splitting
  // ---------------------------------------------------------------------------

  /** `sep.join(parts)`. */
  function Join(parts: seq<string>, sep: string): string
  {
    if |parts| == 0 then ""
    else if |parts| == 1 then parts[0]
    else parts[0] + sep + Join(parts[1..], sep)
  }

  /** Joining two non-empty lists is joining each and putting one separator between. */
  lemma {:induction false} JoinAppend(a: seq<string>, b: seq<string>, sep: string)
    requires |a| > 0 && |b| > 0
    ensures Join(a + b, sep) == Join(a, sep) + sep + Join(b, sep)
  {
    if |a| == 1 {
      assert (a + b)[1..] == b;
    } else {
      assert (a + b)[1..] == a[1..] + b;
      JoinAppend(a[1..], b, sep);
    }
  }

  /** Joining with a longer first part only lengthens the result at the front. */
  lemma {:induction false} JoinGrowFirst(x: string, y: string, rest: seq<string>, sep: string)
    ensures Join([x + y] + rest, sep) == x + Join([y] + rest, sep)
  {
    if |rest| > 0 {
      assert ([x + y] + rest)[1..] == rest;
      assert ([y] + rest)[1..] == rest;
    }
  }

  /** Splitting at every occurrence of a one-character separator, the helper from
      which `SplitLines` (Python's `splitlines()`) is defined: always at least one
      piece, and no piece holds the separator. */
  function Split(s: string, c: char): (r: seq<string>)
    ensures |r| >= 1
    ensures forall i :: 0 <= i < |r| ==> c !in r[i]
  {
    if s == [] then [""]
    else
      var rest := Split(s[1..], c);
      if s[0] == c then [""] + rest
      else [[s[0]] + rest[0]] + rest[1..]
  }

  /** A string without the separator splits into itself. */
  lemma {:induction false} SplitNoSep(s: string, c: char)
    requires c !in s
    ensures Split(s, c) == [s]
  {
    if s != [] {
      SplitNoSep(s[1..], c);
      assert [s[0]] + s[1..] == s;
    }
  }

  /** Splitting distributes over a separator occurrence. */
  lemma {:induction false} SplitAppend(a: string, b: string, c: char)
    ensures Split(a + [c] + b, c) == Split(a, c) + Split(b, c)
  {
    var s := a + [c] + b;
    if a == [] {
      assert s[1..] == b;
    } else {
      assert s[1..] == a[1..] + [c] + b;
      SplitAppend(a[1..], b, c);
    }
  }

  /** Joining the pieces of a split gives back the string. */
  lemma {:induction false} JoinSplit(s: string, c: char)
    ensures Join(Split(s, c), [c]) == s
  {
    if s != [] {
      var rest := Split(s[1..], c);
      JoinSplit(s[1..], c);
      if s[0] == c {
        assert ([""] + rest)[1..] == rest;
      } else {
        JoinGrowFirst([s[0]], rest[0], rest[1..], [c]);
        assert [rest[0]] + rest[1..] == rest;
      }
    }
  }

  /** Splitting a join recovers the parts, provided no part holds the separator. */
  lemma {:induction false} SplitJoin(parts: seq<string>, c: char)
    requires |parts| >= 1
    requires forall i :: 0 <= i < |parts| ==> c !in parts[i]
    ensures Split(Join(parts, [c]), c) == parts
  {
    SplitNoSep(parts[0], c);
    if |parts| > 1 {
      SplitJoin(parts[1..], c);
      SplitAppend(parts[0], Join(parts[1..], [c]), c);
      assert [parts[0]] + parts[1..] == parts;
    }
  }

  /** `s.splitlines()` where `'\n'` is the only line break. */
  function SplitLines(s: string): seq<string>
  {
    if s == [] then []
    else if s[|s| - 1] == '\n' then Split(s[..|s| - 1], '\n')
    else Split(s, '\n')
  }

  /** The text written by one `println` (Java) or `write(x + "\n")` (Python) per unit. */
  function PrintedText(units: seq<string>): string
  {
    if units == [] then ""
    else PrintedText(units[..|units| - 1]) + units[|units| - 1] + "\n"
  }

  /** Every unit split at its own line breaks, the pieces concatenated. */
  function SplitAll(units: seq<string>): seq<string>
  {
    if units == [] then []
    else SplitAll(units[..|units| - 1]) + Split(units[|units| - 1], '\n')
  }

  lemma {:induction false} SplitAllAppend(a: seq<string>, b: seq<string>)
    ensures SplitAll(a + b) == SplitAll(a) + SplitAll(b)
  {
    if b != [] {
      assert (a + b)[..|a + b| - 1] == a + b[..|b| - 1];
      SplitAllAppend(a, b[..|b| - 1]);
    } else {
      assert a + b == a;
    }
  }

  /** Splitting printed output into lines gives every unit's own lines, in order. */
  lemma {:induction false} SplitLinesPrinted(units: seq<string>)
    ensures SplitLines(PrintedText(units)) == SplitAll(units)
  {
    if units != [] {
      var front := units[..|units| - 1];
      var u := units[|units| - 1];
      var p := PrintedText(front);
      assert PrintedText(units) == p + u + "\n";
      assert (p + u + "\n")[..|p + u + "\n"| - 1] == p + u;
      if front == [] {
        assert p + u == u;
      } else {
        SplitLinesPrinted(front);
        var q := p[..|p| - 1];
        assert p == q + "\n";
        assert p + u == q + ['\n'] + u;
        SplitAppend(q, u, '\n');
      }
    }
  }

  /** Joining the lines of all units with `"\n"` is joining the units themselves. */
  lemma {:induction false} JoinSplitAll(units: seq<string>)
    requires |units| >= 1
    ensures Join(SplitAll(units), "\n") == Join(units, "\n")
  {
    var front := units[..|units| - 1];
    var u := units[|units| - 1];
    JoinSplit(u, '\n');
    if front == [] {
      assert SplitAll(units) == Split(u, '\n');
      assert units == [u];
    } else {
      JoinSplitAll(front);
      JoinAppend(SplitAll(front), Split(u, '\n'), "\n");
      JoinAppend(front, [u], "\n");
      assert front + [u] == units;
    }
  }

  /** Concatenation is associative; the one regrouping step the frame proofs use. */
  lemma ConcatAssoc<T>(a: seq<T>, b: seq<T>, c: seq<T>)
    ensures a + b + c == a + (b + c)
  {
  }

  /** The concatenation of a list of lists, in order. */
  function Flatten<T>(xss: seq<seq<T>>): seq<T>
  {
    if xss == [] then [] else Flatten(xss[..|xss| - 1]) + xss[|xss| - 1]
  }

  lemma {:induction false} FlattenAppend<T>(a: seq<seq<T>>, b: seq<seq<T>>)
    ensures Flatten(a + b) == Flatten(a) + Flatten(b)
  {
    if b != [] {
      assert (a + b)[..|a + b| - 1] == a + b[..|b| - 1];
      FlattenAppend(a, b[..|b| - 1]);
    } else {
      assert a + b == a;
    }
  }

  /** `filter(None, parts)`: drops exactly the empty strings and keeps the order. */
  function NonEmpty(parts: seq<string>): (r: seq<string>)
    ensures forall x :: x in r <==> x in parts && x != ""
    ensures |r| <= |parts|
  {
    if parts == [] then []
    else
      NonEmpty(parts[..|parts| - 1])
        + (if parts[|parts| - 1] == "" then [] else [parts[|parts| - 1]])
  }

  /** Filtering distributes over concatenation (the filter keeps order). */
  lemma {:induction false} NonEmptyAppend(a: seq<string>, b: seq<string>)
    ensures NonEmpty(a + b) == NonEmpty(a) + NonEmpty(b)
  {
    if b != [] {
      assert (a + b)[..|a + b| - 1] == a + b[..|b| - 1];
      NonEmptyAppend(a, b[..|b| - 1]);
    } else {
      assert a + b == a;
    }
  }

  /** A list without empty strings passes the filter unchanged (whitespace-only
      strings are kept). */
  lemma {:induction false} NonEmptyKeepsAll(parts: seq<string>)
    requires "" !in parts
    ensures NonEmpty(parts) == parts
  {
    if parts != [] {
      NonEmptyKeepsAll(parts[..|parts| - 1]);
      assert parts[..|parts| - 1] + [parts[|parts| - 1]] == parts;
    }
  }

  // ---------------------------------------------------------------------------
  // Prefixes, suffixes and replacement
  // ---------------------------------------------------------------------------

  predicate StartsWith(s: string, prefix: string) {
    |prefix| <= |s| && s[..|prefix|] == prefix
  }

  predicate EndsWith(s: string, suffix: string) {
    |suffix| <= |s| && s[|s| - |suffix|..] == suffix
  }

  /** `s.replace(pat, rep)`: every leftmost, non-overlapping occurrence of a
      non-empty pattern is replaced, scanning left to right. */
  function ReplaceAll(s: string, pat: string, rep: string): string
    requires |pat| > 0
    decreases |s|
  {
    if |s| < |pat| then s
    else if s[..|pat|] == pat then rep + ReplaceAll(s[|pat|..], pat, rep)
    else [s[0]] + ReplaceAll(s[1..], pat, rep)
  }

  /** A prefix in which no occurrence of the pattern starts is copied unchanged. */
  lemma {:induction false} ReplaceAllSkip(a: string, b: string, pat: string, rep: string)
    requires |pat| > 0
    requires forall p :: 0 <= p < |a| ==> !StartsWith((a + b)[p..], pat)
    ensures ReplaceAll(a + b, pat, rep) == a + ReplaceAll(b, pat, rep)
  {
    if a == [] {
      assert a + b == b;
    } else {
      var s := a + b;
      assert s[0..] == s;
      if |s| >= |pat| {
        assert s[1..] == a[1..] + b;
        forall p | 0 <= p < |a[1..]|
          ensures !StartsWith((a[1..] + b)[p..], pat)
        {
          assert (a[1..] + b)[p..] == s[p + 1..];
        }
        assert !StartsWith(s[0..], pat);
        assert ReplaceAll(s, pat, rep) == [s[0]] + ReplaceAll(s[1..], pat, rep);
        ReplaceAllSkip(a[1..], b, pat, rep);
        assert [a[0]] + a[1..] == a;
        assert [a[0]] + (a[1..] + ReplaceAll(b, pat, rep)) == a + ReplaceAll(b, pat, rep);
      } else {
        assert |b| < |pat|;
      }
    }
  }

  /** Replacing one character by one character maps the string position by position. */
  lemma {:induction false} ReplaceCharAt(s: string, pat: string, rep: string)
    requires |pat| == 1 && |rep| == 1
    ensures |ReplaceAll(s, pat, rep)| == |s|
    ensures forall i :: 0 <= i < |s| ==>
      ReplaceAll(s, pat, rep)[i] == (if s[i] == pat[0] then rep[0] else s[i])
  {
    if s != [] {
      ReplaceCharAt(s[1..], pat, rep);
      if s[..1] == pat {
        assert s[0] == pat[0];
      } else {
        assert s[0] != pat[0] by { assert s[..1] == [s[0]]; }
      }
    }
  }

  // ---------------------------------------------------------------------------
  // Stripping
  // ---------------------------------------------------------------------------

  /** `s.lstrip()`. */
  function LStrip(s: string): string
  {
    if s != [] && IsSpace(s[0]) then LStrip(s[1..]) else s
  }

  /** `s.rstrip()`. */
  function RStrip(s: string): string
  {
    if s != [] && IsSpace(s[|s| - 1]) then RStrip(s[..|s| - 1]) else s
  }

  /** `s.strip()`. */
  function Strip(s: string): string
  {
    RStrip(LStrip(s))
  }

  /** `lstrip` removes a run of whitespace from the front and nothing else. */
  lemma {:induction false} LStripSpec(s: string)
    ensures |LStrip(s)| <= |s| && LStrip(s) == s[|s| - |LStrip(s)|..]
    ensures AllSpace(s[..|s| - |LStrip(s)|])
    ensures LStrip(s) == [] || !IsSpace(LStrip(s)[0])
  {
    if s != [] && IsSpace(s[0]) {
      LStripSpec(s[1..]);
      var k := |s| - |LStrip(s)|;
      assert s[..k] == [s[0]] + s[1..][..k - 1];
      assert s[1..][|s[1..]| - |LStrip(s)|..] == s[k..];
    }
  }

  /** `rstrip` removes a run of whitespace from the end and nothing else. */
  lemma {:induction false} RStripSpec(s: string)
    ensures |RStrip(s)| <= |s| && RStrip(s) == s[..|RStrip(s)|]
    ensures AllSpace(s[|RStrip(s)|..])
    ensures RStrip(s) == [] || !IsSpace(RStrip(s)[|RStrip(s)| - 1])
  {
    if s != [] && IsSpace(s[|s| - 1]) {
      var front := s[..|s| - 1];
      RStripSpec(front);
      var k := |RStrip(s)|;
      assert s[k..] == front[k..] + [s[|s| - 1]];
      assert front[..k] == s[..k];
    }
  }

  /** `strip` leaves a stretch of the input with non-space ends (or nothing),
      with only whitespace cut off on either side. */
  lemma StripSpec(s: string)
    ensures Strip(s) == [] || (!IsSpace(Strip(s)[0]) && !IsSpace(Strip(s)[|Strip(s)| - 1]))
    ensures exists lo :: 0 <= lo <= |s| - |Strip(s)| && Strip(s) == s[lo..lo + |Strip(s)|]
              && AllSpace(s[..lo]) && AllSpace(s[lo + |Strip(s)|..])
  {
    var l := LStrip(s);
    var r := Strip(s);
    LStripSpec(s);
    RStripSpec(l);
    var lo := |s| - |l|;
    if r != [] {
      assert r[0] == l[0];
    }
    assert s[lo..lo + |r|] == l[..|r|];
    assert s[lo + |r|..] == l[|r|..];
  }

  /** Whitespace in front of a string that does not start with whitespace is all
      `lstrip` removes. */
  lemma {:induction false} LStripPadded(pre: string, rest: string)
    requires AllSpace(pre)
    requires rest == [] || !IsSpace(rest[0])
    ensures LStrip(pre + rest) == rest
  {
    if pre == [] {
      assert pre + rest == rest;
    } else {
      assert (pre + rest)[1..] == pre[1..] + rest;
      LStripPadded(pre[1..], rest);
    }
  }

  /** Whitespace after a string that does not end in whitespace is all `rstrip`
      removes. */
  lemma {:induction false} RStripPadded(rest: string, post: string)
    requires AllSpace(post)
    requires rest == [] || !IsSpace(rest[|rest| - 1])
    ensures RStrip(rest + post) == rest
  {
    if post == [] {
      assert rest + post == rest;
    } else {
      var front := post[..|post| - 1];
      assert (rest + post)[..|rest + post| - 1] == rest + front;
      RStripPadded(rest, front);
    }
  }

  /** Stripping a core with non-space ends out of whitespace padding gives the core. */
  lemma StripPadded(pre: string, core: string, post: string)
    requires AllSpace(pre) && AllSpace(post)
    requires core == [] || (!IsSpace(core[0]) && !IsSpace(core[|core| - 1]))
    ensures Strip(pre + core + post) == core
  {
    if core == [] {
      assert pre + core + post == (pre + post) + "";
      LStripPadded(pre + post, "");
      RStripPadded("", "");
    } else {
      assert pre + core + post == pre + (core + post);
      LStripPadded(pre, core + post);
      RStripPadded(core, post);
    }
  }

  /** A string with non-space ends, or the empty string, is already stripped. */
  lemma StripUnchanged(s: string)
    requires s == [] || (!IsSpace(s[0]) && !IsSpace(s[|s| - 1]))
    ensures Strip(s) == s
  {
    StripPadded("", s, "");
    assert "" + s + "" == s;
  }

  /** The characters of `s` that are not whitespace, in order. */
  function NonSpace(s: string): string
  {
    if s == [] then [] else (if IsSpace(s[0]) then [] else [s[0]]) + NonSpace(s[1..])
  }

  lemma {:induction false} NonSpaceAppend(a: string, b: string)
    ensures NonSpace(a + b) == NonSpace(a) + NonSpace(b)
  {
    if a != [] {
      assert (a + b)[0] == a[0];
      assert (a + b)[1..] == a[1..] + b;
      NonSpaceAppend(a[1..], b);
    } else {
      assert a + b == b;
    }
  }

  lemma {:induction false} NonSpaceOfSpaces(s: string)
    requires AllSpace(s)
    ensures NonSpace(s) == []
  {
    if s != [] {
      assert IsSpace(s[0]);
      NonSpaceOfSpaces(s[1..]);
    }
  }

  /** Whitespace put in front of a string adds nothing to its non-space part. */
  lemma NonSpaceAfterSpaces(pad: string, s: string)
    requires AllSpace(pad)
    ensures NonSpace(pad + s) == NonSpace(s)
  {
    NonSpaceAppend(pad, s);
    NonSpaceOfSpaces(pad);
    assert [] + NonSpace(s) == NonSpace(s);
  }

  /** `strip` removes only whitespace: the other characters stay, in order. */
  lemma StripNonSpace(s: string)
    ensures NonSpace(Strip(s)) == NonSpace(s)
  {
    var l := LStrip(s);
    var r := RStrip(l);
    LStripSpec(s);
    RStripSpec(l);
    assert s == s[..|s| - |l|] + l;
    NonSpaceAfterSpaces(s[..|s| - |l|], l);
    assert l == r + l[|r|..];
    NonSpaceAppend(r, l[|r|..]);
    NonSpaceOfSpaces(l[|r|..]);
    assert NonSpace(r) + [] == NonSpace(r);
  }

  // ---------------------------------------------------------------------------
  // Case
  // ---------------------------------------------------------------------------

  function LowerChar(c: char): char {
    if 'A' <= c <= 'Z' then (c as int + 32) as char else c
  }

  /** `s.lower()` on ASCII letters. */
  function Lower(s: string): (r: string)
    ensures |r| == |s|
    ensures forall i :: 0 <= i < |r| ==> !('A' <= r[i] <= 'Z')
  {
    if s == [] then [] else [LowerChar(s[0])] + Lower(s[1..])
  }

  /** Lower-casing twice is lower-casing once. */
  lemma {:induction false} LowerIdempotent(s: string)
    ensures Lower(Lower(s)) == Lower(s)
  {
    if s != [] {
      LowerIdempotent(s[1..]);
      assert Lower(s)[1..] == Lower(s[1..]);
    }
  }

  /** Lower-casing works character by character. */
  lemma {:induction false} LowerAppend(a: string, b: string)
    ensures Lower(a + b) == Lower(a) + Lower(b)
  {
    if a != [] {
      assert (a + b)[1..] == a[1..] + b;
      LowerAppend(a[1..], b);
    } else {
      assert a + b == b;
    }
  }

  // ---------------------------------------------------------------------------
  // Integers
  // ---------------------------------------------------------------------------

  function DigitChar(d: nat): (c: char)
    requires d < 10
    ensures IsDigit(c)
  {
    (48 + d) as char
  }

  /** The value of a string of decimal digits. */
  function DigitsValue(s: string): nat
    requires AllDigits(s)
  {
    if s == [] then 0
    else DigitsValue(s[..|s| - 1]) * 10 + (s[|s| - 1] as int - 48)
  }

  /** `str(n)` for a natural number. */
  function NatToString(n: nat): (r: string)
    ensures |r| >= 1 && AllDigits(r)
  {
    if n < 10 then [DigitChar(n)] else NatToString(n / 10) + [DigitChar(n % 10)]
  }

  /** `str(i)` (and Java's `"" + i`) for any integer. */
  function IntToString(i: int): (r: string)
    ensures |r| >= 1
    ensures forall k :: 0 <= k < |r| ==> IsDigit(r[k]) || (k == 0 && r[k] == '-')
    ensures r[|r| - 1] != '-'
  {
    if i < 0 then "-" + NatToString(-i) else NatToString(i)
  }

  /** `int(s)` for an already stripped string: an optional sign and one or more
      ASCII digits; anything else raises (`None`). */
  function ParseInt(s: string): Option<int>
  {
    if |s| >= 2 && s[0] == '-' && AllDigits(s[1..]) then Some(-(DigitsValue(s[1..]) as int))
    else if |s| >= 2 && s[0] == '+' && AllDigits(s[1..]) then Some(DigitsValue(s[1..]))
    else if |s| >= 1 && AllDigits(s) then Some(DigitsValue(s))
    else None
  }

  lemma {:induction false} DigitsOfNat(n: nat)
    ensures DigitsValue(NatToString(n)) == n
  {
    if n >= 10 {
      DigitsOfNat(n / 10);
      var s := NatToString(n);
      assert s[..|s| - 1] == NatToString(n / 10);
    }
  }

  /** `int(str(i)) == i`. */
  lemma ParseIntToString(i: int)
    ensures ParseInt(IntToString(i)) == Some(i)
  {
    if i < 0 {
      DigitsOfNat(-i);
      assert IntToString(i)[1..] == NatToString(-i);
    } else {
      DigitsOfNat(i);
    }
  }
}

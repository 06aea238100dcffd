/** The Python string operations both scripts rely on, restricted to ASCII:
    `str.strip()`, `str.lower()`, `str.split(sep)`, `sep.join(parts)`,
    `str.replace(old, new)`, the substring test `x in s`, and integer
    formatting with `str(n)` and `format(n, "04x")`. Non-ASCII characters are
    carried through unchanged. */
module Text {
  import opened Wrappers

  /** The ASCII characters Python's `str.isspace()` accepts: tab, line feed,
      vertical tab, form feed, carriage return, the four information
      separators and space. */
  predicate IsSpace(c: char) {
    c == ' ' || ('\t' <= c <= '\r') || ('\U{1C}' <= c <= '\U{1F}')
  }

  predicate IsDigit(c: char) {
    '0' <= c <= '9'
  }

  predicate IsUpper(c: char) {
    'A' <= c <= 'Z'
  }

  predicate AllDigits(s: string) {
    forall i :: 0 <= i < |s| ==> IsDigit(s[i])
  }

  predicate NoUpper(s: string) {
    forall i :: 0 <= i < |s| ==> !IsUpper(s[i])
  }

  /** Neither the first nor the last character is white space. */
  predicate Stripped(s: string) {
    |s| == 0 || (!IsSpace(s[0]) && !IsSpace(s[|s| - 1]))
  }

  // ---------------------------------------------------------------------------
  // Case

  function LowerChar(c: char): char {
    if IsUpper(c) then (c as int + 32) as char else c
  }

  /** `s.lower()` on ASCII letters. */
  function Lower(s: string): (r: string)
    ensures |r| == |s|
    ensures forall i :: 0 <= i < |s| ==> r[i] == LowerChar(s[i])
  {
    seq(|s|, i requires 0 <= i < |s| => LowerChar(s[i]))
  }

  lemma LowerOfLower(s: string)
    ensures NoUpper(Lower(s))
  {
  }

  lemma LowerUnchanged(s: string)
    requires NoUpper(s)
    ensures Lower(s) == s
  {
  }

  lemma LowerConcat(a: string, b: string)
    ensures Lower(a + b) == Lower(a) + Lower(b)
  {
  }

  // ---------------------------------------------------------------------------
  // Stripping

  /** `s.lstrip()`: drops the longest white-space prefix. */
  function TrimStart(s: string): (r: string)
    ensures |r| <= |s| && r == s[|s| - |r|..]
    ensures forall i :: 0 <= i < |s| - |r| ==> IsSpace(s[i])
    ensures |r| > 0 ==> !IsSpace(r[0])
    decreases |s|
  {
    if |s| > 0 && IsSpace(s[0]) then TrimStart(s[1..]) else s
  }

  /** `s.rstrip()`: drops the longest white-space suffix. */
  function TrimEnd(s: string): (r: string)
    ensures |r| <= |s| && r == s[..|r|]
    ensures forall i :: |r| <= i < |s| ==> IsSpace(s[i])
    ensures |r| > 0 ==> !IsSpace(r[|r| - 1])
    decreases |s|
  {
    if |s| > 0 && IsSpace(s[|s| - 1]) then TrimEnd(s[..|s| - 1]) else s
  }

  /** `s.strip()`. */
  function Strip(s: string): (r: string)
    ensures Stripped(r)
  {
    TrimEnd(TrimStart(s))
  }

  lemma StripUnchanged(s: string)
    requires Stripped(s)
    ensures Strip(s) == s
  {
  }

  /** Leading white space never reaches the result of `strip()`. */
  lemma {:induction false} StripAfterSpace(c: char, s: string)
    requires IsSpace(c)
    ensures Strip([c] + s) == Strip(s)
  {
    assert ([c] + s)[1..] == s;
  }

  // ---------------------------------------------------------------------------
  // Splitting and joining

  /** Index of the first `c` in `s`, or `|s|` when there is none. */
  function Find(s: string, c: char): (r: nat)
    ensures r <= |s|
    ensures r < |s| ==> s[r] == c
    ensures forall i :: 0 <= i < r ==> s[i] != c
    decreases |s|
  {
    if |s| == 0 then 0
    else if s[0] == c then 0
    else 1 + Find(s[1..], c)
  }

  /** `sep.join(parts)`. */
  function Join(parts: seq<string>, sep: string): string
    decreases |parts|
  {
    if |parts| == 0 then ""
    else if |parts| == 1 then parts[0]
    else parts[0] + sep + Join(parts[1..], sep)
  }

  /** No parts join to the empty string; otherwise the joined text starts
      with the first part and ends with the last. */
  lemma {:induction false} JoinEnds(parts: seq<string>, sep: string)
    ensures |parts| == 0 ==> Join(parts, sep) == ""
    ensures |parts| > 0 ==> parts[0] <= Join(parts, sep)
    ensures |parts| > 0 ==> var j, last := Join(parts, sep), parts[|parts| - 1];
      |last| <= |j| && j[|j| - |last|..] == last
    decreases |parts|
  {
    if |parts| >= 2 {
      JoinEnds(parts[1..], sep);
      var j, rest := Join(parts, sep), Join(parts[1..], sep);
      assert j == parts[0] + sep + rest;
      assert j[..|parts[0]|] == parts[0];
      assert j[|j| - |rest|..] == rest;
    }
  }

  /** `s.split(c)` for a one-character separator: the pieces between the
      separators, none of which contains it, and which join back to `s`. */
  function Split(s: string, c: char): (parts: seq<string>)
    ensures |parts| >= 1
    ensures forall i :: 0 <= i < |parts| ==> c !in parts[i]
    ensures Join(parts, [c]) == s
    decreases |s|
  {
    var i := Find(s, c);
    if i == |s| then [s]
    else
      var rest := Split(s[i + 1..], c);
      assert ([s[..i]] + rest)[1..] == rest;
      assert s == s[..i] + [c] + s[i + 1..];
      [s[..i]] + rest
  }

  lemma FindAbsent(s: string, c: char)
    requires c !in s
    ensures Find(s, c) == |s|
  {
  }

  lemma SplitAfterFirst(x: string, c: char, rest: string)
    requires c !in x
    ensures Split(x + [c] + rest, c) == [x] + Split(rest, c)
  {
    var s := x + [c] + rest;
    var k := |x|;
    assert s[k] == c;
    assert forall i :: 0 <= i < k ==> s[i] == x[i];
    assert Find(s, c) == k;
    assert s[..k] == x;
    assert s[k + 1..] == rest;
  }

  /** Splitting undoes joining when no part holds the separator. */
  lemma {:induction false} SplitJoin(parts: seq<string>, c: char)
    requires |parts| >= 1
    requires forall i :: 0 <= i < |parts| ==> c !in parts[i]
    ensures Split(Join(parts, [c]), c) == parts
    decreases |parts|
  {
    if |parts| == 1 {
      FindAbsent(parts[0], c);
    } else {
      var rest := Join(parts[1..], [c]);
      SplitJoin(parts[1..], c);
      SplitAfterFirst(parts[0], c, rest);
      assert parts == [parts[0]] + parts[1..];
    }
  }

  /** The parts after the first, each preceded by `t`. */
  function PrefixTail(parts: seq<string>, t: string): (r: seq<string>)
    ensures |r| == |parts|
    ensures |parts| > 0 ==> r[0] == parts[0]
    ensures forall i :: 1 <= i < |parts| ==> r[i] == t + parts[i]
  {
    if |parts| == 0 then []
    else [parts[0]] + seq(|parts| - 1, i requires 0 <= i < |parts| - 1 => t + parts[i + 1])
  }

  lemma JoinPrependFirst(t: string, x: string, rest: seq<string>, sep: string)
    ensures Join([t + x] + rest, sep) == t + Join([x] + rest, sep)
  {
    if |rest| > 0 {
      assert ([t + x] + rest)[1..] == rest;
      assert ([x] + rest)[1..] == rest;
    }
  }

  /** Joining with a separator `[c] + t` equals joining with `[c]` after
      prefixing every part but the first with `t`. */
  lemma {:induction false} JoinLongSeparator(parts: seq<string>, c: char, t: string)
    ensures Join(parts, [c] + t) == Join(PrefixTail(parts, t), [c])
    decreases |parts|
  {
    if |parts| >= 2 {
      var tail := parts[1..];
      JoinLongSeparator(tail, c, t);
      var pt := PrefixTail(tail, t);
      var full := PrefixTail(parts, t);
      assert full[1..] == [t + tail[0]] + pt[1..];
      assert pt == [tail[0]] + pt[1..];
      JoinPrependFirst(t, tail[0], pt[1..], [c]);
      assert Join(full, [c]) == full[0] + [c] + Join(full[1..], [c]);
    }
  }

  // ---------------------------------------------------------------------------
  // Substrings

  /** `p` occurs in `s` starting at index `i`. */
  predicate OccursAt(s: string, p: string, i: int) {
    0 <= i && i + |p| <= |s| && s[i..i + |p|] == p
  }

  lemma OccursShift(s: string, p: string, i: int)
    requires |s| >= 1 && i >= 0
    ensures OccursAt(s[1..], p, i) <==> OccursAt(s, p, i + 1)
  {
    if 0 <= i && i + |p| <= |s| - 1 {
      assert s[1..][i..i + |p|] == s[i + 1..i + 1 + |p|];
    }
  }

  lemma ContainsShift(s: string, p: string)
    requires |s| >= |p| && |s| >= 1 && s[..|p|] != p
    ensures (exists i :: OccursAt(s, p, i)) <==> (exists j :: OccursAt(s[1..], p, j))
  {
    if exists i :: OccursAt(s, p, i) {
      var i :| OccursAt(s, p, i);
      assert i != 0;
      OccursShift(s, p, i - 1);
    }
    if exists j :: OccursAt(s[1..], p, j) {
      var j :| OccursAt(s[1..], p, j);
      OccursShift(s, p, j);
    }
  }

  /** The substring test `p in s`. */
  function Contains(s: string, p: string): (b: bool)
    ensures b <==> exists i :: OccursAt(s, p, i)
    decreases |s|
  {
    if |s| < |p| then false
    else if s[..|p|] == p then assert OccursAt(s, p, 0); true
    else ContainsShift(s, p); Contains(s[1..], p)
  }

  /** `s.replace(p, r)`: every non-overlapping occurrence of `p`, scanning
      from the left, is replaced by `r`. */
  function Replace(s: string, p: string, r: string): (t: string)
    requires |p| > 0
    ensures !Contains(s, p) ==> t == s
    decreases |s|
  {
    if |s| < |p| then s
    else if s[..|p|] == p then r + Replace(s[|p|..], p, r)
    else [s[0]] + Replace(s[1..], p, r)
  }

  /** An occurrence at the front becomes `r`, and the scan resumes after it. */
  lemma ReplaceAt(s: string, p: string, r: string)
    requires |p| > 0 && |s| >= |p| && s[..|p|] == p
    ensures Replace(s, p, r) == r + Replace(s[|p|..], p, r)
  {
  }

  /** Text that holds the pattern holds the replacement afterwards: the
      leftmost occurrence is always replaced. */
  lemma {:induction false} ReplaceIntroduces(s: string, p: string, r: string)
    requires |p| > 0
    ensures Contains(s, p) ==> Contains(Replace(s, p, r), r)
    decreases |s|
  {
    if Contains(s, p) {
      var t := Replace(s, p, r);
      if s[..|p|] == p {
        assert t[..|r|] == r;
        assert OccursAt(t, r, 0);
      } else {
        ContainsShift(s, p);
        ReplaceIntroduces(s[1..], p, r);
        var j :| OccursAt(Replace(s[1..], p, r), r, j);
        assert t[1..] == Replace(s[1..], p, r);
        OccursShift(t, r, j);
      }
    }
  }

  /** Without an occurrence at the front, the first character is copied
      and the scan moves on by one. */
  lemma ReplaceSkip(s: string, p: string, r: string)
    requires |p| > 0 && |s| >= 1 && !OccursAt(s, p, 0)
    ensures Replace(s, p, r) == [s[0]] + Replace(s[1..], p, r)
  {
    assert |s| >= |p| ==> s[..|p|] != p;
  }

  /** A left-to-right scan `f` that copies the character at each position
      before `k` and then replaces an occurrence at `k` reproduces the text
      from `j` to `k` and then `r`. */
  lemma {:induction false} ScanCopies(f: string -> string, s: string, p: string, r: string, j: nat, k: nat)
    requires j <= k && k + |p| <= |s|
    requires forall i {:trigger s[i]} :: j <= i < k ==> f(s[i..]) == [s[i]] + f(s[i + 1..])
    requires f(s[k..]) == r + f(s[k + |p|..])
    ensures f(s[j..]) == s[j..k] + r + f(s[k + |p|..])
    decreases k - j
  {
    if j < k {
      ScanCopies(f, s, p, r, j + 1, k);
      assert f(s[j..]) == [s[j]] + f(s[j + 1..]);
      assert s[j..k] == [s[j]] + s[j + 1..k];
    }
  }

  /** Text before the first occurrence is copied unchanged, that occurrence
      becomes `r`, and the scan resumes after it. Together with the identity
      on text without the pattern, this fixes `Replace` completely. */
  lemma ReplaceUpTo(s: string, p: string, r: string, k: nat)
    requires |p| > 0 && OccursAt(s, p, k)
    requires forall i :: 0 <= i < k ==> !OccursAt(s, p, i)
    ensures Replace(s, p, r) == s[..k] + r + Replace(s[k + |p|..], p, r)
  {
    var f := x => Replace(x, p, r);
    forall i | 0 <= i < k
      ensures f(s[i..]) == [s[i]] + f(s[i + 1..])
    {
      assert !OccursAt(s, p, i);
      assert s[i..][0..|p|] == s[i..i + |p|];
      ReplaceSkip(s[i..], p, r);
      assert s[i..][1..] == s[i + 1..];
    }
    assert s[k..][..|p|] == p && s[k..][|p|..] == s[k + |p|..];
    ReplaceAt(s[k..], p, r);
    ScanCopies(f, s, p, r, 0, k);
    assert s[0..] == s;
  }

  /** The same, for text written as the part before the first occurrence,
      the occurrence and the rest. */
  lemma ReplaceKeeps(x: string, p: string, r: string, y: string)
    requires |p| > 0
    requires forall i :: 0 <= i < |x| ==> !OccursAt(x + p + y, p, i)
    ensures Replace(x + p + y, p, r) == x + r + Replace(y, p, r)
  {
    var s := x + p + y;
    assert s[|x|..|x| + |p|] == p && s[..|x|] == x && s[|x| + |p|..] == y;
    ReplaceUpTo(s, p, r, |x|);
  }

  lemma ReplaceStartsWithReplacement(s: string, p: string, r: string)
    requires |p| > 0
    ensures |s| >= |p| && |r| > 0 && s[..|p|] == p ==> Replace(s, p, r)[0] == r[0]
  {
  }

  /** While the output of `Replace` shows no first character of `r`, it is a
      copy of the input. */
  lemma {:induction false} ReplacePrefix(s: string, p: string, r: string, k: nat)
    requires |p| > 0 && |r| > 0
    requires k <= |Replace(s, p, r)|
    requires forall i :: 0 <= i < k ==> Replace(s, p, r)[i] != r[0]
    ensures k <= |s| && Replace(s, p, r)[..k] == s[..k]
    decreases |s|
  {
    var t := Replace(s, p, r);
    if k == 0 || |s| < |p| {
    } else if s[..|p|] == p {
      ReplaceStartsWithReplacement(s, p, r);
      assert false;
    } else {
      var rest := Replace(s[1..], p, r);
      assert t == [s[0]] + rest;
      assert forall i :: 0 <= i < k - 1 ==> rest[i] == t[i + 1];
      ReplacePrefix(s[1..], p, r, k - 1);
      assert t[..k] == [s[0]] + rest[..k - 1];
    }
  }

  /** Conditions on a pattern `p` and its replacement `r` under which no
      occurrence of `p` can survive a replacement, not even one straddling a
      seam: `r` is at least as long as `p` without starting with it, the first
      character of `r` appears in `p` only at its start, and the first
      character of `p` appears in `r` only at its start. */
  predicate SelfClearing(p: string, r: string) {
    && |p| > 0
    && |r| >= |p|
    && r[..|p|] != p
    && (forall i :: 1 <= i < |p| ==> p[i] != r[0])
    && (forall i :: 1 <= i < |r| ==> r[i] != p[0])
  }

  /** An occurrence in `r + rest` lies inside `rest` when the pattern
      cannot start within `r`. */
  lemma NoOccurrenceAfterReplacement(p: string, r: string, rest: string)
    requires SelfClearing(p, r)
    requires !Contains(rest, p)
    ensures !Contains(r + rest, p)
  {
    var t := r + rest;
    forall j
      ensures !OccursAt(t, p, j)
    {
      if 0 <= j && j + |p| <= |t| {
        if j == 0 {
          assert t[..|p|] == r[..|p|];
        } else if j < |r| {
          assert t[j..j + |p|][0] == r[j];
        } else {
          assert rest[j - |r|..j - |r| + |p|] == t[j..j + |p|];
          assert !OccursAt(rest, p, j - |r|);
        }
      }
    }
  }

  /** An occurrence in `[c] + Replace(s[1..], p, r)` would have to start at
      `c` and, its tail holding no first character of `r`, reveal `p` as a
      prefix of `s`. */
  lemma NoOccurrenceAfterCopy(s: string, p: string, r: string)
    requires SelfClearing(p, r)
    requires |s| >= |p| && s[..|p|] != p
    requires !Contains(Replace(s[1..], p, r), p)
    ensures !Contains([s[0]] + Replace(s[1..], p, r), p)
  {
    var rest := Replace(s[1..], p, r);
    var t := [s[0]] + rest;
    forall j
      ensures !OccursAt(t, p, j)
    {
      if 0 <= j && j + |p| <= |t| {
        if j == 0 {
          if exists i :: 0 <= i < |p| - 1 && rest[i] == r[0] {
            var i :| 0 <= i < |p| - 1 && rest[i] == r[0];
            assert t[..|p|][i + 1] == r[0];
          } else {
            ReplacePrefix(s[1..], p, r, |p| - 1);
            assert t[..|p|] == [s[0]] + rest[..|p| - 1];
            assert s[..|p|] == [s[0]] + s[1..][..|p| - 1];
          }
        } else {
          assert rest[j - 1..j - 1 + |p|] == t[j..j + |p|];
          assert !OccursAt(rest, p, j - 1);
        }
      }
    }
  }

  /** After `Replace`, the pattern no longer occurs. */
  lemma {:induction false} ReplaceLeavesNoOccurrence(s: string, p: string, r: string)
    requires SelfClearing(p, r)
    ensures !Contains(Replace(s, p, r), p)
    decreases |s|
  {
    if |s| < |p| {
    } else if s[..|p|] == p {
      ReplaceLeavesNoOccurrence(s[|p|..], p, r);
      NoOccurrenceAfterReplacement(p, r, Replace(s[|p|..], p, r));
    } else {
      ReplaceLeavesNoOccurrence(s[1..], p, r);
      NoOccurrenceAfterCopy(s, p, r);
    }
  }

  lemma NoOccurrenceWithoutFirstChar(s: string, p: string)
    requires |p| > 0 && p[0] !in s
    ensures !Contains(s, p)
  {
  }

  // ---------------------------------------------------------------------------
  // Decimal integers

  function DigitChar(d: nat): (c: char)
    requires d < 10
    ensures IsDigit(c)
  {
    ('0' as int + d) as char
  }

  function DigitValue(c: char): (d: nat)
    requires IsDigit(c)
    ensures d < 10
  {
    c as int - '0' as int
  }

  /** `str(n)` for a non-negative integer. */
  function Decimal(n: nat): (s: string)
    ensures |s| >= 1 && AllDigits(s)
    decreases n
  {
    if n < 10 then [DigitChar(n)] else Decimal(n / 10) + [DigitChar(n % 10)]
  }

  /** The number a string of decimal digits denotes. */
  function DecimalValue(s: string): nat
    requires AllDigits(s)
    decreases |s|
  {
    if |s| == 0 then 0 else 10 * DecimalValue(s[..|s| - 1]) + DigitValue(s[|s| - 1])
  }

  lemma {:induction false} DecimalRoundTrip(n: nat)
    ensures DecimalValue(Decimal(n)) == n
    decreases n
  {
    if n >= 10 {
      var s := Decimal(n);
      assert s[..|s| - 1] == Decimal(n / 10);
      DecimalRoundTrip(n / 10);
    }
  }

  /** Distinct numbers print differently. */
  lemma DecimalInjective(m: nat, n: nat)
    requires Decimal(m) == Decimal(n)
    ensures m == n
  {
    DecimalRoundTrip(m);
    DecimalRoundTrip(n);
  }

  /** `str(n)` for any integer: a minus sign for a negative number, then
      the decimal digits of its magnitude. */
  function FormatInt(n: int): (s: string)
    ensures n >= 0 ==> AllDigits(s) && |s| >= 1 && DecimalValue(s) == n
    ensures n < 0 ==> |s| >= 2 && s[0] == '-' && AllDigits(s[1..]) && DecimalValue(s[1..]) == -n
  {
    if n < 0 then
      DecimalRoundTrip(-n);
      assert ("-" + Decimal(-n))[1..] == Decimal(-n);
      "-" + Decimal(-n)
    else
      DecimalRoundTrip(n);
      Decimal(n)
  }

  /** `int(s)` on a decimal literal: surrounding white space, an optional
      sign, then one or more ASCII digits; anything else is a `ValueError`,
      here `None`. */
  function ParseInt(s: string): (r: Option<int>)
    ensures r.Some? ==> |Strip(s)| >= 1
  {
    var t := Strip(s);
    if |t| >= 2 && (t[0] == '-' || t[0] == '+') && AllDigits(t[1..]) then
      var v: int := DecimalValue(t[1..]);
      Some(if t[0] == '-' then -v else v)
    else if |t| >= 1 && AllDigits(t) then
      Some(DecimalValue(t))
    else
      None
  }

  lemma ParseFormatInt(n: int)
    ensures ParseInt(FormatInt(n)) == Some(n)
  {
    var s := FormatInt(n);
    if n < 0 {
      DecimalRoundTrip(-n);
      assert s[1..] == Decimal(-n);
    } else {
      DecimalRoundTrip(n);
    }
    StripUnchanged(s);
  }

  // ---------------------------------------------------------------------------
  // Hexadecimal integers

  predicate IsHexDigit(c: char) {
    IsDigit(c) || ('a' <= c <= 'f')
  }

  predicate AllHexDigits(s: string) {
    forall i :: 0 <= i < |s| ==> IsHexDigit(s[i])
  }

  function HexDigit(d: nat): (c: char)
    requires d < 16
    ensures IsHexDigit(c)
  {
    if d < 10 then ('0' as int + d) as char else ('a' as int + d - 10) as char
  }

  function HexDigitValue(c: char): (d: nat)
    requires IsHexDigit(c)
    ensures d < 16
    ensures HexDigit(d) == c
  {
    if IsDigit(c) then c as int - '0' as int else c as int - 'a' as int + 10
  }

  /** Lowercase hexadecimal digits of `n` without padding: no leading
      zero except for zero itself. */
  function Hex(n: nat): (s: string)
    ensures |s| >= 1 && AllHexDigits(s)
    ensures n >= 1 <==> s[0] != '0'
    decreases n
  {
    if n < 16 then [HexDigit(n)] else Hex(n / 16) + [HexDigit(n % 16)]
  }

  /** The number a string of hexadecimal digits denotes. */
  function HexValue(s: string): nat
    requires AllHexDigits(s)
    decreases |s|
  {
    if |s| == 0 then 0 else 16 * HexValue(s[..|s| - 1]) + HexDigitValue(s[|s| - 1])
  }

  function Pow16(k: nat): (r: nat)
    ensures r >= 1
  {
    if k == 0 then 1 else 16 * Pow16(k - 1)
  }

  lemma {:induction false} HexRoundTrip(n: nat)
    ensures HexValue(Hex(n)) == n
    decreases n
  {
    if n >= 16 {
      var s := Hex(n);
      assert s[..|s| - 1] == Hex(n / 16);
      HexRoundTrip(n / 16);
      assert HexDigitValue(HexDigit(n % 16)) == n % 16;
    } else {
      assert HexDigitValue(HexDigit(n)) == n;
    }
  }

  lemma {:induction false} HexLength(n: nat, k: nat)
    requires k >= 1 && n < Pow16(k)
    ensures |Hex(n)| <= k
    decreases n
  {
    if n >= 16 {
      assert k >= 2;
      assert n / 16 < Pow16(k - 1);
      HexLength(n / 16, k - 1);
    }
  }

  function Zeros(k: nat): (s: string)
    ensures |s| == k && AllHexDigits(s)
    ensures forall i :: 0 <= i < k ==> s[i] == '0'
  {
    seq(k, i => '0')
  }

  lemma {:induction false} HexValueZeros(k: nat, h: string)
    requires AllHexDigits(h)
    ensures HexValue(Zeros(k) + h) == HexValue(h)
    decreases |h|, k
  {
    var s := Zeros(k) + h;
    if |h| == 0 {
      if k > 0 {
        assert s[..|s| - 1] == Zeros(k - 1);
        HexValueZeros(k - 1, h);
        assert Zeros(k - 1) + h == Zeros(k - 1);
      }
    } else {
      assert s[..|s| - 1] == Zeros(k) + h[..|h| - 1];
      HexValueZeros(k, h[..|h| - 1]);
    }
  }

  /** `format(n, "04x")`: lowercase hexadecimal digits of `n`, zero-padded
      on the left to at least four characters. */
  function Hex4(n: nat): (s: string)
    ensures |s| >= 4 && AllHexDigits(s)
    ensures HexValue(s) == n
    ensures n < 0x1_0000 ==> |s| == 4
    ensures |s| > 4 ==> s[0] != '0'
  {
    var h := Hex(n);
    HexRoundTrip(n);
    assert n < 0x1_0000 ==> |h| <= 4 by {
      if n < 0x1_0000 {
        assert Pow16(4) == 0x1_0000;
        HexLength(n, 4);
      }
    }
    if |h| >= 4 then h
    else
      HexValueZeros(4 - |h|, h);
      Zeros(4 - |h|) + h
  }
}

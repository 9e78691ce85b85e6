/**
 * The Python string operations the exploration agent relies on, written out
 * over `seq<char>`: substring search (`str.find`, `in`), `str.split`,
 * single-character `str.replace`, `str.strip()`, `int(...)` on strings,
 * `str(...)` on integers and the slice `s[1:-1]`.
 */
module Text {

  datatype Option<T> = None | Some(value: T) {
    predicate IsFailure() { None? }
    function PropagateFailure<U>(): Option<U> requires None? { None }
    function Extract(): T requires Some? { value }
  }

  /** No character of `s` occurs in `pat`, so `pat` cannot begin inside `s`. */
  predicate Avoids(s: string, pat: string)
  {
    forall k :: 0 <= k < |s| ==> s[k] !in pat
  }

  /** `pat` occurs in `s` starting at index `i`. */
  predicate OccursAt(s: string, pat: string, i: nat)
  {
    i + |pat| <= |s| && s[i..i + |pat|] == pat
  }

  /** The first index at or after `i` where `pat` occurs in `s`. */
  function FindFrom(s: string, pat: string, i: nat): (r: Option<nat>)
    requires i <= |s|
    ensures r.Some? ==> i <= r.value <= |s| && OccursAt(s, pat, r.value)
    ensures r.Some? ==> forall j :: i <= j < r.value ==> !OccursAt(s, pat, j)
    ensures r.None? ==> forall j :: i <= j <= |s| ==> !OccursAt(s, pat, j)
    decreases |s| - i
  {
    if OccursAt(s, pat, i) then Some(i)
    else if i == |s| then None
    else FindFrom(s, pat, i + 1)
  }

  /** Python's `s.find(pat)`: the first occurrence, or `None` for `-1`. */
  function Find(s: string, pat: string): (r: Option<nat>)
    ensures r.Some? ==> r.value <= |s| && OccursAt(s, pat, r.value)
    ensures r.Some? ==> forall j :: 0 <= j < r.value ==> !OccursAt(s, pat, j)
    ensures r.None? ==> forall j :: 0 <= j <= |s| ==> !OccursAt(s, pat, j)
  {
    FindFrom(s, pat, 0)
  }

  /** Python's `pat in s`. */
  predicate Contains(s: string, pat: string)
  {
    Find(s, pat).Some?
  }

  /** An occurrence inside a prefix is an occurrence in the whole string. */
  lemma OccursInPrefix(s: string, n: nat, pat: string, j: nat)
    requires n <= |s| && OccursAt(s[..n], pat, j)
    ensures OccursAt(s, pat, j)
  {
    assert s[..n][j..j + |pat|] == s[j..j + |pat|];
  }

  /** An occurrence inside a suffix is an occurrence in the whole string. */
  lemma OccursInSuffix(s: string, n: nat, pat: string, j: nat)
    requires n <= |s| && OccursAt(s[n..], pat, j)
    ensures OccursAt(s, pat, n + j)
  {
    assert s[n..][j..j + |pat|] == s[n + j..n + j + |pat|];
  }

  /** Joins `parts` with `sep` between consecutive parts (Python's `sep.join`). */
  function Join(parts: seq<string>, sep: string): string
  {
    if |parts| == 0 then ""
    else if |parts| == 1 then parts[0]
    else parts[0] + sep + Join(parts[1..], sep)
  }

  /**
   * Python's `s.split(sep)`: cut at every occurrence of `sep`, scanning left
   * to right. Joining the parts back gives `s` (`SplitJoin`) and no part
   * contains `sep` (`SplitPartsFree`).
   */
  function Split(s: string, sep: string): (parts: seq<string>)
    requires sep != ""
    ensures |parts| >= 1
    decreases |s|
  {
    match Find(s, sep)
    case None => [s]
    case Some(i) => [s[..i]] + Split(s[i + |sep|..], sep)
  }

  /** `sep.join(s.split(sep)) == s`. */
  lemma {:induction false} SplitJoin(s: string, sep: string)
    requires sep != ""
    ensures Join(Split(s, sep), sep) == s
    decreases |s|
  {
    var f := Find(s, sep);
    if f.Some? {
      var i := f.value;
      var rest := s[i + |sep|..];
      SplitJoin(rest, sep);
      JoinCons(s[..i], Split(rest, sep), sep);
      assert s == s[..i] + sep + rest;
    }
  }

  lemma JoinCons(a: string, rest: seq<string>, sep: string)
    requires |rest| >= 1
    ensures Join([a] + rest, sep) == a + sep + Join(rest, sep)
  {
    assert ([a] + rest)[1..] == rest;
  }

  /** No part of `s.split(sep)` contains `sep`. */
  lemma {:induction false} SplitPartsFree(s: string, sep: string)
    requires sep != ""
    ensures forall k :: 0 <= k < |Split(s, sep)| ==> !Contains(Split(s, sep)[k], sep)
    decreases |s|
  {
    var f := Find(s, sep);
    if f.Some? {
      var i := f.value;
      var head := s[..i];
      SplitPartsFree(s[i + |sep|..], sep);
      forall j | 0 <= j <= |head| ensures !OccursAt(head, sep, j) {
        if OccursAt(head, sep, j) { OccursInPrefix(s, i, sep, j); }
      }
      assert Split(s, sep) == [head] + Split(s[i + |sep|..], sep);
    }
  }

  /**
   * Python's `s.replace(c, rep)` for a one-character pattern `c`: every
   * occurrence of `c` is replaced by `rep`.
   */
  function ReplaceChar(s: string, c: char, rep: string): (r: string)
    ensures |rep| == 1 ==> |r| == |s|
  {
    if s == "" then ""
    else (if s[0] == c then rep else [s[0]]) + ReplaceChar(s[1..], c, rep)
  }

  /** A replacement without `c` leaves no `c` behind. */
  lemma {:induction false} ReplaceCharRemoves(s: string, c: char, rep: string)
    requires c !in rep
    ensures c !in ReplaceChar(s, c, rep)
  {
    if s != "" { ReplaceCharRemoves(s[1..], c, rep); }
  }

  /** A string without `c` is left unchanged. */
  lemma {:induction false} ReplaceCharUnchanged(s: string, c: char, rep: string)
    requires c !in s
    ensures ReplaceChar(s, c, rep) == s
  {
    if s != "" {
      assert c !in s[1..];
      ReplaceCharUnchanged(s[1..], c, rep);
    }
  }

  /** Replacing distributes over concatenation. */
  lemma {:induction false} ReplaceCharAppend(a: string, b: string, c: char, rep: string)
    ensures ReplaceChar(a + b, c, rep) == ReplaceChar(a, c, rep) + ReplaceChar(b, c, rep)
  {
    if a == "" {
      assert a + b == b;
    } else {
      var head := if a[0] == c then rep else [a[0]];
      assert (a + b)[0] == a[0];
      assert (a + b)[1..] == a[1..] + b;
      assert ReplaceChar(a + b, c, rep) == head + ReplaceChar(a[1..] + b, c, rep);
      ReplaceCharAppend(a[1..], b, c, rep);
      assert ReplaceChar(a, c, rep) == head + ReplaceChar(a[1..], c, rep);
    }
  }

  /** A character in neither `s` nor `rep` is not in the result either. */
  lemma {:induction false} ReplaceCharKeepsOut(s: string, c: char, rep: string, d: char)
    requires d !in s && d !in rep
    ensures d !in ReplaceChar(s, c, rep)
  {
    if s != "" {
      assert d !in s[1..];
      ReplaceCharKeepsOut(s[1..], c, rep, d);
    }
  }

  /** With a one-character replacement, position `k` of the result is position `k` of `s`, replaced. */
  lemma {:induction false} ReplaceCharPointwise(s: string, c: char, rep: string)
    requires |rep| == 1
    ensures var r := ReplaceChar(s, c, rep);
      |r| == |s| && forall k :: 0 <= k < |s| ==> r[k] == (if s[k] == c then rep[0] else s[k])
  {
    if s != "" {
      ReplaceCharPointwise(s[1..], c, rep);
    }
  }

  /** Number of occurrences of the character `c` in `s`. */
  function CountChar(s: string, c: char): nat
  {
    if s == "" then 0 else (if s[0] == c then 1 else 0) + CountChar(s[1..], c)
  }

  /** Length of `s.replace(c, "")`: one character fewer per occurrence. */
  lemma {:induction false} ReplaceCharDeleteLength(s: string, c: char)
    ensures |ReplaceChar(s, c, "")| == |s| - CountChar(s, c)
  {
    if s != "" { ReplaceCharDeleteLength(s[1..], c); }
  }

  /** Length of `s.replace(c, rep)` for a two-character replacement. */
  lemma {:induction false} ReplaceCharWidenLength(s: string, c: char, rep: string)
    requires |rep| == 2
    ensures |ReplaceChar(s, c, rep)| == |s| + CountChar(s, c)
  {
    if s != "" { ReplaceCharWidenLength(s[1..], c, rep); }
  }

  /** Python's `str.isspace()` on one character. */
  predicate IsSpace(ch: char)
  {
    var k := ch as int;
    k == 0x20 || (0x09 <= k <= 0x0D) || (0x1C <= k <= 0x1F) || k == 0x85 || k == 0xA0 ||
    k == 0x1680 || (0x2000 <= k <= 0x200A) || k == 0x2028 || k == 0x2029 ||
    k == 0x202F || k == 0x205F || k == 0x3000
  }

  /**
   * Which whitespace a strip removes. `str.strip()` removes every character
   * for which `str.isspace()` holds. `int()` skips less: CPython turns
   * whitespace above U+007F into a space but passes the characters below it
   * through unchanged, and then skips only ` \t\n\v\f\r`, so U+001C to
   * U+001F are not skipped.
   */
  datatype Blanks = StrBlanks | IntBlanks

  predicate IsBlank(b: Blanks, ch: char)
  {
    IsSpace(ch) && (b == IntBlanks ==> !(0x1C <= ch as int <= 0x1F))
  }

  /** `s.lstrip()`: a suffix of `s` (`StripLeftSpaces` says which). */
  function StripLeft(s: string, b: Blanks): (r: string)
    ensures |r| <= |s| && r == s[|s| - |r|..]
  {
    if s != "" && IsBlank(b, s[0]) then StripLeft(s[1..], b) else s
  }

  /** `lstrip` removes only whitespace, and all of the leading whitespace. */
  lemma {:induction false} StripLeftSpaces(s: string, b: Blanks)
    ensures var r := StripLeft(s, b);
      (forall k :: 0 <= k < |s| - |r| ==> IsBlank(b, s[k])) && (r != "" ==> !IsBlank(b, r[0]))
  {
    if s != "" && IsBlank(b, s[0]) {
      var t := s[1..];
      StripLeftSpaces(t, b);
      var r := StripLeft(t, b);
      assert StripLeft(s, b) == r;
      forall k | 0 <= k < |s| - |r| ensures IsBlank(b, s[k]) {
        if k > 0 { assert s[k] == t[k - 1]; }
      }
    }
  }

  /** `s.rstrip()`: a prefix of `s` (`StripRightSpaces` says which). */
  function StripRight(s: string, b: Blanks): (r: string)
    ensures |r| <= |s| && r == s[..|r|]
  {
    if s != "" && IsBlank(b, s[|s| - 1]) then StripRight(s[..|s| - 1], b) else s
  }

  /** `rstrip` removes only whitespace, and all of the trailing whitespace. */
  lemma {:induction false} StripRightSpaces(s: string, b: Blanks)
    ensures var r := StripRight(s, b);
      (forall k :: |r| <= k < |s| ==> IsBlank(b, s[k])) && (r != "" ==> !IsBlank(b, r[|r| - 1]))
  {
    if s != "" && IsBlank(b, s[|s| - 1]) {
      var t := s[..|s| - 1];
      StripRightSpaces(t, b);
      var r := StripRight(t, b);
      assert StripRight(s, b) == r;
      forall k | |r| <= k < |s| ensures IsBlank(b, s[k]) {
        if k < |s| - 1 { assert s[k] == t[k]; }
      }
    }
  }

  /** `s.strip()` (with `StrBlanks`): `lstrip` then `rstrip`. */
  function Strip(s: string, b: Blanks): (r: string)
    ensures |r| <= |s|
  {
    StripRight(StripLeft(s, b), b)
  }

  /**
   * `strip` removes the whitespace at both ends and nothing else: the result
   * does not start or end with whitespace, an unpadded string is kept, and a
   * string of whitespace becomes empty.
   */
  lemma StripSpec(s: string, b: Blanks)
    ensures var r := Strip(s, b);
      (r != "" ==> !IsBlank(b, r[0]) && !IsBlank(b, r[|r| - 1])) &&
      ((s == "" || (!IsBlank(b, s[0]) && !IsBlank(b, s[|s| - 1]))) ==> r == s) &&
      ((forall k :: 0 <= k < |s| ==> IsBlank(b, s[k])) ==> r == "")
  {
    var l := StripLeft(s, b);
    StripLeftSpaces(s, b);
    StripRightSpaces(l, b);
    var r := StripRight(l, b);
    if r != "" {
      assert r[0] == l[0];
    }
    assert l != "" ==> l[0] == s[|s| - |l|];
  }

  /** Blanks in front of a string with no blank at either end are all that a strip removes. */
  lemma {:induction false} StripPadded(pad: string, s: string, b: Blanks)
    requires forall k :: 0 <= k < |pad| ==> IsBlank(b, pad[k])
    requires s != "" && !IsBlank(b, s[0]) && !IsBlank(b, s[|s| - 1])
    ensures Strip(pad + s, b) == s
  {
    if pad == "" {
      assert pad + s == s;
      assert StripLeft(s, b) == s;
    } else {
      assert (pad + s)[1..] == pad[1..] + s;
      StripPadded(pad[1..], s, b);
    }
  }

  /** Python's slice `s[1:-1]`: drop the first and the last character. */
  function Inner(s: string): (r: string)
    ensures |s| >= 2 ==> |r| == |s| - 2 && s == [s[0]] + r + [s[|s| - 1]]
    ensures |s| < 2 ==> r == ""
  {
    if |s| >= 2 then s[1..|s| - 1] else ""
  }

  /** Dropping the first and last characters undoes wrapping in them. */
  lemma InnerOfWrapped(open: char, a: string, close: char)
    ensures Inner([open] + a + [close]) == a
  {
    var s := [open] + a + [close];
    assert s[1..|s| - 1] == a;
  }

  predicate IsDigit(ch: char)
  {
    '0' <= ch <= '9'
  }

  predicate AllDigits(s: string)
  {
    forall k :: 0 <= k < |s| ==> IsDigit(s[k])
  }

  function DigitValue(ch: char): (d: nat)
    requires IsDigit(ch)
    ensures d < 10
  {
    ch as int - '0' as int
  }

  function DigitChar(d: nat): (ch: char)
    requires d < 10
    ensures IsDigit(ch) && DigitValue(ch) == d
  {
    ('0' as int + d) as char
  }

  /** The value of a string of decimal digits, most significant first. */
  function DigitsValue(ds: string): nat
    requires AllDigits(ds)
  {
    if ds == "" then 0 else DigitsValue(ds[..|ds| - 1]) * 10 + DigitValue(ds[|ds| - 1])
  }

  /**
   * Python's `int(s)` on a string: surrounding whitespace (`IntBlanks`) is
   * ignored, then an optional sign and at least one decimal digit; anything
   * else raises `ValueError`, modelled as `None`.
   */
  function ParseInt(s: string): Option<int>
  {
    var t := Strip(s, IntBlanks);
    if t != "" && (t[0] == '-' || t[0] == '+') then
      var ds := t[1..];
      if ds != "" && AllDigits(ds) then
        var m: int := DigitsValue(ds);
        var v: int := if t[0] == '-' then -m else m;
        Some(v)
      else None
    else if t != "" && AllDigits(t) then Some(DigitsValue(t))
    else None
  }

  /** The decimal representation of `n` without leading zeros. */
  function NatToString(n: nat): (r: string)
    ensures r != "" && AllDigits(r)
    ensures DigitsValue(r) == n
    ensures r[0] == '0' <==> n == 0
  {
    if n < 10 then [DigitChar(n)]
    else
      var r := NatToString(n / 10) + [DigitChar(n % 10)];
      assert r[..|r| - 1] == NatToString(n / 10);
      r
  }

  /** Python's `str(n)` on an integer. */
  function IntToString(n: int): (r: string)
    ensures r != ""
    ensures n >= 0 ==> AllDigits(r)
    ensures n < 0 ==> r[0] == '-' && AllDigits(r[1..])
  {
    if n < 0 then "-" + NatToString(-n) else NatToString(n)
  }

  /** `int(str(n)) == n`: the decimal form parses back to the same integer. */
  lemma ParseIntOfIntToString(n: int)
    ensures ParseInt(IntToString(n)) == Some(n)
  {
    if n < 0 {
      ParseIntNegative(NatToString(-n));
    } else {
      ParseIntDigits(NatToString(n));
    }
  }

  /** `int` reads a string of digits as its decimal value. */
  lemma ParseIntDigits(ds: string)
    requires ds != "" && AllDigits(ds)
    ensures ParseInt(ds) == Some(DigitsValue(ds))
  {
    assert !IsBlank(IntBlanks, ds[0]);
    assert StripLeft(ds, IntBlanks) == ds;
    assert !IsBlank(IntBlanks, ds[|ds| - 1]);
    assert StripRight(ds, IntBlanks) == ds;
  }

  /** `int` reads `-` and a string of digits as the negated value. */
  lemma ParseIntNegative(ds: string)
    requires ds != "" && AllDigits(ds)
    ensures ParseInt("-" + ds) == Some(-(DigitsValue(ds) as int))
  {
    var r := "-" + ds;
    assert r[1..] == ds && r[|r| - 1] == ds[|ds| - 1];
    assert !IsBlank(IntBlanks, r[0]);
    assert StripLeft(r, IntBlanks) == r;
    assert !IsBlank(IntBlanks, r[|r| - 1]);
    assert StripRight(r, IntBlanks) == r;
  }

  /** `str(n)` starts with `-` or a digit and ends with a digit. */
  lemma IntToStringEnds(n: int)
    ensures var r := IntToString(n); (r[0] == '-' || IsDigit(r[0])) && IsDigit(r[|r| - 1])
  {
    if n < 0 {
      var ds := NatToString(-n);
      var r := "-" + ds;
      assert r[|r| - 1] == ds[|ds| - 1];
    }
  }

  /** A string of digits has no whitespace at its ends. */
  lemma StripUnpadded(s: string, b: Blanks)
    requires s != "" && (s[0] == '-' || IsDigit(s[0])) && IsDigit(s[|s| - 1])
    ensures Strip(s, b) == s
  {
    assert !IsBlank(b, s[0]);
    assert StripLeft(s, b) == s;
    assert !IsBlank(b, s[|s| - 1]);
  }

  /** A string without the character `c` avoids the pattern `[c]`. */
  lemma AvoidsChar(s: string, c: char)
    requires c !in s
    ensures Avoids(s, [c])
  {
    forall k | 0 <= k < |s| ensures s[k] !in [c] { assert s[k] in s; }
  }

  /** `s.split(sep)` undoes `sep.join(parts)` when no part holds a character of `sep`. */
  lemma {:induction false} SplitOfJoin(parts: seq<string>, sep: string)
    requires sep != "" && |parts| >= 1
    requires forall k :: 0 <= k < |parts| ==> Avoids(parts[k], sep)
    ensures Split(Join(parts, sep), sep) == parts
    decreases |parts|
  {
    if |parts| == 1 {
      SplitAvoiding(parts[0], sep);
    } else {
      var rest := parts[1..];
      assert forall k :: 0 <= k < |rest| ==> rest[k] == parts[k + 1];
      SplitOfJoin(rest, sep);
      SplitAfterAvoiding(parts[0], sep, Join(rest, sep));
      assert parts == [parts[0]] + rest;
    }
  }

  /** A string avoiding a non-empty `sep` is one part: `s.split(sep) == [s]`. */
  lemma SplitAvoiding(s: string, sep: string)
    requires sep != "" && Avoids(s, sep)
    ensures Split(s, sep) == [s]
  {
    forall j | 0 <= j <= |s| ensures !OccursAt(s, sep, j) {
      if j < |s| { assert s[j] !in sep && sep[0] in sep; }
    }
  }

  /**
   * Splitting `a + sep + b`, where the first character of `sep` does not
   * occur in `a`, cuts exactly after `a`.
   */
  lemma SplitAfterFree(a: string, sep: string, b: string)
    requires sep != "" && sep[0] !in a
    ensures Split(a + sep + b, sep) == [a] + Split(b, sep)
  {
    var s := a + sep + b;
    FindAfterFree(a, sep, b);
    assert s[..|a|] == a;
    assert s[|a| + |sep|..] == b;
  }

  /**
   * The first occurrence of `sep` in `a + sep + b` is right after `a` when
   * the first character of `sep` does not occur in `a`.
   */
  lemma FindAfterFree(a: string, sep: string, b: string)
    requires sep != "" && sep[0] !in a
    ensures Find(a + sep + b, sep) == Some(|a|)
  {
    var s := a + sep + b;
    assert OccursAt(s, sep, |a|) by { assert s[|a|..|a| + |sep|] == sep; }
    forall j | 0 <= j < |a| ensures !OccursAt(s, sep, j) {
      assert s[j] == a[j];
      assert s[j..j + |sep|][0] == s[j];
    }
  }

  /**
   * The first occurrence of `sep` in `a + sep + b` is right after `a` when
   * every position of `a` that starts like `sep` differs from it at the next
   * character.
   */
  lemma FindAfterTwoChars(a: string, sep: string, b: string)
    requires |sep| >= 2
    requires forall j | 0 <= j < |a| :: a[j] != sep[0] || (j + 1 < |a| && a[j + 1] != sep[1])
    ensures Find(a + sep + b, sep) == Some(|a|)
  {
    var s := a + sep + b;
    assert OccursAt(s, sep, |a|) by { assert s[|a|..|a| + |sep|] == sep; }
    forall j | 0 <= j < |a| ensures !OccursAt(s, sep, j) {
      assert s[j] == a[j];
      assert s[j..j + |sep|][0] == s[j];
      if a[j] == sep[0] {
        assert s[j + 1] == a[j + 1];
        assert s[j..j + |sep|][1] == s[j + 1];
      }
    }
  }

  /** No occurrence of the one-character pattern `[c]` means `c` is not in `s`. */
  lemma FindCharNone(s: string, c: char)
    requires Find(s, [c]).None?
    ensures c !in s
  {
    forall k | 0 <= k < |s| ensures s[k] != c {
      assert !OccursAt(s, [c], k);
      assert s[k..k + 1] == [s[k]];
    }
  }

  /** The first occurrence of `[c]` is at a `c` with no `c` before it. */
  lemma FindCharSome(s: string, c: char)
    requires Find(s, [c]).Some?
    ensures var j := Find(s, [c]).value; j < |s| && s[j] == c && c !in s[..j]
  {
    var j := Find(s, [c]).value;
    assert s[j..j + 1] == [c];
    forall k | 0 <= k < j ensures s[..j][k] != c {
      assert !OccursAt(s, [c], k);
      assert s[k..k + 1] == [s[k]];
    }
  }

  /** A string without the first character of `pat` does not contain `pat`. */
  lemma NotContainsFree(s: string, pat: string)
    requires pat != "" && pat[0] !in s
    ensures !Contains(s, pat)
  {
    forall j | 0 <= j <= |s| ensures !OccursAt(s, pat, j) {
      if j < |s| && j + |pat| <= |s| { assert s[j..j + |pat|][0] == s[j]; }
    }
  }

  /** A string that begins with `pat` has its first occurrence at index 0. */
  lemma FindAtStart(s: string, pat: string)
    requires pat <= s
    ensures Find(s, pat) == Some(0)
  {
    assert s[0..|pat|] == pat;
  }

  /** Splitting `a + sep + b` where `a` avoids `sep` cuts exactly after `a`. */
  lemma SplitAfterAvoiding(a: string, sep: string, b: string)
    requires sep != "" && Avoids(a, sep)
    ensures Split(a + sep + b, sep) == [a] + Split(b, sep)
  {
    assert sep[0] in sep;
    SplitAfterFree(a, sep, b);
  }

  /** `str(n)` consists of digits and possibly `-`, so it avoids any separator made of other characters. */
  lemma IntToStringAvoids(n: int, sep: string)
    requires forall k :: 0 <= k < |sep| ==> !IsDigit(sep[k]) && sep[k] != '-'
    ensures Avoids(IntToString(n), sep)
  {
    var r := IntToString(n);
    if n < 0 {
      forall k | 0 <= k < |r| ensures r[k] !in sep {
        if k > 0 { assert r[1..][k - 1] == r[k]; }
      }
    }
  }

  /** The number of `0` characters `u` starts with. */
  function LeadingZeros(u: string): (k: nat)
    ensures k <= |u| && (k < |u| ==> u[k] != '0')
    ensures forall i :: 0 <= i < k ==> u[i] == '0'
  {
    if u != "" && u[0] == '0' then 1 + LeadingZeros(u[1..]) else 0
  }

  predicate IsOctDigit(ch: char)
  {
    '0' <= ch <= '7'
  }

  /**
   * Whether `re.sub(pattern, repl, s)` accepts the string `repl` as its
   * replacement template, for a `pattern` without groups (Python 3.12 rules).
   * Python reads the whole template before it searches, so a rejected
   * template raises `re.error` (or `IndexError`) even where the pattern does
   * not occur. After a backslash:
   *   - `\g<0>`, with one or more zeros, names the whole match; any other
   *     `\g` reference names a group that does not exist or is malformed;
   *   - `\0` starts an octal escape;
   *   - a digit from 1 to 9 is a group reference, which does not exist,
   *     unless it and the next two characters are octal digits of a value
   *     up to 0o377;
   *   - an ASCII letter other than `a`, `b`, `f`, `n`, `r`, `t` and `v` is a bad escape;
   *   - any other character, a backslash included, stands for itself;
   * and a backslash at the very end is a bad escape.
   */
  predicate ReplacementOk(t: string)
    decreases |t|
  {
    if t == "" then true
    else if t[0] != '\\' then ReplacementOk(t[1..])
    else if |t| == 1 then false
    else
      var c := t[1];
      if c == 'g' then
        |t| >= 3 && t[2] == '<' &&
        var k := LeadingZeros(t[3..]);
        k >= 1 && 3 + k < |t| && t[3 + k] == '>' && ReplacementOk(t[4 + k..])
      else if c == '0' then ReplacementOk(t[2..])
      else if '1' <= c <= '9' then
        |t| >= 4 && '1' <= c <= '3' && IsOctDigit(t[2]) && IsOctDigit(t[3]) && ReplacementOk(t[4..])
      else if ('a' <= c <= 'z' || 'A' <= c <= 'Z') && c !in "abfnrtv" then false
      else ReplacementOk(t[2..])
  }

  /** A template without a backslash is taken literally, so `re.sub` never rejects it. */
  lemma {:induction false} ReplacementWithoutBackslash(t: string)
    requires '\\' !in t
    ensures ReplacementOk(t)
    decreases |t|
  {
    if t != "" {
      assert t[0] != '\\';
      assert forall k :: 0 <= k < |t| - 1 ==> t[1..][k] == t[k + 1];
      ReplacementWithoutBackslash(t[1..]);
    }
  }

  /** Templates Python rejects and accepts: `\d`, `\1`, `\g<1>` and a final backslash raise. */
  lemma ReplacementExamples()
    ensures !ReplacementOk("\\d") && !ReplacementOk("\\1") && !ReplacementOk("ab\\")
    ensures !ReplacementOk("\\g<1>") && !ReplacementOk("\\g<x>") && !ReplacementOk("\\400")
    ensures ReplacementOk("\\n") && ReplacementOk("\\\\d") && ReplacementOk("\\g<0>") && ReplacementOk("\\101")
  {
    assert "ab\\"[1..] == "b\\" && "b\\"[1..] == "\\";
    assert "\\\\d"[2..] == "d";
    assert "\\g<0>"[3..] == "0>";
    assert LeadingZeros("0>") == 1;
    assert LeadingZeros("1>") == 0 && LeadingZeros("x>") == 0;
    assert "\\g<0>"[5..] == "";
    assert "\\101"[4..] == "";
  }
}

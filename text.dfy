/**
 * The two string operations the core relies on: Rust's `str::trim`, which
 * strips Unicode white space from both ends, and `str::replace(pat, "")`,
 * which removes every non-overlapping occurrence of `pat`, scanning left to
 * right.
 */
module Text {

  /** `char::is_whitespace`: the characters with the Unicode White_Space property. */
  predicate IsWhitespace(c: char) {
    var n := c as int;
    (0x09 <= n <= 0x0D) || n == 0x20 || n == 0x85 || n == 0xA0 || n == 0x1680
    || (0x2000 <= n <= 0x200A) || n == 0x2028 || n == 0x2029 || n == 0x202F
    || n == 0x205F || n == 0x3000
  }

  predicate AllWhitespace(s: string) {
    forall i :: 0 <= i < |s| ==> IsWhitespace(s[i])
  }

  /** Neither end of `s` is white space. */
  predicate IsTrimmed(s: string) {
    s == [] || (!IsWhitespace(s[0]) && !IsWhitespace(s[|s| - 1]))
  }

  /** `str::trim_start`: drops the longest all-white-space prefix. */
  function TrimStart(s: string): string {
    if |s| > 0 && IsWhitespace(s[0]) then TrimStart(s[1..]) else s
  }

  /** `str::trim_end`: drops the longest all-white-space suffix. */
  function TrimEnd(s: string): string {
    if |s| > 0 && IsWhitespace(s[|s| - 1]) then TrimEnd(s[..|s| - 1]) else s
  }

  /** `str::trim`. */
  function Trim(s: string): string {
    TrimEnd(TrimStart(s))
  }

  /**
   * `TrimStart` keeps a suffix of `s`, what it drops is white space, and
   * what it keeps does not start with white space.
   */
  lemma {:induction false} TrimStartSpec(s: string)
    ensures |TrimStart(s)| <= |s| && TrimStart(s) == s[|s| - |TrimStart(s)|..]
    ensures AllWhitespace(s[..|s| - |TrimStart(s)|])
    ensures TrimStart(s) == [] || !IsWhitespace(TrimStart(s)[0])
    decreases |s|
  {
    if |s| > 0 && IsWhitespace(s[0]) {
      var r := TrimStart(s[1..]);
      assert TrimStart(s) == r;
      TrimStartSpec(s[1..]);
      var k := |s| - |r|;
      assert r == s[k..] by {
        assert s[1..][k - 1..] == s[k..];
      }
      WhitespacePrefixGrows(s, k);
    } else {
      assert TrimStart(s) == s;
      assert s[..0] == [] && s[0..] == s;
    }
  }

  /** A white-space character followed by a white-space run is a white-space run. */
  lemma WhitespacePrefixGrows(s: string, k: nat)
    requires 0 < k <= |s| && IsWhitespace(s[0]) && AllWhitespace(s[1..][..k - 1])
    ensures AllWhitespace(s[..k])
  {
    forall i | 0 <= i < k ensures IsWhitespace(s[..k][i]) {
      if i > 0 {
        assert s[..k][i] == s[1..][..k - 1][i - 1];
      }
    }
  }

  /**
   * `TrimEnd` keeps a prefix of `s`, what it drops is white space, and what
   * it keeps does not end with white space.
   */
  lemma {:induction false} TrimEndSpec(s: string)
    ensures var r := TrimEnd(s);
      && |r| <= |s| && r == s[..|r|]
      && AllWhitespace(s[|r|..])
      && (r == [] || !IsWhitespace(r[|r| - 1]))
    decreases |s|
  {
    if |s| > 0 && IsWhitespace(s[|s| - 1]) {
      var r := TrimEnd(s[..|s| - 1]);
      TrimEndSpec(s[..|s| - 1]);
      assert s[|r|..] == s[..|s| - 1][|r|..] + [s[|s| - 1]];
      assert s[..|r|] == s[..|s| - 1][..|r|];
    }
  }

  /** `Trim` leaves no white space at either end and never lengthens its input. */
  lemma TrimSpec(s: string)
    ensures IsTrimmed(Trim(s)) && |Trim(s)| <= |s|
  {
    var t := TrimStart(s);
    TrimStartSpec(s);
    TrimEndSpec(t);
    var r := TrimEnd(t);
    assert r != [] ==> r[0] == t[0];
  }

  lemma {:induction false} TrimStartSkips(a: string, x: string)
    requires AllWhitespace(a)
    ensures TrimStart(a + x) == TrimStart(x)
  {
    if a == [] {
      assert a + x == x;
    } else {
      assert (a + x)[0] == a[0];
      assert (a + x)[1..] == a[1..] + x;
      TrimStartSkips(a[1..], x);
    }
  }

  lemma {:induction false} TrimStartAppend(s: string, b: string)
    requires TrimStart(s) != []
    ensures TrimStart(s + b) == TrimStart(s) + b
  {
    if IsWhitespace(s[0]) {
      assert (s + b)[1..] == s[1..] + b;
      TrimStartAppend(s[1..], b);
    }
  }

  lemma {:induction false} TrimEndSkips(x: string, b: string)
    requires AllWhitespace(b)
    ensures TrimEnd(x + b) == TrimEnd(x)
  {
    if b == [] {
      assert x + b == x;
    } else {
      var b' := b[..|b| - 1];
      assert (x + b)[|x + b| - 1] == b[|b| - 1];
      assert (x + b)[..|x + b| - 1] == x + b';
      TrimEndSkips(x, b');
    }
  }

  /** Text that differs from `s` only by white space around it trims to the same string. */
  lemma TrimIgnoresSurroundingWhitespace(a: string, s: string, b: string)
    requires AllWhitespace(a) && AllWhitespace(b)
    ensures Trim(a + s + b) == Trim(s)
  {
    assert a + s + b == a + (s + b);
    TrimStartSkips(a, s + b);
    var t := TrimStart(s);
    if t != [] {
      TrimStartAppend(s, b);
      TrimEndSkips(t, b);
    } else {
      TrimStartSpec(s);
      assert s[..|s|] == s;
      assert AllWhitespace(s + b) by {
        forall i | 0 <= i < |s + b| ensures IsWhitespace((s + b)[i]) {
          if i < |s| { assert (s + b)[i] == s[i]; } else { assert (s + b)[i] == b[i - |s|]; }
        }
      }
      TrimStartSkips(s + b, []);
      assert s + b + [] == s + b;
    }
  }

  /** Trimming a trimmed string changes nothing; in particular `Trim` is idempotent. */
  lemma TrimmedIsFixed(s: string)
    requires IsTrimmed(s)
    ensures Trim(s) == s
  {
  }

  lemma TrimIdempotent(s: string)
    ensures Trim(Trim(s)) == Trim(s)
  {
    TrimSpec(s);
    TrimmedIsFixed(Trim(s));
  }

  predicate EndsWith(s: string, suffix: string) {
    |suffix| <= |s| && s[|s| - |suffix|..] == suffix
  }

  /** An occurrence of `pat` begins at index `i` of `s`. */
  predicate OccursAt(s: string, pat: string, i: nat) {
    i + |pat| <= |s| && s[i..i + |pat|] == pat
  }

  /** `s.replace(pat, "")`: every leftmost, non-overlapping occurrence of `pat` is cut out. */
  function RemoveAll(s: string, pat: string): (r: string)
    requires pat != []
    ensures |r| <= |s|
    decreases |s|
  {
    if |s| == 0 then []
    else if OccursAt(s, pat, 0) then RemoveAll(s[|pat|..], pat)
    else [s[0]] + RemoveAll(s[1..], pat)
  }

  /** Dropping the first character of `b` keeps `pat` from starting inside what is left of `b`. */
  lemma NoOccurrenceInTail(b: string, pat: string, c: string)
    requires b != []
    requires forall i :: 0 <= i < |b| ==> !OccursAt(b + pat + c, pat, i)
    ensures (b + pat + c)[1..] == b[1..] + pat + c
    ensures forall i :: 0 <= i < |b| - 1 ==> !OccursAt(b[1..] + pat + c, pat, i)
  {
    var s := b + pat + c;
    var b' := b[1..];
    assert s[1..] == b' + pat + c;
    forall i | 0 <= i < |b'| ensures !OccursAt(b' + pat + c, pat, i) {
      assert !OccursAt(s, pat, i + 1);
      assert (b' + pat + c)[i..i + |pat|] == s[i + 1..i + 1 + |pat|];
    }
  }

  /**
   * When the only occurrences of `pat` in `b + pat + c` that start inside `b`
   * are none at all, removal keeps `b` whole and cuts the `pat` right after it.
   */
  lemma {:induction false} RemoveAllAfterPlainPrefix(b: string, pat: string, c: string)
    requires pat != []
    requires forall i :: 0 <= i < |b| ==> !OccursAt(b + pat + c, pat, i)
    ensures RemoveAll(b + pat + c, pat) == b + RemoveAll(c, pat)
    decreases |b|
  {
    var s := b + pat + c;
    if b == [] {
      assert s == pat + c;
      assert OccursAt(s, pat, 0);
      assert s[|pat|..] == c;
    } else {
      assert !OccursAt(s, pat, 0);
      assert RemoveAll(s, pat) == [s[0]] + RemoveAll(s[1..], pat);
      NoOccurrenceInTail(b, pat, c);
      RemoveAllAfterPlainPrefix(b[1..], pat, c);
      assert [s[0]] + b[1..] == b;
    }
  }
}

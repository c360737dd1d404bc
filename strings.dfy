/** The few Python string operations the chatbot relies on, with Python's
    meaning: `str.isspace` on one character, `str.strip()`, `str.lower()` on
    ASCII letters, and `sep.join(...)` with its inverse `s.split(sep)` for a
    one-character separator. */
module Strings {

  /** Python's `c.isspace()`: the characters `str.strip()` removes. */
  predicate IsSpace(c: char) {
    ('\t' <= c <= '\r') || ('\U{1C}' <= c <= '\U{1F}') || c == ' '
    || c == '\U{85}' || c == '\U{A0}' || c == '\U{1680}'
    || ('\U{2000}' <= c <= '\U{200A}') || c == '\U{2028}' || c == '\U{2029}'
    || c == '\U{202F}' || c == '\U{205F}' || c == '\U{3000}'
  }

  /** Every character is whitespace; the empty string is blank. */
  predicate IsBlank(s: string) {
    forall i :: 0 <= i < |s| ==> IsSpace(s[i])
  }

  /** No whitespace at either end. */
  predicate IsTrimmed(s: string) {
    s == [] || (!IsSpace(s[0]) && !IsSpace(s[|s| - 1]))
  }

  /** The first index at or after `i` that does not hold whitespace. */
  function SkipSpaces(s: string, i: nat): (k: nat)
    requires i <= |s|
    ensures i <= k <= |s|
    ensures forall m :: i <= m < k ==> IsSpace(s[m])
    ensures k < |s| ==> !IsSpace(s[k])
    decreases |s| - i
  {
    if i < |s| && IsSpace(s[i]) then SkipSpaces(s, i + 1) else i
  }

  /** The least `k` in `lo..j` such that `s[k..j]` is all whitespace. */
  function SkipSpacesBack(s: string, lo: nat, j: nat): (k: nat)
    requires lo <= j <= |s|
    ensures lo <= k <= j
    ensures forall m :: k <= m < j ==> IsSpace(s[m])
    ensures lo < k ==> !IsSpace(s[k - 1])
    decreases j
  {
    if lo < j && IsSpace(s[j - 1]) then SkipSpacesBack(s, lo, j - 1) else j
  }

  /** Python's `s.strip()`: no whitespace at either end, and empty exactly
      when `s` is blank, which is what `not s.strip()` tests. */
  function Strip(s: string): (r: string)
    ensures |r| <= |s| && IsTrimmed(r)
    ensures r == [] <==> IsBlank(s)
  {
    var i := SkipSpaces(s, 0);
    var j := SkipSpacesBack(s, i, |s|);
    assert i < j ==> s[i..j][0] == s[i] && s[i..j][j - i - 1] == s[j - 1];
    s[i..j]
  }

  /** `Strip(s)` is a slice of `s` with only whitespace before and after it. */
  lemma StripIsSlice(s: string)
    ensures var i := SkipSpaces(s, 0);
      var j := SkipSpacesBack(s, i, |s|);
      Strip(s) == s[i..j]
      && (forall m :: 0 <= m < i ==> IsSpace(s[m]))
      && (forall m :: j <= m < |s| ==> IsSpace(s[m]))
  {
  }

  /** The slice characterisation determines `Strip(s)`: any slice of `s`
      with only whitespace around it and no whitespace at its ends is it. */
  lemma StripUnique(s: string, i: nat, j: nat)
    requires i <= j <= |s|
    requires forall k :: 0 <= k < i ==> IsSpace(s[k])
    requires forall k :: j <= k < |s| ==> IsSpace(s[k])
    requires IsTrimmed(s[i..j])
    ensures Strip(s) == s[i..j]
  {
    if i == j {
      assert IsBlank(s) by {
        forall k | 0 <= k < |s| ensures IsSpace(s[k]) {
          if k >= i { assert k >= j; }
        }
      }
    } else {
      assert !IsSpace(s[i]) by { assert s[i..j][0] == s[i]; }
      assert !IsSpace(s[j - 1]) by { assert s[i..j][j - i - 1] == s[j - 1]; }
      var i' := SkipSpaces(s, 0);
      assert i' == i;
      var j' := SkipSpacesBack(s, i, |s|);
      assert j' == j;
    }
  }

  /** Stripping twice is stripping once. */
  lemma StripIdempotent(s: string)
    ensures Strip(Strip(s)) == Strip(s)
  {
    var r := Strip(s);
    StripUnique(r, 0, |r|);
  }

  /** Python's `c.lower()` restricted to the ASCII letters. */
  function LowerChar(c: char): char {
    if 'A' <= c <= 'Z' then (c as int + 32) as char else c
  }

  /** Python's `s.lower()` restricted to the ASCII letters. */
  function Lower(s: string): (r: string)
    ensures |r| == |s|
    ensures forall i :: 0 <= i < |s| ==> r[i] == LowerChar(s[i])
  {
    seq(|s|, i requires 0 <= i < |s| => LowerChar(s[i]))
  }

  /** Lowering is idempotent, so a lowered string is its own lower form. */
  lemma LowerIdempotent(s: string)
    ensures Lower(Lower(s)) == Lower(s)
  {
  }

  /** Python's `sep.join(xs)` for a one-character separator. */
  function Join(sep: char, xs: seq<string>): string
  {
    if |xs| == 0 then ""
    else if |xs| == 1 then xs[0]
    else xs[0] + [sep] + Join(sep, xs[1..])
  }

  /** Python's `s.split(sep)` for a one-character separator: never empty. */
  function Split(sep: char, s: string): (parts: seq<string>)
    ensures |parts| >= 1
  {
    if s == [] then [""]
    else
      var rest := Split(sep, s[1..]);
      if s[0] == sep then [""] + rest
      else [[s[0]] + rest[0]] + rest[1..]
  }

  /** Appending one entry adds one separator and the entry at the end. */
  lemma {:induction false} JoinSnoc(sep: char, xs: seq<string>, y: string)
    requires xs != []
    ensures Join(sep, xs + [y]) == Join(sep, xs) + [sep] + y
    decreases |xs|
  {
    var ys := xs + [y];
    assert ys[0] == xs[0] && ys[1..] == xs[1..] + [y];
    if |xs| > 1 {
      JoinSnoc(sep, xs[1..], y);
      assert Join(sep, ys) == xs[0] + [sep] + (Join(sep, xs[1..]) + [sep] + y);
    }
  }

  /** A string is a prefix of any extension of it. */
  lemma PrefixOfConcat(a: string, b: string, c: string)
    ensures a <= a + b + c
  {
    assert (a + b + c)[..|a|] == a;
  }

  /** `t` is a suffix of `s`. */
  predicate EndsWith(s: string, t: string) {
    |t| <= |s| && s[|s| - |t|..] == t
  }

  /** A suffix stays a suffix when text is put in front. */
  lemma EndsWithConcat(a: string, b: string, t: string)
    ensures EndsWith(a + (b + t), t)
  {
    var s := a + (b + t);
    assert s == (a + b) + t;
    assert s[|s| - |t|..] == t;
  }

  /** Joining entries that end with `a` and `b` ends with `a`, the
      separator and `b`. */
  lemma JoinLastTwo(sep: char, xs: seq<string>, a: string, b: string)
    ensures Join(sep, xs + [a, b])
      == (if xs == [] then "" else Join(sep, xs) + [sep]) + (a + [sep] + b)
  {
    assert xs + [a, b] == (xs + [a]) + [b];
    JoinSnoc(sep, xs + [a], b);
    if xs != [] {
      JoinSnoc(sep, xs, a);
    } else {
      assert xs + [a] == [a];
    }
  }

  /** Splitting text that starts with a separator-free prefix `a` glues `a`
      onto the first part. */
  lemma {:induction false} SplitAfterPlain(sep: char, a: string, t: string)
    requires sep !in a
    ensures Split(sep, a + t) == [a + Split(sep, t)[0]] + Split(sep, t)[1..]
    decreases |a|
  {
    var parts := Split(sep, t);
    if a != [] {
      assert (a + t)[0] == a[0] != sep;
      assert (a + t)[1..] == a[1..] + t;
      SplitAfterPlain(sep, a[1..], t);
      var rest := Split(sep, a[1..] + t);
      assert rest[0] == a[1..] + parts[0];
      assert rest[1..] == parts[1..];
      assert Split(sep, a + t) == [[a[0]] + rest[0]] + rest[1..];
      assert [a[0]] + (a[1..] + parts[0]) == a + parts[0];
    } else {
      assert a + t == t && a + parts[0] == parts[0];
      assert [parts[0]] + parts[1..] == parts;
    }
  }

  /** Round trip: splitting a join gives the entries back when none of them
      contains the separator. */
  lemma {:induction false} SplitJoin(sep: char, xs: seq<string>)
    requires xs != []
    requires forall i :: 0 <= i < |xs| ==> sep !in xs[i]
    ensures Split(sep, Join(sep, xs)) == xs
    decreases |xs|
  {
    var x, ys := xs[0], xs[1..];
    assert sep !in x;
    if ys == [] {
      SplitAfterPlain(sep, x, "");
      assert x + "" == x;
      assert xs == [x];
    } else {
      var j := Join(sep, ys);
      assert Join(sep, xs) == x + ([sep] + j);
      SplitJoin(sep, ys);
      SplitAfterPlain(sep, x, [sep] + j);
      assert ([sep] + j)[1..] == j;
      assert Split(sep, [sep] + j) == [""] + ys;
      assert x + "" == x;
      assert xs == [x] + ys;
    }
  }

  /** Round trip the other way: joining the parts of a split restores any
      string. */
  lemma {:induction false} JoinSplit(sep: char, s: string)
    ensures Join(sep, Split(sep, s)) == s
    decreases |s|
  {
    if s != [] {
      var rest := Split(sep, s[1..]);
      JoinSplit(sep, s[1..]);
      var parts := Split(sep, s);
      if s[0] == sep {
        assert parts == [""] + rest;
        assert parts[0] == "" && parts[1..] == rest;
        assert Join(sep, parts) == "" + [sep] + s[1..];
      } else {
        assert parts == [[s[0]] + rest[0]] + rest[1..];
        assert parts[0] == [s[0]] + rest[0] && parts[1..] == rest[1..];
        if |rest| == 1 {
          assert Join(sep, parts) == [s[0]] + rest[0];
        } else {
          assert Join(sep, rest) == rest[0] + [sep] + Join(sep, rest[1..]);
          assert Join(sep, parts) == [s[0]] + rest[0] + [sep] + Join(sep, rest[1..]);
        }
      }
      assert [s[0]] + s[1..] == s;
    }
  }
}

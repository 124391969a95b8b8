/** Python `str` primitives used by the formatters: character classes,
    occurrence counts, `str.replace`, `str.rfind` and `str.strip`, on
    strings modelled as `seq<char>`. */
module Text {

  /** ASCII decimal digit (the part of Python's `str.isdigit` that is modelled). */
  predicate IsDigit(c: char) {
    '0' <= c <= '9'
  }

  /** The characters for which Python's `str.isspace` holds, i.e. what a bare
      `str.strip()` removes. */
  predicate IsSpace(c: char) {
    || c == ' '
    || ('\t' <= c <= '\r')
    || ('\U{1C}' <= c <= '\U{1F}')
    || c == '\U{85}' || c == '\U{A0}' || c == '\U{1680}'
    || ('\U{2000}' <= c <= '\U{200A}')
    || c == '\U{2028}' || c == '\U{2029}' || c == '\U{202F}'
    || c == '\U{205F}' || c == '\U{3000}'
  }

  /** Number of occurrences of `c` in `s` (Python's `s.count(c)`). */
  function Count(s: string, c: char): nat
  {
    if |s| == 0 then 0 else (if s[0] == c then 1 else 0) + Count(s[1..], c)
  }

  lemma {:induction false} CountAppend(a: string, b: string, c: char)
    ensures Count(a + b, c) == Count(a, c) + Count(b, c)
  {
    if |a| == 0 {
      assert a + b == b;
    } else {
      assert (a + b)[1..] == a[1..] + b;
      CountAppend(a[1..], b, c);
    }
  }

  lemma {:induction false} CountPositive(s: string, c: char)
    ensures Count(s, c) > 0 <==> c in s
  {
    if |s| > 0 {
      assert s == [s[0]] + s[1..];
      CountPositive(s[1..], c);
    }
  }

  /** `s` with every occurrence of `c` deleted; the other characters keep their order. */
  function Without(s: string, c: char): string
  {
    if |s| == 0 then []
    else
      var rest := Without(s[1..], c);
      if s[0] == c then rest else [s[0]] + rest
  }

  /** Deleting `c` removes exactly its occurrences: none is left, and every
      other character keeps its count. */
  lemma {:induction false} WithoutCount(s: string, c: char, d: char)
    ensures Count(Without(s, c), d) == if d == c then 0 else Count(s, d)
  {
    if |s| > 0 {
      WithoutCount(s[1..], c, d);
      var rest := Without(s[1..], c);
      assert ([s[0]] + rest)[1..] == rest;
    }
  }

  lemma WithoutCounts(s: string, c: char)
    ensures forall d :: Count(Without(s, c), d) == if d == c then 0 else Count(s, d)
  {
    forall d
      ensures Count(Without(s, c), d) == if d == c then 0 else Count(s, d)
    {
      WithoutCount(s, c, d);
    }
  }

  lemma {:induction false} WithoutAppend(a: string, b: string, c: char)
    ensures Without(a + b, c) == Without(a, c) + Without(b, c)
  {
    if |a| == 0 {
      assert a + b == b;
    } else {
      assert (a + b)[1..] == a[1..] + b;
      WithoutAppend(a[1..], b, c);
    }
  }

  lemma WithoutAbsent(s: string, c: char)
    requires c !in s
    ensures Without(s, c) == s
  {
    if |s| > 0 {
      assert s[0] != c;
      assert c !in s[1..];
      WithoutAbsent(s[1..], c);
    }
  }

  lemma {:induction false} WithoutCommutes(s: string, a: char, b: char)
    ensures Without(Without(s, a), b) == Without(Without(s, b), a)
  {
    if |s| > 0 {
      WithoutCommutes(s[1..], a, b);
      WithoutAppend([s[0]], s[1..], a);
      WithoutAppend([s[0]], s[1..], b);
      WithoutAppend(Without([s[0]], a), Without(s[1..], a), b);
      WithoutAppend(Without([s[0]], b), Without(s[1..], b), a);
      assert [s[0]] + s[1..] == s;
    }
  }

  /** `s` with every `a` turned into `b`. */
  function MapChar(s: string, a: char, b: char): (r: string)
    ensures |r| == |s|
    ensures forall i :: 0 <= i < |s| ==> r[i] == if s[i] == a then b else s[i]
  {
    if |s| == 0 then [] else [if s[0] == a then b else s[0]] + MapChar(s[1..], a, b)
  }

  lemma {:induction false} MapCharCount(s: string, a: char, b: char, d: char)
    requires a != b
    ensures Count(MapChar(s, a, b), d) ==
      if d == b then Count(s, a) + Count(s, b) else if d == a then 0 else Count(s, d)
  {
    if |s| > 0 {
      var r := MapChar(s, a, b);
      assert r[1..] == MapChar(s[1..], a, b);
      MapCharCount(s[1..], a, b, d);
    }
  }

  /** A concatenation of four strings, regrouped to the right. */
  lemma Regroup(a: string, b: string, c: string, d: string)
    ensures a + b + c + d == a + (b + c + d)
  {
  }

  /** The character-wise exchange of ',' and '.'. */
  function SwapSeparators(s: string): string
  {
    seq(|s|, i requires 0 <= i < |s| => if s[i] == ',' then '.' else if s[i] == '.' then ',' else s[i])
  }

  lemma SwapAppend(a: string, b: string)
    ensures SwapSeparators(a + b) == SwapSeparators(a) + SwapSeparators(b)
  {
  }

  /** Python's `s.rfind(c)` for a one-character `c`: the last index of `c`, or -1. */
  function RFind(s: string, c: char): (r: int)
    ensures -1 <= r < |s|
    ensures r == -1 <==> c !in s
    ensures r >= 0 ==> s[r] == c && forall k :: r < k < |s| ==> s[k] != c
  {
    if |s| == 0 then -1
    else if s[|s| - 1] == c then |s| - 1
    else assert s == s[..|s| - 1] + [s[|s| - 1]]; RFind(s[..|s| - 1], c)
  }

  /** The replacement budget left after one replacement (a negative count means "all"). */
  function Remaining(count: int): int
  {
    if count > 0 then count - 1 else count
  }

  /** Python's `s.replace(pattern, replacement, count)`: scans left to right, replacing
      non-overlapping occurrences of `pattern` by `replacement`, at most `count` of them
      when `count` is non-negative and all of them when it is negative. An
      empty `pattern` matches before every character and at the end. */
  function Replace(s: string, pattern: string, replacement: string, count: int): (r: string)
    ensures |pattern| > 0 && |replacement| <= |pattern| ==> |r| <= |s|
    ensures |pattern| > 0 && |replacement| == |pattern| ==> |r| == |s|
    decreases |s|
  {
    if count == 0 then s
    else if |pattern| == 0 then
      if |s| == 0 then replacement else replacement + [s[0]] + Replace(s[1..], pattern, replacement, Remaining(count))
    else if pattern <= s then replacement + Replace(s[|pattern|..], pattern, replacement, Remaining(count))
    else if |s| == 0 then s
    else [s[0]] + Replace(s[1..], pattern, replacement, count)
  }

  /** Replacing one character by another everywhere is `MapChar`. */
  lemma {:induction false} ReplaceCharByChar(s: string, a: char, b: char)
    ensures Replace(s, [a], [b], -1) == MapChar(s, a, b)
  {
    if |s| > 0 {
      ReplaceCharByChar(s[1..], a, b);
    }
  }

  /** Replacing one character replacement "" everywhere is `Without`. */
  lemma {:induction false} ReplaceDeletesAll(s: string, a: char)
    ensures Replace(s, [a], [], -1) == Without(s, a)
  {
    if |s| > 0 {
      ReplaceDeletesAll(s[1..], a);
      if s[0] == a {
        assert [] + Replace(s[1..], [a], [], -1) == Replace(s[1..], [a], [], -1);
      }
    }
  }

  /** Replacing one character replacement "" at most `n` times deletes its first `n`
      occurrences: the other characters and their order are untouched, and
      `n` fewer occurrences remain (none, if there were fewer than `n`). */
  lemma {:induction false} ReplaceDeletesFirst(s: string, a: char, n: nat)
    ensures Without(Replace(s, [a], [], n), a) == Without(s, a)
    ensures Count(Replace(s, [a], [], n), a) == if n <= Count(s, a) then Count(s, a) - n else 0
    ensures exists k :: 0 <= k <= |s| && Replace(s, [a], [], n) == Without(s[..k], a) + s[k..]
                       && Count(s[..k], a) == if n <= Count(s, a) then n else Count(s, a)
  {
    ReplaceDeletesFirstCounts(s, a, n);
    ReplaceDeletesPrefix(s, a, n);
  }

  lemma {:induction false} ReplaceDeletesFirstCounts(s: string, a: char, n: nat)
    ensures Without(Replace(s, [a], [], n), a) == Without(s, a)
    ensures Count(Replace(s, [a], [], n), a) == if n <= Count(s, a) then Count(s, a) - n else 0
  {
    if n > 0 && |s| > 0 {
      if s[0] == a {
        ReplaceDeletesFirstCounts(s[1..], a, n - 1);
        assert [] + Replace(s[1..], [a], [], n - 1) == Replace(s[1..], [a], [], n - 1);
      } else {
        ReplaceDeletesFirstCounts(s[1..], a, n);
        var rest := Replace(s[1..], [a], [], n);
        assert Replace(s, [a], [], n) == [s[0]] + rest;
        assert ([s[0]] + rest)[1..] == rest;
      }
    }
  }

  /** The deleted occurrences are the first ones: the result is a prefix of
      `s` with its `a`s removed, followed by the untouched rest of `s`. */
  lemma {:induction false} ReplaceDeletesPrefix(s: string, a: char, n: nat)
    ensures exists k :: 0 <= k <= |s| && Replace(s, [a], [], n) == Without(s[..k], a) + s[k..]
                       && Count(s[..k], a) == if n <= Count(s, a) then n else Count(s, a)
  {
    if n == 0 || |s| == 0 {
      assert Replace(s, [a], [], n) == Without(s[..0], a) + s[0..];
    } else {
      var m := if s[0] == a then n - 1 else n;
      ReplaceDeletesPrefix(s[1..], a, m);
      var rest := Replace(s[1..], [a], [], m);
      var res := Replace(s, [a], [], n);
      assert res == if s[0] == a then rest else [s[0]] + rest by {
        if s[0] == a {
          assert [] + rest == rest;
        }
      }
      var k' :| 0 <= k' <= |s[1..]| && rest == Without(s[1..][..k'], a) + s[1..][k'..]
                && Count(s[1..][..k'], a) == if m <= Count(s[1..], a) then m else Count(s[1..], a);
      PrefixExtend(s, a, n, m, k', rest, res);
    }
  }

  /** One more character in front of the text extends the deleted prefix by one. */
  lemma PrefixExtend(s: string, a: char, n: nat, m: nat, k': nat, rest: string, res: string)
    requires |s| > 0 && n > 0 && m == if s[0] == a then n - 1 else n
    requires k' <= |s[1..]| && rest == Without(s[1..][..k'], a) + s[1..][k'..]
    requires Count(s[1..][..k'], a) == if m <= Count(s[1..], a) then m else Count(s[1..], a)
    requires res == if s[0] == a then rest else [s[0]] + rest
    ensures res == Without(s[..k' + 1], a) + s[k' + 1..]
    ensures Count(s[..k' + 1], a) == if n <= Count(s, a) then n else Count(s, a)
  {
    PrefixStepCounts(s, a, k' + 1);
    PrefixStep(s, k' + 1);
  }

  lemma PrefixStepCounts(s: string, a: char, k: nat)
    requires 0 < k <= |s|
    ensures Without(s[..k], a) == if s[0] == a then Without(s[1..][..k - 1], a) else [s[0]] + Without(s[1..][..k - 1], a)
    ensures Count(s[..k], a) == (if s[0] == a then 1 else 0) + Count(s[1..][..k - 1], a)
    ensures Count(s, a) == (if s[0] == a then 1 else 0) + Count(s[1..], a)
  {
    PrefixStep(s, k);
  }

  /** A non-empty prefix of `s` is its first character followed by a prefix of the rest. */
  lemma PrefixStep(s: string, k: nat)
    requires 0 < k <= |s|
    ensures s[..k][0] == s[0] && s[..k][1..] == s[1..][..k - 1]
    ensures s[k..] == s[1..][k - 1..]
  {
  }

  /** A pattern whose first character never occurs is never replaced. */
  lemma {:induction false} ReplaceNoMatch(s: string, pattern: string, replacement: string, count: int)
    requires |pattern| > 0 && pattern[0] !in s
    ensures Replace(s, pattern, replacement, count) == s
  {
    if count != 0 && |s| > 0 {
      assert !(pattern <= s);
      assert s == [s[0]] + s[1..];
      ReplaceNoMatch(s[1..], pattern, replacement, count);
    }
  }

  /** Deleting a two-character pattern keeps the count of every character
      not in the pattern. */
  lemma {:induction false} DeletePairCount(s: string, pattern: string, d: char)
    requires |pattern| == 2 && d != pattern[0] && d != pattern[1]
    ensures Count(Replace(s, pattern, [], -1), d) == Count(s, d)
  {
    if |s| > 0 {
      if pattern <= s {
        DeletePairCount(s[2..], pattern, d);
        assert s == pattern + s[2..];
        CountAppend(pattern, s[2..], d);
        assert [] + Replace(s[2..], pattern, [], -1) == Replace(s[2..], pattern, [], -1);
      } else {
        DeletePairCount(s[1..], pattern, d);
        var rest := Replace(s[1..], pattern, [], -1);
        assert ([s[0]] + rest)[1..] == rest;
      }
    }
  }

  /** Python's `s.lstrip()`. */
  function LStrip(s: string): (r: string)
    ensures |r| <= |s| && r == s[|s| - |r|..]
    ensures forall k :: 0 <= k < |s| - |r| ==> IsSpace(s[k])
    ensures r == [] || !IsSpace(r[0])
  {
    if |s| > 0 && IsSpace(s[0]) then LStrip(s[1..]) else s
  }

  /** Python's `s.rstrip()`. */
  function RStrip(s: string): (r: string)
    ensures |r| <= |s| && r == s[..|r|]
    ensures forall k :: |r| <= k < |s| ==> IsSpace(s[k])
    ensures r == [] || !IsSpace(r[|r| - 1])
  {
    if |s| > 0 && IsSpace(s[|s| - 1]) then RStrip(s[..|s| - 1]) else s
  }

  lemma {:induction false} LStripKeeps(s: string, d: char)
    requires !IsSpace(d)
    ensures Count(LStrip(s), d) == Count(s, d)
  {
    if |s| > 0 && IsSpace(s[0]) {
      LStripKeeps(s[1..], d);
    }
  }

  lemma {:induction false} RStripKeeps(s: string, d: char)
    requires !IsSpace(d)
    ensures Count(RStrip(s), d) == Count(s, d)
  {
    if |s| > 0 && IsSpace(s[|s| - 1]) {
      var init := s[..|s| - 1];
      RStripKeeps(init, d);
      assert s == init + [s[|s| - 1]];
      CountAppend(init, [s[|s| - 1]], d);
    }
  }

  /** What `strip` keeps is one slice of `s`, with only whitespace outside it. */
  lemma StripEnds(s: string)
    ensures exists i, j :: 0 <= i <= j <= |s| && RStrip(LStrip(s)) == s[i..j]
                          && forall k :: (0 <= k < i || j <= k < |s|) ==> IsSpace(s[k])
  {
    var l := LStrip(s);
    TrimmedSlice(s, l, RStrip(l));
  }

  /** Trimming whitespace from the front and then from the back leaves a slice. */
  lemma TrimmedSlice(s: string, l: string, r: string)
    requires |l| <= |s| && l == s[|s| - |l|..] && forall k :: 0 <= k < |s| - |l| ==> IsSpace(s[k])
    requires |r| <= |l| && r == l[..|r|] && forall k :: |r| <= k < |l| ==> IsSpace(l[k])
    ensures exists i, j :: 0 <= i <= j <= |s| && r == s[i..j]
                          && forall k :: (0 <= k < i || j <= k < |s|) ==> IsSpace(s[k])
  {
    var i := |s| - |l|;
    var j := i + |r|;
    forall k | 0 <= k < i || j <= k < |s|
      ensures IsSpace(s[k])
    {
      if j <= k {
        assert s[k] == l[k - i];
      }
    }
    assert r == s[i..j];
  }

  /** Python's `s.strip()`: the result neither starts nor ends with
      whitespace, and stripping removes nothing but whitespace. */
  function Strip(s: string): (r: string)
    ensures r == [] || (!IsSpace(r[0]) && !IsSpace(r[|r| - 1]))
    ensures forall d :: !IsSpace(d) ==> Count(r, d) == Count(s, d)
    ensures exists i, j :: 0 <= i <= j <= |s| && r == s[i..j]
                          && forall k :: (0 <= k < i || j <= k < |s|) ==> IsSpace(s[k])
  {
    StripEnds(s);
    assert forall d :: !IsSpace(d) ==> Count(RStrip(LStrip(s)), d) == Count(s, d) by {
      forall d | !IsSpace(d)
        ensures Count(RStrip(LStrip(s)), d) == Count(s, d)
      {
        LStripKeeps(s, d);
        RStripKeeps(LStrip(s), d);
      }
    }
    RStrip(LStrip(s))
  }
}

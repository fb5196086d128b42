/**
 * Python `str` operations modelled on `seq<char>`. The chunker calls
 * `str.strip()`, `str.split("\n")` and the tail slice `s[-k:]`;
 * `IsWhitespace` is the set of characters `strip()` removes. `"\n".join`
 * is not called by the chunker: it is the inverse of `split("\n")`, used to
 * specify it. Likewise `"".join` (`Concat`) only serves to state that no
 * paragraph is lost.
 */
module PyStr {

  /** Python's `str.isspace` on one code point: the characters that
      `str.strip()` with no argument removes. */
  predicate IsWhitespace(c: char) {
    var n := c as int;
    (0x09 <= n <= 0x0D) || (0x1C <= n <= 0x20) || n == 0x85 || n == 0xA0 || n == 0x1680
    || (0x2000 <= n <= 0x200A) || n == 0x2028 || n == 0x2029 || n == 0x202F
    || n == 0x205F || n == 0x3000
  }

  /** Every character of `s` is whitespace (Python: `not s.strip()`). */
  predicate IsBlank(s: string) {
    forall i {:trigger IsWhitespace(s[i])} :: 0 <= i < |s| ==> IsWhitespace(s[i])
  }

  lemma BlankAppend(a: string, b: string)
    ensures IsBlank(a + b) <==> IsBlank(a) && IsBlank(b)
  {
    if IsBlank(a) && IsBlank(b) {
      forall i | 0 <= i < |a + b| ensures IsWhitespace((a + b)[i]) {
        if i >= |a| { assert (a + b)[i] == b[i - |a|]; }
      }
    }
    if IsBlank(a + b) {
      forall i | 0 <= i < |b| ensures IsWhitespace(b[i]) {
        assert (a + b)[|a| + i] == b[i];
      }
      forall i | 0 <= i < |a| ensures IsWhitespace(a[i]) {
        assert (a + b)[i] == a[i];
      }
    }
  }

  /** The index of the first non-whitespace character of `s` at or after
      `i`, or `|s|` when there is none. */
  function SkipForward(s: string, i: nat): (j: nat)
    requires i <= |s|
    ensures i <= j <= |s|
    ensures forall k {:trigger IsWhitespace(s[k])} :: i <= k < j ==> IsWhitespace(s[k])
    ensures j == |s| || !IsWhitespace(s[j])
    decreases |s| - i
  {
    if i == |s| || !IsWhitespace(s[i]) then i else SkipForward(s, i + 1)
  }

  /** The end of `s[lo..j]` once its trailing whitespace is dropped. */
  function SkipBackward(s: string, lo: nat, j: nat): (e: nat)
    requires lo <= j <= |s|
    ensures lo <= e <= j
    ensures forall k {:trigger IsWhitespace(s[k])} :: e <= k < j ==> IsWhitespace(s[k])
    ensures e == lo || !IsWhitespace(s[e - 1])
    decreases j
  {
    if j == lo || !IsWhitespace(s[j - 1]) then j else SkipBackward(s, lo, j - 1)
  }

  /** `s.strip()`: `s` without its leading and trailing whitespace, scanned
      from the left first and then from the right down to where the left scan
      stopped. The result is a slice of `s` between two blank margins, is empty
      exactly when `s` is blank, and otherwise begins and ends with a
      non-whitespace character. */
  function Strip(s: string): (r: string)
    ensures |r| <= |s|
    ensures r == [] <==> IsBlank(s)
    ensures r == [] || (!IsWhitespace(r[0]) && !IsWhitespace(r[|r| - 1]))
  {
    var i := SkipForward(s, 0);
    s[i..SkipBackward(s, i, |s|)]
  }

  /** What strip removes is whitespace only: the result is the slice of `s`
      between a blank prefix and a blank suffix. */
  lemma StripSlice(s: string)
    ensures exists i :: (0 <= i <= |s| - |Strip(s)| && IsBlank(s[..i]) &&
      s[i..i + |Strip(s)|] == Strip(s) && IsBlank(s[i + |Strip(s)|..]))
  {
    var i := SkipForward(s, 0);
    var j := SkipBackward(s, i, |s|);
    assert IsBlank(s[..i]) && IsBlank(s[j..]);
    assert s[i..i + |Strip(s)|] == Strip(s);
  }

  /** Strip is determined by its characterisation: whatever sits between two
      blank margins and begins and ends with non-whitespace is the strip. */
  lemma StripOf(a: string, m: string, b: string)
    requires IsBlank(a) && IsBlank(b)
    requires m == [] || (!IsWhitespace(m[0]) && !IsWhitespace(m[|m| - 1]))
    ensures Strip(a + m + b) == m
  {
    var s := a + m + b;
    if m == [] {
      assert s == a + b;
      BlankAppend(a, b);
    } else {
      assert forall k :: 0 <= k < |a| ==> s[k] == a[k];
      assert forall k :: |a| + |m| <= k < |s| ==> s[k] == b[k - |a| - |m|];
      assert s[|a|] == m[0] && s[|a| + |m| - 1] == m[|m| - 1];
      assert SkipForward(s, 0) == |a|;
      assert SkipBackward(s, |a|, |s|) == |a| + |m|;
      assert s[|a|..|a| + |m|] == m;
    }
  }

  /** Stripping is idempotent. */
  lemma StripStrip(s: string)
    ensures Strip(Strip(s)) == Strip(s)
  {
    var m := Strip(s);
    assert [] + m + [] == m;
    StripOf([], m, []);
  }

  /** `s.split("\n")`: the pieces of `s` between newline characters, in order;
      always at least one piece, none containing a newline. */
  function Split(s: string): (r: seq<string>)
    ensures |r| >= 1
    ensures forall k :: 0 <= k < |r| ==> '\n' !in r[k]
    decreases |s|
  {
    if s == [] then [[]]
    else
      var rest := Split(s[1..]);
      if s[0] == '\n' then [[]] + rest
      else [[s[0]] + rest[0]] + rest[1..]
  }

  /** `"\n".join(parts)`. */
  ghost function Join(parts: seq<string>): string
    decreases |parts|
  {
    if parts == [] then []
    else if |parts| == 1 then parts[0]
    else parts[0] + "\n" + Join(parts[1..])
  }

  /** Joining the pieces of a split gives back the original string. */
  lemma {:induction false} JoinSplit(s: string)
    ensures Join(Split(s)) == s
    decreases |s|
  {
    if s != [] {
      var rest := Split(s[1..]);
      JoinSplit(s[1..]);
      if s[0] == '\n' {
        assert ([[]] + rest)[1..] == rest;
      } else {
        var r := [[s[0]] + rest[0]] + rest[1..];
        if |rest| == 1 {
          assert r == [[s[0]] + rest[0]];
        } else {
          assert r[1..] == rest[1..];
          assert Join(rest) == rest[0] + "\n" + Join(rest[1..]);
        }
      }
    }
  }

  /** Splitting a string that begins with a newline-free prefix glues that
      prefix onto the first piece. */
  lemma {:induction false} SplitPrefix(x: string, y: string)
    requires '\n' !in x
    ensures Split(x + y) == [x + Split(y)[0]] + Split(y)[1..]
    decreases |x|
  {
    if x == [] {
      var r := Split(y);
      assert x + y == y && x + r[0] == r[0];
      assert [r[0]] + r[1..] == r;
    } else {
      assert (x + y)[1..] == x[1..] + y;
      assert x[0] == (x + y)[0];
      SplitPrefix(x[1..], y);
      assert [x[0]] + (x[1..] + Split(y)[0]) == x + Split(y)[0];
    }
  }

  /** Splitting a join of newline-free pieces gives the pieces back. */
  lemma {:induction false} SplitJoin(parts: seq<string>)
    requires |parts| >= 1
    requires forall k :: 0 <= k < |parts| ==> '\n' !in parts[k]
    ensures Split(Join(parts)) == parts
    decreases |parts|
  {
    if |parts| == 1 {
      assert parts[0] + [] == parts[0];
      SplitPrefix(parts[0], []);
    } else {
      var rest := Join(parts[1..]);
      SplitJoin(parts[1..]);
      assert parts[0] + "\n" + rest == parts[0] + ("\n" + rest);
      SplitPrefix(parts[0], "\n" + rest);
      assert ("\n" + rest)[1..] == rest;
      assert Split("\n" + rest) == [[]] + parts[1..];
      assert parts[0] + [] == parts[0];
    }
  }

  /** A string is blank exactly when every piece of its split is blank
      (the newline separators are themselves whitespace). */
  lemma {:induction false} BlankJoin(parts: seq<string>)
    ensures IsBlank(Join(parts)) <==> forall k :: 0 <= k < |parts| ==> IsBlank(parts[k])
    decreases |parts|
  {
    if |parts| > 1 {
      BlankJoin(parts[1..]);
      BlankAppend(parts[0] + "\n", Join(parts[1..]));
      BlankAppend(parts[0], "\n");
      assert forall k :: 1 <= k < |parts| ==> parts[k] == parts[1..][k - 1];
    }
  }

  /** `"".join(parts)`, read from the last part backwards. */
  ghost function Concat(parts: seq<string>): string
    decreases |parts|
  {
    if parts == [] then [] else Concat(parts[..|parts| - 1]) + parts[|parts| - 1]
  }

  /** Appending to a string keeps its prefixes and extends its suffixes. */
  lemma PrefixAppend(c: string, b: string, p: string)
    requires |c| <= |b| && b[..|c|] == c
    ensures (b + p)[..|c|] == c && (b + p)[|c|..] == b[|c|..] + p
  {
    assert (b + p)[..|c|] == b[..|c|];
  }

  /** `b` begins with `c`, and the rest of `b` completes `before` to `total`. */
  predicate Continues(before: string, c: string, b: string, total: string) {
    |c| <= |b| && b[..|c|] == c && before + b[|c|..] == total
  }

  lemma ContinuesAppend(before: string, c: string, b: string, total: string, p: string)
    requires Continues(before, c, b, total)
    ensures Continues(before, c, b + p, total + p)
  {
    PrefixAppend(c, b, p);
    assert before + (b[|c|..] + p) == (before + b[|c|..]) + p;
  }

  /** A string that begins with `c` is `c` followed by the rest. */
  lemma PrefixSplit(c: string, b: string)
    requires |c| <= |b| && b[..|c|] == c
    ensures b == c + b[|c|..]
  {
  }

  lemma ConcatSnoc(parts: seq<string>, p: string)
    ensures Concat(parts + [p]) == Concat(parts) + p
  {
    assert (parts + [p])[..|parts|] == parts;
  }

  /** Python's `s[-k:]` for a positive `k`: the last `k` characters of `s`,
      or all of `s` when it is shorter than `k`. */
  function Tail(s: string, k: int): (r: string)
    requires k > 0
    ensures |r| == if k < |s| then k else |s|
    ensures r == s[|s| - |r|..]
  {
    if k < |s| then s[|s| - k..] else s
  }
}

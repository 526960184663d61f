/**
 * The JavaScript string operations the routing, redirection and menu code
 * relies on (`startsWith`, `endsWith`, `includes`, `indexOf`, `split`,
 * `toLowerCase`), on `string == seq<char>`.
 */
module Strings {
  import opened Wrappers

  predicate StartsWith(s: string, prefix: string) {
    |prefix| <= |s| && s[..|prefix|] == prefix
  }

  /** A text that starts with `p + q` starts with `p`. */
  lemma StartsWithPrefix(s: string, p: string, q: string)
    requires StartsWith(s, p + q)
    ensures StartsWith(s, p)
  {
    assert s[..|p|] == (p + q)[..|p|];
  }

  predicate EndsWith(s: string, suffix: string) {
    |suffix| <= |s| && s[|s| - |suffix|..] == suffix
  }

  /** `t` occurs in `s` at offset `i`. */
  predicate OccursAt(s: string, t: string, i: nat) {
    i + |t| <= |s| && s[i..i + |t|] == t
  }

  /** `t` cannot occur where `s` has a character other than the first of `t`. */
  lemma NotOccursAt(s: string, t: string, i: nat)
    requires i < |s| && t != [] && s[i] != t[0]
    ensures !OccursAt(s, t, i)
  {
    if i + |t| <= |s| {
      assert s[i..i + |t|][0] == s[i];
    }
  }

  lemma InSlice(s: string, i: nat, j: nat, k: nat)
    ensures i <= k < j <= |s| ==> s[k] in s[i..j]
  {
    if i <= k < j <= |s| {
      assert s[i..j][k - i] == s[k];
    }
  }

  /** A `sep`-free text found in `a + [sep] + b` lies wholly inside `a` or wholly inside `b`. */
  lemma OccursAcross(a: string, sep: char, b: string, t: string, i: nat)
    requires sep !in t
    requires OccursAt(a + [sep] + b, t, i)
    ensures OccursAt(a, t, i) || (i > |a| && OccursAt(b, t, i - |a| - 1))
  {
    var s := a + [sep] + b;
    InSlice(s, i, i + |t|, |a|);
    if i + |t| <= |a| {
      assert s[i..i + |t|] == a[i..i + |t|];
    } else if |a| < i {
      assert s[i..i + |t|] == b[i - |a| - 1..i - |a| - 1 + |t|];
    }
  }

  /** `s.indexOf(t, from)`: the first offset at or after `from` where `t` occurs. */
  function IndexOfFrom(s: string, t: string, from: nat): (r: Option<nat>)
    ensures r.Some? ==> from <= r.value && OccursAt(s, t, r.value)
    ensures forall i: nat :: from <= i && (r.None? || i < r.value) ==> !OccursAt(s, t, i)
    decreases |s| - from
  {
    if |s| < from + |t| then None
    else if OccursAt(s, t, from) then Some(from)
    else IndexOfFrom(s, t, from + 1)
  }

  /** `s.indexOf(t)`. */
  function IndexOf(s: string, t: string): Option<nat> {
    IndexOfFrom(s, t, 0)
  }

  /** `s.includes(t)`: `t` occurs somewhere in `s`. */
  predicate Includes(s: string, t: string) {
    IndexOf(s, t).Some?
  }

  /** `includes` holds exactly when some offset carries `t`. */
  lemma IncludesIff(s: string, t: string)
    ensures Includes(s, t) <==> exists i: nat :: OccursAt(s, t, i)
  {
    if Includes(s, t) {
      assert OccursAt(s, t, IndexOf(s, t).value);
    }
  }

  /** ASCII-only `toLowerCase` of one character. */
  function LowerChar(c: char): char {
    if 'A' <= c <= 'Z' then (c as int + 32) as char else c
  }

  /** `s.toLowerCase()`, restricted to the ASCII letters. */
  function ToLower(s: string): (r: string)
    ensures |r| == |s|
    ensures forall i :: 0 <= i < |s| ==> r[i] == LowerChar(s[i])
  {
    seq(|s|, i requires 0 <= i < |s| => LowerChar(s[i]))
  }

  predicate IsLower(s: string) {
    forall i :: 0 <= i < |s| ==> !('A' <= s[i] <= 'Z')
  }

  /** Lower-casing leaves no upper-case letter behind, so a second pass changes nothing. */
  lemma ToLowerIdempotent(s: string)
    ensures IsLower(ToLower(s))
    ensures ToLower(ToLower(s)) == ToLower(s)
  {
  }

  /** The position of the first `c` in `s`. */
  function FirstIndex(s: string, c: char): (i: nat)
    requires c in s
    ensures i < |s| && s[i] == c && c !in s[..i]
  {
    if s[0] == c then 0 else 1 + FirstIndex(s[1..], c)
  }

  /** `s.split(sep)` for a one-character separator: the maximal `sep`-free pieces, in order. */
  function Split(s: string, sep: char): (parts: seq<string>)
    ensures |parts| >= 1
    ensures forall k :: 0 <= k < |parts| ==> sep !in parts[k]
    decreases |s|
  {
    if sep !in s then [s]
    else
      var i := FirstIndex(s, sep);
      [s[..i]] + Split(s[i + 1..], sep)
  }

  /** `parts.join(sep)`. */
  function Join(parts: seq<string>, sep: char): string
    requires |parts| >= 1
  {
    if |parts| == 1 then parts[0] else parts[0] + [sep] + Join(parts[1..], sep)
  }

  /** Joining the pieces of a split gives back the original string. */
  lemma {:induction false} JoinSplit(s: string, sep: char)
    ensures Join(Split(s, sep), sep) == s
    decreases |s|
  {
    if sep in s {
      var i := FirstIndex(s, sep);
      var rest := s[i + 1..];
      var parts := Split(s, sep);
      assert parts == [s[..i]] + Split(rest, sep);
      assert parts[1..] == Split(rest, sep);
      JoinSplit(rest, sep);
      assert Join(parts, sep) == s[..i] + [sep] + rest;
      assert s == s[..i] + [sep] + rest;
    }
  }

  /** A split at the first separator: a `sep`-free head is the first piece. */
  lemma SplitAtFirst(x: string, sep: char, y: string)
    requires sep !in x
    ensures Split(x + [sep] + y, sep) == [x] + Split(y, sep)
  {
    var s := x + [sep] + y;
    assert s[|x|] == sep;
    assert s[..|x|] == x;
    assert FirstIndex(s, sep) == |x|;
    assert s[|x| + 1..] == y;
  }

  /** Splitting a join of separator-free pieces gives back the pieces. */
  lemma {:induction false} SplitJoin(parts: seq<string>, sep: char)
    requires |parts| >= 1
    requires forall k :: 0 <= k < |parts| ==> sep !in parts[k]
    ensures Split(Join(parts, sep), sep) == parts
  {
    if |parts| > 1 {
      SplitJoin(parts[1..], sep);
      SplitAtFirst(parts[0], sep, Join(parts[1..], sep));
      assert parts == [parts[0]] + parts[1..];
    }
  }

  /** A text with a `sep`-free head splits at its first `sep` in one way only. */
  lemma SplitAtFirstUnique(x1: string, y1: string, x2: string, y2: string, sep: char)
    requires sep !in x1 && sep !in x2
    requires x1 + [sep] + y1 == x2 + [sep] + y2
    ensures x1 == x2 && y1 == y2
  {
    SplitAtFirst(x1, sep, y1);
    SplitAtFirst(x2, sep, y2);
    assert Split(y1, sep) == ([x1] + Split(y1, sep))[1..];
    assert Split(y2, sep) == ([x2] + Split(y2, sep))[1..];
    JoinSplit(y1, sep);
    JoinSplit(y2, sep);
  }

  function Last<T>(xs: seq<T>): T
    requires |xs| >= 1
  {
    xs[|xs| - 1]
  }

  /** Where the `sep`-free run that ends at `j` begins: just after the last `sep` before `j`, or 0. */
  function SegmentStart(s: string, sep: char, j: nat): (k: nat)
    requires j <= |s|
    ensures k <= j
    ensures forall t :: k <= t < j ==> s[t] != sep
    ensures k > 0 ==> s[k - 1] == sep
  {
    if j == 0 || s[j - 1] == sep then j else SegmentStart(s, sep, j - 1)
  }

  /** `s.split(sep).pop()`: the text after the last `sep`, or all of `s` when it has none. */
  function AfterLast(s: string, sep: char): (r: string)
    ensures sep !in r
    ensures EndsWith(s, r)
    ensures sep in s ==> |r| < |s| && s[|s| - |r| - 1] == sep
    ensures sep !in s ==> r == s
  {
    var k := SegmentStart(s, sep, |s|);
    assert k > 0 ==> s[k - 1] in s;
    assert forall i :: 0 <= i < |s| - k ==> s[k..][i] == s[k + i];
    s[k..]
  }

  /** The text after the last separator of `x + [sep] + y`, when `y` has no separator, is `y`. */
  lemma AfterLastAppend(x: string, sep: char, y: string)
    requires sep !in y
    ensures AfterLast(x + [sep] + y, sep) == y
  {
    var s := x + [sep] + y;
    var r := AfterLast(s, sep);
    assert s[|x|] == sep;
    assert s[|s| - |y|..] == y;
  }
}

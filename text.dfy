/** The JavaScript string operations the modelled code relies on, over `seq<char>`. */
module Text {
  import opened Wrappers

  /** `p` occurs in `s` starting at index `i`. */
  predicate OccursAt(s: string, p: string, i: nat) {
    i + |p| <= |s| && s[i..i + |p|] == p
  }

  /** The first occurrence of `p` in `s` at or after `i` (`String.prototype.indexOf`). */
  function FindFrom(s: string, p: string, i: nat): (r: Option<nat>)
    requires i <= |s|
    ensures r.Some? ==> i <= r.value <= |s| && OccursAt(s, p, r.value)
    ensures r.Some? ==> forall j :: i <= j < r.value ==> !OccursAt(s, p, j)
    ensures r.None? ==> forall j: nat :: i <= j ==> !OccursAt(s, p, j)
    decreases |s| - i
  {
    if OccursAt(s, p, i) then Some(i)
    else if i == |s| then None
    else FindFrom(s, p, i + 1)
  }

  function IndexOf(s: string, p: string): Option<nat> {
    FindFrom(s, p, 0)
  }

  /** The search passes over a position whose character does not start the pattern. */
  lemma FindFromSkip(s: string, p: string, i: nat)
    requires i < |s| && |p| > 0 && s[i] != p[0]
    ensures FindFrom(s, p, i) == FindFrom(s, p, i + 1)
  {
    if i + |p| <= |s| {
      assert s[i..i + |p|][0] == s[i];
    }
  }

  /** The search passes over a stretch none of whose characters starts the pattern. */
  lemma {:induction false} FindFromSkipRun(s: string, p: string, i: nat, j: nat)
    requires i <= j <= |s| && |p| > 0
    requires forall k :: i <= k < j ==> s[k] != p[0]
    ensures FindFrom(s, p, i) == FindFrom(s, p, j)
    decreases j - i
  {
    if i < j {
      FindFromSkip(s, p, i);
      FindFromSkipRun(s, p, i + 1, j);
    }
  }

  /** A one-character pattern occurs exactly where that character stands. */
  lemma OccursAtChar(s: string, c: char)
    ensures forall j: nat :: OccursAt(s, [c], j) <==> j < |s| && s[j] == c
  {
    forall j: nat ensures OccursAt(s, [c], j) <==> j < |s| && s[j] == c {
      if j < |s| { assert s[j..j + 1] == [s[j]]; }
    }
  }

  /** `s.includes(p)`. */
  function Contains(s: string, p: string): (r: bool)
    ensures r <==> exists j: nat :: OccursAt(s, p, j)
  {
    IndexOf(s, p).Some?
  }

  /** `s.startsWith(p)`. */
  predicate StartsWith(s: string, p: string) {
    |p| <= |s| && s[..|p|] == p
  }

  /** `s.endsWith(p)`. */
  predicate EndsWith(s: string, p: string) {
    |p| <= |s| && s[|s| - |p|..] == p
  }

  /** `s.replace(p, rep)` with a string pattern: only the first occurrence is replaced. */
  function ReplaceFirst(s: string, p: string, rep: string): (r: string)
    ensures (forall j: nat :: !OccursAt(s, p, j)) ==> r == s
    ensures forall i: nat :: OccursAt(s, p, i) && (forall j: nat :: j < i ==> !OccursAt(s, p, j)) ==>
              r == s[..i] + rep + s[i + |p|..]
  {
    match IndexOf(s, p)
    case None => s
    case Some(i) => s[..i] + rep + s[i + |p|..]
  }

  /** `s.slice(0, n)`. */
  function Take(s: string, n: nat): (r: string)
    ensures |r| == if |s| <= n then |s| else n
    ensures r <= s
  {
    if |s| <= n then s else s[..n]
  }

  /** `s.replace(/^\//, "")`: one leading slash is removed. */
  function TrimLeadingSlash(s: string): (r: string)
    ensures s == r || s == "/" + r
    ensures |s| > 0 && s[0] == '/' ==> s == "/" + r
  {
    if |s| > 0 && s[0] == '/' then s[1..] else s
  }

  /** The index of the first character at or after `i` that equals `c`, or `|s|`. */
  function SpanNot(s: string, i: nat, c: char): (j: nat)
    requires i <= |s|
    ensures i <= j <= |s|
    ensures j < |s| ==> s[j] == c
    decreases |s| - i
  {
    if i < |s| && s[i] != c then SpanNot(s, i + 1, c) else i
  }

  /** No `c` stands between `i` and `SpanNot(s, i, c)`. */
  lemma {:induction false} SpanNotRun(s: string, i: nat, c: char)
    requires i <= |s|
    ensures forall k :: i <= k < SpanNot(s, i, c) ==> s[k] != c
    decreases |s| - i
  {
    if i < |s| && s[i] != c {
      SpanNotRun(s, i + 1, c);
    }
  }

  /** `SpanNot` is the first `c` at or after `i`, whichever way that index is known. */
  lemma SpanNotIs(s: string, i: nat, c: char, j: nat)
    requires i <= j <= |s|
    requires forall k :: i <= k < j ==> s[k] != c
    requires j == |s| || s[j] == c
    ensures SpanNot(s, i, c) == j
  {
    SpanNotRun(s, i, c);
  }

  /** `s.split(c)` for a one-character separator. */
  function Split(s: string, c: char): (parts: seq<string>)
    ensures |parts| >= 1
    ensures forall k :: 0 <= k < |parts| ==> c !in parts[k]
    decreases |s|
  {
    if |s| == 0 then [""]
    else
      var rest := Split(s[1..], c);
      if s[0] == c then [""] + rest
      else [[s[0]] + rest[0]] + rest[1..]
  }

  /** `parts.join(c)`; the empty array joins to "". */
  function Join(parts: seq<string>, c: char): string
    decreases |parts|
  {
    if |parts| == 0 then ""
    else if |parts| == 1 then parts[0]
    else parts[0] + [c] + Join(parts[1..], c)
  }

  /** Joining what splitting produced gives the string back. */
  lemma {:induction false} JoinSplit(s: string, c: char)
    ensures Join(Split(s, c), c) == s
    decreases |s|
  {
    if |s| > 0 {
      var rest := Split(s[1..], c);
      JoinSplit(s[1..], c);
      if s[0] == c {
        assert Split(s, c) == [""] + rest;
        assert Join([""] + rest, c) == [c] + Join(rest, c);
        assert s == [s[0]] + s[1..];
      } else {
        var parts := Split(s, c);
        assert parts == [[s[0]] + rest[0]] + rest[1..];
        if |rest| == 1 {
          assert Join(parts, c) == [s[0]] + rest[0];
        } else {
          assert parts[1..] == rest[1..];
          assert Join(rest, c) == rest[0] + [c] + Join(rest[1..], c);
          assert Join(parts, c) == [s[0]] + rest[0] + [c] + Join(rest[1..], c);
        }
        assert s == [s[0]] + s[1..];
      }
    }
  }

  /** Splitting a joined list of separator-free parts gives the parts back. */
  lemma {:induction false} SplitJoin(parts: seq<string>, c: char)
    requires |parts| >= 1
    requires forall k :: 0 <= k < |parts| ==> c !in parts[k]
    ensures Split(Join(parts, c), c) == parts
    decreases |parts|, |parts[0]|
  {
    var j := Join(parts, c);
    if |parts[0]| > 0 {
      var p0 := parts[0];
      var tail := [p0[1..]] + parts[1..];
      JoinFirstChar(parts, c);
      SplitJoin(tail, c);
      SplitCons(p0[0], Join(tail, c), c);
      assert tail[1..] == parts[1..];
      assert p0 == [p0[0]] + p0[1..];
    } else if |parts| > 1 {
      assert j == [c] + Join(parts[1..], c);
      assert j[1..] == Join(parts[1..], c);
      SplitJoin(parts[1..], c);
      assert parts == [""] + parts[1..];
    }
  }

  /** Splitting a string that starts with a character other than the separator. */
  lemma SplitCons(x: char, t: string, c: char)
    requires x != c
    ensures Split([x] + t, c) == [[x] + Split(t, c)[0]] + Split(t, c)[1..]
  {
    assert ([x] + t)[1..] == t;
  }

  /** A join whose first part is not empty starts with that part's first character. */
  lemma JoinFirstChar(parts: seq<string>, c: char)
    requires |parts| >= 1 && |parts[0]| > 0
    ensures Join(parts, c) == [parts[0][0]] + Join([parts[0][1..]] + parts[1..], c)
  {
    var p0 := parts[0];
    var tail := [p0[1..]] + parts[1..];
    assert tail[0] == p0[1..] && tail[1..] == parts[1..];
    assert p0 == [p0[0]] + p0[1..];
    if |parts| > 1 {
      var rest := Join(parts[1..], c);
      assert Join(tail, c) == p0[1..] + [c] + rest;
      assert Join(parts, c) == p0 + [c] + rest;
      assert p0 + [c] + rest == [p0[0]] + (p0[1..] + [c] + rest);
    }
  }

  /** Split on a string whose first separator is at `i`: the first part, then the split of the rest. */
  lemma SplitAtFirst(s: string, c: char, i: nat)
    requires i < |s| && s[i] == c && c !in s[..i]
    ensures Split(s, c) == [s[..i]] + Split(s[i + 1..], c)
    decreases i
  {
    if i > 0 {
      assert s[1..][..i - 1] == s[1..i];
      assert s[1..][i - 1..] == s[i..];
      SplitAtFirst(s[1..], c, i - 1);
      assert s[1..][i..] == s[i + 1..];
      assert s[..i] == [s[0]] + s[1..i];
    }
  }

  /** Split of a string without the separator is the string itself. */
  lemma SplitNoSeparator(s: string, c: char)
    requires c !in s
    ensures Split(s, c) == [s]
    decreases |s|
  {
    if |s| > 0 {
      SplitNoSeparator(s[1..], c);
      assert s == [s[0]] + s[1..];
    }
  }

  /** Appending a separator and a separator-free part appends that part to the split. */
  lemma {:induction false} SplitAppend(a: string, c: char, b: string)
    requires c !in b
    ensures Split(a + [c] + b, c) == Split(a, c) + [b]
    decreases |a|
  {
    var s := a + [c] + b;
    if |a| == 0 {
      assert s == [c] + b;
      assert s[1..] == b;
      SplitNoSeparator(b, c);
    } else {
      assert s[1..] == a[1..] + [c] + b;
      SplitAppend(a[1..], c, b);
      var rest := Split(a[1..], c);
      if a[0] != c {
        assert Split(a, c) == [[a[0]] + rest[0]] + rest[1..];
      }
    }
  }

  /** `s.split(c).pop()`: the text after the last separator. */
  function LastSegment(s: string, c: char): string {
    var parts := Split(s, c);
    parts[|parts| - 1]
  }

  /** The last segment has no separator, ends `s`, and is the whole of `s` or follows a separator. */
  lemma {:induction false} LastSegmentSuffix(s: string, c: char)
    ensures c !in LastSegment(s, c)
    ensures EndsWith(s, LastSegment(s, c))
    ensures |LastSegment(s, c)| == |s| || s[|s| - |LastSegment(s, c)| - 1] == c
    decreases |s|
  {
    var i := SpanNot(s, 0, c);
    SpanNotRun(s, 0, c);
    if i < |s| {
      assert s[..i] == s[0..i];
      LastSegmentAfterFirst(s, c, i);
      LastSegmentSuffix(s[i + 1..], c);
      SuffixAfterSeparator(s, c, i, LastSegment(s, c));
    } else {
      assert c !in s;
      SplitNoSeparator(s, c);
    }
  }

  /** The last segment of `s` is that of the text after its first separator. */
  lemma LastSegmentAfterFirst(s: string, c: char, i: nat)
    requires i < |s| && s[i] == c && c !in s[..i]
    ensures LastSegment(s, c) == LastSegment(s[i + 1..], c)
  {
    SplitAtFirst(s, c, i);
  }

  /** A suffix of the text after a separator that starts it or follows a separator is such a suffix of `s`. */
  lemma SuffixAfterSeparator(s: string, c: char, i: nat, w: string)
    requires i < |s| && s[i] == c
    requires EndsWith(s[i + 1..], w)
    requires |w| == |s[i + 1..]| || s[i + 1..][|s[i + 1..]| - |w| - 1] == c
    ensures EndsWith(s, w)
    ensures |w| == |s| || s[|s| - |w| - 1] == c
  {
    var t := s[i + 1..];
    assert s[|s| - |w|..] == t[|t| - |w|..];
    if |w| < |t| {
      assert s[|s| - |w| - 1] == t[|t| - |w| - 1];
    }
  }

  /** The number a string of decimal digits stands for, most significant digit first. */
  function DecimalValue(r: string): int {
    if |r| == 0 then 0 else 10 * DecimalValue(r[..|r| - 1]) + (r[|r| - 1] as int - '0' as int)
  }

  /**
   * The decimal rendering of a number, as a template literal prints it: digits
   * only, no leading zero, and standing for the number itself.
   */
  function NatToString(n: nat): (r: string)
    ensures |r| >= 1
    ensures forall k :: 0 <= k < |r| ==> '0' <= r[k] <= '9'
    ensures |r| > 1 ==> r[0] != '0'
    ensures DecimalValue(r) == n
  {
    if n < 10 then [Digit(n)]
    else
      var t := NatToString(n / 10);
      assert (t + [Digit(n % 10)])[..|t|] == t;
      t + [Digit(n % 10)]
  }

  function Digit(d: nat): (c: char)
    requires d < 10
    ensures '0' <= c <= '9'
    ensures c as int - '0' as int == d
  {
    ['0', '1', '2', '3', '4', '5', '6', '7', '8', '9'][d]
  }
}

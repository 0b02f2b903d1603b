/** Python's built-in string operations, as the feedback tool uses them:
    `sub in s`, `str.find`, `str.split(sep)` with an explicit separator,
    `sep.join(parts)` and `str.strip()` with no argument. */
module PyStr {

  /** `c.isspace()`: the characters Python treats as whitespace. */
  predicate IsSpace(c: char) {
    ('\U{9}' <= c <= '\U{D}') || ('\U{1C}' <= c <= '\U{20}') || c == '\U{85}' || c == '\U{A0}'
    || c == '\U{1680}' || ('\U{2000}' <= c <= '\U{200A}') || c == '\U{2028}' || c == '\U{2029}'
    || c == '\U{202F}' || c == '\U{205F}' || c == '\U{3000}'
  }

  predicate AllSpace(s: string) {
    forall i | 0 <= i < |s| :: IsSpace(s[i])
  }

  /** No leading and no trailing whitespace. */
  predicate IsStripped(s: string) {
    s == [] || (!IsSpace(s[0]) && !IsSpace(s[|s| - 1]))
  }

  /** `sub` occurs in `s` starting at index `i`. */
  predicate IsAt(s: string, sub: string, i: int) {
    0 <= i && i + |sub| <= |s| && s[i..i + |sub|] == sub
  }

  /** `sub in s` */
  predicate Contains(s: string, sub: string)
    ensures Contains(s, sub) ==> |sub| <= |s|
    ensures sub == [] ==> Contains(s, sub)
  {
    assert sub == [] ==> IsAt(s, sub, 0);
    exists i | 0 <= i <= |s| - |sub| :: IsAt(s, sub, i)
  }

  /** Leftmost occurrence of `sub` in `s` at or after `k`, or -1. */
  function FindFrom(s: string, sub: string, k: nat): (r: int)
    requires k <= |s|
    ensures r == -1 || (k <= r && IsAt(s, sub, r))
    ensures forall j | k <= j && (r == -1 || j < r) :: !IsAt(s, sub, j)
    decreases |s| - k
  {
    if k + |sub| > |s| then -1
    else if IsAt(s, sub, k) then k
    else FindFrom(s, sub, k + 1)
  }

  /** `s.find(sub)`: the leftmost index of `sub` in `s`, or -1. */
  function Find(s: string, sub: string): (r: int)
    ensures r >= 0 <==> Contains(s, sub)
    ensures r >= 0 ==> IsAt(s, sub, r)
    ensures forall j | 0 <= j < r :: !IsAt(s, sub, j)
  {
    FindFrom(s, sub, 0)
  }

  /** `sep.join(parts)`: the parts in order, with `sep` between each two. */
  function Join(sep: string, parts: seq<string>): (r: string)
    ensures parts == [] ==> r == ""
    ensures |parts| >= 2 ==> |r| >= |parts[0]| + |sep|
  {
    if |parts| == 0 then ""
    else if |parts| == 1 then parts[0]
    else parts[0] + sep + Join(sep, parts[1..])
  }

  /** `s.split(sep)` for a non-empty separator: the pieces between the
      non-overlapping occurrences of `sep`, scanning from the left. There are
      at least two pieces exactly when `sep` occurs, and the first piece ends
      where the first occurrence starts. */
  function Split(s: string, sep: string): (r: seq<string>)
    requires sep != ""
    ensures |r| >= 1
    ensures |r| >= 2 <==> Contains(s, sep)
    ensures |r| == 1 ==> r[0] == s
    ensures |r| >= 2 ==> IsAt(s, sep, |r[0]|) && |r[0]| == Find(s, sep)
    decreases |s|
  {
    var i := Find(s, sep);
    if i < 0 then [s] else [s[..i]] + Split(s[i + |sep|..], sep)
  }

  /** Joining the pieces with the separator gives back the split text, and no
      piece holds the separator. */
  lemma {:induction false} SplitInverse(s: string, sep: string)
    requires sep != ""
    ensures Join(sep, Split(s, sep)) == s
    ensures forall k | 0 <= k < |Split(s, sep)| :: !Contains(Split(s, sep)[k], sep)
    decreases |s|
  {
    var i := Find(s, sep);
    if i >= 0 {
      var rest := s[i + |sep|..];
      SplitInverse(rest, sep);
      NoMatchBefore(s, sep, i);
      assert Split(s, sep) == [s[..i]] + Split(rest, sep);
      assert s == s[..i] + sep + rest;
    }
  }

  /** A prefix that ends before the first occurrence holds no occurrence. */
  lemma NoMatchBefore(s: string, sep: string, i: nat)
    requires sep != "" && i <= |s|
    requires forall j | 0 <= j < i :: !IsAt(s, sep, j)
    ensures !Contains(s[..i], sep)
  {
    forall j | 0 <= j <= i - |sep| ensures !IsAt(s[..i], sep, j) {
      assert s[..i][j..j + |sep|] == s[j..j + |sep|];
      assert !IsAt(s, sep, j);
    }
  }

  /** Number of leading whitespace characters. */
  function LeadingSpaces(s: string): (n: nat)
    ensures n <= |s| && forall k | 0 <= k < n :: IsSpace(s[k])
    ensures n < |s| ==> !IsSpace(s[n])
  {
    if |s| > 0 && IsSpace(s[0]) then 1 + LeadingSpaces(s[1..]) else 0
  }

  /** Number of trailing whitespace characters. */
  function TrailingSpaces(s: string): (n: nat)
    ensures n <= |s| && forall k | |s| - n <= k < |s| :: IsSpace(s[k])
    ensures n < |s| ==> !IsSpace(s[|s| - n - 1])
  {
    if |s| > 0 && IsSpace(s[|s| - 1]) then 1 + TrailingSpaces(s[..|s| - 1]) else 0
  }

  /** `s.strip()`: `s` without its leading and trailing whitespace. */
  function Strip(s: string): (r: string)
    ensures |r| <= |s| && IsStripped(r)
  {
    var lo := LeadingSpaces(s);
    if lo == |s| then "" else s[lo..|s| - TrailingSpaces(s)]
  }

  /** The stripped text has no surrounding whitespace, is empty exactly when
      the text is all whitespace, and is what remains of the text once its
      leading whitespace and some trailing whitespace are removed. */
  lemma StripSpec(s: string)
    ensures IsStripped(Strip(s))
    ensures Strip(s) == "" <==> AllSpace(s)
    ensures var i := LeadingSpaces(s);
      IsAt(s, Strip(s), i) && AllSpace(s[..i]) && AllSpace(s[i + |Strip(s)|..])
  {
    var lo := LeadingSpaces(s);
    var t := TrailingSpaces(s);
    assert AllSpace(s[..lo]) by {
      forall k | 0 <= k < lo ensures IsSpace(s[..lo][k]) {
        assert s[..lo][k] == s[k];
      }
    }
    if lo == |s| {
      assert s[..lo] == s;
    } else {
      var hi := |s| - t;
      assert !IsSpace(s[lo]);
      assert lo < hi;
      assert AllSpace(s[hi..]) by {
        forall k | 0 <= k < |s| - hi ensures IsSpace(s[hi..][k]) {
          assert s[hi..][k] == s[hi + k];
        }
      }
    }
  }

  /** The count of leading spaces is the unique `n` below which all is
      whitespace and at which a non-space character stands. */
  lemma LeadingSpacesIs(s: string, n: nat)
    requires n <= |s| && (forall k | 0 <= k < n :: IsSpace(s[k])) && (n < |s| ==> !IsSpace(s[n]))
    ensures LeadingSpaces(s) == n
  {
  }

  lemma TrailingSpacesIs(s: string, n: nat)
    requires n <= |s| && (forall k | |s| - n <= k < |s| :: IsSpace(s[k]))
    requires n < |s| ==> !IsSpace(s[|s| - n - 1])
    ensures TrailingSpaces(s) == n
  {
  }

  /** Strip removes exactly the surrounding whitespace: whatever stripped text
      is wrapped in whitespace, stripping gives it back. */
  lemma StripOf(a: string, m: string, b: string)
    requires AllSpace(a) && AllSpace(b) && IsStripped(m)
    ensures Strip(a + m + b) == m
  {
    var s := a + m + b;
    assert forall k | 0 <= k < |a| :: s[k] == a[k];
    assert forall k | |a| + |m| <= k < |s| :: s[k] == b[k - |a| - |m|];
    if m == "" {
      LeadingSpacesIs(s, |s|);
    } else {
      assert s[|a|] == m[0];
      LeadingSpacesIs(s, |a|);
      assert s[|s| - |b| - 1] == m[|m| - 1];
      TrailingSpacesIs(s, |b|);
      assert s[|a|..|s| - |b|] == m;
    }
  }

  lemma StripIdempotent(s: string)
    ensures Strip(Strip(s)) == Strip(s)
  {
  }

  /** An occurrence inside an occurrence is an occurrence. */
  lemma ContainsTrans(s: string, t: string, u: string)
    requires Contains(s, t) && Contains(t, u)
    ensures Contains(s, u)
  {
    var i :| 0 <= i <= |s| - |t| && IsAt(s, t, i);
    var j :| 0 <= j <= |t| - |u| && IsAt(t, u, j);
    forall k | 0 <= k < |u| ensures s[i + j + k] == u[k] {
      assert t[j + k] == u[k];
      assert s[i..i + |t|][j + k] == s[i + j + k];
    }
    assert s[i + j..i + j + |u|] == u;
    assert IsAt(s, u, i + j);
  }

  lemma StripInfix(s: string)
    ensures Contains(s, Strip(s))
  {
    StripSpec(s);
    assert IsAt(s, Strip(s), LeadingSpaces(s));
  }

  /** Every part of a join is a substring of it. */
  lemma {:induction false} JoinContainsPart(sep: string, parts: seq<string>, k: nat)
    requires k < |parts|
    ensures Contains(Join(sep, parts), parts[k])
  {
    var s := Join(sep, parts);
    if |parts| == 1 {
      assert IsAt(s, parts[0], 0);
    } else if k == 0 {
      assert IsAt(s, parts[0], 0);
    } else {
      var rest := Join(sep, parts[1..]);
      JoinContainsPart(sep, parts[1..], k - 1);
      assert IsAt(s, rest, |parts[0]| + |sep|);
      ContainsTrans(s, rest, parts[k]);
    }
  }

  /** Every piece that `split` returns is a substring of the split text. */
  lemma SplitPieceInfix(s: string, sep: string, k: nat)
    requires sep != "" && k < |Split(s, sep)|
    ensures Contains(s, Split(s, sep)[k])
  {
    SplitInverse(s, sep);
    JoinContainsPart(sep, Split(s, sep), k);
  }

  /** Joining one more part appends the separator and that part. */
  lemma {:induction false} JoinSnoc(sep: string, parts: seq<string>, x: string)
    ensures Join(sep, parts + [x]) == if parts == [] then x else Join(sep, parts) + sep + x
  {
    if |parts| >= 2 {
      assert (parts + [x])[1..] == parts[1..] + [x];
      JoinSnoc(sep, parts[1..], x);
      assert Join(sep, parts + [x]) == parts[0] + sep + Join(sep, parts[1..] + [x]);
    } else if |parts| == 1 {
      assert (parts + [x])[1..] == [x];
      assert Join(sep, parts + [x]) == parts[0] + sep + x;
    }
  }

  /** If `a` holds no occurrence of `sep`, even with all but the last character
      of `sep` appended, then the first occurrence in `a + sep + b` is at `|a|`. */
  lemma FindAt(a: string, sep: string, b: string)
    requires sep != ""
    requires !Contains(a + sep[..|sep| - 1], sep)
    ensures Find(a + sep + b, sep) == |a|
  {
    var s := a + sep + b;
    var t := a + sep[..|sep| - 1];
    assert s[|a|..|a| + |sep|] == sep;
    assert IsAt(s, sep, |a|);
    forall j | 0 <= j < |a| ensures !IsAt(s, sep, j) {
      assert s[j..j + |sep|] == t[j..j + |sep|];
      assert !IsAt(t, sep, j);
    }
  }

  /** `sep`'s last character occurs nowhere else in it, so two occurrences
      of `sep` never overlap. */
  predicate LastCharUnique(sep: string) {
    sep != "" && forall k | 0 <= k < |sep| - 1 :: sep[k] != sep[|sep| - 1]
  }

  lemma NoOverlap(a: string, sep: string)
    requires LastCharUnique(sep) && !Contains(a, sep)
    ensures !Contains(a + sep[..|sep| - 1], sep)
  {
    var t := a + sep[..|sep| - 1];
    forall j | 0 <= j <= |t| - |sep| ensures !IsAt(t, sep, j) {
      if j + |sep| <= |a| {
        assert a[j..j + |sep|] == t[j..j + |sep|];
        assert !IsAt(a, sep, j);
      } else {
        var p := j + |sep| - 1;
        assert t[p] == sep[p - |a|];
        assert t[j..j + |sep|][|sep| - 1] == t[p];
      }
    }
  }

  /** Splitting a join gives back the parts, as long as no part holds the
      separator, even together with the start of a following separator. */
  lemma {:induction false} SplitJoin(sep: string, parts: seq<string>)
    requires sep != "" && |parts| >= 1
    requires forall k | 0 <= k < |parts| :: !Contains(parts[k] + sep[..|sep| - 1], sep)
    ensures Split(Join(sep, parts), sep) == parts
  {
    if |parts| == 1 {
      var t := parts[0] + sep[..|sep| - 1];
      forall j | 0 <= j <= |parts[0]| - |sep| ensures !IsAt(parts[0], sep, j) {
        assert t[j..j + |sep|] == parts[0][j..j + |sep|];
        assert !IsAt(t, sep, j);
      }
    } else {
      var rest := Join(sep, parts[1..]);
      assert Join(sep, parts) == parts[0] + sep + rest;
      FindAt(parts[0], sep, rest);
      SplitJoin(sep, parts[1..]);
      var s := parts[0] + sep + rest;
      assert s[..|parts[0]|] == parts[0];
      assert s[|parts[0]| + |sep|..] == rest;
      assert Split(s, sep) == [parts[0]] + Split(rest, sep);
      assert [parts[0]] + parts[1..] == parts;
    }
  }

  /** Splitting at a first occurrence that does not overlap an earlier one
      gives the text before it, then the pieces of the text after it. */
  lemma SplitAtFirst(a: string, sep: string, b: string)
    requires LastCharUnique(sep) && !Contains(a, sep)
    ensures Split(a + sep + b, sep) == [a] + Split(b, sep)
  {
    NoOverlap(a, sep);
    FindAt(a, sep, b);
    var s := a + sep + b;
    assert s[..|a|] == a;
    assert s[|a| + |sep|..] == b;
  }

  /** When `a` holds no `sep` and `c` is not a character of `sep`, the first
      piece of `a + [c] + b` runs at least through `c`. */
  lemma FirstPieceCovers(a: string, c: char, b: string, sep: string)
    requires sep != "" && !Contains(a, sep) && c !in sep
    ensures |Split(a + [c] + b, sep)[0]| > |a|
    ensures Split(a + [c] + b, sep)[0][..|a| + 1] == a + [c]
  {
    var s := a + [c] + b;
    forall j | 0 <= j <= |a| ensures !IsAt(s, sep, j) {
      if j + |sep| <= |a| {
        assert s[j..j + |sep|] == a[j..j + |sep|];
        assert !IsAt(a, sep, j);
      } else if j + |sep| <= |s| {
        assert s[j..j + |sep|][|a| - j] == s[|a|] == c;
      }
    }
    var f := Find(s, sep);
    assert f < 0 || f > |a|;
    assert s[..|a| + 1] == a + [c];
  }

  /** For a one-character separator, splitting a join gives back the parts
      exactly when no part holds the separator. */
  lemma SplitJoinChar(sep: string, parts: seq<string>)
    requires |sep| == 1 && |parts| >= 1
    requires forall k | 0 <= k < |parts| :: !Contains(parts[k], sep)
    ensures Split(Join(sep, parts), sep) == parts
  {
    forall k | 0 <= k < |parts| ensures !Contains(parts[k] + sep[..|sep| - 1], sep) {
      assert parts[k] + sep[..|sep| - 1] == parts[k];
    }
    SplitJoin(sep, parts);
  }
}

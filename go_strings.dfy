/**
 * The parts of Go's `strings` package that the core relies on, over `seq<char>`.
 * Indices count characters rather than UTF-8 bytes; every use in the core only
 * slices at those indices or compares them with 0, so the difference is unobservable.
 */
module GoStrings {

  /** `sub` occurs in `s` starting at index `i`. */
  predicate OccursAt(s: string, sub: string, i: int)
  {
    0 <= i && i + |sub| <= |s| && s[i..i + |sub|] == sub
  }

  /** `sub` occurs in `s` at some index. */
  ghost predicate Occurs(s: string, sub: string)
  {
    exists i :: OccursAt(s, sub, i)
  }

  /** The empty string occurs in every string. */
  lemma OccursEmpty(s: string)
    ensures Occurs(s, "")
  {
    assert OccursAt(s, "", 0);
  }

  /** An occurrence inside `b` is an occurrence inside any string that has `b` as an infix. */
  lemma OccursInfix(a: string, b: string, c: string, sub: string)
    requires Occurs(b, sub)
    ensures Occurs(a + b + c, sub)
  {
    var i :| OccursAt(b, sub, i);
    var s := a + b + c;
    assert s[|a| + i..|a| + i + |sub|] == b[i..i + |sub|];
    assert OccursAt(s, sub, |a| + i);
  }

  /** A one-character string occurs exactly where that character is. */
  lemma OccursChar(s: string, ch: char)
    ensures Occurs(s, [ch]) <==> ch in s
  {
    if ch in s {
      var k :| 0 <= k < |s| && s[k] == ch;
      assert s[k..k + 1] == [ch];
      assert OccursAt(s, [ch], k);
    }
    if Occurs(s, [ch]) {
      var k :| OccursAt(s, [ch], k);
      assert s[k] == s[k..k + 1][0];
    }
  }

  /** The first index at or after `i` where `sub` occurs, or -1. */
  function IndexFrom(s: string, sub: string, i: nat): (r: int)
    requires i <= |s|
    ensures r == -1 ==> forall j :: i <= j ==> !OccursAt(s, sub, j)
    ensures r != -1 ==> i <= r && OccursAt(s, sub, r)
    ensures r != -1 ==> forall j :: i <= j < r ==> !OccursAt(s, sub, j)
    decreases |s| - i
  {
    if OccursAt(s, sub, i) then i
    else if i == |s| then -1
    else IndexFrom(s, sub, i + 1)
  }

  /** `strings.Index`: the index of the first occurrence of `sub` in `s`, or -1 when there is none. */
  function Index(s: string, sub: string): (r: int)
    ensures r == -1 <==> !Occurs(s, sub)
    ensures r != -1 ==> OccursAt(s, sub, r) && forall j :: 0 <= j < r ==> !OccursAt(s, sub, j)
  {
    IndexFrom(s, sub, 0)
  }

  /** `strings.HasSuffix`. */
  predicate HasSuffix(s: string, suffix: string)
  {
    |suffix| <= |s| && s[|s| - |suffix|..] == suffix
  }

  /**
   * `strings.SplitN` for a positive count and a non-empty separator: at most `n`
   * pieces, split at the leftmost occurrences, the last piece unsplit.
   */
  function SplitN(s: string, sep: string, n: nat): (parts: seq<string>)
    requires |sep| > 0 && n > 0
    ensures 1 <= |parts| <= n
    decreases |s|
  {
    var i := Index(s, sep);
    if n == 1 || i < 0 then [s]
    else [s[..i]] + SplitN(s[i + |sep|..], sep, n - 1)
  }

  /** `strings.Join`. */
  function Join(parts: seq<string>, sep: string): (s: string)
    ensures |parts| == 0 ==> s == ""
    ensures |parts| > 0 ==> parts[0] <= s && HasSuffix(s, parts[|parts| - 1])
  {
    if |parts| == 0 then ""
    else if |parts| == 1 then parts[0]
    else parts[0] + sep + Join(parts[1..], sep)
  }

  /** A string is its text before an occurrence, the occurrence and the text after it. */
  lemma SplitAt(s: string, sub: string, i: int)
    requires OccursAt(s, sub, i)
    ensures s == s[..i] + sub + s[i + |sub|..]
  {
    assert s[i..i + |sub|] == sub;
    assert s == s[..i] + s[i..i + |sub|] + s[i + |sub|..];
  }

  /** Joining a part in front of at least one more puts a separator between them. */
  lemma JoinCons(head: string, tail: seq<string>, sep: string)
    requires |tail| > 0
    ensures Join([head] + tail, sep) == head + sep + Join(tail, sep)
  {
    assert ([head] + tail)[1..] == tail;
  }

  /** Splitting and joining again with the same separator gives back the input. */
  lemma {:induction false} JoinSplitN(s: string, sep: string, n: nat)
    requires |sep| > 0 && n > 0
    ensures Join(SplitN(s, sep, n), sep) == s
    decreases |s|
  {
    var i := Index(s, sep);
    if n > 1 && i >= 0 {
      var rest := s[i + |sep|..];
      JoinSplitN(rest, sep, n - 1);
      JoinCons(s[..i], SplitN(rest, sep, n - 1), sep);
      SplitAt(s, sep, i);
    }
  }

  /** The text before the first occurrence of `sub` is free of `sub`. */
  lemma BeforeFirst(s: string, sub: string)
    requires |sub| > 0 && Index(s, sub) >= 0
    ensures !Occurs(s[..Index(s, sub)], sub)
  {
    var i := Index(s, sub);
    if Occurs(s[..i], sub) {
      var j :| OccursAt(s[..i], sub, j);
      assert s[..i][j..j + |sub|] == s[j..j + |sub|];
      assert OccursAt(s, sub, j) && j < i;
      assert false;
    }
  }

  /** Every part occurs in the joined string. */
  lemma {:induction false} JoinOccurs(parts: seq<string>, sep: string, k: nat)
    requires k < |parts|
    ensures Occurs(Join(parts, sep), parts[k])
  {
    var joined := Join(parts, sep);
    if |parts| == 1 {
      assert joined == parts[0];
      assert OccursAt(joined, parts[0], 0);
    } else {
      var tail := Join(parts[1..], sep);
      assert joined == parts[0] + sep + tail;
      if k == 0 {
        assert joined[..|parts[0]|] == parts[0];
        assert OccursAt(joined, parts[0], 0);
      } else {
        assert parts[1..][k - 1] == parts[k];
        JoinOccurs(parts[1..], sep, k - 1);
        OccursInfix(parts[0] + sep, tail, "", parts[k]);
        assert parts[0] + sep + tail + "" == joined;
      }
    }
  }

  /**
   * Go's `<` on strings: byte-wise lexicographic order on the UTF-8 encoding, which
   * coincides with lexicographic order on code points.
   */
  predicate Less(a: string, b: string)
  {
    if |a| == 0 then |b| > 0
    else if |b| == 0 then false
    else a[0] < b[0] || (a[0] == b[0] && Less(a[1..], b[1..]))
  }

  lemma {:induction false} LessIrreflexive(a: string)
    ensures !Less(a, a)
  {
    if |a| > 0 {
      LessIrreflexive(a[1..]);
    }
  }

  lemma {:induction false} LessTransitive(a: string, b: string, c: string)
    requires Less(a, b) && Less(b, c)
    ensures Less(a, c)
  {
    if |a| > 0 && a[0] == b[0] && b[0] == c[0] {
      LessTransitive(a[1..], b[1..], c[1..]);
    }
  }

  lemma {:induction false} LessTotal(a: string, b: string)
    ensures a == b || Less(a, b) || Less(b, a)
  {
    if |a| > 0 && |b| > 0 && a[0] == b[0] {
      LessTotal(a[1..], b[1..]);
      if a[1..] == b[1..] {
        assert a == [a[0]] + a[1..] && b == [b[0]] + b[1..];
      }
    }
  }
}

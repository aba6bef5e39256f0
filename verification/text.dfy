/** Text operations the service relies on: Python's ordering of `str` values,
    prefix tests, the SQL `LIKE` prefix test that SQLAlchemy's `startswith`
    emits, and `str.join`. */
module Text {

  /** Python's `a < b` on `str`: lexicographic by code point, and a proper
      prefix sorts before the longer string. */
  predicate Less(a: string, b: string)
    ensures Less(a, b) ==> a != b
    ensures |a| < |b| && b[..|a|] == a ==> Less(a, b)
  {
    if |a| == 0 then |b| > 0
    else if |b| == 0 then false
    else a[0] < b[0] || (a[0] == b[0] && Less(a[1..], b[1..]))
  }

  lemma {:induction false} LessIrreflexive(a: string)
    ensures !Less(a, a)
  {
    if |a| > 0 {
      LessIrreflexive(a[1..]);
    }
  }

  lemma {:induction false} LessTransitive(a: string, b: string, c: string)
    requires Less(a, b) && Less(b, c)
    ensures Less(a, c)
  {
    if |a| > 0 && |b| > 0 && |c| > 0 && a[0] == b[0] == c[0] {
      LessTransitive(a[1..], b[1..], c[1..]);
    }
  }

  /** Any two distinct strings are ordered one way or the other. */
  lemma {:induction false} LessTotal(a: string, b: string)
    ensures a == b || Less(a, b) || Less(b, a)
  {
    if |a| > 0 && |b| > 0 && a[0] == b[0] {
      LessTotal(a[1..], b[1..]);
      if a[1..] == b[1..] {
        assert a == [a[0]] + a[1..] && b == [b[0]] + b[1..];
      }
    }
  }

  lemma {:induction false} LessAsymmetric(a: string, b: string)
    requires Less(a, b)
    ensures !Less(b, a)
  {
    if |a| > 0 && |b| > 0 && a[0] == b[0] {
      LessAsymmetric(a[1..], b[1..]);
    }
  }

  /** Python's `s.startswith(p)`. */
  predicate StartsWith(s: string, p: string) {
    |p| <= |s| && s[..|p|] == p
  }

  /** SQL `s LIKE p || '%'` for a pattern `p` with no `%` and no letters:
      `_` matches any one character, every other character matches itself,
      and the trailing `%` matches whatever follows. */
  predicate LikePrefix(s: string, p: string)
    ensures '_' !in p ==> (LikePrefix(s, p) <==> StartsWith(s, p))
  {
    |p| <= |s| && forall i :: 0 <= i < |p| ==> p[i] == '_' || p[i] == s[i]
  }

  /** The pattern `__` matches every string of two or more characters. */
  lemma LikeDoubleUnderscore(s: string)
    ensures LikePrefix(s, "__") <==> |s| >= 2
  {
  }

  /** Total length of `parts`. */
  function Length(parts: seq<string>): nat {
    if |parts| == 0 then 0 else |parts[0]| + Length(parts[1..])
  }

  /** Python's `sep.join(parts)`: the parts in order with one separator between
      each neighbouring pair. */
  function Join(parts: seq<string>, sep: string): (r: string)
    ensures |parts| > 0 ==> |r| == Length(parts) + (|parts| - 1) * |sep|
    ensures |parts| > 0 ==> r[..|parts[0]|] == parts[0]
    ensures |parts| == 0 ==> r == ""
  {
    if |parts| == 0 then ""
    else if |parts| == 1 then parts[0]
    else parts[0] + sep + Join(parts[1..], sep)
  }
}

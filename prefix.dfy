/** Prefix test on text, as `str::starts_with` with a `&str` pattern performs it:
    the pattern is compared with the start of the text element by element, and a
    text shorter than the pattern never matches. */
module Prefix {

  /** `s` starts with `p`: every element of `p` agrees with the element of `s` at the
      same position. An empty pattern matches every text. */
  predicate StartsWith<T(==)>(s: seq<T>, p: seq<T>)
    decreases p
  {
    |p| == 0 || (|s| > 0 && s[0] == p[0] && StartsWith(s[1..], p[1..]))
  }

  /** The element-by-element test agrees with Dafny's own prefix relation, in both
      directions: `s` starts with `p` exactly when `p` is a prefix of `s`. */
  lemma {:induction false} StartsWithIsPrefix<T>(s: seq<T>, p: seq<T>)
    ensures StartsWith(s, p) <==> p <= s
    decreases p
  {
    if |p| > 0 && |s| > 0 {
      StartsWithIsPrefix(s[1..], p[1..]);
      if p <= s {
        assert p[1..] <= s[1..];
      }
    }
  }

  /** Whatever follows it, a pattern is a prefix of itself followed by more text. */
  lemma {:induction false} StartsWithOwnPrefix<T>(p: seq<T>, rest: seq<T>)
    ensures StartsWith(p + rest, p)
  {
    StartsWithIsPrefix(p + rest, p);
  }

  /** A text shorter than the pattern never starts with it. */
  lemma {:induction false} ShorterNeverMatches<T>(s: seq<T>, p: seq<T>)
    requires |s| < |p|
    ensures !StartsWith(s, p)
    decreases p
  {
    if |s| > 0 {
      ShorterNeverMatches(s[1..], p[1..]);
    }
  }

  /** Starting with a text that starts with `p` means starting with `p`. */
  lemma {:induction false} StartsWithTransitive<T>(s: seq<T>, q: seq<T>, p: seq<T>)
    requires StartsWith(s, q) && StartsWith(q, p)
    ensures StartsWith(s, p)
    decreases p
  {
    if |p| > 0 {
      StartsWithTransitive(s[1..], q[1..], p[1..]);
    }
  }
}

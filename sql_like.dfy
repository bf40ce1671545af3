/**
 * The pieces of SQLite's query language that the keyword search relies on:
 * `lower(x)` and `x LIKE pattern`. Both fold ASCII letters only, which is
 * SQLite's behaviour without the ICU extension. Python's `str.lower()` on
 * the keyword is modelled by the same ASCII folding.
 */
module SqlLike {

  /** ASCII case folding: `A`..`Z` become `a`..`z`, every other character stays. */
  function Fold(c: char): char {
    if 'A' <= c <= 'Z' then (c as int + 32) as char else c
  }

  /**
   * `lower(s)`: every ASCII capital replaced by its small letter, so no
   * ASCII capital remains and no other character changes.
   */
  function Lower(s: string): (r: string)
    ensures |r| == |s|
    ensures forall k :: 0 <= k < |s| ==> r[k] == Fold(s[k])
    ensures forall k :: 0 <= k < |r| ==> !('A' <= r[k] <= 'Z')
    ensures forall k :: 0 <= k < |s| && !('A' <= s[k] <= 'Z') ==> r[k] == s[k]
  {
    seq(|s|, k requires 0 <= k < |s| => Fold(s[k]))
  }

  predicate IsWildcard(c: char) {
    c == '%' || c == '_'
  }

  predicate NoWildcards(p: string) {
    forall k :: 0 <= k < |p| ==> !IsWildcard(p[k])
  }

  /**
   * `s LIKE p` with no ESCAPE clause: `%` matches any run of characters,
   * `_` any single character, and every other pattern character matches
   * a character that is equal to it up to ASCII case. So a pattern without
   * wildcards matches exactly the strings equal to it up to ASCII case.
   */
  predicate Like(s: string, p: string)
    ensures NoWildcards(p) ==> (Like(s, p) <==> Lower(s) == Lower(p))
    decreases |s| + |p|
  {
    if p == [] then s == []
    else if p[0] == '%' then Like(s, p[1..]) || (s != [] && Like(s[1..], p))
    else if p[0] == '_' then s != [] && Like(s[1..], p[1..])
    else
      assert NoWildcards(p) ==> NoWildcards(p[1..]) by {
        if NoWildcards(p) {
          forall k | 0 <= k < |p[1..]| ensures !IsWildcard(p[1..][k]) {
            assert p[1..][k] == p[k + 1];
          }
        }
      }
      assert Lower(p) == [Fold(p[0])] + Lower(p[1..]);
      assert s != [] ==> Lower(s) == [Fold(s[0])] + Lower(s[1..]);
      s != [] && Fold(s[0]) == Fold(p[0]) && Like(s[1..], p[1..])
  }

  predicate IsPrefix(needle: string, hay: string) {
    |needle| <= |hay| && hay[..|needle|] == needle
  }

  /** Plain substring test: `needle` occurs somewhere in `hay`. */
  predicate Contains(hay: string, needle: string)
    decreases |hay|
  {
    IsPrefix(needle, hay) || (hay != [] && Contains(hay[1..], needle))
  }

  /** `%` matches every string. */
  lemma {:induction false} PercentMatchesAll(s: string)
    ensures Like(s, "%")
    decreases |s|
  {
    assert "%"[1..] == [];
    if s != [] {
      PercentMatchesAll(s[1..]);
    }
  }

  /** A wildcard-free `q` followed by `%` matches exactly the strings that start with `q` up to case. */
  lemma {:induction false} PrefixPattern(s: string, q: string)
    requires NoWildcards(q)
    ensures Like(s, q + "%") <==> IsPrefix(Lower(q), Lower(s))
    decreases |q|
  {
    if q == [] {
      assert q + "%" == "%";
      PercentMatchesAll(s);
    } else {
      var p := q + "%";
      assert p[0] == q[0] && p[1..] == q[1..] + "%";
      assert !IsWildcard(q[0]);
      assert NoWildcards(q[1..]) by {
        forall k | 0 <= k < |q[1..]| ensures !IsWildcard(q[1..][k]) {
          assert q[1..][k] == q[k + 1];
        }
      }
      if s != [] {
        PrefixPattern(s[1..], q[1..]);
        assert Lower(q) == [Fold(q[0])] + Lower(q[1..]);
        assert Lower(s) == [Fold(s[0])] + Lower(s[1..]);
      } else {
        assert |Lower(q)| > |Lower(s)|;
      }
    }
  }

  /**
   * The keyword search pattern `%q%`, for a wildcard-free `q`, matches
   * exactly the strings that contain `q` up to ASCII case.
   */
  lemma {:induction false} InfixPattern(s: string, q: string)
    requires NoWildcards(q)
    ensures Like(s, "%" + q + "%") <==> Contains(Lower(s), Lower(q))
    decreases |s|
  {
    var p := "%" + q + "%";
    assert p[0] == '%' && p[1..] == q + "%";
    PrefixPattern(s, q);
    if s != [] {
      InfixPattern(s[1..], q);
      assert Lower(s)[1..] == Lower(s[1..]);
    }
  }

  /** A needle can only occur in a string that holds its first character. */
  lemma {:induction false} ContainsNeedsFirst(hay: string, needle: string)
    requires needle != [] && needle[0] !in hay
    ensures !Contains(hay, needle)
    decreases |hay|
  {
    if hay != [] {
      assert hay[0] != needle[0];
      assert needle[0] !in hay[1..];
      ContainsNeedsFirst(hay[1..], needle);
    }
  }
}

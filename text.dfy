/**
 * The string matching the repository queries rely on: case folding for the
 * `IgnoreCase` / `LOWER(...)` queries, substring search for `Containing`, and
 * SQL `LIKE` patterns for the hand-written JPQL query.
 *
 * Case folding is ASCII only: 'A'..'Z' map to 'a'..'z' and every other
 * character is left as it is.
 */
module Text {

  /** ASCII lower-casing of one character. */
  function LowerChar(c: char): char {
    if 'A' <= c <= 'Z' then (c as int + 32) as char else c
  }

  /** Lower-casing of a whole string, one character at a time. */
  function Lower(s: string): (r: string)
    ensures |r| == |s|
    ensures forall i :: 0 <= i < |s| ==> r[i] == LowerChar(s[i])
  {
    if s == [] then [] else [LowerChar(s[0])] + Lower(s[1..])
  }

  /** `t` differs from `s` at most in the case of its letters. */
  predicate CaseVariant(s: string, t: string) {
    |s| == |t| && forall i :: 0 <= i < |s| ==> LowerChar(s[i]) == LowerChar(t[i])
  }

  /** Case variants fold to the same string. */
  lemma CaseVariantsFoldAlike(s: string, t: string)
    requires CaseVariant(s, t)
    ensures Lower(s) == Lower(t)
  {
    assert forall i :: 0 <= i < |s| ==> Lower(s)[i] == Lower(t)[i];
  }

  /** `sub` occurs in `s` starting at offset `i`. */
  predicate OccursAt(s: string, sub: string, i: int) {
    0 <= i && i + |sub| <= |s| && s[i..i + |sub|] == sub
  }

  /** Substring search: `s` contains `sub` somewhere (the empty string is everywhere). */
  predicate Contains(s: string, sub: string) {
    exists i | 0 <= i <= |s| - |sub| :: OccursAt(s, sub, i)
  }

  /** The `ContainingIgnoreCase` match of a derived query. */
  predicate ContainsIgnoreCase(s: string, sub: string) {
    Contains(Lower(s), Lower(sub))
  }

  /** Every string contains itself. */
  lemma ContainsItself(s: string)
    ensures Contains(s, s)
  {
    assert OccursAt(s, s, 0);
  }

  /**
   * SQL `LIKE`: in the pattern `p`, '%' matches any run of characters, '_'
   * matches exactly one character, and every other character matches itself.
   */
  predicate Like(s: string, p: string)
    decreases |s| + |p|
  {
    if p == [] then s == []
    else if p[0] == '%' then Like(s, p[1..]) || (s != [] && Like(s[1..], p))
    else s != [] && (p[0] == '_' || p[0] == s[0]) && Like(s[1..], p[1..])
  }

  /** The pattern a JPQL query builds with `CONCAT('%', k, '%')`. */
  function InfixPattern(k: string): string {
    "%" + k + "%"
  }

  /** `k` holds neither of the `LIKE` wildcards. */
  predicate NoWildcards(k: string) {
    forall i :: 0 <= i < |k| ==> k[i] != '%' && k[i] != '_'
  }

  /** A lone '%' matches every string. */
  lemma {:induction false} LikePercentMatchesAll(s: string)
    ensures Like(s, "%")
    decreases |s|
  {
    assert "%"[1..] == [];
    if s != [] {
      LikePercentMatchesAll(s[1..]);
    }
  }

  /** Without wildcards, `k` followed by '%' matches exactly the strings that start with `k`. */
  lemma {:induction false} LikePrefix(s: string, k: string)
    requires NoWildcards(k)
    ensures Like(s, k + "%") <==> |k| <= |s| && s[..|k|] == k
    decreases |k|
  {
    if k == [] {
      assert k + "%" == "%";
      LikePercentMatchesAll(s);
    } else {
      var p := k + "%";
      assert p[0] == k[0] && p[1..] == k[1..] + "%";
      assert p[0] != '%' && p[0] != '_';
      if s != [] {
        LikePrefix(s[1..], k[1..]);
        if |k| <= |s| {
          assert s[..|k|] == [s[0]] + s[1..][..|k| - 1];
          assert k == [k[0]] + k[1..];
        }
      }
    }
  }

  /** A leading '%' lets the rest of the pattern match any suffix of `s`. */
  lemma {:induction false} LikeLeadingPercent(s: string, q: string)
    ensures Like(s, "%" + q) <==> exists i | 0 <= i <= |s| :: Like(s[i..], q)
    decreases |s|
  {
    var p := "%" + q;
    assert p[0] == '%' && p[1..] == q;
    assert s[0..] == s;
    if s != [] {
      LikeLeadingPercent(s[1..], q);
      if exists i | 0 <= i <= |s| :: Like(s[i..], q) {
        var i :| 0 <= i <= |s| && Like(s[i..], q);
        if i > 0 {
          assert s[1..][i - 1..] == s[i..];
        }
      }
      if exists j | 0 <= j <= |s| - 1 :: Like(s[1..][j..], q) {
        var j :| 0 <= j <= |s| - 1 && Like(s[1..][j..], q);
        assert s[1..][j..] == s[j + 1..];
      }
    }
  }

  /** For a keyword without wildcards, the `LIKE '%k%'` match is substring search. */
  lemma LikeInfixIsContains(s: string, k: string)
    requires NoWildcards(k)
    ensures Like(s, InfixPattern(k)) <==> Contains(s, k)
  {
    assert InfixPattern(k) == "%" + (k + "%");
    LikeLeadingPercent(s, k + "%");
    if Contains(s, k) {
      var i :| 0 <= i <= |s| - |k| && OccursAt(s, k, i);
      LikePrefix(s[i..], k);
      assert s[i..][..|k|] == s[i..i + |k|];
    }
    if exists i | 0 <= i <= |s| :: Like(s[i..], k + "%") {
      var i :| 0 <= i <= |s| && Like(s[i..], k + "%");
      LikePrefix(s[i..], k);
      assert s[i..][..|k|] == s[i..i + |k|];
      assert OccursAt(s, k, i);
    }
  }

  /** With a '_' in the keyword, `LIKE '%k%'` matches a string that does not contain `k`. */
  lemma UnderscoreKeywordOvermatches()
    ensures Like("abc", InfixPattern("a_c"))
    ensures !Contains("abc", "a_c")
  {
    var s, p := "abc", InfixPattern("a_c");
    assert p == "%a_c%";
    assert Like("", "");
    assert Like("", "%");
    assert Like("c", "c%");
    assert Like("bc", "_c%");
    assert Like("abc", "a_c%");
    assert Like("abc", p);
    forall i | 0 <= i <= |s| - 3
      ensures !OccursAt(s, "a_c", i)
    {
      assert i == 0 && s[i..i + 3][1] == 'b';
    }
  }
}

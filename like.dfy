/**
 * SQL `LIKE` matching, used to justify modelling the name scopes as plain
 * substring tests: for input without the wildcards `%` and `_` and without
 * PostgreSQL's default escape character `\`, the patterns built by
 * `withPercentAround`, `withPercentAfter` and `withPercentBefore` mean
 * "contains", "starts with" and "ends with". The matcher below has no escape
 * character, so it agrees with PostgreSQL only on such input, which is why
 * the lemmas about the three patterns require `NoWildcards`.
 */
module Like {

  import opened Strings
  import opened RepoHelpers

  /** `s LIKE p`: `%` matches any run of characters, `_` any one character, anything else itself. */
  function Like(p: string, s: string): bool
    decreases |p| + |s|
  {
    if p == [] then s == []
    else if p[0] == '%' then Like(p[1..], s) || (|s| > 0 && Like(p, s[1..]))
    else |s| > 0 && (p[0] == '_' || p[0] == s[0]) && Like(p[1..], s[1..])
  }

  /** `s ILIKE p`: LIKE after lower-casing both sides. */
  predicate ILike(s: string, p: string)
  {
    Like(Lower(p), Lower(s))
  }

  /** `v` holds no wildcard and no escape character, so every character of it stands for itself. */
  predicate NoWildcards(v: string)
  {
    forall i :: 0 <= i < |v| ==> v[i] != '%' && v[i] != '_' && v[i] != '\\'
  }

  predicate IsSuffix(v: string, s: string)
  {
    |v| <= |s| && s[|s| - |v|..] == v
  }

  lemma {:induction false} PercentMatchesAll(s: string)
    ensures Like("%", s)
    decreases |s|
  {
    if s != [] {
      PercentMatchesAll(s[1..]);
    }
  }

  lemma {:induction false} LiteralIsEquality(v: string, s: string)
    requires NoWildcards(v)
    ensures Like(v, s) <==> v == s
    decreases |v|
  {
    if v != [] && s != [] {
      LiteralIsEquality(v[1..], s[1..]);
      assert v == s <==> v[0] == s[0] && v[1..] == s[1..];
    }
  }

  /** `v%` matches exactly the texts that start with `v`. */
  lemma {:induction false} PercentAfterIsPrefix(v: string, s: string)
    requires NoWildcards(v)
    ensures Like(WithPercentAfter(v), s) <==> v <= s
    decreases |v|
  {
    var p := WithPercentAfter(v);
    if v == [] {
      assert p == "%";
      PercentMatchesAll(s);
    } else {
      assert p[1..] == WithPercentAfter(v[1..]);
      if s != [] {
        PercentAfterIsPrefix(v[1..], s[1..]);
        assert v <= s <==> v[0] == s[0] && v[1..] <= s[1..];
      }
    }
  }

  /** `%v` matches exactly the texts that end with `v`. */
  lemma {:induction false} PercentBeforeIsSuffix(v: string, s: string)
    requires NoWildcards(v)
    ensures Like(WithPercentBefore(v), s) <==> IsSuffix(v, s)
    decreases |s|
  {
    var p := WithPercentBefore(v);
    assert p[1..] == v;
    LiteralIsEquality(v, s);
    if s != [] {
      PercentBeforeIsSuffix(v, s[1..]);
      if |v| < |s| {
        assert s[1..][|s| - 1 - |v|..] == s[|s| - |v|..];
      }
    }
  }

  /** `%v%` matches exactly the texts that contain `v`. */
  lemma {:induction false} PercentAroundIsContains(v: string, s: string)
    requires NoWildcards(v)
    ensures Like(WithPercentAround(v), s) <==> Contains(s, v)
    decreases |s|
  {
    var p := WithPercentAround(v);
    assert p[1..] == WithPercentAfter(v);
    PercentAfterIsPrefix(v, s);
    if s != [] {
      PercentAroundIsContains(v, s[1..]);
    }
  }

  /** The name scopes' `ilike '%name%'` is the case-insensitive substring test, for wildcard-free names. */
  lemma ILikeAroundIsContainsFold(v: string, s: string)
    requires NoWildcards(v)
    ensures ILike(s, WithPercentAround(v)) <==> ContainsFold(s, v)
  {
    var lv := Lower(v);
    assert Lower(WithPercentAround(v)) == WithPercentAround(lv);
    assert NoWildcards(lv) by {
      forall i | 0 <= i < |lv| ensures lv[i] != '%' && lv[i] != '_' {
        assert lv[i] == LowerChar(v[i]);
      }
    }
    PercentAroundIsContains(lv, Lower(s));
  }
}

/**
 * SQL `LIKE` matching as the key patterns use it: `%` matches any run of
 * characters (possibly empty), `_` matches exactly one character, and every
 * other character matches only itself. There is no escape character.
 */
module Like {

  predicate Matches(s: string, p: string)
    decreases |s| + |p|
  {
    if p == [] then s == []
    else if p[0] == '%' then Matches(s, p[1..]) || (s != [] && Matches(s[1..], p))
    else s != [] && (p[0] == '_' || p[0] == s[0]) && Matches(s[1..], p[1..])
  }

  /** A pattern with no wildcard character in it. */
  predicate IsLiteral(p: string) {
    forall i :: 0 <= i < |p| ==> p[i] != '%' && p[i] != '_'
  }

  /** `%` alone matches every string, the empty one included. */
  lemma {:induction false} PercentMatchesAll(s: string)
    ensures Matches(s, "%")
  {
    if s != [] {
      PercentMatchesAll(s[1..]);
    }
  }

  /** A pattern without wildcards matches exactly itself. */
  lemma {:induction false} LiteralMatchesItself(s: string, p: string)
    requires IsLiteral(p)
    ensures Matches(s, p) <==> s == p
  {
    if p != [] && s != [] {
      LiteralMatchesItself(s[1..], p[1..]);
      if s[0] == p[0] && s[1..] == p[1..] {
        assert s == [s[0]] + s[1..] && p == [p[0]] + p[1..];
      }
    }
  }

  /** A literal prefix followed by `%` matches exactly the strings that start with the prefix. */
  lemma {:induction false} PrefixPattern(s: string, prefix: string)
    requires IsLiteral(prefix)
    ensures Matches(s, prefix + "%") <==> prefix <= s
  {
    if prefix == [] {
      assert prefix + "%" == "%";
      PercentMatchesAll(s);
    } else {
      assert (prefix + "%")[1..] == prefix[1..] + "%";
      if s != [] {
        PrefixPattern(s[1..], prefix[1..]);
      }
    }
  }

  /**
   * A character that is not a wildcard can only be matched by itself: a
   * pattern that contains it matches no string that lacks it.
   */
  lemma {:induction false} LiteralCharNeeded(s: string, p: string, c: char)
    requires c != '%' && c != '_'
    requires c in p && c !in s
    ensures !Matches(s, p)
    decreases |s| + |p|
  {
    assert p != [];
    if p[0] == '%' {
      assert c in p[1..];
      LiteralCharNeeded(s, p[1..], c);
      if s != [] {
        LiteralCharNeeded(s[1..], p, c);
      }
    } else if s != [] {
      if p[0] == c {
        assert s[0] != c;
      } else {
        assert c in p[1..];
        LiteralCharNeeded(s[1..], p[1..], c);
      }
    }
  }
}

/**
 * The two glob-to-LIKE rewrites of the repository. The facade rewrites only
 * `*` to `%`; the query builder rewrites `*` to `%` and then `?` to `_`.
 * Neither escapes a `%` or `_` the caller already wrote.
 */
module Glob {
  import Like

  /** `strings.ReplaceAll` for a one-character old and new string. */
  function Replace(s: string, from: char, to: char): (r: string)
    ensures |r| == |s|
    ensures forall i :: 0 <= i < |s| ==> r[i] == if s[i] == from then to else s[i]
  {
    if s == [] then [] else [if s[0] == from then to else s[0]] + Replace(s[1..], from, to)
  }

  /** The pattern the facade's `MatchKey` hands to `LIKE`. */
  function KeybasePattern(glob: string): string {
    Replace(glob, '*', '%')
  }

  /** The pattern the query builder `newMatchKeyQuery` hands to `LIKE`. */
  function QueryPattern(glob: string): string {
    Replace(Replace(glob, '*', '%'), '?', '_')
  }

  /**
   * The builder's rewrite keeps the length, leaves no `*` or `?`, turns `*`
   * into `%` and `?` into `_`, and leaves every other character, an existing
   * `%` or `_` included, as it was.
   */
  lemma QueryPatternShape(glob: string)
    ensures |QueryPattern(glob)| == |glob|
    ensures '*' !in QueryPattern(glob) && '?' !in QueryPattern(glob)
    ensures forall i :: 0 <= i < |glob| ==>
      QueryPattern(glob)[i] == (if glob[i] == '*' then '%' else if glob[i] == '?' then '_' else glob[i])
  {
  }

  /** The facade's rewrite keeps the length, leaves no `*` and changes nothing else, `?` included. */
  lemma KeybasePatternShape(glob: string)
    ensures |KeybasePattern(glob)| == |glob| && '*' !in KeybasePattern(glob)
    ensures forall i :: 0 <= i < |glob| ==>
      KeybasePattern(glob)[i] == (if glob[i] == '*' then '%' else glob[i])
  {
  }

  /** The two substitutions of the builder's rewrite commute. */
  lemma SubstitutionsCommute(glob: string)
    ensures QueryPattern(glob) == Replace(Replace(glob, '?', '_'), '*', '%')
  {
    var a, b := QueryPattern(glob), Replace(Replace(glob, '?', '_'), '*', '%');
    assert |a| == |b|;
    forall i | 0 <= i < |a| ensures a[i] == b[i] {
    }
  }

  /** Without a `?` in the glob both rewrites produce the same pattern. */
  lemma {:induction false} SamePatternWithoutQuestionMark(glob: string)
    requires '?' !in glob
    ensures KeybasePattern(glob) == QueryPattern(glob)
  {
    var a, b := KeybasePattern(glob), QueryPattern(glob);
    forall i | 0 <= i < |a| ensures a[i] == b[i] {
      assert glob[i] != '?';
    }
  }

  /** A key that the builder's pattern for `glob` matches and that holds no `?`. */
  function Witness(glob: string): (key: string)
    ensures '?' !in key
  {
    if glob == [] then []
    else
      var c := glob[0];
      (if c == '*' || c == '%' then "" else if c == '?' || c == '_' then "a" else [c]) + Witness(glob[1..])
  }

  lemma {:induction false} WitnessMatches(glob: string)
    ensures Like.Matches(Witness(glob), QueryPattern(glob))
  {
    if glob != [] {
      WitnessMatches(glob[1..]);
      var p, w := QueryPattern(glob), Witness(glob);
      assert p[1..] == QueryPattern(glob[1..]);
      var c := glob[0];
      if c == '*' || c == '%' {
        assert p[0] == '%' && w == Witness(glob[1..]);
      } else if c == '?' || c == '_' {
        assert p[0] == '_' && w[1..] == Witness(glob[1..]);
      } else {
        assert p[0] == c && w[0] == c && w[1..] == Witness(glob[1..]);
      }
    }
  }

  /**
   * The facade's and the builder's patterns match the same keys exactly when
   * the glob has no `?`: the facade leaves `?` for `LIKE` to read as a literal
   * character, the builder turns it into the one-character wildcard `_`.
   */
  lemma SameMatchesIffNoQuestionMark(glob: string)
    ensures ('?' !in glob) <==>
      (forall key :: Like.Matches(key, KeybasePattern(glob)) == Like.Matches(key, QueryPattern(glob)))
  {
    if '?' in glob {
      var key := Witness(glob);
      WitnessMatches(glob);
      var i :| 0 <= i < |glob| && glob[i] == '?';
      assert KeybasePattern(glob)[i] == '?';
      Like.LiteralCharNeeded(key, KeybasePattern(glob), '?');
      assert Like.Matches(key, KeybasePattern(glob)) != Like.Matches(key, QueryPattern(glob));
    } else {
      SamePatternWithoutQuestionMark(glob);
    }
  }

  /** With glob `a?` the key `ab` matches the builder's pattern and not the facade's. */
  lemma QuestionMarkExample()
    ensures KeybasePattern("a?") == "a?" && QueryPattern("a?") == "a_"
    ensures !Like.Matches("ab", KeybasePattern("a?")) && Like.Matches("ab", QueryPattern("a?"))
  {
    assert KeybasePattern("a?") == "a?";
    assert QueryPattern("a?") == "a_";
    assert "a?"[1..] == "?" && "a_"[1..] == "_" && "ab"[1..] == "b";
  }

  /** The glob `*` becomes the pattern `%` under both rewrites and matches every key. */
  lemma StarMatchesAll(key: string)
    ensures KeybasePattern("*") == "%" && QueryPattern("*") == "%"
    ensures Like.Matches(key, KeybasePattern("*"))
  {
    assert KeybasePattern("*") == "%";
    assert QueryPattern("*") == "%";
    Like.PercentMatchesAll(key);
  }
}

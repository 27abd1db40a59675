/**
 * Concrete inputs on which the code, as written, departs from its evident
 * intent. Each lemma pairs the as-written behaviour with the
 * corrected definition's behaviour on the same input.
 */
module Findings {
  import opened Options
  import opened Strings
  import opened Patterns
  import LinearMatcher
  import SuffixTable

  /**
   * The linear matcher carries its cursor from one pattern to the next:
   * with patterns `a b` and `a c`, the first consumes the `a` of "ac"
   * before failing, so the second starts at "c" and fails too, although on
   * its own it accepts "ac". Resetting the cursor per pattern finds it.
   */
  lemma CursorCarriedAcrossPatterns()
    ensures var p0 := Pattern(0, [Literal("a"), Literal("b")]);
      var p1 := Pattern(1, [Literal("a"), Literal("c")]);
      && LinearMatcher.RunPatterns([p0, p1], "ac").None?
      && LinearMatcher.Accepts(p1, "ac")
      && LinearMatcher.RunPatternsFromStart([p0, p1], "ac") == Some(MatchResult(p1, []))
  {
    var p0 := Pattern(0, [Literal("a"), Literal("b")]);
    var p1 := Pattern(1, [Literal("a"), Literal("c")]);
    assert "ac"[..1] == "a" && "c"[..1] == "c";
    assert StartsWith("ac", "a") && !StartsWith("c", "b") && !StartsWith("c", "a");
    assert "ac"[1..] == "c" && "c"[1..] == [];
    assert StartsWith("c", "c");
    assert [p0, p1][1..] == [p1] && [p1][1..] == [];
    assert p0.tokens[1..] == [Literal("b")];
    assert p1.tokens[1..] == [Literal("c")];
    assert LinearMatcher.RunTokens(p0.tokens, "ac") == LinearMatcher.Abandoned("c");
    assert LinearMatcher.RunTokens(p1.tokens, "c") == LinearMatcher.Abandoned("c");
    assert LinearMatcher.RunTokens(p1.tokens, "ac") == LinearMatcher.Accepted([], 2);
    assert LinearMatcher.RunPatterns([p1], "c") == LinearMatcher.RunPatterns([], "c");
    assert LinearMatcher.RunPatterns([p0, p1], "ac") == LinearMatcher.RunPatterns([p1], "c");
  }

  /**
   * The suffix table accepts a proper prefix of a literal: with the single
   * pattern `abc` stored, "ab" shares two characters with it, which covers
   * all of "ab", so the code reports a match. Demanding the whole literal
   * rejects it.
   */
  lemma PrefixOfLiteralAccepted()
    ensures var p := Pattern(0, [Literal("abc")]);
      var t := SuffixTable.Insert(SuffixTable.Empty, p);
      && SuffixTable.Valid(t)
      && SuffixTable.Parse(t, "ab") == Some(MatchResult(Pattern(0, []), []))
      && SuffixTable.ParseWholeLiteral(t, "ab").None?
  {
    var p := Pattern(0, [Literal("abc")]);
    SuffixTable.InsertPreservesValid(SuffixTable.FreshChild, SuffixTable.Empty, p);
    var t := SuffixTable.Insert(SuffixTable.Empty, p);
    var e := SuffixTable.Entry("abc", Some(Pattern(0, [])), None);
    assert t == SuffixTable.Table([e], []);
    assert CommonPrefixLen("abc", "ab") == 2 by {
      assert "abc"[1..] == "bc" && "ab"[1..] == "b";
      assert "bc"[1..] == "c" && "b"[1..] == [];
    }
    SuffixTable.SingleLiteralLookup(e, "ab");
    assert SuffixTable.LongestCommonPrefix(t, "ab") == Some((0, 2));
  }

  // The two patterns `a b` and `a c`, and the tables the code builds from them.
  const AB := Pattern(1, [Literal("a"), Literal("b")])
  const AC := Pattern(2, [Literal("a"), Literal("c")])
  const PathAB := [SuffixTable.LiteralKey("a"), SuffixTable.LiteralKey("b")]
  const UnderB := SuffixTable.Table([SuffixTable.Entry("b", Some(Pattern(1, [])), None)], [])
  const UnderC := SuffixTable.Table([SuffixTable.Entry("c", Some(Pattern(2, [])), None)], [])
  const AfterAB := SuffixTable.Table([SuffixTable.Entry("a", None, Some(UnderB))], [])
  const AfterAC := SuffixTable.Table([SuffixTable.Entry("a", None, Some(UnderC))], [])

  /** Inserting `a b` into an empty table files `b` under `a`. */
  lemma InsertAB()
    ensures SuffixTable.Insert(SuffixTable.Empty, AB) == AfterAB
    ensures SuffixTable.Valid(AfterAB)
  {
    assert AB.tokens[1..] == [Literal("b")];
    assert SuffixTable.Insert(SuffixTable.Empty, Pattern(1, [Literal("b")])) == UnderB;
    SuffixTable.InsertPreservesValid(SuffixTable.FreshChild, SuffixTable.Empty, AB);
  }

  /** Inserting `a c` next leaves only `c` under `a`. */
  lemma InsertsReplaceChild()
    ensures SuffixTable.Insert(SuffixTable.Empty, AB) == AfterAB
    ensures SuffixTable.Insert(AfterAB, AC) == AfterAC
    ensures SuffixTable.Valid(AfterAB) && SuffixTable.Valid(AfterAC)
  {
    InsertAB();
    assert AC.tokens[1..] == [Literal("c")];
    assert SuffixTable.Insert(SuffixTable.Empty, Pattern(2, [Literal("c")])) == UnderC;
    assert SuffixTable.Locate(AfterAB.literals, "a") == SuffixTable.Found(0);
    SuffixTable.InsertPreservesValid(SuffixTable.FreshChild, AfterAB, AC);
  }

  /**
   * Inserting a pattern through an entry that already has a child replaces
   * that child: after `a b` then `a c`, the path `a b` leads nowhere.
   * Keeping the existing child keeps `a b`.
   */
  lemma InsertDiscardsSubtree()
    ensures SuffixTable.Lookup(SuffixTable.Insert(SuffixTable.Empty, AB), PathAB) == Some(Pattern(1, []))
    ensures SuffixTable.Lookup(SuffixTable.Insert(SuffixTable.Insert(SuffixTable.Empty, AB), AC), PathAB).None?
    ensures SuffixTable.Lookup(SuffixTable.InsertKeepingChildren(SuffixTable.Insert(SuffixTable.Empty, AB), AC), PathAB).Some?
  {
    InsertsReplaceChild();
    assert PathAB[1..] == [SuffixTable.LiteralKey("b")] && PathAB[1..][1..] == [];
    assert SuffixTable.Locate(AfterAB.literals, "a") == SuffixTable.Found(0);
    assert SuffixTable.Locate(UnderB.literals, "b") == SuffixTable.Found(0);
    assert SuffixTable.Lookup(AfterAB, PathAB) == Some(Pattern(1, []));
    assert !Less("c", "b") && "c" != "b";
    assert SuffixTable.Locate(UnderC.literals, "b").Missing?;
    SuffixTable.InsertKeepingChildrenKeepsPaths(AfterAB, AC, PathAB);
  }

  /** The longest-common-prefix lookups that parsing "ab" performs in these tables. */
  lemma LookupsOfAB()
    ensures SuffixTable.LongestCommonPrefix(AfterAB, "ab") == Some((0, 1))
    ensures SuffixTable.LongestCommonPrefix(AfterAC, "ab") == Some((0, 1))
    ensures SuffixTable.LongestCommonPrefix(UnderB, "b") == Some((0, 1))
    ensures SuffixTable.LongestCommonPrefix(UnderC, "b").None?
  {
    assert "a"[1..] == [] && "ab"[1..] == "b";
    assert Less("a", "ab") && CommonPrefixLen("a", "ab") == 1;
    assert CommonPrefixLen("b", "b") == 1 && CommonPrefixLen("c", "b") == 0;
  }

  /** ... and so the input "ab", which parsed to the first pattern, no longer parses. */
  lemma InsertDiscardsSubtreeParse()
    ensures SuffixTable.Valid(SuffixTable.Insert(SuffixTable.Empty, AB))
    ensures SuffixTable.Parse(SuffixTable.Insert(SuffixTable.Empty, AB), "ab") == Some(MatchResult(Pattern(1, []), []))
    ensures SuffixTable.Valid(SuffixTable.Insert(SuffixTable.Insert(SuffixTable.Empty, AB), AC))
    ensures SuffixTable.Parse(SuffixTable.Insert(SuffixTable.Insert(SuffixTable.Empty, AB), AC), "ab").None?
  {
    InsertsReplaceChild();
    LookupsOfAB();
    assert "ab"[1..] == "b" && "b"[1..] == [];
    assert SuffixTable.Parse(UnderB, "b") == Some(MatchResult(Pattern(1, []), []));
    assert SuffixTable.Parse(AfterAB, "ab") == SuffixTable.Parse(UnderB, "b");
    assert SuffixTable.Parse(AfterAC, "ab") == SuffixTable.Parse(UnderC, "b");
  }
}

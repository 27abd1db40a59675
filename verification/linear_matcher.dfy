/**
 * `RegexMatcher`: the linear strategy. Patterns are kept in insertion order
 * and tried one after another against a cursor into the input.
 */
module LinearMatcher {
  import opened Options
  import opened Strings
  import opened Patterns

  datatype RegexMatcher = RegexMatcher(patterns: seq<Pattern>)

  /** `RegexMatcherFactory::new_matcher`. */
  const Empty := RegexMatcher([])

  /** `add_pattern`: the pattern joins the end of the list; earlier patterns keep their places. */
  function AddPattern(m: RegexMatcher, p: Pattern): (m': RegexMatcher)
    ensures |m'.patterns| == |m.patterns| + 1
    ensures m'.patterns[..|m.patterns|] == m.patterns && m'.patterns[|m.patterns|] == p
  {
    RegexMatcher(m.patterns + [p])
  }

  /** `rest` is what is left of `s` after some prefix has been cut off. */
  predicate IsSuffix(rest: string, s: string) {
    |rest| <= |s| && rest == s[|s| - |rest|..]
  }

  /**
   * One token against the cursor: a literal must begin the text and is cut
   * off; an extractor must accept a prefix, which is cut off and captured.
   */
  function Step(tok: Token, remaining: string): (r: Option<(string, seq<Capture>)>)
    ensures r.Some? && tok.Literal? ==> r.value.1 == [] && remaining == tok.text + r.value.0
    ensures r.Some? && tok.Parser? ==>
      && |r.value.1| == 1
      && r.value.1[0].name == tok.extractor.name
      && remaining == r.value.1[0].value + r.value.0
    ensures tok.Literal? ==> (r.Some? <==> StartsWith(remaining, tok.text))
    ensures tok.Parser? ==> (r.Some? <==> tok.extractor.run(remaining).Some?)
    ensures r.Some? && tok.Parser? ==>
      var n := tok.extractor.run(remaining).value;
      r.value == (remaining[n..], [CaptureOf(tok.extractor, remaining, n)])
  {
    match tok
    case Literal(text) =>
      if StartsWith(remaining, text) then
        assert remaining == text + remaining[|text|..];
        Some((remaining[|text|..], []))
      else None
    case Parser(e) =>
      match e.run(remaining)
      case Some(n) =>
        assert remaining == remaining[..n] + remaining[n..];
        Some((remaining[n..], [CaptureOf(e, remaining, n)]))
      case None => None
  }

  /**
   * How one pattern fares: accepted (with its captures and the number of
   * tokens it used) as soon as the text runs out, or abandoned with whatever
   * text is left at that point.
   */
  datatype Outcome = Accepted(captures: seq<Capture>, used: nat) | Abandoned(rest: string)

  /** The inner loop of `RegexMatcher::parse` over one pattern's tokens. */
  function RunTokens(tokens: seq<Token>, remaining: string): (r: Outcome)
    ensures r.Accepted? ==> 1 <= r.used <= |tokens|
    ensures r.Abandoned? ==> IsSuffix(r.rest, remaining)
    decreases |tokens|
  {
    if |tokens| == 0 then Abandoned(remaining)
    else
      match Step(tokens[0], remaining)
      case None => Abandoned(remaining)
      case Some((rest, caps)) =>
        if |rest| == 0 then Accepted(caps, 1)
        else
          match RunTokens(tokens[1..], rest)
          case Accepted(more, used) => Accepted(caps + more, used + 1)
          case Abandoned(left) => Abandoned(left)
  }

  /**
   * An accepted pattern records exactly one capture per extractor among the
   * tokens it used, in token order, each under that extractor's name.
   */
  lemma {:induction false} CapturesFollowParsers(tokens: seq<Token>, remaining: string)
    ensures RunTokens(tokens, remaining).Accepted? ==>
      var o := RunTokens(tokens, remaining);
      CaptureNames(o.captures) == ParserNames(tokens[..o.used])
    decreases |tokens|
  {
    var o := RunTokens(tokens, remaining);
    if o.Accepted? {
      var (rest, caps) := Step(tokens[0], remaining).value;
      assert tokens[..1] == [tokens[0]];
      if |rest| > 0 {
        var inner := RunTokens(tokens[1..], rest);
        CapturesFollowParsers(tokens[1..], rest);
        assert tokens[..inner.used + 1] == [tokens[0]] + tokens[1..][..inner.used];
        CaptureNamesAppend(caps, inner.captures);
      }
    }
  }

  /**
   * The cursor and the captures after the first `k` tokens, taken one after
   * another with no early exit, or None when one of them fails.
   */
  function Reach(tokens: seq<Token>, s: string, k: nat): Option<(string, seq<Capture>)>
    requires k <= |tokens|
    decreases k
  {
    if k == 0 then Some((s, []))
    else
      match Reach(tokens, s, k - 1)
      case None => None
      case Some((rest, caps)) =>
        match Step(tokens[k - 1], rest)
        case None => None
        case Some((rest', more)) => Some((rest', caps + more))
  }

  /** The first `k` tokens all succeed and leave text on the cursor. */
  predicate LeavesText(tokens: seq<Token>, s: string, k: nat) {
    k <= |tokens| && Reach(tokens, s, k).Some? && Reach(tokens, s, k).value.0 != []
  }

  /** The first `u` tokens all succeed, the `u`-th empties the cursor, and none before it did. */
  predicate EmptiesAt(tokens: seq<Token>, s: string, u: nat) {
    && 1 <= u <= |tokens|
    && Reach(tokens, s, u).Some? && Reach(tokens, s, u).value.0 == []
    && forall k :: 1 <= k < u ==> LeavesText(tokens, s, k)
  }

  /**
   * The first `j` tokens all succeed, each leaving text behind, and then the
   * tokens run out or token `j + 1` fails.
   */
  predicate StopsAt(tokens: seq<Token>, s: string, j: nat) {
    && j <= |tokens|
    && Reach(tokens, s, j).Some?
    && (j == |tokens| || Reach(tokens, s, j + 1).None?)
    && forall k :: 1 <= k <= j ==> LeavesText(tokens, s, k)
  }

  /**
   * What the token loop decides: a pattern is accepted right after the first
   * successful token that empties the cursor, even with tokens left over,
   * with the captures made so far; it is abandoned, with the cursor as it
   * then stands, when a token fails or when every token succeeds and text
   * is left.
   */
  lemma RunTokensMeaning(tokens: seq<Token>, s: string)
    ensures forall u :: EmptiesAt(tokens, s, u) ==> RunTokens(tokens, s) == Accepted(Reach(tokens, s, u).value.1, u)
    ensures forall j :: StopsAt(tokens, s, j) ==> RunTokens(tokens, s) == Abandoned(Reach(tokens, s, j).value.0)
    ensures RunTokens(tokens, s).Accepted? ==>
      var o := RunTokens(tokens, s);
      EmptiesAt(tokens, s, o.used) && Reach(tokens, s, o.used).value.1 == o.captures
    ensures RunTokens(tokens, s).Abandoned? ==>
      exists j :: StopsAt(tokens, s, j) && RunTokens(tokens, s).rest == Reach(tokens, s, j).value.0
  {
    forall u | EmptiesAt(tokens, s, u)
      ensures RunTokens(tokens, s) == Accepted(Reach(tokens, s, u).value.1, u)
    {
      AcceptedAtEmpty(tokens, s, u);
    }
    forall j | StopsAt(tokens, s, j)
      ensures RunTokens(tokens, s) == Abandoned(Reach(tokens, s, j).value.0)
    {
      AbandonedAtStop(tokens, s, j);
    }
    var c := ReachClassifies(tokens, s, 0);
  }

  /** The loop's own invariant: after `j` tokens that each left text, the rest of the run decides. */
  lemma {:induction false} ReachThenRun(tokens: seq<Token>, s: string, j: nat)
    requires j <= |tokens| && Reach(tokens, s, j).Some?
    requires forall k :: 1 <= k <= j ==> LeavesText(tokens, s, k)
    ensures RunTokens(tokens, s)
      == Extend(Reach(tokens, s, j).value.1, j, RunTokens(tokens[j..], Reach(tokens, s, j).value.0))
    decreases j
  {
    if j == 0 {
      assert tokens[0..] == tokens;
      ExtendNothing(RunTokens(tokens, s));
    } else {
      var r, c, r', m := ReachLast(tokens, s, j);
      assert LeavesText(tokens, s, j);
      ReachThenRun(tokens, s, j - 1);
      RunAfterStep(tokens, j - 1, r, r', m);
      ExtendTwice(c, j - 1, m, RunTokens(tokens[j..], r'));
    }
  }

  lemma ExtendNothing(o: Outcome)
    ensures Extend([], 0, o) == o
  {
    if o.Accepted? {
      assert [] + o.captures == o.captures;
    }
  }

  /** The last of `j` successful tokens: the state before it and the step it took. */
  lemma ReachLast(tokens: seq<Token>, s: string, j: nat) returns (r: string, c: seq<Capture>, r': string, m: seq<Capture>)
    requires 1 <= j <= |tokens| && Reach(tokens, s, j).Some?
    ensures Reach(tokens, s, j - 1) == Some((r, c))
    ensures Step(tokens[j - 1], r) == Some((r', m))
    ensures Reach(tokens, s, j) == Some((r', c + m))
  {
    r, c := Reach(tokens, s, j - 1).value.0, Reach(tokens, s, j - 1).value.1;
    r', m := Step(tokens[j - 1], r).value.0, Step(tokens[j - 1], r).value.1;
  }

  /** One token that succeeds and leaves text hands the rest of the run on. */
  lemma RunAfterStep(tokens: seq<Token>, j: nat, r: string, r': string, m: seq<Capture>)
    requires j < |tokens| && Step(tokens[j], r) == Some((r', m)) && r' != []
    ensures RunTokens(tokens[j..], r) == Extend(m, 1, RunTokens(tokens[j + 1..], r'))
  {
    assert tokens[j..][0] == tokens[j];
    assert tokens[j..][1..] == tokens[j + 1..];
  }

  lemma AcceptedAtEmpty(tokens: seq<Token>, s: string, u: nat)
    requires EmptiesAt(tokens, s, u)
    ensures RunTokens(tokens, s) == Accepted(Reach(tokens, s, u).value.1, u)
  {
    assert Reach(tokens, s, u - 1).Some?;
    ReachThenRun(tokens, s, u - 1);
    var (r, c) := Reach(tokens, s, u - 1).value;
    var (r', m) := Step(tokens[u - 1], r).value;
    assert tokens[u - 1..][0] == tokens[u - 1];
    assert RunTokens(tokens[u - 1..], r) == Accepted(m, 1);
  }

  lemma AbandonedAtStop(tokens: seq<Token>, s: string, j: nat)
    requires StopsAt(tokens, s, j)
    ensures RunTokens(tokens, s) == Abandoned(Reach(tokens, s, j).value.0)
  {
    ReachThenRun(tokens, s, j);
    var r := Reach(tokens, s, j).value.0;
    if j < |tokens| {
      assert tokens[j..][0] == tokens[j];
      assert Step(tokens[j], r).None?;
    }
  }

  /** Every run either empties the cursor at some token or stops at some token. */
  lemma {:induction false} ReachClassifies(tokens: seq<Token>, s: string, j: nat) returns (c: nat)
    requires j <= |tokens| && Reach(tokens, s, j).Some?
    requires forall k :: 1 <= k <= j ==> LeavesText(tokens, s, k)
    ensures EmptiesAt(tokens, s, c) || StopsAt(tokens, s, c)
    decreases |tokens| - j
  {
    if j == |tokens| || Reach(tokens, s, j + 1).None? {
      c := j;
      assert StopsAt(tokens, s, c);
    } else if Reach(tokens, s, j + 1).value.0 == [] {
      c := j + 1;
      assert EmptiesAt(tokens, s, c);
    } else {
      assert forall k :: 1 <= k <= j + 1 ==> LeavesText(tokens, s, k);
      c := ReachClassifies(tokens, s, j + 1);
    }
  }

  /** A pattern is accepted as soon as the line is used up, though tokens remain. */
  lemma AcceptedWithTokensLeft()
    ensures RunTokens([Literal("a"), Literal("b")], "a") == Accepted([], 1)
  {
    var tokens := [Literal("a"), Literal("b")];
    assert StartsWith("a", "a");
    assert "a"[1..] == [];
    assert Step(tokens[0], "a") == Some(([], []));
  }

  lemma {:induction false} CaptureNamesAppend(a: seq<Capture>, b: seq<Capture>)
    ensures CaptureNames(a + b) == CaptureNames(a) + CaptureNames(b)
    decreases |a|
  {
    if |a| == 0 {
      assert a + b == b;
    } else {
      assert (a + b)[0] == a[0];
      assert (a + b)[1..] == a[1..] + b;
      CaptureNamesAppend(a[1..], b);
    }
  }

  /**
   * The outer loop of `RegexMatcher::parse`: the cursor is handed from one
   * pattern to the next and never put back to the start of the input.
   */
  function RunPatterns(patterns: seq<Pattern>, remaining: string): (r: Option<MatchResult>)
    ensures r.Some? ==> r.value.pattern in patterns
    decreases |patterns|
  {
    if |patterns| == 0 then None
    else
      match RunTokens(patterns[0].tokens, remaining)
      case Accepted(caps, _) => Some(MatchResult(patterns[0], caps))
      case Abandoned(rest) => RunPatterns(patterns[1..], rest)
  }

  /** Extends the outcome of the tokens after the first `j` by what those `j` tokens captured. */
  function Extend(caps: seq<Capture>, j: nat, o: Outcome): Outcome {
    match o
    case Accepted(more, used) => Accepted(caps + more, used + j)
    case Abandoned(rest) => Abandoned(rest)
  }

  /**
   * The body of the outer loop of `RegexMatcher::parse`: the tokens of one
   * pattern against the cursor, stopping at the first failing token or as
   * soon as the cursor is empty.
   */
  method TryPattern(tokens: seq<Token>, start: string) returns (o: Outcome)
    ensures o == RunTokens(tokens, start)
  {
    var remaining := start;
    var captures: seq<Capture> := [];
    var j := 0;
    while j < |tokens|
      invariant 0 <= j <= |tokens|
      invariant RunTokens(tokens, start) == Extend(captures, j, RunTokens(tokens[j..], remaining))
      invariant j > 0 ==> |remaining| > 0
    {
      assert tokens[j..][0] == tokens[j];
      assert tokens[j..][1..] == tokens[j + 1..];
      var step := Step(tokens[j], remaining);
      if step.None? {
        return Abandoned(remaining);
      }
      var (rest, caps) := step.value;
      if |rest| == 0 {
        assert RunTokens(tokens[j..], remaining) == Accepted(caps, 1);
        return Accepted(captures + caps, j + 1);
      }
      ExtendTwice(captures, j, caps, RunTokens(tokens[j + 1..], rest));
      remaining := rest;
      captures := captures + caps;
      j := j + 1;
    }
    return Abandoned(remaining);
  }

  lemma ExtendTwice(a: seq<Capture>, j: nat, b: seq<Capture>, o: Outcome)
    ensures Extend(a, j, Extend(b, 1, o)) == Extend(a + b, j + 1, o)
  {
    if o.Accepted? {
      assert a + (b + o.captures) == (a + b) + o.captures;
    }
  }

  /**
   * `RegexMatcher::parse`: the cursor is set to the input once, before the
   * pattern loop, and each pattern continues from wherever the previous one
   * left it.
   */
  method Parse(m: RegexMatcher, text: string) returns (r: Option<MatchResult>)
    ensures r == RunPatterns(m.patterns, text)
  {
    var remaining := text;
    var k := 0;
    while k < |m.patterns|
      invariant 0 <= k <= |m.patterns|
      invariant RunPatterns(m.patterns, text) == RunPatterns(m.patterns[k..], remaining)
    {
      assert m.patterns[k..][0] == m.patterns[k];
      assert m.patterns[k..][1..] == m.patterns[k + 1..];
      var o := TryPattern(m.patterns[k].tokens, remaining);
      if o.Accepted? {
        return Some(MatchResult(m.patterns[k], o.captures));
      }
      remaining := o.rest;
      k := k + 1;
    }
    return None;
  }

  /**
   * The text a pattern's first tokens spell out, given what its extractors
   * captured: literals stand for themselves, each extractor for its capture.
   */
  function Render(tokens: seq<Token>, caps: seq<Capture>): string
    decreases |tokens|
  {
    if |tokens| == 0 then []
    else if tokens[0].Literal? then tokens[0].text + Render(tokens[1..], caps)
    else if |caps| == 0 then []
    else caps[0].value + Render(tokens[1..], caps[1..])
  }

  /**
   * An accepted pattern accounts for the whole text: its used tokens, with
   * each extractor replaced by its capture, spell out exactly the input.
   */
  lemma {:induction false} AcceptedTextIsRendered(tokens: seq<Token>, remaining: string)
    ensures RunTokens(tokens, remaining).Accepted? ==>
      var o := RunTokens(tokens, remaining);
      Render(tokens[..o.used], o.captures) == remaining
    decreases |tokens|
  {
    var o := RunTokens(tokens, remaining);
    if o.Accepted? {
      var step := Step(tokens[0], remaining);
      var (rest, caps) := step.value;
      var prefix := tokens[..o.used];
      assert prefix[0] == tokens[0];
      if |rest| == 0 {
        assert prefix[1..] == [];
        assert rest + [] == rest;
      } else {
        AcceptedTextIsRendered(tokens[1..], rest);
        var inner := RunTokens(tokens[1..], rest);
        assert prefix[1..] == tokens[1..][..inner.used];
        assert o.captures == caps + inner.captures;
        if tokens[0].Parser? {
          assert o.captures[0] == caps[0];
          assert o.captures[1..] == inner.captures;
          assert Render(prefix, o.captures) == caps[0].value + Render(prefix[1..], inner.captures);
        } else {
          assert o.captures == inner.captures;
        }
      }
    }
  }

  /** A pattern, tried alone against the whole input, is accepted. */
  predicate Accepts(p: Pattern, text: string) {
    RunTokens(p.tokens, text).Accepted?
  }

  /** Registering a further pattern never changes a match the matcher already finds: the first pattern to accept wins. */
  lemma {:induction false} AddPatternKeepsMatch(m: RegexMatcher, p: Pattern, text: string)
    requires RunPatterns(m.patterns, text).Some?
    ensures RunPatterns(AddPattern(m, p).patterns, text) == RunPatterns(m.patterns, text)
  {
    AppendKeepsMatch(m.patterns, p, text);
  }

  lemma {:induction false} AppendKeepsMatch(ps: seq<Pattern>, p: Pattern, text: string)
    requires RunPatterns(ps, text).Some?
    ensures RunPatterns(ps + [p], text) == RunPatterns(ps, text)
    decreases |ps|
  {
    var q := ps + [p];
    assert q[0] == ps[0];
    var o := RunTokens(ps[0].tokens, text);
    if o.Abandoned? {
      assert RunPatterns(ps, text) == RunPatterns(ps[1..], o.rest);
      assert q[1..] == ps[1..] + [p];
      assert RunPatterns(q, text) == RunPatterns(ps[1..] + [p], o.rest);
      AppendKeepsMatch(ps[1..], p, o.rest);
    }
  }

  /**
   * The cursor pattern `i` starts from when every earlier pattern was
   * abandoned: the whole input for the first pattern, and for each later one
   * whatever its predecessor left.
   */
  function CursorAt(ps: seq<Pattern>, text: string, i: nat): (c: string)
    requires i <= |ps|
    ensures IsSuffix(c, text)
    decreases i
  {
    if i == 0 then
      assert text[|text| - |text|..] == text;
      text
    else
      var before := CursorAt(ps, text, i - 1);
      match RunTokens(ps[i - 1].tokens, before)
      case Abandoned(rest) =>
        SuffixOfSuffix(rest, before, text);
        rest
      case Accepted(_, _) => before
  }

  /** Pattern `i` tried at the cursor it would be handed. */
  function TryAtCursor(ps: seq<Pattern>, text: string, i: nat): Option<MatchResult>
    requires i < |ps|
  {
    match RunTokens(ps[i].tokens, CursorAt(ps, text, i))
    case Accepted(caps, _) => Some(MatchResult(ps[i], caps))
    case Abandoned(_) => None
  }

  lemma {:induction false} RunPatternsIsFirstSome(ps: seq<Pattern>, text: string, i: nat)
    requires i <= |ps|
    ensures RunPatterns(ps[i..], CursorAt(ps, text, i))
      == FirstSome(seq(|ps|, k requires 0 <= k < |ps| => TryAtCursor(ps, text, k)), i)
    decreases |ps| - i
  {
    var rs := seq(|ps|, k requires 0 <= k < |ps| => TryAtCursor(ps, text, k));
    if i < |ps| {
      assert ps[i..][0] == ps[i] && ps[i..][1..] == ps[i + 1..];
      assert rs[i] == TryAtCursor(ps, text, i);
      RunPatternsIsFirstSome(ps, text, i + 1);
    }
  }

  /** The cursor only shrinks: each pattern hands on a tail of the cursor it was given. */
  lemma CursorShrinks(ps: seq<Pattern>, text: string, i: nat)
    requires i < |ps|
    ensures IsSuffix(CursorAt(ps, text, i + 1), CursorAt(ps, text, i))
  {
    var c := CursorAt(ps, text, i);
    assert c[|c| - |c|..] == c;
  }

  /**
   * The matcher as written answers with the first pattern, in insertion
   * order, that accepts at the cursor handed to it, and with nothing when no
   * pattern does.
   */
  lemma FirstAcceptingAtCursor(ps: seq<Pattern>, text: string)
    ensures RunPatterns(ps, text).Some? <==>
      exists i :: 0 <= i < |ps| && RunTokens(ps[i].tokens, CursorAt(ps, text, i)).Accepted?
    ensures RunPatterns(ps, text).Some? ==>
      exists i :: 0 <= i < |ps|
        && RunTokens(ps[i].tokens, CursorAt(ps, text, i)).Accepted?
        && (forall j :: 0 <= j < i ==> RunTokens(ps[j].tokens, CursorAt(ps, text, j)).Abandoned?)
        && RunPatterns(ps, text).value == MatchResult(ps[i], RunTokens(ps[i].tokens, CursorAt(ps, text, i)).captures)
  {
    var rs := seq(|ps|, k requires 0 <= k < |ps| => TryAtCursor(ps, text, k));
    assert ps[0..] == ps && CursorAt(ps, text, 0) == text;
    RunPatternsIsFirstSome(ps, text, 0);
    assert RunPatterns(ps, text) == FirstSome(rs, 0);
    FirstSomeIsFirst(rs, 0);
    forall k | 0 <= k < |ps|
      ensures rs[k].Some? <==> RunTokens(ps[k].tokens, CursorAt(ps, text, k)).Accepted?
      ensures rs[k].Some? ==> rs[k].value == MatchResult(ps[k], RunTokens(ps[k].tokens, CursorAt(ps, text, k)).captures)
    {
      assert rs[k] == TryAtCursor(ps, text, k);
    }
  }

  lemma SuffixOfSuffix(a: string, b: string, c: string)
    requires IsSuffix(a, b) && IsSuffix(b, c)
    ensures IsSuffix(a, c)
  {
    assert c[|c| - |b|..][|b| - |a|..] == c[|c| - |a|..];
  }

  // ----- the corrected matcher: every pattern starts from the whole input -----

  /** The pattern loop with the cursor put back to the start of the input for each pattern. */
  function RunPatternsFromStart(patterns: seq<Pattern>, text: string): Option<MatchResult>
    decreases |patterns|
  {
    if |patterns| == 0 then None
    else
      match RunTokens(patterns[0].tokens, text)
      case Accepted(caps, _) => Some(MatchResult(patterns[0], caps))
      case Abandoned(_) => RunPatternsFromStart(patterns[1..], text)
  }

  /** One pattern tried alone against the whole input. */
  function TryAlone(p: Pattern, text: string): (r: Option<MatchResult>)
    ensures r.Some? <==> Accepts(p, text)
    ensures r.Some? ==> r.value == MatchResult(p, RunTokens(p.tokens, text).captures)
  {
    match RunTokens(p.tokens, text)
    case Accepted(caps, _) => Some(MatchResult(p, caps))
    case Abandoned(_) => None
  }

  lemma {:induction false} FromStartIsFirstSome(ps: seq<Pattern>, text: string, i: nat)
    requires i <= |ps|
    ensures RunPatternsFromStart(ps[i..], text)
      == FirstSome(seq(|ps|, k requires 0 <= k < |ps| => TryAlone(ps[k], text)), i)
    decreases |ps| - i
  {
    var rs := seq(|ps|, k requires 0 <= k < |ps| => TryAlone(ps[k], text));
    if i < |ps| {
      assert ps[i..][0] == ps[i] && ps[i..][1..] == ps[i + 1..];
      assert rs[i] == TryAlone(ps[i], text);
      FromStartIsFirstSome(ps, text, i + 1);
    }
  }

  /**
   * With the cursor reset, the matcher answers with the first registered
   * pattern that accepts the input on its own, and with nothing exactly when
   * no pattern does.
   */
  lemma FromStartFirstAccepting(ps: seq<Pattern>, text: string)
    ensures RunPatternsFromStart(ps, text).Some? <==> exists i :: 0 <= i < |ps| && Accepts(ps[i], text)
    ensures RunPatternsFromStart(ps, text).Some? ==>
      exists i :: 0 <= i < |ps|
        && Accepts(ps[i], text)
        && (forall j :: 0 <= j < i ==> !Accepts(ps[j], text))
        && RunPatternsFromStart(ps, text).value == MatchResult(ps[i], RunTokens(ps[i].tokens, text).captures)
  {
    var rs := seq(|ps|, k requires 0 <= k < |ps| => TryAlone(ps[k], text));
    assert ps[0..] == ps;
    FromStartIsFirstSome(ps, text, 0);
    FirstSomeIsFirst(rs, 0);
    assert forall k :: 0 <= k < |ps| ==> rs[k] == TryAlone(ps[k], text);
  }
}

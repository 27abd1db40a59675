/**
 * The compiled-pattern vocabulary both matchers consume. These types belong
 * to the actiondb library the matchers are built on; only their observable
 * behaviour is modelled here.
 */
module Patterns {
  import opened Options

  /** The extractor that accepts nothing; it exists so `Consumer` is inhabited. */
  function NeverMatches(s: string): Option<nat> {
    None
  }

  /**
   * What an extractor does with its input: the length of the prefix it
   * accepts, or None. A parse result is a slice of the input, so it is never
   * longer than the input.
   */
  type Consumer = f: string -> Option<nat> | forall s: string :: f(s).Some? ==> f(s).value <= |s|
    witness NeverMatches

  /**
   * A field extractor (actiondb's `Parser`): `kind` is the tag `hash_os`
   * reports (one per extractor kind, not per configuration), `name` is the
   * field the capture is recorded under.
   */
  datatype Extractor = Extractor(kind: string, name: Option<string>, run: Consumer)

  datatype Token = Literal(text: string) | Parser(extractor: Extractor)

  type PatternId = nat

  /** A compiled pattern: its tokens in order, plus the identity reported on a match. */
  datatype Pattern = Pattern(id: PatternId, tokens: seq<Token>)

  /** One recorded extraction: the extractor's field name and the text it consumed. */
  datatype Capture = Capture(name: Option<string>, value: string)

  /** The pattern that matched and the captures gathered on the way, in insertion order. */
  datatype MatchResult = MatchResult(pattern: Pattern, captures: seq<Capture>)

  /** The pattern left after `pop_first_token`. */
  function Rest(p: Pattern): Pattern
    requires |p.tokens| > 0
  {
    p.(tokens := p.tokens[1..])
  }

  /** The capture an extractor produces when it consumes `n` characters of `s`. */
  function CaptureOf(e: Extractor, s: string, n: nat): Capture
    requires n <= |s|
  {
    Capture(e.name, s[..n])
  }

  /** The names of the parser tokens in `tokens`, in order; literals contribute nothing. */
  function ParserNames(tokens: seq<Token>): seq<Option<string>> {
    if |tokens| == 0 then []
    else (if tokens[0].Parser? then [tokens[0].extractor.name] else []) + ParserNames(tokens[1..])
  }

  /** How many characters of the input the captures account for together. */
  function CapturedLength(cs: seq<Capture>): nat {
    if |cs| == 0 then 0 else CapturedLength(cs[..|cs| - 1]) + |cs[|cs| - 1].value|
  }

  /** The names of a sequence of captures. */
  function CaptureNames(cs: seq<Capture>): seq<Option<string>> {
    if |cs| == 0 then [] else [cs[0].name] + CaptureNames(cs[1..])
  }
}

/**
 * The regex-backed extractors (`SetParser`, `IntParser`, `GreedyParser`) and
 * the factory that builds them. The factory only ever produces three regex
 * shapes, so instead of general regular expressions the model carries the
 * shape and gives `find` its meaning for each one.
 */
module RegexParsers {
  import opened Options
  import opened Strings
  import opened Patterns

  /** The three regex shapes the factory builds. */
  datatype Regex =
    | ClassAtStart(chars: set<char>)  // `^[class]`
    | EndAnchor                       // `$`
    | Marker(text: string)            // the end string, read as plain text

  /**
   * `Regex::find` for the three shapes: the start and end of the leftmost
   * match in `s`.
   */
  function Find(re: Regex, s: string): (r: Option<(nat, nat)>)
    ensures r.Some? ==> r.value.0 <= r.value.1 <= |s|
  {
    match re
    case ClassAtStart(chars) =>
      if |s| > 0 && s[0] in chars then Some((0, 1)) else None
    case EndAnchor => Some((|s|, |s|))
    case Marker(text) =>
      match IndexOf(s, text)
      case Some(i) => Some((i, i + |text|))
      case None => None
  }

  /** The optional parameters the factory accepts (and ignores). */
  datatype OptionalParameter = MinLen(min: nat) | MaxLen(max: nat)

  datatype RegexParser =
    | SetParser(name: Option<string>, regex: Regex)
    | IntParser(delegate: RegexParser)
    | GreedyParser(name: Option<string>, regex: Regex)

  const Digits: set<char> := {'0', '1', '2', '3', '4', '5', '6', '7', '8', '9'}

  /** `RegexParserFactory::new_set`: the regex `^[set]`; the optional parameters play no part. */
  function NewSet(chars: set<char>, name: Option<string>, optParams: Option<seq<OptionalParameter>>): (p: RegexParser)
    ensures Name(p) == name && HashOs(p) == "parser:set"
    ensures forall s :: Parse(p, s).Some? <==> |s| > 0 && s[0] in chars
    ensures forall s :: Parse(p, s).Some? ==> Parse(p, s).value == [s[0]]
  {
    SetParser(name, ClassAtStart(chars))
  }

  /** `RegexParserFactory::new_int`: a set parser over the digits, behind a delegate. */
  function NewInt(name: Option<string>, optParams: Option<seq<OptionalParameter>>): (p: RegexParser)
    ensures Name(p) == name && HashOs(p) == "parser:int"
    ensures forall s :: Parse(p, s).Some? <==> |s| > 0 && s[0] in Digits
    ensures forall s :: Parse(p, s).Some? ==> Parse(p, s).value == [s[0]]
  {
    IntParser(SetParser(name, ClassAtStart(Digits)))
  }

  /** `RegexParserFactory::new_greedy`: the end string as the regex, or `$` without one. */
  function NewGreedy(name: Option<string>, endString: Option<string>): (p: RegexParser)
    ensures Name(p) == name && HashOs(p) == "parser:greedy"
    ensures endString.None? ==> forall s :: Parse(p, s) == Some(s)
    ensures endString.Some? ==> forall s :: Parse(p, s).Some? <==> IndexOf(s, endString.value).Some?
    ensures endString.Some? ==> forall s :: Parse(p, s).Some? ==>
      |Parse(p, s).value| == IndexOf(s, endString.value).value + |endString.value|
  {
    match endString
    case Some(text) => GreedyParser(name, Marker(text))
    case None =>
      WholeSlice();
      GreedyParser(name, EndAnchor)
  }

  /** Slicing a string up to its own length gives the string back. */
  lemma WholeSlice()
    ensures forall s: string :: s[..|s|] == s
  {
    forall s: string ensures s[..|s|] == s {
      assert |s[..|s|]| == |s|;
    }
  }

  /**
   * `Parser::parse`: the input up to the END of the regex's leftmost match
   * (the parser body slices `value[..end]`); an `IntParser` asks its delegate.
   */
  function Parse(p: RegexParser, s: string): (r: Option<string>)
    ensures r.Some? ==> StartsWith(s, r.value)
  {
    match p
    case SetParser(_, re) =>
      (match Find(re, s) case Some((_, end)) => Some(s[..end]) case None => None)
    case GreedyParser(_, re) =>
      (match Find(re, s) case Some((_, end)) => Some(s[..end]) case None => None)
    case IntParser(delegate) => Parse(delegate, s)
  }

  /** `Parser::name`. */
  function Name(p: RegexParser): Option<string> {
    match p
    case SetParser(name, _) => name
    case GreedyParser(name, _) => name
    case IntParser(delegate) => Name(delegate)
  }

  /**
   * `ObjectSafeHash::hash_os`: the hash of a constant per kind. The model
   * keeps the hashed text itself as the tag.
   */
  function HashOs(p: RegexParser): string {
    match p
    case SetParser(_, _) => "parser:set"
    case IntParser(_) => "parser:int"
    case GreedyParser(_, _) => "parser:greedy"
  }

  /** A regex parser seen as a generic extractor, as a pattern token holds it. */
  function ToExtractor(p: RegexParser): (e: Extractor)
    ensures e.kind == HashOs(p) && e.name == Name(p)
    ensures forall s :: e.run(s).Some? <==> Parse(p, s).Some?
    ensures forall s :: e.run(s).Some? ==> e.run(s).value == |Parse(p, s).value|
  {
    Extractor(HashOs(p), Name(p), (s: string) => match Parse(p, s) case Some(v) => Some(|v|) case None => None)
  }

  /** A set parser's optional parameters change nothing: it is the parser built without them. */
  lemma SetParserConsumesOneChar(chars: set<char>, name: Option<string>, opts: Option<seq<OptionalParameter>>)
    ensures NewSet(chars, name, opts) == NewSet(chars, name, None)
  {
  }

  /** An int parser behaves as a set parser over the digits, under the same name. */
  lemma IntParserIsDigitSet(name: Option<string>, opts: Option<seq<OptionalParameter>>, s: string)
    ensures Parse(NewInt(name, opts), s) == Parse(NewSet(Digits, name, opts), s)
  {
  }

  /** Without an end string a greedy parser always succeeds and takes the whole input, even an empty one. */
  lemma GreedyTakesAll(name: Option<string>, s: string)
    ensures Parse(NewGreedy(name, None), s) == Some(s)
  {
    assert s[..|s|] == s;
  }

  /**
   * With an end string a greedy parser succeeds exactly when the marker
   * occurs, and consumes the input up to AND including its first occurrence.
   */
  lemma GreedyThroughMarker(name: Option<string>, marker: string, s: string)
    ensures Parse(NewGreedy(name, Some(marker)), s).Some?
        <==> exists j :: 0 <= j <= |s| && OccursAt(s, marker, j)
    ensures Parse(NewGreedy(name, Some(marker)), s).Some? ==>
      var v := Parse(NewGreedy(name, Some(marker)), s).value;
      && |marker| <= |v|
      && OccursAt(s, marker, |v| - |marker|)
      && (forall j :: 0 <= j < |v| - |marker| ==> !OccursAt(s, marker, j))
  {
  }

  /** The kind tag depends on the variant alone: never on a name, a class or an end string. */
  lemma HashOsIsPerKind(p: RegexParser, q: RegexParser)
    ensures HashOs(p) == HashOs(q) <==>
      (p.SetParser? && q.SetParser?) || (p.IntParser? && q.IntParser?) || (p.GreedyParser? && q.GreedyParser?)
  {
  }
}

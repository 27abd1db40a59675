# Matching strategies of the log-pattern benchmark suite

This project is a Dafny model of the matching-strategy layer of a
pattern-matching benchmark for log lines. It covers three parts of the Rust
code:

- **The regex field extractors** (`SetParser`, `IntParser`, `GreedyParser`)
  and `RegexParserFactory`, which builds them. The factory only ever builds
  three regex shapes: `^[class]`, `$`, and an end string. The model carries
  the shape instead of a general regex, and gives `Regex::find` its meaning
  for each shape (`RegexParsers.Find`). `hash_os` becomes the kind text the
  code hashes ("parser:set", "parser:int", "parser:greedy").
- **`RegexMatcher`, the linear strategy.** Patterns are kept in insertion
  order and tried one after another against a cursor into the input line
  (`LinearMatcher`).
- **`SuffixTable`, the prefix-indexed strategy.** Each node has literal
  entries, sorted by text, and parser entries, one per extractor kind. Every
  entry may end a pattern and may lead to a child node. Insert consumes a
  pattern one token per level. Parse looks up the longest common prefix among
  the literals and falls back to the parser entries (`SuffixTable`).

Shared vocabulary:

- A `Pattern` is an identity plus a sequence of tokens. Each token is a
  literal or an extractor.
- An extractor (`Patterns.Extractor`) is abstract. It has a kind tag, an
  optional field name and a `run` function that accepts a prefix of the
  input. The regex parsers are one concrete instance of it
  (`RegexParsers.ToExtractor`).
- A `MatchResult` is the matched pattern plus the captures in the order
  `MatchResult::insert` received them.

Strings are sequences of characters. Character order is code-point order,
which is also the byte order of UTF-8, so `Strings.Less` is the order that
Rust's `str::cmp` uses.

The main members model the code as written. Three places where the code
departs from its evident intent are listed under "## Findings". Each has a
concrete input that shows the problem and a corrected definition with the
intended property proved.

Two behaviours of the regex parsers are easy to misread. The set parser
is the regex `^[class]`, so it consumes exactly one character, and the
optional length parameters are accepted and ignored. A greedy parser with
an end string takes the input up to the END of the marker's first match, so
the marker is part of the captured value.

## Model

| member | source | states |
|---|---|---|
| RegexParsers.Find | src/suites/regex.rs:28 | a match of `^[class]`, `$` or an end string lies within the input, start before end |
| RegexParsers.Parse | src/suites/regex.rs:27-33 | a successful parse yields a prefix of the input |
| RegexParsers.ToExtractor | src/suites/regex.rs:27-36 | as a token's extractor, a regex parser has the parser's kind tag and name, and accepts exactly when the parser does, consuming as many characters as the parser's result holds |
| RegexParsers.NewSet | src/suites/regex.rs:123-131 | the built parser has the given name and the set kind tag; it succeeds iff the first character is in the class and then takes exactly that character |
| RegexParsers.NewInt | src/suites/regex.rs:132-141 | the built parser has the given name and the int kind tag; it succeeds iff the input starts with a digit and then takes exactly that digit |
| RegexParsers.NewGreedy | src/suites/regex.rs:142-156 | the built parser has the given name and the greedy kind tag; without an end string it takes the whole input; with one it succeeds iff the marker occurs and takes everything through the marker's first occurrence |
| RegexParsers.SetParserConsumesOneChar | src/suites/regex.rs:123-131 | the optional parameters make no difference: a set parser built with them is the one built without them |
| RegexParsers.IntParserIsDigitSet | src/suites/regex.rs:132-141 | on every input an int parser gives the same result as a set parser over the ten digits built with the same name and parameters |
| RegexParsers.GreedyTakesAll | src/suites/regex.rs:147-149 | without an end string a greedy parser always succeeds and takes the whole input |
| RegexParsers.GreedyThroughMarker | src/suites/regex.rs:143-146 | with an end string a greedy parser succeeds iff the marker occurs, and takes everything up to and including the marker's first occurrence |
| RegexParsers.HashOsIsPerKind | src/suites/regex.rs:55-118 | two regex parsers share a `hash_os` tag iff they are of the same kind, whatever their names, classes or end strings |
| LinearMatcher.AddPattern | src/suites/regex.rs:202-204 | the pattern list grows by one: earlier patterns keep their places and the new pattern is last |
| LinearMatcher.Step | src/suites/regex.rs:178-194 | a literal step succeeds iff the cursor starts with the literal, and cuts it off; an extractor step succeeds iff the extractor accepts; it then cuts off exactly the prefix the extractor accepted and records that text as one capture under the extractor's name |
| LinearMatcher.RunTokens | src/suites/regex.rs:176-198 | a pattern is accepted after using between 1 and all of its tokens; an abandoned pattern leaves a tail of its input |
| LinearMatcher.RunTokensMeaning | src/suites/regex.rs:176-198 | a pattern is accepted exactly when some token succeeds and leaves the cursor empty after every earlier token succeeded and left text; it is accepted right there, even with tokens left over, with the captures made so far and that many tokens used; it is abandoned, with the cursor as it then stands, when a token fails first or when every token succeeds and text is left |
| LinearMatcher.AcceptedWithTokensLeft | src/suites/regex.rs:195-197 | the pattern `a b` accepts the line "a" after its first token, because the cursor is empty |
| LinearMatcher.CapturesFollowParsers | src/suites/regex.rs:186-190 | an accepted pattern records exactly one capture per extractor among the tokens it used, in token order, each under that extractor's name |
| LinearMatcher.RunPatterns | src/suites/regex.rs:173-200 | a reported match names one of the registered patterns |
| LinearMatcher.TryPattern | src/suites/regex.rs:176-198 | the token loop with its early exits computes the same outcome as the recursive definition |
| LinearMatcher.Parse | src/suites/regex.rs:173-201 | the pattern loop with its shared cursor computes the same result as the recursive definition |
| LinearMatcher.AcceptedTextIsRendered | src/suites/regex.rs:177-197 | the tokens an accepted pattern used, with each extractor replaced by its capture, spell out exactly the text the pattern was given |
| LinearMatcher.CursorAt | src/suites/regex.rs:174 | the cursor each pattern is handed is a tail of the input line |
| LinearMatcher.CursorShrinks | src/suites/regex.rs:180-192 | each abandoned pattern hands on a tail of the cursor it was given, so the cursor only shrinks |
| LinearMatcher.FirstAcceptingAtCursor | src/suites/regex.rs:174-199 | the matcher as written matches iff some pattern accepts at the cursor handed to it; the result is the first such pattern in insertion order, every earlier one having been abandoned, with the captures it made |
| LinearMatcher.AddPatternKeepsMatch | src/suites/regex.rs:202-204 | registering another pattern never changes a match the matcher already finds |
| LinearMatcher.FromStartFirstAccepting | src/suites/regex.rs:174-176 | with the cursor reset per pattern, the matcher matches iff some pattern accepts the whole line alone, and returns the first such pattern with its captures |
| SuffixTable.NewEntry | src/suites/suffix_array/impls.rs:137-143 | a fresh entry has the given key and leads to no pattern under any path of keys |
| SuffixTable.Locate | src/suites/suffix_array/impls.rs:60 | the search answers with the key's index or its insertion point; every literal before that point is smaller than the key; the entry at a missing key's point is larger |
| SuffixTable.LocateSorted | src/suites/suffix_array/impls.rs:60-70 | in a sorted node a missing key is smaller than every entry from its insertion point on and equals no entry; a found key sits at no other index |
| SuffixTable.BinarySearch | src/suites/suffix_array/impls.rs:96-99 | on sorted literal entries, bisection gives the same answer as the reference search |
| SuffixTable.FindKind | src/suites/suffix_array/impls.rs:73-75 | the first parser entry whose kind tag equals the token's, or none when no entry has it |
| SuffixTable.EntryInsertWith | src/suites/suffix_array/interface.rs:18-26 | inserting through an entry keeps its key; a finished pattern becomes the entry's pattern and leaves its child alone; a longer pattern leaves the pattern alone and gives the entry a child |
| SuffixTable.InsertWith | src/suites/suffix_array/impls.rs:56-57 | inserting a pattern with no tokens leaves the node unchanged |
| SuffixTable.InsertPreservesValid | src/suites/suffix_array/impls.rs:56-93 | insertion keeps every node's literals strictly sorted and its parser kinds distinct, and leaves no entry with neither a pattern nor a child |
| SuffixTable.EntryInsertPreservesValid | src/suites/suffix_array/interface.rs:18-26 | inserting through an entry with a valid child yields a valid entry |
| SuffixTable.InsertLiteral | src/suites/suffix_array/impls.rs:59-71 | a literal first token adds its text to the node's literal texts and nothing else; the node grows by at most one entry; entries for other texts are unchanged; an existing entry for the text is reused in place, with the rest of the pattern inserted through it; a new entry sits at the search's insertion point; parser entries are untouched |
| SuffixTable.InsertParser | src/suites/suffix_array/impls.rs:72-83 | an extractor first token adds its kind to the node's kinds; it reuses the existing entry of that kind in place, keeping all others, or else appends a new entry; literal entries are untouched |
| SuffixTable.EntryInsertDiscardsChild | src/suites/suffix_array/impls.rs:85-88 | inserting a longer pattern through an entry gives it a child that holds only the rest of the new pattern, the same as if the entry had had no child |
| SuffixTable.LongestCommonPrefixAroundPos | src/suites/suffix_array/impls.rs:32-49 | the scan of the entries before and at the insertion point reports the longer shared prefix of the two, at an index that exists and with that entry's shared length; on a tie the earlier entry is kept |
| SuffixTable.LongestCommonPrefix | src/suites/suffix_array/impls.rs:95-115 | a reported position is a literal entry, and the reported length is the length of the prefix that entry's text shares with the input; an exact hit reports the whole input |
| SuffixTable.LongestCommonPrefixNeighbours | src/suites/suffix_array/impls.rs:106-113 | without an exact hit the lookup fails iff neither neighbour of the insertion point shares a character; otherwise it reports the longer of the two, the earlier one on a tie |
| SuffixTable.LongestCommonPrefixLookup | src/suites/suffix_array/impls.rs:95-115 | the binary search followed by the neighbour loop computes the same answer as the reference definition |
| SuffixTable.ParserEntryParseWith | src/suites/suffix_array/impls.rs:168-194 | a parser entry succeeds only when its extractor accepts, and its own capture is the last one in the result; without a child it succeeds iff the extractor takes the whole input, and then gives the entry's pattern with that one capture; the captures together are no longer than the input |
| SuffixTable.ParseWith | src/suites/suffix_array/impls.rs:240-270 | the captures of a match are together no longer than the input |
| SuffixTable.ParseParsersWith | src/suites/suffix_array/impls.rs:261-268 | the captures of a match found through the parser entries are together no longer than the input |
| SuffixTable.ParserEntryWithChild | src/suites/suffix_array/impls.rs:172-180 | a parser entry with a child succeeds iff the extractor accepts and the child parses what is left; the result is the child's, with this entry's capture appended |
| SuffixTable.EmptyParsesNothing | src/suites/suffix_array/impls.rs:240-270 | an empty table matches no input |
| SuffixTable.LiteralHitIgnoresParsers | src/suites/suffix_array/impls.rs:241-260 | once the lookup finds a literal, the node's parser entries cannot change the result |
| SuffixTable.LiteralHit | src/suites/suffix_array/impls.rs:242-259 | when a literal hit covers the whole input, the result is the entry's pattern with no captures, or no match if the entry has no pattern; when the hit covers less, the rest of the input goes to the entry's child, or there is no match if it has none |
| SuffixTable.ParseParsersFirstSuccess | src/suites/suffix_array/impls.rs:262-267 | the parser entries from a given index on yield a result iff one of them succeeds, and the result is that of the first to succeed |
| SuffixTable.ParserFallback | src/suites/suffix_array/impls.rs:261-268 | without a literal hit the node matches iff one of its parser entries succeeds, in stored order, and the first success is the result |
| SuffixTable.InsertThenLookup | src/suites/suffix_array/impls.rs:56-93 | after inserting a pattern, following its tokens' keys (literal text, extractor kind) from the root reaches the pattern, stored with its tokens consumed |
| SuffixTable.EntryInsertThenLookup | src/suites/suffix_array/interface.rs:18-26 | after inserting a pattern through an entry, its key path from that entry reaches the pattern |
| SuffixTable.ParseFindsStoredPattern | src/suites/suffix_array/impls.rs:240-270 | every pattern a parse reports is stored in the table under some key path |
| SuffixTable.InsertKeepingChildrenKeepsPaths | src/suites/suffix_array/impls.rs:85-88 | with the existing child reused, inserting never loses a pattern already reachable by a key path |
| SuffixTable.WholeLiteralRoundTrip | src/suites/suffix_array/impls.rs:244-249 | when a hit must cover the whole literal, a table holding one pattern of nonempty literals matches an input iff the input is the pattern's literals run together; the result is that pattern with no captures |
| Findings.CursorCarriedAcrossPatterns | src/suites/regex.rs:174-199 | with patterns `a b` and `a c`, the line "ac" is rejected although the second pattern accepts it alone; with the cursor reset the second pattern matches |
| Findings.PrefixOfLiteralAccepted | src/suites/suffix_array/impls.rs:244-249 | a table holding only the literal "abc" reports a match for "ab"; the whole-literal check rejects it |
| Findings.InsertDiscardsSubtree | src/suites/suffix_array/impls.rs:85-88 | after inserting `a b` and then `a c`, the path `a b` leads nowhere; reusing the child keeps it |
| Findings.InsertDiscardsSubtreeParse | src/suites/suffix_array/impls.rs:85-88 | "ab" parses to pattern 1 after inserting `a b`, and parses to nothing once `a c` is inserted as well |

## Left out

- General regular expressions. Only the three shapes the factory builds are modelled, and an end string is read as plain text. An end string containing regex metacharacters would mean something else in the code.
- The panics when a regex fails to compile, and the `expect` calls that cannot fail after a successful search or push.
- SuffixTable.ParserEntryParseWith requires an entry to hold a pattern or a child. The code panics at src/suites/suffix_array/impls.rs:183 on an entry with neither. Tables built by insert never contain one (SuffixTable.InsertPreservesValid), so the parse functions take validity as a precondition rather than modelling the panic.
- RegexParsers.HashOs: the 64-bit SipHash of the kind text is modelled as the text itself. Hash collisions between different kinds, which would merge their entries, are not modelled.
- Byte offsets versus characters. The code slices `str` by byte lengths, and the library's `common_prefix_len`, which is not part of this model, is assumed to count in the same unit as those slices. The model counts characters throughout, so it assumes that every length involved is measured in one consistent unit; where a character takes several bytes, the cuts are not modelled.
- The field map of `MatchResult`. The model keeps every capture, named or not, in the order `MatchResult::insert` received them. The map's rules (unnamed captures dropped, a repeated name overwritten) are not modelled. Suffix-table captures therefore appear innermost first.
- The suffix table's extractors come from a parser library that is not part of this model. They are modelled abstractly as `Patterns.Extractor`: a kind tag, an optional name and a function giving the length of the accepted prefix, at most the input's length. The library's `common_prefix_len` is `Strings.CommonPrefixLen` and `ltrunc(n)` is dropping the first `n` characters.
- Pattern identity is a natural number, not a UUID. The pattern stored in the table is the drained one, with its identity and no tokens left.
- `boxed_clone`, `Clone`, `Debug`, the matcher and parser factories' trait glue (`RegexMatcherFactory`, `RegexMatcherSuite`), the draft `src/suites/suffix_array.rs`, `src/suites/trie.rs`, the binaries, the benches and `bench.py`: they add no matching behaviour.
- `SuffixTable.Parse` and `SuffixTable.Insert` have no rows of their own. They are `ParseWith` and `InsertWith` at the code's settings, and the lemmas in the table state their behaviour.
- `RegexParsers.Name` and `RegexParsers.HashOs` have no rows of their own. They are an accessor and a table of three constants. What the code promises about them is stated by `NewSet`, `NewInt`, `NewGreedy`, `ToExtractor` and `HashOsIsPerKind`.
- Whether both strategies give the same result on the same pattern set. Because of the three findings below they do not, even on simple inputs.

## Findings

| source | as written | input that shows it | evidently intended | confidence | as-written member | corrected member |
|---|---|---|---|---|---|---|
| src/suites/regex.rs:174 | the cursor is set once, before the pattern loop, so a failed pattern's consumed text is lost to the next pattern | patterns `a b`, then `a c`; line "ac": no match | each pattern is tried against the whole line, so `a c` matches | high, not executed | Findings.CursorCarriedAcrossPatterns | LinearMatcher.FromStartFirstAccepting |
| src/suites/suffix_array/impls.rs:244 | a literal hit only checks that the shared prefix covers the input, not that it covers the literal | single pattern `abc`; input "ab": matches | an input matches a literal only if it contains the whole literal | high, not executed | Findings.PrefixOfLiteralAccepted | SuffixTable.WholeLiteralRoundTrip |
| src/suites/suffix_array/impls.rs:86-87 | insert always installs a fresh child, discarding the subtree already under the entry | insert `a b`, then `a c`; input "ab" no longer matches | the existing child is reused, so earlier patterns stay reachable | high, not executed | Findings.InsertDiscardsSubtreeParse | SuffixTable.InsertKeepingChildrenKeepsPaths |

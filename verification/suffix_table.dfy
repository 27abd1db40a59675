/**
 * `SuffixTable`: the prefix-indexed strategy. Each node keeps its literal
 * entries sorted by text (found by binary search) and its parser entries in
 * arrival order, one per extractor kind; every entry may end a pattern and
 * may lead to a child node for the tokens that follow.
 */
module SuffixTable {
  import opened Options
  import opened Strings
  import opened Patterns

  /** A node of the index. */
  datatype Table = Table(literals: seq<Entry<string>>, parsers: seq<Entry<Extractor>>)

  /**
   * `LiteralE` (key: the literal text) and `ParserE` (key: the extractor):
   * the pattern that ends here, if any, and the node for what follows, if any.
   */
  datatype Entry<K> = Entry(key: K, pattern: Option<Pattern>, child: Option<Table>)

  /** `SuffixTable::new`. */
  const Empty: Table := Table([], [])

  /** `LiteralE::new` / `ParserE::new`. */
  function NewEntry<K>(key: K): (e: Entry<K>)
    ensures e.key == key
    ensures forall rest :: EntryLookup(e, rest).None?
  {
    Entry(key, None, None)
  }

  // ----- the two invariants of a node -----

  /** Literal entries are strictly increasing by text, hence free of duplicates. */
  ghost predicate Sorted(lits: seq<Entry<string>>) {
    forall i, j :: 0 <= i < j < |lits| ==> Less(lits[i].key, lits[j].key)
  }

  /** No two parser entries share a kind tag. */
  ghost predicate DistinctKinds(ps: seq<Entry<Extractor>>) {
    forall i, j :: 0 <= i < j < |ps| ==> ps[i].key.kind != ps[j].key.kind
  }

  /**
   * The whole tree keeps both node invariants, and every entry ends a
   * pattern or has a child (so the `expect` in `ParserE::parse` never fires).
   */
  ghost predicate Valid(t: Table)
    decreases t, 1
  {
    && Sorted(t.literals)
    && DistinctKinds(t.parsers)
    && (forall i :: 0 <= i < |t.literals| ==> EntryValid(t.literals[i]))
    && (forall i :: 0 <= i < |t.parsers| ==> EntryValid(t.parsers[i]))
  }

  ghost predicate EntryValid<K>(e: Entry<K>)
    decreases e, 0
  {
    && (e.pattern.Some? || e.child.Some?)
    && (e.child.Some? ==> Valid(e.child.value))
  }

  // ----- finding a literal -----

  /** `binary_search_by`'s answer: the index of the key, or the index where it would go. */
  datatype Search = Found(pos: nat) | Missing(pos: nat)

  function LocateFrom(lits: seq<Entry<string>>, key: string, i: nat): (r: Search)
    requires i <= |lits|
    ensures i <= r.pos <= |lits|
    ensures r.Found? ==> r.pos < |lits| && lits[r.pos].key == key
    ensures forall j :: i <= j < r.pos ==> Less(lits[j].key, key)
    ensures r.Missing? && r.pos < |lits| ==> Less(key, lits[r.pos].key)
    decreases |lits| - i
  {
    if i == |lits| then Missing(i)
    else if Less(lits[i].key, key) then LocateFrom(lits, key, i + 1)
    else if lits[i].key == key then Found(i)
    else
      LessTotal(lits[i].key, key);
      Missing(i)
  }

  /**
   * Where `key` sits among the literal entries, by a scan from the front:
   * the reference the binary search is proved against.
   */
  function Locate(lits: seq<Entry<string>>, key: string): (r: Search)
    ensures r.pos <= |lits|
    ensures r.Found? ==> r.pos < |lits| && lits[r.pos].key == key
    ensures forall j :: 0 <= j < r.pos ==> Less(lits[j].key, key)
    ensures r.Missing? && r.pos < |lits| ==> Less(key, lits[r.pos].key)
  {
    LocateFrom(lits, key, 0)
  }

  /**
   * In a sorted node a found key is the only entry with that text, and a
   * missing key is below every entry from its insertion point on.
   */
  lemma LocateSorted(lits: seq<Entry<string>>, key: string)
    requires Sorted(lits)
    ensures Locate(lits, key).Missing? ==> forall j :: Locate(lits, key).pos <= j < |lits| ==> Less(key, lits[j].key)
    ensures Locate(lits, key).Missing? ==> forall j :: 0 <= j < |lits| ==> lits[j].key != key
    ensures Locate(lits, key).Found? ==> forall j :: 0 <= j < |lits| && j != Locate(lits, key).pos ==> lits[j].key != key
  {
    var r := Locate(lits, key);
    forall j | 0 <= j < |lits|
      ensures r.Missing? && r.pos <= j ==> Less(key, lits[j].key)
      ensures j < r.pos ==> lits[j].key != key
      ensures r.Missing? && r.pos <= j ==> lits[j].key != key
      ensures r.Found? && r.pos < j ==> lits[j].key != key
    {
      if j < r.pos {
        LessIrreflexive(key);
      }
      if r.Missing? && r.pos < j {
        LessTransitive(key, lits[r.pos].key, lits[j].key);
      }
      if r.Missing? && r.pos <= j {
        LessIrreflexive(key);
      }
      if r.Found? && r.pos < j {
        LessIrreflexive(key);
      }
    }
  }

  /** In a sorted node the search result is determined: a key at `i` is found at `i`. */
  lemma LocateAt(lits: seq<Entry<string>>, i: nat)
    requires Sorted(lits) && i < |lits|
    ensures Locate(lits, lits[i].key) == Found(i)
  {
    LocateSorted(lits, lits[i].key);
  }

  /** ... and a key strictly between the entries before and after `i` is missing at `i`. */
  lemma LocateBetween(lits: seq<Entry<string>>, key: string, i: nat)
    requires Sorted(lits) && i <= |lits|
    requires forall j :: 0 <= j < i ==> Less(lits[j].key, key)
    requires forall j :: i <= j < |lits| ==> Less(key, lits[j].key)
    ensures Locate(lits, key) == Missing(i)
  {
    LocateSorted(lits, key);
    LessIrreflexive(key);
    var r := Locate(lits, key);
    if r.pos < i {
      LessAsymmetric(lits[r.pos].key, key);
    } else if r.pos > i {
      LessAsymmetric(lits[i].key, key);
    }
  }

  /**
   * `binary_search_by` over a sorted node, comparing literal texts; it gives
   * the same answer as the scan.
   */
  method BinarySearch(lits: seq<Entry<string>>, key: string) returns (r: Search)
    requires Sorted(lits)
    ensures r == Locate(lits, key)
  {
    var lo, hi := 0, |lits|;
    while lo < hi
      invariant 0 <= lo <= hi <= |lits|
      invariant forall j :: 0 <= j < lo ==> Less(lits[j].key, key)
      invariant forall j :: hi <= j < |lits| ==> Less(key, lits[j].key)
      decreases hi - lo
    {
      var mid := (lo + hi) / 2;
      if Less(lits[mid].key, key) {
        forall j | lo <= j < mid
          ensures Less(lits[j].key, key)
        {
          LessTransitive(lits[j].key, lits[mid].key, key);
        }
        lo := mid + 1;
      } else if lits[mid].key == key {
        LocateAt(lits, mid);
        return Found(mid);
      } else {
        LessTotal(lits[mid].key, key);
        forall j | mid < j < hi
          ensures Less(key, lits[j].key)
        {
          LessTransitive(key, lits[mid].key, lits[j].key);
        }
        hi := mid;
      }
    }
    LocateBetween(lits, key, lo);
    return Missing(lo);
  }

  // ----- finding a parser entry -----

  /** `iter().position(...)`: the first parser entry whose extractor has the given kind tag. */
  function FindKind(ps: seq<Entry<Extractor>>, kind: string): (r: Option<nat>)
    ensures r.Some? ==> r.value < |ps| && ps[r.value].key.kind == kind
    ensures r.Some? ==> forall j :: 0 <= j < r.value ==> ps[j].key.kind != kind
    ensures r.None? ==> forall j :: 0 <= j < |ps| ==> ps[j].key.kind != kind
    decreases |ps|
  {
    if |ps| == 0 then None
    else if ps[0].key.kind == kind then Some(0)
    else
      match FindKind(ps[1..], kind)
      case Some(i) => Some(i + 1)
      case None => None
  }

  // ----- insertion -----

  /**
   * What happens to an entry's existing child when a longer pattern passes
   * through it: the code installs a fresh table (`FreshChild`); `KeepChild`
   * reuses the existing one.
   */
  datatype ChildPolicy = FreshChild | KeepChild

  /** `SuffixArray::insert`, one token per level. */
  function InsertWith(policy: ChildPolicy, t: Table, p: Pattern): (r: Table)
    ensures |p.tokens| == 0 ==> r == t
    decreases |p.tokens|, 0
  {
    if |p.tokens| == 0 then t
    else
      var rest := Rest(p);
      match p.tokens[0]
      case Literal(text) =>
        (match Locate(t.literals, text)
         case Found(i) =>
           t.(literals := t.literals[i := EntryInsertWith(policy, t.literals[i], rest)])
         case Missing(i) =>
           t.(literals := t.literals[..i] + [EntryInsertWith(policy, NewEntry(text), rest)] + t.literals[i..]))
      case Parser(e) =>
        match FindKind(t.parsers, e.kind)
        case Some(i) =>
          t.(parsers := t.parsers[i := EntryInsertWith(policy, t.parsers[i], rest)])
        case None =>
          t.(parsers := t.parsers + [EntryInsertWith(policy, NewEntry(e), rest)])
  }

  /**
   * `Entry::insert`: with tokens left, the entry gets a child holding them;
   * with none left, the entry ends the pattern. Only one of the two fields
   * changes, never the key, and afterwards the entry is never bare.
   */
  function EntryInsertWith<K>(policy: ChildPolicy, e: Entry<K>, p: Pattern): (r: Entry<K>)
    ensures r.key == e.key
    ensures r.pattern.Some? || r.child.Some?
    ensures |p.tokens| == 0 ==> r.pattern == Some(p) && r.child == e.child
    ensures |p.tokens| > 0 ==> r.pattern == e.pattern && r.child.Some?
    decreases |p.tokens|, 1
  {
    if |p.tokens| > 0 then
      var base := if policy == KeepChild then e.child.GetOr(Empty) else Empty;
      e.(child := Some(InsertWith(policy, base, p)))
    else
      e.(pattern := Some(p))
  }

  /** Insertion as the code does it. */
  function Insert(t: Table, p: Pattern): Table {
    InsertWith(FreshChild, t, p)
  }

  /** `Entry::insert` as the code does it. */
  function EntryInsert<K>(e: Entry<K>, p: Pattern): Entry<K> {
    EntryInsertWith(FreshChild, e, p)
  }

  // ----- what insertion preserves and changes -----

  lemma SortedInsertAt(lits: seq<Entry<string>>, i: nat, e: Entry<string>)
    requires Sorted(lits) && i <= |lits|
    requires forall j :: 0 <= j < i ==> Less(lits[j].key, e.key)
    requires forall j :: i <= j < |lits| ==> Less(e.key, lits[j].key)
    ensures Sorted(lits[..i] + [e] + lits[i..])
  {
    var r := lits[..i] + [e] + lits[i..];
    forall a, b | 0 <= a < b < |r|
      ensures Less(r[a].key, r[b].key)
    {
      if b < i {
        assert r[a] == lits[a] && r[b] == lits[b];
      } else if b == i {
        assert r[a] == lits[a] && r[b] == e;
      } else if a == i {
        assert r[a] == e && r[b] == lits[b - 1];
      } else if a < i {
        assert r[a] == lits[a] && r[b] == lits[b - 1];
      } else {
        assert r[a] == lits[a - 1] && r[b] == lits[b - 1];
      }
    }
  }

  lemma SortedUpdateAt(lits: seq<Entry<string>>, i: nat, e: Entry<string>)
    requires Sorted(lits) && i < |lits| && e.key == lits[i].key
    ensures Sorted(lits[i := e])
  {
  }

  /** Every way of inserting keeps the tree valid: sorted literals, distinct kinds, no bare entry. */
  lemma {:induction false} InsertPreservesValid(policy: ChildPolicy, t: Table, p: Pattern)
    requires Valid(t)
    ensures Valid(InsertWith(policy, t, p))
    decreases |p.tokens|, 2
  {
    if |p.tokens| > 0 {
      if p.tokens[0].Literal? {
        InsertLiteralPreservesValid(policy, t, p);
      } else {
        InsertParserPreservesValid(policy, t, p);
      }
    }
  }

  lemma {:induction false} InsertLiteralPreservesValid(policy: ChildPolicy, t: Table, p: Pattern)
    requires Valid(t) && |p.tokens| > 0 && p.tokens[0].Literal?
    ensures Valid(InsertWith(policy, t, p))
    decreases |p.tokens|, 1
  {
    var text := p.tokens[0].text;
    var rest := Rest(p);
    var r := InsertWith(policy, t, p);
    assert r.parsers == t.parsers;
    match Locate(t.literals, text) {
      case Found(i) =>
        var ne := EntryInsertWith(policy, t.literals[i], rest);
        assert r.literals == t.literals[i := ne];
        EntryInsertPreservesValid(policy, t.literals[i], rest);
        SortedUpdateAt(t.literals, i, ne);
      case Missing(i) =>
        var ne := EntryInsertWith(policy, NewEntry(text), rest);
        assert r.literals == t.literals[..i] + [ne] + t.literals[i..];
        EntryInsertPreservesValid(policy, NewEntry(text), rest);
        LocateSorted(t.literals, text);
        SortedInsertAt(t.literals, i, ne);
        forall j | 0 <= j < |r.literals|
          ensures EntryValid(r.literals[j])
        {
          if j < i {
            assert r.literals[j] == t.literals[j];
          } else if j > i {
            assert r.literals[j] == t.literals[j - 1];
          }
        }
    }
  }

  lemma {:induction false} InsertParserPreservesValid(policy: ChildPolicy, t: Table, p: Pattern)
    requires Valid(t) && |p.tokens| > 0 && p.tokens[0].Parser?
    ensures Valid(InsertWith(policy, t, p))
    decreases |p.tokens|, 1
  {
    var e := p.tokens[0].extractor;
    var rest := Rest(p);
    var r := InsertWith(policy, t, p);
    assert r.literals == t.literals;
    match FindKind(t.parsers, e.kind) {
      case Some(i) =>
        var ne := EntryInsertWith(policy, t.parsers[i], rest);
        assert r.parsers == t.parsers[i := ne];
        EntryInsertPreservesValid(policy, t.parsers[i], rest);
      case None =>
        var ne := EntryInsertWith(policy, NewEntry(e), rest);
        assert r.parsers == t.parsers + [ne];
        EntryInsertPreservesValid(policy, NewEntry(e), rest);
    }
  }

  lemma {:induction false} EntryInsertPreservesValid<K>(policy: ChildPolicy, e: Entry<K>, p: Pattern)
    requires e.child.Some? ==> Valid(e.child.value)
    ensures EntryValid(EntryInsertWith(policy, e, p))
    decreases |p.tokens|, 3
  {
    if |p.tokens| > 0 {
      var base := if policy == KeepChild then e.child.GetOr(Empty) else Empty;
      InsertPreservesValid(policy, base, p);
    }
  }

  /** The texts of a node's literal entries. */
  ghost function Texts(lits: seq<Entry<string>>): set<string> {
    set j | 0 <= j < |lits| :: lits[j].key
  }

  /** The kind tags of a node's parser entries. */
  ghost function Kinds(ps: seq<Entry<Extractor>>): set<string> {
    set j | 0 <= j < |ps| :: ps[j].key.kind
  }

  /** Sorted entries carry distinct texts. */
  lemma KeysDistinct(lits: seq<Entry<string>>, j: nat, k: nat)
    requires Sorted(lits) && j < |lits| && k < |lits|
    ensures j != k ==> lits[j].key != lits[k].key
  {
    LessIrreflexive(lits[j].key);
  }

  /** Replacing an entry by one with the same text keeps the texts and every entry of another text. */
  lemma UpdatedEntries(lits: seq<Entry<string>>, i: nat, ne: Entry<string>, r: seq<Entry<string>>)
    requires Sorted(lits) && i < |lits| && ne.key == lits[i].key && r == lits[i := ne]
    ensures Texts(r) == Texts(lits)
    ensures forall j, k :: 0 <= j < |lits| && 0 <= k < |r| && lits[j].key == r[k].key != ne.key ==> lits[j] == r[k]
  {
    assert forall j :: 0 <= j < |lits| ==> r[j].key == lits[j].key;
    assert Texts(r) == Texts(lits) by {
      forall x | x in Texts(lits) ensures x in Texts(r) {
        var j :| 0 <= j < |lits| && lits[j].key == x;
        assert r[j].key == x;
      }
    }
    forall j, k | 0 <= j < |lits| && 0 <= k < |lits| && lits[j].key == r[k].key != ne.key
      ensures lits[j] == r[k]
    {
      assert r[k] == lits[k];
      KeysDistinct(lits, j, k);
    }
  }

  /**
   * Placing an entry with a new text at its insertion point adds that text
   * and keeps every other entry.
   */
  lemma InsertedEntries(lits: seq<Entry<string>>, i: nat, ne: Entry<string>, r: seq<Entry<string>>)
    requires Sorted(lits) && i <= |lits| && r == lits[..i] + [ne] + lits[i..]
    requires forall j :: 0 <= j < i ==> Less(lits[j].key, ne.key)
    requires forall j :: i <= j < |lits| ==> Less(ne.key, lits[j].key)
    ensures ne.key !in Texts(lits)
    ensures Texts(r) == Texts(lits) + {ne.key}
    ensures forall j, k :: 0 <= j < |lits| && 0 <= k < |r| && lits[j].key == r[k].key != ne.key ==> lits[j] == r[k]
  {
    SortedInsertAt(lits, i, ne);
    LessIrreflexive(ne.key);
    assert forall j :: 0 <= j < i ==> r[j] == lits[j];
    assert forall j :: i <= j < |lits| ==> r[j + 1] == lits[j];
    assert r[i] == ne;
    assert Texts(r) == Texts(lits) + {ne.key} by {
      forall x | x in Texts(lits) ensures x in Texts(r) {
        var j :| 0 <= j < |lits| && lits[j].key == x;
        if j < i { assert r[j].key == x; } else { assert r[j + 1].key == x; }
      }
    }
    forall j, k | 0 <= j < |lits| && 0 <= k < |r| && lits[j].key == r[k].key != ne.key
      ensures lits[j] == r[k]
    {
      var k' := if j < i then j else j + 1;
      assert r[k'] == lits[j];
      KeysDistinct(r, k, k');
    }
  }

  /**
   * A literal token lands in this node's literal entries: afterwards its text
   * is present exactly once, no other text appears or disappears, the entries
   * of other texts are untouched, an existing entry for the text is reused
   * in place (the rest of the pattern goes through it), the node grows by one
   * entry exactly when the text was new (placed at the search's insertion
   * point), and the parser entries do not change.
   */
  lemma InsertLiteral(policy: ChildPolicy, t: Table, p: Pattern)
    requires Valid(t) && |p.tokens| > 0 && p.tokens[0].Literal?
    ensures var r := InsertWith(policy, t, p);
      && Texts(r.literals) == Texts(t.literals) + {p.tokens[0].text}
      && r.parsers == t.parsers
      && |r.literals| == |t.literals| + (if p.tokens[0].text in Texts(t.literals) then 0 else 1)
      && (forall j, k :: 0 <= j < |t.literals| && 0 <= k < |r.literals| && t.literals[j].key == r.literals[k].key != p.tokens[0].text
            ==> t.literals[j] == r.literals[k])
      && (Locate(t.literals, p.tokens[0].text).Found? ==>
            r.literals[Locate(t.literals, p.tokens[0].text).pos]
              == EntryInsertWith(policy, t.literals[Locate(t.literals, p.tokens[0].text).pos], Rest(p)))
      && (Locate(t.literals, p.tokens[0].text).Missing? ==>
            r.literals[Locate(t.literals, p.tokens[0].text).pos] == EntryInsertWith(policy, NewEntry(p.tokens[0].text), Rest(p)))
  {
    var text := p.tokens[0].text;
    LocateSorted(t.literals, text);
    match Locate(t.literals, text)
    case Found(i) =>
      var ne := EntryInsertWith(policy, t.literals[i], Rest(p));
      UpdatedEntries(t.literals, i, ne, t.literals[i := ne]);
    case Missing(i) =>
      var ne := EntryInsertWith(policy, NewEntry(text), Rest(p));
      InsertedEntries(t.literals, i, ne, t.literals[..i] + [ne] + t.literals[i..]);
  }

  /**
   * A parser token is merged by kind: the first entry of the same kind is
   * reused and keeps its original extractor; a new kind is appended at the
   * end. The literal entries do not change.
   */
  lemma InsertParser(policy: ChildPolicy, t: Table, p: Pattern)
    requires Valid(t) && |p.tokens| > 0 && p.tokens[0].Parser?
    ensures var r := InsertWith(policy, t, p);
      var e := p.tokens[0].extractor;
      && r.literals == t.literals
      && Kinds(r.parsers) == Kinds(t.parsers) + {e.kind}
      && (forall i :: 0 <= i < |t.parsers| && t.parsers[i].key.kind == e.kind ==>
            && |r.parsers| == |t.parsers|
            && r.parsers[i] == EntryInsertWith(policy, t.parsers[i], Rest(p))
            && (forall j :: 0 <= j < |t.parsers| && j != i ==> r.parsers[j] == t.parsers[j]))
      && (e.kind !in Kinds(t.parsers) ==>
            && |r.parsers| == |t.parsers| + 1
            && r.parsers[..|t.parsers|] == t.parsers
            && r.parsers[|t.parsers|] == EntryInsertWith(policy, NewEntry(e), Rest(p)))
  {
    var e := p.tokens[0].extractor;
    match FindKind(t.parsers, e.kind) {
      case Some(i) =>
        var ne := EntryInsertWith(policy, t.parsers[i], Rest(p));
        UpdatedKinds(t.parsers, i, ne, t.parsers[i := ne]);
      case None =>
        var ne := EntryInsertWith(policy, NewEntry(e), Rest(p));
        AppendedKinds(t.parsers, ne, t.parsers + [ne]);
    }
  }

  /** Replacing a parser entry by one with the same extractor keeps the kinds. */
  lemma UpdatedKinds(ps: seq<Entry<Extractor>>, i: nat, ne: Entry<Extractor>, r: seq<Entry<Extractor>>)
    requires i < |ps| && ne.key == ps[i].key && r == ps[i := ne]
    ensures Kinds(r) == Kinds(ps)
  {
    forall x | x in Kinds(ps) ensures x in Kinds(r) {
      var j :| 0 <= j < |ps| && ps[j].key.kind == x;
      assert r[j].key.kind == x;
    }
    forall x | x in Kinds(r) ensures x in Kinds(ps) {
      var j :| 0 <= j < |r| && r[j].key.kind == x;
      assert ps[j].key.kind == x;
    }
  }

  /** Appending a parser entry adds its kind. */
  lemma AppendedKinds(ps: seq<Entry<Extractor>>, ne: Entry<Extractor>, r: seq<Entry<Extractor>>)
    requires r == ps + [ne]
    ensures Kinds(r) == Kinds(ps) + {ne.key.kind}
  {
    forall x | x in Kinds(ps) ensures x in Kinds(r) {
      var j :| 0 <= j < |ps| && ps[j].key.kind == x;
      assert r[j].key.kind == x;
    }
    assert r[|ps|].key.kind == ne.key.kind;
    forall x | x in Kinds(r) ensures x in Kinds(ps) + {ne.key.kind} {
      var j :| 0 <= j < |r| && r[j].key.kind == x;
      if j < |ps| {
        assert ps[j].key.kind == x;
      }
    }
  }

  /**
   * `Entry::insert` with tokens left installs a brand-new table as the child,
   * so whatever subtree the entry had before plays no part in the result;
   * the terminal pattern is left alone.
   */
  lemma EntryInsertDiscardsChild<K>(e: Entry<K>, p: Pattern)
    requires |p.tokens| > 0
    ensures EntryInsert(e, p).child == EntryInsert(e.(child := None), p).child == Some(Insert(Empty, p))
    ensures EntryInsert(e, p).pattern == e.pattern
  {
  }

  // ----- the longest-common-prefix lookup -----

  /** How much of `value` the literal at index `i` shares; 0 where there is no entry. */
  function NeighbourLen(lits: seq<Entry<string>>, value: string, i: int): nat {
    if 0 <= i < |lits| then CommonPrefixLen(lits[i].key, value) else 0
  }

  function Max(a: nat, b: nat): nat {
    if a < b then b else a
  }

  /** One turn of the loop in `longest_common_prefix_around_pos`: a strictly longer shared prefix wins. */
  function Consider(lits: seq<Entry<string>>, value: string, i: nat, best: (nat, nat)): (nat, nat) {
    if i < |lits| && CommonPrefixLen(lits[i].key, value) > best.1 then (i, CommonPrefixLen(lits[i].key, value))
    else best
  }

  /** `Consider` applied to the indices `lo` up to `i - 1` in turn, starting from nothing found at `lo`. */
  function ScanFrom(lits: seq<Entry<string>>, value: string, lo: nat, i: nat): (nat, nat)
    requires lo <= i
    decreases i - lo
  {
    if i == lo then (lo, 0) else Consider(lits, value, i - 1, ScanFrom(lits, value, lo, i - 1))
  }

  /**
   * `longest_common_prefix_around_pos`: of the entries just before and at
   * `pos`, the one sharing the longer prefix with `value`; on a tie the one
   * before `pos` stays.
   */
  function LongestCommonPrefixAroundPos(lits: seq<Entry<string>>, value: string, pos: nat): (r: (nat, nat))
    ensures var lo := if pos > 0 then pos - 1 else pos;
      && r.1 == Max(NeighbourLen(lits, value, lo), NeighbourLen(lits, value, pos))
      && (r.1 > 0 ==> (r.0 == lo || r.0 == pos) && r.0 < |lits| && r.1 == CommonPrefixLen(lits[r.0].key, value))
      && (r.1 > 0 && NeighbourLen(lits, value, lo) == r.1 ==> r.0 == lo)
  {
    var lo := if pos > 0 then pos - 1 else pos;
    var first := Consider(lits, value, lo, (lo, 0));
    if lo < pos then Consider(lits, value, pos, first) else first
  }

  /**
   * `longest_common_prefix`: an exact hit reports the whole of `value`;
   * otherwise the better of the two neighbours of the insertion point, if it
   * shares anything at all.
   */
  function LongestCommonPrefix(t: Table, value: string): (r: Option<(nat, nat)>)
    ensures r.Some? ==> r.value.0 < |t.literals|
    ensures r.Some? ==> r.value.1 <= |value| && r.value.1 <= |t.literals[r.value.0].key|
    ensures r.Some? ==> r.value.1 == CommonPrefixLen(t.literals[r.value.0].key, value)
    ensures Locate(t.literals, value).Found? ==> r == Some((Locate(t.literals, value).pos, |value|))
  {
    match Locate(t.literals, value)
    case Found(pos) => Some((pos, CommonPrefixLen(t.literals[pos].key, value)))
    case Missing(pos) =>
      var (p, n) := LongestCommonPrefixAroundPos(t.literals, value, pos);
      if n > 0 then Some((p, n)) else None
  }

  /**
   * Without an exact hit only the entries at `pos - 1` and `pos` (the
   * insertion point) are looked at: the answer is absent exactly when
   * neither shares a nonempty prefix, and otherwise is the longer of the
   * two, the earlier one on a tie.
   */
  lemma LongestCommonPrefixNeighbours(t: Table, value: string)
    requires Locate(t.literals, value).Missing?
    ensures var pos := Locate(t.literals, value).pos;
      var before := NeighbourLen(t.literals, value, pos - 1);
      var at := NeighbourLen(t.literals, value, pos);
      var r := LongestCommonPrefix(t, value);
      && (r.None? <==> before == 0 && at == 0)
      && (r.Some? ==> r.value.1 == Max(before, at) && (r.value.0 == pos - 1 || r.value.0 == pos))
      && (r.Some? && before == r.value.1 ==> r.value.0 == pos - 1)
  {
  }

  /**
   * The lookup as the code runs it: a binary search, then the loop over the
   * neighbours of the insertion point.
   */
  method LongestCommonPrefixLookup(t: Table, value: string) returns (r: Option<(nat, nat)>)
    requires Sorted(t.literals)
    ensures r == LongestCommonPrefix(t, value)
  {
    var search := BinarySearch(t.literals, value);
    if search.Found? {
      return Some((search.pos, CommonPrefixLen(t.literals[search.pos].key, value)));
    }
    var pos := search.pos;
    var minPos := pos;
    var minLen := 0;
    if pos > 0 {
      minPos := pos - 1;
    }
    var lo := minPos;
    var i := lo;
    while i < pos + 1
      invariant lo <= i <= pos + 1
      invariant (minPos, minLen) == ScanFrom(t.literals, value, lo, i)
    {
      if i < |t.literals| {
        var len := CommonPrefixLen(t.literals[i].key, value);
        if len > minLen {
          minPos := i;
          minLen := len;
        }
      }
      i := i + 1;
    }
    assert ScanFrom(t.literals, value, lo, pos + 1) == LongestCommonPrefixAroundPos(t.literals, value, pos);
    if minLen > 0 {
      return Some((minPos, minLen));
    }
    return None;
  }

  // ----- parsing -----

  /**
   * How much of a literal a hit must cover: the code accepts the shared
   * prefix (`SharedPrefix`); `WholeLiteral` demands the entire literal.
   */
  datatype LiteralCheck = SharedPrefix | WholeLiteral

  /**
   * `Matcher::parse` on a node: a literal hit decides alone (the parser
   * entries are not consulted); without one, the parser entries are tried
   * in order.
   */
  function ParseWith(check: LiteralCheck, t: Table, value: string): (r: Option<MatchResult>)
    requires Valid(t)
    ensures r.Some? ==> CapturedLength(r.value.captures) <= |value|
    decreases t, 1
  {
    match LongestCommonPrefix(t, value)
    case Some((pos, len)) =>
      var entry := t.literals[pos];
      assert EntryValid(entry);
      if check == WholeLiteral && len < |entry.key| then None
      else if len == |value| then
        (match entry.pattern
         case Some(pattern) => Some(MatchResult(pattern, []))
         case None => None)
      else if len < |value| then
        (match entry.child
         case Some(child) => ParseWith(check, child, value[len..])
         case None => None)
      else None
    case None => ParseParsersWith(check, t, 0, value)
  }

  /** The loop over the parser entries from index `i`: the first success wins. */
  function ParseParsersWith(check: LiteralCheck, t: Table, i: nat, value: string): (r: Option<MatchResult>)
    requires Valid(t) && i <= |t.parsers|
    ensures r.Some? ==> CapturedLength(r.value.captures) <= |value|
    decreases t, 0, |t.parsers| - i
  {
    if i == |t.parsers| then None
    else
      match ParserEntryParseWith(check, t.parsers[i], value)
      case Some(result) => Some(result)
      case None => ParseParsersWith(check, t, i + 1, value)
  }

  /**
   * `ParserE::parse`: the extractor takes a prefix; with a child the rest
   * must parse there and this capture joins the child's result; without one
   * the rest must be empty and the entry's pattern is the result.
   */
  function ParserEntryParseWith(check: LiteralCheck, e: Entry<Extractor>, value: string): (r: Option<MatchResult>)
    requires EntryValid(e)
    ensures r.Some? ==> e.key.run(value).Some?
    ensures r.Some? ==>
      && |r.value.captures| > 0
      && r.value.captures[|r.value.captures| - 1] == CaptureOf(e.key, value, e.key.run(value).value)
    ensures e.child.None? ==> (r.Some? <==> e.key.run(value) == Some(|value|))
    ensures e.child.None? && r.Some? ==> r.value == MatchResult(e.pattern.value, [CaptureOf(e.key, value, |value|)])
    ensures r.Some? ==> CapturedLength(r.value.captures) <= |value|
    decreases e, 0
  {
    match e.key.run(value)
    case None => None
    case Some(n) =>
      var capture := CaptureOf(e.key, value, n);
      match e.child
      case Some(child) =>
        (match ParseWith(check, child, value[n..])
         case Some(result) =>
           assert (result.captures + [capture])[..|result.captures|] == result.captures;
           Some(result.(captures := result.captures + [capture]))
         case None => None)
      case None =>
        if n == |value| then Some(MatchResult(e.pattern.value, [capture])) else None
  }

  /** The suffix table's parse, as the code does it. */
  function Parse(t: Table, value: string): Option<MatchResult>
    requires Valid(t)
  {
    ParseWith(SharedPrefix, t, value)
  }

  // ----- what parsing promises -----

  /** An empty table parses nothing. */
  lemma EmptyParsesNothing(check: LiteralCheck, value: string)
    ensures ParseWith(check, Empty, value).None?
  {
  }

  /**
   * A literal hit suppresses the parser entries: once the lookup finds a
   * literal, the node's parser entries could be anything at all and the
   * result would be the same.
   */
  lemma LiteralHitIgnoresParsers(check: LiteralCheck, t: Table, ps: seq<Entry<Extractor>>, value: string)
    requires Valid(t) && Valid(t.(parsers := ps))
    requires LongestCommonPrefix(t, value).Some?
    ensures ParseWith(check, t, value) == ParseWith(check, t.(parsers := ps), value)
  {
  }

  /**
   * On a literal hit of length `len`: covering all of `value`, the entry's
   * terminal pattern is the result with no captures (no match without one);
   * covering less, the rest of `value` goes to the entry's child (no match
   * without one). Only the shared prefix is checked, not that the whole
   * literal was consumed.
   */
  lemma LiteralHit(t: Table, value: string)
    requires Valid(t) && LongestCommonPrefix(t, value).Some?
    ensures var (pos, len) := LongestCommonPrefix(t, value).value;
      var entry := t.literals[pos];
      && (len == |value| ==>
            && (Parse(t, value).Some? <==> entry.pattern.Some?)
            && (Parse(t, value).Some? ==> Parse(t, value).value == MatchResult(entry.pattern.value, [])))
      && (len < |value| ==>
            && (entry.child.None? ==> Parse(t, value).None?)
            && (entry.child.Some? ==> Valid(entry.child.value) && Parse(t, value) == Parse(entry.child.value, value[len..])))
  {
    var (pos, len) := LongestCommonPrefix(t, value).value;
    assert EntryValid(t.literals[pos]);
  }

  /** What each parser entry of a node makes of `value`, in stored order. */
  ghost function Attempts(check: LiteralCheck, t: Table, value: string): (rs: seq<Option<MatchResult>>)
    requires Valid(t)
    ensures |rs| == |t.parsers|
    ensures forall k :: 0 <= k < |rs| ==> rs[k] == ParserEntryParseWith(check, t.parsers[k], value)
  {
    seq(|t.parsers|, k requires 0 <= k < |t.parsers| => ParserEntryParseWith(check, t.parsers[k], value))
  }

  lemma {:induction false} ParseParsersIsFirstSome(check: LiteralCheck, t: Table, i: nat, value: string)
    requires Valid(t) && i <= |t.parsers|
    ensures ParseParsersWith(check, t, i, value) == FirstSome(Attempts(check, t, value), i)
    decreases |t.parsers| - i
  {
    if i < |t.parsers| {
      var rs := Attempts(check, t, value);
      assert rs[i] == ParserEntryParseWith(check, t.parsers[i], value);
      if rs[i].None? {
        ParseParsersIsFirstSome(check, t, i + 1, value);
      }
    }
  }

  /**
   * From index `i` on, the parser entries are tried in order and the first
   * one that succeeds gives the result.
   */
  lemma ParseParsersFirstSuccess(check: LiteralCheck, t: Table, i: nat, value: string)
    requires Valid(t) && i <= |t.parsers|
    ensures ParseParsersWith(check, t, i, value).Some? <==>
      exists k :: i <= k < |t.parsers| && ParserEntryParseWith(check, t.parsers[k], value).Some?
    ensures ParseParsersWith(check, t, i, value).Some? ==>
      exists k :: i <= k < |t.parsers|
        && ParseParsersWith(check, t, i, value) == ParserEntryParseWith(check, t.parsers[k], value)
        && forall j :: i <= j < k ==> ParserEntryParseWith(check, t.parsers[j], value).None?
  {
    ParseParsersIsFirstSome(check, t, i, value);
    FirstSomeIsFirst(Attempts(check, t, value), i);
  }

  /**
   * Without a literal hit the parser entries are tried in their stored
   * order: the node parses exactly when one of them does, and the result is
   * that of the first one that does.
   */
  lemma ParserFallback(check: LiteralCheck, t: Table, value: string)
    requires Valid(t) && LongestCommonPrefix(t, value).None?
    ensures ParseWith(check, t, value).Some? <==>
      exists k :: 0 <= k < |t.parsers| && ParserEntryParseWith(check, t.parsers[k], value).Some?
    ensures ParseWith(check, t, value).Some? ==>
      exists k :: 0 <= k < |t.parsers|
        && ParseWith(check, t, value) == ParserEntryParseWith(check, t.parsers[k], value)
        && forall j :: 0 <= j < k ==> ParserEntryParseWith(check, t.parsers[j], value).None?
  {
    ParseParsersFirstSuccess(check, t, 0, value);
  }

  /**
   * A parser entry with a child succeeds exactly when its extractor accepts
   * a prefix and the child parses the remainder; the result is the child's,
   * with this entry's capture added at the end.
   */
  lemma ParserEntryWithChild(check: LiteralCheck, e: Entry<Extractor>, value: string)
    requires EntryValid(e) && e.child.Some?
    ensures ParserEntryParseWith(check, e, value).Some? <==>
      && e.key.run(value).Some?
      && ParseWith(check, e.child.value, value[e.key.run(value).value..]).Some?
    ensures ParserEntryParseWith(check, e, value).Some? ==>
      var n := e.key.run(value).value;
      var inner := ParseWith(check, e.child.value, value[n..]).value;
      ParserEntryParseWith(check, e, value).value
        == MatchResult(inner.pattern, inner.captures + [CaptureOf(e.key, value, n)])
  {
  }

  // ----- where patterns are stored -----

  /** The key a token is filed under: a literal by its text, an extractor by its kind tag. */
  datatype Key = LiteralKey(text: string) | KindKey(kind: string)

  function KeyOf(tok: Token): Key {
    match tok
    case Literal(text) => LiteralKey(text)
    case Parser(e) => KindKey(e.kind)
  }

  function KeyPath(tokens: seq<Token>): (path: seq<Key>)
    ensures |path| == |tokens|
  {
    if |tokens| == 0 then [] else [KeyOf(tokens[0])] + KeyPath(tokens[1..])
  }

  /** The pattern filed under the path of keys `path`, if any. */
  function Lookup(t: Table, path: seq<Key>): Option<Pattern>
    decreases |path|, 0
  {
    if |path| == 0 then None
    else
      match path[0]
      case LiteralKey(text) =>
        (match Locate(t.literals, text)
         case Found(i) => EntryLookup(t.literals[i], path[1..])
         case Missing(_) => None)
      case KindKey(kind) =>
        match FindKind(t.parsers, kind)
        case Some(i) => EntryLookup(t.parsers[i], path[1..])
        case None => None
  }

  function EntryLookup<K>(e: Entry<K>, rest: seq<Key>): Option<Pattern>
    decreases |rest|, 1
  {
    if |rest| == 0 then e.pattern
    else
      match e.child
      case Some(child) => Lookup(child, rest)
      case None => None
  }

  lemma FindKindAt(ps: seq<Entry<Extractor>>, i: nat)
    requires DistinctKinds(ps) && i < |ps|
    ensures FindKind(ps, ps[i].key.kind) == Some(i)
  {
  }

  /**
   * After inserting a pattern, its own path of keys leads to it (with its
   * tokens used up, as the code stores it), whichever child policy is used.
   */
  lemma {:induction false} InsertThenLookup(policy: ChildPolicy, t: Table, p: Pattern)
    requires Valid(t) && |p.tokens| > 0
    ensures Lookup(InsertWith(policy, t, p), KeyPath(p.tokens)) == Some(p.(tokens := []))
    decreases |p.tokens|, 0
  {
    var r := InsertWith(policy, t, p);
    var rest := Rest(p);
    var path := KeyPath(p.tokens);
    assert path[1..] == KeyPath(rest.tokens);
    InsertPreservesValid(policy, t, p);
    match p.tokens[0] {
      case Literal(text) =>
        var i := Locate(t.literals, text).pos;
        if Locate(t.literals, text).Found? {
          EntryInsertThenLookup(policy, t.literals[i], rest);
          assert r.literals[i] == EntryInsertWith(policy, t.literals[i], rest);
        } else {
          EntryInsertThenLookup(policy, NewEntry(text), rest);
          assert r.literals[i] == EntryInsertWith(policy, NewEntry(text), rest);
        }
        LocateAt(r.literals, i);
      case Parser(e) =>
        match FindKind(t.parsers, e.kind) {
          case Some(i) =>
            EntryInsertThenLookup(policy, t.parsers[i], rest);
            assert r.parsers[i] == EntryInsertWith(policy, t.parsers[i], rest);
            FindKindAt(r.parsers, i);
          case None =>
            EntryInsertThenLookup(policy, NewEntry(e), rest);
            assert r.parsers[|t.parsers|] == EntryInsertWith(policy, NewEntry(e), rest);
            FindKindAt(r.parsers, |t.parsers|);
        }
    }
  }

  lemma {:induction false} EntryInsertThenLookup<K>(policy: ChildPolicy, e: Entry<K>, p: Pattern)
    requires e.child.Some? ==> Valid(e.child.value)
    ensures EntryLookup(EntryInsertWith(policy, e, p), KeyPath(p.tokens)) == Some(p.(tokens := []))
    decreases |p.tokens|, 1
  {
    if |p.tokens| > 0 {
      var base := if policy == KeepChild then e.child.GetOr(Empty) else Empty;
      InsertThenLookup(policy, base, p);
    } else {
      assert p.(tokens := []) == p;
    }
  }

  /**
   * Whatever the parse of a valid table reports is a pattern stored in it:
   * some path of keys leads to exactly that pattern.
   */
  lemma {:induction false} ParseFindsStoredPattern(check: LiteralCheck, t: Table, value: string)
    requires Valid(t) && ParseWith(check, t, value).Some?
    ensures exists path :: Lookup(t, path) == Some(ParseWith(check, t, value).value.pattern)
    decreases t, 1
  {
    var result := ParseWith(check, t, value).value;
    match LongestCommonPrefix(t, value) {
      case Some((pos, len)) =>
        var entry := t.literals[pos];
        assert EntryValid(entry);
        LocateAt(t.literals, pos);
        if len == |value| {
          var path := [LiteralKey(entry.key)];
          assert path[1..] == [];
          assert Lookup(t, path) == Some(result.pattern);
        } else {
          var child := entry.child.value;
          ParseFindsStoredPattern(check, child, value[len..]);
          var sub :| Lookup(child, sub) == Some(result.pattern);
          var path := [LiteralKey(entry.key)] + sub;
          assert path[1..] == sub;
          assert Lookup(t, path) == Some(result.pattern);
        }
      case None =>
        ParseParsersFindsStoredPattern(check, t, 0, value);
    }
  }

  lemma {:induction false} ParseParsersFindsStoredPattern(check: LiteralCheck, t: Table, i: nat, value: string)
    requires Valid(t) && i <= |t.parsers| && ParseParsersWith(check, t, i, value).Some?
    ensures exists path :: Lookup(t, path) == Some(ParseParsersWith(check, t, i, value).value.pattern)
    decreases t, 0, |t.parsers| - i
  {
    var e := t.parsers[i];
    var here := ParserEntryParseWith(check, e, value);
    if here.Some? {
      ParserEntryFindsStoredPattern(check, e, value);
      var sub :| EntryLookup(e, sub) == Some(here.value.pattern);
      var path := [KindKey(e.key.kind)] + sub;
      assert path[1..] == sub;
      FindKindAt(t.parsers, i);
      assert Lookup(t, path) == Some(here.value.pattern);
    } else {
      ParseParsersFindsStoredPattern(check, t, i + 1, value);
    }
  }

  lemma {:induction false} ParserEntryFindsStoredPattern(check: LiteralCheck, e: Entry<Extractor>, value: string)
    requires EntryValid(e) && ParserEntryParseWith(check, e, value).Some?
    ensures exists rest :: EntryLookup(e, rest) == Some(ParserEntryParseWith(check, e, value).value.pattern)
    decreases e, 0
  {
    var result := ParserEntryParseWith(check, e, value).value;
    var n := e.key.run(value).value;
    match e.child {
      case Some(child) =>
        ParseFindsStoredPattern(check, child, value[n..]);
        var sub :| Lookup(child, sub) == Some(result.pattern);
        assert |sub| > 0;
        assert EntryLookup(e, sub) == Some(result.pattern);
      case None =>
        assert EntryLookup(e, []) == Some(result.pattern);
    }
  }

  // ----- the corrected insertion: existing children are kept -----

  /** Insertion that reuses an entry's existing child instead of replacing it. */
  function InsertKeepingChildren(t: Table, p: Pattern): Table {
    InsertWith(KeepChild, t, p)
  }

  /**
   * Keeping children, an insertion never loses a pattern: every path of
   * keys that led to a pattern before still leads to one afterwards.
   */
  lemma {:induction false} InsertKeepingChildrenKeepsPaths(t: Table, p: Pattern, q: seq<Key>)
    requires Valid(t) && Lookup(t, q).Some?
    ensures Lookup(InsertKeepingChildren(t, p), q).Some?
    decreases |p.tokens|, 0
  {
    if |p.tokens| > 0 {
      var r := InsertWith(KeepChild, t, p);
      var rest := Rest(p);
      InsertPreservesValid(KeepChild, t, p);
      match q[0] {
        case LiteralKey(s) =>
          var j := Locate(t.literals, s).pos;
          assert EntryValid(t.literals[j]);
          if p.tokens[0].Literal? {
            var text := p.tokens[0].text;
            InsertLiteral(KeepChild, t, p);
            if text == s {
              assert r.literals[j] == EntryInsertWith(KeepChild, t.literals[j], rest);
              LocateAt(r.literals, j);
              EntryKeepingChildrenKeepsPaths(t.literals[j], rest, q[1..]);
            } else {
              assert s in Texts(t.literals);
              var k :| 0 <= k < |r.literals| && r.literals[k].key == s;
              assert r.literals[k] == t.literals[j];
              LocateAt(r.literals, k);
            }
          } else {
            assert r.literals == t.literals;
          }
        case KindKey(kind) =>
          var j := FindKind(t.parsers, kind).value;
          assert EntryValid(t.parsers[j]);
          if p.tokens[0].Parser? {
            var e := p.tokens[0].extractor;
            InsertParser(KeepChild, t, p);
            if e.kind == kind {
              EntryKeepingChildrenKeepsPaths(t.parsers[j], rest, q[1..]);
            } else {
              assert r.parsers[j] == t.parsers[j] by {
                if e.kind !in Kinds(t.parsers) {
                  assert r.parsers[..|t.parsers|][j] == t.parsers[j];
                } else {
                  var i :| 0 <= i < |t.parsers| && t.parsers[i].key.kind == e.kind;
                }
              }
            }
            FindKindAt(r.parsers, j);
          } else {
            assert r.parsers == t.parsers;
          }
      }
    }
  }

  lemma {:induction false} EntryKeepingChildrenKeepsPaths<K>(e: Entry<K>, p: Pattern, rest: seq<Key>)
    requires (e.child.Some? ==> Valid(e.child.value)) && EntryLookup(e, rest).Some?
    ensures EntryLookup(EntryInsertWith(KeepChild, e, p), rest).Some?
    decreases |p.tokens|, 1
  {
    if |p.tokens| > 0 && |rest| > 0 {
      InsertKeepingChildrenKeepsPaths(e.child.value, p, rest);
    }
  }

  // ----- the corrected parse: a literal hit must cover the whole literal -----

  /** Parsing that accepts a literal hit only when the entire literal was matched. */
  function ParseWholeLiteral(t: Table, value: string): Option<MatchResult>
    requires Valid(t)
  {
    ParseWith(WholeLiteral, t, value)
  }

  /** The literals of a literal-only token list, run together. */
  function Spelled(tokens: seq<Token>): string
    requires forall i :: 0 <= i < |tokens| ==> tokens[i].Literal?
  {
    if |tokens| == 0 then [] else tokens[0].text + Spelled(tokens[1..])
  }

  /** The tokens are all literals, none of them empty. */
  predicate NonEmptyLiterals(tokens: seq<Token>) {
    forall i :: 0 <= i < |tokens| ==> tokens[i].Literal? && |tokens[i].text| > 0
  }

  /** In a node with a single literal entry, the lookup reports how much of that literal `value` shares. */
  lemma SingleLiteralLookup(e: Entry<string>, value: string)
    ensures var cpl := CommonPrefixLen(e.key, value);
      LongestCommonPrefix(Table([e], []), value)
        == if value == e.key || cpl > 0 then Some((0, cpl)) else None
  {
  }

  /**
   * The corrected parse of a node holding a single nonempty literal: the
   * input must begin with the literal, and then either is the literal (the
   * entry's pattern answers) or continues into the entry's child.
   */
  lemma SingleLiteralParse(e: Entry<string>, value: string)
    requires EntryValid(e) && |e.key| > 0
    ensures Valid(Table([e], []))
    ensures ParseWholeLiteral(Table([e], []), value) ==
      if !StartsWith(value, e.key) then None
      else if |value| == |e.key| then
        (match e.pattern case Some(pattern) => Some(MatchResult(pattern, [])) case None => None)
      else
        (match e.child case Some(child) => ParseWholeLiteral(child, value[|e.key|..]) case None => None)
  {
    var t := Table([e], []);
    var cpl := CommonPrefixLen(e.key, value);
    SingleLiteralLookup(e, value);
    if StartsWith(value, e.key) {
      CommonPrefixOfStartsWith(e.key, value);
    } else {
      assert cpl < |e.key|;
      if cpl == 0 {
        assert LongestCommonPrefix(t, value).None?;
        assert ParseParsersWith(WholeLiteral, t, 0, value).None?;
      }
    }
  }

  /** A pattern starting with a literal, inserted into an empty table, makes a node with that one literal entry. */
  lemma InsertLiteralIntoEmpty(p: Pattern)
    requires |p.tokens| > 0 && p.tokens[0].Literal?
    ensures Insert(Empty, p) == Table([EntryInsert(NewEntry(p.tokens[0].text), Rest(p))], [])
    ensures Valid(Insert(Empty, p))
    ensures EntryValid(EntryInsert(NewEntry(p.tokens[0].text), Rest(p)))
  {
    InsertPreservesValid(FreshChild, Empty, p);
    EntryInsertPreservesValid(FreshChild, NewEntry(p.tokens[0].text), Rest(p));
  }

  /**
   * A pattern made of nonempty literals, inserted into an empty table, is
   * matched by the corrected parse exactly when the input is its literals
   * run together, and then with no captures.
   */
  lemma {:induction false} WholeLiteralRoundTrip(p: Pattern, value: string)
    requires |p.tokens| > 0 && NonEmptyLiterals(p.tokens)
    ensures Valid(Insert(Empty, p))
    ensures ParseWholeLiteral(Insert(Empty, p), value).Some? <==> value == Spelled(p.tokens)
    ensures ParseWholeLiteral(Insert(Empty, p), value).Some? ==>
      ParseWholeLiteral(Insert(Empty, p), value).value == MatchResult(p.(tokens := []), [])
    decreases |p.tokens|
  {
    var lit := p.tokens[0].text;
    var rest := Rest(p);
    var e := EntryInsert(NewEntry(lit), rest);
    InsertLiteralIntoEmpty(p);
    SingleLiteralParse(e, value);
    assert Spelled(p.tokens) == lit + Spelled(rest.tokens);
    if |rest.tokens| == 0 {
      assert rest == p.(tokens := []);
      assert Spelled(rest.tokens) == [];
      assert Spelled(p.tokens) == lit;
      if value == lit {
        assert StartsWith(value, lit);
      }
      if StartsWith(value, lit) && |value| == |lit| {
        assert value == lit;
      }
    } else {
      assert NonEmptyLiterals(rest.tokens) by {
        forall i | 0 <= i < |rest.tokens| ensures rest.tokens[i].Literal? && |rest.tokens[i].text| > 0 {
          assert rest.tokens[i] == p.tokens[i + 1];
        }
      }
      assert |Spelled(rest.tokens)| > 0 by {
        assert Spelled(rest.tokens) == rest.tokens[0].text + Spelled(rest.tokens[1..]);
      }
      assert e.pattern.None? && e.child == Some(Insert(Empty, rest));
      if StartsWith(value, lit) && |value| > |lit| {
        WholeLiteralRoundTrip(rest, value[|lit|..]);
        assert rest.(tokens := []) == p.(tokens := []);
        assert value == lit + value[|lit|..];
        if value == lit + Spelled(rest.tokens) {
          assert value[|lit|..] == Spelled(rest.tokens);
        }
      } else {
        var whole := lit + Spelled(rest.tokens);
        assert |whole| > |lit| && whole[..|lit|] == lit;
        assert StartsWith(whole, lit);
      }
    }
  }
}

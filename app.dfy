/**
 * The decision logic of the word generator (app.py): the noun filter applied
 * to the loaded table, sampling without replacement, the resolution of one
 * definition from the dictionary's answers, and the newline normalisation
 * applied before display. The dictionary lookups and the random generator are
 * parameters.
 */
module WordGenerator {
  import opened Wrappers

  // ---------------------------------------------------------------------------
  // load_data: keep the lemmas of the rows tagged as nouns
  // ---------------------------------------------------------------------------

  /** One row of the word table: its part-of-speech tag (column `pos`) and
      its lemma (column `lemma`). */
  datatype Row = Row(pos: string, word: string)

  /** The part-of-speech tag of a noun. */
  const NounTag: string := "Substantiv"

  /** What the filter keeps of one row: its lemma when it is a noun row. */
  function Kept(row: Row): seq<string>
  {
    if row.pos == NounTag then [row.word] else []
  }

  /** The lemmas of the rows whose tag is exactly `NounTag`, in row order. */
  function Substantives(rows: seq<Row>): (nouns: seq<string>)
    ensures |nouns| <= |rows|
  {
    if rows == [] then [] else Kept(rows[0]) + Substantives(rows[1..])
  }

  /** The filter works row by row: filtering two tables one after the other is
      filtering the concatenated table, so the kept lemmas keep the row order. */
  lemma {:induction false} SubstantivesAppend(a: seq<Row>, b: seq<Row>)
    ensures Substantives(a + b) == Substantives(a) + Substantives(b)
    decreases |a|
  {
    if a == [] {
      assert a + b == b;
    } else {
      calc {
        Substantives(a + b);
        Kept((a + b)[0]) + Substantives((a + b)[1..]);
        { assert (a + b)[0] == a[0] && (a + b)[1..] == a[1..] + b; }
        Kept(a[0]) + Substantives(a[1..] + b);
        { SubstantivesAppend(a[1..], b); }
        Kept(a[0]) + (Substantives(a[1..]) + Substantives(b));
        (Kept(a[0]) + Substantives(a[1..])) + Substantives(b);
      }
    }
  }

  /** A word is kept exactly when some noun row carries it as its lemma. */
  lemma {:induction false} SubstantivesMembership(rows: seq<Row>, w: string)
    ensures w in Substantives(rows) <==>
            exists i :: 0 <= i < |rows| && rows[i].pos == NounTag && rows[i].word == w
    decreases |rows|
  {
    if rows != [] {
      SubstantivesMembership(rows[1..], w);
      if w in Substantives(rows[1..]) {
        var i :| 0 <= i < |rows[1..]| && rows[1..][i].pos == NounTag && rows[1..][i].word == w;
        assert rows[i + 1] == rows[1..][i];
      }
      if exists i :: 0 <= i < |rows| && rows[i].pos == NounTag && rows[i].word == w {
        var i :| 0 <= i < |rows| && rows[i].pos == NounTag && rows[i].word == w;
        if i > 0 {
          assert rows[1..][i - 1] == rows[i];
        }
      }
    }
  }

  /** As many lemmas are kept as there are noun rows. */
  function NounRowCount(rows: seq<Row>): nat
  {
    if rows == [] then 0 else (if rows[0].pos == NounTag then 1 else 0) + NounRowCount(rows[1..])
  }

  lemma {:induction false} SubstantivesLength(rows: seq<Row>)
    ensures |Substantives(rows)| == NounRowCount(rows)
    decreases |rows|
  {
    if rows != [] {
      SubstantivesLength(rows[1..]);
    }
  }

  // ---------------------------------------------------------------------------
  // get_random_words: sampling without replacement
  // ---------------------------------------------------------------------------

  /** Why `words.sample(n)` raises instead of returning. */
  datatype SampleError =
    | NegativeSize            // n < 0
    | InsufficientCandidates  // n larger than the population, without replacement

  /** The sequence without its element at position `j`. */
  function RemoveAt<T>(s: seq<T>, j: nat): (r: seq<T>)
    requires j < |s|
    ensures |r| == |s| - 1
    ensures multiset(r) + multiset{s[j]} == multiset(s)
  {
    assert s == s[..j] + [s[j]] + s[j + 1..];
    s[..j] + s[j + 1..]
  }

  /** Draws one element per entry of `draws` from `pool`, never drawing the
      same position twice: each draw selects a position among those that remain.
      `draws` stands for the values the random generator produces. */
  function Draw<T>(pool: seq<T>, draws: seq<nat>): (picked: seq<T>)
    requires |draws| <= |pool|
    ensures |picked| == |draws|
    ensures multiset(picked) <= multiset(pool)
    decreases |draws|
  {
    if draws == [] then []
    else
      var j := draws[0] % |pool|;
      [pool[j]] + Draw(RemoveAt(pool, j), draws[1..])
  }

  /** `words.sample(n).tolist()`, with the generator's output as `draws`
      (one value per candidate position). */
  function GetRandomWords(words: seq<string>, n: int, draws: seq<nat>): (r: Result<seq<string>, SampleError>)
    requires |words| <= |draws|
    ensures r.Failure? <==> n < 0 || n > |words|
    ensures n < 0 ==> r == Failure(NegativeSize)
    ensures 0 <= n && n > |words| ==> r == Failure(InsufficientCandidates)
    ensures r.Success? ==> |r.value| == n && multiset(r.value) <= multiset(words)
  {
    if n < 0 then Failure(NegativeSize)
    else if n > |words| then Failure(InsufficientCandidates)
    else Success(Draw(words, draws[..n]))
  }

  /** Every way of picking `|picked|` elements of `pool` without replacement,
      in every order, is the outcome of some draws: the model restricts the
      sample to nothing beyond "drawn without replacement". */
  lemma {:induction false} DrawReaches<T>(pool: seq<T>, picked: seq<T>) returns (draws: seq<nat>)
    requires multiset(picked) <= multiset(pool)
    ensures |draws| == |picked| <= |pool|
    ensures Draw(pool, draws) == picked
    decreases |picked|
  {
    CardinalityOfSubMultiset(multiset(picked), multiset(pool));
    if picked == [] {
      draws := [];
    } else {
      var j := PositionOf(pool, picked[0]);
      RemainingSubMultiset(pool, j, picked);
      var more := DrawReaches(RemoveAt(pool, j), picked[1..]);
      draws := [j] + more;
      DrawFirst(pool, j, more);
      SplitFirst(picked);
    }
  }

  /** Kept apart from `DrawReaches`: inline, this step makes that proof
      several times more expensive. */
  lemma SplitFirst<T>(s: seq<T>)
    requires s != []
    ensures s == [s[0]] + s[1..]
  {
  }

  /** A position at which `x` occurs in `s`. */
  lemma PositionOf<T>(s: seq<T>, x: T) returns (j: nat)
    requires x in multiset(s)
    ensures j < |s| && s[j] == x
  {
    assert x in s;
    j :| 0 <= j < |s| && s[j] == x;
  }

  /** A draw that names a position of the pool picks exactly that position. */
  lemma DrawFirst<T>(pool: seq<T>, j: nat, more: seq<nat>)
    requires j < |pool| && |more| < |pool|
    ensures Draw(pool, [j] + more) == [pool[j]] + Draw(RemoveAt(pool, j), more)
  {
    SmallRemainder(j, |pool|);
    assert ([j] + more)[1..] == more;
  }

  lemma SmallRemainder(j: nat, n: nat)
    requires j < n
    ensures j % n == j
  {
  }

  /** Once the first pick is drawn from position `j`, the remaining picks are
      still available in what remains of the pool. */
  lemma RemainingSubMultiset<T>(pool: seq<T>, j: nat, picked: seq<T>)
    requires picked != [] && j < |pool| && pool[j] == picked[0]
    requires multiset(picked) <= multiset(pool)
    ensures multiset(picked[1..]) <= multiset(RemoveAt(pool, j))
  {
    var rest := RemoveAt(pool, j);
    assert picked == [picked[0]] + picked[1..];
    assert multiset(picked) == multiset{picked[0]} + multiset(picked[1..]);
    forall y ensures multiset(picked[1..])[y] <= multiset(rest)[y] {
      assert multiset(picked)[y] <= multiset(pool)[y];
    }
  }

  lemma {:induction false} CardinalityOfSubMultiset<T>(a: multiset<T>, b: multiset<T>)
    requires a <= b
    ensures |a| <= |b|
    decreases |a|
  {
    if a != multiset{} {
      var x :| x in a;
      CardinalityOfSubMultiset(a - multiset{x}, b - multiset{x});
    }
  }

  /** Every admissible sample is a possible result of `GetRandomWords`. */
  lemma GetRandomWordsReaches(words: seq<string>, picked: seq<string>) returns (draws: seq<nat>)
    requires multiset(picked) <= multiset(words)
    ensures |draws| == |words|
    ensures GetRandomWords(words, |picked|, draws) == Success(picked)
  {
    var first := DrawReaches(words, picked);
    draws := first + seq(|words| - |first|, _ => 0);
    assert draws[..|picked|] == first;
  }

  // ---------------------------------------------------------------------------
  // get_word_definition: resolving one definition
  // ---------------------------------------------------------------------------

  /** The meaning summary of a dictionary entry: one text, or one text per sense. */
  datatype Overview = Text(text: string) | Senses(senses: seq<string>)

  /** A dictionary entry: its meaning summary and its usage frequency. */
  datatype Entry = Entry(overview: Overview, frequency: int)

  /** Why resolving or displaying a definition raises. */
  datatype DefinitionError =
    | NoFirstItem  // `list(...)[0]` of an empty list of senses
    | NotText      // `.replace` on a summary that is not a text

  /** The fixed text returned when the search finds nothing. */
  const NotFound: string := "Keine Definition gefunden."

  /** Position `k` holds an entry whose frequency no other entry exceeds. */
  predicate IsMostFrequent(results: seq<Entry>, k: int)
  {
    0 <= k < |results| && forall i :: 0 <= i < |results| ==> results[i].frequency <= results[k].frequency
  }

  /** The id at the head of the table sorted by descending frequency. The sort
      does not fix the order of equal frequencies; this picks the first. */
  function MostFrequentIndex(results: seq<Entry>): (k: nat)
    requires results != []
    ensures IsMostFrequent(results, k)
    decreases |results|
  {
    if |results| == 1 then 0
    else
      var k := 1 + MostFrequentIndex(results[1..]);
      if results[0].frequency >= results[k].frequency then 0 else k
  }

  /** The largest frequency among the entries. */
  function MaxFrequency(results: seq<Entry>): int
    requires results != []
    decreases |results|
  {
    if |results| == 1 then results[0].frequency
    else
      var m := MaxFrequency(results[1..]);
      if results[0].frequency >= m then results[0].frequency else m
  }

  /** `MaxFrequency` is attained and bounds every frequency. */
  lemma {:induction false} MaxFrequencyIsMaximum(results: seq<Entry>)
    requires results != []
    ensures exists i :: 0 <= i < |results| && results[i].frequency == MaxFrequency(results)
    ensures forall i :: 0 <= i < |results| ==> results[i].frequency <= MaxFrequency(results)
    decreases |results|
  {
    if |results| == 1 {
      assert results[0].frequency == MaxFrequency(results);
    } else {
      MaxFrequencyIsMaximum(results[1..]);
      var i :| 0 <= i < |results[1..]| && results[1..][i].frequency == MaxFrequency(results[1..]);
      assert results[i + 1] == results[1..][i];
      if results[0].frequency < MaxFrequency(results[1..]) {
        assert results[i + 1].frequency == MaxFrequency(results);
      } else {
        assert results[0].frequency == MaxFrequency(results);
      }
      forall i | 0 <= i < |results| ensures results[i].frequency <= MaxFrequency(results) {
        if i > 0 {
          assert results[i] == results[1..][i - 1];
        }
      }
    }
  }

  /** However the sort orders equal frequencies, the entry it chooses has the
      largest frequency. */
  lemma MostFrequentHasMaxFrequency(results: seq<Entry>, k: int)
    requires IsMostFrequent(results, k)
    ensures results[k].frequency == MaxFrequency(results)
  {
    MaxFrequencyIsMaximum(results);
  }

  /** Python's `list(s)` of a text: one one-character string per character. */
  function Characters(s: string): (items: seq<string>)
    ensures |items| == |s|
    ensures forall i :: 0 <= i < |s| ==> items[i] == [s[i]]
    decreases |s|
  {
    if s == [] then [] else [[s[0]]] + Characters(s[1..])
  }

  /** The items of a list, joined back together. */
  function Concat(items: seq<string>): string
    decreases |items|
  {
    if items == [] then [] else items[0] + Concat(items[1..])
  }

  /** Joining the characters of a text gives the text back. */
  lemma {:induction false} ConcatCharacters(s: string)
    ensures Concat(Characters(s)) == s
    decreases |s|
  {
    if s != [] {
      assert Characters(s)[1..] == Characters(s[1..]);
      ConcatCharacters(s[1..]);
      assert s == [s[0]] + s[1..];
    }
  }

  /** Python's `list(overview)`: the characters of a text, or the senses. */
  function Items(o: Overview): (items: seq<string>)
    ensures o.Text? ==> |items| == |o.text| && Concat(items) == o.text
    ensures o.Text? ==> forall i :: 0 <= i < |items| ==> |items[i]| == 1
    ensures o.Senses? ==> items == o.senses
  {
    match o
    case Text(s) => ConcatCharacters(s); Characters(s)
    case Senses(senses) => senses
  }

  /** `list(overview)[0]` as written: the head of `Items`, or nothing (Python
      raises `IndexError`) when there is no item. For a text this is its
      one-character prefix, not the text. */
  function FirstItemAsWritten(o: Overview): (r: Option<string>)
    ensures o.Text? ==> (r.Some? <==> o.text != []) && (r.Some? ==> r.value == o.text[..1])
    ensures o.Senses? ==> (r.Some? <==> o.senses != []) && (r.Some? ==> r.value == o.senses[0])
  {
    var items := Items(o);
    if items == [] then None else Some(items[0])
  }

  /** The first meaning of a summary: the whole text, or the first sense. */
  function FirstMeaning(o: Overview): (r: Option<string>)
    // on a list of senses, exactly what `list(...)[0]` gives
    ensures o.Senses? ==> r == FirstItemAsWritten(o)
    // on a text, all the characters `list(...)` splits it into, joined again
    ensures o.Text? ==> r == Some(Concat(Items(o)))
  {
    match o
    case Text(s) => Some(s)
    case Senses(items) => if items == [] then None else Some(items[0])
  }

  /** The code as written and the first meaning agree exactly on lists of
      senses and on one-character texts; any longer text is cut to its first
      character, and an empty text raises instead of giving "". */
  lemma FirstItemAsWrittenCutsText(o: Overview)
    ensures FirstItemAsWritten(o) == FirstMeaning(o) <==> o.Senses? || |o.text| == 1
  {
    if o.Text? {
      if |o.text| == 1 {
        assert o.text[..1] == o.text;
      } else if o.text != [] {
        assert |FirstItemAsWritten(o).value| != |o.text|;
      }
    }
  }

  /** No exact hit, and the more frequent of two search results has the text
      "Haus": the corrected reading resolves to "Haus", while `list(...)[0]`
      of that summary is "H". */
  lemma HausIsCutToH()
    ensures Resolve(None, [Entry(Text("a"), 1), Entry(Text("Haus"), 2)]) == Success(Text("Haus"))
    ensures forall k :: IsMostFrequent([Entry(Text("a"), 1), Entry(Text("Haus"), 2)], k) ==> k == 1
    ensures FirstItemAsWritten(Text("Haus")) == Some("H")
  {
    var results := [Entry(Text("a"), 1), Entry(Text("Haus"), 2)];
    assert results[1..] == [Entry(Text("Haus"), 2)];
    assert MostFrequentIndex(results) == 1;
    assert "Haus"[..1] == "H";
  }

  /** `get_word_definition`, with the dictionary's exact lookup as `exact` and
      its search results as `results`. */
  function Resolve(exact: Option<Entry>, results: seq<Entry>): (r: Result<Overview, DefinitionError>)
    // an exact hit wins, whatever the search would have found
    ensures exact.Some? ==> r == Success(exact.value.overview)
    ensures exact.None? && results == [] ==> r == Success(Text(NotFound))
    ensures exact.None? && |results| == 1 ==> r == Success(results[0].overview)
    // several results: the first meaning of some most frequent one
    ensures exact.None? && |results| >= 2 && r.Success? ==>
              r.value.Text? &&
              exists k :: IsMostFrequent(results, k) && FirstMeaning(results[k].overview) == Some(r.value.text)
    ensures exact.None? && |results| >= 2 && r.Failure? ==>
              r.error == NoFirstItem &&
              exists k :: IsMostFrequent(results, k) && FirstMeaning(results[k].overview) == None
  {
    if exact.Some? then Success(exact.value.overview)
    else if |results| == 0 then Success(Text(NotFound))
    else if |results| == 1 then Success(results[0].overview)
    else
      var k := MostFrequentIndex(results);
      match FirstMeaning(results[k].overview)
      case Some(s) => Success(Text(s))
      case None => Failure(NoFirstItem)
  }

  // ---------------------------------------------------------------------------
  // main, line 86: the meaning shown as hover text
  // ---------------------------------------------------------------------------

  /** `s.replace("\n", " ")`: every newline becomes one space. */
  function ReplaceNewlines(s: string): (r: string)
    ensures |r| == |s|
    ensures forall i :: 0 <= i < |s| ==> r[i] == (if s[i] == '\n' then ' ' else s[i])
    decreases |s|
  {
    if s == [] then []
    else [if s[0] == '\n' then ' ' else s[0]] + ReplaceNewlines(s[1..])
  }

  /** No newline survives the replacement. */
  lemma ReplaceNewlinesRemovesAll(s: string)
    ensures '\n' !in ReplaceNewlines(s)
  {
  }

  /** Replacing twice is replacing once. */
  lemma ReplaceNewlinesIdempotent(s: string)
    ensures ReplaceNewlines(ReplaceNewlines(s)) == ReplaceNewlines(s)
  {
  }

  /** A text without newlines is left as it is. */
  lemma {:induction false} ReplaceNewlinesKeepsPlainText(s: string)
    requires '\n' !in s
    ensures ReplaceNewlines(s) == s
  {
    assert forall i :: 0 <= i < |s| ==> s[i] != '\n';
  }

  /** The sentinel is displayed as it is. */
  lemma NotFoundIsPlain()
    ensures ReplaceNewlines(NotFound) == NotFound
  {
    assert forall i :: 0 <= i < |NotFound| ==> NotFound[i] != '\n';
    ReplaceNewlinesKeepsPlainText(NotFound);
  }

  /** The resolved meaning as displayed: normalised when it is a text. */
  function Display(meaning: Overview): (r: Result<string, DefinitionError>)
    ensures meaning.Text? <==> r.Success?
    ensures r.Success? ==> r.value == ReplaceNewlines(meaning.text)
    ensures r.Failure? ==> r.error == NotText
    ensures r.Success? ==> '\n' !in r.value
  {
    match meaning
    case Text(s) =>
      ReplaceNewlinesRemovesAll(s);
      Success(ReplaceNewlines(s))
    case Senses(_) => Failure(NotText)
  }

  /** The hover text for one word: resolution followed by normalisation. */
  function Definition(exact: Option<Entry>, results: seq<Entry>): (r: Result<string, DefinitionError>)
    ensures r.Success? ==> '\n' !in r.value
    ensures exact.Some? && exact.value.overview.Text? ==>
              r == Success(ReplaceNewlines(exact.value.overview.text))
    ensures exact.Some? && exact.value.overview.Senses? ==> r == Failure(NotText)
    ensures exact.None? && results == [] ==> r == Success(NotFound)
    ensures exact.None? && |results| == 1 ==> r == Display(results[0].overview)
    ensures exact.None? && |results| >= 2 && r.Success? ==>
              exists k :: IsMostFrequent(results, k) && FirstMeaning(results[k].overview).Some? &&
                          r.value == ReplaceNewlines(FirstMeaning(results[k].overview).value)
    ensures exact.None? && |results| >= 2 && r.Failure? ==>
              r.error == NoFirstItem &&
              exists k :: IsMostFrequent(results, k) && FirstMeaning(results[k].overview) == None
  {
    var resolved := Resolve(exact, results);
    if resolved.Failure? then Failure(resolved.error)
    else
      // the lemma call only tells the verifier that the sentinel is shown unchanged
      if exact.None? && results == [] then NotFoundIsPlain(); Display(resolved.value)
      else Display(resolved.value)
  }

  /** Two search results with frequencies 3 and 7 and summaries "A" and "B":
      the hover text is "B". */
  lemma DefinitionPicksMoreFrequent()
    ensures Definition(None, [Entry(Text("A"), 3), Entry(Text("B"), 7)]) == Success("B")
  {
    var results := [Entry(Text("A"), 3), Entry(Text("B"), 7)];
    assert results[1..] == [Entry(Text("B"), 7)];
    assert MostFrequentIndex(results) == 1;
    assert Resolve(None, results) == Success(Text("B"));
    assert ReplaceNewlines("B") == "B";
  }
}

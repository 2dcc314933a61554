/** The keyword categorizer (`categorizeResource` in src/lib/utils.ts):
    ranks six fixed categories by how often their keyword phrases occur as
    whole words in the lower-cased `title + " " + content`. */
module Categorizer {
  import opened Text
  import opened Seqs
  import opened Sorting
  import opened KeywordTable

  /** A phrase the pattern `\bphrase\b` can find: it is not empty, starts and
      ends with a word character and has no upper-case letter (the corpus is
      lower-cased). */
  predicate IsPhrase(w: string) {
    |w| >= 1 && IsWordChar(w[0]) && IsWordChar(w[|w| - 1]) && IsLower(w)
  }

  /** The text that is searched: `${title} ${content}`.toLowerCase(). */
  function Corpus(title: string, content: string): string {
    Lower(title + " " + content)
  }

  // ---------------------------------------------------------------------
  // Whole-word occurrence counting: `(text.match(/\bw\b/gi) || []).length`

  /** `\b` at position `i`: a word character on exactly one side. */
  predicate BoundaryAt(s: string, i: nat)
    requires i <= |s|
  {
    (i > 0 && IsWordChar(s[i - 1])) != (i < |s| && IsWordChar(s[i]))
  }

  /** `\bw\b` matches at position `k`. */
  predicate WholeWordAt(s: string, w: string, k: nat) {
    OccursAt(s, w, k) && BoundaryAt(s, k) && BoundaryAt(s, k + |w|)
  }

  /** The number of matches a global search finds from position `from` on:
      it takes the leftmost match and resumes after its end, or one position
      further when the match is empty. */
  function CountFrom(s: string, w: string, from: nat): nat
    requires from <= |s|
    decreases |s| - from
  {
    if from + |w| > |s| then 0
    else
      var next := from + if w == [] then 1 else |w|;
      if WholeWordAt(s, w, from) then 1 + (if next <= |s| then CountFrom(s, w, next) else 0)
      else if from < |s| then CountFrom(s, w, from + 1)
      else 0
  }

  /** A non-empty phrase's matches do not overlap, so no more of them are
      found than fit end to end in the rest of the text. */
  lemma {:induction false} CountFromFits(s: string, w: string, from: nat)
    requires w != [] && from <= |s|
    ensures CountFrom(s, w, from) * |w| <= |s| - from
    decreases |s| - from
  {
    if from + |w| <= |s| {
      if WholeWordAt(s, w, from) {
        var n := CountFrom(s, w, from + |w|);
        assert CountFrom(s, w, from) == 1 + n;
        CountFromFits(s, w, from + |w|);
        MulSucc(n, |w|);
      } else {
        CountFromFits(s, w, from + 1);
      }
    }
  }

  lemma MulSucc(n: nat, k: nat)
    ensures (1 + n) * k == k + n * k
  {
  }

  /** `(s.match(/\bw\b/g) || []).length`. */
  function Occurrences(s: string, w: string): nat {
    CountFrom(s, w, 0)
  }

  /** The search finds something from `from` on exactly when `\bw\b` matches
      somewhere at or after `from`. */
  lemma {:induction false} CountFromPositive(s: string, w: string, from: nat)
    requires from <= |s|
    ensures CountFrom(s, w, from) > 0 <==> exists k: nat :: from <= k && WholeWordAt(s, w, k)
    decreases |s| - from
  {
    if from + |w| > |s| {
      assert forall k: nat :: from <= k ==> !OccursAt(s, w, k);
    } else if !WholeWordAt(s, w, from) {
      if from < |s| {
        CountFromPositive(s, w, from + 1);
        assert forall k: nat :: from <= k && WholeWordAt(s, w, k) ==> from + 1 <= k;
      } else {
        assert forall k: nat :: from <= k && OccursAt(s, w, k) ==> k == from;
      }
    }
  }

  /** Every phrase of the keyword table is one `\bphrase\b` can find, so the
      facts about phrases below apply to all of them. */
  lemma KeywordsArePhrases(c: Category)
    ensures forall w :: w in Keywords(c) ==> IsPhrase(w)
  {
    match c
    case Programming => ProgrammingPhrases();
    case Design => DesignPhrases();
    case Business => BusinessPhrases();
    case Learning => LearningPhrases();
    case Productivity => ProductivityPhrases();
    case Technology => TechnologyPhrases();
  }

  lemma ProgrammingPhrases()
    ensures forall i :: 0 <= i < |ProgrammingWords| ==> IsPhrase(ProgrammingWords[i])
  {
  }

  lemma DesignPhrases()
    ensures forall i :: 0 <= i < |DesignWords| ==> IsPhrase(DesignWords[i])
  {
  }

  lemma BusinessPhrases()
    ensures forall i :: 0 <= i < |BusinessWords| ==> IsPhrase(BusinessWords[i])
  {
  }

  lemma LearningPhrases()
    ensures forall i :: 0 <= i < |LearningWords| ==> IsPhrase(LearningWords[i])
  {
  }

  lemma ProductivityPhrases()
    ensures forall i :: 0 <= i < |ProductivityWords| ==> IsPhrase(ProductivityWords[i])
  {
  }

  lemma TechnologyPhrases()
    ensures forall i :: 0 <= i < |TechnologyWords| ==> IsPhrase(TechnologyWords[i])
  {
  }

  /** A keyword occurrence glued to a further word character (for instance
      "java" inside "javascript") is not a match. */
  lemma EmbeddedIsNoMatch(s: string, w: string, k: nat)
    requires IsPhrase(w) && OccursAt(s, w, k)
    requires (k > 0 && IsWordChar(s[k - 1])) || (k + |w| < |s| && IsWordChar(s[k + |w|]))
    ensures !WholeWordAt(s, w, k)
  {
    assert s[k] == w[0] && s[k + |w| - 1] == w[|w| - 1];
  }

  /** "javascripting" contains neither "javascript" nor "java" as a word. */
  lemma NoMatchInsideLongerWord()
    ensures Occurrences("javascripting", "javascript") == 0
    ensures Occurrences("javascripting", "java") == 0
  {
    NoMatchAfterStart("javascripting", "javascript");
    NoMatchAfterStart("javascripting", "java");
  }

  /** A phrase that occurs only at the start of a text, glued to a further
      word character there, never matches in it. */
  lemma NoMatchAfterStart(s: string, w: string)
    requires IsPhrase(w) && OccursAt(s, w, 0) && |w| < |s| && IsWordChar(s[|w|])
    requires forall k: nat :: 0 < k ==> !OccursAt(s, w, k)
    ensures Occurrences(s, w) == 0
  {
    EmbeddedIsNoMatch(s, w, 0);
    CountFromPositive(s, w, 0);
  }

  /** A phrase matches only as a contiguous whole, and punctuation around it
      is a word boundary. */
  lemma PhraseMatchesContiguously()
    ensures Occurrences("machine  learning", "machine learning") == 0
    ensures Occurrences("(machine learning)", "machine learning") == 1
  {
    var s, w := "(machine learning)", "machine learning";
    assert s[1..17] == w;
    assert WholeWordAt(s, w, 1);
    assert CountFrom(s, w, 1) == 1;
  }

  // ---------------------------------------------------------------------
  // Per-category totals: `words.reduce((count, word) => count + …, 0)`

  function KeywordTotal(ws: seq<string>, text: string): nat
  {
    if ws == [] then 0 else Occurrences(text, ws[0]) + KeywordTotal(ws[1..], text)
  }

  function CategoryCount(c: Category, text: string): nat {
    KeywordTotal(Keywords(c), text)
  }

  /** A category's total counts every one of its keywords in full. */
  lemma {:induction false} KeywordTotalAtLeast(ws: seq<string>, text: string, k: nat)
    requires k < |ws|
    ensures KeywordTotal(ws, text) >= Occurrences(text, ws[k])
  {
    if k > 0 {
      KeywordTotalAtLeast(ws[1..], text, k - 1);
    }
  }

  /** The total is positive exactly when some keyword matches as a whole word. */
  lemma {:induction false} KeywordTotalPositive(ws: seq<string>, text: string)
    ensures KeywordTotal(ws, text) > 0 <==>
              exists i: nat, k: nat :: i < |ws| && WholeWordAt(text, ws[i], k)
  {
    if ws != [] {
      KeywordTotalPositive(ws[1..], text);
      CountFromPositive(text, ws[0], 0);
      if exists i: nat, k: nat :: i < |ws| && WholeWordAt(text, ws[i], k) {
        var i: nat, k: nat :| i < |ws| && WholeWordAt(text, ws[i], k);
        if i > 0 {
          assert WholeWordAt(text, ws[1..][i - 1], k);
        }
      }
      if exists i: nat, k: nat :: i < |ws[1..]| && WholeWordAt(text, ws[1..][i], k) {
        var i: nat, k: nat :| i < |ws[1..]| && WholeWordAt(text, ws[1..][i], k);
        assert WholeWordAt(text, ws[i + 1], k);
      }
    }
  }

  /** "management" is listed under both business and productivity, so each
      of its occurrences counts for both. */
  lemma ManagementCountsForBoth(text: string)
    ensures CategoryCount(Business, text) >= Occurrences(text, "management")
    ensures CategoryCount(Productivity, text) >= Occurrences(text, "management")
  {
    assert Keywords(Business)[5] == "management";
    KeywordTotalAtLeast(Keywords(Business), text, 5);
    assert Keywords(Productivity)[6] == "management";
    KeywordTotalAtLeast(Keywords(Productivity), text, 6);
  }

  // ---------------------------------------------------------------------
  // Ranking: `Object.entries(keywords).map(…).filter(…).sort(…).map(…)`

  datatype CategoryMatch = CategoryMatch(category: Category, matchCount: nat)

  /** Each table row paired with its count, in table order. */
  function MatchCounts(count: Category -> nat): seq<CategoryMatch> {
    seq(|Table|, i requires 0 <= i < |Table| => CategoryMatch(Table[i], count(Table[i])))
  }

  /** The counts the categorizer ranks by. */
  function CountsIn(text: string): Category -> nat {
    c => CategoryCount(c, text)
  }

  predicate HasMatches(m: CategoryMatch) {
    m.matchCount > 0
  }

  /** The comparator `(a, b) => b.matchCount - a.matchCount` as a sort key. */
  function MostMatchesFirst(m: CategoryMatch): int {
    -(m.matchCount as int)
  }

  function TablePosition(m: CategoryMatch): int {
    TableIndex(m.category)
  }

  /** The rows with a positive count, most first, stably. */
  function RankedBy(count: Category -> nat): seq<CategoryMatch> {
    SortBy(Filter(MatchCounts(count), HasMatches), MostMatchesFirst)
  }

  /** The categories of the rows with a positive count, best first. */
  function RankingBy(count: Category -> nat): seq<Category> {
    var ranked := RankedBy(count);
    seq(|ranked|, i requires 0 <= i < |ranked| => ranked[i].category)
  }

  /** The categories of the result for a resource, best first. */
  function Ranking(title: string, content: string): seq<Category> {
    RankingBy(CountsIn(Corpus(title, content)))
  }

  function LabelsOf(ranking: seq<Category>): seq<string> {
    seq(|ranking|, i requires 0 <= i < |ranking| => Label(ranking[i]))
  }

  /** `categorizeResource(title, content)`. */
  function CategorizeResource(title: string, content: string): seq<string> {
    LabelsOf(Ranking(title, content))
  }

  /** Filtering and sorting a list of counts keeps exactly the entries with
      a positive count. */
  lemma RankKeeps(ms: seq<CategoryMatch>)
    ensures var r := SortBy(Filter(ms, HasMatches), MostMatchesFirst);
      && |r| <= |ms|
      && (forall i :: 0 <= i < |r| ==> r[i] in ms && r[i].matchCount > 0)
      && (forall i :: 0 <= i < |ms| && ms[i].matchCount > 0 ==> ms[i] in r)
  {
    var kept := Filter(ms, HasMatches);
    var r := SortBy(kept, MostMatchesFirst);
    SortByMembers(kept, MostMatchesFirst);
    forall i | 0 <= i < |r|
      ensures r[i] in ms && r[i].matchCount > 0
    {
      assert r[i] in kept;
      var j :| 0 <= j < |kept| && kept[j] == r[i];
    }
    forall i | 0 <= i < |ms| && ms[i].matchCount > 0
      ensures ms[i] in r
    {
      assert HasMatches(ms[i]);
      assert ms[i] in kept;
    }
  }

  /** A table-ordered list of counts, filtered and sorted, is ordered by count
      and then by table position. */
  lemma RankOrder(ms: seq<CategoryMatch>)
    requires forall i, j :: 0 <= i < j < |ms| ==> TablePosition(ms[i]) < TablePosition(ms[j])
    ensures SortedByThen(SortBy(Filter(ms, HasMatches), MostMatchesFirst), MostMatchesFirst, TablePosition)
  {
    FilterKeepsOrder(ms, HasMatches, TablePosition);
    SortByKeepsTieOrder(Filter(ms, HasMatches), MostMatchesFirst, TablePosition);
  }

  /** Every ranked entry is a category of the table with its count, which
      is positive, and there are at most as many as table rows. */
  lemma RankedCounts(count: Category -> nat)
    ensures |RankedBy(count)| <= |Table|
    ensures forall i :: 0 <= i < |RankedBy(count)| ==>
              RankedBy(count)[i].matchCount == count(RankedBy(count)[i].category) > 0
  {
    var all := MatchCounts(count);
    RankKeeps(all);
    var ranked := RankedBy(count);
    forall i | 0 <= i < |ranked|
      ensures ranked[i].matchCount == count(ranked[i].category)
    {
      var k :| 0 <= k < |all| && all[k] == ranked[i];
    }
  }

  /** A category is ranked exactly when its count is positive. */
  lemma RankedCovers(count: Category -> nat)
    ensures forall c :: count(c) > 0 <==>
              exists i :: 0 <= i < |RankedBy(count)| && RankedBy(count)[i].category == c
  {
    var all := MatchCounts(count);
    RankKeeps(all);
    RankedCounts(count);
    var ranked := RankedBy(count);
    forall c | count(c) > 0
      ensures exists i :: 0 <= i < |ranked| && ranked[i].category == c
    {
      var m := all[TableIndex(c)];
      assert m in ranked;
      var i :| 0 <= i < |ranked| && ranked[i] == m;
    }
  }

  /** The ranking is ordered by count, most first, and then by table position. */
  lemma RankedOrder(count: Category -> nat)
    ensures SortedByThen(RankedBy(count), MostMatchesFirst, TablePosition)
  {
    var all := MatchCounts(count);
    forall i, j | 0 <= i < j < |all|
      ensures TablePosition(all[i]) < TablePosition(all[j])
    {
      assert all[i].category == Table[i] && all[j].category == Table[j];
    }
    RankOrder(all);
  }

  /** For any counts: the ranking lists each category with a positive count
      exactly once, and nothing else, ordered by count, most first, and then
      by table position. */
  lemma RankingFacts(count: Category -> nat)
    ensures |RankingBy(count)| <= |Table|
    ensures forall c :: c in RankingBy(count) <==> count(c) > 0
    ensures forall i, j :: 0 <= i < j < |RankingBy(count)| ==>
              var a, b := RankingBy(count)[i], RankingBy(count)[j];
              count(a) > count(b) || (count(a) == count(b) && TableIndex(a) < TableIndex(b))
    ensures NoDuplicates(RankingBy(count))
  {
    RankingMembers(count);
    RankingOrder(count);
  }

  lemma RankingMembers(count: Category -> nat)
    ensures |RankingBy(count)| <= |Table|
    ensures forall c :: c in RankingBy(count) <==> count(c) > 0
  {
    RankedCounts(count);
    forall c | c in RankingBy(count)
      ensures count(c) > 0
    {
      RankedHasPositiveCount(count, c);
    }
    forall c | count(c) > 0
      ensures c in RankingBy(count)
    {
      PositiveCountIsRanked(count, c);
    }
  }

  lemma RankedHasPositiveCount(count: Category -> nat, c: Category)
    requires c in RankingBy(count)
    ensures count(c) > 0
  {
    var ranked, ranking := RankedBy(count), RankingBy(count);
    RankedCounts(count);
    var i :| 0 <= i < |ranking| && ranking[i] == c;
    assert ranked[i].category == c;
  }

  lemma PositiveCountIsRanked(count: Category -> nat, c: Category)
    requires count(c) > 0
    ensures c in RankingBy(count)
  {
    var ranked, ranking := RankedBy(count), RankingBy(count);
    RankedCovers(count);
    var i :| 0 <= i < |ranked| && ranked[i].category == c;
    assert ranking[i] == c;
  }

  lemma RankingOrder(count: Category -> nat)
    ensures forall i, j :: 0 <= i < j < |RankingBy(count)| ==>
              var a, b := RankingBy(count)[i], RankingBy(count)[j];
              count(a) > count(b) || (count(a) == count(b) && TableIndex(a) < TableIndex(b))
    ensures NoDuplicates(RankingBy(count))
  {
    var ranked, ranking := RankedBy(count), RankingBy(count);
    RankedCounts(count);
    RankedOrder(count);
    forall i, j | 0 <= i < j < |ranking|
      ensures count(ranking[i]) > count(ranking[j])
              || (count(ranking[i]) == count(ranking[j]) && TableIndex(ranking[i]) < TableIndex(ranking[j]))
    {
      assert ranking[i] == ranked[i].category && ranking[j] == ranked[j].category;
      assert MostMatchesFirst(ranked[i]) < MostMatchesFirst(ranked[j])
             || (MostMatchesFirst(ranked[i]) == MostMatchesFirst(ranked[j])
                 && TablePosition(ranked[i]) < TablePosition(ranked[j]));
    }
  }

  /** Labelling a duplicate-free list of categories gives table keys, each
      once, one per category. */
  lemma LabelsFacts(ranking: seq<Category>)
    requires NoDuplicates(ranking)
    ensures |LabelsOf(ranking)| == |ranking|
    ensures forall i :: 0 <= i < |LabelsOf(ranking)| ==> IsTableKey(LabelsOf(ranking)[i])
    ensures forall c :: Label(c) in LabelsOf(ranking) <==> c in ranking
    ensures NoDuplicates(LabelsOf(ranking))
  {
    var labels := LabelsOf(ranking);
    forall i, j | 0 <= i < j < |labels|
      ensures labels[i] != labels[j]
    {
      LabelInjective(ranking[i], ranking[j]);
    }
    forall i | 0 <= i < |labels|
      ensures IsTableKey(labels[i])
    {
      assert labels[i] == Label(ranking[i]);
    }
    forall c
      ensures Label(c) in labels <==> c in ranking
    {
      if Label(c) in labels {
        var i :| 0 <= i < |labels| && labels[i] == Label(c);
        LabelInjective(ranking[i], c);
      }
      if c in ranking {
        var i :| 0 <= i < |ranking| && ranking[i] == c;
        assert labels[i] == Label(c);
      }
    }
  }

  // ---------------------------------------------------------------------
  // Properties of the result

  /** Every label is a key of the table and no label appears twice. */
  lemma CategorizeLabels(title: string, content: string)
    ensures var labels := CategorizeResource(title, content);
      && |labels| <= |Table|
      && (forall i :: 0 <= i < |labels| ==> IsTableKey(labels[i]))
      && NoDuplicates(labels)
  {
    RankingFacts(CountsIn(Corpus(title, content)));
    LabelsFacts(Ranking(title, content));
  }

  /** A category is returned exactly when its whole-word match count is
      positive. */
  lemma CategorizeMembership(title: string, content: string, c: Category)
    ensures Label(c) in CategorizeResource(title, content) <==>
              CategoryCount(c, Corpus(title, content)) > 0
  {
    var count := CountsIn(Corpus(title, content));
    RankingFacts(count);
    LabelsFacts(Ranking(title, content));
    assert count(c) == CategoryCount(c, Corpus(title, content));
  }

  /** The result names, position by position, the categories of a ranking
      that is ordered by match count, most first, with categories of equal
      count in the table's declaration order. */
  lemma CategorizeOrder(title: string, content: string)
    ensures var labels, ranking := CategorizeResource(title, content), Ranking(title, content);
      |labels| == |ranking| && forall i :: 0 <= i < |labels| ==> labels[i] == Label(ranking[i])
    ensures var text, ranking := Corpus(title, content), Ranking(title, content);
      forall i, j :: 0 <= i < j < |ranking| ==>
        || CategoryCount(ranking[i], text) > CategoryCount(ranking[j], text)
        || (CategoryCount(ranking[i], text) == CategoryCount(ranking[j], text)
            && TableIndex(ranking[i]) < TableIndex(ranking[j]))
  {
    var text, ranking := Corpus(title, content), Ranking(title, content);
    var count := CountsIn(text);
    RankingOrder(count);
    forall i, j | 0 <= i < j < |ranking|
      ensures || CategoryCount(ranking[i], text) > CategoryCount(ranking[j], text)
              || (CategoryCount(ranking[i], text) == CategoryCount(ranking[j], text)
                  && TableIndex(ranking[i]) < TableIndex(ranking[j]))
    {
      assert count(ranking[i]) == CategoryCount(ranking[i], text);
      assert count(ranking[j]) == CategoryCount(ranking[j], text);
    }
  }

  /** Matching ignores case: only the lower-cased text is ever examined. */
  lemma CategorizeIgnoresCase(title: string, content: string)
    ensures CategorizeResource(title, content) == CategorizeResource(Lower(title), Lower(content))
  {
    LowerAppend(title + " ", content);
    LowerAppend(title, " ");
    LowerAppend(Lower(title) + " ", Lower(content));
    LowerAppend(Lower(title), " ");
    LowerOfLower(title);
    LowerOfLower(content);
    assert Corpus(title, content) == Corpus(Lower(title), Lower(content));
  }

  /** A lone space has no word character, so `\b` matches nowhere in it. */
  lemma BlankHasNoWord(w: string, k: nat)
    ensures !WholeWordAt(" ", w, k)
  {
    if OccursAt(" ", w, k) {
      assert !BoundaryAt(" ", k);
    }
  }

  /** The corpus of an empty title and empty content is a single space, in
      which no phrase matches. */
  lemma {:induction false} NothingMatchesInBlank(ws: seq<string>)
    ensures KeywordTotal(ws, " ") == 0
  {
    if ws != [] {
      forall k: nat
        ensures !WholeWordAt(" ", ws[0], k)
      {
        BlankHasNoWord(ws[0], k);
      }
      CountFromPositive(" ", ws[0], 0);
      NothingMatchesInBlank(ws[1..]);
    }
  }

  /** An empty title with empty content gives no category. */
  lemma CategorizeEmpty()
    ensures CategorizeResource("", "") == []
  {
    var count := CountsIn(" ");
    assert Corpus("", "") == " ";
    var all := MatchCounts(count);
    forall i | 0 <= i < |all|
      ensures !HasMatches(all[i])
    {
      NothingMatchesInBlank(Keywords(Table[i]));
    }
    FilterNone(all, HasMatches);
  }
}

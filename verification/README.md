# Knowledge Funnel core, in Dafny

Knowledge Funnel is a web app for collecting learning resources (links, notes,
uploaded documents). Three pieces of it decide what the user sees, and this
project models them and proves what they do:

- **The keyword categorizer** (`categorizeResource`). It lower-cases
  `title + " " + content` and counts, for each of six categories (programming,
  design, business, learning, productivity, technology), the whole-word
  matches (`\bkeyword\b`, global) of that category's keyword phrases. It
  returns the names of the categories with a positive count, most matches
  first.
  - Module `KeywordTable` (keywords.dfy) holds the table.
  - Module `Categorizer` (categorizer.dfy) holds the counting and the ranking.
- **The learning roadmap** (`groupResourcesByTopic`, `getResourceDifficulty`,
  `isNodeLocked`), in module `Roadmap` (roadmap.dfy). It groups resources by
  their first category, in the insertion order of a JavaScript `Map`, and
  makes one node per topic. Each node gets a difficulty graded from the
  average of its resources' difficulties. The nodes are sorted unfinished
  first, then easiest first, and a node is locked until every earlier node
  has a completed resource. The `forEach` that fills the map is an imperative
  method (`CollectTopics`), proved against the functional definition.
- **The home page list** (`getFirstName`, the category chips, the search,
  category filter and sort of the resource list, and the chip toggle), in
  module `ListView` (list_view.dfy).

The supporting modules are:

- `Text` (text.dfy): ASCII case mapping, substring search and `\w` characters.
- `Seqs` (seqs.dfy): `Option`, duplicate-free sequences, `Dedup`, `Filter`.
- `Sorting` (sorting.dfy): `Array.prototype.sort` with a key-difference
  comparator. Since ECMAScript 2019 this sort is stable, so it is modelled as a
  stable insertion sort by an integer key.
- `Resources` (resources.dfy): the `Resource` record.

`categorizeResource("Getting Started with JavaScript", "basic intro to coding")`
returns `["programming"]`: "javascript" and "coding" are programming keywords,
and no keyword of another category occurs there as a whole word (no learning
keyword, for instance). That one concrete outcome is not proved as a lemma of
its own. It follows from `Categorizer.CategorizeMembership` and
`Categorizer.CategorizeOrder` once the match counts of that text are known,
and the model does not compute those counts.

## Model

| member | source | states |
|---|---|---|
| Text.Lower | src/lib/utils.ts:130 | lower-casing keeps the length, leaves non-letters alone, maps each upper-case ASCII letter to its lower-case form, and leaves no upper-case letter |
| KeywordTable.TableIndex | src/lib/utils.ts:12-128 | every category has a position in the keyword table's declaration order, and that position holds the category |
| KeywordTable.LabelInjective | src/lib/utils.ts:12-128 | the six table keys are distinct: two categories have the same label iff they are the same category |
| Categorizer.CountFromFits | src/lib/utils.ts:136-138 | matches of a non-empty phrase never overlap: the count times the phrase length fits in the remaining text |
| Categorizer.CountFromPositive | src/lib/utils.ts:136-138 | the global search counts at least one match iff `\bw\b` matches at some position at or after the start |
| Categorizer.KeywordsArePhrases | src/lib/utils.ts:12-128 | every keyword of the table is non-empty, lower-case, and starts and ends with a word character, so `\bkeyword\b` can match it |
| Categorizer.EmbeddedIsNoMatch | src/lib/utils.ts:136 | an occurrence of a keyword glued to a further word character on either side is not a whole-word match |
| Categorizer.NoMatchInsideLongerWord | src/lib/utils.ts:136-138 | "javascripting" holds no match for "javascript" and none for "java" |
| Categorizer.PhraseMatchesContiguously | src/lib/utils.ts:136-138 | a two-word phrase does not match across a double space, and it matches once when enclosed in parentheses |
| Categorizer.KeywordTotalAtLeast | src/lib/utils.ts:134-139 | a category's total counts every one of its keywords' matches in full |
| Categorizer.KeywordTotalPositive | src/lib/utils.ts:134-139 | a category's total is positive iff some keyword of it matches as a whole word somewhere |
| Categorizer.ManagementCountsForBoth | src/lib/utils.ts:56-109 | "management" is a keyword of both business and productivity, so each occurrence counts for both |
| Categorizer.RankKeeps | src/lib/utils.ts:145-147 | filtering then sorting a list of counts keeps exactly the entries with a positive count |
| Categorizer.RankOrder | src/lib/utils.ts:145-147 | a list of counts in table order, filtered and stably sorted by count, is ordered by count and then by table position |
| Categorizer.RankedCounts | src/lib/utils.ts:133-147 | each ranked entry carries its category's count, which is positive; there are at most six entries |
| Categorizer.RankedCovers | src/lib/utils.ts:133-147 | a category is ranked iff its count is positive |
| Categorizer.RankedOrder | src/lib/utils.ts:133-147 | ranked entries are ordered most matches first, and ties keep table order |
| Categorizer.RankingFacts | src/lib/utils.ts:133-148 | for any counts, the ranking lists each category with a positive count exactly once, and nothing else; it is ordered by count descending, then by table position |
| Categorizer.RankingMembers | src/lib/utils.ts:133-148 | the ranking has at most six entries, and a category is in it iff its count is positive |
| Categorizer.RankingOrder | src/lib/utils.ts:145-148 | the ranking is ordered by count descending, then by table position, and has no duplicates |
| Categorizer.LabelsFacts | src/lib/utils.ts:148 | mapping a duplicate-free ranking to names gives table keys, one per category, each once; a category's name is there iff the category is |
| Categorizer.CategorizeLabels | src/lib/utils.ts:11-149 | the result has at most six names, each a key of the keyword table, none repeated |
| Categorizer.CategorizeMembership | src/lib/utils.ts:11-149 | a category's name is in the result iff its whole-word match count in the lower-cased title and content is positive |
| Categorizer.CategorizeOrder | src/lib/utils.ts:133-148 | the result is, position by position, the labels of a ranking of categories ordered by match count, most first, with equal counts in the table's declaration order |
| Categorizer.CategorizeIgnoresCase | src/lib/utils.ts:130-137 | the result depends only on the lower-cased title and content |
| Categorizer.NothingMatchesInBlank | src/lib/utils.ts:130-139 | no keyword list has any match in the corpus of an empty title and content, which is a single space |
| Categorizer.CategorizeEmpty | src/lib/utils.ts:11-149 | an empty title with empty content gives no category |
| Roadmap.ResourceDifficultyCases | src/components/learning-roadmap.tsx:21-44 | a resource is advanced iff an advanced indicator occurs in its text; beginner iff none does and a beginner indicator does; intermediate iff neither does |
| Roadmap.AdvancedIndicatorWins | src/components/learning-roadmap.tsx:35-39 | an advanced indicator anywhere in the lower-cased title or notes makes the resource advanced, whatever beginner indicators appear too |
| Roadmap.NullNotesReadAsNull | src/components/learning-roadmap.tsx:35 | a resource without notes is graded as if its notes were the text "null" |
| Roadmap.SubstringIndicator | src/components/learning-roadmap.tsx:32-39 | indicators are found as plain substrings: a title "Complexity theory" is advanced |
| Roadmap.ResourcesOfAppend | src/components/learning-roadmap.tsx:51-57 | reading one more resource appends it to the group of its main topic and changes no other group |
| Roadmap.MainTopicsMembers | src/components/learning-roadmap.tsx:51-53 | a topic is among the main topics iff some resource has it as a truthy first category |
| Roadmap.GroupingPartitions | src/components/learning-roadmap.tsx:47-57 | topics are listed once each, and they are exactly the main topics that occur; a resource is in its main topic's group, as often as in the input, and in no other group; every listed topic's group is non-empty |
| Roadmap.TopicsInFirstAppearanceOrder | src/components/learning-roadmap.tsx:49-60 | topics come in order of first appearance, and reading further resources only appends topics |
| Roadmap.TopicOrderAppend | src/components/learning-roadmap.tsx:51-57 | one more resource adds its topic at the end of the key order when the topic is new, and leaves the order unchanged otherwise |
| Roadmap.GroupsSkip | src/components/learning-roadmap.tsx:52-53 | a resource without a truthy first category leaves the map and its key order unchanged |
| Roadmap.GroupsAddSeen | src/components/learning-roadmap.tsx:55-56 | a resource of a topic already in the map extends that topic's group and keeps the key order |
| Roadmap.GroupsAddNew | src/components/learning-roadmap.tsx:55-56 | a resource of a new topic creates a one-element group, and the topic becomes the last key |
| Roadmap.CollectTopics | src/components/learning-roadmap.tsx:49-57 | the loop leaves the map holding, for each main topic in order of first appearance, exactly its resources in input order |
| Roadmap.Capitalize | src/components/learning-roadmap.tsx:79 | capitalising keeps the length, upper-cases the first character and keeps the rest |
| Roadmap.DifficultyScore | src/components/learning-roadmap.tsx:63-69 | the summed score of a group is at most two per resource |
| Roadmap.NodeDifficultyByAverage | src/components/learning-roadmap.tsx:64-76 | for a non-empty group, the node is advanced iff the average score exceeds 1.5, intermediate iff it lies in (0.5, 1.5], beginner iff it is at most 0.5 |
| Roadmap.UniformGroupDifficulty | src/components/learning-roadmap.tsx:63-76 | a non-empty group whose resources all share one difficulty is a node of that difficulty |
| Roadmap.CompareNodesIsKeyOrder | src/components/learning-roadmap.tsx:87-99 | the comparator agrees in sign with the difference of a key that puts unfinished before completed nodes and then ranks by difficulty |
| Roadmap.GroupResourcesByTopic | src/components/learning-roadmap.tsx:47-100 | the method returns exactly the roadmap the functional definition gives |
| Roadmap.TopicNodesFacts | src/components/learning-roadmap.tsx:60-86 | before sorting there is one node per topic, in key order, each made from its topic and group, none repeated |
| Roadmap.RoadmapNodes | src/components/learning-roadmap.tsx:60-86 | each node is for one main topic and holds that topic's whole non-empty group; its title is the capitalised topic; its description names the topic; its only category is the topic; it is completed iff all its resources are; its difficulty is graded from its resources |
| Roadmap.RoadmapTopics | src/components/learning-roadmap.tsx:47-100 | the roadmap has one node for each main topic, with no topic repeated or lost |
| Roadmap.RoadmapOrder | src/components/learning-roadmap.tsx:87-99 | unfinished nodes come before completed ones; among equal completion, easier first; among equal completion and difficulty, the topic seen first comes first (the sort is stable) |
| Roadmap.CompletedCount | src/components/learning-roadmap.tsx:159-160 | the number of completed resources is at most the group size, and it is zero iff none is completed |
| Roadmap.LockingIsMonotone | src/components/learning-roadmap.tsx:154-162 | once a node is locked, every later node is locked too |
| Roadmap.RoadmapLocking | src/components/learning-roadmap.tsx:154-162 | in a built roadmap node 0 is open, and node i > 0 is locked iff some earlier node has no completed resource |
| Roadmap.CompletedFirstNodeUnlocksAll | src/components/learning-roadmap.tsx:154-162 | when the first node is completed, no node is locked |
| ListView.FirstToken | src/app/page.tsx:129 | `split(" ")[0]` is a prefix without spaces that runs to the end or to a space |
| ListView.GetFirstName | src/app/page.tsx:125-137 | signed out gives ""; a non-empty full name gives its first space-separated word; otherwise a non-empty user name gives that name; otherwise "there" |
| ListView.FirstTokenOfWords | src/app/page.tsx:129 | a full name "first rest…" greets with "first" |
| ListView.OneWordFullName | src/app/page.tsx:129 | a full name without spaces greets with the whole name |
| ListView.AllCategories | src/app/page.tsx:200 | a label is in the flattened list iff some resource carries it |
| ListView.UniqueCategoriesFacts | src/app/page.tsx:199-201 | the chips are each label once, exactly the labels some resource carries, in order of first occurrence |
| ListView.FilterKeepsExactlyMatches | src/app/page.tsx:203-211 | a resource stays iff its lower-cased title or notes contain the lower-cased search term and it carries the selected category (or none is selected), as often as in the input |
| ListView.EmptySearchKeepsAll | src/app/page.tsx:203-211 | an empty search with no category selected keeps the whole list in its order |
| ListView.FilteredAndSortedOrder | src/app/page.tsx:203-229 | the shown list is a permutation of the filtered list, ordered newest first, oldest first, by title collation, or by progress descending, as the option asks |
| ListView.ShownIffVisible | src/app/page.tsx:203-229 | a resource is shown iff it is in the list and passes both the search and the category test |
| ListView.ToggleCategory | src/app/page.tsx:265-268 | clicking the selected chip clears the selection; clicking any other chip selects it |
| ListView.ToggleTwice | src/app/page.tsx:265-268 | clicking the same chip twice restores the selection iff nothing or that chip was selected |
| Sorting.SortBy | src/app/page.tsx:212-229 | the sort returns a permutation of its input, ordered by the key |
| Sorting.SortByKeepsTieOrder | src/components/learning-roadmap.tsx:87-99 | the sort is stable: elements with equal keys keep their input order |
| Seqs.DedupFirstOccurrenceOrder | src/components/learning-roadmap.tsx:49-60 | de-duplication, like a `Set` or `Map` key order, lists elements in order of their first occurrence |

## Left out

- Text.Lower: `toLowerCase` is modelled on ASCII letters only. JavaScript also
  maps non-ASCII letters. Keyword and indicator phrases are all ASCII, but a
  non-ASCII title is lower-cased differently in the app.
- Roadmap.Capitalize: `toUpperCase` of the first character is modelled on
  ASCII letters only, for the same reason.
- `\b` is taken as ASCII word characters (`[A-Za-z0-9_]`). That is what a
  regular expression without the `u` flag does. The `i` flag is modelled as
  having no effect, because the text is already lower-case.
- Categorizer.CategorizeResource has no `ensures` of its own. Its properties
  are the `Categorize*` lemmas.
- `localeCompare` is a parameter: a collation key `string -> int` that the
  caller supplies. The model assumes the collation is a total preorder given by
  a key. Locale rules are not modelled.
- `new Date(created_at).getTime()` is modelled as an already parsed integer
  timestamp. An unparsable date (NaN) is not modelled.
- Progress and timestamps are unbounded integers. JavaScript numbers are
  doubles; differences of realistic values are exact.
- The `default: return 0` branch of the list sort is unreachable for the four
  `SortOption` values, so it is not modelled.
- `isValidUrl`, `extractFileContent` and `cn` (src/lib/utils.ts) are I/O or
  styling helpers outside the modelled core.
- The metadata route, the Supabase hooks, authentication and the React
  rendering are not modelled. This includes icons, colours, animations and
  each node's progress bar. `getFirstName` takes the user's metadata as a
  value.
- A first category of "" counts as no topic, and a selected category of ""
  counts as no selection, as JavaScript truthiness makes them. Both are
  modelled as the code behaves. No specific property about "" is proved
  beyond `MainTopic`, `MatchesCategory` and `Truthy` themselves.
- The average difficulty of an empty group (0 / 0 is NaN, so the node is
  beginner) is modelled by integer thresholds that also give beginner. Built
  groups are never empty (`GroupingPartitions`).

/** The keyword table of the categorizer (src/lib/utils.ts): six categories,
    their labels, and the keyword phrases of each, in declaration order. */
module KeywordTable {

  datatype Category = Programming | Design | Business | Learning | Productivity | Technology

  /** The categories in the keyword table's declaration order. */
  const Table: seq<Category> := [Programming, Design, Business, Learning, Productivity, Technology]

  function TableIndex(c: Category): (i: nat)
    ensures i < |Table| && Table[i] == c
  {
    match c
    case Programming => 0
    case Design => 1
    case Business => 2
    case Learning => 3
    case Productivity => 4
    case Technology => 5
  }

  /** The table key, which is the label stored on a resource. */
  function Label(c: Category): string {
    match c
    case Programming => "programming"
    case Design => "design"
    case Business => "business"
    case Learning => "learning"
    case Productivity => "productivity"
    case Technology => "technology"
  }

  /** One of the six keys of the keyword table. */
  predicate IsTableKey(name: string) {
    exists c: Category :: name == Label(c)
  }

  /** Distinct categories have distinct labels. */
  lemma LabelInjective(c: Category, d: Category)
    ensures Label(c) == Label(d) <==> c == d
  {
    if c != d {
      assert Label(c)[0] != Label(d)[0] || |Label(c)| != |Label(d)|;
    }
  }

  /** The keyword table: each category's phrases, in declaration order. */
  function Keywords(c: Category): seq<string>
  {
    match c
    case Programming => ProgrammingWords
    case Design => DesignWords
    case Business => BusinessWords
    case Learning => LearningWords
    case Productivity => ProductivityWords
    case Technology => TechnologyWords
  }

  const ProgrammingWords: seq<string> :=
    ["code", "programming", "javascript", "typescript", "python", "java",
     "react", "angular", "vue", "node", "api", "backend", "frontend",
     "fullstack", "web", "development", "github", "git", "coding",
     "software", "app", "developer"]

  const DesignWords: seq<string> :=
    ["design", "ui", "ux", "interface", "visual", "figma", "sketch", "adobe",
     "prototype", "wireframe", "layout", "typography", "color",
     "accessibility", "user experience", "user interface", "responsive"]

  const BusinessWords: seq<string> :=
    ["business", "startup", "marketing", "strategy", "product", "management",
     "leadership", "entrepreneur", "sales", "growth", "analytics", "metrics",
     "revenue", "customer", "market", "saas", "b2b", "b2c"]

  const LearningWords: seq<string> :=
    ["course", "tutorial", "learn", "guide", "education", "training",
     "workshop", "documentation", "reference", "resource", "book", "video",
     "lecture", "lesson", "study", "practice"]

  const ProductivityWords: seq<string> :=
    ["productivity", "workflow", "tools", "automation", "efficiency", "time",
     "management", "organization", "planning", "task", "project", "process",
     "methodology", "system"]

  const TechnologyWords: seq<string> :=
    ["tech", "ai", "machine learning", "data", "cloud", "security", "devops",
     "infrastructure", "architecture", "database", "blockchain", "mobile",
     "iot", "artificial intelligence", "ml", "deep learning"]
}

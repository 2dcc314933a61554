/** A saved learning resource: a row of the `resources` table joined with the
    names of its categories (`Resource` in src/lib/hooks/use-resources.ts). */
module Resources {
  import opened Seqs

  /** `notes` is nullable; `created_at` is taken as an already parsed
      timestamp; `categories` are the labels the categorizer assigned, in
      the order it ranked them. */
  datatype Resource = Resource(
    id: string,
    title: string,
    url: string,
    notes: Option<string>,
    isCompleted: bool,
    progress: int,
    createdAt: int,
    userId: string,
    categories: seq<string>)
}

/**
 * The rows the ranking core reads from the backend, reduced to the fields
 * it uses. Timestamps are integer milliseconds since the epoch.
 */
module Schema {
  import opened Wrappers

  /** Lifecycle of a collaboration posting. */
  datatype Status = Pending | InProgress | Completed | Cancelled

  /** A profile: its id (the key creators are looked up by) and the fields the ranker reads. */
  datatype User = User(
    id: string,
    nicheTags: seq<string>,
    styleTags: seq<string>,
    followerBucket: Option<string>,  // None stands for null
    reliabilityScore: int,
    completedCollabs: int)
  {
    /** Niche tags followed by style tags, as `[...niche_tags, ...style_tags]`. */
    function AllTags(): seq<string> { nicheTags + styleTags }
  }

  /**
   * A posting. `cardTags` is the `tags` list of the loosely typed card data;
   * None when the card data is null or has no `tags` entry. The ranker
   * never reads `id`; it identifies the posting carried into the ranking.
   */
  datatype Collab = Collab(
    id: string,
    creator1: string,
    status: Status,
    cardTags: Option<seq<string>>,
    createdAt: int)
}

/**
 The contract of the server route behind the tile requests
 (`list_cafe_summaries` in backend/app/api/routes.py).
 */
module CafeSummaries {
  import opened TileGeometry

  const MAX_CAFES_PER_VIEWPORT := 5_000

  /** A cafe row; `active` rows are the only ones served. */
  datatype Cafe = Cafe(id: int, at: Point, active: bool)

  /** The rows of the cafe table. */
  type Catalogue = set<Cafe>

  /** `id` is the primary key of the table. */
  ghost predicate KeyedById(cafes: Catalogue) {
    forall c, d :: c in cafes && d in cafes && c.id == d.id ==> c == d
  }

  /** The rows the query selects before its limit. */
  ghost function Matching(cafes: Catalogue, box: Viewport): set<Cafe> {
    set c | c in cafes && c.active && InBox(box, c.at)
  }

  datatype Reply = Reply(items: seq<Cafe>, truncated: bool)

  ghost predicate AscendingIds(items: seq<Cafe>) {
    forall i, j :: 0 <= i < j < |items| ==> items[i].id < items[j].id
  }

  /** `items` lists exactly `cafes`. */
  ghost predicate Lists(items: seq<Cafe>, cafes: set<Cafe>) {
    AscendingIds(items) && forall c :: c in items <==> c in cafes
  }

  /**
   A successful reply: all matching rows in id order, or, when the limit of one row more
   than the maximum is filled, nothing but the truncation flag.
   */
  ghost predicate IsReply(cafes: Catalogue, box: Viewport, reply: Reply) {
    if |Matching(cafes, box)| > MAX_CAFES_PER_VIEWPORT then reply == Reply([], true)
    else !reply.truncated && Lists(reply.items, Matching(cafes, box))
  }
}

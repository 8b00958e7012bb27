/** Board fields and their order: the keys of the position map. */
module Points {

  datatype Point = Point(x: int, y: int)

  /** 1 when `b` is strictly greater, -1 when it is strictly smaller, 0 when the two are equal. */
  function ComparePoints(a: Point, b: Point): int {
    if b.x > a.x then 1
    else if b.x < a.x then -1
    else if b.y > a.y then 1
    else if b.y < a.y then -1
    else 0
  }

  predicate Less(a: Point, b: Point) {
    ComparePoints(a, b) == 1
  }

  /** The comparison is a strict total order: what the map's documentation asks of it. */
  lemma CompareIsTotalOrder(a: Point, b: Point, c: Point)
    ensures ComparePoints(a, b) == 0 <==> a == b
    ensures ComparePoints(a, b) == -ComparePoints(b, a)
    ensures Less(a, b) && Less(b, c) ==> Less(a, c)
    ensures Less(a, b) <==> a.x < b.x || (a.x == b.x && a.y < b.y)
  {
  }
}

/**
 `findNearestNodeInGraph`: snaps a query point to the graph node whose stored
 coordinate is closest in squared degree space, scanning the coordinate table
 in its enumeration order.
 */
module Locator {
  import opened Wrappers
  import opened Graphs

  /** A JavaScript value found inside a coordinate entry. */
  datatype JsValue =
    | Number(x: real)      // a finite number
    | NonFiniteNumber      // NaN or ±Infinity: `typeof` still says "number"
    | NonNumber            // a string, null, an object, ...

  /** The value the coordinate table holds for one id: `[lon, lat]` when well formed. */
  datatype CoordValue = Array(items: seq<JsValue>) | NotArray

  /** `Object.entries(coords)`: ids with their values, in enumeration order. */
  type CoordTable = seq<(string, CoordValue)>

  /** `typeof v === "number"`. */
  predicate IsNumber(v: JsValue)
  {
    v.Number? || v.NonFiniteNumber?
  }

  /** The entry passes every `continue` of the scan: a two-element array of numbers whose id is a graph key. */
  predicate Eligible(entry: (string, CoordValue), g: Graph)
  {
    && entry.1.Array?
    && |entry.1.items| == 2
    && entry.0 in g
    && IsNumber(entry.1.items[0])
    && IsNumber(entry.1.items[1])
  }

  /**
   An eligible entry with finite coordinates. Only these can ever win: a
   non-finite coordinate makes the distance NaN or Infinity, and neither
   compares below the running minimum, which starts at Infinity.
   */
  predicate Scored(entry: (string, CoordValue), g: Graph)
  {
    Eligible(entry, g) && entry.1.items[0].Number? && entry.1.items[1].Number?
  }

  /**
   `dLat * dLat + dLon * dLon` for an entry stored as `[lon, lat]`: never
   negative, and zero exactly when the query stands on the entry's coordinate.
   */
  function SqDist(lat: real, lon: real, entry: (string, CoordValue)): (d: real)
    requires entry.1.Array? && |entry.1.items| == 2
    requires entry.1.items[0].Number? && entry.1.items[1].Number?
    ensures d >= 0.0
    ensures d == 0.0 <==> lat == entry.1.items[1].x && lon == entry.1.items[0].x
  {
    var dLat := lat - entry.1.items[1].x;
    var dLon := lon - entry.1.items[0].x;
    SquareSign(dLat);
    SquareSign(dLon);
    Square(dLat) + Square(dLon)
  }

  /** `x * x`. */
  function Square(x: real): real
  {
    x * x
  }

  /** A square is never negative, and zero only at zero. */
  lemma SquareSign(x: real)
    ensures Square(x) >= 0.0
    ensures Square(x) == 0.0 <==> x == 0.0
  {
    if x != 0.0 {
      calc {
        Square(x);
        == x * x;
        > 0.0;
      }
    } else {
      calc {
        Square(x);
        == 0.0 * 0.0;
        == 0.0;
      }
    }
  }

  /** Entry `k` is the first entry of the table attaining the least squared distance. */
  ghost predicate FirstNearest(lat: real, lon: real, coords: CoordTable, g: Graph, k: int)
  {
    && 0 <= k < |coords|
    && Scored(coords[k], g)
    && (forall j :: 0 <= j < k && Scored(coords[j], g) ==> SqDist(lat, lon, coords[j]) > SqDist(lat, lon, coords[k]))
    && (forall j :: k < j < |coords| && Scored(coords[j], g) ==> SqDist(lat, lon, coords[j]) >= SqDist(lat, lon, coords[k]))
  }

  /**
   The scan of lines 176-194 of the page. It answers `None` (JavaScript `null`)
   exactly when no entry can be scored, and otherwise the id of the first entry
   with the least squared distance, which is always an eligible graph key.
   */
  method FindNearest(lat: real, lon: real, coords: CoordTable, g: Graph) returns (closest: Option<NodeId>)
    ensures closest.None? <==> forall j :: 0 <= j < |coords| ==> !Scored(coords[j], g)
    ensures closest.Some? ==> exists k :: FirstNearest(lat, lon, coords, g, k) && coords[k].0 == closest.value
    ensures closest.Some? ==> closest.value in g
  {
    closest := None;
    var minDist: Dist := Inf;
    ghost var best := -1;
    var i := 0;
    while i < |coords|
      invariant 0 <= i <= |coords|
      invariant closest.None? <==> forall j :: 0 <= j < i ==> !Scored(coords[j], g)
      invariant closest.None? ==> minDist == Inf
      invariant closest.Some? ==>
        && FirstNearest(lat, lon, coords[..i], g, best)
        && coords[best].0 == closest.value
        && minDist == Fin(SqDist(lat, lon, coords[best]))
    {
      var (id, coord) := coords[i];
      if coord.Array? && |coord.items| == 2 && id in g && IsNumber(coord.items[0]) && IsNumber(coord.items[1]) {
        if coord.items[0].Number? && coord.items[1].Number? {
          var d := SqDist(lat, lon, coords[i]);
          if Below(d, minDist) {
            minDist := Fin(d);
            closest := Some(id);
            best := i;
          }
        }
      }
      assert coords[..i + 1] == coords[..i] + [coords[i]];
      i := i + 1;
    }
    assert coords[..i] == coords;
  }

  /**
   A query standing exactly on a scored entry's coordinate is answered at
   distance zero, by that entry or by an earlier one at the same distance.
   */
  lemma ExactMatchWins(lat: real, lon: real, coords: CoordTable, g: Graph, k: int, j: int)
    requires FirstNearest(lat, lon, coords, g, k)
    requires 0 <= j < |coords| && Scored(coords[j], g)
    requires coords[j].1.items == [Number(lon), Number(lat)]
    ensures SqDist(lat, lon, coords[k]) == 0.0 && k <= j
  {
    assert SqDist(lat, lon, coords[j]) == 0.0;
  }

  /** `id` is the id of the first entry with the least squared distance. */
  ghost predicate NearestIs(lat: real, lon: real, coords: CoordTable, g: Graph, id: NodeId)
  {
    exists k :: FirstNearest(lat, lon, coords, g, k) && coords[k].0 == id
  }

  /** At most one entry is the first nearest one, so the scan's answer is determined by its inputs. */
  lemma FirstNearestUnique(lat: real, lon: real, coords: CoordTable, g: Graph, k1: int, k2: int)
    requires FirstNearest(lat, lon, coords, g, k1) && FirstNearest(lat, lon, coords, g, k2)
    ensures k1 == k2
  {
  }
}

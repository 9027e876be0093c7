/**
 * The route encoder of the map server: Google's Encoded Polyline Algorithm Format.
 * Each coordinate is a delta from the previous point (the first from (0, 0)), folded to
 * a natural number by the sign trick, and written as 5-bit groups, least significant
 * first, each group offset by 63 and all but the last flagged with 0x20.
 */
module Polyline {
  import opened Wrappers

  /** A route point whose latitude and longitude are already multiplied by 1e5 and rounded. */
  datatype Point = Point(lat: int, lon: int)

  /** Undoes the sign fold: even codes are non-negative values, odd codes negative ones. */
  function UnZigZag(z: nat): int
  {
    if z % 2 == 0 then z / 2 else -(z + 1) / 2
  }

  /**
   * The sign fold `d < 0 ? ~(d << 1) : d << 1`, where `~(d << 1)` is -2d-1.
   * The lowest bit of the result carries the sign, and the fold loses nothing.
   */
  function ZigZag(d: int): (r: nat)
    ensures r % 2 == 1 <==> d < 0
    ensures UnZigZag(r) == d
  {
    if d < 0 then -2 * d - 1 else 2 * d
  }

  lemma ZigZagInjective(d1: int, d2: int)
    requires ZigZag(d1) == ZigZag(d2)
    ensures d1 == d2
  {
    assert UnZigZag(ZigZag(d1)) == d1;
  }

  /**
   * The model's coordinates are unbounded integers, where the source folds in a 64-bit `long`.
   * On earth's coordinates (at most 180 degrees, times 1e5) the delta and its fold stay far
   * below 2^63, so the shift by one never wraps.
   */
  lemma FoldFitsInLong(coordinate: int, last: int)
    requires -18000000 <= coordinate <= 18000000 && -18000000 <= last <= 18000000
    ensures -0x4000_0000_0000_0000 < coordinate - last < 0x4000_0000_0000_0000
    ensures ZigZag(coordinate - last) < 0x8000_0000_0000_0000
  {
  }

  /** A 6-bit group (the continuation flag 0x20 and 5 value bits) written as a character. */
  function GroupChar(group: nat): (c: char)
    requires group < 64
    ensures c as int == group + 63
  {
    (group + 63) as char
  }

  /** The characters emitted for one folded value, least significant group first. */
  function Chunks(v: nat): (r: seq<char>)
    ensures |r| >= 1
    decreases v
  {
    if v < 32 then [GroupChar(v)]
    else [GroupChar(32 + v % 32)] + Chunks(v / 32)
  }

  /** Every group but the last carries the continuation flag, and every character lies in [63, 126]. */
  lemma {:induction false} ChunksShape(v: nat)
    ensures forall i :: 0 <= i < |Chunks(v)| ==> 63 <= Chunks(v)[i] as int <= 126
    ensures forall i :: 0 <= i < |Chunks(v)| - 1 ==> Chunks(v)[i] as int - 63 >= 32
    ensures Chunks(v)[|Chunks(v)| - 1] as int - 63 < 32
    decreases v
  {
    if v >= 32 {
      ChunksShape(v / 32);
      assert Chunks(v) == [GroupChar(32 + v % 32)] + Chunks(v / 32);
    }
  }

  /** The encoding of `route`, each point taken relative to (`lastLat`, `lastLon`) or its predecessor. */
  function EncodeRoute(route: seq<Point>, lastLat: int, lastLon: int): (r: string)
    ensures |r| == 0 <==> |route| == 0
    decreases |route|
  {
    if route == [] then []
    else
      var p := route[0];
      Chunks(ZigZag(p.lat - lastLat)) + Chunks(ZigZag(p.lon - lastLon))
        + EncodeRoute(route[1..], p.lat, p.lon)
  }

  /** Every character of an encoded route lies in [63, 126]. */
  lemma {:induction false} EncodedCharsInRange(route: seq<Point>, lastLat: int, lastLon: int)
    ensures forall c :: c in EncodeRoute(route, lastLat, lastLon) ==> 63 <= c as int <= 126
    decreases |route|
  {
    if route != [] {
      var p := route[0];
      var a, b := ZigZag(p.lat - lastLat), ZigZag(p.lon - lastLon);
      ChunksShape(a);
      ChunksShape(b);
      EncodedCharsInRange(route[1..], p.lat, p.lon);
      assert EncodeRoute(route, lastLat, lastLon) == Chunks(a) + Chunks(b) + EncodeRoute(route[1..], p.lat, p.lon);
    }
  }

  /** Appends the groups of one signed coordinate delta, as the inner `while` loops do. */
  method AppendDelta(result: string, diff: int) returns (r: string)
    ensures r == result + Chunks(ZigZag(diff))
  {
    var d := ZigZag(diff);
    r := result;
    while d >= 0x20
      invariant r + Chunks(d) == result + Chunks(ZigZag(diff))
      decreases d
    {
      // (0x20 | (d & 0x1f)) + 63, for d >= 0
      r := r + [GroupChar(0x20 + d % 0x20)];
      // d >>= 5, for d >= 0
      d := d / 0x20;
    }
    r := r + [GroupChar(d)];
  }

  lemma StepEncode(route: seq<Point>, i: nat, before: string, lastLat: int, lastLon: int)
    requires i < |route|
    ensures before + EncodeRoute(route[i..], lastLat, lastLon)
         == before + Chunks(ZigZag(route[i].lat - lastLat)) + Chunks(ZigZag(route[i].lon - lastLon))
            + EncodeRoute(route[i + 1..], route[i].lat, route[i].lon)
  {
    assert route[i..][1..] == route[i + 1..];
  }

  /** `MapServer.encode` on already quantised points. */
  method Encode(route: seq<Point>) returns (result: string)
    ensures result == EncodeRoute(route, 0, 0)
  {
    result := [];
    var lastLat, lastLon := 0, 0;
    assert route[0..] == route;
    for i := 0 to |route|
      invariant result + EncodeRoute(route[i..], lastLat, lastLon) == EncodeRoute(route, 0, 0)
    {
      ghost var before := result;
      ghost var pLat, pLon := lastLat, lastLon;
      var point := route[i];
      var lat := point.lat;
      result := AppendDelta(result, lat - lastLat);
      lastLat := lat;
      var lon := point.lon;
      result := AppendDelta(result, lon - lastLon);
      lastLon := lon;
      StepEncode(route, i, before, pLat, pLon);
    }
  }

  /** Reads one folded value back: groups are taken while the continuation flag is set. */
  function DecodeValue(s: seq<char>): (r: Option<(nat, seq<char>)>)
    ensures r.Some? ==> |r.value.1| < |s|
    decreases |s|
  {
    if s == [] then None
    else
      var b := s[0] as int - 63;
      if b < 0 || b >= 64 then None
      else if b < 32 then Some((b, s[1..]))
      else
        match DecodeValue(s[1..])
        case None => None
        case Some((v, rest)) => Some((b - 32 + 32 * v, rest))
  }

  /** Reads a whole route back, accumulating the deltas. */
  function DecodeRoute(s: seq<char>, lastLat: int, lastLon: int): Option<seq<Point>>
    decreases |s|
  {
    if s == [] then Some([])
    else
      match DecodeValue(s)
      case None => None
      case Some((zLat, afterLat)) =>
        match DecodeValue(afterLat)
        case None => None
        case Some((zLon, afterLon)) =>
          var p := Point(lastLat + UnZigZag(zLat), lastLon + UnZigZag(zLon));
          match DecodeRoute(afterLon, p.lat, p.lon)
          case None => None
          case Some(ps) => Some([p] + ps)
  }

  lemma {:induction false} ChunksRoundTrip(v: nat, rest: seq<char>)
    ensures DecodeValue(Chunks(v) + rest) == Some((v, rest))
    decreases v
  {
    if v < 32 {
      assert (Chunks(v) + rest)[1..] == rest;
    } else {
      ChunksRoundTrip(v / 32, rest);
      assert (Chunks(v) + rest)[1..] == Chunks(v / 32) + rest;
    }
  }

  /** Decoding the encoder's output gives the quantised route back. */
  lemma {:induction false} RouteRoundTrip(route: seq<Point>, lastLat: int, lastLon: int)
    ensures DecodeRoute(EncodeRoute(route, lastLat, lastLon), lastLat, lastLon) == Some(route)
    decreases |route|
  {
    if route != [] {
      var p := route[0];
      var tail := EncodeRoute(route[1..], p.lat, p.lon);
      var lonPart := Chunks(ZigZag(p.lon - lastLon));
      var s := Chunks(ZigZag(p.lat - lastLat)) + lonPart + tail;
      assert EncodeRoute(route, lastLat, lastLon) == s;
      ChunksRoundTrip(ZigZag(p.lat - lastLat), lonPart + tail);
      assert s == Chunks(ZigZag(p.lat - lastLat)) + (lonPart + tail);
      ChunksRoundTrip(ZigZag(p.lon - lastLon), tail);
      RouteRoundTrip(route[1..], p.lat, p.lon);
      assert [p] + route[1..] == route;
    }
  }

  /** What the encoder promises about its output as a whole. */
  lemma EncodeDecodes(route: seq<Point>)
    ensures DecodeRoute(EncodeRoute(route, 0, 0), 0, 0) == Some(route)
  {
    RouteRoundTrip(route, 0, 0);
  }
}

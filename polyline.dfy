/**
 * The Google Encoded Polyline Algorithm Format, as src/routeMatcher.js implements it
 * (decodePolyline, encodePolyline and its inner encodeValue).
 *
 * Coordinates are modelled at the integer level: a point holds latitude and longitude
 * already multiplied by 1e5 and rounded ("E5" units). Every coordinate is sent as the
 * difference from the previous point (the first from (0, 0)), zig-zagged to a
 * non-negative number and written as 5-bit groups, least significant first; each
 * group but the last carries the continuation bit 0x20 and every group is offset by 63
 * into a printable character.
 */
module Polyline {

  /** A point in E5 units: degrees times 100000. */
  datatype Point = Point(lat: int, lng: int)

  /** The point the first delta is taken against. */
  const Origin := Point(0, 0)

  /** Added to every 6-bit group to make it a printable character ('?' .. '~'). */
  const CharOffset := 63

  /** Set in every group that is followed by another group of the same value. */
  const ContinuationBit := 0x20

  /** Zig-zag values below 2^30 fit JavaScript's 32-bit `<<` and take at most six groups. */
  const ZigZagLimit := 0x4000_0000

  /** The longest group whose digits JavaScript's 32-bit `<<` decodes without wrapping. */
  const MaxGroupChars := 6

  // ---------------------------------------------------------------------------
  // Zig-zag
  // ---------------------------------------------------------------------------

  /**
   * `v < 0 ? ~(v << 1) : v << 1`; `~x` is `-x - 1`. The sign goes to the lowest bit and
   * the magnitude (a negative value's one's complement) to the bits above it.
   */
  function ZigZag(v: int): (z: nat)
    ensures z % 2 == 1 <==> v < 0
    ensures z / 2 == if v < 0 then -v - 1 else v
  {
    if v < 0 then -2 * v - 1 else 2 * v
  }

  /**
   * `result & 1 ? ~(result >> 1) : result >> 1`: the lowest bit is the sign, the bits
   * above it the magnitude.
   */
  function UnZigZag(z: nat): (v: int)
    ensures v < 0 <==> z % 2 == 1
    ensures -(z as int) <= v <= z
  {
    if z % 2 == 1 then -(z / 2) - 1 else z / 2
  }

  lemma UnZigZagZigZag(v: int)
    ensures UnZigZag(ZigZag(v)) == v
  {
  }

  lemma ZigZagUnZigZag(z: nat)
    ensures ZigZag(UnZigZag(z)) == z
  {
  }

  /** A delta whose zig-zag value the 32-bit operators of the source handle exactly. */
  predicate DeltaFits(d: int) {
    ZigZag(d) < ZigZagLimit
  }

  // ---------------------------------------------------------------------------
  // Characters
  // ---------------------------------------------------------------------------

  /** The character of one group: a 5-bit digit, the continuation bit when `more`, plus 63. */
  function GroupChar(digit: nat, more: bool): char
    requires digit < 32
  {
    ((if more then ContinuationBit else 0) + digit + CharOffset) as char
  }

  /** `charCodeAt(i) - 63`; negative for characters below '?'. */
  function Byte(c: char): int {
    c as int - CharOffset
  }

  /** `byte & 0x1f`: on a two's-complement integer this is the non-negative remainder mod 32. */
  function Digit(c: char): nat {
    Byte(c) % 32
  }

  /** `byte >= 0x20`: another group of the same value follows. */
  predicate Continues(c: char) {
    Byte(c) >= ContinuationBit
  }

  // ---------------------------------------------------------------------------
  // Encoding (specification)
  // ---------------------------------------------------------------------------

  /** The groups of one zig-zag value, least significant first (encodeValue). */
  function ValueChars(z: nat): string
    decreases z
  {
    if z >= ContinuationBit then [GroupChar(z % 32, true)] + ValueChars(z / 32)
    else [GroupChar(z, false)]
  }

  /** One point: its latitude delta's groups, then its longitude delta's groups. */
  function PointChars(prev: Point, p: Point): string {
    ValueChars(ZigZag(p.lat - prev.lat)) + ValueChars(ZigZag(p.lng - prev.lng))
  }

  /** The encoding of `ps` when the point before them was `prev`. */
  function EncodeFrom(ps: seq<Point>, prev: Point): string
    decreases |ps|
  {
    if ps == [] then "" else PointChars(prev, ps[0]) + EncodeFrom(ps[1..], ps[0])
  }

  /** The encoded polyline of `ps`. */
  function Encoded(ps: seq<Point>): string {
    EncodeFrom(ps, Origin)
  }

  /** Every delta the encoder computes, starting from `prev`, fits the 32-bit operators. */
  predicate DeltasFitFrom(ps: seq<Point>, prev: Point)
    decreases |ps|
  {
    ps == [] ||
    (DeltaFits(ps[0].lat - prev.lat) && DeltaFits(ps[0].lng - prev.lng) &&
     DeltasFitFrom(ps[1..], ps[0]))
  }

  predicate DeltasFit(ps: seq<Point>) {
    DeltasFitFrom(ps, Origin)
  }

  // ---------------------------------------------------------------------------
  // Decoding (specification)
  // ---------------------------------------------------------------------------

  /** A value read from the front of a string, and what is left after it. */
  datatype Read = Read(value: nat, rest: string)

  /**
   * Reads one group from the front of `s`. Reading past the end yields NaN in the
   * source, whose `& 0x1f` is 0 and which is not `>= 0x20`: a truncated group ends
   * there with digit 0.
   */
  function ReadValue(s: string): (r: Read)
    ensures |r.rest| < |s| || r.rest == s == []
  {
    if s == [] then Read(0, [])
    else if Continues(s[0]) then
      var tail := ReadValue(s[1..]);
      Read(Digit(s[0]) + 32 * tail.value, tail.rest)
    else Read(Digit(s[0]), s[1..])
  }

  /** A point read from the front of a string, and what is left after it. */
  datatype PointRead = PointRead(point: Point, rest: string)

  /** One point: a latitude delta, then a longitude delta, added to `prev`. */
  function ReadPoint(s: string, prev: Point): (r: PointRead)
    ensures |r.rest| < |s| || r.rest == s == []
  {
    var dLat := ReadValue(s);
    var dLng := ReadValue(dLat.rest);
    PointRead(Point(prev.lat + UnZigZag(dLat.value), prev.lng + UnZigZag(dLng.value)), dLng.rest)
  }

  /** Points decoded from `s`, the running sums starting at `prev`. */
  function DecodeFrom(s: string, prev: Point): seq<Point>
    decreases |s|
  {
    if s == [] then []
    else
      var r := ReadPoint(s, prev);
      [r.point] + DecodeFrom(r.rest, r.point)
  }

  /** The points of the encoded polyline `s`. */
  function Decoded(s: string): seq<Point> {
    DecodeFrom(s, Origin)
  }

  /** The characters of the group at the front of `s` (not counting a read past the end). */
  function GroupLength(s: string): nat {
    if s == [] then 0
    else if Continues(s[0]) then 1 + GroupLength(s[1..])
    else 1
  }

  /**
   * No group is longer than six characters, so no digit is shifted by 30 or more and
   * the source's 32-bit `|=` and `<<` compute the same number as unbounded integers.
   */
  predicate GroupsFit(s: string) {
    forall i | 0 <= i < |s| :: GroupLength(s[i..]) <= MaxGroupChars
  }

  /** The unread part of `s` once `index` characters were consumed (`index` may pass the end). */
  function Rest(s: string, index: nat): string {
    if index <= |s| then s[index..] else []
  }

  /** `v << n` on unbounded integers. */
  function ShiftLeft(v: nat, n: nat): nat {
    if n == 0 then v else 2 * ShiftLeft(v, n - 1)
  }

  // ---------------------------------------------------------------------------
  // The source's loops
  // ---------------------------------------------------------------------------

  /** encodeValue, on a delta already in E5 units. */
  method EncodeValue(delta: int) returns (result: string)
    requires DeltaFits(delta)
    ensures result == ValueChars(ZigZag(delta))
  {
    var v: nat := ZigZag(delta);
    result := "";
    while v >= ContinuationBit
      invariant result + ValueChars(v) == ValueChars(ZigZag(delta))
      decreases v
    {
      assert ValueChars(v) == [GroupChar(v % 32, true)] + ValueChars(v / 32);
      result := result + [GroupChar(v % 32, true)];
      v := v / 32;
    }
    result := result + [GroupChar(v, false)];
  }

  /** encodePolyline, on points in E5 units. */
  method EncodePolyline(points: seq<Point>) returns (output: string)
    requires DeltasFit(points)
    ensures output == Encoded(points)
  {
    output := "";
    var prevLat, prevLng := 0, 0;
    for i := 0 to |points|
      invariant DeltasFitFrom(points[i..], Point(prevLat, prevLng))
      invariant output + EncodeFrom(points[i..], Point(prevLat, prevLng)) == Encoded(points)
    {
      var point := points[i];
      ghost var prev := Point(prevLat, prevLng);
      ghost var tail := EncodeFrom(points[i + 1..], point);
      EncodeStep(points, i, prev);
      var latChars := EncodeValue(point.lat - prevLat);
      var lngChars := EncodeValue(point.lng - prevLng);
      assert latChars + lngChars + tail == EncodeFrom(points[i..], prev);
      assert Point(point.lat, point.lng) == point;
      Regroup(output, latChars + lngChars, tail);
      Regroup(output, latChars, lngChars);
      output := output + latChars;
      output := output + lngChars;
      prevLat, prevLng := point.lat, point.lng;
    }
  }

  /** Strings built by appending groups one at a time do not depend on the grouping. */
  lemma Regroup(a: string, b: string, c: string)
    ensures a + (b + c) == a + b + c
  {
  }

  /** The encoding from the `i`-th point on is that point's groups, then the encoding of the rest. */
  lemma EncodeStep(ps: seq<Point>, i: nat, prev: Point)
    requires i < |ps| && DeltasFitFrom(ps[i..], prev)
    ensures DeltaFits(ps[i].lat - prev.lat) && DeltaFits(ps[i].lng - prev.lng)
    ensures DeltasFitFrom(ps[i + 1..], ps[i])
    ensures EncodeFrom(ps[i..], prev)
         == ValueChars(ZigZag(ps[i].lat - prev.lat)) + ValueChars(ZigZag(ps[i].lng - prev.lng))
            + EncodeFrom(ps[i + 1..], ps[i])
  {
    assert ps[i..][0] == ps[i] && ps[i..][1..] == ps[i + 1..];
  }

  /** One do-while loop of decodePolyline: reads the group starting at `start`. */
  method ReadGroup(encoded: string, start: nat) returns (result: nat, next: nat)
    ensures result == ReadValue(Rest(encoded, start)).value
    ensures Rest(encoded, next) == ReadValue(Rest(encoded, start)).rest
    ensures start < next
  {
    ghost var target := ReadValue(Rest(encoded, start));
    var index := start;
    var shift := 0;
    result := 0;
    var more := true;
    while more
      invariant start <= index
      invariant more ==> result + ShiftLeft(ReadValue(Rest(encoded, index)).value, shift) == target.value
      invariant more ==> ReadValue(Rest(encoded, index)).rest == target.rest
      invariant !more ==> result == target.value && Rest(encoded, index) == target.rest && start < index
      decreases more, |encoded| - index
    {
      // Past the end charCodeAt is NaN: its digit is 0 and it does not continue.
      var digit, continues := 0, false;
      if index < |encoded| {
        digit, continues := Digit(encoded[index]), Continues(encoded[index]);
      }
      ReadStep(encoded, index, result, shift, target);
      // The low `shift` bits of `result` hold the digits read so far, so `|=` adds.
      result := result + ShiftLeft(digit, shift);
      shift := shift + 5;
      index := index + 1;
      more := continues;
    }
    next := index;
  }

  /** One iteration of ReadGroup keeps its invariant: the digit read lands at `shift`. */
  lemma ReadStep(encoded: string, index: nat, result: nat, shift: nat, target: Read)
    requires result + ShiftLeft(ReadValue(Rest(encoded, index)).value, shift) == target.value
    requires ReadValue(Rest(encoded, index)).rest == target.rest
    ensures var digit := if index < |encoded| then Digit(encoded[index]) else 0;
            var next := result + ShiftLeft(digit, shift);
            if index < |encoded| && Continues(encoded[index]) then
              next + ShiftLeft(ReadValue(Rest(encoded, index + 1)).value, shift + 5) == target.value &&
              ReadValue(Rest(encoded, index + 1)).rest == target.rest
            else
              next == target.value && Rest(encoded, index + 1) == target.rest
  {
    var tail := ReadValue(Rest(encoded, index + 1));
    if index < |encoded| {
      assert Rest(encoded, index)[1..] == Rest(encoded, index + 1);
      if Continues(encoded[index]) {
        var digit := Digit(encoded[index]);
        ShiftLeftAdd(digit, 32 * tail.value, shift);
        ShiftLeftGroup(tail.value, shift);
      }
    } else {
      ShiftLeftZero(shift);
    }
  }

  lemma {:induction false} ShiftLeftAdd(a: nat, b: nat, n: nat)
    ensures ShiftLeft(a + b, n) == ShiftLeft(a, n) + ShiftLeft(b, n)
  {
    if n > 0 {
      ShiftLeftAdd(a, b, n - 1);
    }
  }

  lemma {:induction false} ShiftLeftGroup(v: nat, n: nat)
    ensures ShiftLeft(32 * v, n) == ShiftLeft(v, n + 5)
  {
    if n == 0 {
      calc {
        ShiftLeft(v, 5);
        2 * ShiftLeft(v, 4);
        4 * ShiftLeft(v, 3);
        8 * ShiftLeft(v, 2);
        16 * ShiftLeft(v, 1);
      }
    } else {
      ShiftLeftGroup(v, n - 1);
    }
  }

  lemma {:induction false} ShiftLeftZero(n: nat)
    ensures ShiftLeft(0, n) == 0
  {
    if n > 0 {
      ShiftLeftZero(n - 1);
    }
  }

  /** decodePolyline, giving points in E5 units. */
  method DecodePolyline(encoded: string) returns (points: seq<Point>)
    requires GroupsFit(encoded)
    ensures points == Decoded(encoded)
  {
    points := [];
    var index := 0;
    var lat, lng := 0, 0;
    while index < |encoded|
      invariant points + DecodeFrom(Rest(encoded, index), Point(lat, lng)) == Decoded(encoded)
      decreases |encoded| - index
    {
      ghost var before, prev := Rest(encoded, index), Point(lat, lng);
      ghost var read := ReadPoint(before, prev);
      var result, next := ReadGroup(encoded, index);
      index := next;
      lat := lat + UnZigZag(result);
      result, next := ReadGroup(encoded, index);
      index := next;
      lng := lng + UnZigZag(result);
      assert Point(lat, lng) == read.point && Rest(encoded, index) == read.rest;
      assert DecodeFrom(before, prev) == [read.point] + DecodeFrom(read.rest, read.point);
      points := points + [Point(lat, lng)];
    }
  }

  // ---------------------------------------------------------------------------
  // Properties of the format
  // ---------------------------------------------------------------------------

  /** Reading a value's groups gives back the value and leaves what follows them. */
  lemma {:induction false} ReadValueChars(z: nat, t: string)
    ensures ReadValue(ValueChars(z) + t) == Read(z, t)
    decreases z
  {
    if z >= ContinuationBit {
      ReadValueChars(z / 32, t);
      assert (ValueChars(z) + t)[1..] == ValueChars(z / 32) + t;
    }
  }

  /** Reading one point's groups gives back the point and leaves what follows them. */
  lemma ReadPointChars(prev: Point, p: Point, t: string)
    ensures ReadPoint(PointChars(prev, p) + t, prev) == PointRead(p, t)
    ensures PointChars(prev, p) + t != []
  {
    var latChars := ValueChars(ZigZag(p.lat - prev.lat));
    var lngChars := ValueChars(ZigZag(p.lng - prev.lng));
    Regroup(latChars, lngChars, t);
    ReadValueChars(ZigZag(p.lat - prev.lat), lngChars + t);
    ReadValueChars(ZigZag(p.lng - prev.lng), t);
    UnZigZagZigZag(p.lat - prev.lat);
    UnZigZagZigZag(p.lng - prev.lng);
  }

  /** The last point of `ps`, or `prev` when there is none. */
  function LastOr(ps: seq<Point>, prev: Point): Point {
    if ps == [] then prev else ps[|ps| - 1]
  }

  /**
   * Decoding an encoding followed by more characters gives the points back and then
   * decodes the rest against the last of them.
   */
  lemma {:induction false} DecodeEncodeFrom(ps: seq<Point>, prev: Point, t: string)
    ensures DecodeFrom(EncodeFrom(ps, prev) + t, prev) == ps + DecodeFrom(t, LastOr(ps, prev))
    decreases |ps|
  {
    if ps != [] {
      var p := ps[0];
      var rest := EncodeFrom(ps[1..], p) + t;
      var s := EncodeFrom(ps, prev) + t;
      assert s == PointChars(prev, p) + rest;
      ReadPointChars(prev, p, rest);
      assert DecodeFrom(s, prev) == [p] + DecodeFrom(rest, p);
      DecodeEncodeFrom(ps[1..], p, t);
      assert LastOr(ps[1..], p) == LastOr(ps, prev);
      calc {
        DecodeFrom(s, prev);
        [p] + DecodeFrom(rest, p);
        [p] + (ps[1..] + DecodeFrom(t, LastOr(ps, prev)));
        ([p] + ps[1..]) + DecodeFrom(t, LastOr(ps, prev));
        { assert [p] + ps[1..] == ps; }
        ps + DecodeFrom(t, LastOr(ps, prev));
      }
    } else {
      assert EncodeFrom(ps, prev) + t == t;
    }
  }

  /** The empty path encodes to "" and "" decodes to the empty path. */
  lemma EmptyPolyline()
    ensures Encoded([]) == ""
    ensures Decoded("") == []
  {
  }

  /** A string decodes to no points exactly when it is empty; otherwise it never fails. */
  lemma DecodedEmpty(s: string)
    ensures Decoded(s) == [] <==> s == []
  {
  }

  /** The groups of a value below 2^30: at most six, all but the last continuing. */
  predicate WellFormedGroup(g: string) {
    0 < |g| <= MaxGroupChars &&
    (forall k | 0 <= k < |g| - 1 :: Continues(g[k])) &&
    !Continues(g[|g| - 1])
  }

  /** Every character of the format lies between '?' (63) and '~' (126). */
  predicate Printable(s: string) {
    forall k | 0 <= k < |s| :: '?' <= s[k] <= '~'
  }

  /** Shape of encodeValue's output: printable, continuation bit on every group but the last. */
  lemma {:induction false} ValueCharsShape(z: nat)
    ensures Printable(ValueChars(z))
    ensures 0 < |ValueChars(z)|
    ensures forall k | 0 <= k < |ValueChars(z)| - 1 :: Continues(ValueChars(z)[k])
    ensures !Continues(ValueChars(z)[|ValueChars(z)| - 1])
    decreases z
  {
    if z >= ContinuationBit {
      ValueCharsShape(z / 32);
      var g := ValueChars(z);
      assert g == [GroupChar(z % 32, true)] + ValueChars(z / 32);
      assert forall k | 1 <= k < |g| :: g[k] == ValueChars(z / 32)[k - 1];
    }
  }

  /** A zig-zag value below 2^30 takes at most six groups. */
  lemma ValueCharsShort(z: nat)
    requires z < ZigZagLimit
    ensures |ValueChars(z)| <= MaxGroupChars
  {
    var z1 := z / 32;
    var z2 := z1 / 32;
    var z3 := z2 / 32;
    var z4 := z3 / 32;
    var z5 := z4 / 32;
    assert z5 < 32;
    assert |ValueChars(z5)| == 1;
    assert |ValueChars(z4)| <= 2;
    assert |ValueChars(z3)| <= 3;
    assert |ValueChars(z2)| <= 4;
    assert |ValueChars(z1)| <= 5;
  }

  /** The group at the front of `g + t`, for a well-formed group `g`, is exactly `g`. */
  lemma {:induction false} GroupLengthOfGroup(g: string, t: string)
    requires 0 < |g|
    requires forall k | 0 <= k < |g| - 1 :: Continues(g[k])
    requires !Continues(g[|g| - 1])
    ensures GroupLength(g + t) == |g|
    decreases |g|
  {
    if |g| > 1 {
      assert (g + t)[1..] == g[1..] + t;
      GroupLengthOfGroup(g[1..], t);
    }
  }

  /** Putting a well-formed group in front of a string whose groups fit keeps them fitting. */
  lemma GroupsFitPrepend(g: string, t: string)
    requires WellFormedGroup(g)
    requires GroupsFit(t)
    ensures GroupsFit(g + t)
  {
    forall i | 0 <= i < |g + t|
      ensures GroupLength((g + t)[i..]) <= MaxGroupChars
    {
      if i < |g| {
        assert (g + t)[i..] == g[i..] + t;
        GroupLengthOfGroup(g[i..], t);
      } else {
        assert (g + t)[i..] == t[i - |g|..];
      }
    }
  }

  /** The groups of a delta that fits are well formed. */
  lemma DeltaGroup(d: int)
    requires DeltaFits(d)
    ensures WellFormedGroup(ValueChars(ZigZag(d)))
  {
    ValueCharsShape(ZigZag(d));
    ValueCharsShort(ZigZag(d));
  }

  /** Encoding deltas that fit never makes a group that the decoder's 32-bit `<<` would wrap. */
  lemma {:induction false} EncodeFromGroupsFit(ps: seq<Point>, prev: Point)
    requires DeltasFitFrom(ps, prev)
    ensures GroupsFit(EncodeFrom(ps, prev))
    decreases |ps|
  {
    if ps != [] {
      var p := ps[0];
      var latChars := ValueChars(ZigZag(p.lat - prev.lat));
      var lngChars := ValueChars(ZigZag(p.lng - prev.lng));
      var rest := EncodeFrom(ps[1..], p);
      EncodeFromGroupsFit(ps[1..], p);
      DeltaGroup(p.lat - prev.lat);
      DeltaGroup(p.lng - prev.lng);
      GroupsFitPrepend(lngChars, rest);
      GroupsFitPrepend(latChars, lngChars + rest);
      assert EncodeFrom(ps, prev) == latChars + (lngChars + rest);
    }
  }

  /**
   * The round trip: the encoding of points whose deltas fit can be decoded, and
   * decodes to exactly those points.
   */
  lemma RoundTrip(ps: seq<Point>)
    requires DeltasFit(ps)
    ensures GroupsFit(Encoded(ps))
    ensures Decoded(Encoded(ps)) == ps
  {
    EncodeFromGroupsFit(ps, Origin);
    DecodeEncodeFrom(ps, Origin, "");
    assert Encoded(ps) + "" == Encoded(ps);
  }

  /** Re-encoding a decoded encoding reproduces it character for character. */
  lemma EncodeDecodeEncode(ps: seq<Point>)
    requires DeltasFit(ps)
    ensures Encoded(Decoded(Encoded(ps))) == Encoded(ps)
  {
    RoundTrip(ps);
  }

  /** `32^k`: a group of `k` characters holds values below it. */
  function Pow32(k: nat): (r: nat)
    ensures 1 <= r
  {
    if k == 0 then 1 else 32 * Pow32(k - 1)
  }

  /** A group of at most `k` characters reads as a value below `32^k`. */
  lemma {:induction false} ReadValueBound(s: string, k: nat)
    requires GroupLength(s) <= k
    ensures ReadValue(s).value < Pow32(k)
    decreases |s|
  {
    if s != [] {
      if Continues(s[0]) {
        ReadValueBound(s[1..], k - 1);
      }
    }
  }

  /** What is left after reading a group is a suffix of the string. */
  lemma {:induction false} ReadRestSuffix(s: string)
    ensures ReadValue(s).rest == s[|s| - |ReadValue(s).rest|..]
    decreases |s|
  {
    if s != [] && Continues(s[0]) {
      ReadRestSuffix(s[1..]);
    }
  }

  /** Every suffix of a string whose groups fit has groups that fit. */
  lemma GroupsFitSuffix(s: string, j: nat)
    requires GroupsFit(s) && j <= |s|
    ensures GroupsFit(s[j..])
  {
    forall i | 0 <= i < |s[j..]|
      ensures GroupLength(s[j..][i..]) <= MaxGroupChars
    {
      assert s[j..][i..] == s[j + i..];
    }
  }

  /** Reading a value from a string whose groups fit gives a value below 2^30, and leaves groups that fit. */
  lemma ReadFits(s: string)
    requires GroupsFit(s)
    ensures ReadValue(s).value < ZigZagLimit
    ensures GroupsFit(ReadValue(s).rest)
  {
    if s != [] {
      assert s[0..] == s;
    }
    ReadValueBound(s, MaxGroupChars);
    assert Pow32(MaxGroupChars) == ZigZagLimit;
    ReadRestSuffix(s);
    GroupsFitSuffix(s, |s| - |ReadValue(s).rest|);
  }

  /** Every delta between the decoded points of a string whose groups fit fits the encoder. */
  lemma {:induction false} DecodedDeltasFit(s: string, prev: Point)
    requires GroupsFit(s)
    ensures DeltasFitFrom(DecodeFrom(s, prev), prev)
    decreases |s|
  {
    if s != [] {
      var dLat := ReadValue(s);
      ReadFits(s);
      var dLng := ReadValue(dLat.rest);
      ReadFits(dLat.rest);
      var r := ReadPoint(s, prev);
      assert r.point.lat - prev.lat == UnZigZag(dLat.value);
      assert r.point.lng - prev.lng == UnZigZag(dLng.value);
      assert r.rest == dLng.rest;
      DecodedDeltaFits(dLat.value);
      DecodedDeltaFits(dLng.value);
      DecodedDeltasFit(r.rest, r.point);
      var ps := DecodeFrom(s, prev);
      assert ps == [r.point] + DecodeFrom(r.rest, r.point);
      assert ps[0] == r.point && ps[1..] == DecodeFrom(r.rest, r.point);
    }
  }

  /** The delta of a value below 2^30 fits the encoder. */
  lemma DecodedDeltaFits(z: nat)
    requires z < ZigZagLimit
    ensures DeltaFits(UnZigZag(z))
  {
    ZigZagUnZigZag(z);
  }

  /**
   * Decoding, re-encoding and decoding again gives the points of the first decoding:
   * the decoder's points are exactly what the canonical encoding of them decodes to.
   */
  lemma DecodeEncodeDecode(s: string)
    requires GroupsFit(s)
    ensures GroupsFit(Encoded(Decoded(s)))
    ensures Decoded(Encoded(Decoded(s))) == Decoded(s)
  {
    DecodedDeltasFit(s, Origin);
    RoundTrip(Decoded(s));
  }

  /**
   * Decoding then encoding is not the identity on strings: a group padded with a
   * zero digit, and a missing longitude, both come back in canonical form.
   */
  lemma NonCanonicalInput()
    ensures Decoded("_?") == [Origin]
    ensures Encoded(Decoded("_?")) == "??"
  {
    PaddedDecode();
    OriginEncoding();
  }

  /** `_?` decodes to the origin alone. */
  lemma PaddedDecode()
    ensures Decoded("_?") == [Origin]
  {
    PaddedGroup();
    ZeroLatitudeOnly("_?", Origin);
  }

  /**
   * A string holding one zero latitude delta and nothing more reads as a point that does
   * not move: the missing longitude group reads past the end as 0.
   */
  lemma ZeroLatitudeOnly(s: string, prev: Point)
    requires s != [] && ReadValue(s) == Read(0, [])
    ensures ReadPoint(s, prev) == PointRead(prev, [])
    ensures DecodeFrom(s, prev) == [prev]
  {
    assert ReadValue([]) == Read(0, []);
    assert UnZigZag(0) == 0;
    assert DecodeFrom(s, prev) == [prev] + DecodeFrom([], prev);
  }

  /** `_?` is the digit 0 with the continuation bit, then the digit 0: the value 0. */
  lemma PaddedGroup()
    ensures ReadValue("_?") == Read(0, [])
  {
    assert Continues('_') && Digit('_') == 0;
    assert !Continues('?') && Digit('?') == 0;
    assert "_?"[1..] == "?";
    assert ReadValue("?") == Read(0, "?"[1..]);
    assert "?"[1..] == [];
  }

  /** The origin, encoded from the origin, is the two zero groups `??`. */
  lemma OriginEncoding()
    ensures Encoded([Origin]) == "??"
  {
    assert ZigZag(0) == 0;
    assert ValueChars(0) == [GroupChar(0, false)];
    assert GroupChar(0, false) == '?';
    assert [Origin][1..] == [];
    assert Encoded([Origin]) == ValueChars(0) + ValueChars(0) + EncodeFrom([], Origin);
  }

  /** Every character an encoding emits is printable, between '?' and '~'. */
  lemma {:induction false} EncodeFromPrintable(ps: seq<Point>, prev: Point)
    ensures Printable(EncodeFrom(ps, prev))
    decreases |ps|
  {
    if ps != [] {
      var p := ps[0];
      ValueCharsShape(ZigZag(p.lat - prev.lat));
      ValueCharsShape(ZigZag(p.lng - prev.lng));
      EncodeFromPrintable(ps[1..], p);
    }
  }

  /**
   * Appending a point to a path appends its latitude delta's groups and then its
   * longitude delta's groups, both taken against the path's last point ((0, 0) for
   * the first point).
   */
  lemma {:induction false} EncodeFromAppend(ps: seq<Point>, prev: Point, p: Point)
    ensures EncodeFrom(ps + [p], prev) == EncodeFrom(ps, prev) + PointChars(LastOr(ps, prev), p)
    decreases |ps|
  {
    if ps == [] {
      assert [] + [p] == [p];
    } else {
      assert (ps + [p])[1..] == ps[1..] + [p];
      EncodeFromAppend(ps[1..], ps[0], p);
      assert LastOr(ps[1..], ps[0]) == LastOr(ps, prev);
    }
  }

  lemma EncodedAppend(ps: seq<Point>, p: Point)
    ensures Encoded(ps + [p])
         == Encoded(ps) + ValueChars(ZigZag(p.lat - LastOr(ps, Origin).lat))
                        + ValueChars(ZigZag(p.lng - LastOr(ps, Origin).lng))
  {
    EncodeFromAppend(ps, Origin, p);
  }

  /**
   * A string cut after a point's latitude groups still decodes: the missing longitude
   * delta reads as 0, so the last point keeps the previous longitude.
   */
  lemma TruncatedAfterLatitude(ps: seq<Point>, dLat: int)
    ensures Decoded(Encoded(ps) + ValueChars(ZigZag(dLat)))
         == ps + [Point(LastOr(ps, Origin).lat + dLat, LastOr(ps, Origin).lng)]
  {
    DecodeEncodeFrom(ps, Origin, ValueChars(ZigZag(dLat)));
    ReadValueChars(ZigZag(dLat), "");
    assert ValueChars(ZigZag(dLat)) + "" == ValueChars(ZigZag(dLat));
    UnZigZagZigZag(dLat);
  }

  /** The reference example of the format: (38.5, -120.2), (40.7, -120.95). */
  lemma ReferenceExample()
    ensures Encoded([Point(3850000, -12020000), Point(4070000, -12095000)])
         == "_p~iF~ps|U_ulLnnqC"
  {
    var ps := [Point(3850000, -12020000), Point(4070000, -12095000)];
    FirstLatitudeGroups();
    FirstLongitudeGroups();
    SecondLatitudeGroups();
    SecondLongitudeGroups();
    assert ps[1..] == [Point(4070000, -12095000)];
    assert ps[1..][1..] == [];
    assert EncodeFrom(ps[1..], ps[0]) == "_ulL" + "nnqC" + "";
    assert Encoded(ps) == "_p~iF" + "~ps|U" + ("_ulL" + "nnqC" + "");
  }

  /** The groups of the first latitude, 38.5, digit by digit. */
  lemma FirstLatitudeGroups()
    ensures ValueChars(ZigZag(3850000)) == "_p~iF"
  {
    assert ValueChars(7) == "F";
    assert ValueChars(234) == "iF";
    assert ValueChars(7519) == "~iF";
    assert ValueChars(240625) == "p~iF";
  }

  /** The groups of the first longitude, -120.2, digit by digit. */
  lemma FirstLongitudeGroups()
    ensures ValueChars(ZigZag(-12020000)) == "~ps|U"
  {
    assert ValueChars(22) == "U";
    assert ValueChars(733) == "|U";
    assert ValueChars(23476) == "s|U";
    assert ValueChars(751249) == "ps|U";
  }

  /** The groups of the second latitude delta, 2.2, digit by digit. */
  lemma SecondLatitudeGroups()
    ensures ValueChars(ZigZag(220000)) == "_ulL"
  {
    assert ValueChars(13) == "L";
    assert ValueChars(429) == "lL";
    assert ValueChars(13750) == "ulL";
  }

  /** The groups of the second longitude delta, -0.75, digit by digit. */
  lemma SecondLongitudeGroups()
    ensures ValueChars(ZigZag(-75000)) == "nnqC"
  {
    assert ValueChars(4) == "C";
    assert ValueChars(146) == "qC";
    assert ValueChars(4687) == "nqC";
  }
}

/**
 Pedersen commitments and the text form of curve points (storage/shared/ecc.py).
 The curve is a parameter: points with coordinates, an addition and a scalar
 multiplication, of which only the group laws are used.
 */
module Ecc {
  import opened Wrappers
  import opened Text
  import opened Hashing

  datatype Point = Point(x: nat, y: nat)

  datatype Curve = Curve(
    contains: Point -> bool,
    zero: Point,
    neg: Point -> Point,
    add: (Point, Point) -> Point,
    mul: (Point, int) -> Point)
  {
    ghost predicate IsClosed() {
      && contains(zero)
      && (forall p {:trigger neg(p)} :: contains(p) ==> contains(neg(p)))
      && (forall p, q {:trigger add(p, q)} :: contains(p) && contains(q) ==> contains(add(p, q)))
      && (forall p, n {:trigger mul(p, n)} :: contains(p) ==> contains(mul(p, n)))
    }

    ghost predicate IsAbelianGroup() {
      && IsClosed()
      && (forall p, q {:trigger add(p, q)} :: contains(p) && contains(q) ==> add(p, q) == add(q, p))
      && (forall p, q, r {:trigger add(add(p, q), r)} ::
            contains(p) && contains(q) && contains(r) ==> add(add(p, q), r) == add(p, add(q, r)))
      && (forall p {:trigger add(p, zero)} :: contains(p) ==> add(p, zero) == p)
      && (forall p {:trigger neg(p)} :: contains(p) ==> add(p, neg(p)) == zero)
    }

    ghost predicate ScalarsAct() {
      forall p, m, n {:trigger add(mul(p, m), mul(p, n))} ::
        contains(p) ==> mul(p, m + n) == add(mul(p, m), mul(p, n))
    }

    ghost predicate Valid() {
      IsAbelianGroup() && ScalarsAct()
    }
  }

  // ---------- Text form ----------

  /** The decimal coordinates with a comma between them. */
  function PointText(p: Point): string {
    Decimal(p.x) + [','] + Decimal(p.y)
  }

  function PointBytes(p: Point): Bytes {
    Utf8(PointText(p))
  }

  /** `ecc_point_to_hex` */
  function PointToHex(p: Point): string {
    ToHex(PointBytes(p))
  }

  /** `hex_to_ecc_point`: bad hex, bad numbers, not two of them, or no point of the curve are refused. */
  function HexToPoint(curve: Curve, s: string): Result<Point> {
    var bytes :- Unhexlify(s);
    var text :- DecodeAscii(bytes);
    var parts := Split(text, ',');
    if |parts| != 2 then Err(ValueError)
    else
      var x :- ParseDecimal(parts[0]);
      var y :- ParseDecimal(parts[1]);
      if curve.contains(Point(x, y)) then Ok(Point(x, y)) else Err(ValueError)
  }

  /** Parsing the hex of a printed point gives that point back, for all coordinates on the curve, and nothing else. */
  lemma PointRoundTrip(curve: Curve, p: Point)
    ensures HexToPoint(curve, PointToHex(p)) == if curve.contains(p) then Ok(p) else Err(ValueError)
  {
    var dx, dy := Decimal(p.x), Decimal(p.y);
    HexRoundTrip(PointBytes(p));
    assert IsAscii(PointText(p));
    AsciiRoundTrip(PointText(p));
    assert ',' !in dx && ',' !in dy;
    SplitPair(dx, dy, ',');
    DecimalRoundTrip(p.x);
    DecimalRoundTrip(p.y);
  }

  /** The bytes of a printed point are its coordinates in decimal, x first, with one comma. */
  lemma PrintedPointReads(p: Point)
    ensures var bytes := Unhexlify(PointToHex(p));
            bytes.Ok? && DecodeAscii(bytes.value) == Ok(Decimal(p.x) + "," + Decimal(p.y))
  {
    HexRoundTrip(PointBytes(p));
    AsciiRoundTrip(PointText(p));
  }

  lemma ParsedPointIsOnCurve(curve: Curve, s: string, p: Point)
    requires HexToPoint(curve, s) == Ok(p)
    ensures curve.contains(p)
  {
  }

  // ---------- Commitments ----------

  /** g*m + h*r */
  function Pedersen(curve: Curve, g: Point, h: Point, m: nat, r: nat): Point {
    curve.add(curve.mul(g, m), curve.mul(h, r))
  }

  /** `ECCommitment.commit`, with the randomness it draws as a parameter. */
  function Commit(hash: HashFn, curve: Curve, g: Point, h: Point, data: Bytes, r: nat): (Point, nat, nat) {
    var m := HashData(hash, data);
    (Pedersen(curve, g, h, m, r), m, r)
  }

  /** `ECCommitment.open` */
  predicate Open(curve: Curve, g: Point, h: Point, c: Point, m: nat, r: nat) {
    Pedersen(curve, g, h, m, r) == c
  }

  lemma CommitmentIsOnCurve(curve: Curve, g: Point, h: Point, m: nat, r: nat)
    requires curve.IsClosed() && curve.contains(g) && curve.contains(h)
    ensures curve.contains(Pedersen(curve, g, h, m, r))
  {
  }

  lemma CancelRight(curve: Curve, a: Point, b: Point, c: Point)
    requires curve.IsAbelianGroup() && curve.contains(a) && curve.contains(b) && curve.contains(c)
    requires curve.add(a, b) == curve.add(c, b)
    ensures a == c
  {
    calc {
      a;
      curve.add(a, curve.add(b, curve.neg(b)));
      curve.add(curve.add(a, b), curve.neg(b));
      curve.add(curve.add(c, b), curve.neg(b));
      curve.add(c, curve.add(b, curve.neg(b)));
      c;
    }
  }

  /** (a + p) + q == p + (b + q) leaves a == b. */
  lemma CancelPair(curve: Curve, a: Point, b: Point, p: Point, q: Point)
    requires curve.IsAbelianGroup()
    requires curve.contains(a) && curve.contains(b) && curve.contains(p) && curve.contains(q)
    requires curve.add(curve.add(a, p), q) == curve.add(p, curve.add(b, q))
    ensures a == b
  {
    calc {
      curve.add(a, curve.add(p, q));
      curve.add(curve.add(a, p), q);
      curve.add(p, curve.add(b, q));
      curve.add(curve.add(b, q), p);
      curve.add(b, curve.add(q, p));
      curve.add(b, curve.add(p, q));
    }
    CancelRight(curve, a, curve.add(p, q), b);
  }

  lemma ScalarSum(curve: Curve, p: Point, m: int, n: int)
    requires curve.ScalarsAct() && curve.contains(p)
    ensures curve.mul(p, m) == curve.add(curve.mul(p, m - n), curve.mul(p, n))
  {
    assert curve.mul(p, (m - n) + n) == curve.add(curve.mul(p, m - n), curve.mul(p, n));
  }

  lemma ScalarMultiplesAreOnCurve(curve: Curve, g: Point, m: int)
    requires curve.IsClosed() && curve.contains(g)
    ensures curve.contains(curve.mul(g, m))
  {
  }

  /**
   Binding: opening one commitment in two ways gives a relation between g and h,
   g*(m - m') == h*(r' - r), that is, a discrete logarithm unless the scalars vanish.
   */
  lemma TwoOpeningsRelateGenerators(
    curve: Curve, g: Point, h: Point, c: Point, m: nat, r: nat, m': nat, r': nat)
    requires curve.Valid() && curve.contains(g) && curve.contains(h)
    requires Open(curve, g, h, c, m, r) && Open(curve, g, h, c, m', r')
    ensures curve.mul(g, m - m') == curve.mul(h, r' - r)
  {
    ScalarSum(curve, g, m, m');
    ScalarSum(curve, h, r', r);
    ScalarMultiplesAreOnCurve(curve, g, m - m');
    ScalarMultiplesAreOnCurve(curve, g, m');
    ScalarMultiplesAreOnCurve(curve, h, r' - r);
    ScalarMultiplesAreOnCurve(curve, h, r);
    CancelPair(curve, curve.mul(g, m - m'), curve.mul(h, r' - r), curve.mul(g, m'), curve.mul(h, r));
  }
}

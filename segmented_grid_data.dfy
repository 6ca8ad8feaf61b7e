/**
 The sparse, unbounded two-dimensional store: a dictionary from a segment key
 to an N-by-N block of optional slots, allocated the first time a slot in it
 is written.
 */
module SegmentedGrid {
  import opened Wrappers
  import opened Positions

  // ---------------------------------------------------------------------------
  // Integer arithmetic of the store
  // ---------------------------------------------------------------------------

  /** Euclidean division is determined by its equation: a quotient and a
      remainder in `[0, n)` that rebuild `a` are `a / n` and `a % n`. */
  lemma DivModUnique(a: int, n: int, q: int, m: int)
    requires n > 0 && a == q * n + m && 0 <= m < n
    ensures a / n == q && a % n == m
  {
    var q', m' := a / n, a % n;
    assert a == q' * n + m';
    assert (q - q') * n == m' - m;
    if q > q' {
      MulAtLeast(q - q', n);
    } else if q < q' {
      MulAtLeast(q' - q, n);
    }
  }

  lemma MulAtLeast(k: int, n: int)
    requires n > 0 && k >= 1
    ensures k * n >= n
  {
  }

  /** Swift's `%` on `Int`: the remainder of a division truncated toward zero,
      so it takes the sign of the dividend. */
  function TruncatingRemainder(a: int, n: int): (r: int)
    requires n > 0
    ensures -n < r < n && (a - r) % n == 0
    ensures a >= 0 ==> r >= 0
    ensures a <= 0 ==> r <= 0
  {
    if a >= 0 then
      DivModUnique(a - a % n, n, a / n, 0);
      a % n
    else
      DivModUnique(a + (-a) % n, n, -((-a) / n), 0);
      -((-a) % n)
  }

  /** `Int(ceil(Double(a) / Double(n)))` computed exactly: the least integer
      whose multiple of `n` is at least `a`. */
  function CeilDiv(a: int, n: int): (q: int)
    requires n > 0
    ensures q * n >= a && (q - 1) * n < a
  {
    var f := (-a) / n;
    assert f * n <= -a < f * n + n;
    -f
  }

  /** `Int(floor(Double(a) / Double(n)))` computed exactly: the greatest integer
      whose multiple of `n` is at most `a`. */
  function FloorDiv(a: int, n: int): (q: int)
    requires n > 0
    ensures q * n <= a < q * n + n
  {
    a / n
  }

  /** One component of `normalizedSegmentIndexPosition`: a negative coordinate is
      first shifted up by `n * ceil(-c / n)`, then Swift's `%` is applied. The
      result is the true (Euclidean) modulo, whatever the sign of `c`. */
  function NormalizedIndex(c: int, n: int): (r: int)
    requires n > 0
    ensures 0 <= r < n
    ensures r == c % n
  {
    var shifted := if c < 0 then c + n * CeilDiv(-c, n) else c;
    var r := TruncatingRemainder(shifted, n);
    // The shift makes the dividend non-negative, where truncation and
    // Euclidean remainder agree; it adds a multiple of `n`, which `%` ignores.
    assert 0 <= shifted;
    var k := if c < 0 then CeilDiv(-c, n) else 0;
    assert shifted == c + k * n;
    var j := (shifted - r) / n;
    DivModUnique(shifted - r, n, j, 0);
    DivModUnique(c, n, j - k, r);
    r
  }

  /** `normalizedSegmentPosition`: the key of the segment holding `position`,
      floor division of each component by the segment size. */
  function SegmentKey(position: TilePosition, n: int): (key: TilePosition)
    requires n > 0
    ensures key.column * n <= position.column < key.column * n + n
    ensures key.row * n <= position.row < key.row * n + n
  {
    TilePosition(FloorDiv(position.column, n), FloorDiv(position.row, n))
  }

  /** `normalizedSegmentIndexPosition`: the slot of `position` inside its segment. */
  function LocalIndex(position: TilePosition, n: int): (local: TilePosition)
    requires n > 0
    ensures 0 <= local.column < n && 0 <= local.row < n
    ensures local == TilePosition(position.column % n, position.row % n)
  {
    TilePosition(NormalizedIndex(position.column, n), NormalizedIndex(position.row, n))
  }

  /** Segment key and slot together give the position back exactly. */
  lemma DecompositionExact(position: TilePosition, n: int)
    requires n > 0
    ensures SegmentKey(position, n).column * n + LocalIndex(position, n).column == position.column
    ensures SegmentKey(position, n).row * n + LocalIndex(position, n).row == position.row
  {
    var key := SegmentKey(position, n);
    DivModUnique(position.column, n, key.column, position.column - key.column * n);
    DivModUnique(position.row, n, key.row, position.row - key.row * n);
  }

  /** Distinct positions never share a slot of a segment. */
  lemma DecompositionInjective(p: TilePosition, q: TilePosition, n: int)
    requires n > 0
    ensures SegmentKey(p, n) == SegmentKey(q, n) && LocalIndex(p, n) == LocalIndex(q, n) <==> p == q
  {
    DecompositionExact(p, n);
    DecompositionExact(q, n);
  }

  /** With segments of 20, the position (-25, -3) lies in segment (-2, -1) at
      slot (15, 17): a negative coordinate lands in the segment below it. */
  lemma NegativePositionExample()
    ensures SegmentKey(TilePosition(-25, -3), 20) == TilePosition(-2, -1)
    ensures LocalIndex(TilePosition(-25, -3), 20) == TilePosition(15, 17)
  {
  }

  // ---------------------------------------------------------------------------
  // Segments
  // ---------------------------------------------------------------------------

  /** `[[T?]]`, indexed by column and then by row. */
  type Segment<T> = seq<seq<Option<T>>>

  ghost predicate IsSegment<T>(segment: Segment<T>, n: int) {
    |segment| == n && forall i :: 0 <= i < |segment| ==> |segment[i]| == n
  }

  /** A freshly allocated segment: `n` columns of `n` empty slots. */
  function EmptySegment<T>(n: nat): (segment: Segment<T>)
    ensures IsSegment(segment, n)
    ensures forall i, j :: 0 <= i < n && 0 <= j < n ==> segment[i][j] == None
  {
    seq(n, _ => seq(n, _ => None))
  }

  // ---------------------------------------------------------------------------
  // The store
  // ---------------------------------------------------------------------------

  class SegmentedGridData<T> {
    var segments: map<TilePosition, Segment<T>>
    const segmentSize: int

    ghost predicate Valid()
      reads this
    {
      && segmentSize > 0
      && forall key :: key in segments ==> IsSegment(segments[key], segmentSize)
    }

    constructor (segmentSize: int)
      requires segmentSize > 0
      ensures Valid()
      ensures this.segmentSize == segmentSize && segments == map[]
      ensures forall position :: Get(position) == None
    {
      this.segmentSize := segmentSize;
      segments := map[];
    }

    /** The subscript getter: a read of an absent segment is `nil`. */
    function Get(index: TilePosition): (value: Option<T>)
      reads this
      requires Valid()
      ensures SegmentKey(index, segmentSize) !in segments ==> value == None
      ensures value.Some? ==> SegmentKey(index, segmentSize) in segments
    {
      var key := SegmentKey(index, segmentSize);
      if key in segments then
        var local := LocalIndex(index, segmentSize);
        segments[key][local.column][local.row]
      else
        None
    }

    /** The subscript setter: allocates the segment of `index` if it is absent
        (all slots empty), writes the one slot, and stores the segment back.
        Segments are never removed, even when `nil` is written. */
    method Set(index: TilePosition, newValue: Option<T>)
      requires Valid()
      modifies this
      ensures Valid()
      ensures segments.Keys == old(segments.Keys) + {SegmentKey(index, segmentSize)}
      ensures forall key :: key in old(segments) && key != SegmentKey(index, segmentSize) ==>
        segments[key] == old(segments[key])
      ensures Get(index) == newValue
      ensures forall q :: q != index ==> Get(q) == old(Get(q))
      ensures SegmentKey(index, segmentSize) !in old(segments) ==>
        forall q :: q != index && SegmentKey(q, segmentSize) == SegmentKey(index, segmentSize) ==> Get(q) == None
    {
      var segmentPosition := SegmentKey(index, segmentSize);
      var segment := if segmentPosition in segments then segments[segmentPosition] else EmptySegment(segmentSize);
      var position := LocalIndex(index, segmentSize);
      segment := segment[position.column := segment[position.column][position.row := newValue]];
      segments := segments[segmentPosition := segment];
      forall q | q != index
        ensures Get(q) == old(Get(q))
      {
        DecompositionInjective(q, index, segmentSize);
      }
    }
  }
}

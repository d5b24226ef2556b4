/**
 * A termination measure for the backtracking matcher. The matcher's top frame is read
 * as a number in base (|target| + 2): every step of the search (moving a cursor on,
 * pushing a frame, popping one) makes that number smaller, and it never goes below 0.
 */
module SearchMeasure {

  /** The cursor of the last entry moves on to the next candidate target node. */
  function Advance(top: seq<int>): (r: seq<int>)
    requires top != []
    ensures |r| == |top| && r[..|top| - 1] == top[..|top| - 1] && r[|top| - 1] == top[|top| - 1] + 1
  {
    top[|top| - 1 := top[|top| - 1] + 1]
  }

  function Pow(b: nat, e: nat): (r: nat)
    ensures b > 0 ==> r > 0
  {
    if e == 0 then 1 else b * Pow(b, e - 1)
  }

  /** The number whose base-b digits, most significant first, are ds. */
  function Value(ds: seq<int>, b: nat): int
  {
    if ds == [] then 0 else Value(ds[..|ds| - 1], b) * b + ds[|ds| - 1]
  }

  lemma {:induction false} ValueNonnegative(ds: seq<int>, b: nat)
    requires forall k :: 0 <= k < |ds| ==> ds[k] >= 0
    ensures Value(ds, b) >= 0
  {
    if ds != [] {
      ValueNonnegative(ds[..|ds| - 1], b);
      var v := Value(ds[..|ds| - 1], b);
      assert v * b >= 0;
    }
  }

  /** Changing digit k by d changes the value by d times the weight of position k. */
  lemma {:induction false} ValueUpdate(ds: seq<int>, b: nat, k: nat, v: int)
    requires k < |ds|
    ensures Value(ds[k := v], b) == Value(ds, b) + (v - ds[k]) * Pow(b, |ds| - 1 - k)
  {
    var last := |ds| - 1;
    if k == last {
      assert ds[k := v][..last] == ds[..last];
    } else {
      assert ds[k := v][..last] == ds[..last][k := v];
      ValueUpdate(ds[..last], b, k, v);
      var x, d, w := Value(ds[..last], b), v - ds[k], Pow(b, last - 1 - k);
      assert Pow(b, last - k) == b * w;
      assert Value(ds[k := v], b) == (x + d * w) * b + ds[last];
      Distribute(x, d, w, b);
    }
  }

  lemma Distribute(x: int, d: int, w: int, b: int)
    ensures (x + d * w) * b == x * b + d * (b * w)
  {
  }

  /** Digit k: |target| minus the cursor for assigned positions, |target| + 1 beyond them. */
  function Digits(top: seq<int>, width: nat, limit: nat): (ds: seq<int>)
    ensures |ds| == width
  {
    seq(width, k requires 0 <= k < width => if k < |top| then limit - top[k] else limit + 1)
  }

  function Potential(top: seq<int>, width: nat, limit: nat): int
  {
    Value(Digits(top, width, limit), limit + 2)
  }

  lemma PotentialNonnegative(top: seq<int>, width: nat, limit: nat)
    requires forall k :: 0 <= k < |top| ==> top[k] <= limit
    ensures Potential(top, width, limit) >= 0
  {
    ValueNonnegative(Digits(top, width, limit), limit + 2);
  }

  /** Moving the cursor of the last entry on lowers the potential. */
  lemma PotentialAdvance(top: seq<int>, width: nat, limit: nat)
    requires 1 <= |top| <= width
    ensures Potential(Advance(top), width, limit) < Potential(top, width, limit)
  {
    var d := |top| - 1;
    var ds := Digits(top, width, limit);
    assert Digits(Advance(top), width, limit) == ds[d := limit - top[d] - 1];
    ValueUpdate(ds, limit + 2, d, limit - top[d] - 1);
  }

  /** Pushing a frame whose cursor starts at 0 lowers the potential. */
  lemma PotentialDescend(top: seq<int>, width: nat, limit: nat)
    requires |top| < width
    ensures Potential(top + [0], width, limit) < Potential(top, width, limit)
  {
    var ds := Digits(top, width, limit);
    assert Digits(top + [0], width, limit) == ds[|top| := limit];
    ValueUpdate(ds, limit + 2, |top|, limit);
  }

  /**
   * Popping an exhausted frame (cursor at limit) and moving the parent's cursor on
   * lowers the potential: the popped digit rises from 0 to limit + 1, but the
   * parent's digit, worth limit + 2 times as much, drops by one.
   */
  lemma PotentialBacktrack(top: seq<int>, width: nat, limit: nat)
    requires 2 <= |top| <= width && top[|top| - 1] == limit
    ensures Potential(Advance(top[..|top| - 1]), width, limit) < Potential(top, width, limit)
  {
    var d := |top| - 1;
    var b := limit + 2;
    var ds := Digits(top, width, limit);
    var ds1 := ds[d := limit + 1];
    var ds2 := ds1[d - 1 := limit - top[d - 1] - 1];
    assert Digits(Advance(top[..d]), width, limit) == ds2;
    ValueUpdate(ds, b, d, limit + 1);
    ValueUpdate(ds1, b, d - 1, limit - top[d - 1] - 1);
    var w := Pow(b, width - 1 - d);
    assert Pow(b, width - 1 - (d - 1)) == b * w;
    OneWeightLess(Value(ds, b), Value(ds1, b), Value(ds2, b), limit, w, limit + 1 - ds[d], (limit - top[d - 1] - 1) - ds1[d - 1]);
  }

  /** Adding limit + 1 weights and taking away limit + 2 of them leaves one weight less. */
  lemma OneWeightLess(v: int, v1: int, v2: int, limit: nat, w: nat, x: int, y: int)
    requires w > 0 && x == limit + 1 && y == -1
    requires v1 == v + x * w && v2 == v1 + y * ((limit + 2) * w)
    ensures v2 < v
  {
    assert (limit + 2) * w == x * w + w;
  }
}

/** The Morton code intervals of a box of chunks. */
module MortonIntervals {
  import opened Morton

  // ----- Sorted sequences without duplicates

  ghost predicate Increasing(s: seq<int>) {
    forall i, j :: 0 <= i < j < |s| ==> s[i] < s[j]
  }

  function Insert(s: seq<int>, c: int): (r: seq<int>)
    requires Increasing(s)
    ensures Increasing(r)
    ensures forall d :: d in r <==> d in s || d == c
  {
    if s == [] then [c]
    else if c < s[0] then [c] + s
    else if c == s[0] then s
    else
      var rest := Insert(s[1..], c);
      assert forall d :: d in s <==> d == s[0] || d in s[1..];
      HeadStays(s, rest, c);
      [s[0]] + rest
  }

  /** The head stays in front when something above it joins the tail. */
  lemma HeadStays(s: seq<int>, rest: seq<int>, c: int)
    requires s != [] && Increasing(s) && s[0] < c && Increasing(rest)
    requires forall d :: d in rest <==> d in s[1..] || d == c
    ensures Increasing([s[0]] + rest)
  {
    forall i | 0 <= i < |rest|
      ensures s[0] < rest[i]
    {
      assert rest[i] in rest;
      if rest[i] != c {
        var j :| 0 <= j < |s[1..]| && s[1..][j] == rest[i];
        assert s[j + 1] == rest[i];
      }
    }
  }

  method SortDedup(s: seq<int>) returns (r: seq<int>)
    ensures Increasing(r)
    ensures forall d :: d in r <==> d in s
  {
    r := [];
    for i := 0 to |s|
      invariant Increasing(r)
      invariant forall d :: d in r <==> d in s[..i]
    {
      assert s[..i + 1] == s[..i] + [s[i]];
      r := Insert(r, s[i]);
    }
    assert s[..|s|] == s;
  }

  // ----- Merging codes into inclusive intervals

  datatype Interval = Interval(start: int, end: int) {
    predicate Contains(c: int) {
      start <= c <= end
    }
  }

  predicate Covered(intervals: seq<Interval>, c: int) {
    exists i :: 0 <= i < |intervals| && intervals[i].Contains(c)
  }

  ghost predicate Ordered(intervals: seq<Interval>) {
    forall i :: 0 <= i < |intervals| ==> intervals[i].start <= intervals[i].end
  }

  /** Each interval ends at least two codes before the next one starts, so the list is the shortest one. */
  ghost predicate Gapped(intervals: seq<Interval>) {
    forall i, j :: 0 <= i < j < |intervals| ==> intervals[i].end + 1 < intervals[j].start
  }

  ghost predicate EndsBefore(intervals: seq<Interval>, start: int) {
    forall i :: 0 <= i < |intervals| ==> intervals[i].end + 1 < start
  }

  method MergeConsecutive(codes: seq<int>) returns (intervals: seq<Interval>)
    requires Increasing(codes)
    ensures Ordered(intervals)
    ensures forall c :: Covered(intervals, c) <==> c in codes
    ensures Gapped(intervals)
  {
    intervals := [];
    if codes == [] {
      return;
    }
    var start, end := codes[0], codes[0];
    for i := 1 to |codes|
      invariant Ordered(intervals) && Gapped(intervals) && EndsBefore(intervals, start) && start <= end == codes[i - 1]
      invariant forall c :: Covered(intervals, c) || start <= c <= end <==> c in codes[..i]
    {
      var code := codes[i];
      assert codes[..i + 1] == codes[..i] + [code];
      assert codes[i - 1] < codes[i];
      if code == end + 1 {
        end := code;
      } else {
        CoveredSnoc(intervals, Interval(start, end));
        intervals := intervals + [Interval(start, end)];
        start, end := code, code;
      }
    }
    CoveredSnoc(intervals, Interval(start, end));
    intervals := intervals + [Interval(start, end)];
    assert codes[..|codes|] == codes;
  }

  lemma CoveredSnoc(intervals: seq<Interval>, last: Interval)
    ensures forall c :: Covered(intervals + [last], c) <==> Covered(intervals, c) || last.Contains(c)
  {
    var all := intervals + [last];
    forall c
      ensures Covered(all, c) <==> Covered(intervals, c) || last.Contains(c)
    {
      if Covered(intervals, c) {
        var i :| 0 <= i < |intervals| && intervals[i].Contains(c);
        assert all[i].Contains(c);
      }
      if last.Contains(c) {
        assert all[|intervals|].Contains(c);
      }
    }
  }

  // ----- Boxes of points and their chunks

  datatype Box = Box(minX: nat, minY: nat, maxX: nat, maxY: nat) {
    predicate InRange() {
      minX < SIDE && minY < SIDE && maxX < SIDE && maxY < SIDE
    }

    predicate Contains(x: nat, y: nat) {
      minX <= x <= maxX && minY <= y <= maxY
    }
  }

  /** Square chunks of a positive size. */
  datatype Chunker = Chunker(size: nat) {
    predicate Valid() {
      size > 0
    }

    function ChunkMorton(x: nat, y: nat): int
      requires Valid()
    {
      Code(x / size, y / size)
    }
  }

  /** The point's chunk lies in the rectangle of chunks spanned by the box. */
  predicate InRectangle(box: Box, chunker: Chunker, x: nat, y: nat)
    requires chunker.Valid()
  {
    && box.minX / chunker.size <= x / chunker.size <= box.maxX / chunker.size
    && box.minY / chunker.size <= y / chunker.size <= box.maxY / chunker.size
  }

  /** A code of some chunk in the given rectangle of chunks. */
  ghost predicate CodeIn(c: int, minX: nat, maxX: int, minY: nat, maxY: int) {
    exists x: nat, y: nat :: minX <= x <= maxX && minY <= y <= maxY && c == Code(x, y)
  }

  lemma CodeInExact(x: nat, y: nat, minX: nat, maxX: int, minY: nat, maxY: int)
    requires x < SIDE && y < SIDE && maxX < SIDE && maxY < SIDE
    ensures CodeIn(Code(x, y), minX, maxX, minY, maxY) <==> minX <= x <= maxX && minY <= y <= maxY
  {
    hide Code;
    if CodeIn(Code(x, y), minX, maxX, minY, maxY) {
      var u: nat, v: nat :| minX <= u <= maxX && minY <= v <= maxY && Code(x, y) == Code(u, v);
      CodeInjective(x, y, u, v);
    }
  }

  method Row(minX: nat, maxX: nat, y: nat) returns (r: seq<int>)
    ensures forall c :: c in r <==> CodeIn(c, minX, maxX, y, y)
  {
    hide CodeIn, Code;
    r := [];
    NoneIn(minX, minX - 1, y, y);
    if minX > maxX {
      NoneIn(minX, maxX, y, y);
      return;
    }
    for x := minX to maxX + 1
      invariant forall c :: c in r <==> CodeIn(c, minX, x - 1, y, y)
    {
      OneMore(minX, x, y);
      r := r + [Code(x, y)];
    }
  }

  lemma NoneIn(minX: nat, maxX: int, minY: nat, maxY: int)
    requires minX > maxX || minY > maxY
    ensures forall c :: !CodeIn(c, minX, maxX, minY, maxY)
  {
  }

  lemma OneMore(minX: nat, x: nat, y: nat)
    requires minX <= x
    ensures forall c :: CodeIn(c, minX, x, y, y) <==> CodeIn(c, minX, x - 1, y, y) || c == Code(x, y)
  {
    hide Code;
  }

  lemma NextRow(minX: nat, maxX: int, minY: nat, y: nat)
    requires minY <= y
    ensures forall c :: CodeIn(c, minX, maxX, minY, y) <==>
              CodeIn(c, minX, maxX, minY, y - 1) || CodeIn(c, minX, maxX, y, y)
  {
    hide Code;
  }

  method RectangleCodes(minX: nat, maxX: nat, minY: nat, maxY: nat) returns (codes: seq<int>)
    ensures forall c :: c in codes <==> CodeIn(c, minX, maxX, minY, maxY)
  {
    hide CodeIn;
    codes := [];
    NoneIn(minX, maxX, minY, minY - 1);
    if minY > maxY {
      NoneIn(minX, maxX, minY, maxY);
      return;
    }
    for y := minY to maxY + 1
      invariant forall c :: c in codes <==> CodeIn(c, minX, maxX, minY, y - 1)
    {
      var row := Row(minX, maxX, y);
      NextRow(minX, maxX, minY, y);
      codes := codes + row;
    }
  }

  /** Exactly the codes of the chunks in the box's rectangle are covered. */
  method IntervalsOfBox(box: Box, chunker: Chunker) returns (intervals: seq<Interval>)
    requires chunker.Valid() && box.InRange()
    ensures Ordered(intervals) && Gapped(intervals)
    ensures Selects(intervals, box, chunker)
    ensures forall c :: Covered(intervals, c) <==> BoxCode(c, box, chunker)
  {
    hide CodeIn, Code;
    var codes := RectangleCodes(box.minX / chunker.size, box.maxX / chunker.size,
                                box.minY / chunker.size, box.maxY / chunker.size);
    var sorted := SortDedup(codes);
    intervals := MergeConsecutive(sorted);
    forall x: nat, y: nat | x < SIDE && y < SIDE
      ensures Covered(intervals, chunker.ChunkMorton(x, y)) <==> InRectangle(box, chunker, x, y)
    {
      ChunkSmaller(x, chunker.size);
      ChunkSmaller(y, chunker.size);
      ChunkSmaller(box.maxX, chunker.size);
      ChunkSmaller(box.maxY, chunker.size);
      CodeInExact(x / chunker.size, y / chunker.size, box.minX / chunker.size, box.maxX / chunker.size,
                  box.minY / chunker.size, box.maxY / chunker.size);
    }
  }

  /** The code of a chunk in the box's rectangle. */
  ghost predicate BoxCode(c: int, box: Box, chunker: Chunker)
    requires chunker.Valid()
  {
    ChunkSmaller(box.minX, chunker.size);
    ChunkSmaller(box.minY, chunker.size);
    CodeIn(c, box.minX / chunker.size, box.maxX / chunker.size, box.minY / chunker.size, box.maxY / chunker.size)
  }

  /** The intervals select exactly the points whose chunk is in the box's rectangle. */
  ghost predicate Selects(intervals: seq<Interval>, box: Box, chunker: Chunker)
    requires chunker.Valid()
  {
    forall x: nat, y: nat :: x < SIDE && y < SIDE ==>
      (Covered(intervals, chunker.ChunkMorton(x, y)) <==> InRectangle(box, chunker, x, y))
  }

  lemma ChunkSmaller(x: nat, size: nat)
    requires size > 0
    ensures 0 <= x / size <= x
  {
    var q, r := x / size, x % size;
    MulGap(q, 0, size - 1);
    assert x == q * size + r == q * (size - 1) + q + r;
  }

  lemma MulGap(p: int, q: int, size: nat)
    ensures p > q ==> p * size >= q * size + size
    ensures p >= q ==> p * size >= q * size
    decreases p - q
  {
    if p > q {
      MulGap(p - 1, q, size);
    }
  }

  lemma ChunkMonotone(x: nat, y: nat, size: nat)
    requires x <= y && size > 0
    ensures x / size <= y / size
  {
    var p, q := x / size, y / size;
    MulGap(p, q, size);
    assert x == p * size + x % size && y == q * size + y % size;
  }

  /** No point of the box is lost. */
  lemma BoxInRectangle(box: Box, chunker: Chunker, x: nat, y: nat)
    requires chunker.Valid() && box.Contains(x, y)
    ensures InRectangle(box, chunker, x, y)
  {
    ChunkMonotone(box.minX, x, chunker.size);
    ChunkMonotone(x, box.maxX, chunker.size);
    ChunkMonotone(box.minY, y, chunker.size);
    ChunkMonotone(y, box.maxY, chunker.size);
  }
}

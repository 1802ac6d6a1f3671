/** removeBgFloodFill (services/utils.ts lines 69-130): clear the alpha of
    every background pixel connected, through background pixels, to a seed on
    the image border. */
module FloodFill {
  import opened ColorRules
  import opened PixelGrid

  // ---------------------------------------------------------------------------
  // Seeds (lines 90-104)

  /** The border pixels addPixel is called on: the four corners, every tenth
      pixel of the top and bottom rows and every tenth pixel of the left and
      right columns. */
  predicate SeedAt(w: int, h: int, x: int, y: int) {
    InGrid(w, h, x, y) &&
    (((x == 0 || x == w - 1) && (y == 0 || y == h - 1)) ||
     ((y == 0 || y == h - 1) && x % 10 == 0) ||
     ((x == 0 || x == w - 1) && y % 10 == 0))
  }

  predicate IsSeed(w: int, h: int, p: int) {
    w > 0 && 0 <= p < w * h && SeedAt(w, h, Col(w, p), Row(w, p))
  }

  /** addPixel: push the offset of (x, y) when it lies in the image. */
  function AddPixel(stack: seq<int>, w: int, h: int, x: int, y: int): seq<int> {
    if InGrid(w, h, x, y) then stack + [Offset(w, x, y)] else stack
  }

  lemma AddPixelSeed(stack: seq<int>, w: int, h: int, x: int, y: int)
    requires forall k :: 0 <= k < |stack| ==> IsSeed(w, h, stack[k])
    requires InGrid(w, h, x, y) ==> SeedAt(w, h, x, y)
    ensures var s := AddPixel(stack, w, h, x, y);
            (forall k :: 0 <= k < |s| ==> IsSeed(w, h, s[k])) &&
            (InGrid(w, h, x, y) ==> Offset(w, x, y) in s) &&
            (forall p :: p in stack ==> p in s)
  {
    if InGrid(w, h, x, y) {
      OffsetCoords(w, x, y);
      OffsetInRange(w, h, x, y);
    }
  }

  /** The initial stack: exactly the seeds, in the order lines 95-104 push them. */
  method InitialStack(w: nat, h: nat) returns (stack: seq<int>)
    ensures forall k :: 0 <= k < |stack| ==> IsSeed(w, h, stack[k])
    ensures forall p :: IsSeed(w, h, p) ==> p in stack
  {
    stack := [];
    AddPixelSeed(stack, w, h, 0, 0);
    stack := AddPixel(stack, w, h, 0, 0);
    AddPixelSeed(stack, w, h, w - 1, 0);
    stack := AddPixel(stack, w, h, w - 1, 0);
    AddPixelSeed(stack, w, h, 0, h - 1);
    stack := AddPixel(stack, w, h, 0, h - 1);
    AddPixelSeed(stack, w, h, w - 1, h - 1);
    stack := AddPixel(stack, w, h, w - 1, h - 1);
    stack := PushTopAndBottom(stack, w, h);
    stack := PushLeftAndRight(stack, w, h);
    SeedsCovered(w, h, stack);
  }

  /** Line 101: every tenth pixel of the top and bottom rows. */
  method PushTopAndBottom(stack0: seq<int>, w: nat, h: nat) returns (stack: seq<int>)
    requires forall k :: 0 <= k < |stack0| ==> IsSeed(w, h, stack0[k])
    ensures forall k :: 0 <= k < |stack| ==> IsSeed(w, h, stack[k])
    ensures forall p :: p in stack0 ==> p in stack
    ensures forall i :: 0 <= i < w && i % 10 == 0 ==>
              (h > 0 ==> Offset(w, i, 0) in stack && Offset(w, i, h - 1) in stack)
  {
    stack := stack0;
    var x := 0;
    while x < w
      invariant x % 10 == 0 && 0 <= x
      invariant forall k :: 0 <= k < |stack| ==> IsSeed(w, h, stack[k])
      invariant forall p :: p in stack0 ==> p in stack
      invariant forall i :: 0 <= i < x && i < w && i % 10 == 0 ==>
                  (h > 0 ==> Offset(w, i, 0) in stack && Offset(w, i, h - 1) in stack)
    {
      AddPixelSeed(stack, w, h, x, 0);
      stack := AddPixel(stack, w, h, x, 0);
      AddPixelSeed(stack, w, h, x, h - 1);
      stack := AddPixel(stack, w, h, x, h - 1);
      x := x + 10;
    }
  }

  /** Line 102: every tenth pixel of the left and right columns. */
  method PushLeftAndRight(stack0: seq<int>, w: nat, h: nat) returns (stack: seq<int>)
    requires forall k :: 0 <= k < |stack0| ==> IsSeed(w, h, stack0[k])
    ensures forall k :: 0 <= k < |stack| ==> IsSeed(w, h, stack[k])
    ensures forall p :: p in stack0 ==> p in stack
    ensures forall j :: 0 <= j < h && j % 10 == 0 ==>
              (w > 0 ==> Offset(w, 0, j) in stack && Offset(w, w - 1, j) in stack)
  {
    stack := stack0;
    var y := 0;
    while y < h
      invariant y % 10 == 0 && 0 <= y
      invariant forall k :: 0 <= k < |stack| ==> IsSeed(w, h, stack[k])
      invariant forall p :: p in stack0 ==> p in stack
      invariant forall j :: 0 <= j < y && j < h && j % 10 == 0 ==>
                  (w > 0 ==> Offset(w, 0, j) in stack && Offset(w, w - 1, j) in stack)
    {
      AddPixelSeed(stack, w, h, 0, y);
      stack := AddPixel(stack, w, h, 0, y);
      AddPixelSeed(stack, w, h, w - 1, y);
      stack := AddPixel(stack, w, h, w - 1, y);
      y := y + 10;
    }
  }

  /** A stack holding the corners, every tenth pixel of the top and bottom
      rows and every tenth pixel of the side columns holds every seed. */
  lemma SeedsCovered(w: int, h: int, stack: seq<int>)
    requires w > 0 && h > 0 ==>
               Offset(w, 0, 0) in stack && Offset(w, w - 1, 0) in stack &&
               Offset(w, 0, h - 1) in stack && Offset(w, w - 1, h - 1) in stack
    requires forall i :: 0 <= i < w && i % 10 == 0 ==>
               (h > 0 ==> Offset(w, i, 0) in stack && Offset(w, i, h - 1) in stack)
    requires forall j :: 0 <= j < h && j % 10 == 0 ==>
               (w > 0 ==> Offset(w, 0, j) in stack && Offset(w, w - 1, j) in stack)
    ensures forall p :: IsSeed(w, h, p) ==> p in stack
  {
    forall p | IsSeed(w, h, p)
      ensures p in stack
    {
      CoordsOfOffset(w, h, p);
      var x, y := Col(w, p), Row(w, p);
      assert p == Offset(w, x, y);
      if (x == 0 || x == w - 1) && (y == 0 || y == h - 1) {
      } else if (y == 0 || y == h - 1) && x % 10 == 0 {
        assert Offset(w, x, 0) in stack && Offset(w, x, h - 1) in stack;
      } else {
        assert Offset(w, 0, y) in stack && Offset(w, w - 1, y) in stack;
      }
    }
  }

  // ---------------------------------------------------------------------------
  // What the fill clears

  /** Pixel p exists in image d and the classifier calls its colour background. */
  predicate Bg(isBg: Rgb -> bool, d: seq<Channel>, p: int) {
    0 <= p && 4 * p + 3 < |d| && isBg(PixelRgb(d, p))
  }

  /** A path of background pixels from a seed, each next to the one before. */
  predicate BgPath(isBg: Rgb -> bool, d: seq<Channel>, w: int, h: int, path: seq<int>) {
    |path| > 0 && IsSeed(w, h, path[0]) &&
    (forall i :: 0 <= i < |path| ==> Bg(isBg, d, path[i])) &&
    (forall i :: 0 <= i < |path| - 1 ==> Adjacent(w, h, path[i], path[i + 1]))
  }

  predicate PathTo(isBg: Rgb -> bool, d: seq<Channel>, w: int, h: int, path: seq<int>, p: int) {
    BgPath(isBg, d, w, h, path) && path[|path| - 1] == p
  }

  ghost predicate Reachable(isBg: Rgb -> bool, d: seq<Channel>, w: int, h: int, p: int) {
    exists path :: PathTo(isBg, d, w, h, path, p)
  }

  /** The pixels the fill makes transparent. */
  ghost function Flooded(isBg: Rgb -> bool, d: seq<Channel>, w: nat, h: nat): set<int> {
    set p | 0 <= p < w * h && Reachable(isBg, d, w, h, p)
  }

  /** The image after the fill. */
  ghost function FloodResult(isBg: Rgb -> bool, d: seq<Channel>, w: nat, h: nat): seq<Channel> {
    ClearAlpha(d, Flooded(isBg, d, w, h))
  }

  // ---------------------------------------------------------------------------
  // The fill itself (lines 86-127)

  lemma NeighboursInRange(w: int, h: int, p: int)
    requires w > 0 && 0 <= p < w * h
    ensures Col(w, p) > 0 ==> Adjacent(w, h, p, p - 1) && 0 <= p - 1 < w * h
    ensures Col(w, p) < w - 1 ==> Adjacent(w, h, p, p + 1) && 0 <= p + 1 < w * h
    ensures Row(w, p) > 0 ==> Adjacent(w, h, p, p - w) && 0 <= p - w < w * h
    ensures Row(w, p) < h - 1 ==> Adjacent(w, h, p, p + w) && 0 <= p + w < w * h
  {
    if Col(w, p) > 0 { AdjacentInRange(w, h, p, p - 1); }
    if Col(w, p) < w - 1 { AdjacentInRange(w, h, p, p + 1); }
    if Row(w, p) > 0 { AdjacentInRange(w, h, p, p - w); }
    if Row(w, p) < h - 1 { AdjacentInRange(w, h, p, p + w); }
  }

  /** acc with q pushed on top when `cond` holds. */
  function PushIf(acc: seq<int>, cond: bool, q: int): (s: seq<int>)
    ensures forall r :: r in s <==> r in acc || (cond && r == q)
  {
    if cond then acc + [q] else acc
  }

  /** The not yet visited neighbours of p, in the order lines 122-125 push
      them: left, right, up, down. */
  function NeighboursToPush(visited: seq<bool>, w: int, h: int, p: int): (more: seq<int>)
    requires w > 0 && 0 <= p < w * h && |visited| == w * h
    ensures forall k :: 0 <= k < |more| ==> Adjacent(w, h, p, more[k])
    ensures forall q :: Adjacent(w, h, p, q) ==> 0 <= q < |visited| && (visited[q] || q in more)
  {
    NeighboursInRange(w, h, p);
    var x, y := Col(w, p), Row(w, p);
    var left := PushIf([], x > 0 && !visited[p - 1], p - 1);
    var right := PushIf(left, x < w - 1 && !visited[p + 1], p + 1);
    var up := PushIf(right, y > 0 && !visited[p - w], p - w);
    var more := PushIf(up, y < h - 1 && !visited[p + w], p + w);
    assert forall k :: 0 <= k < |more| ==> more[k] in more;
    more
  }

  /** Every pixel reached from a seed through background pixels is in any
      set that holds the background seeds and is closed under stepping from a
      background member to a background neighbour. */
  lemma {:induction false} PathInClosedSet(isBg: Rgb -> bool, d: seq<Channel>, w: int, h: int, path: seq<int>,
                                           s: set<int>)
    requires BgPath(isBg, d, w, h, path)
    requires forall p :: IsSeed(w, h, p) && Bg(isBg, d, p) ==> p in s
    requires forall p, q :: p in s && Bg(isBg, d, p) && Adjacent(w, h, p, q) && Bg(isBg, d, q) ==> q in s
    ensures path[|path| - 1] in s
    decreases |path|
  {
    if |path| > 1 {
      var prefix := path[..|path| - 1];
      assert BgPath(isBg, d, w, h, prefix);
      PathInClosedSet(isBg, d, w, h, prefix, s);
      assert Adjacent(w, h, path[|path| - 2], path[|path| - 1]);
    }
  }

  /** The flood is the least such set. */
  lemma FloodedLeast(isBg: Rgb -> bool, d: seq<Channel>, w: nat, h: nat, s: set<int>)
    requires forall p :: IsSeed(w, h, p) && Bg(isBg, d, p) ==> p in s
    requires forall p, q :: p in s && Bg(isBg, d, p) && Adjacent(w, h, p, q) && Bg(isBg, d, q) ==> q in s
    ensures Flooded(isBg, d, w, h) <= s
  {
    forall p | p in Flooded(isBg, d, w, h)
      ensures p in s
    {
      var path :| PathTo(isBg, d, w, h, path, p);
      PathInClosedSet(isBg, d, w, h, path, s);
    }
  }

  /** Every flooded pixel is background. */
  lemma FloodedIsBackground(isBg: Rgb -> bool, d: seq<Channel>, w: nat, h: nat, p: int)
    requires p in Flooded(isBg, d, w, h)
    ensures Bg(isBg, d, p)
  {
    var path :| PathTo(isBg, d, w, h, path, p);
    assert Bg(isBg, d, path[|path| - 1]);
  }

  /** Every background seed is flooded. */
  lemma SeedFlooded(isBg: Rgb -> bool, d: seq<Channel>, w: nat, h: nat, p: int)
    requires IsSeed(w, h, p) && Bg(isBg, d, p)
    ensures p in Flooded(isBg, d, w, h)
  {
    assert PathTo(isBg, d, w, h, [p], p);
  }

  /** A background neighbour of a flooded pixel is flooded. */
  lemma FloodSpreads(isBg: Rgb -> bool, d: seq<Channel>, w: nat, h: nat, p: int, q: int)
    requires p in Flooded(isBg, d, w, h) && Adjacent(w, h, p, q) && Bg(isBg, d, q)
    ensures q in Flooded(isBg, d, w, h)
  {
    var path :| PathTo(isBg, d, w, h, path, p);
    PathExtend(isBg, d, w, h, path, q);
    AdjacentInRange(w, h, p, q);
  }

  /** Pixels inside a region E that holds no seed and whose outside
      neighbours are all foreground keep every byte: the fill cannot cross a
      foreground outline. */
  lemma EnclosedKept(isBg: Rgb -> bool, d: seq<Channel>, w: nat, h: nat, e: set<int>)
    requires forall p :: IsSeed(w, h, p) ==> p !in e
    requires forall p, q :: p !in e && q in e && Adjacent(w, h, p, q) ==> !Bg(isBg, d, p)
    ensures forall i :: 0 <= i < |d| && i / 4 in e ==> FloodResult(isBg, d, w, h)[i] == d[i]
  {
    var outside := set p | 0 <= p < w * h && p !in e;
    forall p, q | p in outside && Bg(isBg, d, p) && Adjacent(w, h, p, q) && Bg(isBg, d, q)
      ensures q in outside
    {
      AdjacentInRange(w, h, p, q);
    }
    FloodedLeast(isBg, d, w, h, outside);
  }

  /** The fill only reads colours, so two images with the same colours
      flood the same pixels. */
  lemma SameColoursSameFlood(isBg: Rgb -> bool, d: seq<Channel>, e: seq<Channel>, w: nat, h: nat)
    requires |d| == |e|
    requires forall i :: 0 <= i < |d| && !IsAlphaIndex(i) ==> d[i] == e[i]
    ensures Flooded(isBg, d, w, h) == Flooded(isBg, e, w, h)
  {
    forall p | 0 <= p && 4 * p + 3 < |d|
      ensures Bg(isBg, d, p) == Bg(isBg, e, p)
    {
      ColourBytes(p);
      assert PixelRgb(d, p) == PixelRgb(e, p);
    }
    forall path
      ensures BgPath(isBg, d, w, h, path) == BgPath(isBg, e, w, h, path)
    {
    }
    forall p
      ensures Reachable(isBg, d, w, h, p) == Reachable(isBg, e, w, h, p)
    {
      if Reachable(isBg, d, w, h, p) {
        var path :| PathTo(isBg, d, w, h, path, p);
        assert PathTo(isBg, e, w, h, path, p);
      }
      if Reachable(isBg, e, w, h, p) {
        var path :| PathTo(isBg, e, w, h, path, p);
        assert PathTo(isBg, d, w, h, path, p);
      }
    }
  }

  /** Filling twice clears nothing more than filling once. */
  lemma FloodIdempotent(isBg: Rgb -> bool, d: seq<Channel>, w: nat, h: nat)
    ensures FloodResult(isBg, FloodResult(isBg, d, w, h), w, h) == FloodResult(isBg, d, w, h)
  {
    var once := FloodResult(isBg, d, w, h);
    SameColoursSameFlood(isBg, d, once, w, h);
    var twice := FloodResult(isBg, once, w, h);
    assert forall i :: 0 <= i < |d| ==> twice[i] == once[i];
  }

  /** A path extended by a background neighbour of its end is a path. */
  lemma PathExtend(isBg: Rgb -> bool, d: seq<Channel>, w: int, h: int, path: seq<int>, q: int)
    requires BgPath(isBg, d, w, h, path) && Adjacent(w, h, path[|path| - 1], q) && Bg(isBg, d, q)
    ensures PathTo(isBg, d, w, h, path + [q], q)
  {
    var ext := path + [q];
    assert ext[0] == path[0];
    forall i | 0 <= i < |ext|
      ensures Bg(isBg, d, ext[i])
    {
      if i < |path| {
        assert ext[i] == path[i];
      }
    }
    forall i | 0 <= i < |ext| - 1
      ensures Adjacent(w, h, ext[i], ext[i + 1])
    {
      if i < |path| - 1 {
        assert ext[i] == path[i] && ext[i + 1] == path[i + 1];
      }
    }
  }

  // ---------------------------------------------------------------------------
  // The loop invariant of the fill, part by part

  /** Each stacked pixel lies in the image and is a seed or was pushed by a
      cleared pixel next to it. */
  ghost predicate StackOk(w: int, h: int, stack: seq<int>, parents: seq<int>, region: set<int>) {
    |parents| == |stack| &&
    forall k :: 0 <= k < |stack| ==>
      0 <= stack[k] < w * h &&
      (IsSeed(w, h, stack[k]) || (parents[k] in region && Adjacent(w, h, parents[k], stack[k])))
  }

  /** The ghost set `unvisited` mirrors the visited flags. */
  ghost predicate VisitOk(n: int, visited: seq<bool>, unvisited: set<int>) {
    |visited| == n &&
    (forall p :: p in unvisited ==> 0 <= p < n) &&
    (forall p :: 0 <= p < n ==> (visited[p] <==> p !in unvisited))
  }

  /** Cleared pixels are visited and reached by a recorded path; visited
      background pixels are cleared. */
  ghost predicate RegionOk(isBg: Rgb -> bool, d: seq<Channel>, w: int, h: int, unvisited: set<int>,
                           region: set<int>, paths: map<int, seq<int>>) {
    (forall p :: p in region ==> 0 <= p < w * h && p !in unvisited && p in paths && PathTo(isBg, d, w, h, paths[p], p)) &&
    (forall p :: 0 <= p < w * h && p !in unvisited && Bg(isBg, d, p) ==> p in region)
  }

  /** Every seed and every neighbour of a cleared pixel is visited or still
      on the stack. */
  ghost predicate FrontierOk(w: int, h: int, stack: seq<int>, unvisited: set<int>, region: set<int>) {
    (forall p :: IsSeed(w, h, p) ==> p !in unvisited || p in stack) &&
    (forall p, q :: p in region && Adjacent(w, h, p, q) ==> q !in unvisited || q in stack)
  }

  /** cur is d with exactly the alpha bytes of `region` zeroed. */
  ghost predicate Cleared(d: seq<Channel>, region: set<int>, cur: seq<Channel>) {
    |cur| == |d| &&
    forall i :: 0 <= i < |d| ==> cur[i] == if IsAlphaIndex(i) && i / 4 in region then 0 else d[i]
  }

  /** The loop invariant: the parts above, and the buffer is the original
      with exactly the cleared pixels' alpha zeroed. */
  ghost predicate FillInv(isBg: Rgb -> bool, d: seq<Channel>, w: nat, h: nat, stack: seq<int>, parents: seq<int>,
                          visited: seq<bool>, unvisited: set<int>, region: set<int>,
                          paths: map<int, seq<int>>, cur: seq<Channel>) {
    |d| == 4 * (w * h) &&
    StackOk(w, h, stack, parents, region) && VisitOk(w * h, visited, unvisited) &&
    RegionOk(isBg, d, w, h, unvisited, region, paths) && FrontierOk(w, h, stack, unvisited, region) &&
    Cleared(d, region, cur)
  }

  lemma FillInit(isBg: Rgb -> bool, d: seq<Channel>, w: nat, h: nat, stack: seq<int>, unvisited: set<int>)
    requires |d| == 4 * (w * h)
    requires forall p :: p in unvisited <==> 0 <= p < w * h
    requires forall k :: 0 <= k < |stack| ==> IsSeed(w, h, stack[k])
    requires forall p :: IsSeed(w, h, p) ==> p in stack
    ensures FillInv(isBg, d, w, h, stack, seq(|stack|, _ => -1), seq(w * h, _ => false),
                    unvisited, {}, map[], d)
  {
  }

  lemma StackPop(w: int, h: int, stack: seq<int>, parents: seq<int>, q: int, parent: int, region: set<int>)
    requires StackOk(w, h, stack + [q], parents + [parent], region)
    ensures StackOk(w, h, stack, parents, region)
    ensures 0 <= q < w * h && (IsSeed(w, h, q) || (parent in region && Adjacent(w, h, parent, q)))
  {
    var s, ps := stack + [q], parents + [parent];
    assert s[|stack|] == q && ps[|stack|] == parent;
    assert forall k :: 0 <= k < |stack| ==> s[k] == stack[k] && ps[k] == parents[k];
  }

  lemma VisitOne(n: int, visited: seq<bool>, unvisited: set<int>, q: int)
    requires VisitOk(n, visited, unvisited) && 0 <= q < n
    ensures VisitOk(n, visited[q := true], unvisited - {q})
  {
  }

  /** Popping a pixel that is already visited. */
  lemma FillSkip(isBg: Rgb -> bool, d: seq<Channel>, w: nat, h: nat, stack: seq<int>, parents: seq<int>, q: int,
                 parent: int, visited: seq<bool>, unvisited: set<int>, region: set<int>,
                 paths: map<int, seq<int>>, cur: seq<Channel>)
    requires FillInv(isBg, d, w, h, stack + [q], parents + [parent], visited, unvisited, region, paths, cur)
    requires q !in unvisited
    ensures FillInv(isBg, d, w, h, stack, parents, visited, unvisited, region, paths, cur)
  {
    StackPop(w, h, stack, parents, q, parent, region);
  }

  /** Visiting a pixel that is not background: it is only marked visited. */
  lemma FillKeep(isBg: Rgb -> bool, d: seq<Channel>, w: nat, h: nat, stack: seq<int>, parents: seq<int>, q: int,
                 parent: int, visited: seq<bool>, unvisited: set<int>, region: set<int>,
                 paths: map<int, seq<int>>, cur: seq<Channel>)
    requires FillInv(isBg, d, w, h, stack + [q], parents + [parent], visited, unvisited, region, paths, cur)
    requires q in unvisited && !Bg(isBg, d, q)
    ensures FillInv(isBg, d, w, h, stack, parents, visited[q := true], unvisited - {q}, region, paths, cur)
  {
    StackPop(w, h, stack, parents, q, parent, region);
    VisitOne(w * h, visited, unvisited, q);
  }

  /** Zeroing the alpha byte of one more pixel. */
  lemma ClearOneMore(d: seq<Channel>, region: set<int>, q: int, cur: seq<Channel>)
    requires 0 <= q && 4 * q + 3 < |d| && Cleared(d, region, cur)
    ensures Cleared(d, region + {q}, cur[4 * q + 3 := 0])
  {
    var e := cur[4 * q + 3 := 0];
    forall i | 0 <= i < |d|
      ensures e[i] == if IsAlphaIndex(i) && i / 4 in region + {q} then 0 else d[i]
    {
      if IsAlphaIndex(i) && i / 4 == q {
        assert i == 4 * q + 3;
      }
    }
  }

  lemma PositiveSides(w: nat, h: nat, p: int)
    requires 0 <= p < w * h
    ensures w > 0 && h > 0
  {
  }

  lemma StackPush(w: int, h: int, stack: seq<int>, parents: seq<int>, q: int, region: set<int>, more: seq<int>)
    requires StackOk(w, h, stack, parents, region)
    requires forall k :: 0 <= k < |more| ==> Adjacent(w, h, q, more[k])
    ensures StackOk(w, h, stack + more, parents + seq(|more|, _ => q), region + {q})
  {
    var s, ps := stack + more, parents + seq(|more|, _ => q);
    forall k | 0 <= k < |s|
      ensures 0 <= s[k] < w * h
      ensures IsSeed(w, h, s[k]) || (ps[k] in region + {q} && Adjacent(w, h, ps[k], s[k]))
    {
      if k >= |stack| {
        AdjacentInRange(w, h, q, s[k]);
      }
    }
  }

  lemma RegionGrow(isBg: Rgb -> bool, d: seq<Channel>, w: int, h: int, unvisited: set<int>, region: set<int>,
                   paths: map<int, seq<int>>, q: int, path: seq<int>)
    requires RegionOk(isBg, d, w, h, unvisited, region, paths)
    requires 0 <= q < w * h && PathTo(isBg, d, w, h, path, q)
    ensures RegionOk(isBg, d, w, h, unvisited - {q}, region + {q}, paths[q := path])
  {
  }

  lemma FrontierGrow(w: int, h: int, stack: seq<int>, q: int, unvisited: set<int>, region: set<int>,
                     more: seq<int>)
    requires FrontierOk(w, h, stack + [q], unvisited, region)
    requires forall r :: Adjacent(w, h, q, r) ==> r !in unvisited - {q} || r in more
    ensures FrontierOk(w, h, stack + more, unvisited - {q}, region + {q})
  {
    var U := unvisited - {q};
    forall p | IsSeed(w, h, p)
      ensures p !in U || p in stack + more
    {
      assert p in stack + [q] ==> p == q || p in stack;
    }
    forall p, r | p in region + {q} && Adjacent(w, h, p, r)
      ensures r !in U || r in stack + more
    {
      assert r in stack + [q] ==> r == q || r in stack;
    }
  }

  /** Visiting a background pixel: its alpha is zeroed, it joins the
      cleared region with a path from a seed, and its unvisited neighbours
      are pushed. */
  lemma FillClear(isBg: Rgb -> bool, d: seq<Channel>, w: nat, h: nat, stack: seq<int>, parents: seq<int>, q: int,
                  parent: int, visited: seq<bool>, unvisited: set<int>, region: set<int>,
                  paths: map<int, seq<int>>, cur: seq<Channel>) returns (path: seq<int>)
    requires FillInv(isBg, d, w, h, stack + [q], parents + [parent], visited, unvisited, region, paths, cur)
    requires q in unvisited && Bg(isBg, d, q) && w > 0
    ensures var more := NeighboursToPush(visited[q := true], w, h, q);
            FillInv(isBg, d, w, h, stack + more, parents + seq(|more|, _ => q), visited[q := true],
                    unvisited - {q}, region + {q}, paths[q := path], cur[4 * q + 3 := 0])
  {
    StackPop(w, h, stack, parents, q, parent, region);
    if IsSeed(w, h, q) {
      path := [q];
      assert PathTo(isBg, d, w, h, path, q);
    } else {
      path := paths[parent] + [q];
      PathExtend(isBg, d, w, h, paths[parent], q);
    }
    ClearOneMore(d, region, q, cur);
    var v' := visited[q := true];
    VisitOne(w * h, visited, unvisited, q);
    var more := NeighboursToPush(v', w, h, q);
    StackPush(w, h, stack, parents, q, region, more);
    RegionGrow(isBg, d, w, h, unvisited, region, paths, q, path);
    FrontierGrow(w, h, stack, q, unvisited, region, more);
  }

  /** With the stack empty the cleared region is exactly the flood. */
  lemma FillDone(isBg: Rgb -> bool, d: seq<Channel>, w: nat, h: nat, visited: seq<bool>, unvisited: set<int>,
                 region: set<int>, paths: map<int, seq<int>>, cur: seq<Channel>)
    requires FillInv(isBg, d, w, h, [], [], visited, unvisited, region, paths, cur)
    ensures cur == FloodResult(isBg, d, w, h)
  {
    forall p | IsSeed(w, h, p) && Bg(isBg, d, p)
      ensures p in region
    {
    }
    forall p, q | p in region && Bg(isBg, d, p) && Adjacent(w, h, p, q) && Bg(isBg, d, q)
      ensures q in region
    {
      AdjacentInRange(w, h, p, q);
    }
    FloodedLeast(isBg, d, w, h, region);
    forall p | p in region
      ensures p in Flooded(isBg, d, w, h)
    {
      assert PathTo(isBg, d, w, h, paths[p], p);
    }
    assert region == Flooded(isBg, d, w, h);
    assert cur == ClearAlpha(d, region);
  }

  /** The isBackground closure of lines 76-83. */
  function BackgroundTest(targetHex: string, tolerance: real): Rgb -> bool {
    var c := ClassifierFor(targetHex, tolerance);
    p => IsBackground(c, p)
  }

  /** One turn of the loop of lines 106-127: pop an offset; unless it is
      already visited, mark it visited and, when its colour is background,
      zero its alpha and push its unvisited neighbours. */
  method Visit(isBg: Rgb -> bool, data: array<Channel>, visited: array<bool>, w: nat, h: nat, stack: seq<int>,
               ghost d: seq<Channel>, ghost parents: seq<int>, ghost unvisited: set<int>, ghost region: set<int>,
               ghost paths: map<int, seq<int>>)
    returns (stack': seq<int>, ghost parents': seq<int>, ghost unvisited': set<int>, ghost region': set<int>,
             ghost paths': map<int, seq<int>>)
    requires stack != [] && data.Length == 4 * (w * h) && visited.Length == w * h
    requires FillInv(isBg, d, w, h, stack, parents, visited[..], unvisited, region, paths, data[..])
    modifies data, visited
    ensures FillInv(isBg, d, w, h, stack', parents', visited[..], unvisited', region', paths', data[..])
    ensures |unvisited'| < |unvisited| || (unvisited' == unvisited && |stack'| < |stack|)
  {
    var q := stack[|stack| - 1];
    ghost var parent := parents[|parents| - 1];
    stack', parents' := stack[..|stack| - 1], parents[..|parents| - 1];
    assert stack == stack' + [q] && parents == parents' + [parent];
    if visited[q] {
      FillSkip(isBg, d, w, h, stack', parents', q, parent, visited[..], unvisited, region, paths, data[..]);
      unvisited', region', paths' := unvisited, region, paths;
    } else {
      stack', parents', unvisited', region', paths' := VisitNew(isBg, data, visited, w, h, stack', q, d, parents',
                                                                  parent, unvisited, region, paths);
    }
  }

  /** Lines 109-126 for a pixel q not visited before. */
  method VisitNew(isBg: Rgb -> bool, data: array<Channel>, visited: array<bool>, w: nat, h: nat, stack: seq<int>,
                  q: int, ghost d: seq<Channel>, ghost parents: seq<int>, ghost parent: int,
                  ghost unvisited: set<int>, ghost region: set<int>, ghost paths: map<int, seq<int>>)
    returns (stack': seq<int>, ghost parents': seq<int>, ghost unvisited': set<int>, ghost region': set<int>,
             ghost paths': map<int, seq<int>>)
    requires data.Length == 4 * (w * h) && visited.Length == w * h
    requires FillInv(isBg, d, w, h, stack + [q], parents + [parent], visited[..], unvisited, region, paths, data[..])
    requires 0 <= q < w * h && !visited[q]
    modifies data, visited
    ensures FillInv(isBg, d, w, h, stack', parents', visited[..], unvisited', region', paths', data[..])
    ensures q in unvisited && unvisited' == unvisited - {q}
  {
    assert visited[..][q] == visited[q];
    ColourBytes(q);
    var rgb := Rgb(data[4 * q], data[4 * q + 1], data[4 * q + 2]);
    assert rgb == PixelRgb(d, q);
    if isBg(rgb) {
      stack', parents', unvisited', region', paths' := Spread(isBg, data, visited, w, h, stack, q, d, parents,
                                                              parent, unvisited, region, paths);
    } else {
      ghost var vis := visited[..];
      FillKeep(isBg, d, w, h, stack, parents, q, parent, vis, unvisited, region, paths, data[..]);
      visited[q] := true;
      assert visited[..] == vis[q := true];
      stack', parents' := stack, parents;
      unvisited', region', paths' := unvisited - {q}, region, paths;
    }
  }

  /** Lines 113-126 for a background pixel q: clear its alpha, mark it
      visited and push its unvisited neighbours. */
  method Spread(isBg: Rgb -> bool, data: array<Channel>, visited: array<bool>, w: nat, h: nat, stack: seq<int>,
                q: int, ghost d: seq<Channel>, ghost parents: seq<int>, ghost parent: int,
                ghost unvisited: set<int>, ghost region: set<int>, ghost paths: map<int, seq<int>>)
    returns (stack': seq<int>, ghost parents': seq<int>, ghost unvisited': set<int>, ghost region': set<int>,
             ghost paths': map<int, seq<int>>)
    requires data.Length == 4 * (w * h) && visited.Length == w * h
    requires FillInv(isBg, d, w, h, stack + [q], parents + [parent], visited[..], unvisited, region, paths, data[..])
    requires q in unvisited && Bg(isBg, d, q)
    modifies data, visited
    ensures FillInv(isBg, d, w, h, stack', parents', visited[..], unvisited', region', paths', data[..])
    ensures unvisited' == unvisited - {q}
  {
    PositiveSides(w, h, q);
    ghost var path := FillClear(isBg, d, w, h, stack, parents, q, parent, visited[..], unvisited, region,
                                paths, data[..]);
    visited[q] := true;
    data[4 * q + 3] := 0;
    var more := NeighboursToPush(visited[..], w, h, q);
    stack', parents' := stack + more, parents + seq(|more|, _ => q);
    unvisited', region', paths' := unvisited - {q}, region + {q}, paths[q := path];
  }

  /** removeBgFloodFill on the RGBA buffer of a w x h image. */
  method RemoveBgFloodFill(data: array<Channel>, w: nat, h: nat, targetHex: string, tolerance: real)
    requires data.Length == 4 * (w * h)
    modifies data
    ensures data[..] == FloodResult(BackgroundTest(targetHex, tolerance), old(data[..]), w, h)
  {
    var isBg := BackgroundTest(targetHex, tolerance);
    ghost var d := data[..];
    var n := w * h;
    var stack := InitialStack(w, h);
    ghost var parents: seq<int> := seq(|stack|, _ => -1);
    var visited := new bool[n](_ => false);
    ghost var unvisited: set<int> := set p | 0 <= p < n && !visited[p];
    ghost var region: set<int> := {};
    ghost var paths: map<int, seq<int>> := map[];
    FillInit(isBg, d, w, h, stack, unvisited);
    assert visited[..] == seq(w * h, _ => false);
    while stack != []
      invariant data.Length == 4 * n && visited.Length == n
      invariant FillInv(isBg, d, w, h, stack, parents, visited[..], unvisited, region, paths, data[..])
      decreases |unvisited|, |stack|
    {
      stack, parents, unvisited, region, paths := Visit(isBg, data, visited, w, h, stack, d, parents, unvisited,
                                                       region, paths);
    }
    FillDone(isBg, d, w, h, visited[..], unvisited, region, paths, data[..]);
  }
}

/**
 * Stack-based 8-connected flood-fill labelling of a binary raster
 * (`_connected_components` in compare.py; `find_diff_regions` in image_ops.py
 * runs the same loop on its own difference mask).
 *
 * The raster is scanned row by row; every set pixel not yet visited seeds a
 * flood fill that uses an explicit stack and a visited array, tracking the
 * min/max coordinates of the pixels it pops.  The resulting half-open box is
 * kept when its bounding-box area reaches the minimum.
 */
module Labeling {
  import opened Geometry
  import opened Sorting

  datatype Pixel = Pixel(y: int, x: int)

  predicate InGrid(p: Pixel, h: int, w: int) { 0 <= p.y < h && 0 <= p.x < w }

  /** The 8-neighbourhood: distinct pixels at Chebyshev distance 1. */
  predicate Adjacent(p: Pixel, q: Pixel) {
    p != q && -1 <= p.y - q.y <= 1 && -1 <= p.x - q.x <= 1
  }

  /** Row-major scan order. */
  predicate Before(p: Pixel, q: Pixel) { p.y < q.y || (p.y == q.y && p.x < q.x) }

  ghost predicate IsSet(b: array2<bool>, p: Pixel) reads b {
    InGrid(p, b.Length0, b.Length1) && b[p.y, p.x]
  }

  predicate Distinct(s: seq<Pixel>) {
    forall i, j :: 0 <= i < j < |s| ==> s[i] != s[j]
  }

  /** Some pixel of `s` touches `q`. */
  predicate Touches(s: seq<Pixel>, q: Pixel) {
    exists p :: p in s && Adjacent(p, q)
  }

  /** Every pixel after the first touches an earlier one, so the pixels form one 8-connected piece. */
  predicate ChainConnected(s: seq<Pixel>) {
    forall k {:trigger s[k]} :: 0 < k < |s| ==> Touches(s[..k], s[k])
  }

  /** No set pixel outside `c` touches a pixel of `c`. */
  ghost predicate Closed(b: array2<bool>, c: seq<Pixel>) reads b {
    forall p, q :: p in c && Adjacent(p, q) && IsSet(b, q) ==> q in c
  }

  /** `c` (in discovery order) is one whole 8-connected component of the set pixels of `b`. */
  ghost predicate Component(b: array2<bool>, c: seq<Pixel>) reads b {
    c != [] && (forall p :: p in c ==> IsSet(b, p)) && ChainConnected(c) && Closed(b, c)
  }

  /** `bx` is the tight half-open bounding box of the pixels `c`. */
  predicate TightBox(bx: Box, c: seq<Pixel>) {
    (forall p :: p in c ==> bx.x0 <= p.x < bx.x1 && bx.y0 <= p.y < bx.y1)
    && (exists p :: p in c && p.x == bx.x0) && (exists p :: p in c && p.x == bx.x1 - 1)
    && (exists p :: p in c && p.y == bx.y0) && (exists p :: p in c && p.y == bx.y1 - 1)
  }

  /** The box of the pixels popped so far, grown by one more pixel. */
  function Grow(bx: Box, p: Pixel): Box {
    Box(MinI(bx.x0, p.x), MinI(bx.y0, p.y), MaxI(bx.x1, p.x + 1), MaxI(bx.y1, p.y + 1))
  }

  lemma GrowTight(bx: Box, c: seq<Pixel>, p: Pixel)
    requires TightBox(bx, c)
    ensures TightBox(Grow(bx, p), c + [p])
  {
    var g, c' := Grow(bx, p), c + [p];
    var a :| a in c && a.x == bx.x0;
    var b :| b in c && b.x == bx.x1 - 1;
    var d :| d in c && d.y == bx.y0;
    var e :| e in c && e.y == bx.y1 - 1;
    assert a in c' && b in c' && d in c' && e in c' && p in c';
    assert exists q :: q in c' && q.x == g.x0;
    assert exists q :: q in c' && q.x == g.x1 - 1;
    assert exists q :: q in c' && q.y == g.y0;
    assert exists q :: q in c' && q.y == g.y1 - 1;
  }

  lemma TightSameElems(bx: Box, a: seq<Pixel>, b: seq<Pixel>)
    requires TightBox(bx, a)
    requires forall p :: p in a <==> p in b
    ensures TightBox(bx, b)
  {
    var p1 :| p1 in a && p1.x == bx.x0;
    var p2 :| p2 in a && p2.x == bx.x1 - 1;
    var p3 :| p3 in a && p3.y == bx.y0;
    var p4 :| p4 in a && p4.y == bx.y1 - 1;
    assert p1 in b && p2 in b && p3 in b && p4 in b;
  }

  /** The boxes whose bounding-box area reaches `minArea`, in order. */
  function Kept(all: seq<Box>, minArea: int): seq<Box>
  {
    if all == [] then []
    else Kept(all[..|all| - 1], minArea)
         + (if all[|all| - 1].Area() >= minArea then [all[|all| - 1]] else [])
  }

  lemma {:induction false} KeptSpec(all: seq<Box>, minArea: int)
    ensures |Kept(all, minArea)| <= |all|
    ensures forall b :: b in Kept(all, minArea) <==> b in all && b.Area() >= minArea
    ensures SubseqOf(Kept(all, minArea), all)
  {
    if all != [] {
      var n := |all| - 1;
      KeptSpec(all[..n], minArea);
      assert all == all[..n] + [all[n]];
      var k := Kept(all[..n], minArea);
      if all[n].Area() >= minArea {
        SubseqSnoc(k, all[..n], all[n]);
        assert Kept(all, minArea) == k + [all[n]];
      } else {
        SubseqSkip(k, all[..n], all[n]);
        assert Kept(all, minArea) == k;
      }
    }
  }

  /** All pixels of all components, in order. */
  function Flatten(cs: seq<seq<Pixel>>): seq<Pixel>
  {
    if cs == [] then [] else Flatten(cs[..|cs| - 1]) + cs[|cs| - 1]
  }

  lemma {:induction false} InFlatten(cs: seq<seq<Pixel>>, p: Pixel)
    ensures p in Flatten(cs) <==> exists i :: 0 <= i < |cs| && p in cs[i]
  {
    if cs != [] {
      var init := cs[..|cs| - 1];
      InFlatten(init, p);
      if exists i :: 0 <= i < |cs| && p in cs[i] {
        var i :| 0 <= i < |cs| && p in cs[i];
        if i < |cs| - 1 { assert p in init[i]; }
      }
    }
  }

  /** A pixel of one component is in no other: distinct flattening means a partition. */
  lemma {:induction false} DisjointComponents(cs: seq<seq<Pixel>>, i: int, j: int, p: Pixel)
    requires Distinct(Flatten(cs)) && 0 <= i < j < |cs| && p in cs[i]
    ensures p !in cs[j]
  {
    var init := cs[..|cs| - 1];
    assert Flatten(cs) == Flatten(init) + cs[|cs| - 1];
    assert forall k :: 0 <= k < |init| ==> init[k] == cs[k];
    if j < |cs| - 1 {
      assert Distinct(Flatten(init)) by {
        assert forall k :: 0 <= k < |Flatten(init)| ==> Flatten(init)[k] == Flatten(cs)[k];
      }
      DisjointComponents(init, i, j, p);
    } else {
      InFlatten(init, p);
      assert p in init[i];
      var f, f' := Flatten(cs), Flatten(init);
      var n := |f'|;
      assert p in f';
      var a :| 0 <= a < n && f'[a] == p;
      assert f[a] == p;
      forall b | 0 <= b < |cs[j]| ensures cs[j][b] != p {
        assert f[n + b] == cs[j][b];
      }
    }
  }

  lemma AppendAssoc(a: seq<Pixel>, b: seq<Pixel>, c: seq<Pixel>)
    ensures (a + b) + c == a + (b + c)
  {
  }

  lemma DistinctAppend(a: seq<Pixel>, b: seq<Pixel>)
    requires Distinct(a) && Distinct(b) && forall p :: p in b ==> p !in a
    ensures Distinct(a + b)
  {
    var s := a + b;
    forall i, j | 0 <= i < j < |s| ensures s[i] != s[j] {
      if i < |a| && j >= |a| {
        assert s[j] in b && s[i] in a;
      }
    }
  }

  /** The visited array mirrors the ghost sequence `seen`. */
  ghost predicate Mirrors(v: array2<bool>, seen: seq<Pixel>) reads v {
    (forall p :: p in seen ==> InGrid(p, v.Length0, v.Length1))
    && forall y, x :: 0 <= y < v.Length0 && 0 <= x < v.Length1 ==> (v[y, x] <==> Pixel(y, x) in seen)
  }

  /** The in-grid pixels not yet marked; it shrinks whenever a fill pushes a pixel. */
  ghost function Remaining(h: int, w: int, m: seq<Pixel>): set<Pixel> {
    set y, x | 0 <= y < h && 0 <= x < w && Pixel(y, x) !in m :: Pixel(y, x)
  }

  lemma RemainingShrinks(h: int, w: int, m: seq<Pixel>, extra: seq<Pixel>)
    requires extra != [] && InGrid(extra[0], h, w) && extra[0] !in m
    ensures |Remaining(h, w, m + extra)| < |Remaining(h, w, m)|
  {
    var q := extra[0];
    var a, b := Remaining(h, w, m + extra), Remaining(h, w, m);
    assert a <= b;
    assert q in b - a;
    assert b == a + (b - a);
    assert a * (b - a) == {};
  }

  /**
   * Marks and pushes the unvisited set pixels of the clipped 3x3 window around `p`,
   * in row-major order.  `marked` is the ghost list of pixels already visited.
   */
  method PushNeighbours(binary: array2<bool>, visited: array2<bool>, p: Pixel, stack: seq<Pixel>,
                        ghost marked: seq<Pixel>)
    returns (stack': seq<Pixel>, ghost pushed: seq<Pixel>)
    requires binary != visited
    requires binary.Length0 == visited.Length0 && binary.Length1 == visited.Length1
    requires InGrid(p, binary.Length0, binary.Length1) && Mirrors(visited, marked) && p in marked
    modifies visited
    ensures stack' == stack + pushed && Distinct(pushed)
    ensures forall q :: q in pushed ==> Adjacent(p, q) && IsSet(binary, q) && q !in marked
    ensures Mirrors(visited, marked + pushed)
    ensures forall q :: Adjacent(p, q) && IsSet(binary, q) ==> q in marked + pushed
  {
    var h, w := binary.Length0, binary.Length1;
    stack', pushed := stack, [];
    var ny := MaxI(p.y - 1, 0);
    while ny < MinI(p.y + 2, h)
      invariant MaxI(p.y - 1, 0) <= ny <= MinI(p.y + 2, h)
      invariant stack' == stack + pushed && Distinct(pushed)
      invariant forall q :: q in pushed ==> Adjacent(p, q) && IsSet(binary, q) && q !in marked
      invariant Mirrors(visited, marked + pushed)
      invariant forall q :: Adjacent(p, q) && IsSet(binary, q) && q.y < ny ==> q in marked + pushed
    {
      var nx := MaxI(p.x - 1, 0);
      while nx < MinI(p.x + 2, w)
        invariant MaxI(p.x - 1, 0) <= nx <= MinI(p.x + 2, w)
        invariant stack' == stack + pushed && Distinct(pushed)
        invariant forall q :: q in pushed ==> Adjacent(p, q) && IsSet(binary, q) && q !in marked
        invariant Mirrors(visited, marked + pushed)
        invariant forall q :: Adjacent(p, q) && IsSet(binary, q) && (q.y < ny || (q.y == ny && q.x < nx))
                    ==> q in marked + pushed
      {
        if binary[ny, nx] && !visited[ny, nx] {
          visited[ny, nx] := true;
          stack' := stack' + [Pixel(ny, nx)];
          pushed := pushed + [Pixel(ny, nx)];
          assert marked + pushed == (marked + pushed[..|pushed| - 1]) + [Pixel(ny, nx)];
        }
        nx := nx + 1;
      }
      ny := ny + 1;
    }
  }

  lemma ChainExtend(order: seq<Pixel>, p: Pixel, pushed: seq<Pixel>)
    requires ChainConnected(order) && p in order
    requires forall q :: q in pushed ==> Adjacent(p, q)
    ensures ChainConnected(order + pushed)
  {
    var s := order + pushed;
    forall k | 0 < k < |s| ensures Touches(s[..k], s[k]) {
      if k < |order| {
        assert s[..k] == order[..k] && s[k] == order[k];
        assert Touches(order[..k], order[k]);
      } else {
        assert s[k] == pushed[k - |order|];
        assert s[k] in pushed;
        var jp :| 0 <= jp < |order| && order[jp] == p;
        assert s[..k][jp] == p;
        assert p in s[..k] && Adjacent(p, s[k]);
      }
    }
  }

  /** Loop state of one flood fill. */
  ghost predicate FillInv(binary: array2<bool>, seed: Pixel, seen: seq<Pixel>,
                          comp: seq<Pixel>, stack: seq<Pixel>, popped: seq<Pixel>)
    reads binary
  {
    comp != [] && comp[0] == seed && Distinct(comp) && ChainConnected(comp)
    && (forall p :: p in comp ==> IsSet(binary, p) && p !in seen)
    && Distinct(stack)
    && (forall p :: p in stack ==> p in comp && p !in popped)
    && (forall p :: p in comp ==> p in stack || p in popped)
    && (forall p :: p in popped ==> p in comp)
    && (forall p, q :: p in popped && Adjacent(p, q) && IsSet(binary, q) ==> q in seen + comp)
  }

  /** The pixels found by one fill so far form a chain and appear once. */
  lemma FillStepChain(comp: seq<Pixel>, top: Pixel, pushed: seq<Pixel>, seen: seq<Pixel>)
    requires Distinct(comp) && ChainConnected(comp) && top in comp && Distinct(pushed)
    requires forall q :: q in pushed ==> Adjacent(top, q) && q !in seen + comp
    ensures Distinct(comp + pushed) && ChainConnected(comp + pushed)
  {
    ChainExtend(comp, top, pushed);
    DistinctAppend(comp, pushed);
  }

  /** Every popped pixel has all its set neighbours found. */
  lemma FillStepClosed(binary: array2<bool>, seen: seq<Pixel>, comp: seq<Pixel>,
                       popped: seq<Pixel>, top: Pixel, pushed: seq<Pixel>)
    requires forall p, q :: p in popped && Adjacent(p, q) && IsSet(binary, q) ==> q in seen + comp
    requires forall q :: Adjacent(top, q) && IsSet(binary, q) ==> q in (seen + comp) + pushed
    ensures forall p, q :: p in popped + [top] && Adjacent(p, q) && IsSet(binary, q) ==> q in seen + (comp + pushed)
  {
    AppendAssoc(seen, comp, pushed);
  }

  /** Popping `top` and pushing `pushed` keeps stack and popped a partition of the found pixels. */
  lemma FillStepStack(comp: seq<Pixel>, stack: seq<Pixel>, popped: seq<Pixel>, pushed: seq<Pixel>, seen: seq<Pixel>)
    requires stack != [] && Distinct(stack) && Distinct(pushed)
    requires forall p :: p in stack ==> p in comp && p !in popped
    requires forall p :: p in comp ==> p in stack || p in popped
    requires forall p :: p in popped ==> p in comp
    requires forall q :: q in pushed ==> q !in seen + comp
    ensures Distinct(stack[..|stack| - 1] + pushed)
    ensures forall p :: p in stack[..|stack| - 1] + pushed ==> p in comp + pushed && p !in popped + [stack[|stack| - 1]]
    ensures forall p :: p in comp + pushed ==> p in stack[..|stack| - 1] + pushed || p in popped + [stack[|stack| - 1]]
    ensures forall p :: p in popped + [stack[|stack| - 1]] ==> p in comp + pushed
  {
    var top, rest := stack[|stack| - 1], stack[..|stack| - 1];
    assert stack == rest + [top];
    assert top !in rest;
    DistinctAppend(rest, pushed);
  }

  /** One iteration of the fill loop: pop `top`, push its fresh set neighbours. */
  lemma FillStep(binary: array2<bool>, seed: Pixel, seen: seq<Pixel>, comp: seq<Pixel>,
                 stack: seq<Pixel>, popped: seq<Pixel>, pushed: seq<Pixel>)
    requires FillInv(binary, seed, seen, comp, stack, popped) && stack != []
    requires Distinct(pushed)
    requires forall q :: q in pushed ==> Adjacent(stack[|stack| - 1], q) && IsSet(binary, q) && q !in seen + comp
    requires forall q :: Adjacent(stack[|stack| - 1], q) && IsSet(binary, q) ==> q in (seen + comp) + pushed
    ensures FillInv(binary, seed, seen, comp + pushed, stack[..|stack| - 1] + pushed, popped + [stack[|stack| - 1]])
  {
    var top := stack[|stack| - 1];
    assert top in stack;
    FillStepChain(comp, top, pushed, seen);
    FillStepClosed(binary, seen, comp, popped, top, pushed);
    FillStepStack(comp, stack, popped, pushed, seen);
  }

  lemma FillInit(binary: array2<bool>, seed: Pixel, seen: seq<Pixel>)
    requires IsSet(binary, seed) && seed !in seen
    ensures FillInv(binary, seed, seen, [seed], [seed], [])
  {
  }

  lemma FillDone(binary: array2<bool>, seed: Pixel, seen: seq<Pixel>, comp: seq<Pixel>, popped: seq<Pixel>)
    requires FillInv(binary, seed, seen, comp, [], popped)
    ensures forall p, q :: p in comp && Adjacent(p, q) && IsSet(binary, q) ==> q in comp || q in seen
    ensures forall p :: p in [seed] + popped <==> p in comp
  {
  }

  /**
   * One iteration of the flood fill: pops the top pixel, grows the bounds by it
   * and pushes its unvisited set neighbours.  Either new pixels were found (so
   * fewer unvisited pixels remain) or the stack became shorter.
   */
  method FillPop(binary: array2<bool>, visited: array2<bool>, seed: Pixel, ghost seen: seq<Pixel>,
                 stack: seq<Pixel>, bx: Box, ghost comp: seq<Pixel>, ghost popped: seq<Pixel>)
    returns (stack': seq<Pixel>, bx': Box, ghost comp': seq<Pixel>, ghost popped': seq<Pixel>)
    requires binary != visited
    requires binary.Length0 == visited.Length0 && binary.Length1 == visited.Length1
    requires stack != [] && FillInv(binary, seed, seen, comp, stack, popped)
    requires Mirrors(visited, seen + comp) && TightBox(bx, [seed] + popped)
    modifies visited
    ensures FillInv(binary, seed, seen, comp', stack', popped')
    ensures Mirrors(visited, seen + comp') && TightBox(bx', [seed] + popped')
    ensures |Remaining(binary.Length0, binary.Length1, seen + comp')|
              < |Remaining(binary.Length0, binary.Length1, seen + comp)|
            || (comp' == comp && |stack'| < |stack|)
  {
    var h, w := binary.Length0, binary.Length1;
    var top := stack[|stack| - 1];
    stack' := stack[..|stack| - 1];
    ghost var marked := seen + comp;
    PopTop(binary, seed, seen, comp, stack, popped, bx);
    bx' := Grow(bx, top);
    ghost var pushed;
    stack', pushed := PushNeighbours(binary, visited, top, stack', marked);
    FillStep(binary, seed, seen, comp, stack, popped, pushed);
    popped' := popped + [top];
    comp' := comp + pushed;
    PopProgress(h, w, seen, comp, pushed);
  }

  /** The popped pixel is a found, set pixel, and growing the box by it keeps the box tight. */
  lemma PopTop(binary: array2<bool>, seed: Pixel, seen: seq<Pixel>, comp: seq<Pixel>, stack: seq<Pixel>,
               popped: seq<Pixel>, bx: Box)
    requires stack != [] && FillInv(binary, seed, seen, comp, stack, popped) && TightBox(bx, [seed] + popped)
    ensures var top := stack[|stack| - 1];
            top in seen + comp && IsSet(binary, top) && TightBox(Grow(bx, top), [seed] + (popped + [top]))
  {
    var top := stack[|stack| - 1];
    assert top in stack && top in comp;
    GrowTight(bx, [seed] + popped, top);
    assert [seed] + popped + [top] == [seed] + (popped + [top]);
  }

  /** Pushing at least one unmarked pixel leaves fewer pixels unmarked. */
  lemma PopProgress(h: int, w: int, seen: seq<Pixel>, comp: seq<Pixel>, pushed: seq<Pixel>)
    requires forall q :: q in pushed ==> InGrid(q, h, w) && q !in seen + comp
    ensures (seen + comp) + pushed == seen + (comp + pushed)
    ensures pushed == [] ==> comp + pushed == comp
    ensures pushed != [] ==> |Remaining(h, w, seen + (comp + pushed))| < |Remaining(h, w, seen + comp)|
  {
    AppendAssoc(seen, comp, pushed);
    if pushed != [] {
      assert pushed[0] in pushed;
      RemainingShrinks(h, w, seen + comp, pushed);
    }
  }

  /**
   * One flood fill from `seed`: pops pixels until the stack is empty, grows
   * the min/max bounds by each popped pixel and pushes its unvisited set
   * neighbours.  `comp` is the discovery order of the pixels it visits.
   */
  method Fill(binary: array2<bool>, visited: array2<bool>, seed: Pixel, ghost seen: seq<Pixel>)
    returns (bx: Box, ghost comp: seq<Pixel>)
    requires binary != visited
    requires binary.Length0 == visited.Length0 && binary.Length1 == visited.Length1
    requires Mirrors(visited, seen) && IsSet(binary, seed) && seed !in seen
    modifies visited
    ensures comp != [] && comp[0] == seed && Distinct(comp) && ChainConnected(comp)
    ensures forall p :: p in comp ==> IsSet(binary, p) && p !in seen
    ensures Mirrors(visited, seen + comp)
    ensures forall p, q :: p in comp && Adjacent(p, q) && IsSet(binary, q) ==> q in comp || q in seen
    ensures TightBox(bx, comp)
  {
    var stack := [seed];
    visited[seed.y, seed.x] := true;
    bx := Box(seed.x, seed.y, seed.x + 1, seed.y + 1);
    comp := [seed];
    ghost var popped: seq<Pixel> := [];
    FillInit(binary, seed, seen);
    assert TightBox(bx, [seed] + popped) by { assert seed in [seed] + popped; }
    while stack != []
      invariant FillInv(binary, seed, seen, comp, stack, popped)
      invariant Mirrors(visited, seen + comp)
      invariant TightBox(bx, [seed] + popped)
      decreases |Remaining(binary.Length0, binary.Length1, seen + comp)|, |stack|
    {
      stack, bx, comp, popped := FillPop(binary, visited, seed, seen, stack, bx, comp, popped);
    }
    FillDone(binary, seed, seen, comp, popped);
    TightSameElems(bx, [seed] + popped, comp);
  }

  /** Each recorded component is a whole component with its tight box. */
  ghost predicate ScanComponents(binary: array2<bool>, comps: seq<seq<Pixel>>, all: seq<Box>)
    reads binary
  {
    |all| == |comps| && forall i :: 0 <= i < |comps| ==> Component(binary, comps[i]) && TightBox(all[i], comps[i])
  }

  /** Every set pixel before `cur` belongs to a recorded component. */
  ghost predicate ScanCovered(binary: array2<bool>, comps: seq<seq<Pixel>>, cur: Pixel)
    reads binary
  {
    forall p :: IsSet(binary, p) && Before(p, cur) ==> p in Flatten(comps)
  }

  /** Every component was seeded before `cur`. */
  predicate SeedsBefore(comps: seq<seq<Pixel>>, cur: Pixel) {
    forall i :: 0 <= i < |comps| ==> comps[i] != [] && Before(comps[i][0], cur)
  }

  /** Components are recorded in the scan order of their seeds. */
  predicate SeedsOrdered(comps: seq<seq<Pixel>>) {
    forall i, j :: 0 <= i < j < |comps| ==> comps[i] != [] && comps[j] != [] && Before(comps[i][0], comps[j][0])
  }

  /** Each component's seed is its first pixel in scan order. */
  predicate SeedsFirst(comps: seq<seq<Pixel>>) {
    forall i, p :: 0 <= i < |comps| && p in comps[i] ==> comps[i] != [] && (p == comps[i][0] || Before(comps[i][0], p))
  }

  /** The state of the row-major scan just before visiting pixel `cur`. */
  ghost predicate ScanInv(binary: array2<bool>, comps: seq<seq<Pixel>>,
                          all: seq<Box>, boxes: seq<Box>, minArea: int, cur: Pixel)
    reads binary
  {
    ScanComponents(binary, comps, all) && boxes == Kept(all, minArea) && Distinct(Flatten(comps))
    && ScanCovered(binary, comps, cur) && SeedsBefore(comps, cur) && SeedsOrdered(comps) && SeedsFirst(comps)
  }

  /** Recording the component grown from the unvisited set pixel `cur` keeps the scan state. */
  lemma AddComponent(binary: array2<bool>, comps: seq<seq<Pixel>>,
                     all: seq<Box>, boxes: seq<Box>, minArea: int, cur: Pixel,
                     comp: seq<Pixel>, bx: Box)
    requires ScanInv(binary, comps, all, boxes, minArea, cur)
    requires IsSet(binary, cur) && cur !in Flatten(comps)
    requires comp != [] && comp[0] == cur && Distinct(comp) && ChainConnected(comp)
    requires forall p :: p in comp ==> IsSet(binary, p) && p !in Flatten(comps)
    requires forall p, q :: p in comp && Adjacent(p, q) && IsSet(binary, q) ==> q in comp || q in Flatten(comps)
    requires TightBox(bx, comp)
    ensures Flatten(comps + [comp]) == Flatten(comps) + comp
    ensures ScanInv(binary, comps + [comp], all + [bx],
                    boxes + (if bx.Area() >= minArea then [bx] else []), minArea, Pixel(cur.y, cur.x + 1))
  {
    var comps' := comps + [comp];
    var all' := all + [bx];
    assert comps'[..|comps'| - 1] == comps;
    assert all'[..|all'| - 1] == all;
    DistinctAppend(Flatten(comps), comp);
    NewComponentClosed(binary, comps, comp);
    ComponentsExtend(binary, comps, all, comp, bx);
    CoverageExtend(binary, comps, cur, comp);
    SeedsExtend(comps, cur, comp);
    SeedsFirstExtend(binary, comps, cur, comp);
  }

  lemma ComponentsExtend(binary: array2<bool>, comps: seq<seq<Pixel>>, all: seq<Box>, comp: seq<Pixel>, bx: Box)
    requires ScanComponents(binary, comps, all)
    requires Component(binary, comp) && TightBox(bx, comp)
    ensures ScanComponents(binary, comps + [comp], all + [bx])
  {
    var comps', all' := comps + [comp], all + [bx];
    forall i | 0 <= i < |comps'| ensures Component(binary, comps'[i]) && TightBox(all'[i], comps'[i]) {
      if i < |comps| { assert comps'[i] == comps[i] && all'[i] == all[i]; }
    }
  }

  lemma CoverageExtend(binary: array2<bool>, comps: seq<seq<Pixel>>, cur: Pixel, comp: seq<Pixel>)
    requires ScanCovered(binary, comps, cur)
    requires comp != [] && comp[0] == cur
    ensures ScanCovered(binary, comps + [comp], Pixel(cur.y, cur.x + 1))
  {
    assert (comps + [comp])[..|comps|] == comps;
    forall p | IsSet(binary, p) && Before(p, Pixel(cur.y, cur.x + 1)) ensures p in Flatten(comps + [comp]) {
      if p == cur { assert p in comp; }
    }
  }

  lemma SeedsExtend(comps: seq<seq<Pixel>>, cur: Pixel, comp: seq<Pixel>)
    requires SeedsBefore(comps, cur) && SeedsOrdered(comps)
    requires comp != [] && comp[0] == cur
    ensures SeedsBefore(comps + [comp], Pixel(cur.y, cur.x + 1))
    ensures SeedsOrdered(comps + [comp])
  {
    var comps' := comps + [comp];
    forall i | 0 <= i < |comps'| ensures comps'[i] != [] && Before(comps'[i][0], Pixel(cur.y, cur.x + 1)) {
      if i < |comps| { assert comps'[i] == comps[i]; }
    }
    forall i, j | 0 <= i < j < |comps'|
      ensures comps'[i] != [] && comps'[j] != [] && Before(comps'[i][0], comps'[j][0])
    {
      assert comps'[i] == comps[i];
      if j < |comps| { assert comps'[j] == comps[j]; }
    }
  }

  /** The new component's pixels are all at or after its seed, since the scan has covered everything before it. */
  lemma SeedsFirstExtend(binary: array2<bool>, comps: seq<seq<Pixel>>, cur: Pixel, comp: seq<Pixel>)
    requires SeedsFirst(comps) && ScanCovered(binary, comps, cur)
    requires comp != [] && comp[0] == cur
    requires forall p :: p in comp ==> IsSet(binary, p) && p !in Flatten(comps)
    ensures SeedsFirst(comps + [comp])
  {
    var comps' := comps + [comp];
    forall i, p | 0 <= i < |comps'| && p in comps'[i]
      ensures comps'[i] != [] && (p == comps'[i][0] || Before(comps'[i][0], p))
    {
      if i < |comps| {
        assert comps'[i] == comps[i];
      } else {
        assert comps'[i] == comp;
      }
    }
  }

  /** A fill that stops only at pixels of earlier components is itself closed. */
  lemma NewComponentClosed(binary: array2<bool>, comps: seq<seq<Pixel>>, comp: seq<Pixel>)
    requires forall i :: 0 <= i < |comps| ==> Closed(binary, comps[i])
    requires forall p :: p in comp ==> IsSet(binary, p) && p !in Flatten(comps)
    requires forall p, q :: p in comp && Adjacent(p, q) && IsSet(binary, q) ==> q in comp || q in Flatten(comps)
    ensures Closed(binary, comp)
  {
    forall p, q | p in comp && Adjacent(p, q) && IsSet(binary, q) ensures q in comp {
      if q !in comp {
        InFlatten(comps, q);
        var i :| 0 <= i < |comps| && q in comps[i];
        assert Adjacent(q, p) && IsSet(binary, p);
        assert p in comps[i];
        InFlatten(comps, p);
      }
    }
  }

  /** Moving the scan to the next pixel once `cur` is handled. */
  lemma Advance(binary: array2<bool>, comps: seq<seq<Pixel>>,
                all: seq<Box>, boxes: seq<Box>, minArea: int, cur: Pixel)
    requires ScanInv(binary, comps, all, boxes, minArea, cur)
    requires IsSet(binary, cur) ==> cur in Flatten(comps)
    ensures ScanInv(binary, comps, all, boxes, minArea, Pixel(cur.y, cur.x + 1))
  {
    var next := Pixel(cur.y, cur.x + 1);
    assert ScanCovered(binary, comps, next) by {
      forall p | IsSet(binary, p) && Before(p, next) ensures p in Flatten(comps) {
        if p != cur { assert Before(p, cur); }
      }
    }
    assert SeedsBefore(comps, next) by {
      forall i | 0 <= i < |comps| ensures comps[i] != [] && Before(comps[i][0], next) {
        assert Before(comps[i][0], cur);
      }
    }
  }

  /** Moving the scan from the end of row y to the start of row y + 1. */
  lemma NextRow(binary: array2<bool>, comps: seq<seq<Pixel>>,
                all: seq<Box>, boxes: seq<Box>, minArea: int, y: int)
    requires ScanInv(binary, comps, all, boxes, minArea, Pixel(y, binary.Length1))
    ensures ScanInv(binary, comps, all, boxes, minArea, Pixel(y + 1, 0))
  {
    var end, next := Pixel(y, binary.Length1), Pixel(y + 1, 0);
    assert ScanCovered(binary, comps, next) by {
      forall p | IsSet(binary, p) && Before(p, next) ensures p in Flatten(comps) {
        assert Before(p, end);
      }
    }
    assert SeedsBefore(comps, next) by {
      forall i | 0 <= i < |comps| ensures comps[i] != [] && Before(comps[i][0], next) {
        assert Before(comps[i][0], end);
      }
    }
  }

  /**
   * A set pixel the scan has not visited yet seeds a flood fill; its box is
   * recorded, and kept when its area reaches `minArea`.
   */
  method NewComponent(binary: array2<bool>, visited: array2<bool>, cur: Pixel, minArea: int,
                      boxes: seq<Box>, ghost comps: seq<seq<Pixel>>, ghost all: seq<Box>)
    returns (boxes': seq<Box>, ghost comps': seq<seq<Pixel>>, ghost all': seq<Box>)
    requires binary != visited
    requires binary.Length0 == visited.Length0 && binary.Length1 == visited.Length1
    requires IsSet(binary, cur) && cur !in Flatten(comps)
    requires Mirrors(visited, Flatten(comps)) && ScanInv(binary, comps, all, boxes, minArea, cur)
    modifies visited
    ensures Mirrors(visited, Flatten(comps')) && ScanInv(binary, comps', all', boxes', minArea, Pixel(cur.y, cur.x + 1))
  {
    var bx, comp := Fill(binary, visited, cur, Flatten(comps));
    AddComponent(binary, comps, all, boxes, minArea, cur, comp, bx);
    comps' := comps + [comp];
    all' := all + [bx];
    boxes' := boxes + (if bx.Area() >= minArea then [bx] else []);
  }

  /** One step of the row-major scan at pixel `cur`. */
  method Visit(binary: array2<bool>, visited: array2<bool>, cur: Pixel, minArea: int,
               boxes: seq<Box>, ghost comps: seq<seq<Pixel>>, ghost all: seq<Box>)
    returns (boxes': seq<Box>, ghost comps': seq<seq<Pixel>>, ghost all': seq<Box>)
    requires binary != visited
    requires binary.Length0 == visited.Length0 && binary.Length1 == visited.Length1
    requires InGrid(cur, binary.Length0, binary.Length1)
    requires Mirrors(visited, Flatten(comps)) && ScanInv(binary, comps, all, boxes, minArea, cur)
    modifies visited
    ensures Mirrors(visited, Flatten(comps')) && ScanInv(binary, comps', all', boxes', minArea, Pixel(cur.y, cur.x + 1))
  {
    if binary[cur.y, cur.x] && !visited[cur.y, cur.x] {
      boxes', comps', all' := NewComponent(binary, visited, cur, minArea, boxes, comps, all);
    } else {
      boxes', comps', all' := boxes, comps, all;
      Advance(binary, comps, all, boxes, minArea, cur);
    }
  }

  /** Scans row `y` from left to right. */
  method ScanRow(binary: array2<bool>, visited: array2<bool>, y: int, minArea: int,
                 boxes: seq<Box>, ghost comps: seq<seq<Pixel>>, ghost all: seq<Box>)
    returns (boxes': seq<Box>, ghost comps': seq<seq<Pixel>>, ghost all': seq<Box>)
    requires binary != visited
    requires binary.Length0 == visited.Length0 && binary.Length1 == visited.Length1
    requires 0 <= y < binary.Length0
    requires Mirrors(visited, Flatten(comps)) && ScanInv(binary, comps, all, boxes, minArea, Pixel(y, 0))
    modifies visited
    ensures Mirrors(visited, Flatten(comps')) && ScanInv(binary, comps', all', boxes', minArea, Pixel(y + 1, 0))
  {
    boxes', comps', all' := boxes, comps, all;
    var x := 0;
    while x < binary.Length1
      invariant 0 <= x <= binary.Length1
      invariant Mirrors(visited, Flatten(comps')) && ScanInv(binary, comps', all', boxes', minArea, Pixel(y, x))
    {
      boxes', comps', all' := Visit(binary, visited, Pixel(y, x), minArea, boxes', comps', all');
      x := x + 1;
    }
    NextRow(binary, comps', all', boxes', minArea, y);
  }

  /** After the last row every set pixel is in exactly one component. */
  lemma ScanDone(binary: array2<bool>, comps: seq<seq<Pixel>>, all: seq<Box>, boxes: seq<Box>, minArea: int)
    requires ScanInv(binary, comps, all, boxes, minArea, Pixel(binary.Length0, 0))
    ensures |all| == |comps| && boxes == Kept(all, minArea)
    ensures forall i :: 0 <= i < |comps| ==> Component(binary, comps[i]) && TightBox(all[i], comps[i])
    ensures Distinct(Flatten(comps))
    ensures forall p :: IsSet(binary, p) <==> p in Flatten(comps)
    ensures forall i, p :: 0 <= i < |comps| && p in comps[i] ==>
              comps[i] != [] && (p == comps[i][0] || Before(comps[i][0], p))
    ensures forall i, j :: 0 <= i < j < |comps| ==>
              comps[i] != [] && comps[j] != [] && Before(comps[i][0], comps[j][0])
  {
    forall p | p in Flatten(comps) ensures IsSet(binary, p) {
      InFlatten(comps, p);
    }
  }

  /**
   * Labels the 8-connected components of `binary`.  `comps` are the
   * components in scan order, each in discovery order, and `all` their tight
   * bounding boxes; `Flatten(comps)` lists every set pixel exactly once.  The
   * result keeps the boxes whose bounding-box area (not pixel count) reaches
   * `minArea`.
   */
  method LabelComponents(binary: array2<bool>, minArea: int)
    returns (boxes: seq<Box>, ghost comps: seq<seq<Pixel>>, ghost all: seq<Box>)
    ensures |all| == |comps| && boxes == Kept(all, minArea)
    ensures forall i :: 0 <= i < |comps| ==> Component(binary, comps[i]) && TightBox(all[i], comps[i])
    ensures Distinct(Flatten(comps))
    ensures forall p :: IsSet(binary, p) <==> p in Flatten(comps)
    ensures forall i, p :: 0 <= i < |comps| && p in comps[i] ==>
              comps[i] != [] && (p == comps[i][0] || Before(comps[i][0], p))
    ensures forall i, j :: 0 <= i < j < |comps| ==>
              comps[i] != [] && comps[j] != [] && Before(comps[i][0], comps[j][0])
  {
    var visited := new bool[binary.Length0, binary.Length1]((_, _) => false);
    boxes, comps, all := [], [], [];
    var y := 0;
    while y < binary.Length0
      invariant 0 <= y <= binary.Length0
      invariant Mirrors(visited, Flatten(comps)) && ScanInv(binary, comps, all, boxes, minArea, Pixel(y, 0))
    {
      boxes, comps, all := ScanRow(binary, visited, y, minArea, boxes, comps, all);
      y := y + 1;
    }
    ScanDone(binary, comps, all, boxes, minArea);
  }

  /** A component's tight box lies in the raster and holds at least one pixel. */
  lemma TightInRaster(binary: array2<bool>, c: seq<Pixel>, b: Box)
    requires Component(binary, c) && TightBox(b, c)
    ensures 0 <= b.x0 < b.x1 <= binary.Length1 && 0 <= b.y0 < b.y1 <= binary.Length0
  {
    var p :| p in c && p.x == b.x0;
    var q :| q in c && q.x == b.x1 - 1;
    var u :| u in c && u.y == b.y0;
    var v :| v in c && v.y == b.y1 - 1;
    assert IsSet(binary, p) && IsSet(binary, q) && IsSet(binary, u) && IsSet(binary, v);
  }

  /** The boxes kept by the flood fill lie in the raster and reach the area limit. */
  lemma KeptBoxes(binary: array2<bool>, boxes: seq<Box>, comps: seq<seq<Pixel>>, all: seq<Box>, minArea: int)
    requires |all| == |comps| && boxes == Kept(all, minArea)
    requires forall i :: 0 <= i < |comps| ==> Component(binary, comps[i]) && TightBox(all[i], comps[i])
    ensures forall b :: b in boxes ==> exists i :: 0 <= i < |comps| && TightBox(b, comps[i])
    ensures forall b :: b in boxes ==>
              0 <= b.x0 < b.x1 <= binary.Length1 && 0 <= b.y0 < b.y1 <= binary.Length0 && b.Area() >= minArea
  {
    KeptSpec(all, minArea);
    forall b | b in boxes
      ensures (exists i :: 0 <= i < |comps| && TightBox(b, comps[i]))
              && 0 <= b.x0 < b.x1 <= binary.Length1 && 0 <= b.y0 < b.y1 <= binary.Length0 && b.Area() >= minArea
    {
      var i :| 0 <= i < |all| && all[i] == b;
      TightInRaster(binary, comps[i], b);
    }
  }

  /** A component holds a set pixel, so a raster with components has one. */
  lemma SomePixelSet(binary: array2<bool>, comps: seq<seq<Pixel>>)
    requires forall i :: 0 <= i < |comps| ==> Component(binary, comps[i])
    ensures comps != [] ==> exists y, x :: 0 <= y < binary.Length0 && 0 <= x < binary.Length1 && binary[y, x]
  {
    if comps != [] {
      assert IsSet(binary, comps[0][0]);
    }
  }
}

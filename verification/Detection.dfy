/** Detection post-processing: greedy per-class suppression of overlapping boxes
    (YOLO_MODEL/cpp/trt_engine.cpp). */
module Detection {
  import opened Numbers

  datatype RawBox = RawBox(x1: real, y1: real, x2: real, y2: real, conf: real, cls: int)

  function Inter(a: RawBox, b: RawBox): real {
    Max(0.0, Min(a.x2, b.x2) - Max(a.x1, b.x1)) * Max(0.0, Min(a.y2, b.y2) - Max(a.y1, b.y1))
  }

  function Area(a: RawBox): real {
    Max(0.0, a.x2 - a.x1) * Max(0.0, a.y2 - a.y1)
  }

  /** Intersection over union. */
  function Iou(a: RawBox, b: RawBox): real {
    var union := Area(a) + Area(b) - Inter(a, b);
    if union > 0.0 then Inter(a, b) / union else 0.0
  }

  lemma IouSymmetric(a: RawBox, b: RawBox)
    ensures Iou(a, b) == Iou(b, a)
  {
    hide Inter, Area;
    InterSymmetric(a, b);
  }

  lemma ProductMonotone(a: real, b: real, c: real, d: real)
    requires 0.0 <= a <= c && 0.0 <= b <= d
    ensures 0.0 <= a * b <= c * d
  {
    assert a * b <= a * d;
    assert a * d <= c * d;
  }

  lemma InterWithin(a: RawBox, b: RawBox)
    ensures 0.0 <= Inter(a, b) <= Area(a)
  {
    ProductMonotone(Max(0.0, Min(a.x2, b.x2) - Max(a.x1, b.x1)), Max(0.0, Min(a.y2, b.y2) - Max(a.y1, b.y1)),
                    Max(0.0, a.x2 - a.x1), Max(0.0, a.y2 - a.y1));
  }

  lemma RatioRange(i: real, u: real)
    requires 0.0 <= i <= u && u > 0.0
    ensures 0.0 <= i / u <= 1.0
  {
  }

  /** The overlap measure is symmetric, lies in [0, 1], and is 1 for a box of positive area
      against itself. */
  lemma IouIsRatio(a: RawBox, b: RawBox)
    ensures 0.0 <= Iou(a, b) <= 1.0 && Iou(a, b) == Iou(b, a)
    ensures Area(a) > 0.0 ==> Iou(a, a) == 1.0
  {
    hide Inter, Area;
    IouSymmetric(a, b);
    InterWithin(a, b);
    InterWithin(b, a);
    SelfInter(a);
    var union := Area(a) + Area(b) - Inter(a, b);
    assert Inter(a, b) == Inter(b, a) by { InterSymmetric(a, b); }
    if union > 0.0 {
      RatioRange(Inter(a, b), union);
    }
  }

  lemma InterSymmetric(a: RawBox, b: RawBox)
    ensures Inter(a, b) == Inter(b, a)
  {
  }

  lemma SelfInter(a: RawBox)
    ensures Inter(a, a) == Area(a)
  {
  }

  /** Box a, once kept, drops b. */
  predicate Suppresses(a: RawBox, b: RawBox, thres: real) {
    a.cls == b.cls && Iou(a, b) > thres
  }

  predicate SortedByConf(boxes: seq<RawBox>) {
    forall i, j :: 0 <= i < j < |boxes| ==> boxes[i].conf >= boxes[j].conf
  }

  // ---------- The specification: keep the best, drop what it covers, repeat

  function Surviving(boxes: seq<RawBox>, best: RawBox, thres: real): (r: seq<RawBox>)
    ensures |r| <= |boxes|
  {
    if boxes == [] then []
    else (if Suppresses(best, boxes[0], thres) then [] else [boxes[0]]) + Surviving(boxes[1..], best, thres)
  }

  function Greedy(boxes: seq<RawBox>, thres: real): seq<RawBox>
    decreases |boxes|
  {
    if boxes == [] then [] else [boxes[0]] + Greedy(Surviving(boxes[1..], boxes[0], thres), thres)
  }

  // ---------- The program

  /** std::sort by descending confidence; the order of equal confidences is unspecified, so
      callers rely on nothing but this contract. */
  method SortByConf(boxes: seq<RawBox>) returns (sorted: seq<RawBox>)
    ensures SortedByConf(sorted) && multiset(sorted) == multiset(boxes)
  {
    hide SortedByConf;
    sorted := [];
    NoneSorted();
    for i := 0 to |boxes|
      invariant SortedByConf(sorted) && multiset(sorted) == multiset(boxes[..i])
    {
      var b := boxes[i];
      var j := 0;
      while j < |sorted| && sorted[j].conf >= b.conf
        invariant 0 <= j <= |sorted|
        invariant forall k :: 0 <= k < j ==> sorted[k].conf >= b.conf
      {
        j := j + 1;
      }
      InsertSorted(sorted, b, j);
      InsertCounts(boxes, i, sorted, j);
      sorted := sorted[..j] + [b] + sorted[j..];
    }
    assert boxes[..|boxes|] == boxes;
  }

  lemma NoneSorted()
    ensures SortedByConf([])
  {
  }

  lemma InsertCounts(boxes: seq<RawBox>, i: nat, sorted: seq<RawBox>, j: nat)
    requires i < |boxes| && j <= |sorted| && multiset(sorted) == multiset(boxes[..i])
    ensures multiset(sorted[..j] + [boxes[i]] + sorted[j..]) == multiset(boxes[..i + 1])
  {
    assert sorted == sorted[..j] + sorted[j..];
    assert boxes[..i + 1] == boxes[..i] + [boxes[i]];
  }

  lemma InsertSorted(sorted: seq<RawBox>, b: RawBox, j: nat)
    requires SortedByConf(sorted) && j <= |sorted|
    requires forall k :: 0 <= k < j ==> sorted[k].conf >= b.conf
    requires j < |sorted| ==> b.conf >= sorted[j].conf
    ensures SortedByConf(sorted[..j] + [b] + sorted[j..])
  {
  }

  /** The boxes from index i on that are not removed. */
  ghost function Left(boxes: seq<RawBox>, removed: seq<bool>, i: nat): seq<RawBox>
    requires |removed| == |boxes| && i <= |boxes|
    decreases |boxes| - i
  {
    if i == |boxes| then []
    else (if removed[i] then [] else [boxes[i]]) + Left(boxes, removed, i + 1)
  }

  /** One of the orders the sort may leave. */
  predicate IsSorting(sorted: seq<RawBox>, boxes: seq<RawBox>) {
    SortedByConf(sorted) && multiset(sorted) == multiset(boxes)
  }

  /** nms */
  method Nms(boxes: seq<RawBox>, thres: real) returns (kept: seq<RawBox>)
    ensures MayReturn(boxes, thres, kept)
  {
    hide Suppresses, Greedy, Left, Surviving, SortedByConf, Iou;
    var s := SortByConf(boxes);
    kept := [];
    var removed := new bool[|s|](_ => false);
    LeftAll(s, removed[..], 0);
    assert s[0..] == s;
    assert kept + Greedy(s, thres) == Greedy(s, thres);
    for i := 0 to |s|
      invariant kept + Greedy(Left(s, removed[..], i), thres) == Greedy(s, thres)
    {
      ghost var flags := removed[..];
      GreedyStep(s, flags, i, thres);
      if removed[i] {
        continue;
      }
      ghost var before := kept;
      kept := kept + [s[i]];
      for j := i + 1 to |s|
        invariant forall k :: 0 <= k <= i ==> removed[k] == flags[k]
        invariant forall k :: i < k < j ==> (removed[k] <==> flags[k] || Suppresses(s[i], s[k], thres))
        invariant forall k :: j <= k < |s| ==> removed[k] == flags[k]
      {
        SuppressesIs(s[i], s[j], thres);
        if removed[j] || s[j].cls != s[i].cls {
          continue;
        }
        if Iou(s[i], s[j]) > thres {
          removed[j] := true;
        }
      }
      ghost var after := removed[..];
      LeftSurviving(s, flags, after, i + 1, s[i], thres);
      ghost var more := Greedy(Left(s, after, i + 1), thres);
      assert before + ([s[i]] + more) == kept + more;
    }
    LeftStep(s, removed[..], |s|);
    NothingLeft(thres);
    assert kept + [] == kept;
    assert IsSorting(s, boxes);
  }

  lemma SuppressesIs(a: RawBox, b: RawBox, thres: real)
    ensures Suppresses(a, b, thres) <==> b.cls == a.cls && Iou(a, b) > thres
  {
  }

  lemma GreedyStep(s: seq<RawBox>, flags: seq<bool>, i: nat, thres: real)
    requires |flags| == |s| && i < |s|
    ensures flags[i] ==> Left(s, flags, i) == Left(s, flags, i + 1)
    ensures !flags[i] ==>
      Greedy(Left(s, flags, i), thres) == [s[i]] + Greedy(Surviving(Left(s, flags, i + 1), s[i], thres), thres)
  {
    hide Suppresses, Surviving;
    var more := Left(s, flags, i + 1);
    if !flags[i] {
      assert ([s[i]] + more)[1..] == more;
    } else {
      assert [] + more == more;
    }
  }

  lemma {:induction false} LeftAll(s: seq<RawBox>, flags: seq<bool>, i: nat)
    requires |flags| == |s| && i <= |s| && forall k :: 0 <= k < |s| ==> !flags[k]
    ensures Left(s, flags, i) == s[i..]
    decreases |s| - i
  {
    if i < |s| {
      LeftAll(s, flags, i + 1);
      assert s[i..] == [s[i]] + s[i + 1..];
    }
  }

  lemma {:induction false} LeftSurviving(s: seq<RawBox>, flags: seq<bool>, after: seq<bool>, i: nat, best: RawBox, thres: real)
    requires |flags| == |after| == |s| && i <= |s|
    requires forall k :: i <= k < |s| ==> (after[k] <==> flags[k] || Suppresses(best, s[k], thres))
    ensures Left(s, after, i) == Surviving(Left(s, flags, i), best, thres)
    decreases |s| - i
  {
    hide Suppresses, Surviving, Left;
    LeftStep(s, flags, i);
    LeftStep(s, after, i);
    NothingLeft(thres);
    if i < |s| {
      LeftSurviving(s, flags, after, i + 1, best, thres);
      SurvivingCons(s[i], Left(s, flags, i + 1), best, thres);
    }
  }

  lemma LeftStep(s: seq<RawBox>, flags: seq<bool>, i: nat)
    requires |flags| == |s| && i <= |s|
    ensures Left(s, flags, i) ==
      if i == |s| then [] else if flags[i] then Left(s, flags, i + 1) else [s[i]] + Left(s, flags, i + 1)
  {
    if i < |s| {
      assert [] + Left(s, flags, i + 1) == Left(s, flags, i + 1);
    }
  }

  lemma NothingLeft(thres: real)
    ensures Greedy([], thres) == [] && forall best :: Surviving([], best, thres) == []
  {
  }

  lemma SurvivingCons(b: RawBox, more: seq<RawBox>, best: RawBox, thres: real)
    ensures Surviving([b] + more, best, thres)
         == if Suppresses(best, b, thres) then Surviving(more, best, thres) else [b] + Surviving(more, best, thres)
  {
    hide Suppresses;
    assert ([b] + more)[1..] == more;
    assert [] + Surviving(more, best, thres) == Surviving(more, best, thres);
  }

  // ---------- What survives one box

  lemma {:induction false} SurvivingIs(boxes: seq<RawBox>, best: RawBox, thres: real)
    ensures forall b :: b in Surviving(boxes, best, thres) <==> b in boxes && !Suppresses(best, b, thres)
    ensures multiset(Surviving(boxes, best, thres)) <= multiset(boxes)
    decreases boxes
  {
    hide Suppresses;
    if boxes != [] {
      SurvivingIs(boxes[1..], best, thres);
      assert boxes == [boxes[0]] + boxes[1..];
    }
  }

  lemma {:induction false} SurvivingSorted(boxes: seq<RawBox>, best: RawBox, thres: real)
    requires SortedByConf(boxes)
    ensures SortedByConf(Surviving(boxes, best, thres))
    decreases boxes
  {
    hide Suppresses;
    if boxes != [] {
      SurvivingSorted(boxes[1..], best, thres);
      SurvivingIs(boxes[1..], best, thres);
      HeadBest(boxes);
      SortedCons(boxes[0], Surviving(boxes[1..], best, thres));
    }
  }

  lemma HeadBest(boxes: seq<RawBox>)
    requires boxes != [] && SortedByConf(boxes)
    ensures SortedByConf(boxes[1..]) && forall b :: b in boxes[1..] ==> b.conf <= boxes[0].conf
  {
  }

  lemma SortedCons(b: RawBox, rest: seq<RawBox>)
    requires SortedByConf(rest) && forall x :: x in rest ==> x.conf <= b.conf
    ensures SortedByConf([b] + rest)
  {
    assert forall i :: 0 <= i < |rest| ==> rest[i] in rest;
  }

  // ---------- Main results

  /** MAIN: the kept boxes are a confidence-sorted sub-multiset of the input. */
  lemma {:induction false} KeptSorted(boxes: seq<RawBox>, thres: real)
    requires SortedByConf(boxes)
    ensures SortedByConf(Greedy(boxes, thres)) && multiset(Greedy(boxes, thres)) <= multiset(boxes)
    decreases |boxes|
  {
    hide Suppresses, Surviving, SortedByConf;
    if boxes == [] {
      NoneSorted();
    } else {
      var h, t := boxes[0], boxes[1..];
      var s := Surviving(t, h, thres);
      HeadBest(boxes);
      SurvivingSorted(t, h, thres);
      SurvivingIs(t, h, thres);
      KeptSorted(s, thres);
      var g := Greedy(s, thres);
      SubBag(g, s, t);
      SortedCons(h, g);
      assert boxes == [h] + t;
      assert multiset([h] + g) == multiset{h} + multiset(g);
    }
  }

  lemma SubBag(g: seq<RawBox>, s: seq<RawBox>, t: seq<RawBox>)
    requires multiset(g) <= multiset(s) <= multiset(t)
    ensures multiset(g) <= multiset(t) && forall b :: b in g ==> b in t
  {
    forall b | b in g
      ensures b in t
    {
      assert b in multiset(g) && b in multiset(s) && b in multiset(t);
    }
  }

  /** No box suppresses another one of the collection. */
  ghost predicate Disjoint(m: multiset<RawBox>, thres: real) {
    forall a, b :: a in m && b in m - multiset{a} ==> !Suppresses(a, b, thres)
  }

  /** MAIN: no two kept boxes of one class overlap above the threshold. */
  lemma {:induction false} KeptDisjoint(boxes: seq<RawBox>, thres: real)
    ensures Disjoint(multiset(Greedy(boxes, thres)), thres)
    ensures forall b :: b in Greedy(boxes, thres) ==> b in boxes
    decreases |boxes|
  {
    hide Iou, Surviving;
    if boxes != [] {
      var h := boxes[0];
      var s := Surviving(boxes[1..], h, thres);
      SurvivingIs(boxes[1..], h, thres);
      KeptDisjoint(s, thres);
      var g := Greedy(s, thres);
      assert forall b :: b in g ==> b in s;
      DisjointCons(h, g, thres);
    }
  }

  lemma DisjointCons(h: RawBox, g: seq<RawBox>, thres: real)
    requires Disjoint(multiset(g), thres) && forall b :: b in g ==> !Suppresses(h, b, thres)
    ensures Disjoint(multiset([h] + g), thres)
  {
    hide Iou;
    var m := multiset([h] + g);
    assert m == multiset{h} + multiset(g);
    forall a, b | a in m && b in m - multiset{a}
      ensures !Suppresses(a, b, thres)
    {
      IouSymmetric(a, b);
      if a == h {
        assert m - multiset{h} == multiset(g);
        assert b in g;
      } else if b == h {
        assert a in g;
      } else {
        assert a in multiset(g) && b in multiset(g) - multiset{a};
      }
    }
  }

  ghost predicate CoveredBy(x: RawBox, kept: seq<RawBox>, thres: real) {
    exists k :: k in kept && k.conf >= x.conf && Suppresses(k, x, thres)
  }

  /** MAIN: every input box is kept, or a kept box of its class with at least its confidence
      overlaps it above the threshold. */
  lemma {:induction false} DroppedCovered(boxes: seq<RawBox>, thres: real, x: RawBox)
    requires SortedByConf(boxes) && x in boxes
    ensures x in Greedy(boxes, thres) || CoveredBy(x, Greedy(boxes, thres), thres)
    decreases |boxes|
  {
    hide Suppresses, Surviving;
    var h := boxes[0];
    if x != h {
      assert x in boxes[1..];
      var s := Surviving(boxes[1..], h, thres);
      SurvivingIs(boxes[1..], h, thres);
      SurvivingSorted(boxes[1..], h, thres);
      if Suppresses(h, x, thres) {
        assert h in Greedy(boxes, thres);
      } else {
        DroppedCovered(s, thres, x);
        if x !in Greedy(s, thres) {
          var k :| k in Greedy(s, thres) && k.conf >= x.conf && Suppresses(k, x, thres);
          assert k in Greedy(boxes, thres);
        }
      }
    }
  }

  predicate StrictByConf(boxes: seq<RawBox>) {
    forall i, j :: 0 <= i < j < |boxes| ==> boxes[i].conf > boxes[j].conf
  }

  /** The two conditions that characterise the result among the subsets of the input. */
  ghost predicate Selection(kept: set<RawBox>, boxes: set<RawBox>, thres: real) {
    && kept <= boxes
    && (forall a, b :: a in kept && b in kept && a != b ==> !Suppresses(a, b, thres))
    && (forall x :: x in boxes && x !in kept ==> exists k :: k in kept && k.conf >= x.conf && Suppresses(k, x, thres))
  }

  function Elements(boxes: seq<RawBox>): set<RawBox> {
    set b | b in boxes
  }

  lemma {:induction false} SurvivingStrict(boxes: seq<RawBox>, best: RawBox, thres: real)
    requires StrictByConf(boxes)
    ensures StrictByConf(Surviving(boxes, best, thres))
    decreases boxes
  {
    hide Suppresses;
    if boxes != [] {
      SurvivingStrict(boxes[1..], best, thres);
      SurvivingIs(boxes[1..], best, thres);
      assert forall b :: b in boxes[1..] ==> b.conf < boxes[0].conf;
      var rest := Surviving(boxes[1..], best, thres);
      assert forall i :: 0 <= i < |rest| ==> rest[i] in rest;
    }
  }

  /** What remains of a selection once the best box is set aside. */
  lemma SelectionRest(kept: set<RawBox>, boxes: seq<RawBox>, thres: real)
    requires boxes != [] && StrictByConf(boxes) && Selection(kept, Elements(boxes), thres)
    ensures boxes[0] in kept
    ensures Selection(kept - {boxes[0]}, Elements(Surviving(boxes[1..], boxes[0], thres)), thres)
  {
    hide Iou, Surviving;
    var h := boxes[0];
    SurvivingIs(boxes[1..], h, thres);
    assert h in Elements(boxes);
    assert forall b :: b in boxes && b.conf >= h.conf ==> b == h;
    var rest := Elements(Surviving(boxes[1..], h, thres));
    forall a | a in kept - {h}
      ensures a in rest
    {
      assert a in boxes && a in boxes[1..];
    }
    forall x | x in rest && x !in kept - {h}
      ensures exists k :: k in kept - {h} && k.conf >= x.conf && Suppresses(k, x, thres)
    {
      assert x in boxes[1..];
      assert x in Elements(boxes) && x != h;
      var k :| k in kept && k.conf >= x.conf && Suppresses(k, x, thres);
      assert k != h;
    }
  }

  /** MAIN: with distinct confidences the kept set is the only selection. */
  lemma {:induction false} KeptUnique(boxes: seq<RawBox>, thres: real, kept: set<RawBox>)
    requires StrictByConf(boxes)
    ensures Selection(kept, Elements(boxes), thres) <==> kept == Elements(Greedy(boxes, thres))
    decreases |boxes|
  {
    hide Suppresses, Surviving;
    if Selection(kept, Elements(boxes), thres) {
      SelectionIsKept(boxes, thres, kept);
    }
    KeptIsSelection(boxes, thres);
  }

  lemma {:induction false} SelectionIsKept(boxes: seq<RawBox>, thres: real, kept: set<RawBox>)
    requires StrictByConf(boxes) && Selection(kept, Elements(boxes), thres)
    ensures kept == Elements(Greedy(boxes, thres))
    decreases |boxes|
  {
    hide Suppresses, Surviving;
    if boxes == [] {
      assert Elements(boxes) == {};
    } else {
      var h := boxes[0];
      var s := Surviving(boxes[1..], h, thres);
      SelectionRest(kept, boxes, thres);
      SurvivingStrict(boxes[1..], h, thres);
      SelectionIsKept(s, thres, kept - {h});
      assert Elements(Greedy(boxes, thres)) == {h} + Elements(Greedy(s, thres));
    }
  }

  lemma KeptIsSelection(boxes: seq<RawBox>, thres: real)
    requires StrictByConf(boxes)
    ensures Selection(Elements(Greedy(boxes, thres)), Elements(boxes), thres)
  {
    hide Suppresses, Greedy;
    KeptDisjoint(boxes, thres);
    var g := Greedy(boxes, thres);
    forall a, b | a in Elements(g) && b in Elements(g) && a != b
      ensures !Suppresses(a, b, thres)
    {
      assert a in multiset(g) && b in multiset(g) - multiset{a};
    }
    forall x | x in Elements(boxes) && x !in Elements(g)
      ensures exists k :: k in Elements(g) && k.conf >= x.conf && Suppresses(k, x, thres)
    {
      DroppedCovered(boxes, thres, x);
      var k :| k in g && k.conf >= x.conf && Suppresses(k, x, thres);
      assert k in Elements(g);
    }
  }

  lemma {:induction false} DisjointSurvive(boxes: seq<RawBox>, best: RawBox, thres: real)
    requires forall b :: b in boxes ==> !Suppresses(best, b, thres)
    ensures Surviving(boxes, best, thres) == boxes
    decreases boxes
  {
    hide Suppresses;
    if boxes != [] {
      DisjointSurvive(boxes[1..], best, thres);
    }
  }

  lemma {:induction false} DisjointKept(boxes: seq<RawBox>, thres: real)
    requires Disjoint(multiset(boxes), thres)
    ensures Greedy(boxes, thres) == boxes
    decreases |boxes|
  {
    hide Suppresses, Surviving;
    if boxes != [] {
      var h, t := boxes[0], boxes[1..];
      assert boxes == [h] + t;
      assert multiset(boxes) == multiset{h} + multiset(t);
      forall b | b in t
        ensures !Suppresses(h, b, thres)
      {
        assert h in multiset(boxes) && b in multiset(boxes) - multiset{h};
      }
      DisjointSurvive(t, h, thres);
      forall a, b | a in multiset(t) && b in multiset(t) - multiset{a}
        ensures !Suppresses(a, b, thres)
      {
        assert b in multiset(boxes) - multiset{a};
      }
      DisjointKept(t, thres);
    }
  }

  /** MAIN: running the suppression again, on any confidence order of its result, changes
      nothing. */
  lemma Idempotent(boxes: seq<RawBox>, thres: real, again: seq<RawBox>)
    requires multiset(again) == multiset(Greedy(boxes, thres))
    ensures Greedy(again, thres) == again
    ensures multiset(Greedy(again, thres)) == multiset(Greedy(boxes, thres))
  {
    KeptDisjoint(boxes, thres);
    DisjointKept(again, thres);
  }

  // ---------- What nms returns, for input in any order

  ghost predicate MayReturn(boxes: seq<RawBox>, thres: real, kept: seq<RawBox>) {
    exists sorted :: IsSorting(sorted, boxes) && kept == Greedy(sorted, thres)
  }

  /** No two boxes of the collection have one confidence. */
  ghost predicate DistinctConf(m: multiset<RawBox>) {
    forall a, b :: a in m && b in m - multiset{a} ==> a.conf != b.conf
  }

  lemma Others(s: seq<RawBox>, i: nat, j: nat)
    requires i < j < |s|
    ensures s[j] in multiset(s) - multiset{s[i]}
  {
    assert s == s[..i] + [s[i]] + s[i + 1..];
    assert s[i + 1..][j - i - 1] == s[j];
    assert multiset(s) == multiset(s[..i]) + multiset{s[i]} + multiset(s[i + 1..]);
  }

  lemma DistinctIsStrict(sorted: seq<RawBox>)
    requires SortedByConf(sorted) && DistinctConf(multiset(sorted))
    ensures StrictByConf(sorted)
  {
    forall i, j | 0 <= i < j < |sorted|
      ensures sorted[i].conf > sorted[j].conf
    {
      assert sorted[i] in multiset(sorted);
      Others(sorted, i, j);
    }
  }

  /** MAIN: whatever order the boxes come in and the sort leaves equal confidences in, the
      result is a confidence-sorted sub-multiset of the input without overlaps that covers
      everything it drops; with distinct confidences it is the only such selection. */
  lemma NmsCorrect(boxes: seq<RawBox>, thres: real, kept: seq<RawBox>)
    requires MayReturn(boxes, thres, kept)
    ensures SortedByConf(kept) && multiset(kept) <= multiset(boxes)
    ensures forall i, j :: 0 <= i < j < |kept| && kept[i].cls == kept[j].cls ==> Iou(kept[i], kept[j]) <= thres
    ensures forall x :: x in boxes ==>
              x in kept || exists k :: k in kept && k.conf >= x.conf && k.cls == x.cls && Iou(k, x) > thres
    ensures DistinctConf(multiset(boxes)) ==>
              forall chosen :: Selection(chosen, Elements(boxes), thres) <==> chosen == Elements(kept)
  {
    hide Greedy, SortedByConf, Disjoint, CoveredBy, DistinctConf, Selection, Iou;
    var sorted :| IsSorting(sorted, boxes) && kept == Greedy(sorted, thres);
    KeptSorted(sorted, thres);
    KeptDisjoint(sorted, thres);
    SameMembers(sorted, boxes);
    forall x | x in boxes
      ensures x in kept || CoveredBy(x, kept, thres)
    {
      DroppedCovered(sorted, thres, x);
    }
    forall x | x in boxes && x !in kept
      ensures exists k :: k in kept && k.conf >= x.conf && k.cls == x.cls && Iou(k, x) > thres
    {
      CoverMeans(x, kept, thres);
    }
    forall i, j | 0 <= i < j < |kept| && kept[i].cls == kept[j].cls
      ensures Iou(kept[i], kept[j]) <= thres
    {
      DisjointMeans(kept, thres, i, j);
    }
    if DistinctConf(multiset(boxes)) {
      DistinctIsStrict(sorted);
      forall chosen
        ensures Selection(chosen, Elements(boxes), thres) <==> chosen == Elements(kept)
      {
        KeptUnique(sorted, thres, chosen);
      }
    }
  }

  lemma CoverMeans(x: RawBox, kept: seq<RawBox>, thres: real)
    requires CoveredBy(x, kept, thres)
    ensures exists k :: k in kept && k.conf >= x.conf && k.cls == x.cls && Iou(k, x) > thres
  {
    hide Iou;
  }

  lemma DisjointMeans(kept: seq<RawBox>, thres: real, i: nat, j: nat)
    requires Disjoint(multiset(kept), thres) && i < j < |kept| && kept[i].cls == kept[j].cls
    ensures Iou(kept[i], kept[j]) <= thres
  {
    hide Iou;
    Others(kept, i, j);
  }

  lemma SameMembers(a: seq<RawBox>, b: seq<RawBox>)
    requires multiset(a) == multiset(b)
    ensures Elements(a) == Elements(b) && forall x :: x in a <==> x in b
  {
    forall x
      ensures x in a <==> x in b
    {
      assert x in a <==> x in multiset(a);
      assert x in b <==> x in multiset(b);
    }
  }
}

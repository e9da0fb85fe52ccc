/**
 Dropping characters a PDF text layer repeats at the same place. Earlier characters are kept
 in buckets by their top left corner, and only the buckets around a character are searched.
 Coordinates are reals; `space` tells which characters are white space.
 */
module Dedup {
  import opened Boxes

  // `style` stands for the font's name, flags, size and weight and the rounded rotation.
  datatype Glyph = Glyph(text: string, style: nat, box: Box)

  const NEAR_TOLERANCE := 1.0
  const OFFSET_TOLERANCE := 2.5
  const TRANSLATION_TOLERANCE := 0.1
  const MIN_OVERLAP_RATIO := 0.45

  predicate Visible(g: Glyph, space: char -> bool) {
    g.text != "" && exists k {:trigger g.text[k]} :: 0 <= k < |g.text| && !space(g.text[k])
  }

  function Signature(g: Glyph): (string, nat) {
    (g.text, g.style)
  }

  predicate Near(a: Box, b: Box) {
    && AbsR(a.x0 - b.x0) <= NEAR_TOLERANCE && AbsR(a.y0 - b.y0) <= NEAR_TOLERANCE
    && AbsR(a.x1 - b.x1) <= NEAR_TOLERANCE && AbsR(a.y1 - b.y1) <= NEAR_TOLERANCE
  }

  function OverlapInSmallerArea(a: Box, b: Box): real {
    var width := MaxR(0.0, MinR(a.x1, b.x1) - MaxR(a.x0, b.x0));
    var height := MaxR(0.0, MinR(a.y1, b.y1) - MaxR(a.y0, b.y0));
    var areaA := MaxR(0.0, a.x1 - a.x0) * MaxR(0.0, a.y1 - a.y0);
    var areaB := MaxR(0.0, b.x1 - b.x0) * MaxR(0.0, b.y1 - b.y0);
    var smaller := MinR(areaA, areaB);
    if smaller == 0.0 then 0.0 else width * height / smaller
  }

  // The second glyph is the first one's diagonal shadow.
  predicate AdjacentOffset(previous: Glyph, current: Glyph) {
    var dx0, dy0 := current.box.x0 - previous.box.x0, current.box.y0 - previous.box.y0;
    var dx1, dy1 := current.box.x1 - previous.box.x1, current.box.y1 - previous.box.y1;
    && Signature(previous) == Signature(current)
    && AbsR(dx0 - dx1) <= TRANSLATION_TOLERANCE && AbsR(dy0 - dy1) <= TRANSLATION_TOLERANCE
    && NEAR_TOLERANCE < AbsR(dx0) <= OFFSET_TOLERANCE && NEAR_TOLERANCE < AbsR(dy0) <= OFFSET_TOLERANCE
    && OverlapInSmallerArea(previous.box, current.box) >= MIN_OVERLAP_RATIO
  }

  // ---------------------------------------- what is kept, without buckets

  predicate SameAs(kept: seq<Glyph>, j: nat, g: Glyph, space: char -> bool) {
    j < |kept| && Visible(kept[j], space) && Signature(kept[j]) == Signature(g) && Near(g.box, kept[j].box)
  }

  predicate Drops(kept: seq<Glyph>, g: Glyph, space: char -> bool) {
    && Visible(g, space)
    && ((kept != [] && AdjacentOffset(kept[|kept| - 1], g)) || exists j: nat :: j < |kept| && SameAs(kept, j, g, space))
  }

  // Every glyph is compared with all those kept before it.
  function Kept(glyphs: seq<Glyph>, space: char -> bool): seq<Glyph> {
    if glyphs == [] then []
    else
      var before := Kept(glyphs[..|glyphs| - 1], space);
      if Drops(before, glyphs[|glyphs| - 1], space) then before else before + [glyphs[|glyphs| - 1]]
  }

  // The shared area over the smaller box's area.
  lemma OverlapIsShare(a: Box, b: Box)
    requires a.x0 < a.x1 && a.y0 < a.y1 && b.x0 < b.x1 && b.y0 < b.y1
    ensures OverlapInSmallerArea(a, b) * MinR(AreaOf(a), AreaOf(b)) == SharedArea(a, b)
  {
    PositiveProduct(a.x1 - a.x0, a.y1 - a.y0);
    PositiveProduct(b.x1 - b.x0, b.y1 - b.y0);
    OverlapIs(a, b);
    hide OverlapInSmallerArea, SharedArea;
    QuotientTimes(SharedArea(a, b), MinR(AreaOf(a), AreaOf(b)));
  }

  lemma SmallerPositive(a: Box, b: Box)
    requires AreaOf(a) > 0.0 && AreaOf(b) > 0.0
    ensures MinR(AreaOf(a), AreaOf(b)) != 0.0
  {
    hide AreaOf;
  }

  lemma ClampedArea(a: Box)
    requires a.x0 < a.x1 && a.y0 < a.y1
    ensures MaxR(0.0, a.x1 - a.x0) * MaxR(0.0, a.y1 - a.y0) == AreaOf(a)
  {
    SameProduct(MaxR(0.0, a.x1 - a.x0), MaxR(0.0, a.y1 - a.y0), a.x1 - a.x0, a.y1 - a.y0);
  }

  lemma OverlapIs(a: Box, b: Box)
    requires a.x0 < a.x1 && a.y0 < a.y1 && b.x0 < b.x1 && b.y0 < b.y1
    requires AreaOf(a) > 0.0 && AreaOf(b) > 0.0
    ensures OverlapInSmallerArea(a, b) == SharedArea(a, b) / MinR(AreaOf(a), AreaOf(b))
  {
    ClampedArea(a);
    ClampedArea(b);
    SmallerPositive(a, b);
    hide MaxR, MinR, AreaOf;
  }

  predicate Within(x: real, low: real, high: real) {
    low < x <= high || low < -x <= high
  }

  // A visible glyph is dropped exactly if some visible glyph kept before has its text and style
  // and corners at most 1 away, or if the one kept just before it has its text and style and lies
  // more than 1 and at most 2.5 away in both directions, shifted evenly to within 0.1 and
  // overlapping by 45 percent of the smaller one.
  lemma DropsMeans(kept: seq<Glyph>, g: Glyph, space: char -> bool)
    ensures Drops(kept, g, space) <==>
      && (exists k {:trigger g.text[k]} :: 0 <= k < |g.text| && !space(g.text[k]))
      && (|| (exists j: nat {:trigger kept[j]} :: j < |kept| && kept[j].text == g.text && kept[j].style == g.style
                && -1.0 <= kept[j].box.x0 - g.box.x0 <= 1.0 && -1.0 <= kept[j].box.y0 - g.box.y0 <= 1.0
                && -1.0 <= kept[j].box.x1 - g.box.x1 <= 1.0 && -1.0 <= kept[j].box.y1 - g.box.y1 <= 1.0)
          || (kept != [] &&
              var last := kept[|kept| - 1];
              && last.text == g.text && last.style == g.style
              && Within(g.box.x0 - last.box.x0, 1.0, 2.5) && Within(g.box.y0 - last.box.y0, 1.0, 2.5)
              && -0.1 <= (g.box.x1 - g.box.x0) - (last.box.x1 - last.box.x0) <= 0.1
              && -0.1 <= (g.box.y1 - g.box.y0) - (last.box.y1 - last.box.y0) <= 0.1
              && OverlapInSmallerArea(last.box, g.box) >= 0.45))
  {
    hide OverlapInSmallerArea;
    forall j: nat | j < |kept|
      ensures SameAs(kept, j, g, space) && Visible(g, space) <==>
        Visible(g, space) && kept[j].text == g.text && kept[j].style == g.style
        && -1.0 <= kept[j].box.x0 - g.box.x0 <= 1.0 && -1.0 <= kept[j].box.y0 - g.box.y0 <= 1.0
        && -1.0 <= kept[j].box.x1 - g.box.x1 <= 1.0 && -1.0 <= kept[j].box.y1 - g.box.y1 <= 1.0
    {
    }
    if kept != [] {
      ShadowMeans(kept[|kept| - 1], g);
    }
    hide AdjacentOffset, Near, Within;
  }

  lemma ShadowMeans(last: Glyph, g: Glyph)
    ensures AdjacentOffset(last, g) <==>
      && last.text == g.text && last.style == g.style
      && Within(g.box.x0 - last.box.x0, 1.0, 2.5) && Within(g.box.y0 - last.box.y0, 1.0, 2.5)
      && -0.1 <= (g.box.x1 - g.box.x0) - (last.box.x1 - last.box.x0) <= 0.1
      && -0.1 <= (g.box.y1 - g.box.y0) - (last.box.y1 - last.box.y0) <= 0.1
      && OverlapInSmallerArea(last.box, g.box) >= 0.45
  {
    hide OverlapInSmallerArea;
  }

  // ------------------------------------------------------------- buckets

  function BucketKey(box: Box): (int, int) {
    ((box.x0 / NEAR_TOLERANCE).Floor, (box.y0 / NEAR_TOLERANCE).Floor)
  }

  predicate Neighbors(a: (int, int), b: (int, int)) {
    -1 <= a.0 - b.0 <= 1 && -1 <= a.1 - b.1 <= 1
  }

  // Boxes within the tolerance are in the same bucket or in neighbours.
  lemma NearAreNeighbors(a: Box, b: Box)
    requires Near(a, b)
    ensures Neighbors(BucketKey(a), BucketKey(b))
  {
  }

  type Buckets = map<(int, int), seq<Box>>

  function Bucket(buckets: Buckets, key: (int, int)): seq<Box> {
    if key in buckets then buckets[key] else []
  }

  function BucketsOf(seen: map<(string, nat), Buckets>, signature: (string, nat)): Buckets {
    if signature in seen then seen[signature] else map[]
  }

  ghost predicate IsSeen(kept: seq<Glyph>, signature: (string, nat), box: Box, space: char -> bool) {
    exists j: nat :: j < |kept| && Visible(kept[j], space) && Signature(kept[j]) == signature && kept[j].box == box
  }

  // The buckets hold the boxes of the visible glyphs kept, each under its own key.
  ghost predicate Right(seen: map<(string, nat), Buckets>, kept: seq<Glyph>, space: char -> bool) {
    forall signature, key, box {:trigger box in Bucket(BucketsOf(seen, signature), key)} ::
      box in Bucket(BucketsOf(seen, signature), key) <==> BucketKey(box) == key && IsSeen(kept, signature, box, space)
  }

  lemma SeenSnoc(kept: seq<Glyph>, g: Glyph, signature: (string, nat), box: Box, space: char -> bool)
    ensures IsSeen(kept + [g], signature, box, space) <==>
      IsSeen(kept, signature, box, space) || (Visible(g, space) && Signature(g) == signature && g.box == box)
  {
    hide Visible, Signature;
    var after := kept + [g];
    if IsSeen(kept, signature, box, space) {
      var j: nat :| j < |kept| && Visible(kept[j], space) && Signature(kept[j]) == signature && kept[j].box == box;
      assert after[j] == kept[j];
    }
    if Visible(g, space) && Signature(g) == signature && g.box == box {
      assert after[|kept|] == g;
    }
    if IsSeen(after, signature, box, space) {
      var j: nat :| j < |after| && Visible(after[j], space) && Signature(after[j]) == signature && after[j].box == box;
      assert j < |kept| ==> after[j] == kept[j];
    }
  }

  ghost predicate Clear(buckets: Buckets, box: Box, x: int, y: int) {
    forall seen {:trigger seen in Bucket(buckets, (x, y))} :: seen in Bucket(buckets, (x, y)) ==> !Near(box, seen)
  }

  // Whether a box near the given one is in one of the nine buckets around its own.
  method SearchNeighbors(buckets: Buckets, box: Box) returns (found: bool)
    ensures found <==>
      exists key, seen :: Neighbors(key, BucketKey(box)) && seen in Bucket(buckets, key) && Near(box, seen)
  {
    hide Near, BucketKey;
    var center := BucketKey(box);
    for dx := -1 to 2
      invariant forall x, y :: -1 <= x - center.0 < dx && -1 <= y - center.1 <= 1 ==> Clear(buckets, box, x, y)
    {
      for dy := -1 to 2
        invariant forall x, y :: -1 <= x - center.0 < dx && -1 <= y - center.1 <= 1 ==> Clear(buckets, box, x, y)
        invariant forall x, y :: x == center.0 + dx && -1 <= y - center.1 < dy ==> Clear(buckets, box, x, y)
      {
        var key := (center.0 + dx, center.1 + dy);
        var bucket := Bucket(buckets, key);
        for k := 0 to |bucket|
          invariant forall j {:trigger bucket[j]} :: 0 <= j < k ==> !Near(box, bucket[j])
        {
          if Near(box, bucket[k]) {
            assert Neighbors(key, center) && bucket[k] in Bucket(buckets, key);
            return true;
          }
        }
        assert Clear(buckets, box, key.0, key.1);
      }
    }
    forall key, seen | Neighbors(key, center) && seen in Bucket(buckets, key) ensures !Near(box, seen) {
      assert Clear(buckets, box, key.0, key.1);
      assert key == (key.0, key.1);
    }
    return false;
  }

  // The result is what comparing every glyph with all those kept before it gives.
  method DeduplicateNearIdenticalChars(glyphs: seq<Glyph>, space: char -> bool) returns (kept: seq<Glyph>)
    ensures kept == Kept(glyphs, space)
  {
    hide Near, AdjacentOffset, Visible, Signature, BucketKey, Right, Drops;
    var seen: map<(string, nat), Buckets> := map[];
    kept := [];
    NothingSeen(space);
    for i := 0 to |glyphs|
      invariant kept == Kept(glyphs[..i], space)
      invariant Right(seen, kept, space)
    {
      var g := glyphs[i];
      assert glyphs[..i + 1][..i] == glyphs[..i];
      if !Visible(g, space) {
        Invisible(seen, kept, g, space);
        kept := kept + [g];
        continue;
      }
      if kept != [] && AdjacentOffset(kept[|kept| - 1], g) {
        OffsetDrops(kept, g, space);
        continue;
      }
      var buckets := BucketsOf(seen, Signature(g));
      var found := SearchNeighbors(buckets, g.box);
      FoundIsDropped(seen, kept, g, space);
      if found {
        continue;
      }
      var key := BucketKey(g.box);
      RightSnoc(seen, kept, g, space);
      seen := seen[Signature(g) := buckets[key := Bucket(buckets, key) + [g.box]]];
      kept := kept + [g];
    }
    assert glyphs[..|glyphs|] == glyphs;
  }

  lemma NothingSeen(space: char -> bool)
    ensures Right(map[], [], space)
  {
  }

  lemma Invisible(seen: map<(string, nat), Buckets>, kept: seq<Glyph>, g: Glyph, space: char -> bool)
    requires Right(seen, kept, space) && !Visible(g, space)
    ensures Right(seen, kept + [g], space) && !Drops(kept, g, space)
  {
    hide Visible, IsSeen;
    forall signature, key, box
      ensures box in Bucket(BucketsOf(seen, signature), key) <==>
        BucketKey(box) == key && IsSeen(kept + [g], signature, box, space)
    {
      SeenSnoc(kept, g, signature, box, space);
    }
  }

  lemma OffsetDrops(kept: seq<Glyph>, g: Glyph, space: char -> bool)
    requires Visible(g, space) && kept != [] && AdjacentOffset(kept[|kept| - 1], g)
    ensures Drops(kept, g, space)
  {
  }

  // The search around a bucket finds what the comparison with every kept glyph does.
  lemma FoundIsDropped(seen: map<(string, nat), Buckets>, kept: seq<Glyph>, g: Glyph, space: char -> bool)
    requires Right(seen, kept, space) && Visible(g, space) && (kept != [] ==> !AdjacentOffset(kept[|kept| - 1], g))
    ensures Drops(kept, g, space) <==>
      exists key, box :: Neighbors(key, BucketKey(g.box)) && box in Bucket(BucketsOf(seen, Signature(g)), key)
        && Near(g.box, box)
  {
    hide AdjacentOffset, Visible, Signature, Near, BucketKey, Neighbors, Bucket, BucketsOf;
    var signature := Signature(g);
    if Drops(kept, g, space) {
      var j: nat :| j < |kept| && SameAs(kept, j, g, space);
      var box := kept[j].box;
      NearAreNeighbors(g.box, box);
      NeighborsSymmetric(BucketKey(g.box), BucketKey(box));
      assert box in Bucket(BucketsOf(seen, signature), BucketKey(box));
    }
    var own := BucketsOf(seen, signature);
    if key, box :| Neighbors(key, BucketKey(g.box)) && box in Bucket(own, key) && Near(g.box, box) {
      var j: nat :| j < |kept| && Visible(kept[j], space) && Signature(kept[j]) == signature && kept[j].box == box;
      assert SameAs(kept, j, g, space);
    }
  }

  lemma NeighborsSymmetric(a: (int, int), b: (int, int))
    ensures Neighbors(a, b) ==> Neighbors(b, a)
  {
  }

  lemma RightSnoc(seen: map<(string, nat), Buckets>, kept: seq<Glyph>, g: Glyph, space: char -> bool)
    requires Right(seen, kept, space) && Visible(g, space)
    ensures var buckets := BucketsOf(seen, Signature(g));
      var key := BucketKey(g.box);
      Right(seen[Signature(g) := buckets[key := Bucket(buckets, key) + [g.box]]], kept + [g], space)
  {
    hide Visible, Signature, BucketKey, IsSeen;
    var own, ownKey := BucketsOf(seen, Signature(g)), BucketKey(g.box);
    var after := seen[Signature(g) := own[ownKey := Bucket(own, ownKey) + [g.box]]];
    forall signature, key, box
      ensures box in Bucket(BucketsOf(after, signature), key) <==>
        BucketKey(box) == key && IsSeen(kept + [g], signature, box, space)
    {
      SeenSnoc(kept, g, signature, box, space);
      assert box in Bucket(BucketsOf(seen, signature), key) <==>
        BucketKey(box) == key && IsSeen(kept, signature, box, space);
    }
  }

  // ------------------------------------------------------- what it keeps

  ghost predicate IsSubsequence(a: seq<Glyph>, b: seq<Glyph>) {
    if a == [] then true
    else if b == [] then false
    else if a[|a| - 1] == b[|b| - 1] then IsSubsequence(a[..|a| - 1], b[..|b| - 1])
    else IsSubsequence(a, b[..|b| - 1])
  }

  // What is kept of more glyphs starts with what is kept of fewer; one more glyph is added exactly
  // if none of those kept so far makes it a repetition.
  lemma {:induction false} KeptGrows(glyphs: seq<Glyph>, space: char -> bool, i: nat)
    requires i < |glyphs|
    ensures Kept(glyphs[..i + 1], space) == Kept(glyphs[..i], space)
      + if Drops(Kept(glyphs[..i], space), glyphs[i], space) then [] else [glyphs[i]]
    ensures |Kept(glyphs[..i], space)| <= |Kept(glyphs, space)|
    ensures Kept(glyphs, space)[..|Kept(glyphs[..i], space)|] == Kept(glyphs[..i], space)
  {
    hide Drops;
    assert glyphs[..i + 1][..i] == glyphs[..i];
    var last := |glyphs| - 1;
    if i < last {
      assert glyphs[..last][..i] == glyphs[..i] && glyphs[..last][..i + 1] == glyphs[..i + 1];
      KeptGrows(glyphs[..last], space, i);
    } else {
      assert glyphs[..last] == glyphs[..i];
    }
  }

  // No visible glyph repeats an earlier one, nor shadows the one just before it.
  ghost predicate Clean(kept: seq<Glyph>, space: char -> bool) {
    forall i: nat {:trigger kept[i]} :: i < |kept| ==> !Drops(kept[..i], kept[i], space)
  }

  lemma {:induction false} KeptIsClean(glyphs: seq<Glyph>, space: char -> bool)
    ensures Clean(Kept(glyphs, space), space)
  {
    hide Drops;
    if glyphs != [] {
      var last := |glyphs| - 1;
      KeptIsClean(glyphs[..last], space);
      var before, kept := Kept(glyphs[..last], space), Kept(glyphs, space);
      forall i: nat {:trigger kept[i]} | i < |kept| ensures !Drops(kept[..i], kept[i], space) {
        assert i < |before| ==> kept[..i] == before[..i] && kept[i] == before[i];
        assert i == |before| ==> kept[..i] == before;
      }
    }
  }

  // No two visible glyphs that are kept have the same signature and near-identical boxes.
  lemma NoTwoNear(glyphs: seq<Glyph>, space: char -> bool, i: nat, j: nat)
    requires var kept := Kept(glyphs, space);
      i < j < |kept| && Visible(kept[i], space) && Visible(kept[j], space) && Signature(kept[i]) == Signature(kept[j])
    ensures var kept := Kept(glyphs, space);
      !Near(kept[j].box, kept[i].box) && (j == i + 1 ==> !AdjacentOffset(kept[i], kept[j]))
  {
    hide Near, AdjacentOffset, Visible, Signature, Kept, Drops;
    var kept := Kept(glyphs, space);
    KeptIsClean(glyphs, space);
    assert !Drops(kept[..j], kept[j], space);
    assert kept[..j][i] == kept[i];
    if Near(kept[j].box, kept[i].box) {
      SameDrops(kept[..j], i, kept[j], space);
    } else if j == i + 1 && AdjacentOffset(kept[i], kept[j]) {
      OffsetDrops(kept[..j], kept[j], space);
    }
  }

  lemma SameDrops(kept: seq<Glyph>, i: nat, g: Glyph, space: char -> bool)
    requires Visible(g, space) && SameAs(kept, i, g, space)
    ensures Drops(kept, g, space)
  {
  }

  lemma CleanFront(glyphs: seq<Glyph>, space: char -> bool)
    requires Clean(glyphs, space) && glyphs != []
    ensures var last := |glyphs| - 1;
      Clean(glyphs[..last], space) && !Drops(glyphs[..last], glyphs[last], space)
  {
    hide Drops;
    var front := glyphs[..|glyphs| - 1];
    forall i: nat {:trigger front[i]} | i < |front| ensures !Drops(front[..i], front[i], space) {
      assert front[..i] == glyphs[..i] && front[i] == glyphs[i];
    }
  }

  lemma {:induction false} CleanStays(glyphs: seq<Glyph>, space: char -> bool)
    requires Clean(glyphs, space)
    ensures Kept(glyphs, space) == glyphs
  {
    hide Drops, Clean;
    if glyphs != [] {
      CleanFront(glyphs, space);
      CleanStays(glyphs[..|glyphs| - 1], space);
      assert glyphs == glyphs[..|glyphs| - 1] + [glyphs[|glyphs| - 1]];
    }
  }

  // Running it again changes nothing.
  lemma {:induction false} KeptTwice(glyphs: seq<Glyph>, space: char -> bool)
    ensures Kept(Kept(glyphs, space), space) == Kept(glyphs, space)
  {
    hide Clean, Kept;
    KeptIsClean(glyphs, space);
    CleanStays(Kept(glyphs, space), space);
  }

  // The result is the input with some visible glyphs left out.
  lemma {:induction false} KeptIsSubsequence(glyphs: seq<Glyph>, space: char -> bool)
    ensures IsSubsequence(Kept(glyphs, space), glyphs)
    ensures Blanks(Kept(glyphs, space), space) == Blanks(glyphs, space)
  {
    hide Visible, Drops, IsSubsequence;
    if glyphs == [] {
      EmptySubsequence();
    } else {
      var last := |glyphs| - 1;
      KeptIsSubsequence(glyphs[..last], space);
      var before := Kept(glyphs[..last], space);
      assert glyphs == glyphs[..last] + [glyphs[last]];
      if Drops(before, glyphs[last], space) {
        SubsequenceSnoc(before, glyphs[..last], glyphs[last]);
        DroppedIsVisible(before, glyphs[last], space);
      } else {
        SubsequenceBoth(before, glyphs[..last], glyphs[last]);
        assert (before + [glyphs[last]])[..|before|] == before;
      }
    }
  }

  lemma EmptySubsequence()
    ensures IsSubsequence([], [])
  {
  }

  lemma DroppedIsVisible(kept: seq<Glyph>, g: Glyph, space: char -> bool)
    requires Drops(kept, g, space)
    ensures Visible(g, space)
  {
  }

  lemma SubsequenceBoth(a: seq<Glyph>, b: seq<Glyph>, g: Glyph)
    requires IsSubsequence(a, b)
    ensures IsSubsequence(a + [g], b + [g])
  {
    assert (a + [g])[..|a|] == a && (b + [g])[..|b|] == b;
  }

  function Blanks(glyphs: seq<Glyph>, space: char -> bool): seq<Glyph> {
    if glyphs == [] then []
    else
      var last := |glyphs| - 1;
      Blanks(glyphs[..last], space) + if Visible(glyphs[last], space) then [] else [glyphs[last]]
  }

  lemma {:induction false} SubsequenceSnoc(a: seq<Glyph>, b: seq<Glyph>, g: Glyph)
    requires IsSubsequence(a, b)
    ensures IsSubsequence(a, b + [g])
    decreases |b|, 1
  {
    assert (b + [g])[..|b|] == b;
    if a != [] && a[|a| - 1] == g {
      DropLast(a, b);
    }
  }

  lemma {:induction false} DropLast(a: seq<Glyph>, b: seq<Glyph>)
    requires IsSubsequence(a, b) && a != []
    ensures IsSubsequence(a[..|a| - 1], b)
    decreases |b|, 0
  {
    if a[|a| - 1] == b[|b| - 1] {
      SubsequenceSnoc(a[..|a| - 1], b[..|b| - 1], b[|b| - 1]);
      assert b == b[..|b| - 1] + [b[|b| - 1]];
    } else {
      DropLast(a, b[..|b| - 1]);
      SubsequenceSnoc(a[..|a| - 1], b[..|b| - 1], b[|b| - 1]);
      assert b == b[..|b| - 1] + [b[|b| - 1]];
    }
  }
}

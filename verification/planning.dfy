/**
 Grouping documents into parse tasks: documents are taken by falling page count and each
 joins the batch with the fewest pages that still has room for it in the window.
 */
module Planning {
  import opened Wrappers
  import opened Sorting

  datatype Document = Document(stem: string, pages: nat, order: int)

  datatype Batch = Batch(index: nat, documents: seq<Document>, totalPages: nat)

  // ------------------------------------------------------------ sums

  ghost function Sum(weight: Document -> int, docs: seq<Document>): int {
    if docs == [] then 0 else Sum(weight, docs[..|docs| - 1]) + weight(docs[|docs| - 1])
  }

  ghost function Pages(docs: seq<Document>): int {
    Sum((d: Document) => d.pages, docs)
  }

  lemma {:induction false} SumAppend(weight: Document -> int, a: seq<Document>, b: seq<Document>)
    ensures Sum(weight, a + b) == Sum(weight, a) + Sum(weight, b)
  {
    if b == [] {
      assert a + b == a;
    } else {
      var last := |b| - 1;
      assert (a + b)[..|a| + last] == a + b[..last];
      SumAppend(weight, a, b[..last]);
    }
  }

  lemma {:induction false} SumPermuted(weight: Document -> int, a: seq<Document>, b: seq<Document>)
    requires multiset(a) == multiset(b)
    ensures Sum(weight, a) == Sum(weight, b)
  {
    if a == [] {
      assert |multiset(b)| == 0;
    } else {
      var last := |a| - 1;
      var d := a[last];
      assert a == a[..last] + [d];
      assert d in multiset(b);
      var i := SumWithout(weight, b, d);
      BagWithout(b, i);
      assert multiset(a[..last]) == multiset(a) - multiset{d};
      SumPermuted(weight, a[..last], b[..i] + b[i + 1..]);
    }
  }

  lemma SumWithout(weight: Document -> int, b: seq<Document>, d: Document) returns (i: nat)
    requires d in multiset(b)
    ensures i < |b| && b[i] == d && Sum(weight, b) == Sum(weight, b[..i] + b[i + 1..]) + weight(d)
  {
    hide Sum;
    i :| 0 <= i < |b| && b[i] == d;
    SumAppend(weight, b[..i], b[i + 1..]);
    SumAppend(weight, b[..i], [d]);
    SumAppend(weight, b[..i] + [d], b[i + 1..]);
    assert b[..i] + [d] + b[i + 1..] == b;
    SumOne(weight, d);
  }

  lemma BagWithout(b: seq<Document>, i: nat)
    requires i < |b|
    ensures multiset(b[..i] + b[i + 1..]) == multiset(b) - multiset{b[i]}
  {
    assert b == b[..i] + [b[i]] + b[i + 1..];
  }

  lemma SumOne(weight: Document -> int, d: Document)
    ensures Sum(weight, [d]) == weight(d)
  {
    assert [d][..0] == [];
  }

  // ------------------------------------------------------------ order

  predicate Before(a: Document, b: Document) {
    a.pages > b.pages || (a.pages == b.pages && a.order <= b.order)
  }

  ghost predicate Sorted(docs: seq<Document>) {
    Ordered(Before, docs)
  }

  // By falling page count, and by input order among equals.
  function SortDocuments(docs: seq<Document>): (r: seq<Document>)
    ensures multiset(r) == multiset(docs)
  {
    Sort(Before, docs)
  }

  lemma SortDocumentsSorted(docs: seq<Document>)
    ensures Sorted(SortDocuments(docs))
    ensures var sorted := SortDocuments(docs);
      forall i, j {:trigger sorted[i], sorted[j]} :: 0 <= i < j < |sorted| ==>
        sorted[i].pages > sorted[j].pages
        || (sorted[i].pages == sorted[j].pages && sorted[i].order <= sorted[j].order)
  {
    SortIsOrdered(Before, docs);
  }

  // ------------------------------------------------------------ planning

  predicate HasRoom(task: Batch, d: Document, window: int) {
    task.totalPages + d.pages <= window
  }

  // Task i has room for the document, and no task with room has fewer pages, nor as many and
  // an earlier index.
  ghost predicate IsSelected(bins: seq<Batch>, d: Document, window: int, i: nat) {
    && i < |bins| && HasRoom(bins[i], d, window)
    && forall j {:trigger bins[j]} :: 0 <= j < |bins| && HasRoom(bins[j], d, window) ==>
         bins[i].totalPages < bins[j].totalPages || (bins[i].totalPages == bins[j].totalPages && i <= j)
  }

  function Added(bins: seq<Batch>, d: Document): seq<Batch> {
    bins + [Batch(|bins| + 1, [d], d.pages)]
  }

  function Joined(bins: seq<Batch>, d: Document, i: nat): seq<Batch>
    requires i < |bins|
  {
    bins[i := Batch(bins[i].index, bins[i].documents + [d], bins[i].totalPages + d.pages)]
  }

  predicate NoRoom(bins: seq<Batch>, d: Document, window: int) {
    forall j {:trigger bins[j]} :: 0 <= j < |bins| ==> !HasRoom(bins[j], d, window)
  }

  function Select(bins: seq<Batch>, d: Document, window: int): (r: Option<nat>)
    ensures r.Some? ==> IsSelected(bins, d, window, r.value)
    ensures r.None? <==> NoRoom(bins, d, window)
  {
    if bins == [] then None else
      var last := |bins| - 1;
      var r := Select(bins[..last], d, window);
      if HasRoom(bins[last], d, window) && (r.None? || bins[last].totalPages < bins[r.value].totalPages)
      then Some(last) else r
  }

  function Place(bins: seq<Batch>, d: Document, window: int): seq<Batch> {
    var selected := Select(bins, d, window);
    if d.pages > window || selected.None? then Added(bins, d) else Joined(bins, d, selected.value)
  }

  // The documents' turns one after another.
  function Plan(docs: seq<Document>, window: int): seq<Batch> {
    if docs == [] then [] else Place(Plan(docs[..|docs| - 1], window), docs[|docs| - 1], window)
  }

  method SelectBatch(bins: seq<Batch>, d: Document, window: int) returns (selected: Option<nat>)
    ensures selected == Select(bins, d, window)
  {
    selected := None;
    for k := 0 to |bins|
      invariant selected == Select(bins[..k], d, window)
    {
      if HasRoom(bins[k], d, window)
         && (selected.None? || bins[k].totalPages < bins[selected.value].totalPages)
      {
        selected := Some(k);
      }
      assert bins[..k + 1][..k] == bins[..k];
    }
    assert bins[..|bins|] == bins;
  }

  method PlanPipelineTasks(documents: seq<Document>, window: int) returns (bins: seq<Batch>)
    ensures bins == Plan(SortDocuments(documents), window)
    ensures exists at: seq<nat> :: Distributed(bins, SortDocuments(documents), at, window)
  {
    hide Place, WellPlanned, Distributed, SortDocuments, Sorted;
    bins := [];
    var sorted := SortDocuments(documents);
    for n := 0 to |sorted|
      invariant bins == Plan(sorted[..n], window)
    {
      assert sorted[..n + 1][..n] == sorted[..n];
      bins := PlaceDocument(bins, sorted[n], window);
    }
    assert sorted[..|sorted|] == sorted;
    SortDocumentsSorted(documents);
    hide Plan;
    ghost var plan := bins;
    for k := 0 to |bins|
      invariant bins == plan
    {
      PlanIndex(sorted, window, k);
      bins := bins[k := bins[k].(index := k + 1)];
    }
    ghost var at := PlanGoesRight(sorted, window);
  }

  method PlaceDocument(bins: seq<Batch>, d: Document, window: int) returns (after: seq<Batch>)
    ensures after == Place(bins, d, window)
  {
    if d.pages > window {
      return bins + [Batch(|bins| + 1, [d], d.pages)];
    }
    var selected := SelectBatch(bins, d, window);
    if selected.Some? {
      var task := bins[selected.value];
      return bins[selected.value := task.(documents := task.documents + [d], totalPages := task.totalPages + d.pages)];
    }
    return bins + [Batch(|bins| + 1, [d], d.pages)];
  }

  // ------------------------------------------------- what every plan keeps

  ghost function Bag(bins: seq<Batch>): multiset<Document> {
    if bins == [] then multiset{} else Bag(bins[..|bins| - 1]) + multiset(bins[|bins| - 1].documents)
  }

  ghost predicate Consistent(task: Batch, i: nat) {
    task.documents != [] && task.totalPages == Pages(task.documents) && task.index == i + 1
  }

  // Pages of the documents that have at least `size` pages themselves.
  ghost function BigPages(docs: seq<Document>, size: nat): int {
    Sum((d: Document) => if d.pages >= size then d.pages else 0, docs)
  }

  // The documents in `earlier` that are no smaller than the one which opened `later` left no
  // room for it.
  ghost predicate Tight(earlier: Batch, later: Batch, window: int) {
    later.documents != [] && BigPages(earlier.documents, later.documents[0].pages) + later.documents[0].pages > window
  }

  ghost predicate WellPlanned(bins: seq<Batch>, docs: seq<Document>, window: int, o: nat) {
    && Bag(bins) == multiset(docs)
    && o <= |bins|
    && (forall i: nat :: i < |bins| ==> Consistent(bins[i], i))
    && (forall i {:trigger bins[i]} :: 0 <= i < o ==> |bins[i].documents| == 1 && bins[i].totalPages > window)
    && (forall i {:trigger bins[i]} :: o <= i < |bins| ==> bins[i].totalPages <= window)
    && (forall i, j {:trigger bins[i], bins[j]} :: o <= i < j < |bins| ==> Tight(bins[i], bins[j], window))
  }

  // The number of documents that exceed the window by themselves.
  function Oversize(docs: seq<Document>, window: int): nat {
    if docs == [] then 0 else Oversize(docs[..|docs| - 1], window) + if docs[|docs| - 1].pages > window then 1 else 0
  }

  // Every document is in one task, totals and indices are right, oversize documents come
  // first and alone, the other tasks fit the window, and no two of them could be one.
  lemma {:induction false} PlanIsWell(docs: seq<Document>, window: int)
    requires Sorted(docs)
    ensures WellPlanned(Plan(docs, window), docs, window, Oversize(docs, window))
  {
    hide Place;
    if docs == [] {
    } else {
      hide WellPlanned;
      var n := |docs| - 1;
      PlanIsWell(docs[..n], window);
      assert docs == docs[..n] + [docs[n]];
      PlaceKeeps(Plan(docs[..n], window), docs[..n], docs[n], window, Oversize(docs[..n], window));
    }
  }

  lemma PlanIndex(docs: seq<Document>, window: int, k: nat)
    requires Sorted(docs) && k < |Plan(docs, window)|
    ensures Plan(docs, window)[k].index == k + 1
  {
    hide Plan;
    PlanIsWell(docs, window);
    assert Consistent(Plan(docs, window)[k], k);
  }

  lemma {:induction false} BagHas(bins: seq<Batch>, i: nat, d: Document)
    requires i < |bins| && d in bins[i].documents
    ensures d in Bag(bins)
  {
    var last := |bins| - 1;
    if i < last {
      BagHas(bins[..last], i, d);
    }
  }

  lemma {:induction false} BagJoined(bins: seq<Batch>, d: Document, i: nat)
    requires i < |bins|
    ensures Bag(Joined(bins, d, i)) == Bag(bins) + multiset{d}
  {
    var last := |bins| - 1;
    var after := Joined(bins, d, i);
    if i < last {
      assert after[..last] == Joined(bins[..last], d, i);
      BagJoined(bins[..last], d, i);
    } else {
      assert after[..last] == bins[..last];
    }
  }

  // Every document in the tasks has at least this many pages.
  ghost predicate AllBig(docs: seq<Document>, size: nat) {
    forall d {:trigger d in docs} :: d in docs ==> d.pages >= size
  }

  lemma {:induction false} BigIsAll(docs: seq<Document>, size: nat)
    requires AllBig(docs, size)
    ensures BigPages(docs, size) == Pages(docs)
  {
    if docs != [] {
      var last := |docs| - 1;
      assert forall d :: d in docs[..last] ==> d in docs;
      BigIsAll(docs[..last], size);
      assert docs[last] in docs;
    }
  }

  lemma BatchIsBig(bins: seq<Batch>, docs: seq<Document>, window: int, o: nat, d: Document, i: nat)
    requires WellPlanned(bins, docs, window, o) && AllBig(docs, d.pages) && i < |bins|
    ensures BigPages(bins[i].documents, d.pages) == bins[i].totalPages && bins[i].totalPages >= d.pages
  {
    forall x | x in bins[i].documents ensures x.pages >= d.pages {
      BagHas(bins, i, x);
      assert x in multiset(docs);
      assert x in docs;
    }
    BigIsAll(bins[i].documents, d.pages);
    assert Consistent(bins[i], i);
    FirstWithin((x: Document) => x.pages, bins[i].documents, bins[i].documents[0]);
    assert bins[i].documents[0] in bins[i].documents;
  }

  // A sum of non-negative weights is at least each of its terms.
  lemma {:induction false} FirstWithin(weight: Document -> int, docs: seq<Document>, d: Document)
    requires d in docs && forall x {:trigger weight(x)} :: weight(x) >= 0
    ensures Sum(weight, docs) >= weight(d)
  {
    var last := |docs| - 1;
    SumNonNegative(weight, docs[..last]);
    if d != docs[last] {
      assert d in docs[..last];
      FirstWithin(weight, docs[..last], d);
    }
  }

  lemma {:induction false} SumNonNegative(weight: Document -> int, docs: seq<Document>)
    requires forall x {:trigger weight(x)} :: weight(x) >= 0
    ensures Sum(weight, docs) >= 0
  {
    if docs != [] {
      SumNonNegative(weight, docs[..|docs| - 1]);
    }
  }

  lemma PlaceKeeps(bins: seq<Batch>, docs: seq<Document>, d: Document, window: int, o: nat)
    requires WellPlanned(bins, docs, window, o) && Sorted(docs + [d])
    ensures WellPlanned(Place(bins, d, window), docs + [d], window, if d.pages > window then o + 1 else o)
  {
    hide Sum, BigPages, Pages, Bag, WellPlanned;
    assert AllBig(docs, d.pages) by {
      forall x | x in docs ensures x.pages >= d.pages {
        var i :| 0 <= i < |docs| && docs[i] == x;
        assert Before((docs + [d])[i], (docs + [d])[|docs|]);
      }
    }
    var selected := Select(bins, d, window);
    if d.pages > window || selected.None? {
      AddedKeeps(bins, docs, d, window, o);
    } else {
      JoinedKeeps(bins, docs, d, window, o, selected.value);
    }
  }

  lemma BagAdded(bins: seq<Batch>, d: Document)
    ensures Bag(Added(bins, d)) == Bag(bins) + multiset{d}
  {
    assert Added(bins, d)[..|bins|] == bins;
  }

  lemma AddedKeeps(bins: seq<Batch>, docs: seq<Document>, d: Document, window: int, o: nat)
    requires WellPlanned(bins, docs, window, o) && AllBig(docs, d.pages)
    requires d.pages <= window ==> NoRoom(bins, d, window)
    ensures WellPlanned(Added(bins, d), docs + [d], window, if d.pages > window then o + 1 else o)
  {
    hide Sum, BigPages, Pages, Bag, AllBig;
    PagesOne(d);
    BagAdded(bins, d);
    if o < |bins| {
      BatchIsBig(bins, docs, window, o, d, o);
      assert bins[o].totalPages <= window;
    }
    forall i: nat | i < |bins|
      ensures BigPages(bins[i].documents, d.pages) == bins[i].totalPages && bins[i].totalPages >= d.pages
    {
      BatchIsBig(bins, docs, window, o, d, i);
    }
  }

  lemma JoinedKeeps(bins: seq<Batch>, docs: seq<Document>, d: Document, window: int, o: nat, i: nat)
    requires WellPlanned(bins, docs, window, o) && i < |bins| && HasRoom(bins[i], d, window)
    ensures WellPlanned(Joined(bins, d, i), docs + [d], window, o)
  {
    hide Sum, BigPages, Bag, Pages;
    BagJoined(bins, d, i);
    PagesAppend(bins[i].documents, d);
    assert Consistent(bins[i], i);
    var after := Joined(bins, d, i);
    forall j, k {:trigger after[j], after[k]} | o <= j < k < |after| ensures Tight(after[j], after[k], window) {
      assert Tight(bins[j], bins[k], window);
      BigGrows(bins[j].documents, d, bins[k].documents[0].pages);
    }
  }

  lemma PagesAppend(docs: seq<Document>, d: Document)
    ensures Pages(docs + [d]) == Pages(docs) + d.pages
  {
    assert (docs + [d])[..|docs|] == docs;
  }

  lemma BigGrows(docs: seq<Document>, d: Document, size: nat)
    ensures BigPages(docs + [d], size) >= BigPages(docs, size)
  {
    assert (docs + [d])[..|docs|] == docs;
  }

  // ------------------------------------------------ where each document goes

  // The documents that go to batch k, in order, when document n goes to batch at[n].
  ghost function Sent(docs: seq<Document>, at: seq<nat>, k: nat): seq<Document>
    requires |at| == |docs|
  {
    if docs == [] then [] else
      var last := |docs| - 1;
      Sent(docs[..last], at[..last], k) + if at[last] == k then [docs[last]] else []
  }

  // What batch k holds of the documents before document n.
  ghost function Held(docs: seq<Document>, at: seq<nat>, n: nat, k: nat): seq<Document>
    requires n <= |docs| == |at|
  {
    Sent(docs[..n], at[..n], k)
  }

  // Batch k is there when document n comes, and has room for it.
  ghost predicate HasPlace(docs: seq<Document>, at: seq<nat>, n: nat, k: nat, window: int)
    requires n < |docs| == |at|
  {
    Held(docs, at, n, k) != [] && Pages(Held(docs, at, n, k)) + docs[n].pages <= window
  }

  // Document n goes to the batch with room that holds the fewest pages, the earliest of equals;
  // without one, or when it exceeds the window, it opens the next batch.
  ghost predicate GoesRight(docs: seq<Document>, at: seq<nat>, n: nat, window: int)
    requires n < |docs| == |at|
  {
    if docs[n].pages <= window && exists k: nat :: HasPlace(docs, at, n, k, window) then
      && HasPlace(docs, at, n, at[n], window)
      && forall k: nat {:trigger HasPlace(docs, at, n, k, window)} :: HasPlace(docs, at, n, k, window) ==>
           var mine, theirs := Pages(Held(docs, at, n, at[n])), Pages(Held(docs, at, n, k));
           mine < theirs || (mine == theirs && at[n] <= k)
    else
      forall k: nat {:trigger Held(docs, at, n, k)} :: Held(docs, at, n, k) != [] <==> k < at[n]
  }

  // The batches are what such a distribution of the documents leaves.
  ghost predicate Distributed(bins: seq<Batch>, docs: seq<Document>, at: seq<nat>, window: int) {
    && |at| == |docs|
    && (forall k: nat {:trigger bins[k]} :: k < |bins| ==>
          bins[k].documents == Sent(docs, at, k) && bins[k].totalPages == Pages(bins[k].documents)
          && bins[k].index == k + 1)
    && (forall k: nat {:trigger Sent(docs, at, k)} :: Sent(docs, at, k) != [] <==> k < |bins|)
    && forall n: nat {:trigger docs[n]} :: n < |docs| ==> GoesRight(docs, at, n, window)
  }

  lemma EarlierGoRight(docs: seq<Document>, at: seq<nat>, d: Document, i: nat, n: nat, window: int)
    requires n < |docs| == |at| && GoesRight(docs, at, n, window)
    ensures GoesRight(docs + [d], at + [i], n, window)
  {
    hide Pages, Sent;
    var docs', at' := docs + [d], at + [i];
    assert docs'[..n] == docs[..n] && at'[..n] == at[..n];
    assert forall k: nat :: Held(docs', at', n, k) == Held(docs, at, n, k);
    hide Held;
    forall k: nat ensures HasPlace(docs', at', n, k, window) <==> HasPlace(docs, at, n, k, window) {
    }
  }

  lemma SentAppend(docs: seq<Document>, at: seq<nat>, d: Document, i: nat, k: nat)
    requires |at| == |docs|
    ensures Sent(docs + [d], at + [i], k) == Sent(docs, at, k) + if i == k then [d] else []
  {
    assert (docs + [d])[..|docs|] == docs && (at + [i])[..|at|] == at;
  }

  // The last document's turn.
  lemma LastGoesRight(bins: seq<Batch>, docs: seq<Document>, at: seq<nat>, d: Document, window: int) returns (i: nat)
    requires Distributed(bins, docs, at, window)
    ensures GoesRight(docs + [d], at + [i], |docs|, window)
    ensures Place(bins, d, window) == if i < |bins| then Joined(bins, d, i) else Added(bins, d)
    ensures i <= |bins|
  {
    hide Pages, Sent, GoesRight;
    var selected := Select(bins, d, window);
    i := if d.pages > window || selected.None? then |bins| else selected.value;
    var n, docs', at' := |docs|, docs + [d], at + [i];
    assert docs'[..n] == docs && at'[..n] == at;
    forall k: nat
      ensures HasPlace(docs', at', n, k, window) <==> k < |bins| && HasRoom(bins[k], d, window)
      ensures Held(docs', at', n, k) == Sent(docs, at, k)
      ensures k < |bins| ==> Pages(Held(docs', at', n, k)) == bins[k].totalPages
    {
      if k < |bins| {
        assert bins[k].documents == Sent(docs, at, k);
      }
    }
    hide HasPlace, Held, Distributed;
    RightByBins(bins, docs', at', n, window, selected);
  }

  lemma RightByBins(bins: seq<Batch>, docs: seq<Document>, at: seq<nat>, n: nat, window: int, selected: Option<nat>)
    requires n < |docs| == |at| && selected == Select(bins, docs[n], window)
    requires at[n] == if docs[n].pages > window || selected.None? then |bins| else selected.value
    requires forall k: nat {:trigger HasPlace(docs, at, n, k, window)} ::
      HasPlace(docs, at, n, k, window) <==> k < |bins| && HasRoom(bins[k], docs[n], window)
    requires forall k: nat {:trigger Held(docs, at, n, k)} :: Held(docs, at, n, k) != [] <==> k < |bins|
    requires forall k: nat {:trigger Held(docs, at, n, k)} :: k < |bins| ==>
      Pages(Held(docs, at, n, k)) == bins[k].totalPages
    ensures GoesRight(docs, at, n, window)
  {
    hide Pages, Held, HasPlace, Select;
    if docs[n].pages <= window && selected.Some? {
      assert HasPlace(docs, at, n, at[n], window);
    } else if docs[n].pages <= window {
      forall k: nat ensures !HasPlace(docs, at, n, k, window) {
      }
    }
  }

  lemma {:induction false} PlanGoesRight(docs: seq<Document>, window: int) returns (at: seq<nat>)
    ensures Distributed(Plan(docs, window), docs, at, window)
  {
    hide Place, Distributed, GoesRight;
    if docs == [] {
      at := [];
      NothingDistributed(window);
    } else {
      var last := |docs| - 1;
      var before := PlanGoesRight(docs[..last], window);
      var bins := Plan(docs[..last], window);
      var i := LastGoesRight(bins, docs[..last], before, docs[last], window);
      at := before + [i];
      assert docs == docs[..last] + [docs[last]];
      DistributedNext(bins, docs[..last], before, docs[last], i, window);
    }
  }

  lemma NothingDistributed(window: int)
    ensures Distributed([], [], [], window)
  {
  }

  lemma DistributedNext(bins: seq<Batch>, docs: seq<Document>, at: seq<nat>, d: Document, i: nat, window: int)
    requires Distributed(bins, docs, at, window) && i <= |bins|
    requires GoesRight(docs + [d], at + [i], |docs|, window)
    ensures Distributed(if i < |bins| then Joined(bins, d, i) else Added(bins, d), docs + [d], at + [i], window)
  {
    hide Pages, Sent, GoesRight;
    var after := if i < |bins| then Joined(bins, d, i) else Added(bins, d);
    var docs', at' := docs + [d], at + [i];
    forall k: nat
      ensures Sent(docs', at', k) == Sent(docs, at, k) + if i == k then [d] else []
    {
      SentAppend(docs, at, d, i, k);
    }
    PagesOne(d);
    if i < |bins| {
      PagesAppend(bins[i].documents, d);
    }
    forall n: nat | n < |docs'| ensures GoesRight(docs', at', n, window) {
      if n < |docs| {
        assert docs[n] == docs[n];
        EarlierGoRight(docs, at, d, i, n, window);
      }
    }
  }

  // The rule leaves no choice.
  lemma {:induction false} OneDistribution(docs: seq<Document>, at: seq<nat>, other: seq<nat>, window: int)
    requires |at| == |docs| == |other|
    requires forall n: nat {:trigger docs[n]} :: n < |docs| ==> GoesRight(docs, at, n, window)
    requires forall n: nat {:trigger docs[n]} :: n < |docs| ==> GoesRight(docs, other, n, window)
    ensures at == other
  {
    if docs != [] {
      var last := |docs| - 1;
      forall n: nat | n < last
        ensures GoesRight(docs[..last], at[..last], n, window) && GoesRight(docs[..last], other[..last], n, window)
      {
        assert docs[n] == docs[n];
        ShorterGoesRight(docs, at, n, window);
        ShorterGoesRight(docs, other, n, window);
      }
      hide GoesRight;
      OneDistribution(docs[..last], at[..last], other[..last], window);
      assert docs[last] == docs[last];
      SamePlace(docs, at, other, last, window);
    }
  }

  lemma ShorterGoesRight(docs: seq<Document>, at: seq<nat>, n: nat, window: int)
    requires n < |docs| - 1 && |at| == |docs| && GoesRight(docs, at, n, window)
    ensures GoesRight(docs[..|docs| - 1], at[..|docs| - 1], n, window)
  {
    hide Pages, Sent;
    var docs', at' := docs[..|docs| - 1], at[..|docs| - 1];
    assert docs'[..n] == docs[..n] && at'[..n] == at[..n];
    assert forall k: nat :: Held(docs', at', n, k) == Held(docs, at, n, k);
    hide Held;
    forall k: nat ensures HasPlace(docs', at', n, k, window) <==> HasPlace(docs, at, n, k, window) {
    }
  }

  lemma SamePlace(docs: seq<Document>, at: seq<nat>, other: seq<nat>, n: nat, window: int)
    requires n < |docs| == |at| == |other| && at[..n] == other[..n]
    requires GoesRight(docs, at, n, window) && GoesRight(docs, other, n, window)
    ensures at[n] == other[n]
  {
    hide Pages, Sent;
    assert forall k: nat :: Held(docs, at, n, k) == Held(docs, other, n, k);
    hide Held;
    forall k: nat ensures HasPlace(docs, at, n, k, window) <==> HasPlace(docs, other, n, k, window) {
    }
    hide HasPlace;
    if !(docs[n].pages <= window && exists k: nat :: HasPlace(docs, at, n, k, window)) {
      assert Held(docs, at, n, at[n]) == Held(docs, other, n, at[n]);
      assert Held(docs, at, n, other[n]) == Held(docs, other, n, other[n]);
    }
  }

  // ----------------------------------------------- against any other plan

  ghost function Flat(groups: seq<seq<Document>>): seq<Document> {
    if groups == [] then [] else Flat(groups[..|groups| - 1]) + groups[|groups| - 1]
  }

  ghost function Groups(bins: seq<Batch>): (r: seq<seq<Document>>)
    ensures |r| == |bins| && forall i {:trigger r[i]} {:trigger bins[i]} :: 0 <= i < |bins| ==>
      r[i] == bins[i].documents
  {
    seq(|bins|, i requires 0 <= i < |bins| => bins[i].documents)
  }

  // Any way to group the documents under the same rules: a group fits the window or holds
  // one document.
  ghost predicate Feasible(groups: seq<seq<Document>>, docs: seq<Document>, window: int) {
    && multiset(Flat(groups)) == multiset(docs)
    && forall i {:trigger groups[i]} :: 0 <= i < |groups| ==> Fits(groups[i], window)
  }

  ghost predicate Fits(group: seq<Document>, window: int) {
    Pages(group) <= window || |group| == 1
  }

  lemma {:induction false} FlatAppend(a: seq<seq<Document>>, b: seq<seq<Document>>)
    ensures Flat(a + b) == Flat(a) + Flat(b)
  {
    if b == [] {
      assert a + b == a;
    } else {
      assert (a + b)[..|a| + |b| - 1] == a + b[..|b| - 1];
      FlatAppend(a, b[..|b| - 1]);
    }
  }

  lemma {:induction false} BagIsFlat(bins: seq<Batch>)
    ensures Bag(bins) == multiset(Flat(Groups(bins)))
  {
    if bins != [] {
      assert Groups(bins)[..|bins| - 1] == Groups(bins[..|bins| - 1]);
      BagIsFlat(bins[..|bins| - 1]);
    }
  }

  lemma MulStep(c: int, n: nat)
    ensures c * (n + 1) == c * n + c
  {
  }

  lemma {:induction false} FlatAtMost(weight: Document -> int, groups: seq<seq<Document>>, c: int)
    requires forall i {:trigger groups[i]} :: 0 <= i < |groups| ==> Sum(weight, groups[i]) <= c
    ensures Sum(weight, Flat(groups)) <= c * |groups|
  {
    if groups != [] {
      var last := |groups| - 1;
      var front := groups[..last];
      assert forall i {:trigger front[i]} :: 0 <= i < last ==> front[i] == groups[i];
      FlatAtMost(weight, front, c);
      SumAppend(weight, Flat(front), groups[last]);
      MulStep(c, last);
    }
  }

  lemma {:induction false} FlatAtLeast(weight: Document -> int, groups: seq<seq<Document>>, c: int)
    requires forall i {:trigger groups[i]} :: 0 <= i < |groups| ==> Sum(weight, groups[i]) >= c
    ensures Sum(weight, Flat(groups)) >= c * |groups|
  {
    if groups != [] {
      var last := |groups| - 1;
      var front := groups[..last];
      assert forall i {:trigger front[i]} :: 0 <= i < last ==> front[i] == groups[i];
      FlatAtLeast(weight, front, c);
      SumAppend(weight, Flat(front), groups[last]);
      MulStep(c, last);
    }
  }

  // A weight that no feasible group exceeds `c` in bounds a plan of `o` oversize batches of
  // weight c, others of weight b, and a last one of weight a.
  lemma WeightsCompare(weight: Document -> int, bins: seq<Batch>, groups: seq<seq<Document>>, o: nat, c: int, b: int,
                       a: int)
    requires o < |bins| && Bag(bins) == multiset(Flat(groups))
    requires forall i {:trigger groups[i]} :: 0 <= i < |groups| ==> Sum(weight, groups[i]) <= c
    requires forall i {:trigger bins[i]} :: 0 <= i < |bins| ==>
      Sum(weight, bins[i].documents) >= if i < o then c else if i < |bins| - 1 then b else a
    ensures c * o + b * (|bins| - 1 - o) + a <= c * |groups|
  {
    hide Sum, Bag, Flat;
    BagIsFlat(bins);
    SumPermuted(weight, Flat(Groups(bins)), Flat(groups));
    FlatAtMost(weight, groups, c);
    BatchesAtLeast(weight, bins, o, c, b, a);
  }

  lemma BatchesAtLeast(weight: Document -> int, bins: seq<Batch>, o: nat, c: int, b: int, a: int)
    requires o < |bins|
    requires forall i {:trigger bins[i]} :: 0 <= i < |bins| ==>
      Sum(weight, bins[i].documents) >= if i < o then c else if i < |bins| - 1 then b else a
    ensures c * o + b * (|bins| - 1 - o) + a <= Sum(weight, Flat(Groups(bins)))
  {
    hide Sum, Flat;
    var last := |bins| - 1;
    SliceAtLeast(weight, bins, 0, o, c);
    SliceAtLeast(weight, bins, o, last, b);
    SplitFlat(weight, Groups(bins), o, last);
    assert Sum(weight, Groups(bins)[last]) >= a;
  }

  lemma SliceAtLeast(weight: Document -> int, bins: seq<Batch>, lo: nat, hi: nat, c: int)
    requires lo <= hi <= |bins|
    requires forall i {:trigger bins[i]} :: lo <= i < hi ==> Sum(weight, bins[i].documents) >= c
    ensures Sum(weight, Flat(Groups(bins)[lo..hi])) >= c * (hi - lo)
  {
    hide Sum;
    var slice := Groups(bins)[lo..hi];
    forall i {:trigger slice[i]} | 0 <= i < |slice| ensures Sum(weight, slice[i]) >= c {
      var j := lo + i;
      assert slice[i] == bins[j].documents;
    }
    FlatAtLeast(weight, slice, c);
  }

  lemma FlatSnoc(g: seq<seq<Document>>)
    requires g != []
    ensures Flat(g) == Flat(g[..|g| - 1]) + g[|g| - 1]
  {
  }

  lemma SplitFlat(weight: Document -> int, g: seq<seq<Document>>, o: nat, last: nat)
    requires o <= last && |g| == last + 1
    ensures Sum(weight, Flat(g)) == Sum(weight, Flat(g[..o])) + Sum(weight, Flat(g[o..last])) + Sum(weight, g[last])
  {
    hide Sum, Flat;
    assert g[..o] + g[o..last] == g[..last];
    FlatAppend(g[..o], g[o..last]);
    FlatSnoc(g);
    SumAppend(weight, Flat(g[..o]), Flat(g[o..last]));
    SumAppend(weight, Flat(g[..last]), g[last]);
  }

  // The document counts 2 when nothing of `size` pages fits beside it, 1 when it has `size`
  // pages itself, else 0.
  ghost function Share(size: nat, window: int): Document -> int {
    (d: Document) => if d.pages < size then 0 else if d.pages + size > window then 2 else 1
  }

  ghost function Load(window: int): Document -> int {
    (d: Document) => if d.pages > window then window else d.pages
  }

  ghost function Excess(window: int): Document -> int {
    (d: Document) => if d.pages > window then 1 else 0
  }

  // With `size` over a third of the window, a group that fits has at most two shares.
  lemma {:induction false} ShareAtMostTwo(docs: seq<Document>, size: nat, window: int)
    requires 3 * size > window && Pages(docs) <= window
    ensures 0 <= Sum(Share(size, window), docs) <= 2
    ensures Sum(Share(size, window), docs) >= 1 ==> Pages(docs) >= size
    ensures Sum(Share(size, window), docs) == 2 ==> Pages(docs) > window - size
    ensures Pages(docs) >= 0
  {
    if docs != [] {
      SumNonNegative((d: Document) => d.pages, docs[..|docs| - 1]);
      ShareAtMostTwo(docs[..|docs| - 1], size, window);
    }
  }

  lemma {:induction false} ShareAtLeast(docs: seq<Document>, size: nat, window: int)
    ensures Sum(Share(size, window), docs) >= 0
    ensures BigPages(docs, size) > 0 ==> Sum(Share(size, window), docs) >= 1
    ensures BigPages(docs, size) + size > window && BigPages(docs, size) > 0 ==> Sum(Share(size, window), docs) >= 2
    ensures BigPages(docs, size) >= 0
  {
    if docs != [] {
      ShareAtLeast(docs[..|docs| - 1], size, window);
    }
  }

  lemma FitsShare(group: seq<Document>, size: nat, window: int)
    requires Fits(group, window) && 3 * size > window
    ensures Sum(Share(size, window), group) <= 2
  {
    if |group| == 1 {
      assert group == [group[0]];
      SumOne(Share(size, window), group[0]);
    } else {
      ShareAtMostTwo(group, size, window);
    }
  }

  // When the last batch was opened by a document of over a third of the window, no plan
  // needs fewer batches.
  lemma LargeLastIsOptimal(bins: seq<Batch>, docs: seq<Document>, window: int, o: nat, groups: seq<seq<Document>>)
    requires WellPlanned(bins, docs, window, o) && Feasible(groups, docs, window)
    requires o < |bins| && bins[|bins| - 1].documents != [] && 3 * bins[|bins| - 1].documents[0].pages > window
    ensures |bins| <= |groups|
  {
    hide Sum, Bag, Flat, Fits, Pages, BigPages;
    var last := |bins| - 1;
    var size := bins[last].documents[0].pages;
    forall i {:trigger groups[i]} | 0 <= i < |groups| ensures Sum(Share(size, window), groups[i]) <= 2 {
      FitsShare(groups[i], size, window);
    }
    forall i {:trigger bins[i]} | 0 <= i < |bins|
      ensures Sum(Share(size, window), bins[i].documents) >= if i < o then 2 else if i < last then 2 else 1
    {
      BatchShare(bins, docs, window, o, i);
    }
    WeightsCompare(Share(size, window), bins, groups, o, 2, 2, 1);
  }

  lemma BatchShare(bins: seq<Batch>, docs: seq<Document>, window: int, o: nat, i: nat)
    requires WellPlanned(bins, docs, window, o) && o < |bins| && i < |bins|
    requires bins[|bins| - 1].documents != [] && 3 * bins[|bins| - 1].documents[0].pages > window
    ensures Sum(Share(bins[|bins| - 1].documents[0].pages, window), bins[i].documents) >=
      if i < |bins| - 1 then 2 else 1
  {
    hide Sum, Bag, BigPages;
    var last := |bins| - 1;
    var size := bins[last].documents[0].pages;
    assert Consistent(bins[i], i);
    if i < o {
      var d := bins[i].documents[0];
      assert bins[i].documents == [d];
      SumOne(Share(size, window), d);
      SumOne((x: Document) => x.pages, d);
      LastOrdinary(bins, docs, window, o);
    } else if i < last {
      assert Tight(bins[i], bins[last], window);
      ShareAtLeast(bins[i].documents, size, window);
      LastOrdinary(bins, docs, window, o);
    } else {
      SumHasShare(bins[last].documents, size, window);
    }
  }

  lemma SumHasShare(docs: seq<Document>, size: nat, window: int)
    requires docs != [] && docs[0].pages == size
    ensures Sum(Share(size, window), docs) >= 1
  {
    hide Sum;
    forall x {:trigger Share(size, window)(x)} ensures Share(size, window)(x) >= 0 {
    }
    FirstWithin(Share(size, window), docs, docs[0]);
  }

  // The document that opened the last batch fits the window.
  lemma LastOrdinary(bins: seq<Batch>, docs: seq<Document>, window: int, o: nat)
    requires WellPlanned(bins, docs, window, o) && o < |bins|
    ensures bins[|bins| - 1].documents != []
    ensures bins[|bins| - 1].documents[0].pages <= bins[|bins| - 1].totalPages <= window
  {
    hide Sum, Bag;
    var task := bins[|bins| - 1];
    assert Consistent(task, |bins| - 1);
    FirstWithin((x: Document) => x.pages, task.documents, task.documents[0]);
  }

  lemma SmallLastIsClose(bins: seq<Batch>, docs: seq<Document>, window: int, o: nat, groups: seq<seq<Document>>)
    requires WellPlanned(bins, docs, window, o) && Feasible(groups, docs, window)
    requires o + 1 < |bins| && bins[|bins| - 1].documents != [] && 3 * bins[|bins| - 1].documents[0].pages <= window
    ensures 2 * (|bins| - o) <= 3 * (|groups| - o)
  {
    hide Sum, Bag, Flat, Fits, Pages, BigPages;
    var last := |bins| - 1;
    var size := bins[last].documents[0].pages;
    LastOrdinary(bins, docs, window, o);
    forall i {:trigger groups[i]} | 0 <= i < |groups| ensures Sum(Load(window), groups[i]) <= window {
      FitsLoad(groups[i], window);
    }
    forall i {:trigger bins[i]} | 0 <= i < |bins|
      ensures Sum(Load(window), bins[i].documents) >= if i < o then window
        else if i < last then window - size + 1 else size
    {
      BatchLoad(bins, docs, window, o, i);
    }
    WeightsCompare(Load(window), bins, groups, o, window, window - size + 1, size);
    ThreeHalves(|bins| - o, |groups| - o, window, size, o, |groups|);
  }

  lemma ThreeHalves(k: nat, m: int, window: nat, size: nat, o: nat, n: nat)
    requires k >= 2 && m == n - o && 3 * size <= window
    requires window * o + (window - size + 1) * (k - 1) + size <= window * n
    ensures 2 * k <= 3 * m
  {
    var kw, ks, mw := window * k, size * k, window * m;
    assert mw == window * n - window * o;
    assert (window - size + 1) * (k - 1) == kw - ks + k - window + size - 1;
    TimesOrdered(3 * size, window, k - 2);
    assert 3 * size * (k - 2) == 3 * ks - 6 * size && window * (k - 2) == kw - 2 * window;
    assert 3 * mw > 2 * kw - window;
    assert 3 * m * window == 3 * mw && (2 * k - 1) * window == 2 * kw - window;
    if 3 * m <= 2 * k - 1 {
      TimesOrdered(3 * m, 2 * k - 1, window);
      assert false;
    }
  }

  lemma TimesOrdered(a: int, b: int, c: nat)
    requires a <= b
    ensures a * c <= b * c
  {
  }

  lemma FitsLoad(group: seq<Document>, window: int)
    requires Fits(group, window) && window >= 0
    ensures Sum(Load(window), group) <= window
  {
    if |group| == 1 {
      assert group == [group[0]];
      SumOne(Load(window), group[0]);
    } else {
      LoadBelowPages(group, window);
    }
  }

  lemma {:induction false} LoadBelowPages(docs: seq<Document>, window: int)
    requires window >= 0
    ensures 0 <= Sum(Load(window), docs) <= Pages(docs)
    ensures Pages(docs) <= window ==> Sum(Load(window), docs) == Pages(docs)
  {
    if docs != [] {
      LoadBelowPages(docs[..|docs| - 1], window);
    }
  }

  lemma {:induction false} BigBelowPages(docs: seq<Document>, size: nat)
    ensures BigPages(docs, size) <= Pages(docs)
  {
    if docs != [] {
      BigBelowPages(docs[..|docs| - 1], size);
    }
  }

  lemma BatchLoad(bins: seq<Batch>, docs: seq<Document>, window: int, o: nat, i: nat)
    requires WellPlanned(bins, docs, window, o) && o < |bins| && i < |bins| && bins[|bins| - 1].documents != []
    requires window >= 0
    ensures var size := bins[|bins| - 1].documents[0].pages;
      Sum(Load(window), bins[i].documents) >= if i < o then window
        else if i < |bins| - 1 then window - size + 1 else size
  {
    hide Sum, Bag, BigPages, Pages;
    var last := |bins| - 1;
    var size := bins[last].documents[0].pages;
    assert Consistent(bins[i], i);
    if i < o {
      var d := bins[i].documents[0];
      assert bins[i].documents == [d];
      SumOne(Load(window), d);
      PagesOne(d);
    } else {
      LoadBelowPages(bins[i].documents, window);
      if i < last {
        assert Tight(bins[i], bins[last], window);
        BigBelowPages(bins[i].documents, size);
      } else {
        LastOrdinary(bins, docs, window, o);
      }
    }
  }

  lemma PagesOne(d: Document)
    ensures Pages([d]) == d.pages
  {
    SumOne((x: Document) => x.pages, d);
  }

  // ------------------------------------------------ a single other batch

  lemma {:induction false} OversizeIsSum(docs: seq<Document>, window: int)
    ensures Oversize(docs, window) == Sum(Excess(window), docs)
  {
    if docs != [] {
      OversizeIsSum(docs[..|docs| - 1], window);
    }
  }

  lemma FitsExcess(group: seq<Document>, window: int)
    requires Fits(group, window)
    ensures Sum(Excess(window), group) <= 1
    ensures (exists d :: d in group && d.pages <= window) ==> Sum(Excess(window), group) <= 0
  {
    if |group| == 1 {
      assert group == [group[0]];
      SumOne(Excess(window), group[0]);
    } else {
      NoExcess(group, window);
    }
  }

  lemma {:induction false} NoExcess(docs: seq<Document>, window: int)
    requires Pages(docs) <= window
    ensures Sum(Excess(window), docs) == 0
  {
    if docs != [] {
      SumNonNegative((d: Document) => d.pages, docs[..|docs| - 1]);
      NoExcess(docs[..|docs| - 1], window);
    }
  }

  // Oversize documents take a group each, and an ordinary one needs another.
  lemma {:induction false} GroupsForOversize(groups: seq<seq<Document>>, window: int)
    requires forall i {:trigger groups[i]} :: 0 <= i < |groups| ==> Fits(groups[i], window)
    ensures Sum(Excess(window), Flat(groups)) <= |groups|
    ensures (exists d :: d in Flat(groups) && d.pages <= window) ==> Sum(Excess(window), Flat(groups)) < |groups|
  {
    hide Fits;
    if groups != [] {
      var last := |groups| - 1;
      GroupsForOversize(groups[..last], window);
      FitsExcess(groups[last], window);
      SumAppend(Excess(window), Flat(groups[..last]), groups[last]);
    }
  }

  // ----------------------------------------------------------- the bound

  lemma LeaveAGroup(docs: seq<Document>, window: int, d: Document, groups: seq<seq<Document>>)
    requires Feasible(groups, docs, window)
    ensures Oversize(docs, window) <= |groups|
    ensures d in docs && d.pages <= window ==> Oversize(docs, window) < |groups|
  {
    hide Sum, Fits;
    GroupsForOversize(groups, window);
    OversizeIsSum(docs, window);
    SumPermuted(Excess(window), Flat(groups), docs);
    if d in docs {
      assert d in multiset(docs);
      assert d in Flat(groups);
    }
  }

  // Beside the oversize documents, which need a batch each, the plan has at most 3/2 times
  // the batches of any other plan.
  lemma WithinThreeHalves(documents: seq<Document>, window: int, groups: seq<seq<Document>>)
    requires Feasible(groups, documents, window)
    ensures var o := Oversize(documents, window);
      2 * (|Plan(SortDocuments(documents), window)| - o) <= 3 * (|groups| - o)
  {
    hide Sum, Fits, Plan, WellPlanned, Bag;
    var sorted := SortDocuments(documents);
    var bins, o := Plan(sorted, window), Oversize(sorted, window);
    SortDocumentsSorted(documents);
    PlanIsWell(sorted, window);
    OversizeIsSum(sorted, window);
    OversizeIsSum(documents, window);
    SumPermuted(Excess(window), sorted, documents);
    WellPlannedCount(bins, sorted, window, o);
    if |bins| > o {
      LastOrdinary(bins, sorted, window, o);
      var first := bins[|bins| - 1].documents[0];
      LastInDocuments(bins, sorted, window, o);
      LeaveAGroup(sorted, window, first, groups);
      if 3 * first.pages > window {
        LargeLastIsOptimal(bins, sorted, window, o, groups);
      } else if |bins| > o + 1 {
        SmallLastIsClose(bins, sorted, window, o, groups);
      }
    } else {
      LeaveAGroup(sorted, window, Document("", 0, 0), groups);
    }
  }

  lemma WellPlannedCount(bins: seq<Batch>, docs: seq<Document>, window: int, o: nat)
    requires WellPlanned(bins, docs, window, o)
    ensures o <= |bins|
  {
  }

  lemma LastInDocuments(bins: seq<Batch>, docs: seq<Document>, window: int, o: nat)
    requires WellPlanned(bins, docs, window, o) && bins != [] && bins[|bins| - 1].documents != []
    ensures bins[|bins| - 1].documents[0] in docs
  {
    var d := bins[|bins| - 1].documents[0];
    BagHas(bins, |bins| - 1, d);
    assert d in multiset(docs);
  }

  // No two batches within the window could have been one.
  lemma NoTwoBatchesFit(documents: seq<Document>, window: int, i: nat, j: nat)
    requires var bins := Plan(SortDocuments(documents), window);
      i < j < |bins| && bins[i].totalPages <= window && bins[j].totalPages <= window
    ensures var bins := Plan(SortDocuments(documents), window);
      bins[i].totalPages + bins[j].totalPages > window
  {
    hide Sum, Plan, BigPages, Pages;
    var sorted := SortDocuments(documents);
    var bins, o := Plan(sorted, window), Oversize(sorted, window);
    SortDocumentsSorted(documents);
    PlanIsWell(sorted, window);
    assert Tight(bins[i], bins[j], window);
    BigBelowPages(bins[i].documents, bins[j].documents[0].pages);
    assert Consistent(bins[i], i) && Consistent(bins[j], j);
    PagesHaveFirst(bins[j].documents);
  }

  lemma PagesHaveFirst(docs: seq<Document>)
    requires docs != []
    ensures Pages(docs) >= docs[0].pages
  {
    FirstWithin((x: Document) => x.pages, docs, docs[0]);
  }
}

/**
 Cutting repeated header rows off a continuation table: the cut is widened
 until no skipped row's rowspan reaches a kept row.
 */
module TableHeader {
  import opened Wrappers
  import opened TableGrid
  import opened TableLayout

  predicate Crosses(rows: seq<Row>, r: nat, k: nat, cut: nat)
    requires r < |rows| && k < |rows[r]|
  {
    r + rows[r][k].rowspan > cut
  }

  // No cell of a skipped row spans into a kept row.
  ghost predicate Closed(rows: seq<Row>, cut: nat)
  {
    cut <= |rows| &&
    (cut < |rows| ==> forall r: nat, k: nat {:trigger Crosses(rows, r, k, cut)} {:trigger rows[r][k]} ::
       r < cut && k < |rows[r]| ==> !Crosses(rows, r, k, cut))
  }

  method ExpandHeaderCountByRowspan(rows: seq<Row>, headerCount: int) returns (cut: int)
    ensures headerCount <= 0 || rows == [] ==> cut == headerCount
    ensures headerCount > 0 && rows != [] ==>
      && Min(headerCount, |rows|) <= cut && Closed(rows, cut)
      && forall c: nat {:trigger Closed(rows, c)} :: Min(headerCount, |rows|) <= c && Closed(rows, c) ==> cut <= c
  {
    if headerCount <= 0 || rows == [] {
      return headerCount;
    }
    var base := Min(headerCount, |rows|);
    cut := base;
    var rowIdx := 0;
    while rowIdx < cut
      invariant 0 <= rowIdx <= cut && base <= cut <= |rows|
      invariant forall c: nat {:trigger Closed(rows, c)} :: base <= c && Closed(rows, c) ==> cut <= c
      invariant cut < |rows| ==> forall r: nat, k: nat {:trigger rows[r][k]} ::
        r < rowIdx && k < |rows[r]| ==> r + rows[r][k].rowspan <= cut
      decreases |rows| - rowIdx
    {
      var row := rows[rowIdx];
      for k := 0 to |row|
        invariant rowIdx < cut && base <= cut <= |rows|
        invariant forall c: nat {:trigger Closed(rows, c)} :: base <= c && Closed(rows, c) ==> cut <= c
        invariant cut < |rows| ==> forall r: nat, j: nat {:trigger rows[r][j]} ::
          r <= rowIdx && j < |rows[r]| && (r < rowIdx || j < k) ==> r + rows[r][j].rowspan <= cut
      {
        var rowspan := row[k].rowspan;
        if rowspan > 1 {
          forall c: nat | base <= c && Closed(rows, c)
            ensures Min(Max(cut, rowIdx + rowspan), |rows|) <= c
          {
            assert c < |rows| ==> !Crosses(rows, rowIdx, k, c);
          }
          cut := Max(cut, rowIdx + rowspan);
          cut := Min(cut, |rows|);
        }
      }
      rowIdx := rowIdx + 1;
    }
    assert Closed(rows, cut) by {
      forall r: nat, k: nat | cut < |rows| && r < cut && k < |rows[r]| ensures !Crosses(rows, r, k, cut) {
        assert r + rows[r][k].rowspan <= cut;
      }
    }
  }

  ghost predicate SpansPast(rows: seq<Row>, bound: nat)
  {
    exists r: nat, k: nat {:trigger rows[r][k]} :: r < |rows| && k < |rows[r]| && r + rows[r][k].rowspan > bound
  }

  // Everything carried out of the first n rows comes from a cell spanning past them, or from `f`.
  lemma {:induction false} CarrySource(rows: seq<Row>, f: Occupancy, s: Slot)
    requires s in Carry(rows, f)
    ensures Slot(s.row + |rows|, s.col) in f || SpansPast(rows, |rows| + s.row)
  {
    hide PlaceRow, NextFree, RowCols;
    if rows != [] {
      var g := Advance(f, rows[0]);
      CarrySource(rows[1..], g, s);
      if Slot(s.row + |rows| - 1, s.col) in g {
        var landed := Slot(s.row + |rows|, s.col);
        if landed !in f {
          PlaceRowMembers(rows[0], RowCols(f, 0), 0, landed);
          var k :| 0 <= k < |rows[0]| && landed in Block(Starts(rows[0], RowCols(f, 0), 0)[k], rows[0][k]);
          assert rows[0][k].rowspan > |rows| + s.row;
        }
      } else {
        var r: nat, k: nat :| r < |rows| - 1 && k < |rows[1..][r]| && r + rows[1..][r][k].rowspan > |rows| - 1 + s.row;
        assert r + 1 + rows[r + 1][k].rowspan > |rows| + s.row;
      }
    }
  }

  // Nothing crosses a closed cut that leaves some row, and only then.
  lemma ClosedIffNothingCarried(rows: seq<Row>, cut: nat)
    requires cut < |rows| && forall r, k {:trigger rows[r][k]} :: 0 <= r < |rows| && 0 <= k < |rows[r]| ==>
      rows[r][k].colspan >= 1
    ensures Closed(rows, cut) <==> Carry(rows[..cut], {}) == {}
  {
    if Closed(rows, cut) {
      ClosedCarriesNothing(rows, cut);
    }
    if Carry(rows[..cut], {}) == {} {
      forall r: nat, k: nat | r < cut && k < |rows[r]| ensures !Crosses(rows, r, k, cut) {
        if Crosses(rows, r, k, cut) {
          SpanIsCarried(rows[..cut], {}, r, k, 0);
        }
      }
    }
  }

  lemma CarriedIsOpen(rows: seq<Row>, cut: nat, s: Slot)
    requires cut < |rows| && s in Carry(rows[..cut], {})
    ensures !Closed(rows, cut)
  {
    CarrySource(rows[..cut], {}, s);
    var r: nat, k: nat :| r < cut && k < |rows[..cut][r]| && r + rows[..cut][r][k].rowspan > cut + s.row;
    assert Crosses(rows, r, k, cut);
  }

  lemma ClosedCarriesNothing(rows: seq<Row>, cut: nat)
    requires Closed(rows, cut) && cut < |rows|
    ensures Carry(rows[..cut], {}) == {}
  {
    if Carry(rows[..cut], {}) != {} {
      var s :| s in Carry(rows[..cut], {});
      CarriedIsOpen(rows, cut, s);
    }
  }

  // A cell that spans past the last row leaves its columns occupied there.
  lemma {:induction false} SpanIsCarried(rows: seq<Row>, f: Occupancy, r: nat, k: nat, below: nat)
    requires r < |rows| && k < |rows[r]|
    requires Crosses(rows, r, k, |rows| + below) && rows[r][k].colspan >= 1
    ensures exists s :: s in Carry(rows, f) && s.row == below
  {
    var g := Advance(f, rows[0]);
    if r > 0 {
      assert Crosses(rows[1..], r - 1, k, |rows| - 1 + below);
      SpanIsCarried(rows[1..], g, r - 1, k, below);
    } else {
      var start := Starts(rows[0], RowCols(f, 0), 0)[k];
      var landed := Slot(|rows| + below, start);
      assert landed in Block(start, rows[0][k]);
      PlaceRowMembers(rows[0], RowCols(f, 0), 0, landed);
      assert Slot(|rows| - 1 + below, start) in g;
      CarryKeeps(rows[1..], g, Slot(below, start));
    }
  }

  lemma {:induction false} CarryKeeps(rows: seq<Row>, f: Occupancy, s: Slot)
    requires Slot(s.row + |rows|, s.col) in f
    ensures s in Carry(rows, f)
  {
    if rows != [] {
      assert Slot(s.row + |rows| - 1, s.col) in Advance(f, rows[0]);
      CarryKeeps(rows[1..], Advance(f, rows[0]), s);
    }
  }

  // Scanning the kept rows alone gives the slice of the full scan the merge code indexes into.
  lemma KeptRowsScanAlone(rows: seq<Row>, cut: nat)
    requires Closed(rows, cut) && cut < |rows|
    ensures Metrics(rows, {}, 0)[cut..] == Metrics(rows[cut..], {}, cut)
    ensures EffectiveCols(rows, {})[cut..] == EffectiveCols(rows[cut..], {})
    ensures Carry(rows, {}) == Carry(rows[cut..], {})
    ensures forall t: nat {:trigger RowStarts(rows, cut + t, {})} :: t < |rows| - cut ==>
      RowStarts(rows, cut + t, {}) == RowStarts(rows[cut..], t, {})
  {
    hide Metric, Advance, TotalCols, RowsWidth, LastNonempty;
    assert rows == rows[..cut] + rows[cut..];
    ScanComposes(rows[..cut], rows[cut..], {}, 0);
    ClosedCarriesNothing(rows, cut);
    forall t: nat | t < |rows| - cut
      ensures RowStarts(rows, cut + t, {}) == RowStarts(rows[cut..], t, {})
    {
      assert rows[..cut + t] == rows[..cut] + rows[cut..][..t];
      CarryComposes(rows[..cut], rows[cut..][..t], {});
    }
  }
}

/** The fused grouped soft average (engine/bruce-core/src/mask.rs): one scan over the rows, with a
    pushed-down selection, under any chunking. It is specified as masked attention over the pair stream
    `(gid[r], r)` of the selected rows. */
module GroupedSoftavg {
  import opened Wrappers
  import opened Exponential
  import S = SoftAccumulator
  import opened MaskedAttention

  datatype Scan = Scan(n: nat, xDim: nat, kDim: nat, dV: nat, v: seq<seq<Option<real>>>,
                       score: nat -> Option<S.Score>, gid: seq<nat>, nGroups: nat, sel: Option<seq<bool>>)
  {
    /** The call's argument checks pass. */
    ghost predicate Accepted() {
      && |v| == n && kDim == xDim && |gid| == n
      && (sel.Some? ==> |sel.value| == n)
      && forall r :: 0 <= r < n ==> gid[r] < nGroups
    }

    ghost predicate Shaped() {
      forall r :: 0 <= r < |v| ==> |v[r]| == dV
    }

    /** The same computation as an attention call: one query per group, one key per row. */
    function AsMask(): Inputs {
      Inputs(nGroups, xDim, kDim, n, dV, v, (g: nat, r: nat) => score(r))
    }

    predicate Selected(r: nat)
      requires r < n && (sel.Some? ==> |sel.value| == n)
    {
      sel.Some? ==> sel.value[r]
    }

    /** The mask of the selected rows in `lo..hi`. */
    ghost function Stream(lo: nat, hi: nat): (pairs: seq<Pair>)
      requires Accepted() && lo <= hi <= n
      ensures AllInRange(AsMask(), pairs)
    {
      if lo == hi then []
      else Stream(lo, hi - 1) + (if Selected(hi - 1) then [(gid[hi - 1], hi - 1)] else [])
    }
  }

  /** The mask is what the operator is documented to aggregate: exactly the selected rows, each under its
      own group. */
  lemma {:induction false} StreamMembers(g: Scan, lo: nat, hi: nat, p: Pair)
    requires g.Accepted() && lo <= hi <= g.n
    ensures p in g.Stream(lo, hi) <==> lo <= p.1 < hi && g.Selected(p.1) && p.0 == g.gid[p.1]
  {
    if lo < hi {
      StreamMembers(g, lo, hi - 1, p);
    }
  }

  lemma {:induction false} StreamSplits(g: Scan, lo: nat, mid: nat, hi: nat)
    requires g.Accepted() && lo <= mid <= hi <= g.n
    ensures g.Stream(lo, hi) == g.Stream(lo, mid) + g.Stream(mid, hi)
  {
    if mid < hi {
      StreamSplits(g, lo, mid, hi - 1);
      var last: seq<Pair> := if g.Selected(hi - 1) then [(g.gid[hi - 1], hi - 1)] else [];
      assert g.Stream(lo, hi) == g.Stream(lo, hi - 1) + last;
      assert g.Stream(mid, hi) == g.Stream(mid, hi - 1) + last;
    }
  }

  /** One more scanned row: it joins its group when it is selected and neither argument is NULL. */
  ghost function ScanStep(g: Scan, rows: seq<seq<VRow>>, r: nat): (next: seq<seq<VRow>>)
    requires g.Accepted() && r < g.n && |rows| == g.nGroups
    ensures |next| == g.nGroups
  {
    if g.Selected(r) && g.score(r).Some? && NoNull(g.v[r])
    then rows[g.gid[r] := rows[g.gid[r]] + [VRow(g.score(r).value, Values(g.v[r]))]] else rows
  }

  /** Group by group, the rows `lo..hi` of the scan that survive selection and the NULL rule. */
  ghost function ScanRows(g: Scan, lo: nat, hi: nat): (rows: seq<seq<VRow>>)
    requires g.Accepted() && lo <= hi <= g.n
    ensures |rows| == g.nGroups
  {
    if lo == hi then NoRows(g.nGroups) else ScanStep(g, ScanRows(g, lo, hi - 1), hi - 1)
  }

  /** The scan sees exactly the rows the mask would deliver. */
  lemma {:induction false} ScanIsMask(g: Scan, lo: nat, hi: nat)
    requires g.Accepted() && lo <= hi <= g.n
    ensures ScanRows(g, lo, hi) == AllRows(g.AsMask(), g.Stream(lo, hi))
  {
    if lo == hi {
      AllRowsEmpty(g.AsMask());
    } else {
      var d, r := g.AsMask(), hi - 1;
      var p := (g.gid[r], r);
      ScanIsMask(g, lo, r);
      assert d.score(p.0, p.1) == g.score(r);
      if g.Selected(r) {
        AllRowsSnoc(d, g.Stream(lo, r), p);
      } else {
        assert g.Stream(lo, hi) == g.Stream(lo, r);
      }
    }
  }

  /** Read off the scan: the rows of group `i` that are selected and NULL in neither argument, each as its own score and
      component `c` of its own value row. */
  ghost function SeenRows(g: Scan, i: nat, c: nat, n: nat): seq<S.Row>
    requires g.Accepted() && n <= g.n
  {
    if n == 0 then []
    else
      var r := n - 1;
      var numbers := g.score(r) != None && forall x :: 0 <= x < |g.v[r]| ==> g.v[r][x] != None;
      SeenRows(g, i, c, r) +
      if g.gid[r] == i && (g.sel == None || g.sel.value[r]) && numbers
      then [S.Row(g.score(r).value, if c < |g.v[r]| then g.v[r][c].value else 0.0)] else []
  }

  /** The scan sees what masked attention sees on the pairs `(gid[r], r)` of the selected rows. */
  lemma {:induction false} SeenIsMask(g: Scan, i: nat, c: nat, n: nat)
    requires g.Accepted() && n <= g.n
    ensures SeenRows(g, i, c, n) == Seen(g.AsMask(), g.Stream(0, n), i, c, |g.Stream(0, n)|)
  {
    if n > 0 {
      SeenIsMask(g, i, c, n - 1);
      var d, most, all := g.AsMask(), g.Stream(0, n - 1), g.Stream(0, n);
      if g.Selected(n - 1) {
        assert all == most + [(g.gid[n - 1], n - 1)];
        SeenAgree(d, all, most, i, c, |most|);
        assert d.score(g.gid[n - 1], n - 1) == g.score(n - 1);
      } else {
        assert all == most;
      }
    }
  }

  lemma {:induction false} SeenAgree(d: Inputs, a: seq<Pair>, b: seq<Pair>, i: nat, c: nat, n: nat)
    requires AllInRange(d, a) && AllInRange(d, b)
    requires n <= |a| && n <= |b| && forall k :: 0 <= k < n ==> a[k] == b[k]
    ensures Seen(d, a, i, c, n) == Seen(d, b, i, c, n)
  {
    if n > 0 {
      SeenAgree(d, a, b, i, c, n - 1);
    }
  }

  /** What group `i` must answer: the soft mean of what it sees, component by component, or uncovered and zero. */
  ghost predicate AnswersGroup(e: real -> real, g: Scan, i: nat, out: seq<real>, covered: bool, eps: Temp)
    requires eps.Valid() && g.Accepted()
  {
    && (covered <==> S.SoftMean(e, SeenRows(g, i, 0, g.n), eps).Some?)
    && forall c :: 0 <= c < |out| ==>
         if covered then S.SoftMean(e, SeenRows(g, i, c, g.n), eps) == Some(out[c]) else out[c] == 0.0
  }

  lemma {:induction false} GroupAnswered(e: real -> real, g: Scan, i: nat, out: seq<real>, covered: bool, eps: Temp)
    requires eps.Valid() && g.Accepted()
    requires AnswersRow(e, g.AsMask(), g.Stream(0, g.n), i, out, covered, eps)
    ensures AnswersGroup(e, g, i, out, covered, eps)
  {
    SeenIsMask(g, i, 0, g.n);
    forall c | 0 <= c < |out|
      ensures if covered then S.SoftMean(e, SeenRows(g, i, c, g.n), eps) == Some(out[c]) else out[c] == 0.0
    {
      SeenIsMask(g, i, c, g.n);
    }
  }

  /** The body of the scan: one row, skipped or absorbed by its group's accumulator. */
  method ScanOne(e: real -> real, g: Scan, accs: seq<RowAcc>, r: nat, ghost rows: seq<seq<VRow>>, eps: Temp)
    requires IsExp(e) && eps.Valid() && g.Accepted() && g.Shaped() && r < g.n && |rows| == g.nGroups
    requires Stands(e, accs, rows, g.dV, eps)
    modifies accs
    ensures Stands(e, accs, ScanStep(g, rows, r), g.dV, eps)
  {
    if g.sel.Some? && !g.sel.value[r] {
      return;
    }
    var s := g.score(r);
    var hasNull := HasNull(g.v[r]);
    if s.None? || hasNull {
      return;
    }
    var i := g.gid[r];
    AbsorbAtIndex(e, accs, i, VRow(s.value, Values(g.v[r])), rows, g.dV, eps);
  }

  method ScanRange(e: real -> real, g: Scan, lo: nat, hi: nat, eps: Temp)
    returns (accs: seq<RowAcc>, ghost rows: seq<seq<VRow>>)
    requires IsExp(e) && eps.Valid() && g.Accepted() && g.Shaped() && lo <= hi <= g.n
    ensures rows == ScanRows(g, lo, hi) && Stands(e, accs, rows, g.dV, eps) && fresh(accs)
  {
    hide IsExp, ScanStep;
    accs := NewAccs(g.nGroups, g.dV, e, eps);
    rows := NoRows(g.nGroups);
    for r := lo to hi
      invariant rows == ScanRows(g, lo, r) && fresh(accs)
      invariant Stands(e, accs, rows, g.dV, eps)
    {
      ScanOne(e, g, accs, r, rows, eps);
      rows := ScanStep(g, rows, r);
    }
  }

  method FoldRange(e: real -> real, g: Scan, lo: nat, hi: nat, eps: Temp) returns (accs: seq<RowAcc>)
    requires IsExp(e) && eps.Valid() && g.Accepted() && g.Shaped() && lo <= hi <= g.n
    ensures Folded(e, g.AsMask(), accs, g.Stream(lo, hi), eps) && fresh(accs)
  {
    ghost var rows;
    accs, rows := ScanRange(e, g, lo, hi, eps);
    ScanIsMask(g, lo, hi);
  }

  method ReduceRanges(e: real -> real, g: Scan, eps: Temp, plan: Plan, ghost lo: nat, ghost hi: nat)
    returns (accs: seq<RowAcc>)
    requires IsExp(e) && eps.Valid() && g.Accepted() && g.Shaped()
    requires lo <= hi <= g.n && Covers(plan, lo, hi)
    ensures Folded(e, g.AsMask(), accs, g.Stream(lo, hi), eps) && fresh(accs)
    decreases plan
  {
    match plan {
      case Identity =>
        accs := NewAccs(g.nGroups, g.dV, e, eps);
        AllRowsEmpty(g.AsMask());
      case Chunk(a, b) =>
        accs := FoldRange(e, g, a, b, eps);
      case Join(l, mid, r) =>
        accs := ReduceRanges(e, g, eps, l, lo, mid);
        var right := ReduceRanges(e, g, eps, r, mid, hi);

        ghost var d := g.AsMask();
        StreamSplits(g, lo, mid, hi);
        AllRowsAppend(d, g.Stream(lo, mid), g.Stream(mid, hi));
        MergeInto(e, accs, right, AllRows(d, g.Stream(lo, mid)), AllRows(d, g.Stream(mid, hi)), g.dV, eps);
    }
  }

  method MaxGroup(gid: seq<nat>) returns (m: nat)
    requires gid != []
    ensures m in gid && forall r :: 0 <= r < |gid| ==> gid[r] <= m
  {
    m := gid[0];
    for r := 1 to |gid|
      invariant m in gid && forall k :: 0 <= k < r ==> gid[k] <= m
    {
      if gid[r] > m {
        m := gid[r];
      }
    }
  }

  /** The argument a call is refused for: the first whose length is wrong, or else the largest group id. */
  ghost predicate Refuses(g: Scan, error: Error) {
    if |g.v| != g.n then error == DimensionMismatch(g.n, |g.v|)
    else if g.kDim != g.xDim then error == DimensionMismatch(g.xDim, g.kDim)
    else if |g.gid| != g.n then error == DimensionMismatch(g.n, |g.gid|)
    else if g.sel != None && |g.sel.value| != g.n then error == DimensionMismatch(g.n, |g.sel.value|)
    else exists top :: top in g.gid && top >= g.nGroups && (forall x :: x in g.gid ==> x <= top)
                       && error == DimensionMismatch(g.nGroups, top + 1)
  }

  /** The grouped soft average: every group answers for its own selected rows, however the scan was chunked and the
      partial results merged. */
  method Grouped(e: real -> real, g: Scan, eps: Temp, plan: Plan)
    returns (r: Result<(seq<seq<real>>, seq<bool>), Error>)
    requires IsExp(e) && eps.Valid() && g.Shaped() && Covers(plan, 0, g.n)
    ensures r.Ok? <==> g.Accepted()
    ensures r.Err? ==> Refuses(g, r.error)
    ensures r.Ok? ==>
        var (out, covered) := r.value;
        |out| == |covered| == g.nGroups &&
        forall i :: 0 <= i < g.nGroups ==> |out[i]| == g.dV && AnswersGroup(e, g, i, out[i], covered[i], eps)
  {
    if |g.v| != g.n {
      return Err(DimensionMismatch(g.n, |g.v|));
    }
    if g.kDim != g.xDim {
      return Err(DimensionMismatch(g.xDim, g.kDim));
    }
    if |g.gid| != g.n {
      return Err(DimensionMismatch(g.n, |g.gid|));
    }
    if g.sel.Some? && |g.sel.value| != g.n {
      return Err(DimensionMismatch(g.n, |g.sel.value|));
    }
    if g.gid != [] {
      var top := MaxGroup(g.gid);
      if top >= g.nGroups {
        return Err(DimensionMismatch(g.nGroups, top + 1));
      }
    }
    var accs: seq<RowAcc>;
    if g.n < PAIR_PARALLEL_THRESHOLD {
      accs := FoldRange(e, g, 0, g.n, eps);
    } else {
      accs := ReduceRanges(e, g, eps, plan, 0, g.n);
    }
    var out, covered := Collect(e, g.AsMask(), accs, g.Stream(0, g.n), eps);
    forall i | 0 <= i < g.nGroups ensures AnswersGroup(e, g, i, out[i], covered[i], eps) {
      GroupAnswered(e, g, i, out[i], covered[i], eps);
    }
    return Ok((out, covered));
  }
}

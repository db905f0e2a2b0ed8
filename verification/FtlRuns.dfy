/** Whole runs of the FTL: any sequence of host writes and trims, with garbage collection
    wherever the device decides to run it. */
module FtlRuns {
  import opened Counting
  import opened FlashPages
  import opened Ftl

  datatype HostOp =
    | HostWrite(offset: nat, size: nat, payload: nat)
    | HostTrim(offset: nat, size: nat)

  /** What the FTL asserts of its callers. */
  predicate Aligned(op: HostOp) {
    && op.offset % SECTOR_SIZE == 0 && op.size % SECTOR_SIZE == 0
    && (op.HostWrite? ==> op.size > 0)
  }

  function Pages(op: HostOp): set<nat> {
    Span(op.offset, op.size)
  }

  /** The store the host should see after the first n operations. */
  function After(ops: seq<HostOp>, n: nat): map<nat, nat>
    requires n <= |ops|
  {
    if n == 0 then map[] else
      var before := After(ops, n - 1);
      match ops[n - 1]
      case HostWrite(_, _, payload) => Overwrite(before, Pages(ops[n - 1]), payload)
      case HostTrim(_, _) => before - Pages(ops[n - 1])
  }

  /** The pages an operation writes. */
  function Charge(op: HostOp): nat {
    if op.HostWrite? then |Pages(op)| else 0
  }

  /** Host pages written by the first n operations. */
  function HostPages(ops: seq<HostOp>, n: nat): nat
    requires n <= |ops|
  {
    if n == 0 then 0 else HostPages(ops, n - 1) + Charge(ops[n - 1])
  }

  lemma AfterWrite(ops: seq<HostOp>, n: nat)
    requires n < |ops| && ops[n].HostWrite?
    ensures After(ops, n + 1) == Overwrite(After(ops, n), Span(ops[n].offset, ops[n].size), ops[n].payload)
    ensures After(ops, n + 1).Keys == After(ops, n).Keys + Span(ops[n].offset, ops[n].size)
    ensures |After(ops, n + 1)| == |After(ops, n).Keys + Span(ops[n].offset, ops[n].size)|
    ensures Charge(ops[n]) == |Span(ops[n].offset, ops[n].size)|
  {
    hide Span;
    assert |After(ops, n + 1)| == |After(ops, n + 1).Keys|;
  }

  lemma AfterTrim(ops: seq<HostOp>, n: nat)
    requires n < |ops| && ops[n].HostTrim?
    ensures After(ops, n + 1) == After(ops, n) - Span(ops[n].offset, ops[n].size)
    ensures After(ops, n + 1).Keys == After(ops, n).Keys - Span(ops[n].offset, ops[n].size)
    ensures Charge(ops[n]) == 0
  {
    hide Span;
  }

  /** The last of the first n operations to touch a logical page. */
  function LastTouch(ops: seq<HostOp>, n: nat, lpn: nat): (last: Option<nat>)
    requires n <= |ops|
    ensures last.Some? ==> last.value < n && lpn in Pages(ops[last.value])
    ensures last.None? ==> forall j :: 0 <= j < n ==> lpn !in Pages(ops[j])
    ensures last.Some? ==> forall j :: last.value < j < n ==> lpn !in Pages(ops[j])
  {
    hide Pages;
    if n == 0 then None
    else if lpn in Pages(ops[n - 1]) then Some(n - 1)
    else LastTouch(ops, n - 1, lpn)
  }

  /** The expected store says, of every page, what the last operation touching it did. */
  lemma {:induction false} LastTouchDecides(ops: seq<HostOp>, n: nat, lpn: nat)
    requires n <= |ops|
    ensures var last := LastTouch(ops, n, lpn);
            && (lpn in After(ops, n) <==> last.Some? && ops[last.value].HostWrite?)
            && (lpn in After(ops, n) ==> After(ops, n)[lpn] == ops[last.value].payload)
  {
    hide Span;
    if n > 0 {
      LastTouchDecides(ops, n - 1, lpn);
    }
  }

  /** Between operations every programmed page is accounted for. */
  lemma Accounts(ftl: PageMappingFtl)
    requires ftl.Valid()
    ensures ftl.nandWritePages == ftl.hostWritePages + ftl.migrated
    ensures ftl.nandWritePages == TotalWritten(ftl.blocks, |ftl.blocks|) + PagesIn(ftl.erases, ftl.pagesPerBlock)
  {}

  /** Runs the operations on a device until done or until a write cannot complete.
      A completed run leaves exactly the expected store and the exact write accounting;
      a run is cut short only when the expected store outgrows all but four blocks. */
  method Run(ftl: PageMappingFtl, ops: seq<HostOp>) returns (n: nat)
    requires ftl.Valid() && ftl.Contents() == map[] && ftl.lpnToPpn == map[] && ftl.hostWritePages == 0
    requires forall i :: 0 <= i < |ops| ==> Aligned(ops[i])
    modifies ftl, ftl.gcPolicy
    ensures n <= |ops|
    ensures n == |ops| ==>
              && ftl.Valid()
              && ftl.Contents() == After(ops, n)
              && ftl.hostWritePages == HostPages(ops, n)
              && ftl.nandWritePages == HostPages(ops, n) + ftl.migrated
              && ftl.nandWritePages == TotalWritten(ftl.blocks, |ftl.blocks|) + PagesIn(ftl.erases, ftl.pagesPerBlock)
    ensures n < |ops| ==> ops[n].HostWrite? && ftl.Stuck() && |After(ops, n + 1)| > ftl.Capacity()
    ensures (forall k :: 0 <= k <= |ops| ==> |After(ops, k)| <= ftl.Capacity()) ==> n == |ops|
    ensures (exists k :: 0 <= k <= |ops| && |After(ops, k)| > ftl.Capacity() + ftl.pagesPerBlock) ==> n < |ops|
    ensures old(ftl.HostFill()) == 0 && n < |ops| ==> HostPages(ops, n + 1) > ftl.pagesPerBlock
  {
    hide Aligned, After, Charge, PagesIn, TotalWritten, PageMappingFtl.Valid, PageMappingFtl.Contents,
         PageMappingFtl.Stuck, PageMappingFtl.Capacity, PageMappingFtl.HostFill;
    n := 0;
    NothingYet(ops);
    Holds(ftl, After(ops, 0));
    while n < |ops|
      invariant n <= |ops|
      invariant ftl.Valid()
      invariant ftl.Contents() == After(ops, n)
      invariant ftl.lpnToPpn.Keys == After(ops, n).Keys
      invariant ftl.hostWritePages == HostPages(ops, n)
      invariant forall k :: 0 <= k <= n ==> |After(ops, k)| <= ftl.Capacity() + ftl.pagesPerBlock
      invariant old(ftl.HostFill()) == 0 && HostPages(ops, n) <= ftl.pagesPerBlock ==> ftl.HostFill() == HostPages(ops, n)
    {
      var done := Step(ftl, ops, n);
      if !done {
        return;
      }
      n := n + 1;
      Holds(ftl, After(ops, n));
    }
    Accounts(ftl);
  }

  lemma NothingYet(ops: seq<HostOp>)
    ensures After(ops, 0) == map[]
  {}

  lemma Holds(ftl: PageMappingFtl, store: map<nat, nat>)
    requires ftl.Valid() && ftl.lpnToPpn.Keys == store.Keys
    ensures |store| <= ftl.Capacity() + ftl.pagesPerBlock
  {
    hide PageMappingFtl.Valid;
    ftl.HoldsAtMost();
    assert |store| == |store.Keys| && |ftl.lpnToPpn| == |ftl.lpnToPpn.Keys|;
  }

  method Step(ftl: PageMappingFtl, ops: seq<HostOp>, n: nat) returns (done: bool)
    requires n < |ops| && Aligned(ops[n])
    requires ftl.Valid() && ftl.Contents() == After(ops, n) && ftl.lpnToPpn.Keys == After(ops, n).Keys
    modifies ftl, ftl.gcPolicy
    ensures done ==>
              && ftl.Valid() && ftl.Contents() == After(ops, n + 1)
              && ftl.lpnToPpn.Keys == After(ops, n + 1).Keys
              && ftl.hostWritePages == old(ftl.hostWritePages) + Charge(ops[n])
    ensures !done ==> ops[n].HostWrite? && ftl.Stuck() && |After(ops, n + 1)| > ftl.Capacity()
    ensures ops[n].HostWrite? && |Pages(ops[n])| == 1 ==> (done <==> old(ftl.CanProgram(FirstLpn(ops[n].offset))))
    ensures old(ftl.HostFill()) + Charge(ops[n]) <= ftl.pagesPerBlock ==>
              done && ftl.HostFill() == old(ftl.HostFill()) + Charge(ops[n])
  {
    hide Span, After, Overwrite, Charge, PageMappingFtl.Valid, PageMappingFtl.Contents, PageMappingFtl.Stuck,
         PageMappingFtl.Capacity, PageMappingFtl.HostFill, PageMappingFtl.CanProgram;
    match ops[n] {
      case HostWrite(offset, size, payload) =>
        AfterWrite(ops, n);
        done := ftl.Write(offset, size, payload);
      case HostTrim(offset, size) =>
        AfterTrim(ops, n);
        ftl.Trim(offset, size);
        done := true;
    }
  }

  // ---- a write that never returns ----

  /** One write to each of the first n pages. */
  function Fill(n: nat): seq<HostOp> {
    seq(n, i requires 0 <= i < n => HostWrite(i * NAND_PAGE_SIZE, NAND_PAGE_SIZE, i))
  }

  lemma FillPages(n: nat, i: nat)
    requires i < n
    ensures Pages(Fill(n)[i]) == {i} && Aligned(Fill(n)[i])
  {
    BlockSpan(i, NAND_PAGE_SIZE);
  }

  lemma FillAligned(n: nat)
    ensures |Fill(n)| == n && forall i :: 0 <= i < n ==> Aligned(Fill(n)[i])
  {
    hide Aligned;
    forall i | 0 <= i < n ensures Aligned(Fill(n)[i]) {
      FillPages(n, i);
    }
  }

  lemma {:induction false} FillAfter(n: nat, k: nat)
    requires k <= n
    ensures After(Fill(n), k).Keys == Range(k) && |After(Fill(n), k)| == k && HostPages(Fill(n), k) == k
  {
    if k > 0 {
      FillAfter(n, k - 1);
      FillPages(n, k - 1);
    }
    assert |After(Fill(n), k).Keys| == |After(Fill(n), k)|;
  }

  /** The smallest device, of four blocks, completes writes to a block's worth of distinct
      pages, and never completes the next. */
  method FourBlocks(pagesPerBlock: nat) returns (n: nat)
    requires pagesPerBlock > 0
    ensures n == pagesPerBlock
  {
    hide Fill, After, HostPages, Aligned, PageMappingFtl.Valid, PageMappingFtl.Contents;
    var ftl := new PageMappingFtl(pagesPerBlock, 4);
    var ops := Fill(pagesPerBlock + 1);
    FillAligned(pagesPerBlock + 1);
    FillAfter(pagesPerBlock + 1, pagesPerBlock + 1);
    n := Run(ftl, ops);
    FillAfter(pagesPerBlock + 1, n + 1);
  }
}

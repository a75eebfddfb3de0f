/**
 * The ICM manager of hgrnic_icm.c and hgrnic_icm.h: building an ICM area
 * from page blocks, walking it with the chunk iterator, and the ICM tables
 * whose chunks are obtained, mapped into the device and reference-counted
 * object by object. The kernel's page allocator, DMA mapping and the
 * MAP_ICM / UNMAP_ICM firmware commands are outcomes passed in; the
 * commands a table issues are kept in a log.
 */
module Icm {
  import opened Common
  import opened IcmSpec

  /**
   * The variables of hgrnic_alloc_icm's loop: the chunk list (its last
   * chunk still being filled when `open`), the block orders obtained, the
   * pages still missing, the current order, and how many page
   * allocations, chunk allocations and DMA mappings were tried.
   */
  datatype Fill = Fill(chunks: seq<IcmChunk>, open: bool, got: seq<nat>, n: int, cur: int,
                       pageTries: nat, chunkTries: nat, maps: nat)

  /** The loop state is consistent, and it is the greedy one while no page allocation has failed. */
  ghost predicate FillOk(npages: int, coherent: bool, env: IcmOracle, f: Fill, lucky: bool)
  {
    Filling(npages, f.chunks, f.open, coherent, f.got, f.n, f.cur, lucky)
    && ((forall k :: 0 <= k < f.pageTries ==> env.pageOk(k)) ==> lucky)
  }

  /**
   * One round of hgrnic_alloc_icm's loop: open a chunk if none is open,
   * lower the order until a block fits, and try one block. On success the
   * pages missing drop; on a failed block the order drops; on a failure
   * that ends the allocation the chunks still hold exactly the blocks
   * obtained, so that they can all be given back.
   */
  method FillStep(npages: int, coherent: bool, env: IcmOracle, f: Fill, ghost lucky: bool)
    returns (failed: bool, f': Fill, ghost lucky': bool)
    requires f.n > 0 && FillOk(npages, coherent, env, f, lucky)
    ensures !failed ==> FillOk(npages, coherent, env, f', lucky') && (f'.n < f.n || (f'.n == f.n && 0 <= f'.cur < f.cur))
    ensures failed ==> Returnable(f'.chunks, f'.got)
  {
    var chunks, open, got, n, cur := f.chunks, f.open, f.got, f.n, f.cur;
    var pageTries, chunkTries, maps := f.pageTries, f.chunkTries, f.maps;
    lucky' := lucky;
    failed := false;
    if !open {
      var ok := env.chunkOk(chunkTries);
      chunkTries := chunkTries + 1;
      if !ok {
        FillingReturnable(npages, chunks, open, coherent, got, n, cur, lucky);
        return true, Fill(chunks, open, got, n, cur, pageTries, chunkTries, maps), lucky';
      }
      OpenStep(npages, chunks, coherent, got, n, cur, lucky);
      chunks := chunks + [IcmChunk([], [])];
      open := true;
    }
    cur := Lower(npages, chunks, open, coherent, got, n, cur, lucky);
    var ok := env.pageOk(pageTries);
    if ok {
      failed, f' := TakeBlock(npages, coherent, env, Fill(chunks, open, got, n, cur, pageTries, chunkTries, maps), lucky);
    } else {
      if cur >= 1 {
        FailStep(npages, chunks, open, coherent, got, n, cur, lucky);
      } else {
        FillingReturnable(npages, chunks, open, coherent, got, n, cur, lucky);
      }
      lucky' := false;
      failed := cur < 1;
      f' := Fill(chunks, open, got, n, cur - 1, pageTries + 1, chunkTries, maps);
    }
  }

  /**
   * A successful block allocation at the current order (page allocation
   * attempt f.pageTries): the block joins the open chunk; a chunk that
   * becomes full is DMA-mapped unless coherent, and a mapping of no
   * entries ends the allocation.
   */
  method TakeBlock(npages: int, coherent: bool, env: IcmOracle, f: Fill, ghost lucky: bool)
    returns (failed: bool, f': Fill)
    requires f.open && f.n >= 1 && f.cur >= 0 && Pow2(f.cur) <= f.n && env.pageOk(f.pageTries)
    requires FillOk(npages, coherent, env, f, lucky)
    ensures !failed ==> FillOk(npages, coherent, env, f', lucky) && f'.n < f.n
    ensures failed ==> Returnable(f'.chunks, f'.got)
  {
    var chunks, cur, maps := f.chunks, f.cur, f.maps;
    var full := |chunks[|chunks| - 1].pages| + 1 == ICM_CHUNK_LEN;
    var m: seq<SgEntry> := [];
    if !coherent && full {
      m := env.mapSg(maps);
      maps := maps + 1;
    }
    var addr := env.dmaAddr(f.pageTries);
    BlockStep(npages, chunks, coherent, f.got, f.n, cur, lucky, addr, m);
    chunks := AfterBlock(chunks, cur, coherent, addr, m);
    failed := !coherent && full && |m| == 0;
    f' := Fill(chunks, !full, f.got + [cur], f.n - Pow2(cur), cur, f.pageTries + 1, f.chunkTries, maps);
  }

  /** The inner loop of hgrnic_alloc_icm: lower the order until a block of that order fits in what is missing. */
  method Lower(npages: int, chunks: seq<IcmChunk>, open: bool, coherent: bool, got: seq<nat>, n: int, cur: int, ghost lucky: bool)
    returns (cur': int)
    requires n > 0 && Filling(npages, chunks, open, coherent, got, n, cur, lucky)
    ensures 0 <= cur' <= cur && Pow2(cur') <= n && Filling(npages, chunks, open, coherent, got, n, cur', lucky)
  {
    cur' := cur;
    while Pow2(cur') > n
      invariant 0 <= cur' <= cur && Count(npages, got, n, cur', lucky)
      decreases cur'
    {
      LowerStep(npages, got, n, cur', lucky);
      cur' := cur' - 1;
    }
  }

  /**
   * hgrnic_alloc_icm: builds an ICM area of npages pages from blocks of
   * order at most 6, each block as large as still fits, lowering the order
   * when a block allocation fails; chunks hold up to HGRNIC_ICM_CHUNK_LEN
   * blocks and are DMA-mapped when full and at the end (unless coherent).
   * Any failure frees everything and gives NULL. `obtained` lists the
   * blocks obtained from the kernel, `released` those hgrnic_free_icm gave
   * back.
   */
  method AllocIcm(npages: int, coherent: bool, env: IcmOracle)
    returns (icm: Option<seq<IcmChunk>>, obtained: seq<nat>, released: seq<nat>)
    ensures icm.None? ==> released == obtained
    ensures icm.Some? ==> released == [] && Pages(icm.value) == obtained && AllClosed(icm.value, coherent)
    ensures icm.Some? ==> PageSum(obtained) == (if npages > 0 then npages else 0)
    ensures NonIncreasing(obtained) && forall o <- obtained :: o <= ICM_ALLOC_ORDER
    ensures !env.icmOk ==> icm.None? && obtained == []
    ensures icm.Some? && (forall k :: env.pageOk(k)) ==> obtained == Greedy(if npages > 0 then npages else 0, ICM_ALLOC_ORDER)
  {
    if !env.icmOk {
      return None, [], [];
    }
    FillingStart(npages, coherent);
    var f := Fill([], false, [], npages, ICM_ALLOC_ORDER, 0, 0, 0);
    ghost var lucky := true;
    var failed := false;
    while f.n > 0
      invariant !failed && FillOk(npages, coherent, env, f, lucky)
      decreases f.n, f.cur
    {
      failed, f, lucky := FillStep(npages, coherent, env, f, lucky);
      if failed {
        return None, f.got, Released(Some(f.chunks));
      }
    }
    var chunks := f.chunks;
    var m: seq<SgEntry> := [];
    if !coherent && f.open {
      m := env.mapSg(f.maps);
    }
    FillingDone(npages, chunks, f.open, coherent, f.got, f.n, f.cur, lucky, m);
    if !coherent && f.open {
      chunks := chunks[..|chunks| - 1] + [chunks[|chunks| - 1].(mem := m)];
      if |m| == 0 {
        return None, f.got, Released(Some(chunks));
      }
    }
    icm, obtained, released := Some(chunks), f.got, [];
  }

  /**
   * struct hgrnic_icm_iter: a position in the scatter list of an ICM area,
   * chunk by chunk and entry by entry; `chunk` is -1 once the iterator has
   * run past the last chunk (the NULL chunk pointer).
   */
  class IcmIter {
    var icm: seq<IcmChunk>
    var chunk: int
    var pageIdx: nat

    /** Every chunk of the area holds at least one mapped entry, and the position is inside the area. */
    ghost predicate Valid()
      reads this
    {
      (forall c <- icm :: |c.mem| >= 1)
      && -1 <= chunk < |icm| && (chunk >= 0 ==> pageIdx < |icm[chunk].mem|)
    }

    /** The entries not yet visited, in list order. */
    ghost function Remaining(): seq<SgEntry>
      reads this
      requires Valid()
    {
      if chunk < 0 then [] else icm[chunk].mem[pageIdx..] + Entries(icm[chunk + 1..])
    }

    /** hgrnic_icm_first: the iterator starts at the first entry of the first chunk, or is done at once on an empty area. */
    constructor First(icm: seq<IcmChunk>)
      requires forall c <- icm :: |c.mem| >= 1
      ensures Valid() && this.icm == icm && Remaining() == Entries(icm)
    {
      this.icm := icm;
      chunk := if |icm| == 0 then -1 else 0;
      pageIdx := 0;
      new;
      if |icm| > 0 {
        assert icm[0].mem[0..] == icm[0].mem;
      }
    }

    /** hgrnic_icm_last: the iteration is over exactly when no entry remains. */
    predicate Last(): (r: bool)
      reads this
      requires Valid()
      ensures r <==> Remaining() == []
    {
      chunk < 0
    }

    /** hgrnic_icm_addr: the DMA address of the current entry. */
    function Addr(): (r: nat)
      reads this
      requires Valid() && !Last()
      ensures r == Remaining()[0].addr
    {
      icm[chunk].mem[pageIdx].addr
    }

    /** hgrnic_icm_size: the DMA length in bytes of the current entry. */
    function Size(): (r: nat)
      reads this
      requires Valid() && !Last()
      ensures r == Remaining()[0].len
    {
      icm[chunk].mem[pageIdx].len
    }

    /** hgrnic_icm_next: the next entry of the chunk, else the first entry of the next chunk, else the end. */
    method Next()
      requires Valid() && !Last()
      modifies this
      ensures Valid() && icm == old(icm) && Remaining() == old(Remaining())[1..]
    {
      ghost var rest := old(Remaining());
      pageIdx := pageIdx + 1;
      if pageIdx >= |icm[chunk].mem| {
        if chunk + 1 == |icm| {
          chunk := -1;
          assert rest == [icm[|icm| - 1].mem[pageIdx - 1]] + Entries([]);
        } else {
          assert rest == [icm[chunk].mem[pageIdx - 1]] + Entries(icm[chunk + 1..]);
          assert icm[chunk + 1..][1..] == icm[chunk + 2..];
          chunk := chunk + 1;
          pageIdx := 0;
          assert icm[chunk].mem[0..] == icm[chunk].mem;
        }
      } else {
        assert icm[chunk].mem[pageIdx - 1..][1..] == icm[chunk].mem[pageIdx..];
      }
    }
  }

  /** Moving the first remaining entry to the visited ones keeps their concatenation. */
  lemma Consume(visited: seq<SgEntry>, e: SgEntry, rest: seq<SgEntry>, all: seq<SgEntry>)
    requires visited + rest == all && rest != [] && rest[0] == e
    ensures (visited + [e]) + rest[1..] == all
  {
    assert rest == [e] + rest[1..];
  }

  /**
   * The iteration hgrnic_MAP_ICM runs over an area: from hgrnic_icm_first
   * until hgrnic_icm_last, reading the address and length of each entry.
   * It visits every entry of every chunk exactly once, in list order.
   */
  method Walk(icm: seq<IcmChunk>) returns (visited: seq<SgEntry>)
    requires forall c <- icm :: |c.mem| >= 1
    ensures visited == Entries(icm)
  {
    var it := new IcmIter.First(icm);
    visited := [];
    while !it.Last()
      invariant it.Valid() && visited + it.Remaining() == Entries(icm)
      decreases |it.Remaining()|
    {
      ghost var before := it.Remaining();
      var e := SgEntry(it.Addr(), it.Size());
      it.Next();
      Consume(visited, e, before, Entries(icm));
      visited := visited + [e];
    }
  }

  /**
   * The teardown loop of hgrnic_free_icm_table and of the error path of
   * hgrnic_alloc_icm_table: every present chunk is unmapped (one
   * UNMAP_ICM of its 64 pages) and freed, in slot order. Afterwards
   * nothing of the table is mapped any more.
   */
  method UnmapAll(virt: nat, icm: seq<Option<Icm>>, log: seq<IcmCmd>) returns (log': seq<IcmCmd>, released: seq<nat>)
    requires Balanced(virt, icm, log)
    ensures log' == log + FreeLog(icm, virt, |icm|) && released == FreePages(icm, |icm|)
    ensures Balanced(virt, NoSlots(|icm|), log')
  {
    var slots := icm;
    log', released := log, [];
    for i := 0 to |icm|
      invariant |slots| == |icm| && log' == log + FreeLog(icm, virt, i) && released == FreePages(icm, i)
      invariant forall j :: 0 <= j < |icm| ==> slots[j] == (if j < i then None else icm[j])
      invariant Balanced(virt, slots, log')
    {
      if icm[i].Some? {
        BalancedUnmap(virt, slots, log', i);
        log' := log' + [UnmapIcm(ChunkVirt(virt, i), CHUNK_PAGES)];
        released := released + Pages(icm[i].value.chunks);
        slots := slots[i := None];
      }
    }
    assert slots == NoSlots(|icm|);
  }

  /**
   * struct hgrnic_icm_table: the chunks backing one kind of context
   * object (QP, CQ, EQ, MPT or MTT entries) in ICM at `virt`, obj_size
   * bytes per object and HGRNIC_TABLE_CHUNK_SIZE bytes per chunk; each
   * slot holds a reference-counted chunk or is empty. `log` records the
   * MAP_ICM and UNMAP_ICM commands issued for the table.
   */
  class IcmTable {
    const virt: nat
    const numObj: nat
    const objSize: nat
    const lowmem: bool
    const coherent: bool
    var icm: seq<Option<Icm>>
    var log: seq<IcmCmd>

    ghost predicate Valid()
      reads this
    {
      TableOk(virt, numObj, objSize, icm, log)
    }

    /** The fields hgrnic_alloc_icm_table sets before any chunk is allocated: every slot empty, nothing mapped. */
    constructor Init(virt: nat, numObj: nat, objSize: nat, lowmem: bool, coherent: bool)
      requires numObj >= 1 && 1 <= objSize <= TABLE_CHUNK_SIZE
      ensures Valid() && icm == NoSlots(NumIcm(numObj, objSize)) && log == []
      ensures this.virt == virt && this.numObj == numObj && this.objSize == objSize
      ensures this.lowmem == lowmem && this.coherent == coherent
    {
      this.virt, this.numObj, this.objSize := virt, numObj, objSize;
      this.lowmem, this.coherent := lowmem, coherent;
      icm := NoSlots(NumIcm(numObj, objSize));
      log := [];
    }

    /**
     * hgrnic_reg_icm: the chunk of object obj gains a reference; an empty
     * slot first gets a chunk of 64 pages from hgrnic_alloc_icm (`area`,
     * `obtained`), mapped by MAP_ICM (outcome mapOk) at the chunk's
     * address. Every failure is -ENOMEM, with the slot left empty and every
     * page obtained given back (`released`).
     */
    method Reg(obj: nat, env: IcmOracle, mapOk: bool)
      returns (err: int, area: Option<seq<IcmChunk>>, obtained: seq<nat>, released: seq<nat>)
      requires Valid()
      modifies this
      ensures Valid()
      ensures var i := ChunkIndex(obj, numObj, objSize);
        i < |old(icm)| && (err, icm, log) == RegStep(old(icm), old(log), virt, i, area, mapOk)
        && (old(icm)[i].Some? ==> area.None? && obtained == [])
      ensures area.Some? ==> Pages(area.value) == obtained && PageSum(obtained) == CHUNK_PAGES && AllClosed(area.value, coherent)
      ensures err != 0 ==> released == obtained && icm == old(icm)
      ensures err == 0 ==> released == []
    {
      var i := ChunkIndex(obj, numObj, objSize);
      ChunkIndexInRange(obj, numObj, objSize);
      IcmConstants();
      if icm[i].Some? {
        area, obtained, released := None, [], [];
      } else {
        area, obtained, released := AllocIcm(TABLE_CHUNK_SIZE / PAGE_SIZE, coherent, env);
        if area.Some? && !mapOk {
          released := Released(area);
        }
      }
      RegStepFacts(virt, numObj, objSize, icm, log, i, area, mapOk);
      var (e, icm', log') := RegStep(icm, log, virt, i, area, mapOk);
      err, icm, log := e, icm', log';
    }

    /**
     * hgrnic_unreg_icm: the chunk of object obj loses a reference; at zero
     * it is unmapped with one UNMAP_ICM of its 64 pages, freed (its pages
     * are `released`) and its slot emptied.
     */
    method Unreg(obj: nat) returns (released: seq<nat>)
      requires Valid() && ChunkIndex(obj, numObj, objSize) < |icm| && icm[ChunkIndex(obj, numObj, objSize)].Some?
      modifies this
      ensures var i := ChunkIndex(obj, numObj, objSize);
        Valid() && icm == UnregSlots(old(icm), i) && log == UnregLog(old(icm), old(log), virt, i)
        && released == (if old(icm)[i].value.refcount <= 1 then Pages(old(icm)[i].value.chunks) else [])
    {
      var i := ChunkIndex(obj, numObj, objSize);
      UnregFacts(virt, numObj, objSize, icm, log, i);
      released := if icm[i].value.refcount <= 1 then Pages(icm[i].value.chunks) else [];
      icm, log := UnregSlots(icm, i), UnregLog(icm, log, virt, i);
    }

    /**
     * hgrnic_reg_icm_range: registers the objects start, start + inc, ...
     * up to end, inc being the objects per chunk, the k-th registration
     * seeing allocation outcomes envs(k) and MAP_ICM outcome mapOks(k). On
     * success, unregistering the chunks visited, the last first, would
     * give back the slots as they were; on the first failure the
     * registrations already made are undone in that way, so the slots are
     * exactly as before, and the error is returned.
     */
    method RegRange(start: nat, end: int, envs: nat -> IcmOracle, mapOks: nat -> bool) returns (err: int)
      requires Valid()
      modifies this
      ensures Valid() && (err == 0 || err == -ENOMEM)
      ensures var range := RangeFrom(start, end, Inc(objSize), numObj, objSize);
        err == 0 ==> Undoable(icm, range) && Undo(icm, range) == old(icm)
      ensures err != 0 ==> icm == old(icm)
    {
      var i;
      ghost var done, k;
      err, i, done, k := RegForward(start, end, envs, mapOks);
      if err != 0 {
        Rollback(start, i, done, k);
      }
    }

    /** The registration loop of hgrnic_reg_icm_range, up to its end or its first failure at object i. */
    method RegForward(start: nat, end: int, envs: nat -> IcmOracle, mapOks: nat -> bool)
      returns (err: int, i: nat, ghost done: seq<nat>, ghost k: nat)
      requires Valid()
      modifies this
      ensures Valid() && (err == 0 || err == -ENOMEM)
      ensures Trail(start, i, Inc(objSize), done, k, numObj, objSize)
      ensures Undoable(icm, done) && Undo(icm, done) == old(icm)
      ensures err == 0 ==> done == RangeFrom(start, end, Inc(objSize), numObj, objSize)
    {
      var inc := Inc(objSize);
      i := start;
      done, k := [], 0;
      var step := 0;
      err := 0;
      while i <= end
        invariant Valid() && done + RangeFrom(i, end, inc, numObj, objSize) == RangeFrom(start, end, inc, numObj, objSize)
        invariant Undoable(icm, done) && Undo(icm, done) == old(icm)
        invariant Trail(start, i, inc, done, k, numObj, objSize)
        decreases end - i
      {
        ghost var before, logBefore := icm, log;
        var e, area, _, _ := Reg(i, envs(step), mapOks(step));
        if e != 0 {
          err := e;
          return;
        }
        var c := ChunkIndex(i, numObj, objSize);
        UndoExtend(before, logBefore, virt, c, area, mapOks(step), done);
        TrailPush(start, i, inc, done, k, numObj, objSize);
        RangeStep(i, end, inc, numObj, objSize, done);
        done, k := done + [c], k + 1;
        i := i + inc;
        step := step + 1;
      }
    }

    /** The failure path of hgrnic_reg_icm_range: object by object back to start, each registration is undone. */
    method Rollback(start: nat, i: nat, ghost done: seq<nat>, ghost k: nat)
      requires Valid() && Trail(start, i, Inc(objSize), done, k, numObj, objSize) && Undoable(icm, done)
      modifies this
      ensures Valid() && icm == Undo(old(icm), done)
    {
      var inc := Inc(objSize);
      var j: nat := i;
      ghost var d, m := done, k;
      while j > start
        invariant Valid() && RollingBack(icm, start, j, inc, d, m, numObj, objSize, old(icm), done)
        decreases j
      {
        RollbackStep(icm, start, j, inc, d, m, numObj, objSize, old(icm), done);
        j := j - inc;
        var _ := Unreg(j);
        d, m := d[..|d| - 1], m - 1;
      }
      RollbackDone(icm, start, j, inc, d, m, numObj, objSize, old(icm), done);
    }

    /** hgrnic_unreg_icm_range: unregisters the objects start, start + inc, ... up to end, in that order. */
    method UnregRange(start: nat, end: int)
      requires Valid() && Releasable(icm, RangeFrom(start, end, Inc(objSize), numObj, objSize))
      modifies this
      ensures var range := RangeFrom(start, end, Inc(objSize), numObj, objSize);
        Valid() && icm == ReleaseAll(old(icm), range) && log == ReleaseLog(old(icm), old(log), virt, range)
    {
      var inc := Inc(objSize);
      var i := start;
      while i <= end
        invariant Valid() && Releasing(icm, log, virt, i, end, inc, numObj, objSize, old(icm), old(log), start)
        decreases end - i
      {
        ReleaseStep(icm, log, virt, i, end, inc, numObj, objSize, old(icm), old(log), start);
        var c := ChunkIndex(i, numObj, objSize);
        ghost var icm', log' := UnregSlots(icm, c), UnregLog(icm, log, virt, c);
        var _ := Unreg(i);
        assert icm == icm' && log == log';
        i := i + inc;
      }
      ReleaseDone(icm, log, virt, i, end, inc, numObj, objSize, old(icm), old(log), start);
    }

    /**
     * hgrnic_free_icm_table: every present chunk is unmapped and freed,
     * whatever its reference count; afterwards the firmware has seen as
     * many UNMAP_ICM as successful MAP_ICM commands at every chunk address.
     */
    method FreeTable() returns (released: seq<nat>)
      requires Valid()
      modifies this
      ensures Valid() && icm == NoSlots(|old(icm)|)
      ensures log == old(log) + FreeLog(old(icm), virt, |old(icm)|) && released == FreePages(old(icm), |old(icm)|)
    {
      var log';
      log', released := UnmapAll(virt, icm, log);
      icm, log := NoSlots(|icm|), log';
    }
  }

  /**
   * hgrnic_alloc_icm_table: NULL when obj_size or nobj is 0 or the table
   * cannot be allocated (kmallocOk). Otherwise num_icm = ceil(nobj /
   * (CHUNK / obj_size)) empty slots, then the chunks holding the first
   * `reserved` objects are allocated (the last one clipped to the table's
   * end), mapped, and pinned with one reference, chunk i seeing outcomes
   * envs(i) and mapOks(i). If one of them fails, every chunk already
   * mapped is unmapped and freed and the result is NULL.
   */
  method AllocIcmTable(virt: nat, objSize: nat, nobj: nat, reserved: nat, lowmem: bool, coherent: bool,
                       kmallocOk: bool, envs: nat -> IcmOracle, mapOks: nat -> bool)
    returns (t: IcmTable?, cmds: seq<IcmCmd>, obtained: seq<nat>, released: seq<nat>)
    requires objSize <= TABLE_CHUNK_SIZE && reserved <= nobj
    ensures objSize == 0 || nobj == 0 || !kmallocOk ==> t == null && cmds == [] && obtained == []
    ensures t == null ==> multiset(released) == multiset(obtained)
    ensures t == null && objSize > 0 ==> Balanced(virt, NoSlots(NumIcm(nobj, objSize)), cmds)
    ensures t != null ==> fresh(t) && t.Valid() && t.log == cmds && released == []
    ensures t != null ==> t.virt == virt && t.numObj == nobj && t.objSize == objSize && t.lowmem == lowmem && t.coherent == coherent
    ensures t != null ==> |t.icm| == NumIcm(nobj, objSize) && Pinned(t.icm, reserved, nobj, objSize)
  {
    cmds, obtained, released := [], [], [];
    if objSize == 0 || nobj == 0 || !kmallocOk {
      return null, [], [], [];
    }
    var table := new IcmTable.Init(virt, nobj, objSize, lowmem, coherent);
    var failed, icm;
    failed, icm, cmds, obtained, released := PinReserved(virt, objSize, nobj, reserved, coherent, envs, mapOks);
    if failed {
      var back;
      cmds, back := UnmapAll(virt, icm, cmds);
      released := released + back;
      return null, cmds, obtained, released;
    }
    table.icm, table.log := icm, cmds;
    t := table;
  }

  /**
   * The reserved-chunk loop of hgrnic_alloc_icm_table on a table of
   * empty slots: chunk i is allocated while i * CHUNK < reserved *
   * obj_size, with ReservedPages pages, mapped and pinned. It stops at the
   * first failure with that chunk's pages already given back (`released`)
   * and the chunks before it still present.
   */
  method PinReserved(virt: nat, objSize: nat, nobj: nat, reserved: nat, coherent: bool,
                     envs: nat -> IcmOracle, mapOks: nat -> bool)
    returns (failed: bool, icm: seq<Option<Icm>>, cmds: seq<IcmCmd>, obtained: seq<nat>, released: seq<nat>)
    requires 1 <= objSize <= TABLE_CHUNK_SIZE && 1 <= nobj && reserved <= nobj
    ensures |icm| == NumIcm(nobj, objSize) && SlotsOk(icm) && Balanced(virt, icm, cmds)
    ensures !failed ==> Pinned(icm, reserved, nobj, objSize) && released == []
    ensures failed ==> multiset(released) + multiset(FreePages(icm, |icm|)) == multiset(obtained)
  {
    icm := NoSlots(NumIcm(nobj, objSize));
    cmds, obtained, released := [], [], [];
    var i := 0;
    failed := false;
    while i * TABLE_CHUNK_SIZE < reserved * objSize
      invariant |icm| == NumIcm(nobj, objSize) && SlotsOk(icm) && Balanced(virt, icm, cmds)
      invariant i <= |icm| && PinnedBelow(icm, i, reserved, nobj, objSize)
      invariant obtained == FreePages(icm, i) && released == []
      decreases reserved * objSize - i * TABLE_CHUNK_SIZE
    {
      ReservedBound(i, reserved, nobj, objSize);
      MulMonotone(nobj, reserved, objSize);
      var area, got, back := AllocIcm(ReservedPages(i, nobj, objSize), coherent, envs(i));
      if area.None? || !mapOks(i) {
        if area.Some? {
          BalancedLogged(virt, icm, cmds, MapIcm(ChunkVirt(virt, i), false));
          cmds := cmds + [MapIcm(ChunkVirt(virt, i), false)];
        }
        FreePagesNone(icm, i, |icm|);
        obtained := obtained + got;
        released := back + Released(area);
        failed := true;
        return;
      }
      BalancedMap(virt, icm, cmds, i, area.value);
      PinnedStep(icm, i, area.value, reserved, nobj, objSize);
      FreePagesStep(icm, i, area.value);
      icm := icm[i := Some(Icm(area.value, 1))];
      cmds := cmds + [MapIcm(ChunkVirt(virt, i), true)];
      obtained := obtained + got;
      i := i + 1;
    }
    PinnedDone(icm, i, reserved, nobj, objSize);
  }
}

/** What `pmp_region_init` answers and records, for every table between calls and every argument. */
module RegionLaws {
  import opened Bits
  import opened PmpHardware
  import opened PmpRegions

  /** A naturally aligned power of two, or the whole address space. */
  ghost predicate Block(start: nat, size: nat) {
    (size == WORD - 1 && start == 0) || exists k: nat :: size == Pow2(k) && Low(start, k) == 0
  }

  /** The range leaves the address space, or shares an address with a region that does not allow it. */
  ghost predicate Blocked(t: Table, start: nat, size: nat)
    requires |t.regions| == N_REGION
  {
    start + size >= WORD || exists i: nat :: i < N_REGION && Meets(t, i, start, size)
  }

  predicate Meets(t: Table, i: nat, start: nat, size: nat)
    requires |t.regions| == N_REGION && i < N_REGION
  {
    && Exclusive(t, i)
    && t.regions[i].addr < start + size && start < t.regions[i].addr + t.regions[i].size
  }

  /** `w` registers in a row are free from `k` on. */
  predicate Room(t: Table, k: nat, w: nat) {
    k + w <= N_REG && !Used(t, k) && (w == 2 ==> !Used(t, k + 1))
  }

  /** There is a register for the priority asked for. */
  ghost predicate RegisterFree(t: Table, pri: Priority, w: nat) {
    match pri
    case PriAny => exists k: nat :: Room(t, k, w)
    case PriTop => !Used(t, 0)
    case PriBottom => true
  }

  /** The code of the first check that fails, or 0. */
  ghost function Refusal(t: Table, start: U64, size: U64, pri: Priority, allow: bool): nat
    requires |t.regions| == N_REGION
  {
    if size == 0 then ERR_SIZE_INVALID
    else if !allow && Blocked(t, start, size) then ERR_OVERLAP
    else if start % PGSIZE != 0 || (size % PGSIZE != 0 && size != WORD - 1) then ERR_NOT_PAGE_GRANULARITY
    else if !Block(start, size) && (pri == PriBottom || (pri == PriTop && start != 0)) then ERR_IMPOSSIBLE_TOR
    else if forall i: nat :: i < N_REGION ==> Defined(t, i) then ERR_MAX_REACHED
    else if !RegisterFree(t, pri, if Block(start, size) then 1 else 2) then ERR_MAX_REACHED
    else 0
  }

  /** The first register a region gets: the lowest that will do, the first or the last. */
  ghost predicate Takes(t: Table, pri: Priority, w: nat, first: nat) {
    match pri
    case PriAny => Room(t, first, w) && forall k: nat :: k < first ==> !Room(t, k, w)
    case PriTop => first == 0
    case PriBottom => first == N_REG - 1
  }

  /** The region stands in the lowest free slot and in its registers, and nothing else has changed. */
  ghost predicate Recorded(t: Table, u: Table, start: U64, size: U64, allow: bool, rid: nat, first: nat) {
    var two := !Block(start, size) && first > 0;
    && |t.regions| == N_REGION == |u.regions| && rid < N_REGION && first + (if two then 1 else 0) < N_REG
    && !Defined(t, rid) && (forall i: nat :: i < rid ==> Defined(t, i))
    && u.regions == t.regions[rid := Region(start, size, if Block(start, size) then A_NAPOT else A_TOR, allow,
                                            if two then first + 1 else first)]
    && (forall i: nat :: Bit(u.defBitmap, i) <==> Bit(t.defBitmap, i) || i == rid)
    && (forall r: nat :: Used(u, r) <==> Used(t, r) || r == first || (two && r == first + 1))
  }

  lemma BlockedIff(t: Table, start: U64, size: U64)
    requires Slots(t)
    ensures DetectsOverlap(t, start, size) <==> Blocked(t, start, size)
  {
    forall i: nat | i < N_REGION ensures HitsRegion(t, i, start, start + size) <==> Meets(t, i, start, size) {
      if Exclusive(t, i) { assert Accepted(t.regions[i]); }
    }
    if HitsSome(t, start, start + size) {
      var i :| 0 <= i < N_REGION && HitsRegion(t, i, start, start + size);
      assert Meets(t, i, start, size);
    }
    if i: nat :| i < N_REGION && Meets(t, i, start, size) {
      assert HitsRegion(t, i, start, start + size);
    }
  }

  lemma BlockIff(start: U64, size: U64)
    requires size > 0
    ensures Block(start, size) <==> TakesNapot(start, size)
  {
    TakesNapotMeaning(start, size);
    if k: nat :| size == Pow2(k) && Low(start, k) == 0 {
      assert IsPow2(size);
      PowerOfTwoTest(size);
      AndLowMask(start, k);
    }
  }

  lemma RoomIff(t: Table, k: nat, w: nat)
    requires w == 1 || w == 2
    ensures FreeRun(t.regBitmap, k, w) && k + w <= N_REG <==> Room(t, k, w)
  {
    if Room(t, k, w) {
      forall j: nat | k <= j < k + w ensures !Bit(t.regBitmap, j) { }
    }
    if FreeRun(t.regBitmap, k, w) {
      assert !Bit(t.regBitmap, k);
      if w == 2 { assert !Bit(t.regBitmap, k + 1); }
    }
  }

  lemma FreeRegister(t: Table, w: nat)
    requires w == 1 || w == 2
    ensures var first := FirstFree(t.regBitmap, N_REG, w, 0);
            if exists k: nat :: Room(t, k, w) then 0 <= first && Takes(t, PriAny, w, first) else first == -1
  {
    var first := FirstFree(t.regBitmap, N_REG, w, 0);
    forall k: nat ensures FreeRun(t.regBitmap, k, w) && k + w <= N_REG <==> Room(t, k, w) { RoomIff(t, k, w); }
    if k: nat :| Room(t, k, w) {
      assert FreeRun(t.regBitmap, k, w) && k + w <= N_REG;
    }
  }

  lemma FreeSlot(t: Table)
    requires |t.regions| == N_REGION
    ensures var rid := FirstFree(t.defBitmap, N_REGION, 1, 0);
            if forall i: nat :: i < N_REGION ==> Defined(t, i) then rid == -1
            else 0 <= rid < N_REGION && !Defined(t, rid) && forall i: nat :: i < rid ==> Defined(t, i)
  {
    var rid := FirstFree(t.defBitmap, N_REGION, 1, 0);
    if rid >= 0 {
      OneFree(t.defBitmap, rid);
      assert !Defined(t, rid);
    }
    forall i: nat | i < (if rid >= 0 then rid else N_REGION) ensures Defined(t, i) { OneFree(t.defBitmap, i); }
  }

  lemma OneFree(bitmap: nat, i: nat)
    ensures FreeRun(bitmap, i, 1) <==> !Bit(bitmap, i)
  {
    if !Bit(bitmap, i) {
      forall j: nat | i <= j < i + 1 ensures !Bit(bitmap, j) { }
    }
  }

  lemma InstallRecords(t: Table, start: U64, size: U64, allow: bool, rid: nat, first: nat)
    requires |t.regions| == N_REGION && rid < N_REGION && first < N_REG
    requires !Block(start, size) && first > 0 ==> first + 1 < N_REG
    requires !Defined(t, rid) && forall i: nat :: i < rid ==> Defined(t, i)
    ensures var mode := if Block(start, size) then A_NAPOT else A_TOR;
            Recorded(t, Install(t, rid, start, size, mode, allow, first), start, size, allow, rid, first)
  {
    InstallEffect(t, rid, start, size, if Block(start, size) then A_NAPOT else A_TOR, allow, first);
  }

  /** The register the source picks, once a region has passed every check. */
  lemma RegisterPicked(t: Table, pri: Priority, w: nat) returns (first: nat)
    requires (w == 1 || w == 2) && RegisterFree(t, pri, w) && (w == 2 ==> pri != PriBottom)
    ensures Takes(t, pri, w, first) && first < N_REG && (w == 2 && first > 0 ==> first + 1 < N_REG)
    ensures match pri
            case PriAny => first == FirstFree(t.regBitmap, N_REG, w, 0)
            case PriTop => first == 0 && !Used(t, 0)
            case PriBottom => first == BOTTOM_REG
  {
    FreeRegister(t, w);
    first := match pri case PriAny => FirstFree(t.regBitmap, N_REG, w, 0) case PriTop => 0 case PriBottom => BOTTOM_REG;
  }

  lemma Passed(t: Table, start: U64, size: U64, pri: Priority, allow: bool)
    requires TableInv(t) && size > 0
    ensures Blocked(t, start, size) <==> DetectsOverlap(t, start, size)
    ensures Block(start, size) <==> TakesNapot(start, size)
    ensures And(start, PGSIZE - 1) == start % PGSIZE && And(size, PGSIZE - 1) == size % PGSIZE
  {
    BlockedIff(t, start, size);
    BlockIff(start, size);
    PageMask(start);
    PageMask(size);
  }

  /**
   `pmp_region_init` answers with the code of the first check that fails and then changes nothing; if none
   fails, the region is recorded in the lowest free slot and in the registers its priority and shape ask for.
   */
  lemma InitExactly(t: Table, start: U64, size: U64, pri: Priority, allow: bool)
    requires TableInv(t)
    ensures var (u, res) := RegionInit(t, start, size, pri, allow);
            var code := Refusal(t, start, size, pri, allow);
            if code != 0 then u == t && res == Err(code)
            else
              && res.Ok?
              && exists first: nat ::
                   && Takes(t, pri, if Block(start, size) then 1 else 2, first)
                   && Recorded(t, u, start, size, allow, res.rid, first)
  {
    if size > 0 {
      Passed(t, start, size, pri, allow);
      FreeSlot(t);
      FreeRegister(t, if Block(start, size) then 1 else 2);
      if Refusal(t, start, size, pri, allow) == 0 { InitRecords(t, start, size, pri, allow); }
    }
  }

  lemma InitRecords(t: Table, start: U64, size: U64, pri: Priority, allow: bool)
    requires TableInv(t) && Refusal(t, start, size, pri, allow) == 0
    ensures var (u, res) := RegionInit(t, start, size, pri, allow);
            && res.Ok?
            && exists first: nat ::
                 && Takes(t, pri, if Block(start, size) then 1 else 2, first)
                 && Recorded(t, u, start, size, allow, res.rid, first)
  {
    Passed(t, start, size, pri, allow);
    FreeSlot(t);
    var first := RegisterPicked(t, pri, if Block(start, size) then 1 else 2);
    var rid := FirstFree(t.defBitmap, N_REGION, 1, 0);
    InstallRecords(t, start, size, allow, rid, first);
  }
}

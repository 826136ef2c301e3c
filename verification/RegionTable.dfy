/**
 pmp.c's region table as an object: the bitmap searches, the overlap scan, and the
 initialisation and freeing of regions, each against the functions of PmpRegions.
 */
module RegionTableObject {
  import opened Bits
  import opened PmpHardware
  import opened PmpRegions

  /** The mask of `w` ones shifted left by `i` covers bits `i .. i+w`. */
  lemma BitOfMask(w: nat, i: nat, j: nat)
    ensures Bit(Shl(Pow2(w) - 1, i), j) == (i <= j < i + w)
  {
    BitOfShl(Pow2(w) - 1, i, j);
    if i <= j {
      BitOfNot(0, w, j - i);
      BitOfZero(j - i);
    }
  }

  lemma {:induction false} MaskValue(w: nat, i: nat)
    ensures Shl(Pow2(w) - 1, i) == Pow2(w + i) - Pow2(i)
  {
    if i > 0 { MaskValue(w, i - 1); }
  }

  /** `mask < (1 << max)` holds as long as the mask's bits lie below `max`. */
  lemma MaskBelow(w: nat, i: nat, max: nat)
    requires 0 < w
    ensures Shl(Pow2(w) - 1, i) < Pow2(max) <==> i + w <= max
  {
    MaskValue(w, i);
    if i + w <= max {
      Pow2Increasing(i + w, max);
    } else {
      Pow2Increasing(max, w + i - 1);
      Pow2Increasing(i, w + i - 1);
      assert Pow2(w + i) == 2 * Pow2(w + i - 1);
    }
  }

  /** `(~bitmap & mask) == mask` holds when all the mask's bits are clear in the bitmap. */
  lemma MaskFree(bitmap: nat, w: nat, i: nat)
    requires bitmap < Pow2(32) && i + w <= 32
    ensures And(Not(bitmap, 32), Shl(Pow2(w) - 1, i)) == Shl(Pow2(w) - 1, i) <==> FreeRun(bitmap, i, w)
  {
    var m := Shl(Pow2(w) - 1, i);
    var x := And(Not(bitmap, 32), m);
    forall j: nat ensures Bit(x, j) == (i <= j < i + w && !Bit(bitmap, j)) && Bit(m, j) == (i <= j < i + w) {
      BitOfAnd(Not(bitmap, 32), m, j);
      BitOfNot(bitmap, 32, j);
      BitOfMask(w, i, j);
    }
    if FreeRun(bitmap, i, w) {
      SameBits(x, m);
    } else {
      var j: nat :| i <= j < i + w && Bit(bitmap, j);
      assert Bit(m, j) && !Bit(x, j);
    }
  }

  /** `search_rightmost_unset`, for a mask of `w` low ones. */
  method SearchRightmostUnset(bitmap: nat, max: nat, w: nat) returns (r: int)
    requires bitmap < Pow2(32) && max < 32 && 0 < w
    ensures r == FirstFree(bitmap, max, w, 0)
  {
    var mask := Pow2(w) - 1;
    var i := 0;
    MaskBelow(w, 0, max);
    while mask < Pow2(max)
      invariant mask == Shl(Pow2(w) - 1, i)
      invariant mask < Pow2(max) <==> i + w <= max
      invariant FirstFree(bitmap, max, w, 0) == FirstFree(bitmap, max, w, i)
      invariant i <= max
      decreases max - i
    {
      MaskFree(bitmap, w, i);
      if And(Not(bitmap, 32), mask) == mask {
        return i;
      }
      mask := 2 * mask;
      i := i + 1;
      MaskBelow(w, i, max);
    }
    return -1;
  }

  class RegionTable {
    var regions: seq<Region>
    var regBitmap: nat
    var defBitmap: nat

    function View(): Table
      reads this
    {
      Table(regions, regBitmap, defBitmap)
    }

    ghost predicate Valid()
      reads this
    {
      TableInv(View())
    }

    constructor ()
      ensures Valid() && View() == EMPTY
    {
      regions, regBitmap, defBitmap := EMPTY.regions, 0, 0;
      new;
      EmptyInv();
    }

    lemma Fits()
      requires Valid()
      ensures regBitmap < Pow2(32) && defBitmap < Pow2(32)
    {
      forall i: nat | 32 <= i ensures !Bit(regBitmap, i) { assert !Used(View(), i); }
      BitsBound(regBitmap, 32);
      BitsBound(defBitmap, 32);
    }

    /** `is_pmp_region_valid` */
    method IsRegionValid(rid: nat) returns (ok: bool)
      requires Valid()
      ensures ok == Defined(View(), rid)
    {
      TestBit(defBitmap, rid);
      ok := And(defBitmap, Pow2(rid)) != 0;
    }

    /** `detect_region_overlap`: scans every slot, skipping undefined and overlap-allowing ones. */
    method DetectRegionOverlap(addr: U64, size: U64) returns (overlap: bool)
      requires Valid()
      ensures overlap == DetectsOverlap(View(), addr, size)
    {
      if addr + size >= WORD {
        return true;
      }
      var inputEnd := addr + size;
      overlap := false;
      for i := 0 to N_REGION
        invariant overlap <==> exists j :: 0 <= j < i && HitsRegion(View(), j, addr, inputEnd)
      {
        var valid := IsRegionValid(i);
        if valid && !regions[i].allowOverlap {
          var base, size_i := regions[i].addr, regions[i].size;
          overlap := overlap || (base < inputEnd && (base + size_i) % WORD > addr);
        }
        assert overlap <==>
               || (exists j :: 0 <= j < i && HitsRegion(View(), j, addr, inputEnd))
               || HitsRegion(View(), i, addr, inputEnd);
      }
    }

    /** `region_init` and the SET_BITs that follow it. */
    method Record(rid: nat, start: U64, size: U64, mode: Byte, allow: bool, reg: nat)
      requires |regions| == N_REGION && rid < N_REGION
      requires reg < N_REG && (mode == A_TOR && reg > 0 ==> reg + 1 < N_REG)
      modifies this
      ensures View() == Install(old(View()), rid, start, size, mode, allow, reg)
    {
      regions := regions[rid := Region(start, size, mode, allow, if mode == A_TOR && reg > 0 then reg + 1 else reg)];
      defBitmap := SetBit(defBitmap, rid);
      regBitmap := SetBit(regBitmap, reg);
      if mode == A_TOR && reg > 0 {
        regBitmap := SetBit(regBitmap, reg + 1);
      }
    }

    method NapotRegionInit(start: U64, size: U64, pri: Priority, allow: bool) returns (res: InitResult)
      requires Valid()
      modifies this
      ensures (View(), res) == NapotInit(old(View()), start, size, pri, allow)
    {
      Fits();
      var rid := SearchRightmostUnset(defBitmap, N_REGION, 1);
      if rid < 0 {
        return Err(ERR_MAX_REACHED);
      }
      var reg := BOTTOM_REG;
      match pri {
        case PriAny =>
          var free := SearchRightmostUnset(regBitmap, N_REG, 1);
          if free < 0 {
            return Err(ERR_MAX_REACHED);
          }
          reg := free;
        case PriTop =>
          TestBit(regBitmap, 0);
          if And(regBitmap, Pow2(0)) != 0 {
            return Err(ERR_MAX_REACHED);
          }
          reg := 0;
        case PriBottom =>
      }
      Record(rid, start, size, A_NAPOT, allow, reg);
      return Ok(rid);
    }

    method TorRegionInit(start: U64, size: U64, pri: Priority, allow: bool) returns (res: InitResult)
      requires Valid() && pri != PriBottom
      modifies this
      ensures (View(), res) == TorInit(old(View()), start, size, pri, allow)
    {
      Fits();
      var rid := SearchRightmostUnset(defBitmap, N_REGION, 1);
      if rid < 0 {
        return Err(ERR_MAX_REACHED);
      }
      var reg := 0;
      match pri {
        case PriAny =>
          var free := SearchRightmostUnset(regBitmap, N_REG, 2);
          if free < 0 {
            return Err(ERR_MAX_REACHED);
          }
          reg := free;
        case PriTop =>
          TestBit(regBitmap, 0);
          if And(regBitmap, Pow2(0)) != 0 {
            return Err(ERR_MAX_REACHED);
          }
      }
      Record(rid, start, size, A_TOR, allow, reg);
      return Ok(rid);
    }

    /** `pmp_region_init` */
    method InitRegion(start: U64, size: U64, pri: Priority, allow: bool) returns (res: InitResult)
      requires Valid()
      modifies this
      ensures Valid()
      ensures (View(), res) == RegionInit(old(View()), start, size, pri, allow)
    {
      InitKeepsInv(View(), start, size, pri, allow);
      if size == 0 {
        return Err(ERR_SIZE_INVALID);
      }
      if !allow {
        var overlap := DetectRegionOverlap(start, size);
        if overlap {
          return Err(ERR_OVERLAP);
        }
      }
      if size != WORD - 1 && And(size, PGSIZE - 1) != 0 {
        return Err(ERR_NOT_PAGE_GRANULARITY);
      }
      if And(start, PGSIZE - 1) != 0 {
        return Err(ERR_NOT_PAGE_GRANULARITY);
      }
      if TakesNapot(start, size) {
        res := NapotRegionInit(start, size, pri, allow);
      } else {
        if pri != PriAny && (pri != PriTop || start != 0) {
          return Err(ERR_IMPOSSIBLE_TOR);
        }
        res := TorRegionInit(start, size, pri, allow);
      }
    }

    /** `pmp_region_free_atomic` */
    method FreeRegion(rid: nat) returns (code: nat)
      requires Valid()
      modifies this
      ensures Valid()
      ensures View() == RegionFree(old(View()), rid)
      ensures code == if Defined(old(View()), rid) then 0 else ERR_REGION_INVALID
    {
      FreeKeepsInv(View(), rid);
      var ok := IsRegionValid(rid);
      if !ok {
        return ERR_REGION_INVALID;
      }
      var g := regions[rid];
      defBitmap := UnsetBit(defBitmap, rid);
      regBitmap := UnsetBit(regBitmap, g.reg);
      if NeedsTwoEntries(g) {
        regBitmap := UnsetBit(regBitmap, g.reg - 1);
      }
      regions := regions[rid := NO_REGION];
      return 0;
    }
  }
}

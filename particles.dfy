/** The particle buffer `pdata`: one heap column per field, allocated as a unit by alloc_parts
    and released by free_parts. Each column pointer is modelled by a Slot: a null pointer, a
    live allocation, or a pointer whose memory has been released. */
module Particles {

  /** INT_MAX of a 32-bit C `int`. */
  const IntMax: nat := 0x7fff_ffff
  /** The largest np for which alloc_parts' `np*3` does not overflow `int`. */
  const MaxAllocCount: nat := IntMax / 3

  datatype Slot = Null | Live(arr: array<real>) | Dangling

  /** What free() leaves in a slot: released memory, or a null pointer left alone. */
  function Released(s: Slot): (r: Slot)
    requires !s.Dangling?
    ensures r.Live? == false
    ensures r.Null? <==> s.Null?
  {
    if s.Live? then Dangling else s
  }

  /** One malloc call; `budget` is the number of further calls the allocator can satisfy. */
  method Malloc(size: nat, budget: nat) returns (s: Slot, rest: nat)
    ensures budget > 0 ==> s.Live? && fresh(s.arr) && s.arr.Length == size && rest == budget - 1
    ensures budget == 0 ==> s.Null? && rest == 0
  {
    if budget > 0 {
      var a := new real[size];
      s, rest := Live(a), budget - 1;
    } else {
      s, rest := Null, 0;
    }
  }

  /** No two live slots of the list point to the same allocation. */
  predicate Unshared(slots: seq<Slot>) {
    forall i, j :: 0 <= i < j < |slots| && slots[i].Live? && slots[j].Live? ==> slots[i].arr != slots[j].arr
  }

  class ParticleBuffer {
    var Vel: Slot
    var Pos: Slot
    var Mass: Slot
    var U: Slot
    var NH0: Slot
    var Ne: Slot
    var h: Slot
    /** Present only in a build with HELIUM defined. */
    var NHep: Slot

    /** A zero-initialised pdata: every pointer null. */
    constructor ()
      ensures Vel.Null? && Pos.Null? && Mass.Null? && U.Null?
      ensures NH0.Null? && Ne.Null? && h.Null? && NHep.Null?
    {
      Vel, Pos, Mass, U := Null, Null, Null, Null;
      NH0, Ne, h, NHep := Null, Null, Null, Null;
    }

    /** Number of malloc calls a successful alloc_parts makes. */
    static function AllocCalls(helium: bool): nat {
      if helium then 8 else 7
    }

    /** Every column is live, sized for np particles, and no two columns share memory. */
    ghost predicate Allocated(np: nat, helium: bool)
      reads this
    {
      LiveColumns(Vel, Pos, Mass, U, NH0, Ne, h, NHep, np, helium)
    }

    /** alloc_parts(P, np): malloc each column in turn, Vel, Pos, Mass, U, NH0, Ne, (NHep,) h,
        stopping at the first failure (the `&&` chain short-circuits). `available` is the
        number of mallocs that succeed. */
    method AllocParts(np: int, helium: bool, available: nat) returns (ok: bool)
      requires 0 <= np <= MaxAllocCount
      modifies this
      ensures ok <==> available >= AllocCalls(helium)
      ensures ok ==> Allocated(np, helium)
      ensures AllocStep(Vel, old(Vel), 0, available, 3 * np)
      ensures AllocStep(Pos, old(Pos), 1, available, 3 * np)
      ensures AllocStep(Mass, old(Mass), 2, available, np)
      ensures AllocStep(U, old(U), 3, available, np)
      ensures AllocStep(NH0, old(NH0), 4, available, np)
      ensures AllocStep(Ne, old(Ne), 5, available, np)
      ensures helium ==> AllocStep(NHep, old(NHep), 6, available, np)
      ensures AllocStep(h, old(h), AllocCalls(helium) - 1, available, np)
      ensures !helium ==> NHep == old(NHep)
    {
      var b := available;
      Vel, b := Malloc(np * 3, b);
      if Vel.Null? { return false; }
      Pos, b := Malloc(np * 3, b);
      if Pos.Null? { return false; }
      Mass, b := Malloc(np, b);
      if Mass.Null? { return false; }
      ok := AllocRemaining(np, helium, available);
    }

    /** The rest of alloc_parts' chain once Vel, Pos and Mass are allocated: U, NH0, Ne,
        (NHep,) h, the first three of the `available` mallocs having been spent. */
    method AllocRemaining(np: nat, helium: bool, available: nat) returns (ok: bool)
      requires 3 <= available
      requires Vel.Live? && Vel.arr.Length == 3 * np && Pos.Live? && Pos.arr.Length == 3 * np
      requires Mass.Live? && Mass.arr.Length == np
      requires Vel.arr != Pos.arr && Vel.arr != Mass.arr && Pos.arr != Mass.arr
      modifies this
      ensures Vel == old(Vel) && Pos == old(Pos) && Mass == old(Mass)
      ensures ok <==> available >= AllocCalls(helium)
      ensures ok ==> Allocated(np, helium)
      ensures AllocStep(U, old(U), 3, available, np)
      ensures AllocStep(NH0, old(NH0), 4, available, np)
      ensures AllocStep(Ne, old(Ne), 5, available, np)
      ensures helium ==> AllocStep(NHep, old(NHep), 6, available, np)
      ensures AllocStep(h, old(h), AllocCalls(helium) - 1, available, np)
      ensures !helium ==> NHep == old(NHep)
    {
      var b := available - 3;
      U, b := Malloc(np, b);
      if U.Null? { return false; }
      NH0, b := Malloc(np, b);
      if NH0.Null? { return false; }
      Ne, b := Malloc(np, b);
      if Ne.Null? { return false; }
      if helium {
        NHep, b := Malloc(np, b);
        if NHep.Null? { return false; }
      }
      h, b := Malloc(np, b);
      return h.Live?;
    }

    /** free_parts(P): free every column once. free(NULL) does nothing; freeing released
        memory again is undefined, so no column may be released already and no two live
        columns may share one allocation. */
    method FreeParts(helium: bool)
      requires !Vel.Dangling? && !Pos.Dangling? && !Mass.Dangling? && !U.Dangling?
      requires !NH0.Dangling? && !Ne.Dangling? && !h.Dangling?
      requires helium ==> !NHep.Dangling?
      requires Unshared(ColumnSlots(Vel, Pos, Mass, U, NH0, Ne, h, NHep, helium))
      modifies this
      ensures Vel == Released(old(Vel)) && Pos == Released(old(Pos))
      ensures Mass == Released(old(Mass)) && U == Released(old(U))
      ensures NH0 == Released(old(NH0)) && Ne == Released(old(Ne)) && h == Released(old(h))
      ensures NHep == if helium then Released(old(NHep)) else old(NHep)
    {
      Vel := Released(Vel);
      Pos := Released(Pos);
      Mass := Released(Mass);
      U := Released(U);
      NH0 := Released(NH0);
      Ne := Released(Ne);
      h := Released(h);
      if helium {
        NHep := Released(NHep);
      }
    }
  }

  /** The column slots of pdata: Vel, Pos, Mass, U, NH0, Ne, h, and NHep when HELIUM. */
  function ColumnSlots(vel: Slot, pos: Slot, mass: Slot, u: Slot, nh0: Slot, ne: Slot, h: Slot,
                       nhep: Slot, helium: bool): seq<Slot>
  {
    [vel, pos, mass, u, nh0, ne, h] + (if helium then [nhep] else [])
  }

  /** The columns are live, sized for np particles, and share no allocation. */
  predicate LiveColumns(vel: Slot, pos: Slot, mass: Slot, u: Slot, nh0: Slot, ne: Slot, h: Slot,
                        nhep: Slot, np: nat, helium: bool)
  {
    && vel.Live? && vel.arr.Length == 3 * np
    && pos.Live? && pos.arr.Length == 3 * np
    && mass.Live? && mass.arr.Length == np
    && u.Live? && u.arr.Length == np
    && nh0.Live? && nh0.arr.Length == np
    && ne.Live? && ne.arr.Length == np
    && h.Live? && h.arr.Length == np
    && (helium ==> nhep.Live? && nhep.arr.Length == np)
    && Unshared(ColumnSlots(vel, pos, mass, u, nh0, ne, h, nhep, helium))
  }

  /** The pairs of distinct arrays that Unshared gives for live columns. */
  lemma LiveColumnsApart(vel: Slot, pos: Slot, mass: Slot, u: Slot, nh0: Slot, ne: Slot, h: Slot,
                         nhep: Slot, np: nat, helium: bool)
    requires LiveColumns(vel, pos, mass, u, nh0, ne, h, nhep, np, helium)
    ensures vel.arr != pos.arr && vel.arr != mass.arr && vel.arr != u.arr && vel.arr != nh0.arr
    ensures vel.arr != ne.arr && vel.arr != h.arr
    ensures pos.arr != mass.arr && pos.arr != u.arr && pos.arr != nh0.arr && pos.arr != ne.arr
    ensures pos.arr != h.arr
    ensures mass.arr != u.arr && mass.arr != nh0.arr && mass.arr != ne.arr && mass.arr != h.arr
    ensures u.arr != nh0.arr && u.arr != ne.arr && u.arr != h.arr
    ensures nh0.arr != ne.arr && nh0.arr != h.arr && ne.arr != h.arr
    ensures helium ==> (&& nhep.arr != vel.arr && nhep.arr != pos.arr && nhep.arr != mass.arr
                        && nhep.arr != u.arr && nhep.arr != nh0.arr && nhep.arr != ne.arr
                        && nhep.arr != h.arr)
  {
    var s := ColumnSlots(vel, pos, mass, u, nh0, ne, h, nhep, helium);
    assert s[0] == vel && s[1] == pos && s[2] == mass && s[3] == u && s[4] == nh0 && s[5] == ne && s[6] == h;
    assert helium ==> s[7] == nhep;
  }

  /** The outcome for the k-th malloc of alloc_parts when `available` mallocs succeed: a fresh
      column of `size` values, a null pointer for the call that fails, and the old pointer
      for every column after it, which is never reached. */
  twostate predicate AllocStep(new s: Slot, s0: Slot, k: nat, available: nat, size: nat) {
    && (k < available ==> s.Live? && fresh(s.arr) && s.arr.Length == size)
    && (k == available ==> s.Null?)
    && (k > available ==> s == s0)
  }

  /** A buffer allocated by AllocParts and then released by FreeParts holds no live column. */
  method AllocateThenRelease(np: nat, helium: bool)
    requires np <= MaxAllocCount
  {
    var P := new ParticleBuffer();
    var ok := P.AllocParts(np, helium, ParticleBuffer.AllocCalls(helium));
    assert ok;
    P.FreeParts(helium);
    assert P.Vel.Dangling? && P.Pos.Dangling? && P.Mass.Dangling? && P.U.Dangling?;
    assert P.NH0.Dangling? && P.Ne.Dangling? && P.h.Dangling?;
    assert helium ==> P.NHep.Dangling?;
  }
}

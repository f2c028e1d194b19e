/** load_snapshot: reads the particles of one type, in a window of particle indices, from a
    GADGET snapshot into a freshly allocated particle buffer. The order of the block reads,
    the skip masks they carry, the mass handling and the gas fields are modelled; the Hubble
    rate and the baryon fraction, which are floating-point formulas, are not. */
module ReadSnapshot {
  import opened Wrappers
  import opened Masks
  import opened GadgetReader
  import opened Particles

  /** The build-time configuration: PARTTYPE and whether GADGET3 and HELIUM are defined. */
  datatype Config = Config(partType: nat, gadget3: bool, helium: bool)
  {
    predicate Valid() {
      partType < NType
    }
  }

  /** The two exits of load_snapshot: exit(1) when allocation fails, and exit(0) when a
      particle's mass differs from the first one's (`index` is that particle). */
  datatype LoadError = AllocationFailure | MassMismatch(index: nat)

  /** The number of particles loaded, and the header values load_snapshot writes through its
      atime, redshift, box100 and h100 out-parameters. */
  datatype LoadInfo = LoadInfo(count: nat, atime: real, redshift: real, box100: real, h100: real)

  function Info(hdr: Header, n: nat): LoadInfo {
    LoadInfo(n, hdr.time, hdr.redshift, hdr.boxSize, hdr.hubbleParam)
  }

  // ---------------------------------------------------------------------------------------
  // The particle window

  /** NumPart as written: at most maxRead particles when maxRead > 0, otherwise every particle
      from start on. */
  function ResolveCount(npart: int, start: int, maxRead: int): (n: int)
    ensures n <= npart - start
    ensures maxRead > 0 ==> n <= maxRead
    ensures n == npart - start || (maxRead > 0 && n == maxRead)
  {
    if maxRead > 0 then (if npart - start < maxRead then npart - start else maxRead)
    else npart - start
  }

  /** A window that starts past the last particle gives a negative NumPart, which the
      `NumPart == 0` test lets through to alloc_parts. */
  lemma PastEndCountIsNegative(npart: int, start: int, maxRead: int)
    requires start > npart
    ensures ResolveCount(npart, start, maxRead) < 0
    ensures ResolveCount(npart, start, maxRead) != 0
  {
  }

  /** The number of particles a load reads when the early return tests `NumPart <= 0`: the
      window clipped to the particles that exist. */
  function LoadCount(npart: int, start: int, maxRead: int): (n: nat)
    ensures n == 0 <==> npart <= start
    ensures n > 0 ==> start + n <= npart
    ensures maxRead > 0 ==> n <= maxRead
    ensures maxRead <= 0 && start < npart ==> n == npart - start
    ensures maxRead > 0 && start + maxRead <= npart ==> n == maxRead
    ensures start <= npart ==> n == ResolveCount(npart, start, maxRead)
  {
    var c := ResolveCount(npart, start, maxRead);
    if c <= 0 then 0 else c
  }

  /** The window of a load from the snapshot's header. */
  function WindowCount(snap: Snapshot, cfg: Config, start: int, maxRead: int): nat
    requires snap.Valid() && cfg.Valid()
  {
    LoadCount(snap.Npart(cfg.partType), start, maxRead)
  }

  function Range(lo: int, hi: int): (r: seq<int>)
    decreases hi - lo
  {
    if lo >= hi then [] else [lo] + Range(lo + 1, hi)
  }

  lemma {:induction false} RangeSplit(lo: int, mid: int, hi: int)
    requires lo <= mid <= hi
    ensures Range(lo, hi) == Range(lo, mid) + Range(mid, hi)
    decreases mid - lo
  {
    if lo < mid {
      RangeSplit(lo + 1, mid, hi);
    }
  }

  /** The particle indices a caller reads by loading from `start` with the same maxRead, each
      load starting where the previous one ended, until a load returns 0. */
  function PagedIndices(npart: int, start: int, maxRead: int): seq<int>
    decreases npart - start
  {
    var n := LoadCount(npart, start, maxRead);
    if n == 0 then [] else Range(start, start + n) + PagedIndices(npart, start + n, maxRead)
  }

  /** Paging through a snapshot visits every particle from `start` on exactly once, in order. */
  lemma {:induction false} PagingCoversEachParticleOnce(npart: int, start: int, maxRead: int)
    ensures PagedIndices(npart, start, maxRead) == Range(start, npart)
    decreases npart - start
  {
    var n := LoadCount(npart, start, maxRead);
    if n > 0 {
      PagingCoversEachParticleOnce(npart, start + n, maxRead);
      RangeSplit(start, start + n, npart);
    }
  }

  // ---------------------------------------------------------------------------------------
  // Skip masks

  /** (1<<N_TYPE)-1-(1<<PARTTYPE): the mask that skips every type except t. */
  function OtherTypesMask(t: nat): int
    requires t < NType
  {
    Pow2(NType) - 1 - Pow2(t)
  }

  /** The POS and VEL mask has bit i set exactly for the other types. */
  lemma OtherTypesMaskBits(t: nat)
    requires t < NType
    ensures OtherTypesMask(t) == Mask(Except(NType, t))
    ensures 0 <= OtherTypesMask(t) < Pow2(NType)
    ensures forall i: nat :: Bit(OtherTypesMask(t), i) <==> i < NType && i != t
  {
    MaskExcept(NType, t);
    MaskBits(Except(NType, t));
  }

  /** The types the MASS read skips: every other type whose header mass is zero. */
  function MassSkipBits(mass: seq<real>, t: nat): (bits: seq<bool>)
    requires |mass| == NType
    ensures |bits| == NType
  {
    seq(NType, i requires 0 <= i < NType => i != t && mass[i] == 0.0)
  }

  /** The skip bits after the mask loop has looked at the types below i. */
  ghost function PartialSkipBits(mass: seq<real>, t: nat, i: nat): seq<bool>
    requires |mass| == NType
  {
    seq(NType, j requires 0 <= j < NType => j != t && (j >= i || mass[j] == 0.0))
  }

  /** The skip mask of the MASS read, computed as lines 68-71 do, from the mask of every other
      type, subtracting 1<<i for each type with a header mass. Only reached when type t has
      no header mass, so bit t is never subtracted and every subtraction clears a set bit. */
  method MassSkipMask(mass: seq<real>, t: nat) returns (skip: int)
    requires |mass| == NType && t < NType && mass[t] == 0.0
    ensures skip == Mask(MassSkipBits(mass, t))
    ensures 0 <= skip < Pow2(NType)
    ensures forall i: nat :: Bit(skip, i) <==> i < NType && i != t && mass[i] == 0.0
  {
    skip := Pow2(NType) - 1 - Pow2(t);
    MaskExcept(NType, t);
    assert Except(NType, t) == PartialSkipBits(mass, t, 0);
    for i := 0 to NType
      invariant skip == Mask(PartialSkipBits(mass, t, i))
    {
      if mass[i] != 0.0 {
        MaskClear(PartialSkipBits(mass, t, i), i);
        assert PartialSkipBits(mass, t, i)[i := false] == PartialSkipBits(mass, t, i + 1);
        skip := skip - Pow2(i);
      } else {
        assert PartialSkipBits(mass, t, i) == PartialSkipBits(mass, t, i + 1);
      }
    }
    assert PartialSkipBits(mass, t, NType) == MassSkipBits(mass, t);
    MaskBits(MassSkipBits(mass, t));
  }

  // ---------------------------------------------------------------------------------------
  // The block reads, in order

  function PosVelRequests(t: nat, n: int, start: int): seq<Request>
    requires t < NType
  {
    [Request(POS, n, start, OtherTypesMask(t)), Request(VEL, n, start, OtherTypesMask(t))]
  }

  function MassRequest(mass: seq<real>, t: nat, n: int, start: int): Request
    requires |mass| == NType
  {
    Request(MASS, n, start, Mask(MassSkipBits(mass, t)))
  }

  /** The MASS block is read only for a type without a header mass. */
  function MassRequests(hdr: Header, t: nat, n: int, start: int): seq<Request>
    requires |hdr.mass| == NType && t < NType
  {
    if hdr.mass[t] != 0.0 then [] else [MassRequest(hdr.mass, t, n, start)]
  }

  /** The gas blocks are read with no type skipped. */
  function GasRequest(tag: Tag, n: int, start: int): Request {
    Request(tag, n, start, 0)
  }

  /** With cooling: Ne (one block, or its three parts), NHep when HELIUM, then NH0. */
  function CoolingRequests(gadget3: bool, helium: bool, n: int, start: int): seq<Request> {
    (if gadget3 then [GasRequest(NE, n, start)]
     else [GasRequest(NHP, n, start), GasRequest(NHEP, n, start), GasRequest(NHEQ, n, start)])
    + (if helium then [GasRequest(NHE, n, start)] else [])
    + [GasRequest(NH, n, start)]
  }

  function GasRequests(cfg: Config, flagCooling: int, n: int, start: int): seq<Request> {
    [GasRequest(U, n, start)]
    + (if flagCooling != 0 then CoolingRequests(cfg.gadget3, cfg.helium, n, start) else [])
    + [GasRequest(HSML, n, start)]
  }

  /** Every GetBlock call of a load that passes the mass check, in order. */
  function ReadPlan(cfg: Config, hdr: Header, n: int, start: int): seq<Request>
    requires cfg.Valid() && |hdr.mass| == NType
  {
    PosVelRequests(cfg.partType, n, start)
    + MassRequests(hdr, cfg.partType, n, start)
    + (if cfg.partType == Gas then GasRequests(cfg, hdr.flagCooling, n, start) else [])
  }

  lemma AppendAssoc<T>(a: seq<T>, b: seq<T>, c: seq<T>)
    ensures (a + b) + c == a + (b + c)
  {
  }

  /** Whether a sequence of reads reads a block with this tag. */
  predicate Reads(plan: seq<Request>, tag: Tag) {
    exists r :: r in plan && r.tag == tag
  }

  lemma ReadsAppend(a: seq<Request>, b: seq<Request>, tag: Tag)
    ensures Reads(a + b, tag) <==> Reads(a, tag) || Reads(b, tag)
  {
    if Reads(a + b, tag) {
      var r :| r in a + b && r.tag == tag;
      assert r in a || r in b;
    }
    if Reads(a, tag) {
      var r :| r in a && r.tag == tag;
      assert r in a + b;
    }
    if Reads(b, tag) {
      var r :| r in b && r.tag == tag;
      assert r in a + b;
    }
  }

  lemma ReadsOne(r: Request, tag: Tag)
    ensures Reads([r], tag) <==> r.tag == tag
  {
    if r.tag == tag {
      assert r in [r];
    }
  }

  /** The tags of the electron-fraction reads: NE, or its three parts. */
  lemma ElectronTags(gadget3: bool, n: int, start: int, tag: Tag)
    ensures Reads(if gadget3 then [GasRequest(NE, n, start)]
                  else [GasRequest(NHP, n, start), GasRequest(NHEP, n, start), GasRequest(NHEQ, n, start)], tag)
            <==> (gadget3 && tag == NE) || (!gadget3 && (tag == NHP || tag == NHEP || tag == NHEQ))
  {
    if gadget3 {
      ReadsOne(GasRequest(NE, n, start), tag);
    } else {
      var parts := [GasRequest(NHP, n, start), GasRequest(NHEP, n, start), GasRequest(NHEQ, n, start)];
      if tag == NHP || tag == NHEP || tag == NHEQ {
        assert parts[if tag == NHP then 0 else if tag == NHEP then 1 else 2] in parts;
      }
    }
  }

  /** The tags of the cooling reads. */
  lemma CoolingTags(gadget3: bool, helium: bool, n: int, start: int, tag: Tag)
    ensures Reads(CoolingRequests(gadget3, helium, n, start), tag) <==>
              || (gadget3 && tag == NE)
              || (!gadget3 && (tag == NHP || tag == NHEP || tag == NHEQ))
              || (helium && tag == NHE)
              || tag == NH
  {
    var ne := if gadget3 then [GasRequest(NE, n, start)]
              else [GasRequest(NHP, n, start), GasRequest(NHEP, n, start), GasRequest(NHEQ, n, start)];
    var he := if helium then [GasRequest(NHE, n, start)] else [];
    ReadsAppend(ne, he, tag);
    ReadsAppend(ne + he, [GasRequest(NH, n, start)], tag);
    ElectronTags(gadget3, n, start, tag);
    ReadsOne(GasRequest(NHE, n, start), tag);
    ReadsOne(GasRequest(NH, n, start), tag);
  }

  /** The tags of the gas reads. */
  lemma GasTags(cfg: Config, flagCooling: int, n: int, start: int, tag: Tag)
    ensures Reads(GasRequests(cfg, flagCooling, n, start), tag) <==>
              || tag == U || tag == HSML
              || (flagCooling != 0 && Reads(CoolingRequests(cfg.gadget3, cfg.helium, n, start), tag))
  {
    var cool := if flagCooling != 0 then CoolingRequests(cfg.gadget3, cfg.helium, n, start) else [];
    var u, hsml := [GasRequest(U, n, start)], [GasRequest(HSML, n, start)];
    assert GasRequests(cfg, flagCooling, n, start) == u + cool + hsml;
    ReadsAppend(u, cool, tag);
    ReadsAppend(u + cool, hsml, tag);
    ReadsOne(GasRequest(U, n, start), tag);
    ReadsOne(GasRequest(HSML, n, start), tag);
  }

  /** The tags of a plan, piece by piece. */
  lemma PlanTags(cfg: Config, hdr: Header, n: int, start: int, tag: Tag)
    requires cfg.Valid() && |hdr.mass| == NType
    ensures Reads(ReadPlan(cfg, hdr, n, start), tag) <==>
              || tag == POS || tag == VEL
              || (tag == MASS && hdr.mass[cfg.partType] == 0.0)
              || (cfg.partType == Gas && Reads(GasRequests(cfg, hdr.flagCooling, n, start), tag))
  {
    var t := cfg.partType;
    var pv, ms := PosVelRequests(t, n, start), MassRequests(hdr, t, n, start);
    var gas := if t == Gas then GasRequests(cfg, hdr.flagCooling, n, start) else [];
    ReadsAppend(pv, ms, tag);
    ReadsAppend(pv + ms, gas, tag);
    ReadsAppend([pv[0]], [pv[1]], tag);
    assert pv == [pv[0]] + [pv[1]];
    ReadsOne(pv[0], tag);
    ReadsOne(pv[1], tag);
    ReadsOne(MassRequest(hdr.mass, t, n, start), tag);
  }

  /** Positions, then velocities, come first, for the window, with every other type skipped. */
  lemma PlanStartsWithPosVel(cfg: Config, hdr: Header, n: int, start: int)
    requires cfg.Valid() && |hdr.mass| == NType
    ensures |ReadPlan(cfg, hdr, n, start)| >= 2
    ensures ReadPlan(cfg, hdr, n, start)[0] == Request(POS, n, start, OtherTypesMask(cfg.partType))
    ensures ReadPlan(cfg, hdr, n, start)[1] == Request(VEL, n, start, OtherTypesMask(cfg.partType))
  {
  }

  /** Every read is for the same window. */
  lemma PlanReadsTheWindow(cfg: Config, hdr: Header, n: int, start: int)
    requires cfg.Valid() && |hdr.mass| == NType
    ensures forall k :: 0 <= k < |ReadPlan(cfg, hdr, n, start)| ==>
              ReadPlan(cfg, hdr, n, start)[k].count == n && ReadPlan(cfg, hdr, n, start)[k].start == start
  {
  }

  /** The MASS block is read iff the header has no mass for the type, and then third, with
      bit i of its skip mask set exactly for the other types that have no header mass either. */
  lemma PlanReadsMassIffNoHeaderMass(cfg: Config, hdr: Header, n: int, start: int)
    requires cfg.Valid() && |hdr.mass| == NType
    ensures Reads(ReadPlan(cfg, hdr, n, start), MASS) <==> hdr.mass[cfg.partType] == 0.0
    ensures hdr.mass[cfg.partType] == 0.0 ==>
              ReadPlan(cfg, hdr, n, start)[2] == MassRequest(hdr.mass, cfg.partType, n, start)
    ensures forall i: nat :: Bit(MassRequest(hdr.mass, cfg.partType, n, start).skip, i) <==>
              i < NType && i != cfg.partType && hdr.mass[i] == 0.0
  {
    PlanTags(cfg, hdr, n, start, MASS);
    GasTags(cfg, hdr.flagCooling, n, start, MASS);
    CoolingTags(cfg.gadget3, cfg.helium, n, start, MASS);
    MaskBits(MassSkipBits(hdr.mass, cfg.partType));
  }

  /** U and HSML are read exactly for gas, HSML last. */
  lemma PlanGasBlocks(cfg: Config, hdr: Header, n: int, start: int)
    requires cfg.Valid() && |hdr.mass| == NType
    ensures Reads(ReadPlan(cfg, hdr, n, start), U) <==> cfg.partType == Gas
    ensures Reads(ReadPlan(cfg, hdr, n, start), HSML) <==> cfg.partType == Gas
    ensures cfg.partType == Gas ==>
              ReadPlan(cfg, hdr, n, start)[|ReadPlan(cfg, hdr, n, start)| - 1] == GasRequest(HSML, n, start)
  {
    PlanTags(cfg, hdr, n, start, U);
    PlanTags(cfg, hdr, n, start, HSML);
    GasTags(cfg, hdr.flagCooling, n, start, U);
    GasTags(cfg, hdr.flagCooling, n, start, HSML);
  }

  /** NH0 and the electron fraction are read only for gas with cooling on, the electron
      fraction from its three parts NHP, NHEP, NHEQ unless GADGET3; NHE only when HELIUM is
      also defined. */
  lemma PlanCoolingBlocks(cfg: Config, hdr: Header, n: int, start: int)
    requires cfg.Valid() && |hdr.mass| == NType
    ensures Reads(ReadPlan(cfg, hdr, n, start), NH) <==> cfg.partType == Gas && hdr.flagCooling != 0
    ensures Reads(ReadPlan(cfg, hdr, n, start), NHP) <==>
              cfg.partType == Gas && hdr.flagCooling != 0 && !cfg.gadget3
    ensures Reads(ReadPlan(cfg, hdr, n, start), NHEP) <==>
              cfg.partType == Gas && hdr.flagCooling != 0 && !cfg.gadget3
    ensures Reads(ReadPlan(cfg, hdr, n, start), NHEQ) <==>
              cfg.partType == Gas && hdr.flagCooling != 0 && !cfg.gadget3
    ensures Reads(ReadPlan(cfg, hdr, n, start), NE) <==>
              cfg.partType == Gas && hdr.flagCooling != 0 && cfg.gadget3
    ensures Reads(ReadPlan(cfg, hdr, n, start), NHE) <==>
              cfg.partType == Gas && hdr.flagCooling != 0 && cfg.helium
  {
    PlanTags(cfg, hdr, n, start, NH);
    PlanTags(cfg, hdr, n, start, NHP);
    PlanTags(cfg, hdr, n, start, NHEP);
    PlanTags(cfg, hdr, n, start, NHEQ);
    PlanTags(cfg, hdr, n, start, NE);
    PlanTags(cfg, hdr, n, start, NHE);
    GasTags(cfg, hdr.flagCooling, n, start, NH);
    GasTags(cfg, hdr.flagCooling, n, start, NHP);
    GasTags(cfg, hdr.flagCooling, n, start, NHEP);
    GasTags(cfg, hdr.flagCooling, n, start, NHEQ);
    GasTags(cfg, hdr.flagCooling, n, start, NE);
    GasTags(cfg, hdr.flagCooling, n, start, NHE);
    CoolingTags(cfg.gadget3, cfg.helium, n, start, NH);
    CoolingTags(cfg.gadget3, cfg.helium, n, start, NHP);
    CoolingTags(cfg.gadget3, cfg.helium, n, start, NHEP);
    CoolingTags(cfg.gadget3, cfg.helium, n, start, NHEQ);
    CoolingTags(cfg.gadget3, cfg.helium, n, start, NE);
    CoolingTags(cfg.gadget3, cfg.helium, n, start, NHE);
  }

  // ---------------------------------------------------------------------------------------
  // The loops of load_snapshot

  /** Lines 64-65: every particle gets the header mass. */
  method FillUniform(a: array<real>, n: nat, v: real)
    requires n <= a.Length
    modifies a
    ensures forall i :: 0 <= i < n ==> a[i] == v
    ensures forall i :: n <= i < a.Length ==> a[i] == old(a[i])
  {
    for i := 0 to n
      invariant forall j :: 0 <= j < i ==> a[j] == v
      invariant forall j :: i <= j < a.Length ==> a[j] == old(a[j])
    {
      a[i] := v;
    }
  }

  predicate Uniform(s: seq<real>) {
    forall i :: 0 <= i < |s| ==> s[i] == s[0]
  }

  /** Lines 74-78: the first particle whose mass differs from particle 0's, if any. */
  method FirstMassMismatch(mass: array<real>, n: nat) returns (r: Option<nat>)
    requires n <= mass.Length
    ensures r.None? <==> Uniform(mass[..n])
    ensures r.Some? ==> r.value < n && mass[r.value] != mass[0]
    ensures r.Some? ==> forall j :: 0 <= j < r.value ==> mass[j] == mass[0]
  {
    for i := 0 to n
      invariant forall j :: 0 <= j < i ==> mass[j] == mass[0]
    {
      if mass[i] != mass[0] {
        return Some(i);
      }
    }
    assert forall j :: 0 <= j < n ==> mass[..n][j] == mass[j];
    return None;
  }

  /** Lines 97-99 and 101-103: dst[k] += c * src[k] for the first n particles. */
  method Accumulate(dst: array<real>, src: array<real>, n: nat, c: real)
    requires n <= dst.Length && n <= src.Length && dst != src
    modifies dst
    ensures forall k :: 0 <= k < n ==> dst[k] == old(dst[k]) + c * src[k]
    ensures forall k :: n <= k < dst.Length ==> dst[k] == old(dst[k])
  {
    for k := 0 to n
      invariant forall j :: 0 <= j < k ==> dst[j] == old(dst[j]) + c * src[j]
      invariant forall j :: k <= j < dst.Length ==> dst[j] == old(dst[j])
    {
      dst[k] := dst[k] + c * src[k];
    }
  }

  // ---------------------------------------------------------------------------------------
  // What the columns hold after a load

  /** Positions and velocities are the POS and VEL blocks for the window. */
  ghost predicate PosVelColumns(snap: Snapshot, t: nat, n: nat, start: int, pos: seq<real>, vel: seq<real>)
    requires t < NType
  {
    && (snap.Delivers(PosVelRequests(t, n, start)[0]) ==> pos == snap.block(PosVelRequests(t, n, start)[0]))
    && (snap.Delivers(PosVelRequests(t, n, start)[1]) ==> vel == snap.block(PosVelRequests(t, n, start)[1]))
  }

  /** With a header mass every particle has it; otherwise the masses are the MASS block. */
  ghost predicate MassColumn(snap: Snapshot, t: nat, n: nat, start: int, mass: seq<real>)
    requires snap.Valid() && t < NType
  {
    && |mass| == n
    && (snap.header.mass[t] != 0.0 ==> forall i :: 0 <= i < n ==> mass[i] == snap.header.mass[t])
    && (snap.header.mass[t] == 0.0 && snap.Delivers(MassRequest(snap.header.mass, t, n, start)) ==>
          mass == snap.block(MassRequest(snap.header.mass, t, n, start)))
  }

  /** The electron fraction from its three parts: Ne = NHP + NHEP + 2 NHEQ. */
  ghost predicate ElectronFraction(ne: seq<real>, nhp: seq<real>, nhep: seq<real>, nheq: seq<real>, n: nat)
    requires |ne| >= n && |nhp| >= n && |nhep| >= n && |nheq| >= n
  {
    forall k :: 0 <= k < n ==> ne[k] == nhp[k] + nhep[k] + 2.0 * nheq[k]
  }

  /** What the cooling columns hold after lines 86-113, for each block the reader delivers. */
  ghost predicate CoolingColumns(snap: Snapshot, cfg: Config, n: nat, start: int,
                                 ne: seq<real>, nh0: seq<real>, nhep: seq<real>)
  {
    && |ne| == n
    && (!cfg.gadget3 && snap.Delivers(GasRequest(NHP, n, start))
        && snap.Delivers(GasRequest(NHEP, n, start)) && snap.Delivers(GasRequest(NHEQ, n, start)) ==>
          ElectronFraction(ne, snap.block(GasRequest(NHP, n, start)), snap.block(GasRequest(NHEP, n, start)),
                           snap.block(GasRequest(NHEQ, n, start)), n))
    && (cfg.gadget3 && snap.Delivers(GasRequest(NE, n, start)) ==> ne == snap.block(GasRequest(NE, n, start)))
    && (cfg.helium && snap.Delivers(GasRequest(NHE, n, start)) ==> nhep == snap.block(GasRequest(NHE, n, start)))
    && (snap.Delivers(GasRequest(NH, n, start)) ==> nh0 == snap.block(GasRequest(NH, n, start)))
  }

  /** What the gas columns hold after the gas branch, for each block the reader delivers. */
  ghost predicate GasColumns(snap: Snapshot, cfg: Config, n: nat, start: int,
                             u: seq<real>, ne: seq<real>, nh0: seq<real>, nhep: seq<real>, hsml: seq<real>)
  {
    && (snap.Delivers(GasRequest(U, n, start)) ==> u == snap.block(GasRequest(U, n, start)))
    && (snap.header.flagCooling != 0 ==> CoolingColumns(snap, cfg, n, start, ne, nh0, nhep))
    && (snap.Delivers(GasRequest(HSML, n, start)) ==> hsml == snap.block(GasRequest(HSML, n, start)))
  }

  /** A header mass always passes the uniformity check. */
  lemma HeaderMassIsUniform(snap: Snapshot, t: nat, n: nat, start: int, mass: seq<real>)
    requires snap.Valid() && t < NType && snap.header.mass[t] != 0.0
    requires MassColumn(snap, t, n, start, mass)
    ensures Uniform(mass)
  {
  }

  /** Masses from a full MASS block pass the check iff the block's values are all equal. */
  lemma BlockMassCheck(snap: Snapshot, t: nat, n: nat, start: int, mass: seq<real>)
    requires snap.Valid() && t < NType && snap.header.mass[t] == 0.0
    requires snap.Delivers(MassRequest(snap.header.mass, t, n, start))
    requires MassColumn(snap, t, n, start, mass)
    ensures Uniform(mass) <==> Uniform(snap.block(MassRequest(snap.header.mass, t, n, start)))
  {
  }

  // ---------------------------------------------------------------------------------------
  // Paging by value

  /** The skip mask of a load's read of `tag`. */
  function SkipOf(hdr: Header, t: nat, tag: Tag): int
    requires |hdr.mass| == NType && t < NType
  {
    if tag == POS || tag == VEL then OtherTypesMask(t)
    else if tag == MASS then Mask(MassSkipBits(hdr.mass, t))
    else 0
  }

  /** A reader that is consistent over a split window: for every tag, the a + b values from
      `start` are the a values from `start` followed by the b values from `start + a`, and
      both halves are full blocks. */
  ghost predicate ReaderSplits(snap: Snapshot, t: nat, a: nat, b: nat, start: int)
    requires snap.Valid() && t < NType
  {
    forall tag: Tag ::
      && snap.Delivers(Request(tag, a, start, SkipOf(snap.header, t, tag)))
      && snap.Delivers(Request(tag, b, start + a, SkipOf(snap.header, t, tag)))
      && snap.block(Request(tag, a + b, start, SkipOf(snap.header, t, tag)))
         == snap.block(Request(tag, a, start, SkipOf(snap.header, t, tag)))
            + snap.block(Request(tag, b, start + a, SkipOf(snap.header, t, tag)))
  }

  /** The values of one block over a split window, and the whole window is a full block too. */
  lemma BlockSplit(snap: Snapshot, t: nat, a: nat, b: nat, start: int, tag: Tag)
    requires snap.Valid() && t < NType && ReaderSplits(snap, t, a, b, start)
    ensures var k := SkipOf(snap.header, t, tag);
            && snap.Delivers(Request(tag, a, start, k)) && snap.Delivers(Request(tag, b, start + a, k))
            && snap.Delivers(Request(tag, a + b, start, k))
            && snap.block(Request(tag, a + b, start, k))
               == snap.block(Request(tag, a, start, k)) + snap.block(Request(tag, b, start + a, k))
  {
    var k := SkipOf(snap.header, t, tag);
    assert snap.Delivers(Request(tag, a, start, k));
    assert snap.Delivers(Request(tag, b, start + a, k));
    assert Width(tag) * (a + b) == Width(tag) * a + Width(tag) * b;
  }

  /** The columns of a load, as values: positions, velocities, masses and the gas columns. */
  datatype Columns = Columns(pos: seq<real>, vel: seq<real>, mass: seq<real>, u: seq<real>,
                             ne: seq<real>, nh0: seq<real>, nhep: seq<real>, hsml: seq<real>)

  /** What LoadSnapshot promises about the columns of a load that passes the mass check. */
  ghost predicate Loaded(snap: Snapshot, cfg: Config, n: nat, start: int, c: Columns)
    requires snap.Valid() && cfg.Valid()
  {
    && PosVelColumns(snap, cfg.partType, n, start, c.pos, c.vel)
    && MassColumn(snap, cfg.partType, n, start, c.mass)
    && (cfg.partType == Gas ==> GasColumns(snap, cfg, n, start, c.u, c.ne, c.nh0, c.nhep, c.hsml))
  }

  /** A uniform column over a split window is the two uniform halves. */
  lemma UniformSplit(m: seq<real>, m1: seq<real>, m2: seq<real>, v: real)
    requires forall i :: 0 <= i < |m| ==> m[i] == v
    requires forall i :: 0 <= i < |m1| ==> m1[i] == v
    requires forall i :: 0 <= i < |m2| ==> m2[i] == v
    requires |m| == |m1| + |m2|
    ensures m == m1 + m2
  {
    assert forall i :: 0 <= i < |m| ==> m[i] == (m1 + m2)[i];
  }

  /** Ne = NHP + NHEP + 2 NHEQ over a split window is the two halves' Ne. */
  lemma ElectronFractionSplit(ne: seq<real>, ne1: seq<real>, ne2: seq<real>,
                              nhp1: seq<real>, nhp2: seq<real>, nhep1: seq<real>, nhep2: seq<real>,
                              nheq1: seq<real>, nheq2: seq<real>)
    requires |ne| == |ne1| + |ne2| && |nhp1| == |nhep1| == |nheq1| == |ne1|
    requires |nhp2| == |nhep2| == |nheq2| == |ne2|
    requires ElectronFraction(ne, nhp1 + nhp2, nhep1 + nhep2, nheq1 + nheq2, |ne|)
    requires ElectronFraction(ne1, nhp1, nhep1, nheq1, |ne1|)
    requires ElectronFraction(ne2, nhp2, nhep2, nheq2, |ne2|)
    ensures ne == ne1 + ne2
  {
    forall k | 0 <= k < |ne|
      ensures ne[k] == (ne1 + ne2)[k]
    {
      if k >= |ne1| {
        var j := k - |ne1|;
        assert (nhp1 + nhp2)[k] == nhp2[j] && (nhep1 + nhep2)[k] == nhep2[j]
               && (nheq1 + nheq2)[k] == nheq2[j];
      }
    }
  }

  /** Loading the window [start, start + a) and then [start + a, start + a + b) gives, column
      by column, the values of loading [start, start + a + b) at once, for a reader whose
      blocks split consistently over the window. */
  lemma PagedLoadsConcatenate(snap: Snapshot, cfg: Config, a: nat, b: nat, start: int,
                              c1: Columns, c2: Columns, c: Columns)
    requires snap.Valid() && cfg.Valid() && ReaderSplits(snap, cfg.partType, a, b, start)
    requires Loaded(snap, cfg, a, start, c1) && Loaded(snap, cfg, b, start + a, c2)
    requires Loaded(snap, cfg, a + b, start, c)
    ensures c.pos == c1.pos + c2.pos && c.vel == c1.vel + c2.vel
    ensures c.mass == c1.mass + c2.mass
    ensures cfg.partType == Gas ==> c.u == c1.u + c2.u && c.hsml == c1.hsml + c2.hsml
    ensures cfg.partType == Gas && snap.header.flagCooling != 0 ==>
              && c.ne == c1.ne + c2.ne && c.nh0 == c1.nh0 + c2.nh0
              && (cfg.helium ==> c.nhep == c1.nhep + c2.nhep)
  {
    var t := cfg.partType;
    BlockSplit(snap, t, a, b, start, POS);
    BlockSplit(snap, t, a, b, start, VEL);
    if snap.header.mass[t] != 0.0 {
      UniformSplit(c.mass, c1.mass, c2.mass, snap.header.mass[t]);
    } else {
      BlockSplit(snap, t, a, b, start, MASS);
    }
    if t == Gas {
      GasPagesConcatenate(snap, cfg, a, b, start, c1, c2, c);
    }
  }

  /** The gas half of PagedLoadsConcatenate. */
  lemma GasPagesConcatenate(snap: Snapshot, cfg: Config, a: nat, b: nat, start: int,
                            c1: Columns, c2: Columns, c: Columns)
    requires snap.Valid() && cfg.Valid() && cfg.partType == Gas
    requires ReaderSplits(snap, cfg.partType, a, b, start)
    requires GasColumns(snap, cfg, a, start, c1.u, c1.ne, c1.nh0, c1.nhep, c1.hsml)
    requires GasColumns(snap, cfg, b, start + a, c2.u, c2.ne, c2.nh0, c2.nhep, c2.hsml)
    requires GasColumns(snap, cfg, a + b, start, c.u, c.ne, c.nh0, c.nhep, c.hsml)
    ensures c.u == c1.u + c2.u && c.hsml == c1.hsml + c2.hsml
    ensures snap.header.flagCooling != 0 ==>
              && c.ne == c1.ne + c2.ne && c.nh0 == c1.nh0 + c2.nh0
              && (cfg.helium ==> c.nhep == c1.nhep + c2.nhep)
  {
    BlockSplit(snap, cfg.partType, a, b, start, U);
    BlockSplit(snap, cfg.partType, a, b, start, HSML);
    if snap.header.flagCooling != 0 {
      CoolingPagesConcatenate(snap, cfg, a, b, start, c1.ne, c1.nh0, c1.nhep, c2.ne, c2.nh0, c2.nhep,
                              c.ne, c.nh0, c.nhep);
    }
  }

  /** The cooling columns over a split window are the two halves'. */
  lemma CoolingPagesConcatenate(snap: Snapshot, cfg: Config, a: nat, b: nat, start: int,
                                ne1: seq<real>, nh01: seq<real>, nhep1: seq<real>,
                                ne2: seq<real>, nh02: seq<real>, nhep2: seq<real>,
                                ne: seq<real>, nh0: seq<real>, nhep: seq<real>)
    requires snap.Valid() && cfg.Valid() && ReaderSplits(snap, cfg.partType, a, b, start)
    requires CoolingColumns(snap, cfg, a, start, ne1, nh01, nhep1)
    requires CoolingColumns(snap, cfg, b, start + a, ne2, nh02, nhep2)
    requires CoolingColumns(snap, cfg, a + b, start, ne, nh0, nhep)
    ensures ne == ne1 + ne2 && nh0 == nh01 + nh02
    ensures cfg.helium ==> nhep == nhep1 + nhep2
  {
    var t := cfg.partType;
    BlockSplit(snap, t, a, b, start, NH);
    BlockSplit(snap, t, a, b, start, NHE);
    if cfg.gadget3 {
      BlockSplit(snap, t, a, b, start, NE);
    } else {
      ElectronPartsConcatenate(snap, t, a, b, start, ne1, ne2, ne);
    }
  }

  /** Ne summed from NHP, NHEP and NHEQ over a split window is the two halves' Ne. */
  lemma ElectronPartsConcatenate(snap: Snapshot, t: nat, a: nat, b: nat, start: int,
                                 ne1: seq<real>, ne2: seq<real>, ne: seq<real>)
    requires snap.Valid() && t < NType && ReaderSplits(snap, t, a, b, start)
    requires |ne1| == a && |ne2| == b && |ne| == a + b
    requires snap.Delivers(GasRequest(NHP, a, start)) && snap.Delivers(GasRequest(NHEP, a, start))
             && snap.Delivers(GasRequest(NHEQ, a, start)) ==>
               ElectronFraction(ne1, snap.block(GasRequest(NHP, a, start)),
                                snap.block(GasRequest(NHEP, a, start)), snap.block(GasRequest(NHEQ, a, start)), a)
    requires snap.Delivers(GasRequest(NHP, b, start + a)) && snap.Delivers(GasRequest(NHEP, b, start + a))
             && snap.Delivers(GasRequest(NHEQ, b, start + a)) ==>
               ElectronFraction(ne2, snap.block(GasRequest(NHP, b, start + a)),
                                snap.block(GasRequest(NHEP, b, start + a)),
                                snap.block(GasRequest(NHEQ, b, start + a)), b)
    requires snap.Delivers(GasRequest(NHP, a + b, start)) && snap.Delivers(GasRequest(NHEP, a + b, start))
             && snap.Delivers(GasRequest(NHEQ, a + b, start)) ==>
               ElectronFraction(ne, snap.block(GasRequest(NHP, a + b, start)),
                                snap.block(GasRequest(NHEP, a + b, start)),
                                snap.block(GasRequest(NHEQ, a + b, start)), a + b)
    ensures ne == ne1 + ne2
  {
    BlockSplit(snap, t, a, b, start, NHP);
    BlockSplit(snap, t, a, b, start, NHEP);
    BlockSplit(snap, t, a, b, start, NHEQ);
    ElectronFractionSplit(ne, ne1, ne2,
                          snap.block(GasRequest(NHP, a, start)), snap.block(GasRequest(NHP, b, start + a)),
                          snap.block(GasRequest(NHEP, a, start)), snap.block(GasRequest(NHEP, b, start + a)),
                          snap.block(GasRequest(NHEQ, a, start)), snap.block(GasRequest(NHEQ, b, start + a)));
  }

  /** alloc_parts sizes every column for the blocks read into it: Width(tag) values for each
      particle (Ne also takes NHP, and h the scratch NHEP and NHEQ blocks). */
  lemma ColumnsFitTheirBlocks(vel: Slot, pos: Slot, mass: Slot, u: Slot, nh0: Slot, ne: Slot, h: Slot,
                              nhep: Slot, np: nat, helium: bool)
    requires LiveColumns(vel, pos, mass, u, nh0, ne, h, nhep, np, helium)
    ensures vel.arr.Length == Width(VEL) * np && pos.arr.Length == Width(POS) * np
    ensures mass.arr.Length == Width(MASS) * np && u.arr.Length == Width(U) * np
    ensures ne.arr.Length == Width(NE) * np && ne.arr.Length == Width(NHP) * np
    ensures nh0.arr.Length == Width(NH) * np
    ensures h.arr.Length == Width(HSML) * np && h.arr.Length == Width(NHEP) * np
            && h.arr.Length == Width(NHEQ) * np
    ensures helium ==> nhep.arr.Length == Width(NHE) * np
  {
  }

  // ---------------------------------------------------------------------------------------
  // load_snapshot

  /** Lines 63-73: the mass column, from the header or from the MASS block. */
  method ReadMass(snap: GSnap, t: nat, n: nat, start: int, mass: array<real>)
    requires snap.file.Valid() && t < NType && mass.Length == n
    modifies snap, mass
    ensures snap.log == old(snap.log) + MassRequests(snap.file.header, t, n, start)
    ensures MassColumn(snap.file, t, n, start, mass[..])
  {
    var hdr := snap.file.header;
    if hdr.mass[t] != 0.0 {
      FillUniform(mass, n, hdr.mass[t]);
    } else {
      var skip := MassSkipMask(hdr.mass, t);
      snap.GetBlock(Request(MASS, n, start, skip), mass);
    }
  }

  /** Lines 94-103: Ne = NHP + NHEP + 2 NHEQ, built in place in ne, with h as scratch space. */
  method ReadElectronParts(snap: GSnap, n: nat, start: int, ne: array<real>, h: array<real>)
    requires ne.Length == n && h.Length == n && ne != h
    modifies snap, ne, h
    ensures snap.log == old(snap.log) + [GasRequest(NHP, n, start), GasRequest(NHEP, n, start),
                                         GasRequest(NHEQ, n, start)]
    ensures snap.file.Delivers(GasRequest(NHP, n, start)) && snap.file.Delivers(GasRequest(NHEP, n, start))
            && snap.file.Delivers(GasRequest(NHEQ, n, start)) ==>
              ElectronFraction(ne[..], snap.file.block(GasRequest(NHP, n, start)),
                               snap.file.block(GasRequest(NHEP, n, start)),
                               snap.file.block(GasRequest(NHEQ, n, start)), n)
  {
    snap.GetBlock(GasRequest(NHP, n, start), ne);
    snap.GetBlock(GasRequest(NHEP, n, start), h);
    ghost var ne1, h1 := ne[..], h[..];
    Accumulate(ne, h, n, 1.0);
    snap.GetBlock(GasRequest(NHEQ, n, start), h);
    ghost var h2 := h[..];
    Accumulate(ne, h, n, 2.0);
    assert forall k :: 0 <= k < n ==> ne[k] == ne1[k] + h1[k] + 2.0 * h2[k];
  }

  /** Lines 86-113: with cooling on, the electron fraction, NHep when HELIUM, and NH0. */
  method ReadCooling(snap: GSnap, cfg: Config, n: nat, start: int,
                     ne: array<real>, nh0: array<real>, h: array<real>, nhep: Slot)
    requires cfg.Valid() && ne.Length == n && nh0.Length == n && h.Length == n
    requires ne != nh0 && ne != h && nh0 != h
    requires cfg.helium ==> nhep.Live? && nhep.arr.Length == n
                            && nhep.arr != ne && nhep.arr != nh0 && nhep.arr != h
    modifies snap, ne, nh0, h
    modifies if cfg.helium then {nhep.arr} else {}
    ensures snap.log == old(snap.log) + CoolingRequests(cfg.gadget3, cfg.helium, n, start)
    ensures CoolingColumns(snap.file, cfg, n, start, ne[..], nh0[..],
                           if cfg.helium then nhep.arr[..] else [])
  {
    if !cfg.gadget3 {
      ReadElectronParts(snap, n, start, ne, h);
    } else {
      snap.GetBlock(GasRequest(NE, n, start), ne);
    }
    ghost var ne1 := ne[..];
    if cfg.helium {
      snap.GetBlock(GasRequest(NHE, n, start), nhep.arr);
    }
    snap.GetBlock(GasRequest(NH, n, start), nh0);
    assert ne[..] == ne1;
  }

  /** Lines 84-115: U, the cooling blocks when flag_cooling is set, then HSML, which overwrites
      whatever the electron-fraction step left in h. */
  method ReadGas(snap: GSnap, cfg: Config, n: nat, start: int, u: array<real>, ne: array<real>,
                 nh0: array<real>, h: array<real>, nhep: Slot)
    requires cfg.Valid() && u.Length == n && ne.Length == n && nh0.Length == n && h.Length == n
    requires u != ne && u != nh0 && u != h && ne != nh0 && ne != h && nh0 != h
    requires cfg.helium ==> nhep.Live? && nhep.arr.Length == n
                            && nhep.arr != u && nhep.arr != ne && nhep.arr != nh0 && nhep.arr != h
    modifies snap, u, ne, nh0, h
    modifies if cfg.helium then {nhep.arr} else {}
    ensures snap.log == old(snap.log) + GasRequests(cfg, snap.file.header.flagCooling, n, start)
    ensures GasColumns(snap.file, cfg, n, start, u[..], ne[..], nh0[..],
                       if cfg.helium then nhep.arr[..] else [], h[..])
    ensures snap.file.header.flagCooling == 0 ==> ne[..] == old(ne[..]) && nh0[..] == old(nh0[..])
    ensures snap.file.header.flagCooling == 0 && cfg.helium ==> nhep.arr[..] == old(nhep.arr[..])
  {
    ghost var log0 := snap.log;
    snap.GetBlock(GasRequest(U, n, start), u);
    ghost var u1 := u[..];
    ghost var cooling: seq<Request> := [];
    if snap.file.header.flagCooling != 0 {
      cooling := CoolingRequests(cfg.gadget3, cfg.helium, n, start);
      ReadCooling(snap, cfg, n, start, ne, nh0, h, nhep);
    }
    AppendAssoc(log0, [GasRequest(U, n, start)], cooling);
    AppendAssoc(log0, [GasRequest(U, n, start)] + cooling, [GasRequest(HSML, n, start)]);
    ghost var ne1, nh01 := ne[..], nh0[..];
    ghost var nhep1 := if cfg.helium then nhep.arr[..] else [];
    assert snap.file.header.flagCooling != 0 ==> CoolingColumns(snap.file, cfg, n, start, ne1, nh01, nhep1);
    snap.GetBlock(GasRequest(HSML, n, start), h);
    assert u[..] == u1 && ne[..] == ne1 && nh0[..] == nh01;
    assert cfg.helium ==> nhep.arr[..] == nhep1;
  }

  /** What lines 60-78 leave: positions, velocities and masses from their blocks, and the
      result of the mass check, which finds the first particle whose mass differs from
      particle 0's. */
  ghost predicate ColumnsRead(snap: Snapshot, t: nat, n: nat, start: int,
                              pos: seq<real>, vel: seq<real>, mass: seq<real>, mismatch: Option<nat>)
    requires snap.Valid() && t < NType
  {
    && PosVelColumns(snap, t, n, start, pos, vel)
    && MassColumn(snap, t, n, start, mass)
    && (mismatch.None? <==> Uniform(mass))
    && (mismatch.Some? ==>
          && mismatch.value < n && mass[mismatch.value] != mass[0]
          && (forall j :: 0 <= j < mismatch.value ==> mass[j] == mass[0]))
  }

  /** Lines 60-78: POS and VEL, the masses and their check. Returns the first particle whose
      mass differs from particle 0's. */
  method ReadColumns(snap: GSnap, t: nat, n: nat, start: int,
                     pos: array<real>, vel: array<real>, mass: array<real>)
    returns (mismatch: Option<nat>)
    requires snap.file.Valid() && t < NType
    requires pos.Length == 3 * n && vel.Length == 3 * n && mass.Length == n
    requires pos != vel && pos != mass && vel != mass
    modifies snap, pos, vel, mass
    ensures snap.log == old(snap.log) + PosVelRequests(t, n, start)
                        + MassRequests(snap.file.header, t, n, start)
    ensures ColumnsRead(snap.file, t, n, start, pos[..], vel[..], mass[..], mismatch)
  {
    snap.GetBlock(Request(POS, n, start, OtherTypesMask(t)), pos);
    snap.GetBlock(Request(VEL, n, start, OtherTypesMask(t)), vel);
    ghost var pos1, vel1 := pos[..], vel[..];
    ReadMass(snap, t, n, start, mass);
    assert pos[..] == pos1 && vel[..] == vel1;
    assert mass[..n] == mass[..];
    mismatch := FirstMassMismatch(mass, n);
  }

  /** The gas columns U, Ne, NH0, h (and NHep when HELIUM) hold what they held before. */
  twostate predicate GasColumnsKept(u: array<real>, ne: array<real>, nh0: array<real>, h: array<real>,
                                    nhep: Slot, helium: bool)
    reads u, ne, nh0, h, if helium && nhep.Live? then {nhep.arr} else {}
  {
    && u[..] == old(u[..]) && ne[..] == old(ne[..]) && nh0[..] == old(nh0[..]) && h[..] == old(h[..])
    && (helium && nhep.Live? ==> nhep.arr[..] == old(nhep.arr[..]))
  }

  /** Lines 60-116 on the columns of an allocated buffer: the columns of every particle type,
      the mass check, and for gas, once the check has passed, the gas columns. */
  method ReadBlocks(snap: GSnap, cfg: Config, n: nat, start: int,
                    vel: Slot, pos: Slot, mass: Slot, u: Slot, nh0: Slot, ne: Slot, h: Slot, nhep: Slot)
    returns (mismatch: Option<nat>)
    requires snap.file.Valid() && cfg.Valid()
    requires LiveColumns(vel, pos, mass, u, nh0, ne, h, nhep, n, cfg.helium)
    modifies snap, pos.arr, vel.arr, mass.arr, u.arr, ne.arr, nh0.arr, h.arr
    modifies if cfg.helium then {nhep.arr} else {}
    ensures ColumnsRead(snap.file, cfg.partType, n, start, pos.arr[..], vel.arr[..], mass.arr[..], mismatch)
    ensures mismatch.Some? ==>
              snap.log == old(snap.log) + PosVelRequests(cfg.partType, n, start)
                          + MassRequests(snap.file.header, cfg.partType, n, start)
    ensures mismatch.None? ==> snap.log == old(snap.log) + ReadPlan(cfg, snap.file.header, n, start)
    ensures mismatch.None? && cfg.partType == Gas ==>
              GasColumns(snap.file, cfg, n, start, u.arr[..], ne.arr[..], nh0.arr[..],
                         if cfg.helium then nhep.arr[..] else [], h.arr[..])
    // the gas columns are not written unless gas passes the mass check
    ensures mismatch.Some? || cfg.partType != Gas ==> GasColumnsKept(u.arr, ne.arr, nh0.arr, h.arr, nhep, cfg.helium)
  {
    LiveColumnsApart(vel, pos, mass, u, nh0, ne, h, nhep, n, cfg.helium);
    ghost var head := PosVelRequests(cfg.partType, n, start)
                      + MassRequests(snap.file.header, cfg.partType, n, start);
    AppendAssoc(snap.log, PosVelRequests(cfg.partType, n, start),
                MassRequests(snap.file.header, cfg.partType, n, start));
    mismatch := ReadColumns(snap, cfg.partType, n, start, pos.arr, vel.arr, mass.arr);
    if mismatch.None? && cfg.partType == Gas {
      ghost var gas := GasRequests(cfg, snap.file.header.flagCooling, n, start);
      AppendAssoc(old(snap.log), head, gas);
      ReadGas(snap, cfg, n, start, u.arr, ne.arr, nh0.arr, h.arr, nhep);
    } else if cfg.partType != Gas {
      assert head + [] == head;
    }
  }

  /** load_snapshot(fname, StartPart, MaxRead, P, ...) for the snapshot `file`, with the build
      configuration `cfg`; `available` is the number of mallocs that succeed. A window that
      starts at or past the last particle loads nothing (see README, Findings). */
  method LoadSnapshot(file: Snapshot, cfg: Config, startPart: int, maxRead: int,
                      P: ParticleBuffer, available: nat)
    returns (r: Result<LoadInfo, LoadError>, trace: seq<Request>)
    requires file.Valid() && cfg.Valid() && 0 <= startPart
    requires WindowCount(file, cfg, startPart, maxRead) <= MaxAllocCount
    modifies P
    // an empty window: return 0 before allocating or reading anything
    ensures WindowCount(file, cfg, startPart, maxRead) == 0 ==>
              r == Ok(Info(file.header, 0)) && trace == [] && unchanged(P)
    // allocation fails: no block is read
    ensures WindowCount(file, cfg, startPart, maxRead) > 0 &&
            available < ParticleBuffer.AllocCalls(cfg.helium) ==>
              r == Err(AllocationFailure) && trace == []
    // allocation succeeds: positions, velocities and masses are loaded; the load goes on
    // exactly when every mass equals the first, and otherwise reports the first particle
    // that differs after the POS, VEL, MASS reads; a load that goes on reads every block of
    // the plan in order and, for gas, fills the gas columns
    ensures var n := WindowCount(file, cfg, startPart, maxRead);
            n > 0 && available >= ParticleBuffer.AllocCalls(cfg.helium) ==>
              && P.Allocated(n, cfg.helium)
              && fresh(P.Pos.arr) && fresh(P.Vel.arr) && fresh(P.Mass.arr) && fresh(P.U.arr)
              && fresh(P.NH0.arr) && fresh(P.Ne.arr) && fresh(P.h.arr)
              && (cfg.helium ==> fresh(P.NHep.arr))
              && PosVelColumns(file, cfg.partType, n, startPart, P.Pos.arr[..], P.Vel.arr[..])
              && MassColumn(file, cfg.partType, n, startPart, P.Mass.arr[..])
              && (r.Ok? <==> Uniform(P.Mass.arr[..]))
              && (r.Err? ==>
                    && r.error.MassMismatch?
                    && r.error.index < n && P.Mass.arr[r.error.index] != P.Mass.arr[0]
                    && (forall j :: 0 <= j < r.error.index ==> P.Mass.arr[j] == P.Mass.arr[0])
                    && trace == PosVelRequests(cfg.partType, n, startPart)
                                + MassRequests(file.header, cfg.partType, n, startPart))
              && (r.Ok? ==> trace == ReadPlan(cfg, file.header, n, startPart))
              && (r.Ok? && cfg.partType == Gas ==>
                    GasColumns(file, cfg, n, startPart, P.U.arr[..], P.Ne.arr[..], P.NH0.arr[..],
                               if cfg.helium then P.NHep.arr[..] else [], P.h.arr[..]))
    // a header mass never fails the mass check
    ensures file.header.mass[cfg.partType] != 0.0 ==> !(r.Err? && r.error.MassMismatch?)
    // success: the count, and the header's time, redshift, box size and Hubble parameter
    ensures r.Ok? ==> r.value == Info(file.header, WindowCount(file, cfg, startPart, maxRead))
  {
    var snap := new GSnap(file);
    var numPart := ResolveCount(file.Npart(cfg.partType), startPart, maxRead);
    if numPart <= 0 {
      return Ok(Info(file.header, 0)), [];
    }
    var n: nat := numPart;
    var ok := P.AllocParts(n, cfg.helium, available);
    if !ok {
      return Err(AllocationFailure), [];
    }
    var mismatch := ReadBlocks(snap, cfg, n, startPart, P.Vel, P.Pos, P.Mass, P.U, P.NH0, P.Ne, P.h, P.NHep);
    if file.header.mass[cfg.partType] != 0.0 {
      HeaderMassIsUniform(file, cfg.partType, n, startPart, P.Mass.arr[..]);
    }
    if mismatch.Some? {
      return Err(MassMismatch(mismatch.value)), snap.log;
    }
    return Ok(Info(file.header, n)), snap.log;
  }
}

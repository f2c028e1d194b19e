# read_snapshot: loading particles from a GADGET snapshot

This project models the particle loader of fake_spectra, `read_snapshot.cpp`, in Dafny.

- `load_snapshot` opens a GADGET snapshot. It works out how many particles of the compiled-in particle type (`PARTTYPE`) fall in the window that starts at `StartPart`: at most `MaxRead` particles when `MaxRead > 0`, and every particle from `StartPart` to the end otherwise.
- It allocates a particle buffer (`pdata`) for them with `alloc_parts`.
- It then reads the data blocks in a fixed order:
  - positions and velocities;
  - masses, from the header when the header holds a mass for the type, otherwise from the `MASS` block;
  - for gas only: internal energy, the cooling blocks when `flag_cooling` is set, and then the smoothing length.
- It stops the process when an allocation fails, or when the particles do not all have the same mass.
- `free_parts` releases the buffer.

The model has five modules:

- `Wrappers` holds `Option` and `Result`.
- `Masks` models C integers used as bit sets:
  - `Pow2(i)` is `1<<i`;
  - `Bit(m, i)` tests bit `i`;
  - `Mask(bits)` is the integer whose bits are given.
- `GadgetReader` models the snapshot as the loader sees it:
  - a `Header`, plus a block source, which is any function from a `Request` (tag, count, start, skip mask) to the values delivered;
  - `GSnap`, a class whose `GetBlock` copies those values into the front of a destination array and appends the request to a `log`.

  Because the block source is arbitrary, every property holds for every snapshot. Properties about block contents are stated for the case where the reader delivers a full block, written `Delivers(req)`.
- `Particles` models `pdata` as the class `ParticleBuffer`:
  - one array slot per column;
  - `Null`, `Live` and `Dangling` model a null pointer, an allocation and freed memory;
  - `AllocParts` and `FreeParts` change the slots in place;
  - a parameter, `available`, is the number of `malloc` calls that succeed.
- `ReadSnapshot` models `load_snapshot` as the method `LoadSnapshot`:
  - its loops (header-mass fill, skip-mask computation, mass-uniformity check, electron-fraction sums) are methods with loop invariants;
  - the sequence of `GetBlock` calls is specified by the function `ReadPlan`, with lemmas about which blocks it reads;
  - the two `exit` calls become the error results `AllocationFailure` (`exit(1)`) and `MassMismatch(i)` (`exit(0)`);
  - the build switches `PARTTYPE`, `GADGET3` and `HELIUM` become the fields of `Config`.
  - a load that passes the mass check leaves columns satisfying `Loaded`: its ensures are exactly `PosVelColumns`, `MassColumn` and, for gas, `GasColumns`. So `PagedLoadsConcatenate` applies to the columns of two consecutive loads.

## Model

| member | source | states |
|---|---|---|
| GadgetReader.Snapshot.Npart | read_snapshot.cpp:41-43 | `GetNpart(type)` is the non-negative total count of that type in the header. |
| GadgetReader.Overlay | read_snapshot.cpp:60 | A block copy keeps the buffer's length, and entry i is the block's entry i where the block has one and the buffer's old entry i otherwise. |
| GadgetReader.OverlayFull | read_snapshot.cpp:60 | A full block replaces the buffer's contents entirely. |
| GadgetReader.GSnap.constructor | read_snapshot.cpp:27-33 | Opening a snapshot makes no reads. |
| GadgetReader.GSnap.GetBlock | read_snapshot.cpp:60 | One `GetBlock` call is logged in order, and the buffer holds the delivered values overlaid on its old contents. |
| Masks.Mask | read_snapshot.cpp:68-71 | A mask over n bits is below `1<<n`. |
| Masks.MaskBit | read_snapshot.cpp:68-71 | Bit i of `Mask(bits)` is set exactly when i < \|bits\| and bits[i]. |
| Masks.MaskBits | read_snapshot.cpp:68-71 | The same, for all i at once. |
| Masks.MaskClear | read_snapshot.cpp:71 | `skip -= 1<<i` on a mask whose bit i is set clears that bit and changes no other. |
| Masks.Except | read_snapshot.cpp:60 | n bits, all set except bit t. |
| Masks.MaskExcept | read_snapshot.cpp:60 | `(1<<n)-1-(1<<t)` is the mask with every bit below n set except bit t. |
| Particles.Released | read_snapshot.cpp:176-185 | `free` turns a live pointer into released memory and leaves a null pointer null. |
| Particles.Malloc | read_snapshot.cpp:162-171 | A `malloc` either returns a fresh array of the requested size and uses up one success, or returns null once no success is left. |
| Particles.ParticleBuffer.AllocParts | read_snapshot.cpp:160-172 | Succeeds iff all 7 mallocs succeed (8 with HELIUM). Success leaves every column live, sized (3·np for Vel and Pos, np for the rest) and pairwise distinct. Failure leaves the failing column null and the later ones untouched, so the chain short-circuits. NHep is touched only with HELIUM. |
| Particles.ParticleBuffer.AllocRemaining | read_snapshot.cpp:165-171 | The tail of the same `&&` chain (U, NH0, Ne, NHep, h) once Vel, Pos and Mass are allocated, with the same outcome for each column. |
| Particles.ParticleBuffer.FreeParts | read_snapshot.cpp:174-187 | Every column is released exactly once, NHep only with HELIUM. Null columns stay null. No column may already be released, and no two live columns may share one allocation, so no memory is freed twice. |
| Particles.LiveColumnsApart | read_snapshot.cpp:160-172 | The columns of a successful `alloc_parts` are pairwise distinct arrays: every pair of Vel, Pos, Mass, U, NH0, Ne, h, and NHep with HELIUM, so a read into one column leaves the others alone. |
| ReadSnapshot.ResolveCount | read_snapshot.cpp:40-43 | NumPart as written is at most Npart−StartPart, and at most MaxRead when MaxRead > 0. It equals one of the two. |
| ReadSnapshot.PastEndCountIsNegative | read_snapshot.cpp:40-45 | A window starting past the last particle gives a negative NumPart, which the `== 0` test lets through. |
| ReadSnapshot.LoadCount | read_snapshot.cpp:40-45 | The count is 0 iff the window starts at or after the last particle. A positive count stays inside the particles that exist and is at most MaxRead when MaxRead > 0. It is every remaining particle when MaxRead <= 0, and exactly MaxRead when that many remain. Otherwise it agrees with `ResolveCount`. |
| ReadSnapshot.PagingCoversEachParticleOnce | read_snapshot.cpp:40-45 | Repeated loads, each starting where the previous one ended until a load returns 0, visit every particle from the start index exactly once, in order. |
| ReadSnapshot.BlockSplit | read_snapshot.cpp:60-115 | For a reader that splits consistently, the block for a whole window is full and is the two halves' blocks joined. |
| ReadSnapshot.PagedLoadsConcatenate | read_snapshot.cpp:40-116 | Loading [s, s+a) and then [s+a, s+a+b) gives, column by column (positions, velocities, masses, and for gas U, HSML and, with cooling, Ne, NH0 and NHep), the values of loading [s, s+a+b) at once, for a reader that splits consistently. |
| ReadSnapshot.GasPagesConcatenate | read_snapshot.cpp:81-116 | The same for the gas columns. |
| ReadSnapshot.CoolingPagesConcatenate | read_snapshot.cpp:86-113 | The same for the cooling columns. |
| ReadSnapshot.ElectronPartsConcatenate | read_snapshot.cpp:93-103 | The same for Ne summed from NHP, NHEP and NHEQ. |
| ReadSnapshot.UniformSplit | read_snapshot.cpp:63-65 | A column filled with one header mass over a window is the two halves' columns joined. |
| ReadSnapshot.ElectronFractionSplit | read_snapshot.cpp:97-103 | Ne = NHP + NHEP + 2·NHEQ over a joined window is the two halves' Ne joined. |
| ReadSnapshot.OtherTypesMaskBits | read_snapshot.cpp:60-61 | The POS and VEL skip mask lies in [0, 2^6) and has bit i set exactly for the types i ≠ PARTTYPE. |
| ReadSnapshot.MassSkipMask | read_snapshot.cpp:67-71 | The loop computes a MASS mask in [0, 2^6) whose bit i is set exactly for the types i ≠ PARTTYPE with no header mass. |
| ReadSnapshot.ElectronTags | read_snapshot.cpp:93-106 | The electron-fraction reads are NE under GADGET3, and otherwise NHP, NHEP and NHEQ. |
| ReadSnapshot.CoolingTags | read_snapshot.cpp:86-113 | The cooling reads are the electron-fraction tags, NHE exactly with HELIUM, and NH. |
| ReadSnapshot.GasTags | read_snapshot.cpp:81-116 | The gas reads are U and HSML, plus the cooling tags exactly when `flag_cooling` is set. |
| ReadSnapshot.PlanTags | read_snapshot.cpp:60-116 | A load reads POS and VEL, reads MASS iff the header mass is zero, and reads the gas tags iff the type is gas. |
| ReadSnapshot.PlanStartsWithPosVel | read_snapshot.cpp:60-61 | The first two reads are POS and then VEL, with the other-types mask. |
| ReadSnapshot.PlanReadsTheWindow | read_snapshot.cpp:60-115 | Every read is for the same count and start. |
| ReadSnapshot.PlanReadsMassIffNoHeaderMass | read_snapshot.cpp:63-73 | MASS is read iff the header mass of the type is zero, and it is then the third read. Its mask bit i is set iff i ≠ PARTTYPE and type i has no header mass. |
| ReadSnapshot.PlanGasBlocks | read_snapshot.cpp:81-116 | U and HSML are read iff the type is gas, and HSML is then the last read. |
| ReadSnapshot.PlanCoolingBlocks | read_snapshot.cpp:86-113 | NH is read iff the type is gas and cooling is on. NHP, NHEP and NHEQ are read iff, in addition, GADGET3 is not defined; NE iff it is; NHE iff HELIUM is. |
| ReadSnapshot.FillUniform | read_snapshot.cpp:63-65 | Every particle gets the header mass, and nothing past the count changes. |
| ReadSnapshot.FirstMassMismatch | read_snapshot.cpp:74-78 | Returns no index iff all masses equal particle 0's. Otherwise returns the first particle whose mass differs. |
| ReadSnapshot.Accumulate | read_snapshot.cpp:97-103 | `dst[k] += c*src[k]` for every particle of the window, and nothing else changes. |
| ReadSnapshot.ColumnsFitTheirBlocks | read_snapshot.cpp:160-172 | Each allocated column holds `Width(tag)` values per particle for every block read into it: 3·np for POS and VEL, and np for MASS, U, NE, NHP, NH, HSML, and NHEP and NHEQ (into h), plus NHE with HELIUM. |
| ReadSnapshot.HeaderMassIsUniform | read_snapshot.cpp:63-78 | Masses filled from the header always pass the uniformity check. |
| ReadSnapshot.BlockMassCheck | read_snapshot.cpp:72-78 | Masses from a full MASS block pass the check iff the block's values are all equal. |
| ReadSnapshot.ReadMass | read_snapshot.cpp:62-73 | MASS is read only without a header mass. The mass column is the header mass for every particle, or else the MASS block. |
| ReadSnapshot.ReadElectronParts | read_snapshot.cpp:93-103 | Reads NHP, NHEP and NHEQ in that order, and leaves Ne = NHP + NHEP + 2·NHEQ per particle. |
| ReadSnapshot.ReadCooling | read_snapshot.cpp:86-113 | Performs the cooling reads in order. Ne is the NE block or the three-part sum, NHep is the NHE block when HELIUM is defined, and NH0 is the NH block. |
| ReadSnapshot.ReadGas | read_snapshot.cpp:81-116 | Reads U unconditionally, the cooling blocks only when `flag_cooling` is set, and HSML last, so h is the HSML block whatever scratch values it held. Without cooling, Ne, NH0 and NHep are left as they were. |
| ReadSnapshot.ReadColumns | read_snapshot.cpp:60-78 | Performs the POS, VEL and MASS reads and fills the columns. Returns no mismatch iff the masses are uniform, otherwise the first differing particle. |
| ReadSnapshot.ReadBlocks | read_snapshot.cpp:60-116 | Everything after allocation. On a mismatch only the POS, VEL and MASS reads happen. Otherwise the whole `ReadPlan` is read, and for gas the gas columns are filled. Unless gas passes the mass check, the gas columns are left as they were. |
| ReadSnapshot.LoadSnapshot | read_snapshot.cpp:24-157 | An empty window returns 0 with no allocation and no read. A failed allocation gives `AllocationFailure` with no read. After allocation, every column is a freshly allocated array filled from its block. The load fails with `MassMismatch(i)` iff the masses differ, with i the first particle that differs, and never with a header mass. A successful load reads exactly `ReadPlan`. It returns the count and, as atime, redshift, box100 and h100 (lines 35-38), the header's time, redshift, box size and Hubble parameter. |

## Left out

- `Hz` (line 39) and `omegab` (line 79) are floating-point formulas with `sqrt` and `pow`; the model does not compute them.
- `float` columns and `double` header values are modelled as reals. The model leaves out single-precision rounding in two places. One is the NHP + NHEP + 2·NHEQ sum. The other is line 65, which stores the `double` header mass into a `float` column, so in C `Mass[i]` equals `mass[PARTTYPE]` only when the value is exactly representable in single precision; `MassColumn` states exact equality.
- The `printf` and `fprintf` diagnostics (lines 46-52, 59, 76, 118-126) are output only and are left out.
- The disabled unit-conversion block under `#if 0` (lines 127-156) is never compiled and is left out.
- The snapshot container itself is an arbitrary block source: how `GSnap` parses files is not modelled, nor the `BlockNames` list for non-GADGET3 builds (lines 27-33), nor `GetNpart` beyond the header count. What a block holds is stated only for a reader that delivers a full block.
- The contents of freshly allocated memory are arbitrary in C but are the array's default in the model; no property depends on them.
- Particles.ParticleBuffer.AllocParts: the columns allocated before a failing `malloc` are not freed, which is also the case in the source (the failure then ends the process); the model does not track that memory as leaked.
- Particles.ParticleBuffer.AllocParts: `np*3` in a 32-bit `int` is modelled by requiring np ≤ INT_MAX/3 rather than modelling signed overflow, which is undefined in C.
- ReadSnapshot.LoadSnapshot: the 64-bit `NumPart` is passed to `alloc_parts`'s `int np`. The model requires the window to be at most INT_MAX/3 particles instead of modelling the narrowing.
- ReadSnapshot.LoadSnapshot: `exit(1)` and `exit(0)` end the process; the model returns an error result instead, and leaves the buffer allocated.
- ReadSnapshot.PagedLoadsConcatenate: the claim holds only for a reader whose blocks for a window are the blocks of its two halves joined. That consistency is a property of the snapshot reader, which the model does not capture, so the lemma takes it as the hypothesis `ReaderSplits`.
- halospectra.py and make_mass_plots.py are callers and plotting scripts; they are not part of this model.

## Findings

| source | as written | input that shows it | evidently intended | confidence | as-written member | corrected member |
|---|---|---|---|---|---|---|
| read_snapshot.cpp:44 | `if(NumPart == 0) return 0;` lets a negative NumPart through to `alloc_parts`, whose `np*3*sizeof(float)` then becomes a huge `size_t`; the first `malloc` fails and the process ends with `exit(1)` and "failed to allocate memory" (lines 54-57, 160-162), instead of returning 0 | Npart = 100, StartPart = 150, MaxRead = 0 gives NumPart = −50 | a window at or past the last particle loads nothing: `NumPart <= 0` returns 0 | not executed | ReadSnapshot.PastEndCountIsNegative | ReadSnapshot.LoadCount |

`LoadSnapshot` uses the corrected `LoadCount` (`numPart <= 0` returns 0).

/** The snapshot container as the loader sees it: a header, a total particle count per type,
    and a block source that hands over the values of one block for a particle range of the
    types a skip mask does not exclude. How the container is parsed from disk is not modelled;
    the block source is an arbitrary function, so every property proved about the loader holds
    for every snapshot. */
module GadgetReader {

  /** Number of particle types in a GADGET snapshot (N_TYPE): 0 gas, 1 dark matter, 2-5 others. */
  const NType: nat := 6
  /** Particle type 0, the only one with gas fields. */
  const Gas: nat := 0

  /** The block tags the loader asks for, named as in the file: "POS ", "VEL ", "MASS", "U   ",
      "NHP ", "NHEP", "NHEQ", "NE  ", "NHE ", "NH  ", "HSML". */
  datatype Tag = POS | VEL | MASS | U | NHP | NHEP | NHEQ | NE | NHE | NH | HSML

  /** Values per particle in a block: positions and velocities are 3-vectors. */
  function Width(tag: Tag): nat {
    if tag == POS || tag == VEL then 3 else 1
  }

  /** The header fields the loader reads. Floating-point values are modelled as reals. */
  datatype Header = Header(
    npartTotal: seq<int>,
    mass: seq<real>,
    time: real,
    redshift: real,
    boxSize: real,
    hubbleParam: real,
    omega0: real,
    omegaLambda: real,
    flagCooling: int)

  /** One GetBlock call: tag, number of particles, first particle, skip mask. */
  datatype Request = Request(tag: Tag, count: int, start: int, skip: int)

  datatype Snapshot = Snapshot(header: Header, block: Request -> seq<real>)
  {
    /** The header's per-type arrays have one entry per particle type. */
    predicate Valid() {
      && |header.npartTotal| == NType
      && |header.mass| == NType
      && forall i :: 0 <= i < NType ==> header.npartTotal[i] >= 0
    }

    /** GetNpart(type): the number of particles of a type over all files of the snapshot. */
    function Npart(t: nat): (n: int)
      requires Valid() && t < NType
      ensures n >= 0
    {
      header.npartTotal[t]
    }

    /** The reader hands over a full block: Width(tag) values for each requested particle. */
    predicate Delivers(req: Request) {
      |block(req)| == req.count * Width(req.tag)
    }
  }

  /** What a destination buffer holds after the values src were copied into its front:
      the copy stops at the end of the buffer and leaves the rest as it was. */
  function Overlay(dst: seq<real>, src: seq<real>): (r: seq<real>)
    ensures |r| == |dst|
    ensures forall i :: 0 <= i < |dst| ==> r[i] == (if i < |src| then src[i] else dst[i])
  {
    if |src| >= |dst| then src[..|dst|] else src + dst[|src|..]
  }

  /** A full block replaces a buffer of its own length entirely, whatever it held. */
  lemma OverlayFull(dst: seq<real>, src: seq<real>)
    requires |src| == |dst|
    ensures Overlay(dst, src) == src
  {
  }

  /** An open snapshot (GadgetReader::GSnap). `log` lists the GetBlock calls made so far, in
      order; it is how the model observes which blocks the loader reads. */
  class GSnap {
    const file: Snapshot
    var log: seq<Request>

    constructor (file: Snapshot)
      ensures this.file == file && log == []
    {
      this.file := file;
      log := [];
    }

    /** GetBlock(tag, dest, count, start, skip): the reader's values for the request are
        copied into the front of dest. */
    method GetBlock(req: Request, dest: array<real>)
      modifies this, dest
      ensures log == old(log) + [req]
      ensures dest[..] == Overlay(old(dest[..]), file.block(req))
    {
      var data := file.block(req);
      var k := if |data| < dest.Length then |data| else dest.Length;
      forall i | 0 <= i < k {
        dest[i] := data[i];
      }
      assert dest[..] == Overlay(old(dest[..]), data) by {
        assert forall i :: 0 <= i < dest.Length ==> dest[..][i] == Overlay(old(dest[..]), data)[i];
      }
      log := log + [req];
    }
  }
}

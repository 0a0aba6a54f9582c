/**
 * Coverage feedback for the Fuzzilli fuzzer.  The compiler places a 32-bit
 * guard in front of every instrumented edge; the runtime numbers the guards
 * 1, 2, ... and, when an edge runs, sets the bit with the guard's number in a
 * shared bitmap and disarms the guard by zeroing it, so each edge reports
 * at most once per numbering.
 *
 * `maxEdges` stands for `MAX_EDGES`, whose value is defined outside this
 * model.  The shared memory region is a parameter of `Init`.
 */
module EdgeGuards {

  const U32Limit: nat := 0x1_0000_0000

  type U32 = x: int | 0 <= x < 0x1_0000_0000

  /** The shared region: the edge count Fuzzilli reads, and the coverage bitmap. */
  datatype Shmem = Shmem(numEdges: nat, edges: seq<bv8>)

  /**
   * The runtime's globals: whether a guard section is installed
   * (`__edges_start`/`__edges_stop`), that section's guards, and the region.
   */
  datatype Coverage = Coverage(installed: bool, guards: seq<U32>, shmem: Shmem)

  /** The numbering a reset writes: guard `i` gets `i + 1`, truncated to 32 bits, for the first `maxEdges` guards. */
  function Numbered(guards: seq<U32>, maxEdges: nat): seq<U32> {
    seq(|guards|, i requires 0 <= i < |guards| => if i < maxEdges then ((i + 1) % U32Limit) as U32 else guards[i])
  }

  /**
   * `__sanitizer_cov_reset_edgeguards`: walk the section with a 64-bit counter
   * `N`, storing `++N` into each guard while `N < MAX_EDGES`.
   */
  method ResetEdgeguards(guards: seq<U32>, maxEdges: nat) returns (r: seq<U32>)
    ensures |r| == |guards|
    ensures forall i :: 0 <= i < |r| && i < maxEdges ==> r[i] == (i + 1) % U32Limit
    ensures forall i :: maxEdges <= i < |r| ==> r[i] == guards[i]
    ensures r == Numbered(guards, maxEdges)
  {
    r := guards;
    var n: nat := 0;
    while n < |r| && n < maxEdges
      invariant n <= |r| == |guards|
      invariant n <= maxEdges
      invariant forall i :: 0 <= i < n ==> r[i] == (i + 1) % U32Limit
      invariant forall i :: n <= i < |r| ==> r[i] == guards[i]
      decreases |r| - n
    {
      n := n + 1;
      r := r[n - 1 := (n % U32Limit) as U32];
    }
  }

  /** How `__sanitizer_cov_trace_pc_guard_init` ends. */
  datatype InitOutcome =
    | Skipped                    // an empty section, or one already numbered
    | Exited                     // a second module: the process exits
    | Installed(coverage: Coverage)

  /**
   * `__sanitizer_cov_trace_pc_guard_init(start, stop)` for the section
   * `section`, with `region` the shared memory it maps (or allocates).
   */
  method Init(cov: Coverage, section: seq<U32>, region: seq<bv8>, maxEdges: nat) returns (r: InitOutcome)
    ensures (|section| == 0 || section[0] != 0) <==> r == Skipped
    ensures r == Exited <==> |section| > 0 && section[0] == 0 && cov.installed
    ensures r.Installed? ==>
      && r.coverage.installed
      && r.coverage.guards == Numbered(section, maxEdges)
      && r.coverage.shmem == Shmem(|section|, region)
  {
    if |section| == 0 || section[0] != 0 {
      return Skipped;
    }
    if cov.installed {
      return Exited;
    }
    var guards := ResetEdgeguards(section, maxEdges);
    return Installed(Coverage(true, guards, Shmem(|section|, region)));
  }

  /** The byte with only bit `b` set, `1 << b`. */
  function Bit(b: nat): bv8
    requires b < 8
  {
    match b
    case 0 => 0x01 case 1 => 0x02 case 2 => 0x04 case 3 => 0x08
    case 4 => 0x10 case 5 => 0x20 case 6 => 0x40 case _ => 0x80
  }

  lemma OrSwap(x: bv8, a: bv8, b: bv8)
    ensures (x | a) | b == (x | b) | a
  {
  }

  predicate BitSet(x: bv8, b: nat)
    requires b < 8
  {
    x & Bit(b) != 0
  }

  /** A guard whose number, if any, names a byte of the bitmap. */
  predicate InRange(cov: Coverage, g: nat)
    requires g < |cov.guards|
  {
    cov.guards[g] == 0 || cov.guards[g] / 8 < |cov.shmem.edges|
  }

  /**
   * `__sanitizer_cov_trace_pc_guard`: a disarmed guard (or one not yet
   * numbered) does nothing; otherwise set bit `index % 8` of byte `index / 8`
   * and disarm the guard.
   */
  function TracePcGuard(cov: Coverage, g: nat): (r: Coverage)
    requires g < |cov.guards| && InRange(cov, g)
    ensures |r.guards| == |cov.guards| && |r.shmem.edges| == |cov.shmem.edges|
    ensures r.installed == cov.installed && r.shmem.numEdges == cov.shmem.numEdges
  {
    var index := cov.guards[g];
    if index == 0 then cov
    else cov.(guards := cov.guards[g := 0], shmem := cov.shmem.(edges := Hit(cov.shmem.edges, index / 8, index % 8)))
  }

  /** `edges[byte] |= 1 << bit`. */
  function Hit(edges: seq<bv8>, byte: nat, bit: nat): (r: seq<bv8>)
    requires byte < |edges| && bit < 8
    ensures |r| == |edges|
  {
    edges[byte := edges[byte] | Bit(bit)]
  }

  // ---------------------------------------------------------------------------
  // Properties
  // ---------------------------------------------------------------------------

  lemma OrSetsBit(x: bv8, k: nat, b: nat)
    requires k < 8 && b < 8
    ensures BitSet(x | Bit(k), b) <==> BitSet(x, b) || b == k
  {
  }

  /**
   * Hitting an armed guard with number `i` sets exactly bit `i % 8` of byte
   * `i / 8`, leaves every other bit and every other guard alone, and disarms
   * the guard; hitting a disarmed guard changes nothing.
   */
  lemma TraceSetsOneBit(cov: Coverage, g: nat)
    requires g < |cov.guards| && InRange(cov, g)
    ensures cov.guards[g] == 0 ==> TracePcGuard(cov, g) == cov
    ensures var r := TracePcGuard(cov, g);
      var i := cov.guards[g];
      && r.guards[g] == 0
      && (forall h :: 0 <= h < |cov.guards| && h != g ==> r.guards[h] == cov.guards[h])
      && (forall j, b :: 0 <= j < |cov.shmem.edges| && 0 <= b < 8 ==>
            (BitSet(r.shmem.edges[j], b) <==> BitSet(cov.shmem.edges[j], b) || (i != 0 && j == i / 8 && b == i % 8)))
  {
    var i := cov.guards[g];
    if i != 0 {
      var r := TracePcGuard(cov, g);
      forall j, b | 0 <= j < |cov.shmem.edges| && 0 <= b < 8
        ensures BitSet(r.shmem.edges[j], b) <==> BitSet(cov.shmem.edges[j], b) || (j == i / 8 && b == i % 8)
      {
        if j == i / 8 {
          OrSetsBit(cov.shmem.edges[j], i % 8, b);
        }
      }
    }
  }

  /** A second hit of the same guard sees it disarmed: hitting twice is hitting once. */
  lemma TraceIdempotent(cov: Coverage, g: nat)
    requires g < |cov.guards| && InRange(cov, g)
    ensures InRange(TracePcGuard(cov, g), g)
    ensures TracePcGuard(TracePcGuard(cov, g), g) == TracePcGuard(cov, g)
  {
  }

  /** Two different edges leave the same bitmap whichever runs first. */
  lemma TraceCommutes(cov: Coverage, g: nat, h: nat)
    requires g < |cov.guards| && h < |cov.guards| && g != h
    requires InRange(cov, g) && InRange(cov, h)
    ensures InRange(TracePcGuard(cov, g), h) && InRange(TracePcGuard(cov, h), g)
    ensures TracePcGuard(TracePcGuard(cov, g), h) == TracePcGuard(TracePcGuard(cov, h), g)
  {
    var i, k := cov.guards[g], cov.guards[h];
    if i != 0 && k != 0 {
      assert cov.guards[g := 0][h := 0] == cov.guards[h := 0][g := 0];
      HitsCommute(cov.shmem.edges, i / 8, i % 8, k / 8, k % 8);
    }
  }

  /** Setting two bits gives the same bitmap in either order. */
  lemma HitsCommute(edges: seq<bv8>, byte1: nat, bit1: nat, byte2: nat, bit2: nat)
    requires byte1 < |edges| && byte2 < |edges| && bit1 < 8 && bit2 < 8
    ensures Hit(Hit(edges, byte1, bit1), byte2, bit2) == Hit(Hit(edges, byte2, bit2), byte1, bit1)
  {
    if byte1 == byte2 {
      OrSwap(edges[byte1], Bit(bit1), Bit(bit2));
    }
  }

  /**
   * After a successful init of a zeroed section, with `MAX_EDGES` below the
   * number of bits in the bitmap and within 32 bits, every guard is armed with
   * a distinct number naming a bit of the bitmap, or (beyond `MAX_EDGES`)
   * left disarmed.
   */
  lemma InstalledGuardsInRange(section: seq<U32>, region: seq<bv8>, maxEdges: nat, cov: Coverage)
    requires forall i :: 0 <= i < |section| ==> section[i] == 0
    requires maxEdges < 8 * |region| && maxEdges < U32Limit
    requires cov.installed && cov.guards == Numbered(section, maxEdges) && cov.shmem.edges == region
    ensures forall g :: 0 <= g < |cov.guards| ==> InRange(cov, g)
    ensures forall g :: 0 <= g < |cov.guards| ==> (cov.guards[g] != 0 <==> g < maxEdges)
    ensures forall g, h :: 0 <= g < h < |cov.guards| && cov.guards[g] != 0 ==> cov.guards[g] != cov.guards[h]
  {
  }
}

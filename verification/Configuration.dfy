/** What a simulation is configured with, and the transfer latency the ICAP derives from it. */
module Configuration {
  import opened Types
  import opened Modules

  /** `n` is `x` divided by `y`, rounded down. */
  predicate IsFloorOf(n: nat, x: real, y: real) { n as real * y <= x < (n as real + 1.0) * y }

  function FloorOf(x: real, y: real): nat
    requires x >= 0.0 && y > 0.0
  {
    Quotient(x, y);
    (x / y).Floor
  }

  lemma Scaled(low: real, q: real, high: real, y: real, x: real)
    requires low <= q < high && y > 0.0 && q * y == x
    ensures low * y <= x < high * y
  {
    ScaleOrder(low, q, y);
    ScaleOrder(q, high, y);
    assert q * y < high * y;
  }

  lemma FloorQuotient(x: real, y: real)
    requires x >= 0.0 && y > 0.0
    ensures IsFloorOf(FloorOf(x, y), x, y)
  {
    var q := x / y;
    Quotient(x, y);
    var n := q.Floor;
    Scaled(n as real, q, n as real + 1.0, y, x);
  }

  /** `specs` describes regions 0..|controllers|; `widths` maps a region to its bitstream size. */
  datatype Config = Config(
    specs: SpecMap, widths: map<nat, nat>, icapSpeed: Speed, busWidth: nat, simSpeed: Speed)
  {
    /** Bits to stream: a region without an entry has size 0, and `size * 8` wraps at 32 bits. */
    function TransferBits(region: nat): nat {
      ((if region in widths then widths[region] else 0) * 8) % TWO_32
    }

    /** Bits of the region per second of ICAP time, and bits a simulation cycle streams. */
    function Demand(region: nat): real { TransferBits(region) as real * icapSpeed }

    function Rate(): real { busWidth as real * simSpeed }

    /** Simulation cycles to stream a region's bitstream, truncated; 0 for a zero-width bus. */
    function TransferLatency(region: nat): nat {
      if busWidth == 0 then 0 else FloorOf(Demand(region), Rate())
    }

    /** The latency is the bits' streaming time in simulation cycles, rounded down. */
    lemma TransferLatencyBounds(region: nat)
      requires busWidth > 0
      ensures IsFloorOf(TransferLatency(region), Demand(region), Rate())
    {
      FloorQuotient(Demand(region), Rate());
    }

    /** For a region of width `w`, 0 without an entry, and a bus of nonzero width: the latency n is
        the number of whole simulation cycles in the time it takes to stream 8 * w bits, that product
        in 32 bits. */
    lemma LatencyOfWidth(region: nat, w: nat)
      requires w == (if region in widths then widths[region] else 0) && busWidth > 0
      ensures var n, bits := TransferLatency(region), (8 * w) % 0x1_0000_0000;
              var time, rate := bits as real * icapSpeed, busWidth as real * simSpeed;
              n as real * rate <= time < (n as real + 1.0) * rate
    {
      TransferLatencyBounds(region);
      assert TransferBits(region) == (8 * w) % 0x1_0000_0000;
    }

    /** A request a selector may produce: its specification is in the map under its own ids and
        implements the task type it was chosen for. */
    ghost predicate ValidRequest(r: Request) {
      && r.bs.regionId in specs
      && r.bs.id in specs[r.bs.regionId]
      && specs[r.bs.regionId][r.bs.id] == r.bs
      && Implements(r.bs, r.typeId)
    }

    /** The source's own figures: 64 units of width at 200 MHz over 32 bits take 32 cycles of a
        100 MHz simulation. */
    lemma ExampleLatency(region: nat)
      requires region in widths && widths[region] == 64 && icapSpeed == 200.0 && busWidth == 32 && simSpeed == 100.0
      ensures TransferLatency(region) == 32
    {
      LatencyOfWidth(region, 64);
    }
  }
}

/** The records of common/gossmap.h: nodes, channels and their two halves.
    A direction or half number 0/1 is a bool, so C's !dir is Dafny's !dir. */
module Graph {

  /** half_chan: what the node `nodeidx` demands for sending through the channel. */
  datatype HalfChan = HalfChan(
    enabled: bool, nodeidx: nat,
    htlcMin: nat, htlcMax: nat,
    baseFee: nat, propFee: nat, delay: nat)

  /** gossmap_chan.  A zero plusScidOff marks a free arena slot, whose cannOff is then
      the free-list link. */
  datatype Chan = Chan(
    cannOff: nat, plusScidOff: nat, isPrivate: bool,
    cupdateOff0: nat, cupdateOff1: nat,
    half0: HalfChan, half1: HalfChan)
  {
    function Half(dir: bool): HalfChan { if dir then half1 else half0 }
    function CupdateOff(dir: bool): nat { if dir then cupdateOff1 else cupdateOff0 }
    function SetHalf(dir: bool, h: HalfChan): Chan {
      if dir then this.(half1 := h) else this.(half0 := h)
    }
    function SetCupdateOff(dir: bool, off: nat): Chan {
      if dir then this.(cupdateOff1 := off) else this.(cupdateOff0 := off)
    }
  }

  /** gossmap_node.  An empty chanIdxs (NULL in C) marks a free arena slot, whose nannOff
      is then the free-list link. */
  datatype Node = Node(nannOff: nat, chanIdxs: seq<nat>)

  datatype Graph = Graph(nodes: seq<Node>, chans: seq<Chan>)

  predicate Live(g: Graph, n: nat) {
    n < |g.nodes| && g.nodes[n].chanIdxs != []
  }

  /** The bit-field widths of half_chan: 16, 16, 24, 20 and 20 bits. */
  predicate HalfInRange(h: HalfChan) {
    && h.htlcMin < 0x1_0000 && h.htlcMax < 0x1_0000
    && h.baseFee < 0x100_0000 && h.propFee < 0x10_0000 && h.delay < 0x10_0000
  }

  /** Every listed channel exists, has the listing node at one end, and joins live nodes. */
  ghost predicate WellFormed(g: Graph) {
    && |g.nodes| <= 0x7FFF_FFFF
    && (forall n, i :: 0 <= n < |g.nodes| && 0 <= i < |g.nodes[n].chanIdxs| ==> ListedOk(g, n, i))
  }

  ghost predicate ListedOk(g: Graph, n: nat, i: nat)
    requires n < |g.nodes| && i < |g.nodes[n].chanIdxs|
  {
    var c := g.nodes[n].chanIdxs[i];
    && c < |g.chans|
    && (g.chans[c].half0.nodeidx == n || g.chans[c].half1.nodeidx == n)
    && Live(g, g.chans[c].half0.nodeidx) && Live(g, g.chans[c].half1.nodeidx)
    && HalfInRange(g.chans[c].half0) && HalfInRange(g.chans[c].half1)
  }

  /** gossmap_nth_chan's which_half: the half of channel c that is node n's. */
  function WhichHalf(g: Graph, n: nat, c: nat): bool
    requires c < |g.chans|
  {
    g.chans[c].half0.nodeidx != n
  }

  /** The node at the far end of n's i-th channel. */
  function Neighbor(g: Graph, n: nat, i: nat): (m: nat)
    requires n < |g.nodes| && i < |g.nodes[n].chanIdxs|
    requires g.nodes[n].chanIdxs[i] < |g.chans|
  {
    var c := g.nodes[n].chanIdxs[i];
    g.chans[c].Half(!WhichHalf(g, n, c)).nodeidx
  }
}

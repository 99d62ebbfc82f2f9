/** common/gossmap.c: the graph that channels are added to and removed from in place. */
module Gossmap {
  import opened Wrappers
  import opened Numbers
  import opened Graph
  import opened Arena
  import Fp16

  /** The fields of a channel_update that the graph keeps. */
  datatype UpdateMsg = UpdateMsg(
    scid: Scid, dir: bool, disabled: bool,
    htlcMin: nat, htlcMax: nat, hasMax: bool, baseFee: nat, propFee: nat, delay: nat)
  {
    predicate InRange() {
      htlcMin <= U64_MAX && htlcMax <= U64_MAX && baseFee <= U32_MAX && propFee <= U32_MAX && delay <= 0xFFFF
    }

    /** Do the fees fit the bit-fields? */
    predicate Fits() { baseFee < 0x100_0000 && propFee < 0x10_0000 }

    /** The half channel update_channel stores: values too large are cut off and switch it off. */
    function Stored(nodeidx: nat): (h: HalfChan)
      requires InRange()
      ensures HalfInRange(h)
      ensures Fits() ==> h.baseFee == baseFee && h.propFee == propFee && h.enabled == !disabled
      ensures !Fits() ==> !h.enabled && Fp16.Value(h.htlcMax) == 0
    {
      var max := if hasMax then Fp16.FromU64(htlcMax, true) else 0xFFFF;
      HalfChan(!disabled && Fits(), nodeidx, Fp16.FromU64(htlcMin, false), if Fits() then max else 0,
               baseFee % 0x100_0000, propFee % 0x10_0000, delay)
    }
  }

  /** The channel after an update: only the named half and its offset change. */
  function Updated(ch: Chan, u: UpdateMsg, off: nat): (r: Chan)
    requires u.InRange()
    ensures SameShape(ch, r) && r.Half(!u.dir) == ch.Half(!u.dir) && r.CupdateOff(!u.dir) == ch.CupdateOff(!u.dir)
  {
    ch.SetHalf(u.dir, u.Stored(ch.Half(u.dir).nodeidx)).SetCupdateOff(u.dir, off)
  }

  /** Half u.dir of ch has what the update says, field by field: the fees as far as their bit-fields
      hold them, and where those cut something off the half is switched off; the limits as near to
      the update's own as 16 bits come from outside. */
  ghost predicate Shows(ch: Chan, u: UpdateMsg, off: nat) {
    var h := ch.Half(u.dir);
    var whole := h.baseFee == u.baseFee && h.propFee == u.propFee;
    && HalfInRange(h) && ch.CupdateOff(u.dir) == off && h.delay == u.delay
    && h.baseFee == u.baseFee % 0x100_0000 && h.propFee == u.propFee % 0x10_0000
    && (h.enabled <==> !u.disabled && whole)
    && NearestBelow(h.htlcMin, u.htlcMin)
    && if !whole then Fp16.Value(h.htlcMax) == 0
       else if !u.hasMax then Fp16.Value(h.htlcMax) == Fp16.CAP
       else NearestAbove(h.htlcMax, u.htlcMax)
  }

  /** The greatest compact value not above v. */
  ghost predicate NearestBelow(f: Fp16.Fp, v: nat) {
    Fp16.Value(f) <= v && forall g: Fp16.Fp :: Fp16.Value(g) <= v ==> Fp16.Value(g) <= Fp16.Value(f)
  }

  /** The least compact value not below v, or the greatest there is. */
  ghost predicate NearestAbove(f: Fp16.Fp, v: nat) {
    if v > Fp16.CAP then Fp16.Value(f) == Fp16.CAP
    else v <= Fp16.Value(f) && forall g: Fp16.Fp :: v <= Fp16.Value(g) ==> Fp16.Value(f) <= Fp16.Value(g)
  }

  lemma UpdatedShows(ch: Chan, u: UpdateMsg, off: nat)
    requires u.InRange()
    ensures Shows(Updated(ch, u, off), u, off)
  {
    Fp16.AtMostCap(0);
    Fp16.ZeroIsZero();
    hide Fp16.Value, Fp16.FromU64;
    var min, max := Fp16.FromU64(u.htlcMin, false), Fp16.FromU64(u.htlcMax, true);
    forall g: Fp16.Fp ensures Fp16.Value(g) <= u.htlcMin ==> Fp16.Value(g) <= Fp16.Value(min) {
      Fp16.RoundsDown(u.htlcMin, g);
    }
    forall g: Fp16.Fp ensures u.htlcMax <= Fp16.Value(g) ==> Fp16.Value(max) <= Fp16.Value(g) {
      Fp16.RoundsUp(u.htlcMax, g);
    }
    Fp16.RoundsDown(u.htlcMin, 0);
    Fp16.RoundsUp(u.htlcMax, 0);
  }

  lemma FitsShown(ch: Chan, u: UpdateMsg, off: nat)
    requires Shows(ch, u, off)
    ensures u.Fits() <==> ch.Half(u.dir).baseFee == u.baseFee && ch.Half(u.dir).propFee == u.propFee
  {
    hide NearestBelow, NearestAbove;
  }

  lemma UpdatedIsBare(ch: Chan, u: UpdateMsg, off: nat)
    requires u.InRange()
    ensures Bare(Updated(ch, u, off)) == Updated(Bare(ch), u, off)
  {
  }

  /** What a gossip_store record means to map_catchup; Other is skipped. */
  datatype Record = Announce(off: nat, isPrivate: bool) | Update(msg: UpdateMsg, off: nat)
                  | DeleteChan(scid: Scid) | NodeAnn(id: NodeId, off: nat) | Other

  /** What a record asks of the channels known so far: announced scids are new, updates and
      node announcements name something known. */
  ghost predicate RecordOk(l: map<Scid, Chan>, anns: map<nat, Ann>, r: Record) {
    match r
    case Announce(off, _) =>
      off in anns && anns[off].id1 != anns[off].id2 && anns[off].plusScidOff != 0 && anns[off].scid !in l
    case Update(msg, _) => msg.InRange() && msg.scid in l
    case DeleteChan(_) => true
    case NodeAnn(id, _) => EndOfSome(l, anns, id)
    case Other => true
  }

  /** The listing after a record. */
  function Listed(l: map<Scid, Chan>, anns: map<nat, Ann>, r: Record): map<Scid, Chan> {
    match r
    case Announce(off, isPrivate) =>
      if off in anns
      then l[anns[off].scid := Chan(off, anns[off].plusScidOff, isPrivate, 0, 0, NO_HALF, NO_HALF)] else l
    case Update(msg, off) => if msg.scid in l && msg.InRange() then l[msg.scid := Updated(l[msg.scid], msg, off)] else l
    case DeleteChan(scid) => l - {scid}
    case _ => l
  }

  /** The listing after several records, and what they ask. */
  function ListedAll(l: map<Scid, Chan>, anns: map<nat, Ann>, rs: seq<Record>): map<Scid, Chan> {
    if rs == [] then l else Listed(ListedAll(l, anns, rs[..|rs| - 1]), anns, rs[|rs| - 1])
  }

  /** Where the announcement of node id is, 0 before there is one; none if id is not known. */
  function AnnOf(m: Map, id: NodeId): Option<nat> {
    if id in m.nodes && m.nodes[id] < |m.nodeArr| then Some(m.nodeArr[m.nodes[id]].nannOff) else None
  }

  /** The same after a record, which leaves id known or not. */
  function AnnAfter(before: Option<nat>, known: bool, r: Record, id: NodeId): Option<nat> {
    if !known then None
    else if r.NodeAnn? && r.id == id then Some(r.off)
    else if before.Some? then before else Some(0)
  }

  /** The last announcement of id since it became known. */
  ghost function LastAnn(m: Map, l: map<Scid, Chan>, anns: map<nat, Ann>, rs: seq<Record>, id: NodeId): Option<nat> {
    if rs == [] then AnnOf(m, id)
    else
      AnnAfter(LastAnn(m, l, anns, rs[..|rs| - 1], id), EndOfSome(ListedAll(l, anns, rs), anns, id), rs[|rs| - 1], id)
  }

  /** Every node known after r has its announcement where r puts it. */
  ghost predicate AnnsKept(m: Map, m': Map, r: Record) {
    forall id :: id in m'.nodes ==> AnnOf(m', id) == AnnAfter(AnnOf(m, id), true, r, id)
  }

  lemma KeptByAdding(m: Map, m': Map, anns: map<nat, Ann>, a: Ann, ch: Chan, c: nat, r: Record)
    requires ValidMap(m, anns) && ValidMap(m', anns) && Added(m, m', a, ch, c) && IdsOver(m, m') && r.Announce?
    ensures AnnsKept(m, m', r)
  {
    hide Adjacent, ChansIndexed;
    forall id | id in m'.nodes ensures AnnOf(m', id) == AnnAfter(AnnOf(m, id), true, r, id) {
      var n := m'.nodes[id];
      assert LiveNode(m', n);
      if id in m.nodes { assert LiveNode(m, n); } else { NewNodeOf(m, m', anns, id); }
    }
  }

  /** A node that got its id by an addition was free before. */
  lemma NewNodeOf(m: Map, m': Map, anns: map<nat, Ann>, id: NodeId)
    requires ValidMap(m, anns) && ValidMap(m', anns) && IdsOver(m, m') && id in m'.nodes && id !in m.nodes
    ensures !LiveNode(m, m'.nodes[id])
  {
    hide Adjacent, ChansIndexed;
    assert forall id' :: id' in m.nodes ==> m.nodes[id'] == m'.nodes[id'] != m'.nodes[id];
  }

  lemma KeptByRemoval(m: Map, m': Map, anns: map<nat, Ann>, d: set<nat>, r: Record)
    requires ValidMap(m', anns) && RemovedAll(m, m', d) && !r.NodeAnn?
    ensures AnnsKept(m, m', r)
  {
    hide Adjacent, ChansIndexed;
    forall id | id in m'.nodes ensures AnnOf(m', id) == AnnAfter(AnnOf(m, id), true, r, id) {
      assert LiveNode(m', m'.nodes[id]);
      assert NodeMinus(m.nodeArr[m'.nodes[id]], m'.nodeArr[m'.nodes[id]], d);
    }
  }

  lemma KeptAlike(m: Map, m': Map, anns: map<nat, Ann>, r: Record)
    requires ValidMap(m, anns) && m'.nodes == m.nodes && m'.nodeArr == m.nodeArr && !r.NodeAnn?
    ensures AnnsKept(m, m', r)
  {
    hide ValidMap;
    forall id | id in m'.nodes ensures AnnOf(m', id) == AnnAfter(AnnOf(m, id), true, r, id) { IdFacts(m, anns, id); }
  }

  lemma KeptByNode(m: Map, m': Map, anns: map<nat, Ann>, id: NodeId, off: nat)
    requires ValidMap(m, anns) && id in m.nodes && m.nodes[id] < |m.nodeArr| && m'.nodes == m.nodes
    requires m'.nodeArr == m.nodeArr[m.nodes[id] := m.nodeArr[m.nodes[id]].(nannOff := off)]
    ensures AnnsKept(m, m', NodeAnn(id, off))
  {
    hide Adjacent, ChansIndexed;
    forall id' | id' in m'.nodes ensures AnnOf(m', id') == AnnAfter(AnnOf(m, id'), true, NodeAnn(id, off), id') {
      assert LiveNode(m, m.nodes[id']);
    }
  }

  lemma AnnsFollow(m: Map, m': Map, anns: map<nat, Ann>, r: Record)
    requires ValidMap(m', anns) && AnnsKept(m, m', r)
    ensures forall id :: AnnOf(m', id) == AnnAfter(AnnOf(m, id), EndOfSome(Listing(m', anns), anns, id), r, id)
  {
    hide ValidMap, EndOfSome, Listing;
    forall id ensures AnnOf(m', id) == AnnAfter(AnnOf(m, id), EndOfSome(Listing(m', anns), anns, id), r, id) {
      NodesAreEnds(m', anns, id);
    }
  }

  /** Which record a half has its values from: one from before, the channel's announcement, which sets
      none, or an update. */
  datatype Source = Before | Announcement | From(msg: UpdateMsg, off: nat)

  /** The last record that speaks of half dir of channel scid. */
  function LastUpdate(anns: map<nat, Ann>, rs: seq<Record>, scid: Scid, dir: bool): Source {
    if rs == [] then Before
    else
      match rs[|rs| - 1]
      case Announce(off, _) =>
        if off in anns && anns[off].scid == scid then Announcement
        else LastUpdate(anns, rs[..|rs| - 1], scid, dir)
      case Update(msg, off) =>
        if msg.scid == scid && msg.dir == dir then From(msg, off)
        else LastUpdate(anns, rs[..|rs| - 1], scid, dir)
      case _ => LastUpdate(anns, rs[..|rs| - 1], scid, dir)
  }

  /** What half dir of ch has, `was` being the channel's record from before, if it had one. */
  ghost predicate HalfShows(was: Option<Chan>, ch: Chan, dir: bool, src: Source) {
    match src
    case Before =>
      && was.Some? && ch.CupdateOff(dir) == was.value.CupdateOff(dir)
      && ch.Half(dir) == was.value.Half(dir).(nodeidx := ch.Half(dir).nodeidx)
    case Announcement =>
      ch.CupdateOff(dir) == 0 && ch.Half(dir) == HalfChan(false, ch.Half(dir).nodeidx, 0, 0, 0, 0, 0)
    case From(msg, off) => msg.dir == dir && Shows(ch, msg, off)
  }

  function RecordOf(m: Map, scid: Scid): Option<Chan> {
    if scid in m.channels && m.channels[scid] < |m.chanArr| then Some(m.chanArr[m.channels[scid]]) else None
  }

  function Entry(l: map<Scid, Chan>, scid: Scid): Option<Chan> {
    if scid in l then Some(l[scid]) else None
  }

  /** Every listed half has the values of the last record that speaks of it. */
  lemma {:induction false} ListedShows(l: map<Scid, Chan>, anns: map<nat, Ann>, rs: seq<Record>, scid: Scid, dir: bool)
    requires RecordsOk(l, anns, rs) && scid in ListedAll(l, anns, rs)
    ensures HalfShows(Entry(l, scid), ListedAll(l, anns, rs)[scid], dir, LastUpdate(anns, rs, scid, dir))
    decreases |rs|
  {
    if rs != [] {
      var n := |rs| - 1;
      var before := ListedAll(l, anns, rs[..n]);
      assert RecordsOk(l, anns, rs[..n]) by { EarlierOk(l, anns, rs, n); }
      assert RecordOk(before, anns, rs[n]) by { assert rs[..n] == rs[..n]; }
      if scid in before { ListedShows(l, anns, rs[..n], scid, dir); }
      hide Shows;
      if rs[n].Update? && rs[n].msg.scid == scid {
        UpdatedShows(before[scid], rs[n].msg, rs[n].off);
        if rs[n].msg.dir != dir {
          var src := LastUpdate(anns, rs[..n], scid, dir);
          OtherHalfShows(Entry(l, scid), before[scid], rs[n].msg, rs[n].off, dir, src);
        }
      }
    }
  }

  /** Both halves of every channel known after rs have the values of the last records that speak of
      them. */
  ghost predicate RecordsShow(m0: Map, m: Map, anns: map<nat, Ann>, rs: seq<Record>) {
    forall scid, dir: bool :: scid in m.channels ==> RecordShows(m0, m, anns, rs, scid, dir)
  }

  ghost predicate RecordShows(m0: Map, m: Map, anns: map<nat, Ann>, rs: seq<Record>, scid: Scid, dir: bool) {
    var ch := RecordOf(m, scid);
    ch.Some? && HalfShows(RecordOf(m0, scid), ch.value, dir, LastUpdate(anns, rs, scid, dir))
  }

  lemma ListedRecordsShow(m0: Map, m: Map, anns: map<nat, Ann>, rs: seq<Record>)
    requires ValidMap(m0, anns) && ValidMap(m, anns) && RecordsOk(Listing(m0, anns), anns, rs)
    requires Listing(m, anns) == ListedAll(Listing(m0, anns), anns, rs)
    ensures RecordsShow(m0, m, anns, rs)
  {
    hide ValidMap, RecordsOk, ListedAll, Listing, RecordShows;
    forall scid, dir: bool | scid in m.channels ensures RecordShows(m0, m, anns, rs, scid, dir) {
      ListedRecordShows(m0, m, anns, rs, scid, dir);
    }
  }

  lemma ListedRecordShows(m0: Map, m: Map, anns: map<nat, Ann>, rs: seq<Record>, scid: Scid, dir: bool)
    requires ValidMap(m0, anns) && ValidMap(m, anns) && RecordsOk(Listing(m0, anns), anns, rs)
    requires Listing(m, anns) == ListedAll(Listing(m0, anns), anns, rs) && scid in m.channels
    ensures RecordShows(m0, m, anns, rs, scid, dir)
  {
    hide ValidMap, RecordsOk, ListedAll, Listing, HalfShows, Bare, RecordOf, Entry, LastUpdate;
    EntryIs(m0, anns, scid);
    EntryIs(m, anns, scid);
    EntryOf(Listing(m, anns), scid);
    ListedShows(Listing(m0, anns), anns, rs, scid, dir);
    BareShows(RecordOf(m0, scid), RecordOf(m, scid).value, dir, LastUpdate(anns, rs, scid, dir));
  }

  lemma EntryIs(m: Map, anns: map<nat, Ann>, scid: Scid)
    requires ValidMap(m, anns)
    ensures scid in m.channels <==> RecordOf(m, scid).Some?
    ensures Entry(Listing(m, anns), scid) ==
      if RecordOf(m, scid).Some? then Some(Bare(RecordOf(m, scid).value)) else None
  {
    ListedIsIndexed(m, anns);
    hide ValidMap, Listing, Bare;
    if scid in m.channels { ListedAt(m, anns, scid); }
  }

  lemma EntryOf(l: map<Scid, Chan>, scid: Scid)
    ensures Entry(l, scid).Some? ==> scid in l && l[scid] == Entry(l, scid).value
  {
  }

  /** Where its ends are has no part in what a half shows. */
  lemma BareShows(was: Option<Chan>, ch: Chan, dir: bool, src: Source)
    requires HalfShows(if was.Some? then Some(Bare(was.value)) else None, Bare(ch), dir, src)
    ensures HalfShows(was, ch, dir, src)
  {
    hide NearestBelow, NearestAbove;
  }

  lemma EarlierOk(l: map<Scid, Chan>, anns: map<nat, Ann>, rs: seq<Record>, n: nat)
    requires RecordsOk(l, anns, rs) && n <= |rs|
    ensures RecordsOk(l, anns, rs[..n])
  {
    hide RecordOk, ListedAll;
    forall i | 0 <= i < n ensures RecordOk(ListedAll(l, anns, rs[..n][..i]), anns, rs[..n][i]) {
      assert rs[..n][..i] == rs[..i];
    }
  }

  /** An update leaves the other half as it is. */
  lemma OtherHalfShows(was: Option<Chan>, ch: Chan, u: UpdateMsg, off: nat, dir: bool, src: Source)
    requires u.InRange() && u.dir != dir && HalfShows(was, ch, dir, src)
    ensures HalfShows(was, Updated(ch, u, off), dir, src)
  {
  }

  /** The updates that do not fit. */
  function CountBad(rs: seq<Record>): nat {
    if rs == [] then 0
    else
      var last := rs[|rs| - 1];
      CountBad(rs[..|rs| - 1]) + if last.Update? && !last.msg.Fits() then 1 else 0
  }

  ghost predicate RecordsOk(l: map<Scid, Chan>, anns: map<nat, Ann>, rs: seq<Record>) {
    forall i :: 0 <= i < |rs| ==> RecordOk(ListedAll(l, anns, rs[..i]), anns, rs[i])
  }

  class Gossmap {
    /** The announcements in the file, below mapSize, and the local ones at and above it. */
    const store: map<nat, Ann>
    const mapSize: nat
    var local: map<nat, Ann>

    var nodes: map<NodeId, nat>
    var channels: map<Scid, nat>
    var nodeArr: seq<Node>
    var chanArr: seq<Chan>
    var freedNodes: nat
    var freedChans: nat

    ghost var freeNodes: seq<nat>
    ghost var freeChans: seq<nat>

    ghost function M(): Map
      reads this
    {
      Map(nodeArr, chanArr, nodes, channels)
    }

    function Anns(): map<nat, Ann>
      reads this
    {
      store + local
    }

    ghost predicate Valid()
      reads this
    {
      && ValidMap(M(), Anns())
      && NodesOk(nodeArr, freedNodes, freeNodes, {})
      && ChansOk(chanArr, freedChans, freeChans)
    }

    /** The channels known and where they were announced. */
    ghost function Known(): map<Scid, Chan>
      requires Valid()
      reads this
    {
      Listing(M(), Anns())
    }

    /** load_gossip_store's arrays: all slots free. */
    constructor (store: map<nat, Ann>, mapSize: nat)
      requires mapSize <= U32_MAX
      ensures Valid() && this.store == store && this.mapSize == mapSize && local == map[]
      ensures nodes == map[] && channels == map[]
    {
      this.store, this.mapSize, local := store, mapSize, map[];
      nodes, channels := map[], map[];
      var chans := InitChanArr(seq(mapSize / 750 / 2 + 1, _ => NO_CHAN), 0);
      var nds := InitNodeArr(seq(mapSize / 2500 / 2 + 1, _ => Node(0, [])), 0);
      chanArr, freedChans := chans, 0;
      nodeArr, freedNodes := nds, 0;
      freeChans, freeNodes := Range(0, |chans|), Range(0, |nds|);
      new;
      FreeFresh(NodeLinks(nodeArr), 0);
      FreeFresh(ChanLinks(chanArr), 0);
      RangeMembers(0, |nodeArr|);
      RangeMembers(0, |chanArr|);
    }

    /** new_node: the first free slot, doubling the array when there is none. */
    method NewNode(ghost limbo: set<nat>) returns (idx: nat)
      requires NodesOk(nodeArr, freedNodes, freeNodes, limbo)
      requires freedNodes != U32_MAX || 2 * |nodeArr| <= ARENA_MAX
      modifies this`nodeArr, this`freedNodes, this`freeNodes
      ensures NodesOk(nodeArr, freedNodes, freeNodes, limbo + {idx})
      ensures NodesGrown(old(nodeArr), nodeArr) && |old(nodeArr)| <= |nodeArr|
      ensures idx < |nodeArr| && nodeArr[idx] == Node(0, []) && idx !in limbo
      ensures forall x: nat :: x < |old(nodeArr)| && x != idx ==> nodeArr[x] == old(nodeArr)[x]
    {
      hide FreeChain;
      if freedNodes == U32_MAX {
        var n := |nodeArr|;
        var b := InitNodeArr(nodeArr + seq(n, _ => Node(0, [])), n);
        assert b[..n] == nodeArr;
        DoubledNodes(nodeArr, b, freedNodes, freeNodes, limbo);
        nodeArr, freedNodes, freeNodes := b, n, Range(n, |b|);
      }
      TakeNode(nodeArr, freedNodes, freeNodes, limbo);
      idx := freedNodes;
      freedNodes := nodeArr[idx].nannOff;
      nodeArr := nodeArr[idx := Node(0, [])];
      freeNodes := freeNodes[1..];
    }

    /** next_free_chan, filled with a new record. */
    method NewChan(ch: Chan) returns (c: nat)
      requires ChansOk(chanArr, freedChans, freeChans) && ch.plusScidOff != 0
      requires freedChans != U32_MAX || 2 * |chanArr| <= ARENA_MAX
      modifies this`chanArr, this`freedChans, this`freeChans
      ensures ChansOk(chanArr, freedChans, freeChans)
      ensures ChanPut(old(chanArr), chanArr, ch, c)
    {
      hide FreeChain;
      if freedChans == U32_MAX {
        var n := |chanArr|;
        var b := InitChanArr(chanArr + seq(n, _ => NO_CHAN), n);
        assert b[..n] == chanArr;
        DoubledChans(chanArr, b, freedChans, freeChans);
        chanArr, freedChans, freeChans := b, n, Range(n, |b|);
      }
      TakeChan(chanArr, freedChans, freeChans, ch);
      c := freedChans;
      freedChans := chanArr[c].cannOff;
      chanArr := chanArr[c := ch];
      freeChans := freeChans[1..];
    }

    /** add_channel for the announcement at cannOff: its scid must be new. */
    method AddChannel(cannOff: nat, isPrivate: bool) returns (c: nat)
      requires Valid() && cannOff in Anns()
      requires Anns()[cannOff].id1 != Anns()[cannOff].id2 && Anns()[cannOff].plusScidOff != 0
      requires Anns()[cannOff].scid !in channels
      requires 2 * (|nodes| + 1) <= ARENA_MAX && 2 * |channels| <= ARENA_MAX
      modifies this`nodes, this`channels, this`nodeArr, this`chanArr, this`freedNodes, this`freedChans,
               this`freeNodes, this`freeChans
      ensures Valid() && c < |chanArr|
      ensures Added(old(M()), M(), Anns()[cannOff], chanArr[c], c) && IdsOver(old(M()), M())
      ensures chanArr[c] == Chan(cannOff, Anns()[cannOff].plusScidOff, isPrivate, 0, 0,
                                 NO_HALF.(nodeidx := chanArr[c].half0.nodeidx),
                                 NO_HALF.(nodeidx := chanArr[c].half1.nodeidx))
    {
      hide NodesOk, ChansOk, ValidMap, Added, NodesGrown, EndFor, Addable, ChanOk, ChanPut, FreshEnd,
           LinkBoth, IndexEnds, NewEnd, LiveChan, ChanIndexed, ScidIndexed, IdsOver;
      ghost var m := M();
      var a := Anns()[cannOff];
      var n0, n1 := TakeEnds(a);
      var ch := Chan(cannOff, a.plusScidOff, isPrivate, 0, 0, NO_HALF.(nodeidx := n0), NO_HALF.(nodeidx := n1));
      RoomForChan(m, Anns(), freedChans, freeChans);
      c := NewChan(ch);
      assert c < |chanArr| && chanArr[c] == ch by { PutIsThere(m.chanArr, chanArr, ch, c); }
      LinkedIsAdded(m, nodeArr, chanArr, Anns(), a, ch, c);
      LinkedNodesOk(nodeArr, freedNodes, freeNodes, NewEnd(nodes, a.id1, n0) + NewEnd(nodes, a.id2, n1), n0, n1, c);
      NewIsAddable(m, Anns(), a, ch);
      NewIsOk(ch, |nodeArr|);
      ghost var m' := Map(LinkBoth(nodeArr, n0, n1, c), chanArr, IndexEnds(nodes, a, n0, n1), channels[a.scid := c]);
      AddedIsValid(m, m', Anns(), a, ch, c);
      IndexedEndsKeepIds(m, m', a, n0, n1);
      nodeArr := LinkBoth(nodeArr, n0, n1, c);
      channels := channels[a.scid := c];
      nodes := IndexEnds(nodes, a, n0, n1);
      assert M() == m';
    }

    /** The nodes of a new channel: indexed ones, or new ones still without channels. */
    method TakeEnds(a: Ann) returns (n0: nat, n1: nat)
      requires Valid() && a.id1 != a.id2 && 2 * (|nodes| + 1) <= ARENA_MAX
      modifies this`nodeArr, this`freedNodes, this`freeNodes
      ensures NodesGrown(old(nodeArr), nodeArr)
      ensures EndFor(M().(nodeArr := old(nodeArr)), a.id1, n0) && EndFor(M().(nodeArr := old(nodeArr)), a.id2, n1)
      ensures n0 < |nodeArr| && n1 < |nodeArr| && n0 != n1 && n0 !in freeNodes && n1 !in freeNodes
      ensures NodesOk(nodeArr, freedNodes, freeNodes, NewEnd(nodes, a.id1, n0) + NewEnd(nodes, a.id2, n1))
      ensures FreshEnd(nodeArr, n0) && FreshEnd(nodeArr, n1)
    {
      hide ValidMap, ChansOk, NodesOk, NodesGrown, NodesIndexed;
      ghost var m := M();
      IndexFacts(m, Anns(), a.id1, a.id2);
      n0 := TakeEnd(a.id1, m, {});
      ghost var limbo := NewEnd(nodes, a.id1, n0);
      assert {} + limbo == limbo;
      n1 := TakeEnd(a.id2, m, limbo);
      limbo := limbo + NewEnd(nodes, a.id2, n1);
      EndStays(m, nodeArr, freedNodes, freeNodes, limbo, a.id1, n0);
    }

    /** One end of a new channel, with `limbo` taken already. */
    method TakeEnd(id: NodeId, ghost m: Map, ghost limbo: set<nat>) returns (n: nat)
      requires NodesOk(nodeArr, freedNodes, freeNodes, limbo) && NodesGrown(m.nodeArr, nodeArr)
      requires NodesIndexed(m) && m.nodes == nodes && 2 * (|nodes| + |limbo|) <= ARENA_MAX
      modifies this`nodeArr, this`freedNodes, this`freeNodes
      ensures NodesOk(nodeArr, freedNodes, freeNodes, limbo + NewEnd(nodes, id, n))
      ensures NodesGrown(m.nodeArr, nodeArr) && EndFor(m, id, n)
      ensures n < |nodeArr| && n !in freeNodes && n !in limbo
      ensures FreshEnd(nodeArr, n) && |old(nodeArr)| <= |nodeArr|
      ensures forall x: nat :: x in limbo && x < |old(nodeArr)| ==> nodeArr[x] == old(nodeArr)[x]
    {
      hide NodesOk, NodesGrown, NodesIndexed;
      if id in nodes {
        n := nodes[id];
        assert limbo + NewEnd(nodes, id, n) == limbo;
        IndexedOrLimbo(m, nodeArr, freedNodes, freeNodes, limbo, id);
      } else {
        GrownNodesIndexed(m, M());
        RoomForNode(M(), freedNodes, freeNodes, limbo);
        n := NewNode(limbo);
        GrownTwice(m.nodeArr, old(nodeArr), nodeArr);
        LimboNotLive(m, nodeArr, freedNodes, freeNodes, limbo + {n}, n);
      }
    }


    /** remove_chan_from_node: the last channel takes the node with it. */
    method RemoveChanFromNode(n: nat, c: nat)
      requires NodesOk(nodeArr, freedNodes, freeNodes, {}) && n < |nodeArr|
      requires Distinct(nodeArr[n].chanIdxs) && c in nodeArr[n].chanIdxs
      requires c < |chanArr| && chanArr[c].plusScidOff != 0 && chanArr[c].cannOff in Anns()
      modifies this`nodeArr, this`nodes, this`freedNodes, this`freeNodes
      ensures NodesOk(nodeArr, freedNodes, freeNodes, {})
      ensures |nodeArr| == |old(nodeArr)| && nodeArr == old(nodeArr)[n := nodeArr[n]]
      ensures nodeArr[n].chanIdxs == Without(old(nodeArr)[n].chanIdxs, c)
      ensures nodeArr[n].chanIdxs != [] ==> nodeArr[n].nannOff == old(nodeArr)[n].nannOff
      ensures nodes == old(nodes)
        - (if nodeArr[n].chanIdxs == [] then {EndId(chanArr[c], Anns()[chanArr[c].cannOff], n)} else {})
    {
      hide FreeChain, NodesOk;
      var idxs := nodeArr[n].chanIdxs;
      if |idxs| == 1 {
        assert idxs[0] == c;
        nodes := nodes - {IdAt(Map(nodeArr, chanArr, nodes, channels), Anns(), n)};
        FreedNodeOk(nodeArr, freedNodes, freeNodes, n);
        nodeArr := nodeArr[n := Node(freedNodes, [])];
        freedNodes := n;
        freeNodes := [n] + freeNodes;
      } else {
        var i := IndexIn(idxs, c);
        var x := nodeArr[n].(chanIdxs := idxs[..i] + idxs[i + 1..]);
        ChangedNodeOk(nodeArr, freedNodes, freeNodes, n, x);
        nodeArr := nodeArr[n := x];
      }
    }

    /** gossmap_remove_chan. */
    method RemoveChan(c: nat)
      requires Valid() && LiveChan(M(), c)
      modifies this`nodes, this`channels, this`nodeArr, this`chanArr, this`freedNodes, this`freedChans,
               this`freeNodes, this`freeChans
      ensures Valid()
      ensures old(chanArr[c].cannOff) in Anns() && Removed(old(M()), M(), Anns()[old(chanArr[c].cannOff)], c)
    {
      hide NodesOk, ChansOk, ValidMap, Removed, NodeAfter, ChanOk, ChanIndexed, Distinct, Without;
      ghost var m := M();
      LiveChanFacts(m, Anns(), c);
      var ch := chanArr[c];
      var a := Anns()[ch.cannOff];
      channels := channels - {a.scid};
      RemoveChanFromNode(ch.half0.nodeidx, c);
      ghost var x0 := nodeArr[ch.half0.nodeidx];
      RemoveChanFromNode(ch.half1.nodeidx, c);
      ghost var x1 := nodeArr[ch.half1.nodeidx];
      FreedChanOk(chanArr, freedChans, freeChans, c);
      chanArr := chanArr[c := ch.(cannOff := freedChans, plusScidOff := 0)];
      freedChans := c;
      freeChans := [c] + freeChans;
      ShowNodeAfter(m.nodeArr[ch.half0.nodeidx], x0, ch, ch.half0.nodeidx, c);
      ShowNodeAfter(m.nodeArr[ch.half1.nodeidx], x1, ch, ch.half1.nodeidx, c);
      UnlinkedIsRemoved(m, M(), a, c, x0, x1);
      RemovedIsValid(m, M(), Anns(), a, c);
    }

    /** gossmap_remove_node: its channels go one by one, and the last takes the node. */
    method RemoveNode(n: nat)
      requires Valid() && n < |nodeArr|
      modifies this`nodes, this`channels, this`nodeArr, this`chanArr, this`freedNodes, this`freedChans,
               this`freeNodes, this`freeChans
      ensures Valid() && !LiveNode(M(), n)
      ensures RemovedAll(old(M()), M(), Members(old(nodeArr[n].chanIdxs)))
    {
      hide ValidMap, NodesOk, ChansOk, RemovedAll, Removed;
      ghost var m, d := M(), {};
      RemovedNone(m);
      MinusNone(nodeArr[n].chanIdxs, {});
      while nodeArr[n].chanIdxs != []
        invariant Valid() && n < |nodeArr| && RemovedAll(m, M(), d)
        invariant d <= Members(m.nodeArr[n].chanIdxs)
        decreases |nodeArr[n].chanIdxs|
      {
        ghost var m1 := M();
        var c := nodeArr[n].chanIdxs[0];
        FirstIsLive(m, m1, Anns(), d, n);
        RemoveChan(c);
        RemovedOneMore(m, m1, M(), d, Anns()[m1.chanArr[c].cannOff], c);
        RemovedShrinks(m1, M(), Anns()[m1.chanArr[c].cannOff], n, c);
        d := d + {c};
      }
      AllRemoved(m, M(), d, n);
    }

    /** Store a channel record that differs only in what its halves demand. */
    method RewriteHalves(c: nat, ch: Chan)
      requires Valid() && LiveChan(M(), c) && SameShape(chanArr[c], ch)
      requires HalfInRange(ch.half0) && HalfInRange(ch.half1)
      modifies this`chanArr
      ensures Valid() && chanArr == old(chanArr)[c := ch]
    {
      hide NodesOk, ChansOk, ValidMap, HalfInRange;
      HalvesRewritten(M(), Anns(), c, ch);
      RewrittenChansOk(chanArr, freedChans, freeChans, c, ch);
      chanArr := chanArr[c := ch];
    }

    /** update_channel: false when a fee does not fit. */
    method UpdateChannel(u: UpdateMsg, off: nat) returns (ok: bool)
      requires Valid() && u.InRange() && u.scid in channels
      modifies this`chanArr
      ensures Valid() && ok == u.Fits()
      ensures LiveChan(old(M()), channels[u.scid])
      ensures var c := channels[u.scid]; chanArr == old(chanArr)[c := Updated(old(chanArr)[c], u, off)]
      ensures var ch, was := chanArr[channels[u.scid]], old(chanArr)[channels[u.scid]];
        && Shows(ch, u, off) && (ok <==> ch.Half(u.dir).baseFee == u.baseFee && ch.Half(u.dir).propFee == u.propFee)
        && SameShape(was, ch) && ch.Half(!u.dir) == was.Half(!u.dir) && ch.CupdateOff(!u.dir) == was.CupdateOff(!u.dir)
    {
      hide NodesOk, ChansOk, ValidMap, HalfInRange, Shows;
      ScidFacts(M(), Anns(), u.scid);
      var c := channels[u.scid];
      var ch := Updated(chanArr[c], u, off);
      UpdatedShows(chanArr[c], u, off);
      FitsShown(ch, u, off);
      RewriteHalves(c, ch);
      ok := u.Fits();
    }

    /** remove_channel_by_deletemsg: unknown channels are ignored. */
    method DeleteMsg(scid: Scid)
      requires Valid()
      modifies this`nodes, this`channels, this`nodeArr, this`chanArr, this`freedNodes, this`freedChans,
               this`freeNodes, this`freeChans
      ensures Valid() && Known() == old(Known()) - {scid}
      ensures |nodes| <= |old(nodes)| && |channels| <= |old(channels)|
      ensures if scid in old(channels) then RemovedAll(old(M()), M(), {old(channels[scid])}) else M() == old(M())
    {
      hide ValidMap, NodesOk, ChansOk, Removed, RemovedAll, Listing;
      ghost var m := M();
      if scid in channels {
        ScidFacts(M(), Anns(), scid);
        var c := channels[scid];
        RemoveChan(c);
        RemovedSummary(m, M(), Anns(), Anns()[m.chanArr[c].cannOff], c);
      } else {
        ListedIsIndexed(m, Anns());
      }
    }

    /** node_announcement. */
    method NodeAnnouncement(id: NodeId, off: nat)
      requires Valid() && id in nodes
      modifies this`nodeArr
      ensures Valid()
      ensures var n := nodes[id]; n < |old(nodeArr)| && nodeArr == old(nodeArr)[n := old(nodeArr)[n].(nannOff := off)]
    {
      hide ValidMap, NodesOk, ChansOk;
      IdFacts(M(), Anns(), id);
      var n := nodes[id];
      AnnouncedIsValid(M(), Anns(), n, off);
      AnnouncedNodesOk(nodeArr, freedNodes, freeNodes, n, off);
      nodeArr := nodeArr[n := nodeArr[n].(nannOff := off)];
    }

    /** A channel_announcement record. */
    method TakeAnnounce(off: nat, isPrivate: bool)
      requires Valid() && RecordOk(Known(), Anns(), Announce(off, isPrivate))
      requires 2 * (|nodes| + 1) <= ARENA_MAX && 2 * |channels| <= ARENA_MAX
      modifies this`nodes, this`channels, this`nodeArr, this`chanArr, this`freedNodes, this`freedChans,
               this`freeNodes, this`freeChans
      ensures Valid() && Known() == Listed(old(Known()), Anns(), Announce(off, isPrivate))
      ensures AnnsKept(old(M()), M(), Announce(off, isPrivate))
      ensures |nodes| <= |old(nodes)| + 2 && |channels| <= |old(channels)| + 1
    {
      hide ValidMap, NodesOk, ChansOk, Added, Listing;
      ghost var m := M();
      ListedIsIndexed(m, Anns());
      var c := AddChannel(off, isPrivate);
      ListedAfterAdd(m, M(), Anns(), Anns()[off], chanArr[c], c);
      AddedSizes(m, M(), Anns()[off], chanArr[c], c);
      KeptByAdding(m, M(), Anns(), Anns()[off], chanArr[c], c, Announce(off, isPrivate));
    }

    /** A channel_update record. */
    method TakeUpdate(msg: UpdateMsg, off: nat) returns (bad: bool)
      requires Valid() && RecordOk(Known(), Anns(), Update(msg, off))
      modifies this`chanArr
      ensures Valid() && Known() == Listed(old(Known()), Anns(), Update(msg, off))
      ensures bad <==> !msg.Fits()
    {
      hide ValidMap, NodesOk, ChansOk, Listing, SameShape;
      ghost var m := M();
      ListedIsIndexed(m, Anns());
      ListedAt(m, Anns(), msg.scid);
      var ok := UpdateChannel(msg, off);
      bad := !ok;
      ListedAfterRewrite(m, Anns(), msg.scid, chanArr[channels[msg.scid]]);
      UpdatedIsBare(m.chanArr[channels[msg.scid]], msg, off);
    }

    /** One round of map_catchup; bad tells of an update that did not fit. */
    method TakeRecord(r: Record) returns (bad: bool)
      requires Valid() && RecordOk(Known(), Anns(), r)
      requires 2 * (|nodes| + 1) <= ARENA_MAX && 2 * |channels| <= ARENA_MAX
      modifies this`nodes, this`channels, this`nodeArr, this`chanArr, this`freedNodes, this`freedChans,
               this`freeNodes, this`freeChans
      ensures Valid() && Known() == Listed(old(Known()), Anns(), r)
      ensures bad <==> r.Update? && !r.msg.Fits()
      ensures forall id :: AnnOf(M(), id) == AnnAfter(AnnOf(old(M()), id), EndOfSome(Known(), Anns(), id), r, id)
      ensures |nodes| <= |old(nodes)| + 2 && |channels| <= |old(channels)| + 1
    {
      hide ValidMap, NodesOk, ChansOk, EndOfSome, SameShape, Listing, AnnOf, AnnsKept, RemovedAll;
      ghost var m := M();
      if !r.NodeAnn? { KeptAlike(m, m, Anns(), r); }
      bad := false;
      match r {
        case Announce(off, isPrivate) =>
          TakeAnnounce(off, isPrivate);
        case Update(msg, off) =>
          bad := TakeUpdate(msg, off);
          KeptAlike(m, M(), Anns(), r);
        case DeleteChan(scid) =>
          DeleteMsg(scid);
          if scid in m.channels { KeptByRemoval(m, M(), Anns(), {m.channels[scid]}, r); }
        case NodeAnn(id, off) =>
          NodesAreEnds(m, Anns(), id);
          NodeAnnouncement(id, off);
          ListedAlike(m, M(), Anns());
          KeptByNode(m, M(), Anns(), id, off);
        case Other =>
      }
      AnnsFollow(m, M(), Anns(), r);
    }

    /** map_catchup over the records not yet read: what is known afterwards is what the records
        say one after another, and numBad counts the updates that did not fit. */
    method CatchUp(rs: seq<Record>) returns (numBad: nat)
      requires Valid() && RecordsOk(Known(), Anns(), rs)
      requires 2 * (|nodes| + 2 * |rs|) <= ARENA_MAX && 2 * (|channels| + |rs|) <= ARENA_MAX
      modifies this`nodes, this`channels, this`nodeArr, this`chanArr, this`freedNodes, this`freedChans,
               this`freeNodes, this`freeChans
      ensures Valid() && Known() == ListedAll(old(Known()), Anns(), rs)
      ensures numBad == CountBad(rs)
      ensures forall id :: AnnOf(M(), id) == LastAnn(old(M()), old(Known()), Anns(), rs, id)
      ensures RecordsShow(old(M()), M(), Anns(), rs)
    {
      hide ValidMap, NodesOk, ChansOk, RecordOk, RecordsShow, Listed, Listing;
      ghost var m, l := M(), Known();
      numBad := 0;
      for i: nat := 0 to |rs|
        invariant Valid() && Known() == ListedAll(l, Anns(), rs[..i])
        invariant |nodes| <= |old(nodes)| + 2 * i && |channels| <= |old(channels)| + i
        invariant numBad == CountBad(rs[..i])
        invariant forall id :: AnnOf(M(), id) == LastAnn(m, l, Anns(), rs[..i], id)
      {
        assert rs[..i + 1][..i] == rs[..i];
        var bad := TakeRecord(rs[i]);
        numBad := numBad + if bad then 1 else 0;
      }
      assert rs[..|rs|] == rs;
      ListedRecordsShow(m, M(), Anns(), rs);
    }
  }
}

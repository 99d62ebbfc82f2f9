/** Local modifications (common/gossmap.c:677-914): private channels and updates laid over a
    gossmap for a while and then taken off again. */
module Localmods {
  import opened Numbers
  import opened Graph
  import opened Arena
  import opened Gossmap
  import Fp16

  /** local_off of a modification that brings no channel of its own, and cupdate_off of an
      overwritten half. */
  const NO_OFF: nat := U32_MAX

  /** One direction of a localmod: the update, and what it replaced. */
  datatype DirMod = DirMod(isSet: bool, hc: HalfChan, orig: HalfChan, origOff: nat)

  datatype LocalMod = LocalMod(scid: Scid, localOff: nat, dir0: DirMod, dir1: DirMod)
  {
    function Dir(dir: bool): DirMod { if dir then dir1 else dir0 }
    function SetDir(dir: bool, d: DirMod): LocalMod { if dir then this.(dir1 := d) else this.(dir0 := d) }
  }

  const NO_MOD: DirMod := DirMod(false, NO_HALF, NO_HALF, 0)

  // ---- One channel ----

  /** Overwrite a half, keeping its node. */
  function OverwriteDir(ch: Chan, dir: bool, d: DirMod): Chan {
    if !d.isSet then ch
    else ch.SetHalf(dir, d.hc.(nodeidx := ch.Half(dir).nodeidx)).SetCupdateOff(dir, NO_OFF)
  }

  /** Remember what it was. */
  function SaveDir(ch: Chan, dir: bool, d: DirMod): DirMod {
    if !d.isSet then d else d.(orig := ch.Half(dir), origOff := ch.CupdateOff(dir))
  }

  /** Put it back, keeping its node. */
  function RestoreDir(ch: Chan, dir: bool, d: DirMod): Chan {
    if !d.isSet then ch
    else ch.SetHalf(dir, d.orig.(nodeidx := ch.Half(dir).nodeidx)).SetCupdateOff(dir, d.origOff)
  }

  function Overwritten(ch: Chan, mod: LocalMod): Chan {
    OverwriteDir(OverwriteDir(ch, false, mod.dir0), true, mod.dir1)
  }

  function Saved(ch: Chan, mod: LocalMod): LocalMod {
    mod.(dir0 := SaveDir(ch, false, mod.dir0),
         dir1 := SaveDir(OverwriteDir(ch, false, mod.dir0), true, mod.dir1))
  }

  function Restored(ch: Chan, mod: LocalMod): Chan {
    RestoreDir(RestoreDir(ch, false, mod.dir0), true, mod.dir1)
  }

  /** Overwriting and restoring keep where a channel runs, and undo each other. */
  lemma RestoreUndoes(ch: Chan, mod: LocalMod)
    ensures Restored(Overwritten(ch, mod), Saved(ch, mod)) == ch
    ensures SameShape(ch, Overwritten(ch, mod)) && SameShape(ch, Restored(ch, mod))
  {
  }

  /** The update halves, and whatever has been saved, fit their bit-fields. */
  predicate ModInRange(mod: LocalMod) {
    && HalfInRange(mod.dir0.hc) && HalfInRange(mod.dir1.hc)
    && HalfInRange(mod.dir0.orig) && HalfInRange(mod.dir1.orig)
  }

  lemma RangesKept(ch: Chan, mod: LocalMod)
    requires ModInRange(mod) && HalfInRange(ch.half0) && HalfInRange(ch.half1)
    ensures HalfInRange(Overwritten(ch, mod).half0) && HalfInRange(Overwritten(ch, mod).half1)
    ensures HalfInRange(Restored(ch, mod).half0) && HalfInRange(Restored(ch, mod).half1)
    ensures ModInRange(Saved(ch, mod))
  {
  }

  // ---- The list of modifications ----

  ghost function Scids(mods: seq<LocalMod>): set<Scid> {
    set mod | mod in mods :: mod.scid
  }

  ghost predicate DistinctScids(mods: seq<LocalMod>) {
    forall i, j :: 0 <= i < j < |mods| ==> mods[i].scid != mods[j].scid
  }

  /** Channel ch with scid s, restored from the first of mods that names it. */
  function Undone(ch: Chan, s: Scid, mods: seq<LocalMod>): Chan {
    if mods == [] then ch else if mods[0].scid == s then Restored(ch, mods[0]) else Undone(ch, s, mods[1..])
  }

  lemma {:induction false} UndoneAbsent(ch: Chan, s: Scid, mods: seq<LocalMod>)
    requires s !in Scids(mods)
    ensures Undone(ch, s, mods) == ch
  {
    if mods != [] {
      assert mods[0] in mods;
      assert forall mod :: mod in mods[1..] ==> mod in mods;
      UndoneAbsent(ch, s, mods[1..]);
    }
  }

  lemma {:induction false} UndoneAppend(ch: Chan, s: Scid, mods: seq<LocalMod>, mod: LocalMod)
    ensures s != mod.scid ==> Undone(ch, s, mods + [mod]) == Undone(ch, s, mods)
    ensures s == mod.scid && s !in Scids(mods) ==> Undone(ch, s, mods + [mod]) == Restored(ch, mod)
  {
    if mods == [] {
      assert mods + [mod] == [mod];
    } else {
      assert mods[0] in mods;
      assert forall x :: x in mods[1..] ==> x in mods;
      assert (mods + [mod])[1..] == mods[1..] + [mod];
      UndoneAppend(ch, s, mods[1..], mod);
    }
  }

  // ---- A graph laid over another ----

  /** A node of m0, or an unused one beyond its end. */
  ghost function NodeAt(m0: Map, n: nat): Node {
    if n < |m0.nodeArr| then m0.nodeArr[n] else Node(0, [])
  }

  /** x lists what x0 lists, in the same order, between members of d. */
  ghost predicate NodeOver(x0: Node, x: Node, d: set<nat>) {
    Minus(x.chanIdxs, d) == x0.chanIdxs && (x0.chanIdxs != [] ==> x.nannOff == x0.nannOff)
  }

  /** m is m0 with further channels d: the channels of m0 stay where they are, in their order
      in every adjacency list, and under their ids and scids. */
  ghost predicate Overlay(m0: Map, m: Map, d: set<nat>) {
    ChansOver(m0, m, d) && NodesOver(m0, m, d) && ScidsOver(m0, m) && IdsOver(m0, m)
  }

  ghost predicate ChansOver(m0: Map, m: Map, d: set<nat>) {
    && (forall x: nat :: LiveChan(m0, x) ==> LiveChan(m, x) && x !in d && SameShape(m0.chanArr[x], m.chanArr[x]))
    && (forall x: nat :: LiveChan(m, x) ==> LiveChan(m0, x) || x in d)
  }

  ghost predicate NodesOver(m0: Map, m: Map, d: set<nat>) {
    && |m0.nodeArr| <= |m.nodeArr|
    && (forall n: nat :: n < |m.nodeArr| ==> NodeOver(NodeAt(m0, n), m.nodeArr[n], d))
  }

  lemma OverlaySelf(m: Map)
    ensures Overlay(m, m, {})
  {
    forall n: nat | n < |m.nodeArr| ensures NodeOver(NodeAt(m, n), m.nodeArr[n], {}) {
      MinusNone(m.nodeArr[n].chanIdxs, {});
    }
  }

  /** A node that m0 uses is used by m. */
  lemma OverlayLive(m0: Map, m: Map, d: set<nat>, n: nat)
    requires NodesOver(m0, m, d) && LiveNode(m0, n)
    ensures LiveNode(m, n)
  {
    assert NodeOver(NodeAt(m0, n), m.nodeArr[n], d);
  }

  /** Adding a channel. */
  lemma OverlayAdd(m0: Map, m: Map, m': Map, anns: map<nat, Ann>, d: set<nat>, a: Ann, ch: Chan, c: nat)
    requires Overlay(m0, m, d) && ValidMap(m, anns) && Added(m, m', a, ch, c)
    requires a.scid !in m.channels && IdsOver(m, m')
    ensures Overlay(m0, m', d + {c})
  {
    hide Added, NodesOver, ChansOver, ScidsOver, IdsOver, Adjacent, Indexed;
    OverlayAddNodes(m0, m, m', d, a, ch, c);
    OverlayAddChans(m0, m, m', d, a, ch, c);
    OverlayAddIds(m0, m, m', a, ch, c);
  }

  lemma OverlayAddIds(m0: Map, m: Map, m': Map, a: Ann, ch: Chan, c: nat)
    requires IdsOver(m0, m) && IdsOver(m, m') && ScidsOver(m0, m) && Added(m, m', a, ch, c) && a.scid !in m.channels
    ensures IdsOver(m0, m') && ScidsOver(m0, m')
  {
    hide LiveChan, LiveNode, HasEnd;
  }

  lemma OverlayAddChans(m0: Map, m: Map, m': Map, d: set<nat>, a: Ann, ch: Chan, c: nat)
    requires ChansOver(m0, m, d) && Added(m, m', a, ch, c)
    ensures ChansOver(m0, m', d + {c})
  {
    hide LiveNode, HasEnd;
    assert forall x: nat :: LiveChan(m', x) <==> LiveChan(m, x) || x == c;
  }

  lemma OverlayAddNodes(m0: Map, m: Map, m': Map, d: set<nat>, a: Ann, ch: Chan, c: nat)
    requires NodesOver(m0, m, d) && Adjacent(m) && Added(m, m', a, ch, c)
    ensures NodesOver(m0, m', d + {c})
  {
    hide NodeOver;
    forall n: nat | n < |m'.nodeArr| ensures NodeOver(NodeAt(m0, n), m'.nodeArr[n], d + {c}) {
      OverlayAddNode(m0, m, m', d, a, ch, c, n);
    }
  }

  lemma OverlayAddNode(m0: Map, m: Map, m': Map, d: set<nat>, a: Ann, ch: Chan, c: nat, n: nat)
    requires NodesOver(m0, m, d) && Adjacent(m) && Added(m, m', a, ch, c) && n < |m'.nodeArr|
    ensures NodeOver(NodeAt(m0, n), m'.nodeArr[n], d + {c})
  {
    assert [c][1..] == [] && Minus([c], d + {c}) == [];
    if LiveNode(m, n) {
      assert NodeOver(NodeAt(m0, n), m.nodeArr[n], d);
      var s := m.nodeArr[n].chanIdxs;
      assert c !in s;
      MinusMore(s, d, c);
      MinusAppend(s, [c], d + {c});
      assert s + [] == s;
    } else if LiveNode(m0, n) {
      OverlayLive(m0, m, d, n);
    }
  }

  /** Removing one of the further channels. */
  lemma OverlayRemove(m0: Map, m: Map, m': Map, anns: map<nat, Ann>, d: set<nat>, a: Ann, c: nat)
    requires Overlay(m0, m, d) && ValidMap(m, anns) && ValidMap(m0, anns) && Removed(m, m', a, c) && c in d
    requires m.chanArr[c].cannOff in anns && anns[m.chanArr[c].cannOff] == a
    ensures Overlay(m0, m', d - {c})
  {
    hide Removed, NodesOver, ChansOver, ScidsOver, IdsOver, Adjacent, NodesIndexed, ChansIndexed;
    OverlayRemoveNodes(m0, m, m', d, a, c);
    RemovedIds(m, m', anns, a, c);
    OverlayRemoveIds(m0, m, m', d - {c});
    RemovedScid(m, m', anns, a, c);
    ScidsLive(m0, anns);
    OverlayRemoveChans(m0, m, m', d, a, c);
  }

  lemma RemovedScid(m: Map, m': Map, anns: map<nat, Ann>, a: Ann, c: nat)
    requires ValidMap(m, anns) && Removed(m, m', a, c)
    requires m.chanArr[c].cannOff in anns && anns[m.chanArr[c].cannOff] == a
    ensures a.scid in m.channels && m.channels[a.scid] == c
  {
    assert ChanIndexed(m, anns, c);
  }

  lemma ScidsLive(m: Map, anns: map<nat, Ann>)
    requires ChansIndexed(m, anns)
    ensures forall s :: s in m.channels ==> LiveChan(m, m.channels[s])
  {
    assert forall s :: s in m.channels ==> ScidIndexed(m, anns, s);
  }

  lemma OverlayRemoveNodes(m0: Map, m: Map, m': Map, d: set<nat>, a: Ann, c: nat)
    requires NodesOver(m0, m, d) && Adjacent(m) && Removed(m, m', a, c) && c in d
    ensures NodesOver(m0, m', d - {c})
  {
    hide NodeOver;
    forall n: nat | n < |m'.nodeArr| ensures NodeOver(NodeAt(m0, n), m'.nodeArr[n], d - {c}) {
      OverlayRemoveNode(m0, m, m', d, a, c, n);
    }
  }

  lemma OverlayRemoveNode(m0: Map, m: Map, m': Map, d: set<nat>, a: Ann, c: nat, n: nat)
    requires NodesOver(m0, m, d) && Adjacent(m) && Removed(m, m', a, c) && c in d && n < |m'.nodeArr|
    ensures NodeOver(NodeAt(m0, n), m'.nodeArr[n], d - {c})
  {
    assert NodeOver(NodeAt(m0, n), m.nodeArr[n], d);
    assert NodeAfter(m.nodeArr[n], m'.nodeArr[n], m.chanArr[c], n, c);
    var s := m.nodeArr[n].chanIdxs;
    assert d - {c} + {c} == d;
    assert c in s <==> LiveChan(m, c) && HasEnd(m.chanArr[c], n);
    if HasEnd(m.chanArr[c], n) {
      MinusWithout(s, d - {c}, c);
    } else {
      MinusMore(s, d - {c}, c);
    }
    if m'.nodeArr[n].chanIdxs == [] { assert Minus(m'.nodeArr[n].chanIdxs, d - {c}) == []; }
  }

  lemma OverlayRemoveIds(m0: Map, m: Map, m': Map, d: set<nat>)
    requires NodesIndexed(m0) && IdsOver(m0, m) && NodesOver(m0, m', d)
    requires forall id :: id in m'.nodes <==> id in m.nodes && LiveNode(m', m.nodes[id])
    requires forall id :: id in m'.nodes ==> m'.nodes[id] == m.nodes[id]
    ensures IdsOver(m0, m')
  {
    hide NodesOver;
    forall id | id in m0.nodes ensures id in m'.nodes && m'.nodes[id] == m0.nodes[id] {
      OverlayLive(m0, m', d, m0.nodes[id]);
    }
  }

  lemma OverlayRemoveChans(m0: Map, m: Map, m': Map, d: set<nat>, a: Ann, c: nat)
    requires ChansOver(m0, m, d) && ScidsOver(m0, m) && Removed(m, m', a, c) && c in d
    requires a.scid in m.channels && m.channels[a.scid] == c
    requires forall s :: s in m0.channels ==> LiveChan(m0, m0.channels[s])
    ensures ChansOver(m0, m', d - {c}) && ScidsOver(m0, m')
  {
    hide NodeAfter, Dropped;
    assert forall x: nat :: LiveChan(m', x) <==> LiveChan(m, x) && x != c;
    forall s | s in m0.channels ensures s in m'.channels && m'.channels[s] == m0.channels[s] {
      assert LiveChan(m0, m0.channels[s]);
    }
  }

  /** Rewriting the halves of any channel. */
  lemma OverlayRewrite(m0: Map, m: Map, d: set<nat>, c: nat, ch: Chan)
    requires Overlay(m0, m, d) && LiveChan(m, c) && SameShape(m.chanArr[c], ch)
    ensures Overlay(m0, m.(chanArr := m.chanArr[c := ch]), d)
  {
    var m' := m.(chanArr := m.chanArr[c := ch]);
    assert forall x: nat :: LiveChan(m', x) <==> LiveChan(m, x);
    assert ChansOver(m0, m', d);
    hide NodeOver, ChansOver;
  }

  /** Equal graphs: the same indexes, and the same live channels and nodes in the same slots. */
  ghost predicate SameGraph(m0: Map, m: Map) {
    && m.channels == m0.channels && m.nodes == m0.nodes
    && (forall x: nat :: LiveChan(m, x) <==> LiveChan(m0, x))
    && (forall x: nat :: LiveChan(m, x) ==> m.chanArr[x] == m0.chanArr[x])
    && (forall n: nat :: LiveNode(m, n) <==> LiveNode(m0, n))
    && (forall n: nat :: LiveNode(m, n) ==> m.nodeArr[n] == m0.nodeArr[n])
  }

  lemma OverlaidNodes(m0: Map, m: Map)
    requires NodesOver(m0, m, {})
    ensures forall n: nat :: LiveNode(m, n) <==> LiveNode(m0, n)
    ensures forall n: nat :: LiveNode(m, n) ==> m.nodeArr[n] == m0.nodeArr[n]
  {
    forall n: nat ensures LiveNode(m, n) <==> LiveNode(m0, n) ensures LiveNode(m, n) ==> m.nodeArr[n] == m0.nodeArr[n] {
      if n < |m.nodeArr| {
        assert NodeOver(NodeAt(m0, n), m.nodeArr[n], {});
        MinusNone(m.nodeArr[n].chanIdxs, {});
      }
    }
  }

  /** Nothing further is left: the indexes are those of m0. */
  lemma OverlaidIndexes(m0: Map, m: Map, anns: map<nat, Ann>)
    requires Overlay(m0, m, {}) && ValidMap(m0, anns) && ValidMap(m, anns)
    ensures m.channels == m0.channels && m.nodes == m0.nodes
  {
    OverlaidNodes(m0, m);
    hide Adjacent, ChansIndexed, NodesOver, ChansOver;
    OverlaidScids(m0, m, anns);
    hide ScidsOver;
    forall id | id in m.nodes ensures id in m0.nodes {
      assert LiveNode(m, m.nodes[id]);
      var id0 :| id0 in m0.nodes && m0.nodes[id0] == m.nodes[id];
      assert m.nodes[id0] == m.nodes[id];
    }
  }

  lemma OverlaidScids(m0: Map, m: Map, anns: map<nat, Ann>)
    requires ChansOver(m0, m, {}) && ScidsOver(m0, m) && ChansIndexed(m0, anns) && ChansIndexed(m, anns)
    ensures m.channels == m0.channels
  {
    forall s | s in m.channels ensures s in m0.channels {
      assert ScidIndexed(m, anns, s);
      var c := m.channels[s];
      assert LiveChan(m0, c) && ChanIndexed(m0, anns, c);
    }
  }

  // ---- Laid over, patched and covered ----

  /** The channels whose announcement lies beyond the file. */
  ghost function LocalChans(m: Map, mapSize: nat): (d: set<nat>)
    ensures forall c: nat :: c in d <==> LiveChan(m, c) && m.chanArr[c].cannOff >= mapSize
  {
    set c: nat | c < |m.chanArr| && LiveChan(m, c) && m.chanArr[c].cannOff >= mapSize
  }

  /** Undoing mods gives every channel of m0 its record back. */
  ghost predicate Patched(m0: Map, m: Map, anns: map<nat, Ann>, mods: seq<LocalMod>) {
    forall x: nat :: LiveChan(m0, x) ==> PatchedAt(m0, m, anns, mods, x)
  }

  ghost predicate PatchedAt(m0: Map, m: Map, anns: map<nat, Ann>, mods: seq<LocalMod>, x: nat)
    requires x < |m0.chanArr|
  {
    && x < |m.chanArr| && m0.chanArr[x].cannOff in anns
    && Undone(m.chanArr[x], anns[m0.chanArr[x].cannOff].scid, mods) == m0.chanArr[x]
  }

  /** Every local channel is named by one of mods. */
  ghost predicate Covered(m: Map, anns: map<nat, Ann>, mapSize: nat, mods: seq<LocalMod>) {
    forall c: nat :: LiveChan(m, c) && m.chanArr[c].cannOff >= mapSize ==>
      m.chanArr[c].cannOff in anns && anns[m.chanArr[c].cannOff].scid in Scids(mods)
  }

  /** m is m0 with mods laid over it. */
  ghost predicate Laid(m0: Map, m: Map, anns: map<nat, Ann>, mapSize: nat, mods: seq<LocalMod>) {
    && Overlay(m0, m, LocalChans(m, mapSize))
    && Patched(m0, m, anns, mods) && Covered(m, anns, mapSize, mods)
  }

  /** Every announcement used lies in the file. */
  ghost predicate InFile(m: Map, mapSize: nat) {
    forall x: nat :: LiveChan(m, x) ==> m.chanArr[x].cannOff < mapSize
  }

  lemma LaidStart(m: Map, anns: map<nat, Ann>, mapSize: nat)
    requires InFile(m, mapSize) && ValidMap(m, anns)
    ensures Laid(m, m, anns, mapSize, [])
  {
    OverlaySelf(m);
    assert LocalChans(m, mapSize) == {};
    hide Overlay;
    forall x: nat | LiveChan(m, x) ensures PatchedAt(m, m, anns, [], x) { assert ChanIndexed(m, anns, x); }
  }

  /** scid names no channel of m0. */
  ghost predicate NotBase(m0: Map, anns: map<nat, Ann>, s: Scid) {
    forall x: nat :: LiveChan(m0, x) && m0.chanArr[x].cannOff in anns ==> anns[m0.chanArr[x].cannOff].scid != s
  }

  lemma UnknownIsNotBase(m0: Map, m: Map, anns: map<nat, Ann>, d: set<nat>, s: Scid)
    requires ValidMap(m0, anns) && Overlay(m0, m, d)
    requires s in m.channels ==> !LiveChan(m0, m.channels[s])
    ensures NotBase(m0, anns, s)
  {
    hide Adjacent, NodesIndexed, ChansOver, NodesOver, IdsOver;
    forall x: nat | LiveChan(m0, x) && m0.chanArr[x].cannOff in anns ensures anns[m0.chanArr[x].cannOff].scid != s {
      assert ChanIndexed(m0, anns, x);
    }
  }

  /** A modification of no channel of m0. */
  lemma LaidSkip(m0: Map, m: Map, anns: map<nat, Ann>, mapSize: nat, mods: seq<LocalMod>, mod: LocalMod)
    requires Laid(m0, m, anns, mapSize, mods) && NotBase(m0, anns, mod.scid)
    ensures Laid(m0, m, anns, mapSize, mods + [mod])
  {
    hide Overlay;
    forall x: nat | LiveChan(m0, x) ensures PatchedAt(m0, m, anns, mods + [mod], x) {
      assert PatchedAt(m0, m, anns, mods, x);
      UndoneAppend(m.chanArr[x], anns[m0.chanArr[x].cannOff].scid, mods, mod);
    }
    ScidsAppend(mods, mod);
  }

  lemma ScidsAppend(mods: seq<LocalMod>, mod: LocalMod)
    ensures Scids(mods + [mod]) == Scids(mods) + {mod.scid}
  {
    forall s ensures s in Scids(mods + [mod]) <==> s in Scids(mods) + {mod.scid} {
      if s in Scids(mods) {
        var x :| x in mods && x.scid == s;
        assert x in mods + [mod];
      }
      assert mod in mods + [mod];
    }
  }

  /** A local channel for one of mods. */
  lemma LaidAdd(m0: Map, m: Map, m': Map, anns: map<nat, Ann>, mapSize: nat, mods: seq<LocalMod>, a: Ann, ch: Chan,
                c: nat)
    requires Laid(m0, m, anns, mapSize, mods) && ValidMap(m, anns) && Added(m, m', a, ch, c)
    requires a.scid !in m.channels && IdsOver(m, m') && a.scid in Scids(mods)
    requires ch.cannOff >= mapSize && ch.cannOff in anns && anns[ch.cannOff] == a
    ensures Laid(m0, m', anns, mapSize, mods)
  {
    hide Added, Overlay, ValidMap, Covered, Patched, LiveChan;
    AddedAt(m, m', a, ch, c);
    OverlayAdd(m0, m, m', anns, LocalChans(m, mapSize), a, ch, c);
    assert LocalChans(m', mapSize) == LocalChans(m, mapSize) + {c};
    LaidAddPatched(m0, m, m', anns, LocalChans(m, mapSize), mods, c);
    LaidAddCovered(m, m', anns, mapSize, mods, ch, c);
  }

  lemma LaidAddPatched(m0: Map, m: Map, m': Map, anns: map<nat, Ann>, d: set<nat>, mods: seq<LocalMod>, c: nat)
    requires Patched(m0, m, anns, mods) && Overlay(m0, m, d) && KeepsChans(m, m', c)
    ensures Patched(m0, m', anns, mods)
  {
    assert forall x: nat :: LiveChan(m0, x) ==> LiveChan(m, x);
    hide Overlay, LiveChan;
    forall x: nat | LiveChan(m0, x) ensures PatchedAt(m0, m', anns, mods, x) {
      assert PatchedAt(m0, m, anns, mods, x);
    }
  }

  lemma LaidAddCovered(m: Map, m': Map, anns: map<nat, Ann>, mapSize: nat, mods: seq<LocalMod>, ch: Chan, c: nat)
    requires Covered(m, anns, mapSize, mods) && KeepsChans(m, m', c)
    requires LiveChan(m', c) && m'.chanArr[c] == ch && ch.cannOff in anns && anns[ch.cannOff].scid in Scids(mods)
    ensures Covered(m', anns, mapSize, mods)
  {
  }

  /** m' has the channels of m in their slots and at most channel c besides. */
  ghost predicate KeepsChans(m: Map, m': Map, c: nat) {
    && (forall x: nat :: LiveChan(m, x) ==> x != c && LiveChan(m', x) && m'.chanArr[x] == m.chanArr[x])
    && (forall x: nat :: LiveChan(m', x) ==> x == c || LiveChan(m, x))
  }

  lemma AddedAt(m: Map, m': Map, a: Ann, ch: Chan, c: nat)
    requires Added(m, m', a, ch, c)
    ensures m'.channels == m.channels[a.scid := c]
    ensures KeepsChans(m, m', c) && LiveChan(m', c) && m'.chanArr[c] == ch
  {
    hide HasEnd, LiveNode;
  }

  /** Rewriting a local channel. */
  lemma LaidRewriteLocal(m0: Map, m: Map, anns: map<nat, Ann>, mapSize: nat, mods: seq<LocalMod>, c: nat, ch: Chan)
    requires Laid(m0, m, anns, mapSize, mods) && LiveChan(m, c) && SameShape(m.chanArr[c], ch)
    requires m.chanArr[c].cannOff >= mapSize
    ensures Laid(m0, m.(chanArr := m.chanArr[c := ch]), anns, mapSize, mods)
  {
    var m' := m.(chanArr := m.chanArr[c := ch]);
    OverlayRewrite(m0, m, LocalChans(m, mapSize), c, ch);
    assert !LiveChan(m0, c);
    hide Overlay;
    assert forall x: nat :: LiveChan(m', x) <==> LiveChan(m, x);
    assert LocalChans(m', mapSize) == LocalChans(m, mapSize);
    forall x: nat | LiveChan(m0, x) ensures PatchedAt(m0, m', anns, mods, x) {
      assert PatchedAt(m0, m, anns, mods, x);
    }
  }

  /** Overwriting a channel of m0. */
  lemma LaidOverwrite(m0: Map, m: Map, anns: map<nat, Ann>, mapSize: nat, mods: seq<LocalMod>, mod: LocalMod, c: nat)
    requires Laid(m0, m, anns, mapSize, mods) && mod.scid !in Scids(mods) && ValidMap(m0, anns)
    requires LiveChan(m0, c) && LiveChan(m, c) && m0.chanArr[c].cannOff in anns
    requires anns[m0.chanArr[c].cannOff].scid == mod.scid
    ensures var m' := m.(chanArr := m.chanArr[c := Overwritten(m.chanArr[c], mod)]);
      Laid(m0, m', anns, mapSize, mods + [Saved(m.chanArr[c], mod)])
  {
    var ch, saved := Overwritten(m.chanArr[c], mod), Saved(m.chanArr[c], mod);
    RestoreUndoes(m.chanArr[c], mod);
    var m' := m.(chanArr := m.chanArr[c := ch]);
    OverlayRewrite(m0, m, LocalChans(m, mapSize), c, ch);
    hide Overlay, Overwritten, Restored;
    assert forall x: nat :: LiveChan(m', x) <==> LiveChan(m, x);
    assert LocalChans(m', mapSize) == LocalChans(m, mapSize);
    forall x: nat | LiveChan(m0, x) ensures PatchedAt(m0, m', anns, mods + [saved], x) {
      assert PatchedAt(m0, m, anns, mods, x);
      var s := anns[m0.chanArr[x].cannOff].scid;
      UndoneAppend(m'.chanArr[x], s, mods, saved);
      if x == c {
        UndoneAbsent(m.chanArr[c], s, mods);
      } else {
        SameScidSameChan(m0, anns, x, c);
      }
    }
    ScidsAppend(mods, saved);
  }

  lemma SameScidSameChan(m: Map, anns: map<nat, Ann>, x: nat, y: nat)
    requires ValidMap(m, anns) && LiveChan(m, x) && LiveChan(m, y) && x != y
    ensures m.chanArr[x].cannOff in anns && m.chanArr[y].cannOff in anns
    ensures anns[m.chanArr[x].cannOff].scid != anns[m.chanArr[y].cannOff].scid
  {
    assert ChanIndexed(m, anns, x) && ChanIndexed(m, anns, y);
  }

  lemma ScidsTail(mods: seq<LocalMod>, s: Scid)
    requires mods != []
    ensures s in Scids(mods) <==> s == mods[0].scid || s in Scids(mods[1..])
    ensures DistinctScids(mods) ==> mods[0].scid !in Scids(mods[1..]) && DistinctScids(mods[1..])
  {
    assert mods == [mods[0]] + mods[1..];
    if s in Scids(mods) {
      var x :| x in mods && x.scid == s;
      assert x == mods[0] || x in mods[1..];
    }
    if s in Scids(mods[1..]) {
      var x :| x in mods[1..] && x.scid == s;
      assert x in mods;
    }
    if DistinctScids(mods) {
      forall x | x in mods[1..] ensures x.scid != mods[0].scid {
        var j :| 0 <= j < |mods[1..]| && mods[1..][j] == x;
        assert mods[j + 1] == x;
      }
    }
  }

  /** Taking a local channel off again. */
  lemma LaidRemove(m0: Map, m: Map, m': Map, anns: map<nat, Ann>, mapSize: nat, mods: seq<LocalMod>, a: Ann, c: nat)
    requires mods != [] && Laid(m0, m, anns, mapSize, mods) && ValidMap(m, anns) && ValidMap(m0, anns)
    requires Removed(m, m', a, c) && m.chanArr[c].cannOff >= mapSize && m.chanArr[c].cannOff in anns
    requires anns[m.chanArr[c].cannOff] == a && a.scid == mods[0].scid
    ensures Laid(m0, m', anns, mapSize, mods[1..])
  {
    hide Removed, Overlay, ValidMap, Covered, Patched, LiveChan;
    var d := LocalChans(m, mapSize);
    RemovedAt(m, m', a, c);
    assert c in d;
    OverlayRemove(m0, m, m', anns, d, a, c);
    assert LocalChans(m', mapSize) == d - {c};
    LaidRemovePatched(m0, m, m', anns, d, mods, a, c);
    LaidRemoveCovered(m, m', anns, mapSize, mods, a, c);
  }

  lemma LaidRemovePatched(m0: Map, m: Map, m': Map, anns: map<nat, Ann>, d: set<nat>, mods: seq<LocalMod>, a: Ann,
                          c: nat)
    requires mods != [] && Patched(m0, m, anns, mods) && Overlay(m0, m, d) && ValidMap(m, anns) && ValidMap(m0, anns)
    requires Removed(m, m', a, c) && c in d && m.chanArr[c].cannOff in anns
    requires anns[m.chanArr[c].cannOff] == a && a.scid == mods[0].scid
    ensures Patched(m0, m', anns, mods[1..])
  {
    hide Overlay, Removed, ValidMap;
    FurtherIsNotBase(m0, m, d, c);
    RemovedScid(m, m', anns, a, c);
    RemovedAt(m, m', a, c);
    UnknownIsNotBase(m0, m, anns, d, a.scid);
    forall x: nat | LiveChan(m0, x) ensures PatchedAt(m0, m', anns, mods[1..], x) {
      assert PatchedAt(m0, m, anns, mods, x);
    }
  }

  lemma RemovedAt(m: Map, m': Map, a: Ann, c: nat)
    requires Removed(m, m', a, c)
    ensures |m'.chanArr| == |m.chanArr| && LiveChan(m, c) && !LiveChan(m', c)
    ensures forall x: nat :: x != c && x < |m.chanArr| ==> m'.chanArr[x] == m.chanArr[x]
    ensures forall x: nat :: LiveChan(m', x) <==> LiveChan(m, x) && x != c
  {
  }

  lemma LaidRemoveCovered(m: Map, m': Map, anns: map<nat, Ann>, mapSize: nat, mods: seq<LocalMod>, a: Ann, c: nat)
    requires mods != [] && Covered(m, anns, mapSize, mods) && ValidMap(m, anns) && a.scid == mods[0].scid
    requires |m'.chanArr| == |m.chanArr| && LiveChan(m, c) && m.chanArr[c].cannOff in anns
    requires anns[m.chanArr[c].cannOff] == a
    requires forall x: nat :: x != c && x < |m.chanArr| ==> m'.chanArr[x] == m.chanArr[x]
    requires forall x: nat :: LiveChan(m', x) <==> LiveChan(m, x) && x != c
    ensures Covered(m', anns, mapSize, mods[1..])
  {
    hide ValidMap;
    forall x: nat | LiveChan(m', x) && m'.chanArr[x].cannOff >= mapSize
      ensures m'.chanArr[x].cannOff in anns && anns[m'.chanArr[x].cannOff].scid in Scids(mods[1..])
    {
      SameScidSameChan(m, anns, x, c);
      ScidsTail(mods, anns[m.chanArr[x].cannOff].scid);
    }
  }

  /** Restoring a channel of m0. */
  lemma LaidRestore(m0: Map, m: Map, anns: map<nat, Ann>, mapSize: nat, mods: seq<LocalMod>, c: nat)
    requires mods != [] && DistinctScids(mods) && Laid(m0, m, anns, mapSize, mods) && ValidMap(m, anns)
    requires ValidMap(m0, anns)
    requires LiveChan(m, c) && m.chanArr[c].cannOff < mapSize
    requires m.chanArr[c].cannOff in anns && anns[m.chanArr[c].cannOff].scid == mods[0].scid
    ensures Laid(m0, m.(chanArr := m.chanArr[c := Restored(m.chanArr[c], mods[0])]), anns, mapSize, mods[1..])
  {
    hide ValidMap, Restored, Covered, Patched, Overlay, SameShape;
    var ch, d := Restored(m.chanArr[c], mods[0]), LocalChans(m, mapSize);
    RestoreKeepsShape(m.chanArr[c], mods[0]);
    OverlayRewrite(m0, m, d, c, ch);
    LocalsRewritten(m, mapSize, c, ch);
    BaseChan(m0, m, d, c);
    LaidRestorePatched(m0, m, anns, mods, c, ch);
    LaidRestoreCovered(m, anns, mapSize, mods, c, ch);
  }

  lemma BaseChan(m0: Map, m: Map, d: set<nat>, c: nat)
    requires Overlay(m0, m, d) && LiveChan(m, c) && c !in d
    ensures LiveChan(m0, c) && m0.chanArr[c].cannOff == m.chanArr[c].cannOff
  {
  }

  lemma FurtherIsNotBase(m0: Map, m: Map, d: set<nat>, c: nat)
    requires Overlay(m0, m, d) && c in d
    ensures !LiveChan(m0, c)
  {
  }

  lemma RestoreKeepsShape(ch: Chan, mod: LocalMod)
    ensures SameShape(ch, Restored(ch, mod))
  {
  }

  lemma LocalsRewritten(m: Map, mapSize: nat, c: nat, ch: Chan)
    requires LiveChan(m, c) && SameShape(m.chanArr[c], ch)
    ensures LocalChans(m.(chanArr := m.chanArr[c := ch]), mapSize) == LocalChans(m, mapSize)
  {
    var m' := m.(chanArr := m.chanArr[c := ch]);
    assert forall x: nat :: LiveChan(m', x) <==> LiveChan(m, x);
  }

  lemma LaidRestorePatched(m0: Map, m: Map, anns: map<nat, Ann>, mods: seq<LocalMod>, c: nat, ch: Chan)
    requires mods != [] && DistinctScids(mods) && Patched(m0, m, anns, mods) && ValidMap(m0, anns)
    requires LiveChan(m0, c) && LiveChan(m, c) && m0.chanArr[c].cannOff == m.chanArr[c].cannOff
    requires m.chanArr[c].cannOff in anns && anns[m.chanArr[c].cannOff].scid == mods[0].scid
    requires ch == Restored(m.chanArr[c], mods[0])
    ensures Patched(m0, m.(chanArr := m.chanArr[c := ch]), anns, mods[1..])
  {
    hide ValidMap, Restored, PatchedAt;
    forall x: nat | LiveChan(m0, x) ensures PatchedAt(m0, m.(chanArr := m.chanArr[c := ch]), anns, mods[1..], x) {
      LaidRestoreAt(m0, m, anns, mods, c, ch, x);
    }
  }

  lemma LaidRestoreCovered(m: Map, anns: map<nat, Ann>, mapSize: nat, mods: seq<LocalMod>, c: nat, ch: Chan)
    requires mods != [] && Covered(m, anns, mapSize, mods) && ValidMap(m, anns)
    requires LiveChan(m, c) && m.chanArr[c].cannOff < mapSize && SameShape(m.chanArr[c], ch)
    requires m.chanArr[c].cannOff in anns && anns[m.chanArr[c].cannOff].scid == mods[0].scid
    ensures Covered(m.(chanArr := m.chanArr[c := ch]), anns, mapSize, mods[1..])
  {
    hide ValidMap;
    var m' := m.(chanArr := m.chanArr[c := ch]);
    forall x: nat | LiveChan(m', x) && m'.chanArr[x].cannOff >= mapSize
      ensures m'.chanArr[x].cannOff in anns && anns[m'.chanArr[x].cannOff].scid in Scids(mods[1..])
    {
      SameScidSameChan(m, anns, x, c);
      ScidsTail(mods, anns[m.chanArr[x].cannOff].scid);
    }
  }

  lemma LaidRestoreAt(m0: Map, m: Map, anns: map<nat, Ann>, mods: seq<LocalMod>, c: nat, ch: Chan, x: nat)
    requires mods != [] && DistinctScids(mods) && Patched(m0, m, anns, mods) && ValidMap(m0, anns)
    requires LiveChan(m0, c) && LiveChan(m, c) && m0.chanArr[c].cannOff == m.chanArr[c].cannOff
    requires m.chanArr[c].cannOff in anns && anns[m.chanArr[c].cannOff].scid == mods[0].scid
    requires ch == Restored(m.chanArr[c], mods[0]) && LiveChan(m0, x)
    ensures PatchedAt(m0, m.(chanArr := m.chanArr[c := ch]), anns, mods[1..], x)
  {
    hide Restored, ValidMap;
    assert PatchedAt(m0, m, anns, mods, x);
    ScidsTail(mods, mods[0].scid);
    if x == c {
      UndoneAbsent(ch, mods[0].scid, mods[1..]);
    } else {
      SameScidSameChan(m0, anns, x, c);
    }
  }

  /** Nothing left to undo: the graph is the one before. */
  lemma LaidEnd(m0: Map, m: Map, anns: map<nat, Ann>, mapSize: nat)
    requires Laid(m0, m, anns, mapSize, []) && ValidMap(m, anns) && ValidMap(m0, anns)
    ensures SameGraph(m0, m) && InFile(m, mapSize)
  {
    assert Scids([]) == {};
    assert LocalChans(m, mapSize) == {};
    OverlaidIndexes(m0, m, anns);
    OverlaidNodes(m0, m);
    hide ValidMap, NodesOver;
    assert forall x: nat :: LiveChan(m, x) <==> LiveChan(m0, x);
    forall x: nat | LiveChan(m, x) ensures m.chanArr[x] == m0.chanArr[x] {
      assert PatchedAt(m0, m, anns, [], x);
    }
  }

  // ---- The methods ----

  /** A modification with a channel of its own has an announcement for it. */
  predicate AnnFor(local: map<nat, Ann>, mod: LocalMod) {
    mod.localOff != NO_OFF ==>
      mod.localOff in local && local[mod.localOff].scid == mod.scid && local[mod.localOff].plusScidOff != 0
      && local[mod.localOff].id1 != local[mod.localOff].id2
  }

  ghost predicate ModsOk(mods: seq<LocalMod>, local: map<nat, Ann>) {
    && DistinctScids(mods)
    && forall i :: 0 <= i < |mods| ==> ModInRange(mods[i]) && AnnFor(local, mods[i])
  }

  /** The announcements of local once the map reads them after its file. */
  function Shifted(local: map<nat, Ann>, size: nat): (r: map<nat, Ann>)
    ensures forall off: nat :: off in r <==> off >= size && off - size in local
    ensures forall off :: off in r ==> r[off] == local[off - size]
  {
    var offs := set k | k in local :: k + size;
    map off | off in offs :: local[off - size]
  }

  /** find_localmod. */
  method FindLocalmod(mods: seq<LocalMod>, scid: Scid) returns (i: nat)
    ensures i <= |mods| && (i < |mods| ==> mods[i].scid == scid)
    ensures i == |mods| <==> scid !in Scids(mods)
  {
    i := 0;
    while i < |mods|
      invariant i <= |mods| && forall j :: 0 <= j < i ==> mods[j].scid != scid
    {
      if mods[i].scid == scid {
        assert mods[i] in mods;
        return;
      }
      i := i + 1;
    }
  }

  lemma AppendKeepsMods(mods: seq<LocalMod>, local: map<nat, Ann>, local': map<nat, Ann>, mod: LocalMod)
    requires ModsOk(mods, local) && mod.scid !in Scids(mods) && ModInRange(mod) && AnnFor(local', mod)
    requires forall k :: k in local ==> k in local' && local'[k] == local[k]
    ensures ModsOk(mods + [mod], local')
  {
    forall i | 0 <= i < |mods| ensures mods[i].scid != mod.scid { assert mods[i] in mods; }
  }

  /** after is before, with a modification for scid if there was none, asking for half hc and
      otherwise unchanged. */
  ghost predicate Requested(before: seq<LocalMod>, after: seq<LocalMod>, scid: Scid, dir: bool, hc: HalfChan) {
    var known := if scid in Scids(before) then before else before + [LocalMod(scid, NO_OFF, NO_MOD, NO_MOD)];
    Asked(known, after, scid, dir, hc)
  }

  ghost predicate Asked(base: seq<LocalMod>, after: seq<LocalMod>, scid: Scid, dir: bool, hc: HalfChan) {
    exists j :: 0 <= j < |base| && base[j].scid == scid && AskedAt(base, after, j, dir, hc)
  }

  /** Only modification j changes, and of it only what it asks of half dir. */
  ghost predicate AskedAt(base: seq<LocalMod>, after: seq<LocalMod>, j: nat, dir: bool, hc: HalfChan)
    requires j < |base|
  {
    && |after| == |base| && (forall k :: 0 <= k < |base| && k != j ==> after[k] == base[k])
    && after[j].scid == base[j].scid && after[j].localOff == base[j].localOff
    && after[j].Dir(!dir) == base[j].Dir(!dir)
    && var d, was := after[j].Dir(dir), base[j].Dir(dir);
    d.isSet && d.hc == hc && d.orig == was.orig && d.origOff == was.origOff
  }

  function Asking(mod: LocalMod, dir: bool, hc: HalfChan): LocalMod {
    mod.SetDir(dir, mod.Dir(dir).(isSet := true, hc := hc))
  }

  class Localmods {
    var mods: seq<LocalMod>
    /** The local announcements by offset, all below localLen. */
    var local: map<nat, Ann>
    var localLen: nat

    ghost predicate Valid()
      reads this
    {
      ModsOk(mods, local) && forall k :: k in local ==> k < localLen
    }

    constructor ()
      ensures Valid() && mods == []
    {
      mods, local, localLen := [], map[], 0;
    }

    /** gossmap_local_addchan: false, and nothing done, for an scid already named. */
    method AddChan(n1: NodeId, n2: NodeId, scid: Scid, featureLen: nat) returns (ok: bool)
      requires Valid() && n1 != n2 && localLen < NO_OFF
      modifies this
      ensures Valid() && ok == (scid !in Scids(old(mods)))
      ensures !ok ==> mods == old(mods) && local == old(local) && localLen == old(localLen)
      ensures ok ==> mods == old(mods) + [LocalMod(scid, old(localLen), NO_MOD, NO_MOD)]
      ensures ok ==> local == old(local)[old(localLen) := Ann(scid, n1, n2, 2 + 64 * 4 + 2 + featureLen + 32)]
    {
      var i := FindLocalmod(mods, scid);
      if i < |mods| { return false; }
      var off := localLen;
      var mod := LocalMod(scid, off, NO_MOD, NO_MOD);
      var ann := Ann(scid, n1, n2, 2 + 64 * 4 + 2 + featureLen + 32);
      AppendKeepsMods(mods, local, local[off := ann], mod);
      localLen := localLen + (2 + 64 * 4 + 2 + featureLen + 32 + 8 + 33 + 33);
      local := local[off := ann];
      mods := mods + [mod];
      return true;
    }

    /** gossmap_local_updatechan: remembers the update, cut down to the bit-fields, and tells
        whether it fitted. */
    method UpdateChan(scid: Scid, htlcMin: nat, htlcMax: nat, baseFee: nat, propFee: nat, delay: nat,
                      enabled: bool, dir: bool) returns (fits: bool)
      requires Valid() && htlcMin <= U64_MAX && htlcMax <= U64_MAX
      requires baseFee <= U32_MAX && propFee <= U32_MAX && delay <= 0xFFFF
      modifies this`mods
      ensures Valid() && fits == (baseFee < 0x100_0000 && propFee < 0x10_0000)
      ensures Scids(mods) == Scids(old(mods)) + {scid}
      ensures Requested(old(mods), mods, scid, dir,
                        HalfChan(enabled, 0, Fp16.FromU64(htlcMin, false), Fp16.FromU64(htlcMax, true),
                                 baseFee % 0x100_0000, propFee % 0x10_0000, delay))
    {
      hide Fp16.FromU64;
      var i := FindLocalmod(mods, scid);
      ghost var was := mods;
      if i == |mods| {
        var mod := LocalMod(scid, NO_OFF, NO_MOD, NO_MOD);
        AppendKeepsMods(mods, local, local, mod);
        ScidsAppend(mods, mod);
        mods := mods + [mod];
      } else {
        assert mods[i] in mods;
        assert Scids(mods) + {scid} == Scids(mods);
      }
      var hc := HalfChan(enabled, 0, Fp16.FromU64(htlcMin, false), Fp16.FromU64(htlcMax, true),
                         baseFee % 0x100_0000, propFee % 0x10_0000, delay);
      ghost var m1 := mods;
      mods := mods[i := Asking(mods[i], dir, hc)];
      ScidsKept(m1, mods);
      fits := baseFee < 0x100_0000 && propFee < 0x10_0000;
      assert m1 == if scid in Scids(was) then was else was + [LocalMod(scid, NO_OFF, NO_MOD, NO_MOD)];
      assert m1[i].scid == scid && AskedAt(m1, mods, i, dir, hc);
      assert Asked(m1, mods, scid, dir, hc);
    }
  }

  lemma ScidsKept(a: seq<LocalMod>, b: seq<LocalMod>)
    requires |a| == |b| && forall i :: 0 <= i < |a| ==> a[i].scid == b[i].scid
    ensures Scids(a) == Scids(b)
  {
    forall s ensures s in Scids(a) <==> s in Scids(b) {
      if s in Scids(a) {
        var x :| x in a && x.scid == s;
        var i :| 0 <= i < |a| && a[i] == x;
        assert b[i] in b;
      }
      if s in Scids(b) {
        var x :| x in b && x.scid == s;
        var i :| 0 <= i < |b| && b[i] == x;
        assert a[i] in a;
      }
    }
  }

  // ---- Applying and removing ----

  /** Other announcements for the same channels leave the graph valid. */
  lemma AnnsChanged(m: Map, anns: map<nat, Ann>, anns': map<nat, Ann>)
    requires ValidMap(m, anns)
    requires forall x: nat :: LiveChan(m, x) && m.chanArr[x].cannOff in anns ==>
      m.chanArr[x].cannOff in anns' && anns'[m.chanArr[x].cannOff] == anns[m.chanArr[x].cannOff]
    ensures ValidMap(m, anns')
  {
    hide Adjacent, NodesIndexed;
    forall x: nat | LiveChan(m, x) ensures ChanIndexed(m, anns', x) { assert ChanIndexed(m, anns, x); }
    forall s | s in m.channels ensures ScidIndexed(m, anns', s) { assert ScidIndexed(m, anns, s); }
  }

  /** The file's announcements lie below its size. */
  ghost predicate FileOk(g: Gossmap) {
    forall k :: k in g.store ==> k < g.mapSize
  }

  lemma StoreOnly(m: Map, store: map<nat, Ann>, mapSize: nat)
    requires ValidMap(m, store) && forall k :: k in store ==> k < mapSize
    ensures InFile(m, mapSize)
  {
    forall x: nat | LiveChan(m, x) ensures m.chanArr[x].cannOff < mapSize { assert ChanIndexed(m, store, x); }
  }

  /** mods with the same names, local offsets and updates; what was saved may differ. */
  ghost predicate SameRequests(a: seq<LocalMod>, b: seq<LocalMod>) {
    |a| == |b| && forall i :: 0 <= i < |a| ==> SameRequest(a[i], b[i])
  }

  ghost predicate SameRequest(a: LocalMod, b: LocalMod) {
    && a.scid == b.scid && a.localOff == b.localOff
    && a.dir0.isSet == b.dir0.isSet && a.dir1.isSet == b.dir1.isSet && a.dir0.hc == b.dir0.hc && a.dir1.hc == b.dir1.hc
  }

  lemma SavedKeepsMods(mods: seq<LocalMod>, local: map<nat, Ann>, i: nat, ch: Chan)
    requires ModsOk(mods, local) && i < |mods| && HalfInRange(ch.half0) && HalfInRange(ch.half1)
    ensures ModsOk(mods[i := Saved(ch, mods[i])], local) && SameRequest(mods[i], Saved(ch, mods[i]))
    ensures mods[i := Saved(ch, mods[i])][..i + 1] == mods[..i] + [Saved(ch, mods[i])]
  {
    RangesKept(ch, mods[i]);
    hide HalfInRange;
  }

  /** Save the original halves, overwrite them, keep the nodes. */
  method Overwrite(g: Gossmap, lm: Localmods, i: nat, c: nat)
    requires g.Valid() && LiveChan(g.M(), c) && lm.Valid() && i < |lm.mods|
    modifies g`chanArr, lm`mods
    ensures g.Valid() && lm.Valid()
    ensures g.chanArr == old(g.chanArr)[c := Overwritten(old(g.chanArr)[c], old(lm.mods)[i])]
    ensures lm.mods == old(lm.mods)[i := Saved(old(g.chanArr)[c], old(lm.mods)[i])]
    ensures SameRequest(old(lm.mods)[i], lm.mods[i]) && lm.mods[..i + 1] == old(lm.mods)[..i] + [lm.mods[i]]
    ensures SameShape(old(g.chanArr)[c], g.chanArr[c]) && lm.mods[i].scid == old(lm.mods)[i].scid
  {
    hide ValidMap, NodesOk, ChansOk, Saved, Overwritten, Restored, HalfInRange, ModsOk, SameShape;
    var mod, ch := lm.mods[i], g.chanArr[c];
    LiveRanges(g.M(), g.Anns(), c);
    ModRange(lm.mods, lm.local, i);
    RestoreUndoes(ch, mod);
    RangesKept(ch, mod);
    SavedKeepsMods(lm.mods, lm.local, i, ch);
    lm.mods := lm.mods[i := Saved(ch, mod)];
    g.RewriteHalves(c, Overwritten(ch, mod));
  }

  lemma LiveRanges(m: Map, anns: map<nat, Ann>, c: nat)
    requires ValidMap(m, anns) && LiveChan(m, c)
    ensures HalfInRange(m.chanArr[c].half0) && HalfInRange(m.chanArr[c].half1)
  {
    assert ChanOk(m.chanArr[c], |m.nodeArr|);
  }

  lemma ModRange(mods: seq<LocalMod>, local: map<nat, Ann>, i: nat)
    requires ModsOk(mods, local) && i < |mods|
    ensures ModInRange(mods[i]) && AnnFor(local, mods[i]) && mods[i].scid !in Scids(mods[..i])
    ensures DistinctScids(mods[i..])
  {
    forall x | x in mods[..i] ensures x.scid != mods[i].scid {
      var j :| 0 <= j < i && mods[j] == x;
    }
  }

  /** A known scid not named before belongs to a channel of m0. */
  lemma KnownIsBase(m0: Map, m: Map, anns: map<nat, Ann>, mapSize: nat, mods: seq<LocalMod>, s: Scid)
    requires Laid(m0, m, anns, mapSize, mods) && ValidMap(m, anns) && s in m.channels && s !in Scids(mods)
    ensures LiveChan(m, m.channels[s]) && LiveChan(m0, m.channels[s]) && m.chanArr[m.channels[s]].cannOff < mapSize
    ensures m0.chanArr[m.channels[s]].cannOff in anns && anns[m0.chanArr[m.channels[s]].cannOff].scid == s
  {
    hide Patched, Overlay;
    ScidFacts(m, anns, s);
    hide ValidMap;
    var c := m.channels[s];
    assert c !in LocalChans(m, mapSize);
    BaseChan(m0, m, LocalChans(m, mapSize), c);
  }

  /** A modification with its own channel, which the map does not know. */
  method ApplyNew(g: Gossmap, lm: Localmods, i: nat, ghost m0: Map)
    requires g.Valid() && lm.Valid() && i < |lm.mods| && ValidMap(m0, g.Anns())
    requires g.local == Shifted(lm.local, g.mapSize) && FileOk(g)
    requires Laid(m0, g.M(), g.Anns(), g.mapSize, lm.mods[..i])
    requires lm.mods[i].scid !in g.channels && lm.mods[i].localOff != NO_OFF
    requires 2 * (|g.nodes| + 1) <= ARENA_MAX && 2 * |g.channels| <= ARENA_MAX
    modifies g`nodes, g`channels, g`nodeArr, g`chanArr, g`freedNodes, g`freedChans, g`freeNodes, g`freeChans, lm`mods
    ensures g.Valid() && lm.Valid()
    ensures |lm.mods| == |old(lm.mods)| && lm.mods == old(lm.mods)[i := lm.mods[i]]
    ensures SameRequest(old(lm.mods)[i], lm.mods[i])
    ensures lm.mods[i].scid == old(lm.mods)[i].scid && Laid(m0, g.M(), g.Anns(), g.mapSize, lm.mods[..i + 1])
    ensures g.channels.Keys == old(g.channels.Keys) + {old(lm.mods)[i].scid}
    ensures InForce(g.M(), g.mapSize, lm.mods[i]) && OthersKept(old(g.M()), g.M(), old(lm.mods)[i].scid)
    ensures |g.nodes| <= |old(g.nodes)| + 2 && |g.channels| <= |old(g.channels)| + 1
  {
    hide ValidMap, NodesOk, ChansOk, ModsOk, Laid, Overwritten, Saved, Added, IdsOver, SameShape, ModInRange, NotBase,
         SameRequest, LiveChan, Shifted, FileOk, AnnFor, Shows, OthersKept;
    ghost var m, anns := g.M(), g.Anns();
    ModRange(lm.mods, lm.local, i);
    var mod := lm.mods[i];
    var off := g.mapSize + mod.localOff;
    LocalAnn(anns, g.store, lm.local, g.mapSize, mod, off);
    var c := g.AddChannel(off, true);
    ghost var m1, ch := g.M(), g.chanArr[c];
    AddedIsThere(m, m1, anns[off], ch, c);
    Overwrite(g, lm, i, c);
    NewIsLaid(m0, m, m1, anns, g.mapSize, old(lm.mods)[..i], lm.mods[i], anns[off], ch, c, g.chanArr[c]);
    AddKeepsOthers(m, m1, anns, anns[off], ch, c, g.chanArr[c]);
    OverwrittenShows(ch, mod);
    OverwrittenBrought(ch, g.mapSize, mod);
  }

  /** The announcement a local channel is read from. */
  lemma LocalAnn(anns: map<nat, Ann>, store: map<nat, Ann>, local: map<nat, Ann>, mapSize: nat, mod: LocalMod, off: nat)
    requires AnnFor(local, mod) && mod.localOff != NO_OFF
    requires off == mapSize + mod.localOff && anns == store + Shifted(local, mapSize)
    ensures off in anns && anns[off].scid == mod.scid && anns[off].plusScidOff != 0 && anns[off].id1 != anns[off].id2
  {
  }

  lemma AddedIsThere(m: Map, m': Map, a: Ann, ch: Chan, c: nat)
    requires Added(m, m', a, ch, c)
    ensures LiveChan(m', c) && m'.channels.Keys == m.channels.Keys + {a.scid}
    ensures |m'.nodes| <= |m.nodes| + 2 && |m'.channels| <= |m.channels| + 1
  {
    AddedSizes(m, m', a, ch, c);
  }

  lemma NewIsLaid(m0: Map, m: Map, m1: Map, anns: map<nat, Ann>, mapSize: nat, mods: seq<LocalMod>, saved: LocalMod,
                  a: Ann, ch: Chan, c: nat, ch': Chan)
    requires Laid(m0, m, anns, mapSize, mods) && ValidMap(m0, anns) && ValidMap(m, anns) && Added(m, m1, a, ch, c)
    requires IdsOver(m, m1) && a.scid !in m.channels && a.scid == saved.scid
    requires ch.cannOff >= mapSize && ch.cannOff in anns && anns[ch.cannOff] == a && c < |m1.chanArr|
    requires m1.chanArr[c] == ch
    requires SameShape(ch, ch')
    ensures Laid(m0, m1.(chanArr := m1.chanArr[c := ch']), anns, mapSize, mods + [saved])
  {
    hide Added, ValidMap, IdsOver, SameShape, Overlay, Patched, Covered, NotBase;
    UnknownIsNotBase(m0, m, anns, LocalChans(m, mapSize), a.scid);
    LaidSkip(m0, m, anns, mapSize, mods, saved);
    ScidsAppend(mods, saved);
    hide Laid;
    AddedIsThere(m, m1, a, ch, c);
    LaidAdd(m0, m, m1, anns, mapSize, mods + [saved], a, ch, c);
    LaidRewriteLocal(m0, m1, anns, mapSize, mods + [saved], c, ch');
  }

  lemma SkippedIsLaid(m0: Map, m: Map, anns: map<nat, Ann>, mapSize: nat, mods: seq<LocalMod>, i: nat)
    requires i < |mods| && Laid(m0, m, anns, mapSize, mods[..i]) && ValidMap(m0, anns)
    requires mods[i].scid !in m.channels
    ensures Laid(m0, m, anns, mapSize, mods[..i + 1]) && mods == mods[i := mods[i]] && SameRequest(mods[i], mods[i])
  {
    hide ValidMap, Overlay, Patched, Covered, NotBase;
    UnknownIsNotBase(m0, m, anns, LocalChans(m, mapSize), mods[i].scid);
    LaidSkip(m0, m, anns, mapSize, mods[..i], mods[i]);
    assert mods[..i + 1] == mods[..i] + [mods[i]];
  }

  /** The updates of mod are what its channel shows. */
  ghost predicate Shows(ch: Chan, mod: LocalMod) {
    forall dir: bool :: mod.Dir(dir).isSet ==>
      ch.Half(dir) == mod.Dir(dir).hc.(nodeidx := ch.Half(dir).nodeidx) && ch.CupdateOff(dir) == NO_OFF
  }

  /** A channel that is not in the file is the private one that mod brings along, and a half that mod
      does not update has no update at all. */
  ghost predicate BroughtBy(ch: Chan, mapSize: nat, mod: LocalMod) {
    ch.cannOff >= mapSize ==>
      && ch.isPrivate && ch.cannOff == mapSize + mod.localOff
      && forall dir: bool :: !mod.Dir(dir).isSet ==>
           ch.CupdateOff(dir) == 0 && ch.Half(dir) == HalfChan(false, ch.Half(dir).nodeidx, 0, 0, 0, 0, 0)
  }

  ghost predicate InForce(m: Map, mapSize: nat, mod: LocalMod) {
    mod.scid in m.channels ==>
      && m.channels[mod.scid] < |m.chanArr|
      && Shows(m.chanArr[m.channels[mod.scid]], mod) && BroughtBy(m.chanArr[m.channels[mod.scid]], mapSize, mod)
  }

  lemma OverwrittenShows(ch: Chan, mod: LocalMod)
    ensures Shows(Overwritten(ch, mod), Saved(ch, mod))
  {
  }

  /** As add_channel leaves a channel's half. */
  predicate NoUpdate(ch: Chan, dir: bool) {
    ch.CupdateOff(dir) == 0 && ch.Half(dir) == NO_HALF.(nodeidx := ch.Half(dir).nodeidx)
  }

  lemma OverwrittenBrought(ch: Chan, mapSize: nat, mod: LocalMod)
    requires ch.cannOff < mapSize
      || (ch.isPrivate && ch.cannOff == mapSize + mod.localOff && NoUpdate(ch, false) && NoUpdate(ch, true))
    ensures BroughtBy(Overwritten(ch, mod), mapSize, Saved(ch, mod))
  {
    if ch.cannOff >= mapSize {
      forall dir: bool | !mod.Dir(dir).isSet ensures NoUpdate(Overwritten(ch, mod), dir) {
        assert NoUpdate(ch, dir);
      }
    }
  }

  /** Every channel but that of scid keeps its place and record. */
  ghost predicate OthersKept(m: Map, m': Map, scid: Scid) {
    forall s :: s in m.channels && s != scid ==>
      && s in m'.channels && m'.channels[s] == m.channels[s]
      && m.channels[s] < |m.chanArr| && m.channels[s] < |m'.chanArr|
      && m'.chanArr[m.channels[s]] == m.chanArr[m.channels[s]]
  }

  lemma RewriteKeepsOthers(m: Map, anns: map<nat, Ann>, scid: Scid, ch: Chan)
    requires ValidMap(m, anns) && scid in m.channels && m.channels[scid] < |m.chanArr|
    ensures OthersKept(m, m.(chanArr := m.chanArr[m.channels[scid] := ch]), scid)
  {
    hide Adjacent, NodesIndexed, ChanIndexed;
    forall s | s in m.channels && s != scid ensures m.channels[s] != m.channels[scid] && m.channels[s] < |m.chanArr| {
      assert ScidIndexed(m, anns, s) && ScidIndexed(m, anns, scid);
    }
  }

  lemma AddKeepsOthers(m: Map, m1: Map, anns: map<nat, Ann>, a: Ann, ch: Chan, c: nat, ch': Chan)
    requires ValidMap(m, anns) && Added(m, m1, a, ch, c) && a.scid !in m.channels && c < |m1.chanArr|
    ensures OthersKept(m, m1.(chanArr := m1.chanArr[c := ch']), a.scid)
    ensures a.scid in m1.channels && m1.channels[a.scid] == c
  {
    hide ValidMap, Added;
    forall s | s in m.channels ensures LiveChan(m, m.channels[s]) { ScidFacts(m, anns, s); }
    AddedAt(m, m1, a, ch, c);
  }

  lemma NothingChanged(m: Map, anns: map<nat, Ann>, scid: Scid)
    requires ValidMap(m, anns)
    ensures OthersKept(m, m, scid)
  {
    forall s | s in m.channels ensures m.channels[s] < |m.chanArr| { ScidFacts(m, anns, s); }
  }

  lemma StillInForce(m: Map, m': Map, mapSize: nat, scid: Scid, mod: LocalMod)
    requires InForce(m, mapSize, mod) && mod.scid != scid && OthersKept(m, m', scid)
    requires mod.scid in m'.channels ==> mod.scid in m.channels
    ensures InForce(m', mapSize, mod)
  {
  }

  /** One round of gossmap_apply_localmods. */
  method ApplyOne(g: Gossmap, lm: Localmods, i: nat, ghost m0: Map)
    requires g.Valid() && lm.Valid() && i < |lm.mods| && ValidMap(m0, g.Anns())
    requires g.local == Shifted(lm.local, g.mapSize) && FileOk(g)
    requires Laid(m0, g.M(), g.Anns(), g.mapSize, lm.mods[..i])
    requires 2 * (|g.nodes| + 1) <= ARENA_MAX && 2 * |g.channels| <= ARENA_MAX
    modifies g`nodes, g`channels, g`nodeArr, g`chanArr, g`freedNodes, g`freedChans, g`freeNodes, g`freeChans, lm`mods
    ensures g.Valid() && lm.Valid()
    ensures |lm.mods| == |old(lm.mods)| && lm.mods == old(lm.mods)[i := lm.mods[i]]
    ensures SameRequest(old(lm.mods)[i], lm.mods[i])
    ensures lm.mods[i].scid == old(lm.mods)[i].scid && Laid(m0, g.M(), g.Anns(), g.mapSize, lm.mods[..i + 1])
    ensures g.channels.Keys ==
      old(g.channels.Keys) + if old(lm.mods)[i].localOff != NO_OFF then {old(lm.mods)[i].scid} else {}
    ensures InForce(g.M(), g.mapSize, lm.mods[i]) && OthersKept(old(g.M()), g.M(), old(lm.mods)[i].scid)
    ensures |g.nodes| <= |old(g.nodes)| + 2 && |g.channels| <= |old(g.channels)| + 1
  {
    hide ValidMap, NodesOk, ChansOk, ModsOk, Laid, Overwritten, Saved, SameRequest, ModInRange, AnnFor, FileOk, Shows,
         OthersKept;
    ghost var m, anns := g.M(), g.Anns();
    var mod := lm.mods[i];
    if mod.scid in g.channels {
      ModRange(lm.mods, lm.local, i);
      KnownIsBase(m0, m, anns, g.mapSize, lm.mods[..i], mod.scid);
      LaidOverwrite(m0, m, anns, g.mapSize, lm.mods[..i], mod, g.channels[mod.scid]);
      OverwrittenShows(g.chanArr[g.channels[mod.scid]], mod);
      OverwrittenBrought(g.chanArr[g.channels[mod.scid]], g.mapSize, mod);
      RewriteKeepsOthers(m, anns, mod.scid, Overwritten(g.chanArr[g.channels[mod.scid]], mod));
      Overwrite(g, lm, i, g.channels[mod.scid]);
    } else if mod.localOff == NO_OFF {
      SkippedIsLaid(m0, m, anns, g.mapSize, lm.mods, i);
      NothingChanged(m, anns, mod.scid);
    } else {
      ApplyNew(g, lm, i, m0);
    }
  }

  /** gossmap_apply_localmods.  A modification's channel is known afterwards exactly when it was
      known before or the modification brings it. */
  method Apply(g: Gossmap, lm: Localmods)
    requires g.Valid() && lm.Valid() && g.local == map[] && FileOk(g)
    requires 2 * (|g.nodes| + 2 * |lm.mods|) <= ARENA_MAX && 2 * (|g.channels| + |lm.mods|) <= ARENA_MAX
    modifies g, lm`mods
    ensures g.Valid() && lm.Valid() && g.local == Shifted(lm.local, g.mapSize)
    ensures SameRequests(old(lm.mods), lm.mods)
    ensures Laid(old(g.M()), g.M(), g.Anns(), g.mapSize, lm.mods) && ValidMap(old(g.M()), g.Anns())
    ensures forall i :: 0 <= i < |lm.mods| ==>
      (lm.mods[i].scid in g.channels <==> lm.mods[i].scid in old(g.channels) || lm.mods[i].localOff != NO_OFF)
    ensures forall i :: 0 <= i < |lm.mods| ==> InForce(g.M(), g.mapSize, lm.mods[i])
  {
    hide ValidMap, NodesOk, ChansOk, ModsOk, Laid, Came, SameRequests, Shifted, SameRequest, InForce, OthersKept;
    ghost var m0, before, known := g.M(), lm.mods, g.channels.Keys;
    assert g.store + map[] == g.store;
    StartWith(m0, g.store, lm.local, g.mapSize, lm.mods);
    g.local := Shifted(lm.local, g.mapSize);
    for i: nat := 0 to |lm.mods|
      invariant g.Valid() && lm.Valid() && |lm.mods| == |before| && g.local == Shifted(lm.local, g.mapSize)
      invariant Laid(m0, g.M(), g.Anns(), g.mapSize, lm.mods[..i])
      invariant SameRequests(before, lm.mods) && Came(known, g.channels.Keys, before[..i])
      invariant |g.nodes| <= |m0.nodes| + 2 * i && |g.channels| <= |m0.channels| + i
      invariant AllInForce(g.M(), g.mapSize, lm.mods, i)
    {
      ghost var mods, keys, m := lm.mods, g.channels.Keys, g.M();
      ApplyOne(g, lm, i, m0);
      ForceExtends(m, g.M(), g.mapSize, mods, lm.mods, lm.local, i);
      SameRequestsStep(before, mods, lm.mods, i);
      CameStep(known, keys, g.channels.Keys, before, mods, i);
    }
    assert lm.mods[..|lm.mods|] == lm.mods && before[..|before|] == before;
    CameAll(known, g.channels.Keys, before, lm.mods, lm.local);
  }

  ghost predicate AllInForce(m: Map, mapSize: nat, mods: seq<LocalMod>, n: nat)
    requires n <= |mods|
  {
    forall j :: 0 <= j < n ==> InForce(m, mapSize, mods[j])
  }

  lemma ForceExtends(m: Map, m': Map, mapSize: nat, mods: seq<LocalMod>, mods': seq<LocalMod>,
                     local: map<nat, Ann>, i: nat)
    requires i < |mods| == |mods'| && mods' == mods[i := mods'[i]] && mods'[i].scid == mods[i].scid
    requires ModsOk(mods', local)
    requires AllInForce(m, mapSize, mods, i) && InForce(m', mapSize, mods'[i]) && OthersKept(m, m', mods[i].scid)
    requires m'.channels.Keys <= m.channels.Keys + {mods[i].scid}
    ensures AllInForce(m', mapSize, mods', i + 1)
  {
    hide InForce, OthersKept;
    forall j | 0 <= j < i ensures InForce(m', mapSize, mods'[j]) {
      assert mods'[j] == mods[j] && InForce(m, mapSize, mods[j]);
      StillInForce(m, m', mapSize, mods[i].scid, mods[j]);
    }
  }

  /** The scids that mods bring. */
  ghost function Brought(mods: seq<LocalMod>): set<Scid> {
    set mod | mod in mods && mod.localOff != NO_OFF :: mod.scid
  }

  ghost predicate Came(known: set<Scid>, now: set<Scid>, mods: seq<LocalMod>) {
    now == known + Brought(mods)
  }

  lemma CameStep(known: set<Scid>, keys: set<Scid>, keys': set<Scid>, before: seq<LocalMod>, mods: seq<LocalMod>,
                 i: nat)
    requires SameRequests(before, mods) && i < |mods| && Came(known, keys, before[..i])
    requires keys' == keys + if mods[i].localOff != NO_OFF then {mods[i].scid} else {}
    ensures Came(known, keys', before[..i + 1])
  {
    assert SameRequest(before[i], mods[i]);
    assert before[..i + 1] == before[..i] + [before[i]];
    BroughtAppend(before[..i], before[i]);
  }

  lemma BroughtAppend(mods: seq<LocalMod>, mod: LocalMod)
    ensures Brought(mods + [mod]) == Brought(mods) + if mod.localOff != NO_OFF then {mod.scid} else {}
  {
    forall s ensures s in Brought(mods + [mod]) <==> s in Brought(mods) || (mod.localOff != NO_OFF && s == mod.scid) {
      if s in Brought(mods) {
        var x :| x in mods && x.localOff != NO_OFF && x.scid == s;
        assert x in mods + [mod];
      }
      assert mod in mods + [mod];
    }
  }

  lemma StartWith(m0: Map, store: map<nat, Ann>, local: map<nat, Ann>, mapSize: nat, mods: seq<LocalMod>)
    requires ValidMap(m0, store) && forall k :: k in store ==> k < mapSize
    ensures ValidMap(m0, store + Shifted(local, mapSize))
    ensures Laid(m0, m0, store + Shifted(local, mapSize), mapSize, mods[..0])
    ensures SameRequests(mods, mods) && Came(m0.channels.Keys, m0.channels.Keys, mods[..0])
  {
    hide ValidMap, InFile, Laid, Shifted;
    StoreOnly(m0, store, mapSize);
    LocalExtends(m0, store, local, mapSize);
    LaidStart(m0, store + Shifted(local, mapSize), mapSize);
    assert mods[..0] == [];
    assert Brought([]) == {};
  }

  lemma CameAll(known: set<Scid>, now: set<Scid>, before: seq<LocalMod>, mods: seq<LocalMod>, local: map<nat, Ann>)
    requires Came(known, now, before) && SameRequests(before, mods) && ModsOk(mods, local)
    ensures forall i :: 0 <= i < |mods| ==>
      (mods[i].scid in now <==> mods[i].scid in known || mods[i].localOff != NO_OFF)
  {
    forall i | 0 <= i < |mods| ensures mods[i].scid in now <==> mods[i].scid in known || mods[i].localOff != NO_OFF {
      assert SameRequest(before[i], mods[i]);
      if mods[i].localOff != NO_OFF {
        assert before[i] in before;
      } else {
        forall x | x in before && x.scid == mods[i].scid ensures x.localOff == NO_OFF {
          var j :| 0 <= j < |before| && before[j] == x;
          assert SameRequest(before[j], mods[j]);
        }
      }
    }
  }

  lemma SameRequestsStep(a: seq<LocalMod>, b: seq<LocalMod>, c: seq<LocalMod>, i: nat)
    requires SameRequests(a, b) && i < |b| == |c| && c == b[i := c[i]] && SameRequest(b[i], c[i])
    ensures SameRequests(a, c)
  {
    assert SameRequest(a[i], b[i]);
  }

  lemma LocalExtends(m: Map, store: map<nat, Ann>, local: map<nat, Ann>, mapSize: nat)
    requires ValidMap(m, store) && forall k :: k in store ==> k < mapSize
    ensures ValidMap(m, store + Shifted(local, mapSize))
  {
    AnnsChanged(m, store, store + Shifted(local, mapSize));
  }

  /** One round of gossmap_remove_localmods. */
  method RemoveOne(g: Gossmap, mods: seq<LocalMod>, local: map<nat, Ann>, i: nat, ghost m0: Map)
    requires g.Valid() && ModsOk(mods, local) && i < |mods| && ValidMap(m0, g.Anns())
    requires Laid(m0, g.M(), g.Anns(), g.mapSize, mods[i..]) && mods[i].scid in g.channels
    modifies g`nodes, g`channels, g`nodeArr, g`chanArr, g`freedNodes, g`freedChans, g`freeNodes, g`freeChans
    ensures g.Valid() && Laid(m0, g.M(), g.Anns(), g.mapSize, mods[i + 1..])
    ensures old(g.channels.Keys) - {mods[i].scid} <= g.channels.Keys
  {
    hide ValidMap, NodesOk, ChansOk, ModsOk, Laid, Restored, Removed, SameShape, ModInRange, HalfInRange;
    ghost var m, anns := g.M(), g.Anns();
    var c := g.channels[mods[i].scid];
    ScidFacts(m, anns, mods[i].scid);
    ModRange(mods, local, i);
    assert mods[i..][1..] == mods[i + 1..] && mods[i..][0] == mods[i];
    if g.chanArr[c].cannOff >= g.mapSize {
      g.RemoveChan(c);
      LaidRemove(m0, m, g.M(), anns, g.mapSize, mods[i..], anns[m.chanArr[c].cannOff], c);
      RemovedKeys(m, g.M(), anns[m.chanArr[c].cannOff], c);
    } else {
      LaidRestore(m0, m, anns, g.mapSize, mods[i..], c);
      RestoreKeepsShape(g.chanArr[c], mods[i]);
      RangesKept(g.chanArr[c], mods[i]);
      g.RewriteHalves(c, Restored(g.chanArr[c], mods[i]));
    }
  }

  lemma RemovedKeys(m: Map, m': Map, a: Ann, c: nat)
    requires Removed(m, m', a, c)
    ensures m.channels.Keys - {a.scid} <= m'.channels.Keys
  {
    hide NodeAfter, Dropped;
  }

  /** gossmap_remove_localmods: the graph is what it was before they were applied. */
  method Remove(g: Gossmap, lm: Localmods, ghost m0: Map)
    requires g.Valid() && lm.Valid() && g.local == Shifted(lm.local, g.mapSize) && FileOk(g)
    requires ValidMap(m0, g.Anns()) && Laid(m0, g.M(), g.Anns(), g.mapSize, lm.mods)
    requires forall i :: 0 <= i < |lm.mods| ==> lm.mods[i].scid in g.channels
    modifies g
    ensures g.Valid() && g.local == map[] && SameGraph(m0, g.M())
  {
    hide ValidMap, NodesOk, ChansOk, ModsOk, Laid, InFile, SameGraph;
    var n := |lm.mods|;
    assert lm.mods[0..] == lm.mods;
    for i: nat := 0 to n
      invariant g.Valid() && g.local == Shifted(lm.local, g.mapSize)
      invariant Laid(m0, g.M(), g.Anns(), g.mapSize, lm.mods[i..])
      invariant forall j :: i <= j < n ==> lm.mods[j].scid in g.channels
    {
      OthersNamed(lm.mods, lm.local, i);
      RemoveOne(g, lm.mods, lm.local, i, m0);
    }
    assert lm.mods[n..] == [];
    LaidEnd(m0, g.M(), g.Anns(), g.mapSize);
    LocalShrinks(g.M(), g.store, lm.local, g.mapSize);
    assert g.store + map[] == g.store;
    g.local := map[];
  }

  lemma OthersNamed(mods: seq<LocalMod>, local: map<nat, Ann>, i: nat)
    requires ModsOk(mods, local) && i < |mods|
    ensures forall j :: i < j < |mods| ==> mods[j].scid != mods[i].scid
  {
  }

  lemma LocalShrinks(m: Map, store: map<nat, Ann>, local: map<nat, Ann>, mapSize: nat)
    requires ValidMap(m, store + Shifted(local, mapSize)) && InFile(m, mapSize)
    ensures ValidMap(m, store)
  {
    AnnsChanged(m, store + Shifted(local, mapSize), store);
  }

  /** Applying modifications and removing them again restores the graph, provided that each one
      which only updates names a channel the map knows. */
  method ApplyThenRemove(g: Gossmap, lm: Localmods)
    requires g.Valid() && lm.Valid() && g.local == map[] && FileOk(g)
    requires 2 * (|g.nodes| + 2 * |lm.mods|) <= ARENA_MAX && 2 * (|g.channels| + |lm.mods|) <= ARENA_MAX
    requires forall i :: 0 <= i < |lm.mods| ==> lm.mods[i].scid in g.channels || lm.mods[i].localOff != NO_OFF
    modifies g, lm`mods
    ensures g.Valid() && g.local == map[] && SameGraph(old(g.M()), g.M())
    ensures lm.Valid() && SameRequests(old(lm.mods), lm.mods)
  {
    hide ValidMap, NodesOk, ChansOk, ModsOk, Laid, InFile, SameGraph, FileOk;
    ghost var m0, before := g.M(), lm.mods;
    Apply(g, lm);
    assert forall i :: 0 <= i < |lm.mods| ==> SameRequest(before[i], lm.mods[i]);
    Remove(g, lm, m0);
  }
}

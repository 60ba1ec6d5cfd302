// Who owns which frame: the bitmap of frames against the page tables of all address spaces there are.
module FrameOwnership {
  import opened Collections
  import opened Codec
  import opened FileHeaders
  import opened Paging

  function AllFrames(spaces: seq<seq<Pte>>): (f: seq<int>) {
    if spaces == [] then [] else AllFrames(spaces[..|spaces| - 1]) + Frames(spaces[|spaces| - 1])
  }

  /** The set bits are just the frames of `all`, which are all different. */
  ghost predicate OwnedBy(bits: seq<bool>, all: seq<int>) {
    && |bits| == NUM_PHYS_PAGES && Distinct(all)
    && (forall i :: 0 <= i < |all| ==> 0 <= all[i] < NUM_PHYS_PAGES)
    && (forall f :: 0 <= f < NUM_PHYS_PAGES ==> (bits[f] <==> f in all))
  }

  /** The bitmap is the disjoint union of the frames of all existing spaces. */
  ghost predicate Owned(bits: seq<bool>, spaces: seq<seq<Pte>>) {
    OwnedBy(bits, AllFrames(spaces))
  }

  lemma {:induction false} FramesHas(pt: seq<Pte>, i: nat)
    requires i < |pt| && pt[i].valid
    ensures pt[i].physicalPage in Frames(pt)
    decreases |pt|
  {
    if i < |pt| - 1 {
      FramesHas(pt[..|pt| - 1], i);
    }
  }

  lemma {:induction false} FramesInjective(pt: seq<Pte>)
    requires Distinct(Frames(pt)) && forall i :: 0 <= i < |Frames(pt)| ==> 0 <= Frames(pt)[i] < NUM_PHYS_PAGES
    ensures Injective(pt)
  {
    if pt != [] {
      var n := |pt| - 1;
      var rest := pt[..n];
      assert forall i :: 0 <= i < |Frames(rest)| ==> Frames(rest)[i] == Frames(pt)[i];
      FramesInjective(rest);
      if pt[n].valid {
        assert Frames(pt)[|Frames(rest)|] == pt[n].physicalPage;
        forall i | 0 <= i < n && pt[i].valid ensures pt[i].physicalPage != pt[n].physicalPage {
          FramesHas(rest, i);
        }
      }
    }
  }

  lemma {:induction false} AllFramesHas(spaces: seq<seq<Pte>>, i: nat, f: int)
    requires i < |spaces| && f in Frames(spaces[i])
    ensures f in AllFrames(spaces)
    decreases |spaces|
  {
    if i < |spaces| - 1 {
      AllFramesHas(spaces[..|spaces| - 1], i, f);
    }
  }

  /** In a world that is owned no space shares a frame with another, nor maps one twice. */
  lemma {:induction false} OwnedApart(spaces: seq<seq<Pte>>, i: nat, j: nat)
    requires Distinct(AllFrames(spaces))
             && (forall k :: 0 <= k < |AllFrames(spaces)| ==> 0 <= AllFrames(spaces)[k] < NUM_PHYS_PAGES)
    requires i < j < |spaces|
    ensures Apart(spaces[i], spaces[j]) && Apart(spaces[j], spaces[i]) && Injective(spaces[j])
    decreases |spaces|
  {
    var n := |spaces| - 1;
    var rest, all := AllFrames(spaces[..n]), AllFrames(spaces);
    assert all == rest + Frames(spaces[n]);
    assert forall k :: 0 <= k < |rest| ==> rest[k] == all[k];
    if j < n {
      OwnedApart(spaces[..n], i, j);
    } else {
      assert forall k :: 0 <= k < |Frames(spaces[j])| ==> Frames(spaces[j])[k] == all[|rest| + k];
      FramesInjective(spaces[j]);
      forall k, l | 0 <= k < |spaces[i]| && spaces[i][k].valid && 0 <= l < |spaces[j]| && spaces[j][l].valid
        ensures spaces[i][k].physicalPage != spaces[j][l].physicalPage
      {
        FramesHas(spaces[i], k);
        FramesHas(spaces[j], l);
        AllFramesHas(spaces[..n], i, spaces[i][k].physicalPage);
        var x :| 0 <= x < |rest| && rest[x] == spaces[i][k].physicalPage;
        var y :| 0 <= y < |Frames(spaces[j])| && Frames(spaces[j])[y] == spaces[j][l].physicalPage;
        assert all[x] != all[|rest| + y];
      }
    }
  }

  /** A space constructed, completely or not, from frames that were clear. */
  lemma CreateKeeps(bits: seq<bool>, after: seq<bool>, spaces: seq<seq<Pte>>, pt: seq<Pte>)
    requires Owned(bits, spaces) && Taken(bits, after, Frames(pt))
    ensures Owned(after, spaces + [pt])
  {
    var all, new_ := AllFrames(spaces), AllFrames(spaces + [pt]);
    assert (spaces + [pt])[..|spaces|] == spaces;
    assert new_ == all + Frames(pt);
    forall i, j | 0 <= i < j < |new_| ensures new_[i] != new_[j] {
      if i < |all| <= j {
        assert all[i] in all && bits[all[i]];
        assert Frames(pt)[j - |all|] == new_[j];
      }
    }
  }

  function Without(spaces: seq<seq<Pte>>, i: nat): seq<seq<Pte>>
    requires i < |spaces|
  {
    spaces[..i] + spaces[i + 1..]
  }

  lemma {:induction false} AllFramesSplit(spaces: seq<seq<Pte>>, i: nat)
    requires i < |spaces|
    ensures AllFrames(spaces) == AllFrames(spaces[..i]) + Frames(spaces[i]) + AllFrames(spaces[i + 1..])
    ensures AllFrames(Without(spaces, i)) == AllFrames(spaces[..i]) + AllFrames(spaces[i + 1..])
    decreases |spaces|
  {
    var n := |spaces| - 1;
    if i < n {
      var front, back, w := spaces[..n], spaces[i + 1..], Without(spaces, i);
      AllFramesSplit(front, i);
      assert AllFrames(spaces) == AllFrames(front) + Frames(spaces[n]);
      assert front[..i] == spaces[..i] && back[..|back| - 1] == front[i + 1..] && back[|back| - 1] == spaces[n];
      assert w[..|w| - 1] == Without(front, i) && w[|w| - 1] == spaces[n];
      Assoc(AllFrames(spaces[..i]), Frames(spaces[i]), AllFrames(front[i + 1..]), Frames(spaces[n]));
    } else {
      assert Without(spaces, i) == spaces[..n];
    }
  }

  lemma Assoc(a: seq<int>, b: seq<int>, c: seq<int>, d: seq<int>)
    ensures a + b + c + d == a + b + (c + d) && a + c + d == a + (c + d)
  {
  }

  /** A space destroyed, and just its frames given back. */
  lemma DestroyKeeps(bits: seq<bool>, after: seq<bool>, spaces: seq<seq<Pte>>, i: nat)
    requires Owned(bits, spaces) && i < |spaces| && Taken(after, bits, Frames(spaces[i]))
    ensures Owned(after, Without(spaces, i))
  {
    AllFramesSplit(spaces, i);
    CutOut(AllFrames(spaces[..i]), Frames(spaces[i]), AllFrames(spaces[i + 1..]));
    var all, rest := AllFrames(spaces), AllFrames(Without(spaces, i));
    assert forall f :: f in all <==> f in Frames(spaces[i]) || f in rest;
    forall k | 0 <= k < |rest| ensures 0 <= rest[k] < NUM_PHYS_PAGES {
      assert rest[k] in all;
    }
  }

  lemma CutOut(a: seq<int>, b: seq<int>, c: seq<int>)
    requires Distinct(a + b + c)
    ensures Distinct(a + c) && forall x :: x in b ==> x !in a + c
  {
    var all, rest := a + b + c, a + c;
    assert forall k :: 0 <= k < |a| ==> rest[k] == all[k];
    assert forall k :: |a| <= k < |rest| ==> rest[k] == all[k + |b|];
    assert forall k :: 0 <= k < |b| ==> b[k] == all[|a| + k];
    forall k, l | 0 <= k < l < |rest| ensures rest[k] != rest[l] {
      assert all[if k < |a| then k else k + |b|] != all[if l < |a| then l else l + |b|];
    }
  }

  /** Creating a space and destroying it again restores the map of frames exactly, whether or not the
      frames sufficed. */
  lemma CreateDestroy(before: seq<bool>, between: seq<bool>, after: seq<bool>, pt: seq<Pte>)
    requires Taken(before, between, Frames(pt)) && Taken(after, between, Frames(pt))
    ensures after == before
  {
    var f := Frames(pt);
    forall k | 0 <= k < |before| ensures after[k] == before[k] {
      if k in f {
        assert !before[k] && !after[k];
      }
    }
  }

  lemma {:induction false} SameMapFrames(pt: seq<Pte>, qt: seq<Pte>)
    requires SameMap(pt, qt)
    ensures Frames(qt) == Frames(pt)
  {
    if pt != [] {
      assert pt[|pt| - 1].valid == qt[|pt| - 1].valid;
      SameMapFrames(pt[..|pt| - 1], qt[..|pt| - 1]);
    }
  }

  lemma {:induction false} AllFramesSame(spaces: seq<seq<Pte>>, i: nat, qt: seq<Pte>)
    requires i < |spaces| && SameMap(spaces[i], qt)
    ensures AllFrames(spaces[i := qt]) == AllFrames(spaces)
    decreases |spaces|
  {
    var n := |spaces| - 1;
    if i < n {
      AllFramesSame(spaces[..n], i, qt);
      assert spaces[i := qt][..n] == spaces[..n][i := qt];
    } else {
      SameMapFrames(spaces[i], qt);
      assert spaces[i := qt][..n] == spaces[..n];
    }
  }

  // ---- one frame at a time -----------------------------------------------------------------------------------

  lemma {:induction false} FramesSplit(pt: seq<Pte>, k: nat)
    requires k < |pt|
    ensures Frames(pt) == Frames(pt[..k]) + (if pt[k].valid then [pt[k].physicalPage as int] else [])
            + Frames(pt[k + 1..])
    decreases |pt|
  {
    var n := |pt| - 1;
    if k < n {
      var front, back := pt[..n], pt[k + 1..];
      FramesSplit(front, k);
      assert front[..k] == pt[..k] && back[..|back| - 1] == front[k + 1..] && back[|back| - 1] == pt[n];
    }
  }

  /** The frames of all spaces, around entry `k` of the table of space `i`. */
  function Before(spaces: seq<seq<Pte>>, i: nat, k: nat): seq<int>
    requires i < |spaces| && k < |spaces[i]|
  {
    AllFrames(spaces[..i]) + Frames(spaces[i][..k])
  }

  function Behind(spaces: seq<seq<Pte>>, i: nat, k: nat): seq<int>
    requires i < |spaces| && k < |spaces[i]|
  {
    Frames(spaces[i][k + 1..]) + AllFrames(spaces[i + 1..])
  }

  lemma AllFramesAround(spaces: seq<seq<Pte>>, i: nat, k: nat)
    requires i < |spaces| && k < |spaces[i]|
    ensures var e := spaces[i][k];
      AllFrames(spaces) == Before(spaces, i, k) + (if e.valid then [e.physicalPage as int] else [])
        + Behind(spaces, i, k)
  {
    AllFramesSplit(spaces, i);
    FramesSplit(spaces[i], k);
    hide AllFrames, Frames;
    Assoc3(AllFrames(spaces[..i]), Frames(spaces[i][..k]),
      if spaces[i][k].valid then [spaces[i][k].physicalPage as int] else [],
           Frames(spaces[i][k + 1..]), AllFrames(spaces[i + 1..]));
  }

  lemma Assoc3(a: seq<int>, b: seq<int>, c: seq<int>, d: seq<int>, e: seq<int>)
    ensures a + (b + c + d) + e == a + b + c + (d + e)
  {
  }

  lemma AroundSame(spaces: seq<seq<Pte>>, i: nat, k: nat, e: Pte)
    requires i < |spaces| && k < |spaces[i]|
    ensures var n := spaces[i := spaces[i][k := e]];
      Before(n, i, k) == Before(spaces, i, k) && Behind(n, i, k) == Behind(spaces, i, k)
  {
    var n := spaces[i := spaces[i][k := e]];
    assert n[..i] == spaces[..i] && n[i + 1..] == spaces[i + 1..];
    assert n[i][..k] == spaces[i][..k] && n[i][k + 1..] == spaces[i][k + 1..];
  }

  lemma OneMore(bits: seq<bool>, a: seq<int>, f: int, c: seq<int>)
    requires OwnedBy(bits, a + c) && 0 <= f < |bits| && !bits[f]
    ensures OwnedBy(bits[f := true], a + [f] + c)
  {
    var all, more := a + c, a + [f] + c;
    assert f !in all;
    forall x ensures x in more <==> x == f || x in all {
    }
    forall k | 0 <= k < |more| && k != |a| ensures more[k] == all[if k < |a| then k else k - 1] {
    }
  }

  lemma OneFewer(bits: seq<bool>, a: seq<int>, f: int, c: seq<int>)
    requires OwnedBy(bits, a + [f] + c)
    ensures 0 <= f < |bits| && bits[f] && OwnedBy(bits[f := false], a + c)
  {
    var all, more := a + c, a + [f] + c;
    assert more[|a|] == f && f in more;
    forall k | 0 <= k < |all| ensures all[k] == more[if k < |a| then k else k + 1] {
    }
    assert f !in all;
    forall x ensures x in more <==> x == f || x in all {
    }
  }

  // ---- runs ------------------------------------------------------------------------------------------------

  /** The frame bitmap, and the page tables of the spaces there are, under construction, in use, or being
      destroyed. */
  datatype World = World(bits: seq<bool>, spaces: seq<seq<Pte>>)

  /** The bitmap is locked for one frame only: constructions, destructions and accesses may take turns at
      each of these steps. */
  datatype Event =
    | Begin(pages: nat)                        // a page table with no valid entry
    | Frame(i: nat, k: nat)                    // FindAndSet for page `k`, and its entry
    | Access(i: nat, vaddr: nat, write: bool)  // use and dirty bits
    | Return(i: nat, k: nat)                   // Clear for page `k`, whose entry is not used again
    | End(i: nat)                              // the table is deleted

  /** What FindAndSet finds. */
  function FirstClear(bits: seq<bool>): (f: nat)
    ensures f <= |bits| && (f < |bits| ==> !bits[f]) && forall j :: 0 <= j < f ==> bits[j]
  {
    if bits == [] || !bits[0] then 0 else 1 + FirstClear(bits[1..])
  }

  predicate CanHappen(w: World, e: Event) {
    match e
    case Begin(_) => true
    case Frame(i, k) => i < |w.spaces| && k < |w.spaces[i]| && !w.spaces[i][k].valid
      && FirstClear(w.bits) < |w.bits| <= INT_MAX
    case Access(i, vaddr, write) => i < |w.spaces| && KernelStatus(w.spaces[i], vaddr, write) == OK
    case Return(i, k) => i < |w.spaces| && k < |w.spaces[i]| && w.spaces[i][k].valid
      && 0 <= w.spaces[i][k].physicalPage < |w.bits|
    case End(i) => i < |w.spaces| && forall k :: 0 <= k < |w.spaces[i]| ==> !w.spaces[i][k].valid
  }

  function After(w: World, e: Event): World
    requires CanHappen(w, e)
  {
    match e
    case Begin(pages) => World(w.bits, w.spaces + [seq(pages, k => Pte(0, 0, false, false, false, false))])
    case Frame(i, k) =>
      var f := FirstClear(w.bits);
      var entry := w.spaces[i][k].(physicalPage := f, valid := true, use := false, dirty := false, readOnly := false);
      World(w.bits[f := true], w.spaces[i := w.spaces[i][k := entry]])
    case Access(i, vaddr, write) => World(w.bits, w.spaces[i := Touched(w.spaces[i], vaddr, write)])
    case Return(i, k) =>
      var entry := w.spaces[i][k];
      World(w.bits[entry.physicalPage := false], w.spaces[i := w.spaces[i][k := entry.(valid := false)]])
    case End(i) => World(w.bits, Without(w.spaces, i))
  }

  lemma FrameKeeps(w: World, i: nat, k: nat)
    requires Owned(w.bits, w.spaces) && CanHappen(w, Frame(i, k))
    ensures var n := After(w, Frame(i, k)); Owned(n.bits, n.spaces)
  {
    hide OwnedBy, Before, Behind, AllFrames, Frames;
    var n, f := After(w, Frame(i, k)), FirstClear(w.bits);
    AllFramesAround(w.spaces, i, k);
    AroundSame(w.spaces, i, k, n.spaces[i][k]);
    AllFramesAround(n.spaces, i, k);
    hide FirstClear;
    assert AllFrames(w.spaces) == Before(w.spaces, i, k) + Behind(w.spaces, i, k);
    assert OwnedBy(w.bits, AllFrames(w.spaces));
    OneMore(w.bits, Before(w.spaces, i, k), f, Behind(w.spaces, i, k));
  }

  lemma ReturnKeeps(w: World, i: nat, k: nat)
    requires Owned(w.bits, w.spaces) && CanHappen(w, Return(i, k))
    ensures var n := After(w, Return(i, k)); Owned(n.bits, n.spaces)
  {
    hide OwnedBy, Before, Behind, AllFrames, Frames;
    var n, f := After(w, Return(i, k)), w.spaces[i][k].physicalPage as int;
    AllFramesAround(w.spaces, i, k);
    AroundSame(w.spaces, i, k, n.spaces[i][k]);
    AllFramesAround(n.spaces, i, k);
    OneFewer(w.bits, Before(w.spaces, i, k), f, Behind(w.spaces, i, k));
    assert AllFrames(n.spaces) == Before(w.spaces, i, k) + Behind(w.spaces, i, k);
  }

  lemma {:induction false} NoFrames(pt: seq<Pte>)
    requires forall k :: 0 <= k < |pt| ==> !pt[k].valid
    ensures Frames(pt) == []
  {
    if pt != [] {
      NoFrames(pt[..|pt| - 1]);
    }
  }

  lemma EndsKeep(w: World, e: Event)
    requires Owned(w.bits, w.spaces) && CanHappen(w, e) && (e.Begin? || e.End?)
    ensures Owned(After(w, e).bits, After(w, e).spaces)
  {
    var n := After(w, e);
    if e.Begin? {
      assert n.spaces[..|w.spaces|] == w.spaces;
      NoFrames(n.spaces[|w.spaces|]);
      assert AllFrames(n.spaces) == AllFrames(w.spaces);
    } else {
      AllFramesSplit(w.spaces, e.i);
      NoFrames(w.spaces[e.i]);
      assert AllFrames(n.spaces) == AllFrames(w.spaces);
    }
    OwnedSame(w.bits, w.spaces, n.spaces);
  }

  lemma EventKeeps(w: World, e: Event)
    requires Owned(w.bits, w.spaces) && CanHappen(w, e)
    ensures Owned(After(w, e).bits, After(w, e).spaces)
  {
    hide Owned;
    match e
    case Begin(_) => EndsKeep(w, e);
    case Frame(i, k) => FrameKeeps(w, i, k);
    case Access(i, vaddr, write) =>
      AllFramesSame(w.spaces, i, Touched(w.spaces[i], vaddr, write));
      OwnedSame(w.bits, w.spaces, After(w, e).spaces);
    case Return(i, k) => ReturnKeeps(w, i, k);
    case End(_) => EndsKeep(w, e);
  }

  /** Events that cannot happen when their turn comes do nothing. */
  function WorldRun(es: seq<Event>): World {
    if es == [] then World(seq(NUM_PHYS_PAGES, f => false), [])
    else
      var w := WorldRun(es[..|es| - 1]);
      if CanHappen(w, es[|es| - 1]) then After(w, es[|es| - 1]) else w
  }

  /** In every run of constructions (completed or given up for want of frames), accesses and destructions,
      however they interleave, at every moment: the bitmap is the disjoint union of all spaces' frames,
      and any two spaces are apart. */
  lemma {:induction false} WorldRuns(es: seq<Event>)
    ensures var w := WorldRun(es);
      Owned(w.bits, w.spaces) && forall i, j :: 0 <= i < j < |w.spaces| ==>
        Apart(w.spaces[i], w.spaces[j]) && Apart(w.spaces[j], w.spaces[i])
  {
    if es != [] {
      WorldRuns(es[..|es| - 1]);
      var w, e := WorldRun(es[..|es| - 1]), es[|es| - 1];
      hide Owned, CanHappen, After, Apart;
      if CanHappen(w, e) {
        EventKeeps(w, e);
      }
    } else {
      assert AllFrames([]) == [];
    }
    AllApart(WorldRun(es).bits, WorldRun(es).spaces);
  }

  lemma OwnedSame(bits: seq<bool>, spaces: seq<seq<Pte>>, others: seq<seq<Pte>>)
    requires Owned(bits, spaces) && AllFrames(others) == AllFrames(spaces)
    ensures Owned(bits, others)
  {
  }

  lemma AllApart(bits: seq<bool>, spaces: seq<seq<Pte>>)
    requires Owned(bits, spaces)
    ensures forall i, j :: 0 <= i < j < |spaces| ==> Apart(spaces[i], spaces[j]) && Apart(spaces[j], spaces[i])
  {
    hide Apart;
    forall i, j | 0 <= i < j < |spaces| ensures Apart(spaces[i], spaces[j]) && Apart(spaces[j], spaces[i]) {
      OwnedApart(spaces, i, j);
    }
  }
}

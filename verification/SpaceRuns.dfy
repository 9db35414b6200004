/** Whole runs of the virtual memory manager: creations, successful or not, frees, and anything else in between. */
module SpaceRuns {
  import opened Words
  import opened PageTables
  import opened AddressSpaces
  import opened SpaceCalls

  /** A call for small or for large pages, the free of a live space, or anything else. */
  datatype Change =
    | Created(index: nat, sp: Space)
    | CreatedLarge(index: nat, sp: Space)
    | Freed(index: nat)
    | Elsewhere

  /** Whether a call for small pages brings a space to life: it asks for present pages, some of them, and the bitmap
      affords them. */
  ghost predicate Comes(bits: seq<bool>, n: nat, sp: Space) {
    n <= |bits| && sp.size > 0 && SmallFlags(sp.entry.flags) && Affordable(bits, n, sp.size)
  }

  ghost predicate Changes(s: Vm, s': Vm, n: nat, live: map<nat, Space>, live': map<nat, Space>, c: Change) {
    match c
    case Created(index, sp) =>
      SmallCall(s, s', n, index, sp)
      && live' == if Comes(s.bits, n, sp) then live[index := sp] else live
    case CreatedLarge(index, sp) => LargeCall(s, s', n, index, sp) && live' == live
    case Freed(index) => index in live && FreeSpaceStep(s, s', index) && live' == live - {index}
    case Elsewhere => ElsewhereStep(s, s', live) && live' == live
  }

  ghost predicate SpaceSteps(ss: seq<Vm>, lives: seq<map<nat, Space>>, cs: seq<Change>, n: nat) {
    && |ss| == |lives| == |cs| + 1
    && forall k | 0 <= k < |cs| :: Changes(ss[k], ss[k + 1], n, lives[k], lives[k + 1], cs[k])
  }

  ghost predicate SpaceRun(ss: seq<Vm>, lives: seq<map<nat, Space>>, cs: seq<Change>, n: nat) {
    SpaceSteps(ss, lives, cs, n) && Isolated(ss[0], n, lives[0])
  }

  lemma CreationKeepsIsolation(s: Vm, s': Vm, n: nat, live: map<nat, Space>, index: nat, sp: Space)
    requires Isolated(s, n, live) && SmallCall(s, s', n, index, sp)
    ensures Isolated(s', n, if Comes(s.bits, n, sp) then live[index := sp] else live)
  {
    hide Isolated, SmallCall, Affordable, SmallFlags;
    if Comes(s.bits, n, sp) {
      NewSpaceIsolatedIff(s, s', n, live, index, sp);
    } else {
      SmallCallIsAttempt(s, s', n, index, sp);
      hide Attempt;
      AttemptKeepsIsolation(s, s', n, live, index, TableFrames(sp.entry));
    }
  }

  /** Over every run of creations, whether they succeed or run out of memory, and of frees, with anything else going on
      in between, all live spaces stay isolated. */
  lemma {:induction false} RunIsolates(ss: seq<Vm>, lives: seq<map<nat, Space>>, cs: seq<Change>, n: nat, k: nat)
    requires SpaceRun(ss, lives, cs, n) && k < |ss|
    ensures Isolated(ss[k], n, lives[k])
  {
    hide Isolated, SmallCall, LargeCall, FreeSpaceStep, ElsewhereStep, Comes;
    if k > 0 {
      RunIsolates(ss, lives, cs, n, k - 1);
      assert Changes(ss[k - 1], ss[k - 1 + 1], n, lives[k - 1], lives[k - 1 + 1], cs[k - 1]);
      match cs[k - 1]
      case Created(index, sp) => CreationKeepsIsolation(ss[k - 1], ss[k], n, lives[k - 1], index, sp);
      case CreatedLarge(index, sp) =>
        LargeCallIsAttempt(ss[k - 1], ss[k], n, index, sp);
        hide Attempt;
        AttemptKeepsIsolation(ss[k - 1], ss[k], n, lives[k - 1], index, UpperFrames(sp.entry));
      case Freed(index) => FreeKeepsIsolation(ss[k - 1], ss[k], n, lives[k - 1], index);
      case Elsewhere => ElsewhereKeepsIsolation(ss[k - 1], ss[k], n, lives[k - 1]);
    }
  }

  /** What a live space translates does not depend on which other spaces were created or freed: in every state of a
      run its own pages and the kernel's range translate the same. */
  lemma LiveTranslationFixed(ss: seq<Vm>, lives: seq<map<nat, Space>>, cs: seq<Change>, n: nat, k: nat, i: nat, v: u64)
    requires SpaceRun(ss, lives, cs, n) && k < |ss| && i in lives[k]
    ensures i < |ss[k].dir|
    ensures v < lives[k][i].size * PAGESIZE ==>
              Walk(ss[k].mem, ss[k].dir[i].pml4, v) == MapsTo(lives[k][i].data + v)
    ensures Index4(v) == 256 || Index4(v) == 511 ==>
              Walk(ss[k].mem, ss[k].dir[i].pml4, v) == KernelMap(v)
  {
    hide Walk, KernelMap, Built, WellPlaced, KernelTables, Changes, Index4, Isolated;
    RunIsolates(ss, lives, cs, n, k);
    LiveParts(ss[k], n, lives[k], i);
    if v < lives[k][i].size * PAGESIZE {
      PlacedInReach(lives[k][i], n);
      UserWalk(ss[k].mem, lives[k][i], v);
    }
    if Index4(v) == 256 || Index4(v) == 511 {
      KernelWalk(ss[k].mem, lives[k][i], v);
    }
  }

  /** No physical byte is reached from the user ranges of two live spaces. */
  lemma NoSharedPage(ss: seq<Vm>, lives: seq<map<nat, Space>>, cs: seq<Change>, n: nat, k: nat,
                     i: nat, j: nat, v: u64, w: u64)
    requires SpaceRun(ss, lives, cs, n) && k < |ss| && i in lives[k] && j in lives[k] && i != j
    requires v < lives[k][i].size * PAGESIZE && w < lives[k][j].size * PAGESIZE
    ensures i < |ss[k].dir| && j < |ss[k].dir|
    ensures Walk(ss[k].mem, ss[k].dir[i].pml4, v) != Walk(ss[k].mem, ss[k].dir[j].pml4, w)
  {
    hide Walk, KernelMap, Built, WellPlaced, KernelTables, Changes, Index4, LiveIn, Frames;
    RunIsolates(ss, lives, cs, n, k);
    LiveTranslationFixed(ss, lives, cs, n, k, i, v);
    LiveTranslationFixed(ss, lives, cs, n, k, j, w);
    LiveParts(ss[k], n, lives[k], i);
    LiveParts(ss[k], n, lives[k], j);
    DataPageOwned(lives[k][i], n, v);
    DataPageOwned(lives[k][j], n, w);
  }

  lemma DataPageOwned(sp: Space, n: nat, v: nat)
    requires WellPlaced(sp, n) && v < sp.size * PAGESIZE
    ensures (sp.data + v) / PAGESIZE in Frames(sp)
  {
    assert (sp.data + v) / PAGESIZE == sp.data / PAGESIZE + v / PAGESIZE;
  }
}

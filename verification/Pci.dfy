/** The bus enumeration of kernel/drivers/pci.c: two mutually recursive routines that walk every bridge. */
module Pci {
  import opened PciBuses

  datatype PciDevice = PciDevice(classCode: nat, subclass: nat, progIF: nat, deviceID: nat, vendorID: nat, at: Fn)

  function Record(cfg: Config, a: Fn): PciDevice {
    PciDevice(Read(cfg, a, 8) / 0x100_0000 % 256, Read(cfg, a, 8) / 0x1_0000 % 256, Read(cfg, a, 8) / 256 % 256,
              Read(cfg, a, 0) / 0x1_0000 % 0x1_0000, Read(cfg, a, 0) % 0x1_0000, a)
  }

  /** The scan of the root bus comes to this bus, and comes to an end. */
  ghost predicate Scannable(cfg: Config, root: nat, bus: nat) {
    NoLoop(cfg, root) && (bus == root || OnTree(cfg, root, bus))
  }

  /** Crossing a bridge stays scannable and goes down. */
  lemma ScannableOn(cfg: Config, root: nat, a: Fn)
    requires Scannable(cfg, root, a.bus) && Visible(cfg, a) && IsBridge(cfg, a)
    ensures Scannable(cfg, root, SecondaryBus(cfg, a)) && Depth(cfg, SecondaryBus(cfg, a)) < Depth(cfg, a.bus)
  {
    RootOnTree(cfg, root);
    Deeper(cfg, root, a);
  }

  /* ---- trails: what the scan should find ---- */

  /** The bridges crossed from a bus and the function they end at, which is not a bridge. */
  ghost predicate IsTrail(cfg: Config, bus: nat, trail: seq<Fn>) {
    && trail != []
    && forall i | 0 <= i < |trail| ::
         && Visible(cfg, trail[i]) && (IsBridge(cfg, trail[i]) <==> i < |trail| - 1)
         && trail[i].bus == BusBefore(cfg, bus, trail, i)
  }

  /** A trail is a non-bridge on the bus, or a bridge on it followed by a trail from its secondary bus. */
  lemma TrailUnfolds(cfg: Config, bus: nat, trail: seq<Fn>)
    requires trail != []
    ensures IsTrail(cfg, bus, trail) <==>
              trail[0].bus == bus && Visible(cfg, trail[0]) &&
              if IsBridge(cfg, trail[0]) then IsTrail(cfg, SecondaryBus(cfg, trail[0]), trail[1..]) else |trail| == 1
  {
    var rest := trail[1..];
    if IsBridge(cfg, trail[0]) {
      forall i | 0 <= i < |rest|
        ensures rest[i] == trail[i + 1]
        ensures BusBefore(cfg, SecondaryBus(cfg, trail[0]), rest, i) == BusBefore(cfg, bus, trail, i + 1)
      {
      }
      if IsTrail(cfg, SecondaryBus(cfg, trail[0]), rest) && trail[0].bus == bus && Visible(cfg, trail[0]) {
        forall i | 0 <= i < |trail|
          ensures Visible(cfg, trail[i]) && (IsBridge(cfg, trail[i]) <==> i < |trail| - 1)
          ensures trail[i].bus == BusBefore(cfg, bus, trail, i)
        {
          if i > 0 {
            assert trail[i] == rest[i - 1];
          }
        }
      }
      if IsTrail(cfg, bus, trail) {
        forall i | 0 <= i < |rest|
          ensures Visible(cfg, rest[i]) && (IsBridge(cfg, rest[i]) <==> i < |rest| - 1)
          ensures rest[i].bus == BusBefore(cfg, SecondaryBus(cfg, trail[0]), rest, i)
        {
          assert rest[i] == trail[i + 1];
        }
      }
    }
  }

  function Slot(a: Fn): nat {
    8 * a.device + a.function_
  }

  /** Slots are taken device by device, and within a device function by function. */
  lemma SlotOrder(a: Fn, b: Fn)
    requires a.function_ < 8 && b.function_ < 8
    ensures Slot(a) < Slot(b) <==> a.device < b.device || (a.device == b.device && a.function_ < b.function_)
    ensures FnAt(a.bus, Slot(a)) == a
  {
  }

  /** Depth-first order: by the first function in which two trails differ. */
  ghost predicate Before(t: seq<Fn>, u: seq<Fn>) {
    && t != [] && u != []
    && (Slot(t[0]) < Slot(u[0]) || (t[0] == u[0] && Before(t[1..], u[1..])))
  }

  function FnAt(bus: nat, slot: nat): Fn {
    Fn(bus, slot / 8, slot % 8)
  }

  /** The trails through one slot of a bus, and those through its first k slots. */
  ghost function SlotTrails(cfg: Config, root: nat, bus: nat, slot: nat): seq<seq<Fn>>
    requires Scannable(cfg, root, bus) && slot < 256
    decreases Depth(cfg, bus), 0
  {
    var a := FnAt(bus, slot);
    if !Visible(cfg, a) then []
    else if IsBridge(cfg, a) then
      ScannableOn(cfg, root, a);
      var behind := Trails(cfg, root, SecondaryBus(cfg, a), 256);
      seq(|behind|, i requires 0 <= i < |behind| => [a] + behind[i])
    else [[a]]
  }

  ghost function Trails(cfg: Config, root: nat, bus: nat, k: nat): seq<seq<Fn>>
    requires Scannable(cfg, root, bus) && k <= 256
    decreases Depth(cfg, bus), 1, k
  {
    if k == 0 then [] else Trails(cfg, root, bus, k - 1) + SlotTrails(cfg, root, bus, k - 1)
  }

  function LastOf(trail: seq<Fn>): Fn {
    if trail == [] then Fn(0, 0, 0) else trail[|trail| - 1]
  }

  /** The records made for a list of trails, one for each trail's end, in order. */
  ghost function Records(cfg: Config, trails: seq<seq<Fn>>): (r: seq<PciDevice>)
    ensures |r| == |trails|
    ensures forall i :: 0 <= i < |r| ==> r[i] == Record(cfg, LastOf(trails[i]))
  {
    seq(|trails|, i requires 0 <= i < |trails| => Record(cfg, LastOf(trails[i])))
  }

  /** Everything enumerated is a trail, through the slots scanned so far. */
  lemma {:induction false} TrailsSound(cfg: Config, root: nat, bus: nat, k: nat)
    requires Scannable(cfg, root, bus) && k <= 256
    ensures forall t | t in Trails(cfg, root, bus, k) :: IsTrail(cfg, bus, t) && Slot(t[0]) < k
    decreases Depth(cfg, bus), 1, k
  {
    if k > 0 {
      TrailsSound(cfg, root, bus, k - 1);
      SlotTrailsSound(cfg, root, bus, k - 1);
    }
  }

  lemma {:induction false} SlotTrailsSound(cfg: Config, root: nat, bus: nat, slot: nat)
    requires Scannable(cfg, root, bus) && slot < 256
    ensures forall t | t in SlotTrails(cfg, root, bus, slot) ::
              IsTrail(cfg, bus, t) && t[0] == FnAt(bus, slot) && Slot(t[0]) == slot
    decreases Depth(cfg, bus), 0
  {
    var a := FnAt(bus, slot);
    if Visible(cfg, a) && IsBridge(cfg, a) {
      ScannableOn(cfg, root, a);
      TrailsSound(cfg, root, SecondaryBus(cfg, a), 256);
      var behind := Trails(cfg, root, SecondaryBus(cfg, a), 256);
      forall t | t in SlotTrails(cfg, root, bus, slot)
        ensures IsTrail(cfg, bus, t) && t[0] == a && Slot(t[0]) == slot
      {
        var i :| 0 <= i < |behind| && t == [a] + behind[i];
        assert behind[i] in behind && t[1..] == behind[i];
        TrailUnfolds(cfg, bus, t);
      }
    }
  }

  /** Every trail is enumerated once its first slot has been scanned. */
  lemma {:induction false} TrailsComplete(cfg: Config, root: nat, bus: nat, k: nat, t: seq<Fn>)
    requires Scannable(cfg, root, bus) && k <= 256 && IsTrail(cfg, bus, t) && Slot(t[0]) < k
    ensures t in Trails(cfg, root, bus, k)
    decreases Depth(cfg, bus), 1, k
  {
    hide Scannable, IsTrail, SlotTrails, Depth;
    TrailIsLong(cfg, bus, t);
    assert Trails(cfg, root, bus, k) == Trails(cfg, root, bus, k - 1) + SlotTrails(cfg, root, bus, k - 1);
    if Slot(t[0]) < k - 1 {
      TrailsComplete(cfg, root, bus, k - 1, t);
    } else {
      SlotTrailsComplete(cfg, root, bus, k - 1, t);
    }
  }

  lemma {:induction false} SlotTrailsComplete(cfg: Config, root: nat, bus: nat, slot: nat, t: seq<Fn>)
    requires Scannable(cfg, root, bus) && slot < 256 && IsTrail(cfg, bus, t) && Slot(t[0]) == slot
    ensures t in SlotTrails(cfg, root, bus, slot)
    decreases Depth(cfg, bus), 0
  {
    hide Scannable, Depth, Trails, IsTrail;
    var a := FnAt(bus, slot);
    TrailIsLong(cfg, bus, t);
    TrailUnfolds(cfg, bus, t);
    assert t[0] == a;
    if IsBridge(cfg, a) {
      var second := SecondaryBus(cfg, a);
      TrailIsLong(cfg, second, t[1..]);
      TrailUnfolds(cfg, second, t[1..]);
      ScannableOn(cfg, root, a);
      TrailsComplete(cfg, root, second, 256, t[1..]);
      var behind := Trails(cfg, root, second, 256);
      var i :| 0 <= i < |behind| && behind[i] == t[1..];
      assert t == [a] + behind[i] == SlotTrails(cfg, root, bus, slot)[i];
    } else {
      assert t == [a];
    }
  }

  ghost predicate Sorted(trails: seq<seq<Fn>>) {
    forall i, j | 0 <= i < j < |trails| :: Before(trails[i], trails[j])
  }

  /** The enumeration is in strict depth-first order. */
  lemma {:induction false} TrailsSorted(cfg: Config, root: nat, bus: nat, k: nat)
    requires Scannable(cfg, root, bus) && k <= 256
    ensures Sorted(Trails(cfg, root, bus, k))
    decreases Depth(cfg, bus), 1, k
  {
    hide Scannable, Depth, IsTrail, SlotTrails;
    if k > 0 {
      var first, then_ := Trails(cfg, root, bus, k - 1), SlotTrails(cfg, root, bus, k - 1);
      TrailsSorted(cfg, root, bus, k - 1);
      SlotTrailsSorted(cfg, root, bus, k - 1);
      TrailsSound(cfg, root, bus, k - 1);
      SlotTrailsSound(cfg, root, bus, k - 1);
      forall i, j | 0 <= i < |first| && 0 <= j < |then_| ensures Before(first[i], then_[j]) {
        assert first[i] in first && then_[j] in then_;
        TrailIsLong(cfg, bus, first[i]);
        TrailIsLong(cfg, bus, then_[j]);
      }
    }
  }

  lemma {:induction false} SlotTrailsSorted(cfg: Config, root: nat, bus: nat, slot: nat)
    requires Scannable(cfg, root, bus) && slot < 256
    ensures Sorted(SlotTrails(cfg, root, bus, slot))
    decreases Depth(cfg, bus), 0
  {
    var a := FnAt(bus, slot);
    hide Scannable, Depth;
    if Visible(cfg, a) && IsBridge(cfg, a) {
      ScannableOn(cfg, root, a);
      TrailsSorted(cfg, root, SecondaryBus(cfg, a), 256);
      var behind, ts := Trails(cfg, root, SecondaryBus(cfg, a), 256), SlotTrails(cfg, root, bus, slot);
      forall i, j | 0 <= i < j < |ts| ensures Before(ts[i], ts[j]) {
        assert ts[i][1..] == behind[i] && ts[j][1..] == behind[j];
      }
    }
  }

  lemma {:induction false} BeforeIsStrict(t: seq<Fn>)
    ensures !Before(t, t)
  {
    if t != [] {
      BeforeIsStrict(t[1..]);
    }
  }

  /** The enumeration from a bus is exactly the list of all trails from it, in depth-first order, each once. */
  lemma EnumerationExact(cfg: Config, root: nat, bus: nat)
    requires Scannable(cfg, root, bus)
    ensures var ts := Trails(cfg, root, bus, 256);
            && (forall t :: t in ts <==> IsTrail(cfg, bus, t))
            && Sorted(ts) && forall i, j | 0 <= i < j < |ts| :: ts[i] != ts[j]
  {
    var ts := Trails(cfg, root, bus, 256);
    TrailsSound(cfg, root, bus, 256);
    TrailsSorted(cfg, root, bus, 256);
    forall t | IsTrail(cfg, bus, t) ensures t in ts {
      TrailsComplete(cfg, root, bus, 256, t);
    }
    forall i, j | 0 <= i < j < |ts| ensures ts[i] != ts[j] {
      BeforeIsStrict(ts[i]);
      assert Before(ts[i], ts[j]);
    }
  }

  /* ---- each device once ---- */

  /** Some device lies on the bus or behind it. */
  ghost predicate Occupied(cfg: Config, bus: nat) {
    exists t :: IsTrail(cfg, bus, t)
  }

  /** No bus with a device on or behind it is the secondary bus of two bridges reached from the root. */
  ghost predicate OneParent(cfg: Config, root: nat) {
    forall a, b | Reached(cfg, root, a) && Reached(cfg, root, b) && IsBridge(cfg, a) && IsBridge(cfg, b)
                  && SecondaryBus(cfg, a) == SecondaryBus(cfg, b) && Occupied(cfg, SecondaryBus(cfg, a)) :: a == b
  }

  /** With one parent each, an occupied bus is reached in one way only. */
  lemma {:induction false} OnePath(cfg: Config, root: nat, p: seq<Fn>, q: seq<Fn>)
    requires NoLoop(cfg, root) && OneParent(cfg, root) && IsPath(cfg, root, p) && IsPath(cfg, root, q)
    requires BusBefore(cfg, root, p, |p|) == BusBefore(cfg, root, q, |q|)
    requires Occupied(cfg, BusBefore(cfg, root, p, |p|))
    ensures p == q
    decreases |p|
  {
    hide NoLoop, Reached, OneParent, IsPath, Visible, IsBridge, SecondaryBus, Occupied;
    OnlyEmptyReturns(cfg, root, p);
    OnlyEmptyReturns(cfg, root, q);
    if p != [] {
      SameBridge(cfg, root, p, q);
      PathPrefix(cfg, root, p);
      PathPrefix(cfg, root, q);
      var a, b := p[|p| - 1], q[|q| - 1];
      OnePath(cfg, root, p[..|p| - 1], q[..|q| - 1]);
      assert p == p[..|p| - 1] + [a] && q == q[..|q| - 1] + [b];
    }
  }

  /** Only the empty path leads from the root to the root. */
  lemma OnlyEmptyReturns(cfg: Config, root: nat, p: seq<Fn>)
    requires NoLoop(cfg, root) && IsPath(cfg, root, p)
    ensures BusBefore(cfg, root, p, |p|) == root <==> p == []
  {
    hide IsPath, SecondaryBus;
    RootOnTree(cfg, root);
    assert p != [] && BusBefore(cfg, root, p, |p|) == root ==> LeadsTo(cfg, root, root);
  }

  lemma SameBridge(cfg: Config, root: nat, p: seq<Fn>, q: seq<Fn>)
    requires OneParent(cfg, root) && IsPath(cfg, root, p) && IsPath(cfg, root, q) && p != [] && q != []
    requires BusBefore(cfg, root, p, |p|) == BusBefore(cfg, root, q, |q|)
    requires Occupied(cfg, BusBefore(cfg, root, p, |p|))
    ensures p[|p| - 1] == q[|q| - 1] && Occupied(cfg, p[|p| - 1].bus)
  {
    PathPrefix(cfg, root, p);
    PathPrefix(cfg, root, q);
    var a, b := p[|p| - 1], q[|q| - 1];
    assert IsBridge(cfg, a) && IsBridge(cfg, b) && Visible(cfg, a);
    hide Reached, IsPath, Visible, IsBridge, IsTrail;
    var t :| IsTrail(cfg, SecondaryBus(cfg, a), t);
    TrailUnfolds(cfg, a.bus, [a] + t);
    assert ([a] + t)[1..] == t;
  }

  lemma LastIsTrail(cfg: Config, root: nat, t: seq<Fn>)
    requires IsTrail(cfg, root, t)
    ensures Visible(cfg, LastOf(t)) && !IsBridge(cfg, LastOf(t)) && Occupied(cfg, LastOf(t).bus)
  {
    hide Visible, IsBridge, SecondaryBus;
    assert LastOf(t) == t[|t| - 1];
    assert IsTrail(cfg, LastOf(t).bus, [LastOf(t)]);
  }

  lemma TrailFront(cfg: Config, root: nat, t: seq<Fn>)
    requires IsTrail(cfg, root, t)
    ensures IsPath(cfg, root, t[..|t| - 1]) && BusBefore(cfg, root, t[..|t| - 1], |t| - 1) == LastOf(t).bus
  {
    hide Visible, IsBridge, SecondaryBus;
    var q := t[..|t| - 1];
    forall i | 0 <= i < |q|
      ensures Visible(cfg, q[i]) && IsBridge(cfg, q[i]) && q[i].bus == BusBefore(cfg, root, q, i)
    {
      assert q[i] == t[i] && (i > 0 ==> q[i - 1] == t[i - 1]);
    }
    assert |q| > 0 ==> q[|q| - 1] == t[|q| - 1];
  }

  lemma TrailSplits(cfg: Config, root: nat, t: seq<Fn>)
    requires IsTrail(cfg, root, t)
    ensures IsPath(cfg, root, t[..|t| - 1]) && BusBefore(cfg, root, t[..|t| - 1], |t| - 1) == LastOf(t).bus
    ensures Reached(cfg, root, LastOf(t)) && !IsBridge(cfg, LastOf(t)) && Occupied(cfg, LastOf(t).bus)
    ensures t == t[..|t| - 1] + [LastOf(t)]
  {
    hide Visible, IsBridge, SecondaryBus, IsTrail, IsPath, Occupied, BusBefore;
    TrailIsLong(cfg, root, t);
    LastIsTrail(cfg, root, t);
    TrailFront(cfg, root, t);
  }

  /** A path to a bus followed by a trail from that bus is a trail. */
  lemma PathThenTrail(cfg: Config, root: nat, p: seq<Fn>, t: seq<Fn>)
    requires IsPath(cfg, root, p) && IsTrail(cfg, BusBefore(cfg, root, p, |p|), t)
    ensures IsTrail(cfg, root, p + t)
  {
    hide IsPath, Visible, IsBridge, SecondaryBus, BusBefore;
    var u := p + t;
    forall i | 0 <= i < |u|
      ensures Visible(cfg, u[i]) && (IsBridge(cfg, u[i]) <==> i < |u| - 1)
      ensures u[i].bus == BusBefore(cfg, root, u, i)
    {
      if i < |p| {
        JoinFront(cfg, root, p, t, i);
      } else {
        JoinBack(cfg, root, p, t, i - |p|);
      }
    }
  }

  lemma JoinFront(cfg: Config, root: nat, p: seq<Fn>, t: seq<Fn>, i: nat)
    requires IsPath(cfg, root, p) && i < |p|
    ensures (p + t)[i] == p[i] && Visible(cfg, p[i]) && IsBridge(cfg, p[i])
    ensures p[i].bus == BusBefore(cfg, root, p + t, i)
  {
    assert i > 0 ==> (p + t)[i - 1] == p[i - 1];
  }

  lemma JoinBack(cfg: Config, root: nat, p: seq<Fn>, t: seq<Fn>, i: nat)
    requires IsTrail(cfg, BusBefore(cfg, root, p, |p|), t) && i < |t|
    ensures (p + t)[|p| + i] == t[i] && Visible(cfg, t[i]) && (IsBridge(cfg, t[i]) <==> |p| + i < |p + t| - 1)
    ensures t[i].bus == BusBefore(cfg, root, p + t, |p| + i)
  {
    assert |p| > 0 ==> (p + t)[|p| - 1] == p[|p| - 1];
    assert i > 0 ==> (p + t)[|p| + i - 1] == t[i - 1];
  }

  /** Two trails that end in the same function are the same trail. */
  lemma OneTrail(cfg: Config, root: nat, t: seq<Fn>, u: seq<Fn>)
    requires NoLoop(cfg, root) && OneParent(cfg, root)
    requires IsTrail(cfg, root, t) && IsTrail(cfg, root, u) && LastOf(t) == LastOf(u)
    ensures t == u
  {
    hide NoLoop, OneParent, IsPath, Reached, Occupied;
    TrailSplits(cfg, root, t);
    TrailSplits(cfg, root, u);
    OnePath(cfg, root, t[..|t| - 1], u[..|u| - 1]);
  }

  lemma DeviceHasTrail(cfg: Config, root: nat, a: Fn) returns (t: seq<Fn>)
    requires Reached(cfg, root, a) && !IsBridge(cfg, a)
    ensures IsTrail(cfg, root, t) && LastOf(t) == a
  {
    var p :| IsPath(cfg, root, p) && BusBefore(cfg, root, p, |p|) == a.bus;
    assert IsTrail(cfg, a.bus, [a]);
    hide Visible, IsBridge, SecondaryBus, IsTrail, IsPath;
    PathThenTrail(cfg, root, p, [a]);
    t := p + [a];
  }

  /** Two bridges onto one occupied bus give two different trails to the same device. */
  lemma TwoParentsTwoTrails(cfg: Config, root: nat, a: Fn, b: Fn) returns (t: seq<Fn>, u: seq<Fn>)
    requires Reached(cfg, root, a) && Reached(cfg, root, b) && IsBridge(cfg, a) && IsBridge(cfg, b) && a != b
    requires SecondaryBus(cfg, a) == SecondaryBus(cfg, b) && Occupied(cfg, SecondaryBus(cfg, a))
    ensures IsTrail(cfg, root, t) && IsTrail(cfg, root, u) && t != u && LastOf(t) == LastOf(u)
  {
    hide Visible, IsBridge, SecondaryBus, IsTrail, IsPath;
    var p :| IsPath(cfg, root, p) && BusBefore(cfg, root, p, |p|) == a.bus;
    var q :| IsPath(cfg, root, q) && BusBefore(cfg, root, q, |q|) == b.bus;
    var rest :| IsTrail(cfg, SecondaryBus(cfg, a), rest);
    PathExtends(cfg, root, p, a);
    PathExtends(cfg, root, q, b);
    PathThenTrail(cfg, root, p + [a], rest);
    PathThenTrail(cfg, root, q + [b], rest);
    t, u := p + [a] + rest, q + [b] + rest;
    assert t[|p|] == a && u[|q|] == b;
    TrailIsLong(cfg, SecondaryBus(cfg, a), rest);
  }

  lemma TrailIsLong(cfg: Config, bus: nat, t: seq<Fn>)
    requires IsTrail(cfg, bus, t)
    ensures t != []
  {
  }

  ghost predicate NoRepeat(ts: seq<seq<Fn>>) {
    forall i, j | 0 <= i < j < |ts| :: LastOf(ts[i]) != LastOf(ts[j])
  }

  lemma Repeats(ts: seq<seq<Fn>>, t: seq<Fn>, u: seq<Fn>)
    requires t in ts && u in ts && t != u && LastOf(t) == LastOf(u)
    ensures !NoRepeat(ts)
  {
    var i :| 0 <= i < |ts| && ts[i] == t;
    var j :| 0 <= j < |ts| && ts[j] == u;
    assert i < j || j < i;
  }

  /** The enumeration ends in exactly the present non-bridge functions reachable from the root bus. */
  lemma DevicesExact(cfg: Config, root: nat)
    requires NoLoop(cfg, root)
    ensures var ts := Trails(cfg, root, root, 256);
            forall a :: (Reached(cfg, root, a) && !IsBridge(cfg, a)) <==> exists t :: t in ts && LastOf(t) == a
  {
    hide Visible, IsBridge, SecondaryBus, IsTrail, IsPath, Reached, Occupied, NoLoop, Trails, LastOf;
    var ts := Trails(cfg, root, root, 256);
    EnumerationExact(cfg, root, root);
    forall t | t in ts ensures Reached(cfg, root, LastOf(t)) && !IsBridge(cfg, LastOf(t)) {
      TrailSplits(cfg, root, t);
    }
    forall a | Reached(cfg, root, a) && !IsBridge(cfg, a) ensures exists t :: t in ts && LastOf(t) == a {
      var t := DeviceHasTrail(cfg, root, a);
    }
  }

  /** No device is enumerated twice, if and only if no occupied bus has two parents. */
  lemma EachDeviceOnceIff(cfg: Config, root: nat)
    requires NoLoop(cfg, root)
    ensures NoRepeat(Trails(cfg, root, root, 256)) <==> OneParent(cfg, root)
  {
    hide Visible, IsBridge, SecondaryBus, IsTrail, IsPath, Reached, Occupied, NoLoop, Trails, LastOf;
    var ts := Trails(cfg, root, root, 256);
    EnumerationExact(cfg, root, root);
    if OneParent(cfg, root) {
      hide OneParent;
      forall i, j | 0 <= i < j < |ts| ensures LastOf(ts[i]) != LastOf(ts[j]) {
        assert ts[i] in ts && ts[j] in ts;
        if LastOf(ts[i]) == LastOf(ts[j]) {
          OneTrail(cfg, root, ts[i], ts[j]);
        }
      }
    }
    if NoRepeat(ts) {
      forall a, b | Reached(cfg, root, a) && Reached(cfg, root, b) && IsBridge(cfg, a) && IsBridge(cfg, b)
                    && SecondaryBus(cfg, a) == SecondaryBus(cfg, b) && Occupied(cfg, SecondaryBus(cfg, a))
        ensures a == b
      {
        if a != b {
          var t, u := TwoParentsTwoTrails(cfg, root, a, b);
          Repeats(ts, t, u);
        }
      }
    }
  }

  /** In the list of records: every reachable device is listed, nothing else is, and none twice if and only if no
      occupied bus has two parents. */
  lemma ListExact(cfg: Config, root: nat, list: seq<PciDevice>)
    requires NoLoop(cfg, root) && list == Records(cfg, Trails(cfg, root, root, 256))
    ensures forall a :: (Reached(cfg, root, a) && !IsBridge(cfg, a)) <==> Record(cfg, a) in list
    ensures (forall i, j | 0 <= i < j < |list| :: list[i].at != list[j].at) <==> OneParent(cfg, root)
  {
    hide IsBridge, Reached, OneParent, NoLoop, Trails, LastOf, Record, Records, NoRepeat;
    DevicesExact(cfg, root);
    EachDeviceOnceIff(cfg, root);
    RecordsListed(cfg, Trails(cfg, root, root, 256));
  }

  /** A list of records names the ends of the trails it was made from, and repeats one if and only if they do. */
  lemma RecordsListed(cfg: Config, ts: seq<seq<Fn>>)
    ensures forall a :: Record(cfg, a) in Records(cfg, ts) <==> exists t :: t in ts && LastOf(t) == a
    ensures NoRepeat(ts) <==> forall i, j | 0 <= i < j < |ts| :: Records(cfg, ts)[i].at != Records(cfg, ts)[j].at
  {
    var list := Records(cfg, ts);
    ListedAt(cfg, ts);
    hide LastOf, Record, Records;
    forall a ensures Record(cfg, a) in list <==> exists t :: t in ts && LastOf(t) == a {
      if t :| t in ts && LastOf(t) == a {
        var i :| 0 <= i < |ts| && ts[i] == t;
        assert list[i] == Record(cfg, a);
      }
      if Record(cfg, a) in list {
        var i :| 0 <= i < |list| && list[i] == Record(cfg, a);
        assert ts[i] in ts;
      }
    }
  }

  lemma ListedAt(cfg: Config, ts: seq<seq<Fn>>)
    ensures forall i, a | 0 <= i < |ts| && Records(cfg, ts)[i] == Record(cfg, a) :: LastOf(ts[i]) == a
    ensures forall i | 0 <= i < |ts| :: Records(cfg, ts)[i].at == LastOf(ts[i])
    ensures forall i | 0 <= i < |ts| :: Records(cfg, ts)[i] == Record(cfg, LastOf(ts[i]))
  {
  }

  /** The record made of a function holds exactly the fields its header declares. */
  lemma RecordReadsBack(cfg: Config, a: Fn, h: Header)
    requires Presents(cfg, a, h)
    ensures Record(cfg, a) == PciDevice(h.classCode, h.subclass, h.progIF, h.deviceID, h.vendorID, a)
  {
    FourBytes(h.revision, h.progIF, h.subclass, h.classCode);
    TwoWords(h.vendorID, h.deviceID);
  }

  /** A device with a header is listed with the fields declared if and only if the scan reaches it and its header is
      not a bridge's. */
  lemma DeclaredIsListed(cfg: Config, root: nat, list: seq<PciDevice>, a: Fn, h: Header)
    requires NoLoop(cfg, root) && list == Records(cfg, Trails(cfg, root, root, 256)) && Presents(cfg, a, h)
    ensures PciDevice(h.classCode, h.subclass, h.progIF, h.deviceID, h.vendorID, a) in list
            <==> Reached(cfg, root, a) && !(h.headerType == 1 && h.classCode == 6 && h.subclass == 4)
  {
    hide Trails, Records, Reached, Record, IsBridge, Present, MultiFunction, SecondaryBus, NoLoop, Presents;
    ListExact(cfg, root, list);
    HeaderReadsBack(cfg, a, h);
    RecordReadsBack(cfg, a, h);
  }

  /* ---- the routines themselves ---- */

  lemma RecordsJoin(cfg: Config, ts: seq<seq<Fn>>, us: seq<seq<Fn>>)
    ensures Records(cfg, ts + us) == Records(cfg, ts) + Records(cfg, us)
  {
  }

  /** A bridge adds no record of its own. */
  lemma RecordsBehind(cfg: Config, root: nat, bus: nat, slot: nat)
    requires Scannable(cfg, root, bus) && slot < 256
    requires Visible(cfg, FnAt(bus, slot)) && IsBridge(cfg, FnAt(bus, slot))
    requires Scannable(cfg, root, SecondaryBus(cfg, FnAt(bus, slot)))
    ensures Records(cfg, SlotTrails(cfg, root, bus, slot))
            == Records(cfg, Trails(cfg, root, SecondaryBus(cfg, FnAt(bus, slot)), 256))
  {
    hide Scannable, Depth, IsTrail;
    var second := SecondaryBus(cfg, FnAt(bus, slot));
    TrailsSound(cfg, root, second, 256);
    var behind := Trails(cfg, root, second, 256);
    forall i | 0 <= i < |behind| ensures LastOf([FnAt(bus, slot)] + behind[i]) == LastOf(behind[i]) {
      assert behind[i] in behind;
      TrailIsLong(cfg, second, behind[i]);
    }
  }

  /** Slots with nothing visible in them add nothing. */
  lemma {:induction false} EmptySlots(cfg: Config, root: nat, bus: nat, lo: nat, hi: nat)
    requires Scannable(cfg, root, bus) && lo <= hi <= 256
    requires forall slot | lo <= slot < hi :: !Visible(cfg, FnAt(bus, slot))
    ensures Trails(cfg, root, bus, hi) == Trails(cfg, root, bus, lo)
    decreases hi
  {
    hide Visible, Scannable;
    if lo < hi {
      EmptySlots(cfg, root, bus, lo, hi - 1);
      assert !Visible(cfg, FnAt(bus, hi - 1));
    }
  }

  lemma SlotOf(bus: nat, device: nat, f: nat)
    requires device < 32 && f < 8
    ensures 8 * device + f < 256 && FnAt(bus, 8 * device + f) == Fn(bus, device, f)
  {
  }

  /** The list has grown by exactly what the first k slots of a bus hold. */
  ghost predicate Scanned(cfg: Config, root: nat, bus: nat, k: nat, was: seq<PciDevice>, now: seq<PciDevice>)
    requires Scannable(cfg, root, bus)
  {
    k <= 256 && now == was + Records(cfg, Trails(cfg, root, bus, k))
  }

  lemma NothingScanned(cfg: Config, root: nat, bus: nat, was: seq<PciDevice>)
    requires Scannable(cfg, root, bus)
    ensures Scanned(cfg, root, bus, 0, was, was)
  {
  }

  lemma AllScanned(cfg: Config, root: nat, bus: nat, was: seq<PciDevice>, now: seq<PciDevice>)
    requires Scannable(cfg, root, bus) && Scanned(cfg, root, bus, 256, was, now)
    ensures now == was + Records(cfg, Trails(cfg, root, bus, 256))
  {
  }

  /** The rest of a device's slots when its function 0 is absent (from = 0) or single-function (from = 1). */
  lemma RestOfDevice(cfg: Config, root: nat, bus: nat, device: nat, from: nat,
                     was: seq<PciDevice>, now: seq<PciDevice>)
    requires Scannable(cfg, root, bus) && device < 32 && from <= 1
    requires if from == 0 then !Present(cfg, Fn(bus, device, 0)) else !MultiFunction(cfg, Fn(bus, device, 0))
    requires Scanned(cfg, root, bus, 8 * device + from, was, now)
    ensures Scanned(cfg, root, bus, 8 * device + 8, was, now)
  {
    hide Scannable, Trails;
    forall slot | 8 * device + from <= slot < 8 * device + 8 ensures !Visible(cfg, FnAt(bus, slot)) {
      SlotOf(bus, device, slot - 8 * device);
    }
    EmptySlots(cfg, root, bus, 8 * device + from, 8 * device + 8);
  }

  /** One more function scanned: it is visible if and only if it is present, and adds its own records if so. */
  lemma OneMoreFunction(cfg: Config, root: nat, bus: nat, device: nat, f: nat,
                        was: seq<PciDevice>, now: seq<PciDevice>)
    requires Scannable(cfg, root, bus) && device < 32 && f < 8
    requires f == 0 || (Present(cfg, Fn(bus, device, 0)) && MultiFunction(cfg, Fn(bus, device, 0)))
    requires Scanned(cfg, root, bus, 8 * device + f, was, now)
    ensures Visible(cfg, Fn(bus, device, f)) <==> Present(cfg, Fn(bus, device, f))
    ensures Present(cfg, Fn(bus, device, f)) ==>
              Scanned(cfg, root, bus, 8 * device + f + 1, was,
                      now + Records(cfg, SlotTrails(cfg, root, bus, 8 * device + f)))
    ensures !Present(cfg, Fn(bus, device, f)) ==> Scanned(cfg, root, bus, 8 * device + f + 1, was, now)
  {
    hide Scannable, IsBridge, LastOf, Scanned, Records, Trails;
    SlotOf(bus, device, f);
    OneMoreSlot(cfg, root, bus, 8 * device + f, was, now);
    hide SlotTrails;
  }

  lemma OneMoreSlot(cfg: Config, root: nat, bus: nat, slot: nat, was: seq<PciDevice>, now: seq<PciDevice>)
    requires Scannable(cfg, root, bus) && slot < 256 && Scanned(cfg, root, bus, slot, was, now)
    ensures Scanned(cfg, root, bus, slot + 1, was, now + Records(cfg, SlotTrails(cfg, root, bus, slot)))
    ensures !Visible(cfg, FnAt(bus, slot)) ==> Scanned(cfg, root, bus, slot + 1, was, now)
  {
    hide Scannable, IsBridge, LastOf, Visible, Trails, SlotTrails, Records;
    var ts, us := Trails(cfg, root, bus, slot), SlotTrails(cfg, root, bus, slot);
    TrailsUnfold(cfg, root, bus, slot);
    RecordsJoin(cfg, ts, us);
    Regroup(was, Records(cfg, ts), Records(cfg, us));
  }

  lemma TrailsUnfold(cfg: Config, root: nat, bus: nat, slot: nat)
    requires Scannable(cfg, root, bus) && slot < 256
    ensures Trails(cfg, root, bus, slot + 1) == Trails(cfg, root, bus, slot) + SlotTrails(cfg, root, bus, slot)
    ensures !Visible(cfg, FnAt(bus, slot)) ==> Trails(cfg, root, bus, slot + 1) == Trails(cfg, root, bus, slot)
  {
    hide Scannable, IsBridge, Visible;
  }

  lemma Regroup(x: seq<PciDevice>, y: seq<PciDevice>, z: seq<PciDevice>)
    ensures x + y + z == x + (y + z)
  {
  }

  /** The driver's state: the list of devices found. */
  class PciScanner {
    const cfg: Config
    var pciDevices: seq<PciDevice>

    constructor (cfg: Config)
      ensures this.cfg == cfg && pciDevices == []
    {
      this.cfg := cfg;
      pciDevices := [];
    }

    method CheckDevice(bus: nat, device: nat, function_: nat, ghost root: nat)
      requires Scannable(cfg, root, bus) && Visible(cfg, Fn(bus, device, function_))
      modifies this
      ensures pciDevices == old(pciDevices) + Records(cfg, SlotTrails(cfg, root, bus, 8 * device + function_))
      decreases Depth(cfg, bus), 0
    {
      var a := Fn(bus, device, function_);
      SlotOf(bus, device, function_);
      var isBridge := true;
      if HeaderType(cfg, a) % 128 != 1
         || Read(cfg, a, 8) / 0x100_0000 % 256 != 6 || Read(cfg, a, 8) / 0x1_0000 % 256 != 4 {
        isBridge := false;
      }
      if isBridge {
        ScannableOn(cfg, root, a);
        RecordsBehind(cfg, root, bus, 8 * device + function_);
        PciScanBus(Read(cfg, a, 0x18) / 256 % 256, root);
      } else {
        assert SlotTrails(cfg, root, bus, 8 * device + function_) == [[a]];
        pciDevices := pciDevices + [
          PciDevice(Read(cfg, a, 8) / 0x100_0000 % 256, Read(cfg, a, 8) / 0x1_0000 % 256, Read(cfg, a, 8) / 256 % 256,
                    Read(cfg, a, 0) / 0x1_0000 % 0x1_0000, Read(cfg, a, 0) % 0x1_0000, a)];
      }
    }

    method PciScanBus(bus: nat, ghost root: nat)
      requires Scannable(cfg, root, bus)
      modifies this
      ensures pciDevices == old(pciDevices) + Records(cfg, Trails(cfg, root, bus, 256))
      decreases Depth(cfg, bus), 1
    {
      hide Scannable, Scanned, Trails, SlotTrails, Records, Visible, IsBridge, SecondaryBus, Present, MultiFunction;
      NothingScanned(cfg, root, bus, pciDevices);
      for device := 0 to 32
        invariant Scanned(cfg, root, bus, 8 * device, old(pciDevices), pciDevices)
      {
        if Present(cfg, Fn(bus, device, 0)) {
          OneMoreFunction(cfg, root, bus, device, 0, old(pciDevices), pciDevices);
          CheckDevice(bus, device, 0, root);
          if MultiFunction(cfg, Fn(bus, device, 0)) {
            for function_ := 1 to 8
              invariant Scanned(cfg, root, bus, 8 * device + function_, old(pciDevices), pciDevices)
            {
              OneMoreFunction(cfg, root, bus, device, function_, old(pciDevices), pciDevices);
              if Present(cfg, Fn(bus, device, function_)) {
                CheckDevice(bus, device, function_, root);
              }
            }
          } else {
            RestOfDevice(cfg, root, bus, device, 1, old(pciDevices), pciDevices);
          }
        } else {
          RestOfDevice(cfg, root, bus, device, 0, old(pciDevices), pciDevices);
        }
      }
      AllScanned(cfg, root, bus, old(pciDevices), pciDevices);
    }

    /** The list holds every device reachable from bus 0 and nothing else, in depth-first order of the trails to
        them, and no device twice if and only if no occupied bus has two parents. */
    method InitPCI()
      requires NoLoop(cfg, 0) && pciDevices == []
      modifies this
      ensures pciDevices == Records(cfg, Trails(cfg, 0, 0, 256))
      ensures forall a :: (Reached(cfg, 0, a) && !IsBridge(cfg, a)) <==> Record(cfg, a) in pciDevices
      ensures forall a, h | Presents(cfg, a, h) ::
        PciDevice(h.classCode, h.subclass, h.progIF, h.deviceID, h.vendorID, a) in pciDevices
        <==> Reached(cfg, 0, a) && !(h.headerType == 1 && h.classCode == 6 && h.subclass == 4)
      ensures (forall i, j | 0 <= i < j < |pciDevices| :: pciDevices[i].at != pciDevices[j].at) <==> OneParent(cfg, 0)
    {
      hide Trails, Records, Reached, IsBridge, Record, OneParent, NoLoop, Presents;
      PciScanBus(0, 0);
      assert pciDevices == Records(cfg, Trails(cfg, 0, 0, 256));
      ListExact(cfg, 0, pciDevices);
      forall a, h | Presents(cfg, a, h)
        ensures PciDevice(h.classCode, h.subclass, h.progIF, h.deviceID, h.vendorID, a) in pciDevices
                <==> Reached(cfg, 0, a) && !(h.headerType == 1 && h.classCode == 6 && h.subclass == 4)
      {
        DeclaredIsListed(cfg, 0, pciDevices, a, h);
      }
    }
  }
}

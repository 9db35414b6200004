/** The buses of a PCI system as kernel/drivers/pci.c sees them: what configuration space says of a function, the paths
    of bridges from a bus, and when following bridges comes to an end. */
module PciBuses {
  import opened FiniteSets

  /** Configuration space: bus, device, function, register. */
  type Config = (nat, nat, nat, nat) -> nat

  /** The address of a function. */
  datatype Fn = Fn(bus: nat, device: nat, function_: nat)

  function Read(cfg: Config, a: Fn, reg: nat): nat {
    cfg(a.bus, a.device, a.function_, reg)
  }

  predicate Present(cfg: Config, a: Fn) {
    Read(cfg, a, 0) % 0x1_0000 != 0xffff
  }

  function HeaderType(cfg: Config, a: Fn): nat {
    Read(cfg, a, 0xC) / 0x1_0000 % 256
  }

  predicate MultiFunction(cfg: Config, a: Fn) {
    HeaderType(cfg, a) / 128 == 1
  }

  /** Header type 1, class 6, subclass 4: a PCI-to-PCI bridge. */
  predicate IsBridge(cfg: Config, a: Fn) {
    && HeaderType(cfg, a) % 128 == 1
    && Read(cfg, a, 8) / 0x100_0000 % 256 == 6 && Read(cfg, a, 8) / 0x1_0000 % 256 == 4
  }

  /** Section 3.2.5 of the PCI-to-PCI Bridge Architecture Specification: the secondary bus number. */
  function SecondaryBus(cfg: Config, a: Fn): nat {
    Read(cfg, a, 0x18) / 256 % 256
  }

  /** A function the scan of its bus looks at: present, and either function 0 or behind a multi-function one. */
  predicate Visible(cfg: Config, a: Fn) {
    && a.device < 32 && a.function_ < 8 && Present(cfg, a)
    && var first := a.(function_ := 0);
       a.function_ == 0 || (Present(cfg, first) && MultiFunction(cfg, first))
  }

  /* ---- headers as a function presents them ---- */

  /** The fields of a configuration header that the scan depends on; those from `revision` on share their registers. */
  datatype Header = Header(vendorID: nat, deviceID: nat, classCode: nat, subclass: nat, progIF: nat, headerType: nat,
                           multiFunction: bool, secondaryBus: nat,
                           revision: nat, cacheLine: nat, latency: nat, selfTest: nat, primaryBus: nat, above: nat)

  ghost predicate HeaderInRange(h: Header) {
    && h.vendorID < 0x1_0000 && h.deviceID < 0x1_0000 && h.classCode < 256 && h.subclass < 256 && h.progIF < 256
    && h.headerType < 128 && h.secondaryBus < 256 && h.revision < 256 && h.cacheLine < 256 && h.latency < 256
    && h.selfTest < 256 && h.primaryBus < 256 && h.above < 0x1_0000
  }

  /** The function at an address presents this header: the dwords of registers 0, 8, 0xC and 0x18, lowest byte first. */
  ghost predicate Presents(cfg: Config, a: Fn, h: Header) {
    && HeaderInRange(h)
    && Read(cfg, a, 0) == h.vendorID + 0x1_0000 * h.deviceID
    && Read(cfg, a, 8) == h.revision + 0x100 * h.progIF + 0x1_0000 * h.subclass + 0x100_0000 * h.classCode
    && Read(cfg, a, 0xC) == h.cacheLine + 0x100 * h.latency
                            + 0x1_0000 * (h.headerType + if h.multiFunction then 128 else 0) + 0x100_0000 * h.selfTest
    && Read(cfg, a, 0x18) == h.primaryBus + 0x100 * h.secondaryBus + 0x1_0000 * h.above
  }

  /** What the scan reads of a function is what its header declares. */
  lemma HeaderReadsBack(cfg: Config, a: Fn, h: Header)
    requires Presents(cfg, a, h)
    ensures Present(cfg, a) <==> h.vendorID != 0xffff
    ensures MultiFunction(cfg, a) <==> h.multiFunction
    ensures IsBridge(cfg, a) <==> h.headerType == 1 && h.classCode == 6 && h.subclass == 4
    ensures SecondaryBus(cfg, a) == h.secondaryBus
  {
    FourBytes(h.revision, h.progIF, h.subclass, h.classCode);
    FourBytes(h.cacheLine, h.latency, h.headerType + if h.multiFunction then 128 else 0, h.selfTest);
    FourBytes(h.primaryBus, h.secondaryBus, h.above % 256, h.above / 256);
    TwoWords(h.vendorID, h.deviceID);
  }

  /** A function is looked at if and only if it is present and is function 0 or lies behind a function 0 that is present
      and declares several functions. */
  lemma VisibleReadsBack(cfg: Config, a: Fn, h: Header, first: Header)
    requires Presents(cfg, a, h) && Presents(cfg, Fn(a.bus, a.device, 0), first)
    ensures Visible(cfg, a)
            <==> a.device < 32 && a.function_ < 8 && h.vendorID != 0xffff
                 && (a.function_ == 0 || (first.vendorID != 0xffff && first.multiFunction))
  {
    HeaderReadsBack(cfg, a, h);
    HeaderReadsBack(cfg, Fn(a.bus, a.device, 0), first);
    hide Presents, Present, MultiFunction;
  }

  lemma FourBytes(b0: nat, b1: nat, b2: nat, b3: nat)
    requires b0 < 256 && b1 < 256 && b2 < 256 && b3 < 256
    ensures var d := b0 + 0x100 * b1 + 0x1_0000 * b2 + 0x100_0000 * b3;
            && d / 0x100 % 256 == b1 && d / 0x1_0000 % 256 == b2 && d / 0x100_0000 % 256 == b3
  {
    var d := b0 + 0x100 * b1 + 0x1_0000 * b2 + 0x100_0000 * b3;
    assert d / 0x100 == b1 + 0x100 * b2 + 0x1_0000 * b3;
    assert d / 0x1_0000 == b2 + 0x100 * b3;
    assert d / 0x100_0000 == b3;
  }

  lemma TwoWords(low: nat, high: nat)
    requires low < 0x1_0000 && high < 0x1_0000
    ensures var d := low + 0x1_0000 * high; d % 0x1_0000 == low && d / 0x1_0000 % 0x1_0000 == high
  {
    assert (low + 0x1_0000 * high) / 0x1_0000 == high;
  }

  /* ---- paths ---- */

  /** The bus on which step i of a path or trail takes place. */
  ghost function BusBefore(cfg: Config, bus: nat, trail: seq<Fn>, i: nat): nat
    requires i <= |trail|
  {
    if i == 0 then bus else SecondaryBus(cfg, trail[i - 1])
  }

  /** Bridges that the scan crosses one after the other, from a bus on. */
  ghost predicate IsPath(cfg: Config, bus: nat, p: seq<Fn>) {
    forall i | 0 <= i < |p| ::
      Visible(cfg, p[i]) && IsBridge(cfg, p[i]) && p[i].bus == BusBefore(cfg, bus, p, i)
  }

  /** The scan of the root bus comes to this bus. */
  ghost predicate OnTree(cfg: Config, root: nat, bus: nat) {
    exists p :: IsPath(cfg, root, p) && BusBefore(cfg, root, p, |p|) == bus
  }

  ghost predicate Reached(cfg: Config, root: nat, a: Fn) {
    Visible(cfg, a) && OnTree(cfg, root, a.bus)
  }

  /** Some bridges, at least one, lead from a bus to another. */
  ghost predicate LeadsTo(cfg: Config, from: nat, to: nat) {
    exists p :: p != [] && IsPath(cfg, from, p) && BusBefore(cfg, from, p, |p|) == to
  }

  /** No bus that the scan comes to leads back to itself. */
  ghost predicate NoLoop(cfg: Config, root: nat) {
    forall bus: nat | OnTree(cfg, root, bus) :: !LeadsTo(cfg, bus, bus)
  }

  lemma PathPrefix(cfg: Config, root: nat, p: seq<Fn>)
    requires IsPath(cfg, root, p) && p != []
    ensures IsPath(cfg, root, p[..|p| - 1])
    ensures BusBefore(cfg, root, p[..|p| - 1], |p| - 1) == p[|p| - 1].bus && Reached(cfg, root, p[|p| - 1])
  {
    var q := p[..|p| - 1];
    forall i | 0 <= i < |q| ensures q[i] == p[i] && BusBefore(cfg, root, q, i) == BusBefore(cfg, root, p, i) {
    }
    assert BusBefore(cfg, root, q, |q|) == BusBefore(cfg, root, p, |q|);
  }

  lemma PathExtends(cfg: Config, root: nat, p: seq<Fn>, a: Fn)
    requires IsPath(cfg, root, p) && BusBefore(cfg, root, p, |p|) == a.bus && Visible(cfg, a) && IsBridge(cfg, a)
    ensures IsPath(cfg, root, p + [a]) && BusBefore(cfg, root, p + [a], |p| + 1) == SecondaryBus(cfg, a)
  {
    var u := p + [a];
    hide Visible, IsBridge, SecondaryBus;
    forall i | 0 <= i < |u|
      ensures Visible(cfg, u[i]) && IsBridge(cfg, u[i]) && u[i].bus == BusBefore(cfg, root, u, i)
    {
      assert i > 0 ==> u[i - 1] == p[i - 1];
      assert i < |p| ==> u[i] == p[i];
    }
  }

  lemma RootOnTree(cfg: Config, root: nat)
    ensures OnTree(cfg, root, root)
  {
    assert IsPath(cfg, root, []) && BusBefore(cfg, root, [], 0) == root;
  }

  /** A path, and another one from where it ends. */
  lemma PathJoin(cfg: Config, root: nat, p: seq<Fn>, q: seq<Fn>)
    requires IsPath(cfg, root, p) && IsPath(cfg, BusBefore(cfg, root, p, |p|), q)
    ensures IsPath(cfg, root, p + q)
    ensures BusBefore(cfg, root, p + q, |p + q|) == BusBefore(cfg, BusBefore(cfg, root, p, |p|), q, |q|)
  {
    var u := p + q;
    hide Visible, IsBridge, SecondaryBus;
    forall i | 0 <= i < |u|
      ensures Visible(cfg, u[i]) && IsBridge(cfg, u[i]) && u[i].bus == BusBefore(cfg, root, u, i)
    {
      if i < |p| {
        assert u[i] == p[i] && (i > 0 ==> u[i - 1] == p[i - 1]);
      } else {
        assert u[i] == q[i - |p|] && (i > |p| ==> u[i - 1] == q[i - |p| - 1]);
        assert |p| > 0 ==> u[|p| - 1] == p[|p| - 1];
      }
    }
    assert |q| > 0 ==> u[|u| - 1] == q[|q| - 1];
    assert |q| == 0 ==> u == p;
  }

  /** One more bridge. */
  lemma TreeGrows(cfg: Config, root: nat, a: Fn)
    requires Reached(cfg, root, a) && IsBridge(cfg, a)
    ensures OnTree(cfg, root, SecondaryBus(cfg, a)) && LeadsTo(cfg, a.bus, SecondaryBus(cfg, a))
    ensures SecondaryBus(cfg, a) < 256
  {
    var p :| IsPath(cfg, root, p) && BusBefore(cfg, root, p, |p|) == a.bus;
    PathExtends(cfg, root, p, a);
    PathExtends(cfg, a.bus, [], a);
    assert [] + [a] == [a];
  }

  lemma LeadsOn(cfg: Config, a: nat, b: nat, c: nat)
    requires LeadsTo(cfg, a, b) && LeadsTo(cfg, b, c)
    ensures LeadsTo(cfg, a, c)
  {
    var p :| p != [] && IsPath(cfg, a, p) && BusBefore(cfg, a, p, |p|) == b;
    var q :| q != [] && IsPath(cfg, b, q) && BusBefore(cfg, b, q, |q|) == c;
    PathJoin(cfg, a, p, q);
    assert p + q != [];
  }

  /* ---- when the recursion ends ---- */

  /** The buses to which a bus leads, and their number, which bounds the depth of the recursion. */
  ghost function Behind(cfg: Config, bus: nat): set<nat> {
    set b: nat | b < 256 && LeadsTo(cfg, bus, b)
  }

  ghost function Depth(cfg: Config, bus: nat): nat {
    |Behind(cfg, bus)|
  }

  /** Without loops every bridge crossed leads to a bus with fewer buses behind it. */
  lemma Deeper(cfg: Config, root: nat, a: Fn)
    requires NoLoop(cfg, root) && Reached(cfg, root, a) && IsBridge(cfg, a)
    ensures OnTree(cfg, root, SecondaryBus(cfg, a)) && Depth(cfg, SecondaryBus(cfg, a)) < Depth(cfg, a.bus)
  {
    TreeGrows(cfg, root, a);
    var second := SecondaryBus(cfg, a);
    hide LeadsTo, OnTree, IsBridge, SecondaryBus, Reached;
    assert !LeadsTo(cfg, second, second);
    forall b | b in Behind(cfg, second) ensures b in Behind(cfg, a.bus) {
      LeadsOn(cfg, a.bus, second, b);
    }
    assert second in Behind(cfg, a.bus) && second !in Behind(cfg, second);
    SubsetSize(Behind(cfg, second), Behind(cfg, a.bus));
  }

  /** A rank for buses that every bridge crossed lowers. */
  ghost predicate Descends(cfg: Config, root: nat, rank: nat -> nat) {
    forall a | Reached(cfg, root, a) && IsBridge(cfg, a) :: rank(SecondaryBus(cfg, a)) < rank(a.bus)
  }

  /** Along a path from the root the rank falls with every step. */
  lemma {:induction false} RankFalls(cfg: Config, root: nat, rank: nat -> nat, p: seq<Fn>, i: nat)
    requires Descends(cfg, root, rank) && IsPath(cfg, root, p) && i <= |p|
    ensures rank(BusBefore(cfg, root, p, |p|)) + (|p| - i) <= rank(BusBefore(cfg, root, p, i))
    decreases |p| - i
  {
    hide Descends, IsPath, BusBefore;
    if i < |p| {
      RankFalls(cfg, root, rank, p, i + 1);
      RankFallsOnce(cfg, root, rank, p, i);
    }
  }

  lemma RankFallsOnce(cfg: Config, root: nat, rank: nat -> nat, p: seq<Fn>, i: nat)
    requires Descends(cfg, root, rank) && IsPath(cfg, root, p) && i < |p|
    ensures rank(BusBefore(cfg, root, p, i + 1)) < rank(BusBefore(cfg, root, p, i))
  {
    StepReached(cfg, root, p, i);
    hide Reached, IsPath, IsBridge, Visible, SecondaryBus;
  }

  lemma StepReached(cfg: Config, root: nat, p: seq<Fn>, i: nat)
    requires IsPath(cfg, root, p) && i < |p|
    ensures Reached(cfg, root, p[i]) && IsBridge(cfg, p[i]) && p[i].bus == BusBefore(cfg, root, p, i)
    ensures SecondaryBus(cfg, p[i]) == BusBefore(cfg, root, p, i + 1)
  {
    var q := p[..i];
    hide Visible, IsBridge, SecondaryBus;
    forall k | 0 <= k < |q| ensures q[k] == p[k] && BusBefore(cfg, root, q, k) == BusBefore(cfg, root, p, k) {
    }
    assert IsPath(cfg, root, q) && BusBefore(cfg, root, q, |q|) == BusBefore(cfg, root, p, |q|);
  }

  /** There is no loop if and only if the buses can be ranked so that every bridge crossed goes down. */
  lemma NoLoopIffRanked(cfg: Config, root: nat)
    ensures NoLoop(cfg, root) <==> exists rank: nat -> nat :: Descends(cfg, root, rank)
  {
    if NoLoop(cfg, root) {
      DepthDescends(cfg, root);
    }
    if rank: nat -> nat :| Descends(cfg, root, rank) {
      RankedHasNoLoop(cfg, root, rank);
    }
  }

  lemma DepthDescends(cfg: Config, root: nat)
    requires NoLoop(cfg, root)
    ensures Descends(cfg, root, (bus: nat) => Depth(cfg, bus))
  {
    hide Depth, NoLoop, Reached, IsBridge;
    forall a | Reached(cfg, root, a) && IsBridge(cfg, a)
      ensures Depth(cfg, SecondaryBus(cfg, a)) < Depth(cfg, a.bus)
    {
      Deeper(cfg, root, a);
    }
  }

  lemma RankedHasNoLoop(cfg: Config, root: nat, rank: nat -> nat)
    requires Descends(cfg, root, rank)
    ensures NoLoop(cfg, root)
  {
    hide Descends, IsPath, Visible;
    forall bus: nat | OnTree(cfg, root, bus) ensures !LeadsTo(cfg, bus, bus) {
      if LeadsTo(cfg, bus, bus) {
        var p :| IsPath(cfg, root, p) && BusBefore(cfg, root, p, |p|) == bus;
        var q :| q != [] && IsPath(cfg, bus, q) && BusBefore(cfg, bus, q, |q|) == bus;
        PathJoin(cfg, root, p, q);
        RankFalls(cfg, root, rank, p + q, |p|);
        BusAtJoin(cfg, root, p, q);
      }
    }
  }

  lemma BusAtJoin(cfg: Config, root: nat, p: seq<Fn>, q: seq<Fn>)
    ensures BusBefore(cfg, root, p + q, |p|) == BusBefore(cfg, root, p, |p|)
  {
    assert |p| > 0 ==> (p + q)[|p| - 1] == p[|p| - 1];
  }

  /** Numbering every secondary bus above the bridge's own bus is enough. */
  lemma ForwardNumberingHasNoLoop(cfg: Config, root: nat)
    requires forall a | Reached(cfg, root, a) && IsBridge(cfg, a) :: a.bus < SecondaryBus(cfg, a)
    ensures NoLoop(cfg, root)
  {
    var rank: nat -> nat := (bus: nat) => if bus < 256 then 256 - bus else 0;
    assert Descends(cfg, root, rank);
    hide Descends;
    RankedHasNoLoop(cfg, root, rank);
  }

  /** Paths from the root no longer than m. */
  ghost predicate Shallow(cfg: Config, root: nat, m: nat) {
    forall p | IsPath(cfg, root, p) :: |p| <= m
  }

  /** The depth of the recursion is bounded, and then by 256, if and only if there is no loop: with one, the scan goes
      round it for ever. */
  lemma RecursionBoundedIff(cfg: Config, root: nat)
    ensures NoLoop(cfg, root) <==> exists m: nat :: Shallow(cfg, root, m)
    ensures NoLoop(cfg, root) ==> Shallow(cfg, root, 256)
  {
    if NoLoop(cfg, root) {
      DepthBounds(cfg, root);
    } else {
      var bus: nat :| OnTree(cfg, root, bus) && LeadsTo(cfg, bus, bus);
      var p :| IsPath(cfg, root, p) && BusBefore(cfg, root, p, |p|) == bus;
      var q :| q != [] && IsPath(cfg, bus, q) && BusBefore(cfg, bus, q, |q|) == bus;
      forall m: nat ensures !Shallow(cfg, root, m) {
        var r := RoundAndRound(cfg, root, p, q, m + 1);
      }
    }
  }

  lemma DepthBounds(cfg: Config, root: nat)
    requires NoLoop(cfg, root)
    ensures Shallow(cfg, root, 256)
  {
    DepthDescends(cfg, root);
    hide Descends, IsPath, NoLoop;
    forall p | IsPath(cfg, root, p) ensures |p| <= 256 {
      RankFalls(cfg, root, (bus: nat) => Depth(cfg, bus), p, 0);
      AtMost256(cfg, root);
    }
  }

  lemma AtMost256(cfg: Config, bus: nat)
    ensures Depth(cfg, bus) <= 256
  {
    IndicesBelow(Behind(cfg, bus), 256);
  }

  /** Once round the loop after another: paths of any length. */
  lemma {:induction false} RoundAndRound(cfg: Config, root: nat, p: seq<Fn>, q: seq<Fn>, times: nat)
    returns (r: seq<Fn>)
    requires q != [] && IsPath(cfg, root, p) && IsPath(cfg, BusBefore(cfg, root, p, |p|), q)
    requires BusBefore(cfg, BusBefore(cfg, root, p, |p|), q, |q|) == BusBefore(cfg, root, p, |p|)
    ensures |r| >= times && IsPath(cfg, root, r) && BusBefore(cfg, root, r, |r|) == BusBefore(cfg, root, p, |p|)
    decreases times
  {
    if times == 0 {
      r := p;
    } else {
      var s := RoundAndRound(cfg, root, p, q, times - 1);
      PathJoin(cfg, root, s, q);
      r := s + q;
    }
  }
}

/** PEI memory initialisation on ARM platforms: where the UEFI region goes, and how the system
    memory descriptor around the firmware device is split in the HOB list. */
module MemoryInit {

  const TWO32: nat := 0x1_0000_0000
  const TWO64: nat := 0x1_0000_0000_0000_0000

  type uint32 = n: nat | n < TWO32
  type uint64 = n: nat | n < TWO64

  function Add64(a: uint64, b: uint64): uint64 { (a + b) % TWO64 }
  function Sub64(a: uint64, b: uint64): uint64 { (a - b) % TWO64 }

  // ----- HOBs

  const SYSTEM_MEMORY: nat := 0
  const BOOT_SERVICES_DATA: nat := 4

  datatype Hob =
    | Resource(kind: nat, attribute: nat, start: uint64, length: uint64)
    | Allocation(base: uint64, size: uint64, memoryType: nat)
    | OtherHob(id: nat)

  /** The PCDs: system memory and the firmware device. */
  datatype Config = Config(base: uint64, size: uint64, fdBase: uint64, fdSize: uint32)
  {
    function Top(): nat { base + size }
    function FdTop(): nat { fdBase + fdSize }
  }

  predicate IsMemory(h: Hob)
  {
    h.Resource? && h.kind == SYSTEM_MEMORY
  }

  function End(h: Hob): nat
    requires h.Resource?
  {
    h.start + h.length
  }

  predicate Covers(h: Hob, a: nat)
  {
    IsMemory(h) && h.start <= a < End(h)
  }

  /** Address `a` is described as system memory with attribute `attr`. */
  ghost predicate Described(hobs: seq<Hob>, a: nat, attr: nat)
  {
    exists h :: h in hobs && Covers(h, a) && h.attribute == attr
  }

  /** No address belongs to two system memory descriptors. */
  ghost predicate Disjoint(hobs: seq<Hob>)
  {
    forall i, j, a: nat {:trigger Covers(hobs[i], a), Covers(hobs[j], a)} ::
      0 <= i < |hobs| && 0 <= j < |hobs| && Covers(hobs[i], a) && Covers(hobs[j], a) ==> i == j
  }

  // ----- MemoryPeim

  const DEFAULT_ATTRIBUTES: nat := 0x3807

  predicate Declares(c: Config, h: Hob)
  {
    IsMemory(h) && c.base >= h.start && Add64(h.start, h.length) <= Add64(c.base, c.size)
  }

  predicate HoldsFd(c: Config, h: Hob)
  {
    IsMemory(h) && c.fdBase >= h.start && Add64(c.fdBase, c.fdSize) <= Add64(h.start, h.length)
  }

  /** The first HOB from `i` on that satisfies `p`, or the end of the list. */
  function First(p: Hob -> bool, hobs: seq<Hob>, i: nat): (n: nat)
    requires i <= |hobs|
    ensures i <= n <= |hobs|
    ensures forall k :: i <= k < n ==> !p(hobs[k])
    ensures n < |hobs| ==> p(hobs[n])
    decreases |hobs| - i
  {
    if i == |hobs| || p(hobs[i]) then i else First(p, hobs, i + 1)
  }

  function Declared(c: Config, hobs: seq<Hob>): seq<Hob>
  {
    if First(h => Declares(c, h), hobs, 0) < |hobs| then hobs
    else hobs + [Resource(SYSTEM_MEMORY, DEFAULT_ATTRIBUTES, c.base, c.size)]
  }

  /** The firmware device lies in system memory, so its descriptor has to be split. */
  predicate FdInMemory(c: Config)
  {
    c.fdBase >= c.base && Add64(c.fdBase, c.fdSize) <= Add64(c.base, c.size)
  }

  /** What becomes of a descriptor that holds the firmware device: its new value, and the HOBs
      appended to the list. */
  function Pieces(c: Config, h: Hob): (p: (Hob, seq<Hob>))
    requires IsMemory(h) && c.fdBase >= h.start
  {
    var fdTop, top := Add64(c.fdBase, c.fdSize), Add64(h.start, h.length);
    var fd := Resource(SYSTEM_MEMORY, h.attribute, c.fdBase, c.fdSize);
    var allocation := Allocation(c.fdBase, c.fdSize, BOOT_SERVICES_DATA);
    if c.fdBase == h.start then
      if Add64(c.base, c.size) != fdTop then
        (h.(start := Add64(h.start, c.fdSize), length := Sub64(h.length, c.fdSize)), [fd, allocation])
      else (h, [allocation])
    else
      var below := h.(length := Sub64(c.fdBase, h.start));
      if fdTop < top then
        (below, [fd, Resource(SYSTEM_MEMORY, h.attribute, fdTop, Sub64(top, fdTop)), allocation])
      else (below, [fd, allocation])
  }

  /** The list after the descriptor at `i` has been split around the firmware device. */
  function Split(c: Config, hobs: seq<Hob>, i: nat): seq<Hob>
    requires i < |hobs| && IsMemory(hobs[i]) && c.fdBase >= hobs[i].start
  {
    var (h, extra) := Pieces(c, hobs[i]);
    hobs[i := h] + extra
  }

  /** The list after MemoryPeim, or an ASSERT that does not hold. */
  datatype Outcome = AssertFails | Hobs(hobs: seq<Hob>)

  function Peim(c: Config, hobs: seq<Hob>): Outcome
  {
    var declared := Declared(c, hobs);
    var i := First(h => HoldsFd(c, h), declared, 0);
    if c.size == 0 then AssertFails
    else if !FdInMemory(c) then Hobs(declared)
    else if i == |declared| then AssertFails
    else Hobs(Split(c, declared, i))
  }

  class HobList {
    var hobs: seq<Hob>

    constructor (hobs: seq<Hob>)
      ensures this.hobs == hobs
    {
      this.hobs := hobs;
    }

    method Build(h: Hob)
      modifies this
      ensures hobs == old(hobs) + [h]
    {
      hobs := hobs + [h];
    }

    /** MemoryPeim up to InitMmu; false where an ASSERT stops it. */
    method MemoryPeim(c: Config) returns (ok: bool)
      modifies this
      ensures match Peim(c, old(hobs))
              case AssertFails => !ok
              case Hobs(h) => ok && hobs == h
    {
      if c.size == 0 {
        return false;
      }
      var found, i := false, 0;
      ghost var p := (h: Hob) => Declares(c, h);
      while i < |hobs|
        invariant i <= |hobs| && hobs == old(hobs)
        invariant First(p, hobs, 0) == First(p, hobs, i)
      {
        if Declares(c, hobs[i]) {
          found := true;
          break;
        }
        i := i + 1;
      }
      if !found {
        Build(Resource(SYSTEM_MEMORY, DEFAULT_ATTRIBUTES, c.base, c.size));
      }
      assert hobs == Declared(c, old(hobs));
      if c.fdBase >= c.base && Add64(c.fdBase, c.fdSize) <= Add64(c.base, c.size) {
        ok := SplitAroundFd(c);
        return;
      }
      return true;
    }

    /** The search for the descriptor that holds the firmware device, and its split in place. */
    method SplitAroundFd(c: Config) returns (found: bool)
      modifies this
      ensures var i := First(h => HoldsFd(c, h), old(hobs), 0);
              && (found <==> i < |old(hobs)|)
              && (found ==> hobs == Split(c, old(hobs), i))
    {
      var i := 0;
      ghost var p := (h: Hob) => HoldsFd(c, h);
      while i < |hobs|
        invariant i <= |hobs| && hobs == old(hobs)
        invariant First(p, hobs, 0) == First(p, hobs, i)
      {
        if HoldsFd(c, hobs[i]) {
          SplitAt(c, i);
          return true;
        }
        i := i + 1;
      }
      return false;
    }

    method SplitAt(c: Config, i: nat)
      requires i < |hobs| && IsMemory(hobs[i]) && c.fdBase >= hobs[i].start
      modifies this
      ensures hobs == Split(c, old(hobs), i)
    {
      var attributes, length := hobs[i].attribute, hobs[i].length;
      var resourceTop, fdTop := Add64(hobs[i].start, length), Add64(c.fdBase, c.fdSize);
      if c.fdBase == hobs[i].start {
        if Add64(c.base, c.size) != fdTop {
          Build(Resource(SYSTEM_MEMORY, attributes, c.fdBase, c.fdSize));
          hobs := hobs[i := hobs[i].(start := Add64(hobs[i].start, c.fdSize))];
          hobs := hobs[i := hobs[i].(length := Sub64(hobs[i].length, c.fdSize))];
        }
      } else {
        Build(Resource(SYSTEM_MEMORY, attributes, c.fdBase, c.fdSize));
        hobs := hobs[i := hobs[i].(length := Sub64(c.fdBase, hobs[i].start))];
        if fdTop < Add64(hobs[i].start, length) {
          Build(Resource(SYSTEM_MEMORY, attributes, fdTop, Sub64(resourceTop, fdTop)));
        }
      }
      Build(Allocation(c.fdBase, c.fdSize, BOOT_SERVICES_DATA));
    }
  }

  // ----- the split conserves memory

  /** The firmware device ends where system memory does, as the source compares the two. */
  predicate AtTop(c: Config)
  {
    Add64(c.base, c.size) == Add64(c.fdBase, c.fdSize)
  }

  /** The descriptor does contain the firmware device; if it runs past the end of the address space,
      the device is its end. */
  predicate Contains(c: Config, h: Hob)
  {
    && IsMemory(h) && h.start <= c.fdBase && c.FdTop() <= End(h)
    && (End(h) <= TWO64 || End(h) == c.FdTop())
  }

  /** The test of the search, without wrap-around: a device that ends with the address space passes
      it for every descriptor that starts low enough, and a descriptor that ends there fails it for
      every other device. */
  lemma {:induction false} HoldsFdExactly(c: Config, h: Hob)
    requires IsMemory(h) && c.fdSize > 0 && c.FdTop() <= TWO64 && End(h) <= TWO64
    ensures HoldsFd(c, h) <==> h.start <= c.fdBase && (c.FdTop() == TWO64 || c.FdTop() <= End(h) < TWO64)
  {
    Sum64(c.fdBase, c.fdSize);
    Sum64(h.start, h.length);
    hide Add64;
  }

  lemma Sum64(a: uint64, b: uint64)
    ensures Add64(a, b) == if a + b < TWO64 then a + b else a + b - TWO64
  {
  }

  lemma Difference64(a: uint64, b: uint64)
    ensures Sub64(a, b) == if a >= b then a - b else a - b + TWO64
  {
  }

  lemma {:induction false} HeldIsContained(c: Config, h: Hob)
    requires HoldsFd(c, h) && c.FdTop() < TWO64
    ensures Contains(c, h) && End(h) < TWO64
  {
    Sum64(c.fdBase, c.fdSize);
    Sum64(h.start, h.length);
    hide Add64;
  }

  /** The pieces of a descriptor that contains the device are cut at the two ends of the device. */
  lemma {:induction false} PiecesAreCut(c: Config, h: Hob)
    requires HoldsFd(c, h) && Contains(c, h)
    ensures var fd := Resource(SYSTEM_MEMORY, h.attribute, c.fdBase, c.fdSize);
            var allocation := Allocation(c.fdBase, c.fdSize, BOOT_SERVICES_DATA);
            Pieces(c, h) ==
              if c.fdBase == h.start then
                if !AtTop(c) then
                  (h.(start := Add64(h.start, c.fdSize), length := End(h) - c.FdTop()), [fd, allocation])
                else (h, [allocation])
              else if c.FdTop() < End(h) then
                (h.(length := c.fdBase - h.start),
                 [fd, Resource(SYSTEM_MEMORY, h.attribute, c.FdTop(), End(h) - c.FdTop()), allocation])
              else (h.(length := c.fdBase - h.start), [fd, allocation])
  {
    var fdTop, top := Add64(c.fdBase, c.fdSize), Add64(h.start, h.length);
    Sum64(c.fdBase, c.fdSize);
    Sum64(h.start, h.length);
    Difference64(h.length, c.fdSize);
    Difference64(c.fdBase, h.start);
    Difference64(top, fdTop);
    hide Add64, Sub64;
  }

  /** The piece that holds an address of the descriptor: 0 is the descriptor's own place. */
  function PieceOf(c: Config, h: Hob, a: nat): (n: nat)
    requires IsMemory(h)
  {
    if c.fdBase == h.start && AtTop(c) then 0
    else if c.fdBase <= a < c.FdTop() then 1
    else if a >= c.FdTop() && c.fdBase != h.start then 2
    else 0
  }

  function AllPieces(c: Config, h: Hob): seq<Hob>
    requires IsMemory(h) && c.fdBase >= h.start
  {
    var (h', extra) := Pieces(c, h);
    [h'] + extra
  }

  /** Every address of the descriptor lies in exactly one piece, every piece inside the
      descriptor, and every piece keeps the attribute. */
  lemma {:induction false} PiecesPartition(c: Config, h: Hob, a: nat)
    requires HoldsFd(c, h) && Contains(c, h)
    ensures forall k :: 0 <= k < |AllPieces(c, h)| ==>
              (Covers(AllPieces(c, h)[k], a) <==> Covers(h, a) && k == PieceOf(c, h, a))
    ensures Covers(h, a) ==> PieceOf(c, h, a) < |AllPieces(c, h)|
    ensures forall k :: 0 <= k < |AllPieces(c, h)| && IsMemory(AllPieces(c, h)[k]) ==>
              AllPieces(c, h)[k].attribute == h.attribute
  {
    PiecesAreCut(c, h);
    Sum64(h.start, c.fdSize);
    hide Pieces, Add64, AtTop;
  }

  /** The split list at an index: an untouched HOB, or a piece. */
  lemma {:induction false} SplitIndex(c: Config, hobs: seq<Hob>, i: nat, k: nat)
    requires i < |hobs| && IsMemory(hobs[i]) && c.fdBase >= hobs[i].start && k < |Split(c, hobs, i)|
    ensures |Split(c, hobs, i)| == |hobs| + |AllPieces(c, hobs[i])| - 1
    ensures Split(c, hobs, i)[k] ==
            if k < |hobs| && k != i then hobs[k]
            else AllPieces(c, hobs[i])[if k == i then 0 else k - |hobs| + 1]
  {
    hide Pieces;
  }

  /** Memory is neither lost nor invented: each address keeps exactly its attributes. */
  lemma {:induction false} SplitConserves(c: Config, hobs: seq<Hob>, i: nat, a: nat, attr: nat)
    requires i < |hobs| && HoldsFd(c, hobs[i]) && Contains(c, hobs[i])
    ensures Described(Split(c, hobs, i), a, attr) <==> Described(hobs, a, attr)
  {
    var out, h := Split(c, hobs, i), hobs[i];
    PiecesPartition(c, h, a);
    hide Pieces, Split, AllPieces, PieceOf, HoldsFd;
    SplitIndex(c, hobs, i, 0);
    if Described(hobs, a, attr) {
      var k :| 0 <= k < |hobs| && Covers(hobs[k], a) && hobs[k].attribute == attr;
      var p := PieceOf(c, h, a);
      var k' := if k != i then k else if p == 0 then i else |hobs| + p - 1;
      SplitIndex(c, hobs, i, k');
      assert out[k'] in out;
    }
    if Described(out, a, attr) {
      var k :| 0 <= k < |out| && Covers(out[k], a) && out[k].attribute == attr;
      SplitIndex(c, hobs, i, k);
      assert hobs[if k < |hobs| then k else i] in hobs;
    }
  }

  lemma {:induction false} SplitKeepsDisjoint(c: Config, hobs: seq<Hob>, i: nat)
    requires i < |hobs| && HoldsFd(c, hobs[i]) && Contains(c, hobs[i]) && Disjoint(hobs)
    ensures Disjoint(Split(c, hobs, i))
  {
    var out := Split(c, hobs, i);
    hide Pieces, Split, AllPieces, PieceOf, HoldsFd;
    forall k, m, a: nat | 0 <= k < |out| && 0 <= m < |out| && Covers(out[k], a) && Covers(out[m], a)
      ensures k == m
    {
      PiecesPartition(c, hobs[i], a);
      SplitIndex(c, hobs, i, k);
      SplitIndex(c, hobs, i, m);
      var k', m' := if k < |hobs| then k else i, if m < |hobs| then m else i;
      assert Covers(hobs[k'], a) && Covers(hobs[m'], a);
    }
  }

  /** The one case in which the split does not touch the descriptor. */
  predicate LeftAsItIs(c: Config, h: Hob)
  {
    IsMemory(h) && c.fdBase == h.start && AtTop(c)
  }

  /** The lists describe the same addresses with the same attributes. */
  ghost predicate SameMemory(a: seq<Hob>, b: seq<Hob>)
  {
    forall x, attr :: Described(a, x, attr) <==> Described(b, x, attr)
  }

  /** The split keeps the descriptors disjoint and their memory the same if and only if the
      descriptor contains the device, or the split leaves it as it is. */
  lemma {:induction false} SplitIsRightIff(c: Config, hobs: seq<Hob>, i: nat)
    requires i < |hobs| && HoldsFd(c, hobs[i]) && Disjoint(hobs)
    ensures Disjoint(Split(c, hobs, i)) && SameMemory(Split(c, hobs, i), hobs) <==>
            Contains(c, hobs[i]) || LeftAsItIs(c, hobs[i])
  {
    var h, out := hobs[i], Split(c, hobs, i);
    if Contains(c, h) {
      SplitKeepsDisjoint(c, hobs, i);
      forall a, attr
        ensures Described(out, a, attr) <==> Described(hobs, a, attr)
      {
        SplitConserves(c, hobs, i, a, attr);
      }
    } else if LeftAsItIs(c, h) {
      assert out == hobs + [Allocation(c.fdBase, c.fdSize, BOOT_SERVICES_DATA)];
      AllocationIsNoMemory(hobs, Allocation(c.fdBase, c.fdSize, BOOT_SERVICES_DATA));
    } else {
      NotContained(c, h);
      if End(h) < TWO64 {
        LastByteIsInvented(c, hobs, i);
      } else {
        LastByteIsLost(c, hobs, i);
      }
    }
  }

  /** A descriptor that passes the test and does not contain the device: one of the two wraps. */
  lemma {:induction false} NotContained(c: Config, h: Hob)
    requires HoldsFd(c, h) && !Contains(c, h)
    ensures c.FdTop() >= TWO64 && (End(h) < TWO64 || TWO64 <= c.FdTop() < End(h))
  {
    Sum64(c.fdBase, c.fdSize);
    Sum64(h.start, h.length);
    hide Add64;
  }

  lemma {:induction false} AllocationIsNoMemory(hobs: seq<Hob>, x: Hob)
    requires !IsMemory(x) && Disjoint(hobs)
    ensures Disjoint(hobs + [x]) && SameMemory(hobs + [x], hobs)
  {
    var out := hobs + [x];
    forall h | h in out && IsMemory(h)
      ensures h in hobs
    {
    }
    assert forall h :: h in hobs ==> h in out;
    forall k, m, a: nat | 0 <= k < |out| && 0 <= m < |out| && Covers(out[k], a) && Covers(out[m], a)
      ensures k == m
    {
      assert out[k] == hobs[k] && out[m] == hobs[m];
    }
  }

  /** A device at the end of the address space, outside the descriptor that is split: its last
      byte is described anew, or twice. */
  lemma {:induction false} LastByteIsInvented(c: Config, hobs: seq<Hob>, i: nat)
    requires i < |hobs| && HoldsFd(c, hobs[i]) && c.FdTop() >= TWO64 && End(hobs[i]) < TWO64
    requires !LeftAsItIs(c, hobs[i])
    ensures Described(Split(c, hobs, i), TWO64 - 1, hobs[i].attribute)
    ensures !(Disjoint(Split(c, hobs, i)) && SameMemory(Split(c, hobs, i), hobs))
  {
    var h, out, a := hobs[i], Split(c, hobs, i), TWO64 - 1;
    var fd := Resource(SYSTEM_MEMORY, h.attribute, c.fdBase, c.fdSize);
    assert AllPieces(c, h)[1] == fd;
    hide Pieces, AllPieces, Split, HoldsFd;
    SplitIndex(c, hobs, i, |hobs|);
    assert out[|hobs|] == fd && fd in out && Covers(fd, a);
    assert Described(out, a, h.attribute);
    if Described(hobs, a, h.attribute) {
      var k :| 0 <= k < |hobs| && Covers(hobs[k], a);
      assert k != i;
      SplitIndex(c, hobs, i, k);
      assert Covers(out[k], a) && Covers(out[|hobs|], a);
    }
  }

  /** A descriptor that runs past the end of the address space and beyond the device: the rest behind
      the device is described at the beginning of the address space. */
  lemma {:induction false} LastByteIsLost(c: Config, hobs: seq<Hob>, i: nat)
    requires i < |hobs| && HoldsFd(c, hobs[i]) && TWO64 <= c.FdTop() < End(hobs[i]) && Disjoint(hobs)
    requires !LeftAsItIs(c, hobs[i])
    ensures !SameMemory(Split(c, hobs, i), hobs)
  {
    var h, out := hobs[i], Split(c, hobs, i);
    var a := End(h) - 1;
    PiecesEndEarlier(c, h);
    hide Pieces, AllPieces, Split, HoldsFd;
    assert h in hobs && Covers(hobs[i], a);
    assert Described(hobs, a, h.attribute);
    forall k | 0 <= k < |out|
      ensures !Covers(out[k], a)
    {
      SplitIndex(c, hobs, i, k);
    }
    assert !Described(out, a, h.attribute);
  }

  lemma {:induction false} PiecesEndEarlier(c: Config, h: Hob)
    requires HoldsFd(c, h) && TWO64 <= c.FdTop() < End(h) && !LeftAsItIs(c, h)
    ensures forall k :: 0 <= k < |AllPieces(c, h)| && IsMemory(AllPieces(c, h)[k]) ==> End(AllPieces(c, h)[k]) < End(h)
  {
    var fdTop, top := Add64(c.fdBase, c.fdSize), Add64(h.start, h.length);
    Sum64(c.fdBase, c.fdSize);
    Sum64(h.start, h.length);
    Sum64(h.start, c.fdSize);
    Difference64(h.length, c.fdSize);
    Difference64(c.fdBase, h.start);
    Difference64(top, fdTop);
    hide Add64, Sub64;
  }

  /** The whole search and split. In every branch the list gains exactly one allocation HOB, for
      exactly the firmware device, and every HOB but the one that is split stays where it was. The
      descriptors stay disjoint and describe the same addresses with the same attributes if and
      only if the descriptor found contains the device or is left as it is. */
  lemma {:induction false} PeimConserves(c: Config, hobs: seq<Hob>, i: nat)
    requires FdInMemory(c) && c.size != 0
    requires var d := Declared(c, hobs);
             Disjoint(d) && i == First(h => HoldsFd(c, h), d, 0) && i < |d|
    ensures var d := Declared(c, hobs);
            Peim(c, hobs).Hobs? &&
            var out := Peim(c, hobs).hobs;
            && (Disjoint(out) && SameMemory(out, d) <==> Contains(c, d[i]) || LeftAsItIs(c, d[i]))
            && |out| > |d| && out[|out| - 1] == Allocation(c.fdBase, c.fdSize, BOOT_SERVICES_DATA)
            && (forall k :: |d| <= k < |out| - 1 ==> IsMemory(out[k]))
            && (forall k :: 0 <= k < |d| && k != i ==> out[k] == d[k])
            && IsMemory(out[i])
  {
    var d := Declared(c, hobs);
    SplitIsRightIff(c, d, i);
    hide SameMemory, Disjoint, HoldsFd;
  }

  /** A device that ends with the address space counts as part of any system memory, and splitting
      an unrelated descriptor describes the device as memory. */
  lemma {:induction false} SplitCanInvent()
    ensures var c := Config(0x8000_0000, 0x4000_0000, 0xFFFF_FFFF_FFF0_0000, 0x10_0000);
            var hobs := [Resource(SYSTEM_MEMORY, DEFAULT_ATTRIBUTES, 0x8000_0000, 0x4000_0000)];
            && FdInMemory(c) && c.FdTop() == TWO64 && c.Top() < c.fdBase
            && First(h => HoldsFd(c, h), Declared(c, hobs), 0) == 0 && Declared(c, hobs) == hobs
            && Described(Split(c, hobs, 0), TWO64 - 1, DEFAULT_ATTRIBUTES) && !Described(hobs, TWO64 - 1, DEFAULT_ATTRIBUTES)
  {
    var c := Config(0x8000_0000, 0x4000_0000, 0xFFFF_FFFF_FFF0_0000, 0x10_0000);
    var h := Resource(SYSTEM_MEMORY, DEFAULT_ATTRIBUTES, 0x8000_0000, 0x4000_0000);
    Sum64(c.fdBase, c.fdSize);
    Sum64(c.base, c.size);
    hide Add64;
    assert HoldsFd(c, h) && Declares(c, h);
    assert Declared(c, [h]) == [h];
    LastByteIsInvented(c, [h], 0);
  }

  /** The descriptor of the firmware device is split off exactly, except when it starts the
      descriptor, ends at the top of system memory, and the descriptor goes on beyond that. */
  lemma {:induction false} FdIsSplitOff(c: Config, hobs: seq<Hob>, i: nat)
    requires i < |hobs| && c.fdSize > 0 && Disjoint(hobs) && HoldsFd(c, hobs[i]) && Contains(c, hobs[i])
    ensures (exists h :: h in Split(c, hobs, i) && IsMemory(h) && h.start == c.fdBase && h.length == c.fdSize)
            <==> !(c.fdBase == hobs[i].start && AtTop(c) && End(hobs[i]) != c.FdTop())
  {
    var h, out := hobs[i], Split(c, hobs, i);
    assert h in hobs;
    var (h', extra) := Pieces(c, h);
    if c.fdBase == h.start && AtTop(c) {
      assert out[i] == h && Covers(h, c.fdBase);
      SplitKeepsDisjoint(c, hobs, i);
      forall g | g in out && IsMemory(g) && g.start == c.fdBase && g.length == c.fdSize
        ensures g == h
      {
        var k :| 0 <= k < |out| && out[k] == g;
        assert Covers(out[k], c.fdBase) && Covers(out[i], c.fdBase);
      }
      assert h in out;
    } else {
      assert out[|hobs|] == extra[0] && extra[0] in out;
    }
  }

  // ----- declaring system memory

  /** What the search leaves: the list as it is if some descriptor counts as the declaration, and else
      one more descriptor, for exactly system memory. */
  lemma {:induction false} DeclaredIs(c: Config, hobs: seq<Hob>)
    ensures Declared(c, hobs) ==
            if exists h :: h in hobs && Declares(c, h) then hobs else hobs + [Resource(0, 0x3807, c.base, c.size)]
  {
    var n := First(h => Declares(c, h), hobs, 0);
    hide Declares;
    if n < |hobs| {
      assert hobs[n] in hobs;
    } else {
      forall h | h in hobs
        ensures !Declares(c, h)
      {
        var k :| 0 <= k < |hobs| && hobs[k] == h;
      }
    }
  }

  /** When MemoryPeim stops at an ASSERT, and when it only declares. */
  lemma {:induction false} PeimStopsIff(c: Config, hobs: seq<Hob>)
    ensures Peim(c, hobs) == AssertFails <==>
            c.size == 0 || (FdInMemory(c) && forall h <- Declared(c, hobs) :: !HoldsFd(c, h))
    ensures c.size > 0 && !FdInMemory(c) ==> Peim(c, hobs) == Hobs(Declared(c, hobs))
  {
    var d := Declared(c, hobs);
    var n := First(h => HoldsFd(c, h), d, 0);
    hide Declared, HoldsFd, FdInMemory, Split;
    if n < |d| {
      assert d[n] in d;
    } else {
      forall h | h in d
        ensures !HoldsFd(c, h)
      {
        var k :| 0 <= k < |d| && d[k] == h;
      }
    }
  }

  /** The test for a declaration, without wrap-around: a descriptor that ends with the address space
      passes it, and none other does once system memory ends there. */
  lemma {:induction false} DeclaresExactly(c: Config, h: Hob)
    requires IsMemory(h) && c.size > 0 && c.Top() <= TWO64 && End(h) <= TWO64
    ensures Declares(c, h) <==>
            h.start <= c.base && (End(h) == TWO64 || End(h) == 0 || (c.Top() < TWO64 && End(h) <= c.Top()))
  {
    Sum64(c.base, c.size);
    Sum64(h.start, h.length);
    hide Add64;
  }

  /** When the device counts as part of system memory, without wrap-around. */
  lemma {:induction false} FdInMemoryExactly(c: Config)
    requires c.fdSize > 0 && c.size > 0 && c.FdTop() <= TWO64 && c.Top() <= TWO64
    ensures FdInMemory(c) <==> c.base <= c.fdBase && (c.FdTop() == TWO64 || (c.Top() < TWO64 && c.FdTop() <= c.Top()))
  {
    Sum64(c.base, c.size);
    Sum64(c.fdBase, c.fdSize);
    hide Add64;
  }

  /** Appending system memory keeps the descriptors disjoint if and only if no descriptor touches
      it already; when a descriptor counts as the declaration, the list stays as it is. */
  lemma {:induction false} DeclareKeepsDisjoint(c: Config, hobs: seq<Hob>)
    requires Disjoint(hobs)
    ensures Disjoint(Declared(c, hobs)) <==>
            ((exists h :: h in hobs && Declares(c, h))
             || forall h, a: nat :: h in hobs && Covers(h, a) ==> !(c.base <= a < c.Top()))
  {
    var n := First(h => Declares(c, h), hobs, 0);
    var main := Resource(SYSTEM_MEMORY, DEFAULT_ATTRIBUTES, c.base, c.size);
    var out := Declared(c, hobs);
    if n < |hobs| {
      assert hobs[n] in hobs && Declares(c, hobs[n]);
    } else {
      forall h | h in hobs
        ensures !Declares(c, h)
      {
        var k :| 0 <= k < |hobs| && hobs[k] == h;
      }
      assert out == hobs + [main];
      if Disjoint(out) {
        forall h, a: nat | h in hobs && Covers(h, a)
          ensures !(c.base <= a < c.Top())
        {
          var k :| 0 <= k < |hobs| && hobs[k] == h;
          assert out[k] == h && out[|hobs|] == main;
          assert Covers(out[k], a) && (c.base <= a < c.Top() <==> Covers(out[|hobs|], a));
        }
      }
      if forall h, a: nat :: h in hobs && Covers(h, a) ==> !(c.base <= a < c.Top()) {
        forall k, m, a: nat | 0 <= k < |out| && 0 <= m < |out| && Covers(out[k], a) && Covers(out[m], a)
          ensures k == m
        {
          assert k < |hobs| ==> out[k] == hobs[k] && out[k] in hobs;
          assert m < |hobs| ==> out[m] == hobs[m] && out[m] in hobs;
        }
      }
    }
  }

  /** A descriptor that counts as the declaration describes all of system memory if and only if
      it ends at the top of system memory or with the address space. */
  lemma {:induction false} DeclarationCovers(c: Config, h: Hob)
    requires c.size > 0 && Declares(c, h) && c.Top() <= TWO64 && End(h) <= TWO64
    ensures (forall a :: c.base <= a < c.Top() ==> Covers(h, a)) <==> End(h) == c.Top() || End(h) == TWO64
  {
    Sum64(c.base, c.size);
    Sum64(h.start, h.length);
    hide Add64;
    assert c.base <= c.Top() - 1 < c.Top();
    if End(h) < c.Top() {
      assert !Covers(h, c.Top() - 1);
    }
  }

  /** A descriptor below system memory counts as its declaration, and system memory is then not
      declared at all. */
  lemma {:induction false} DeclarationCanBeMissed()
    ensures var c := Config(0x8000_0000, 0x4000_0000, 0, 0);
            var hobs := [Resource(SYSTEM_MEMORY, DEFAULT_ATTRIBUTES, 0, 0x1000)];
            && Declared(c, hobs) == hobs
            && forall a, attr :: c.base <= a < c.Top() ==> !Described(Declared(c, hobs), a, attr)
  {
  }

  // ----- placing the UEFI region

  /** The two processors: width of a UINTN and MAX_ALLOC_ADDRESS. */
  datatype Arch = Arm | AArch64
  {
    function Width(): nat { if Arm? then TWO32 else TWO64 }
    function MaxAlloc(): nat { if Arm? then 0xFFFF_FFFF else 0xFFFF_FFFF_FFFF }
  }

  /** The top of the memory that can be allocated. */
  function UsableTop(arch: Arch, c: Config): nat
  {
    if c.Top() - 1 > arch.MaxAlloc() then arch.MaxAlloc() + 1 else c.Top()
  }

  datatype Placement = Refused | Placed(base: nat)

  /** InitializeMemory up to the installation of the region: the UINT64 and UINTN arithmetic of
      the source; Refused where one of its ASSERTs does not hold. */
  function Place(arch: Arch, c: Config, region: uint32): Placement
  {
    if c.size == 0 || c.base >= arch.MaxAlloc() then Refused
    else
      var base := c.base % arch.Width();
      var sum := Add64(base, c.size);
      var top := if Sub64(sum, 1) > arch.MaxAlloc() then arch.MaxAlloc() + 1 else sum;
      var fdBase := c.fdBase % arch.Width();
      var fdTop := (fdBase + c.fdSize) % arch.Width();
      Choose(arch, base, top, fdBase, fdTop, region)
  }

  function Choose(arch: Arch, base: uint64, top: uint64, fdBase: uint64, fdTop: uint64, region: uint32): Placement
  {
    var W := arch.Width();
    if fdBase >= base && fdTop <= top then
      if Sub64(top, fdTop) >= region then Placed(Sub64(top, region) % W)
      else if (base + region) % W <= fdBase then Placed((fdBase - region) % W)
      else Refused
    else if (fdBase < base || fdBase >= top) && (fdTop <= base || fdTop > top) then
      Placed(Sub64(top, region) % W)
    else Refused
  }

  /** The region lies in usable system memory and misses the firmware device. */
  predicate SafeRegion(arch: Arch, c: Config, region: nat, u: nat)
  {
    && c.base <= u && u + region <= UsableTop(arch, c)
    && (c.fdSize == 0 || u + region <= c.fdBase || c.FdTop() <= u)
  }

  /** The firmware device reaches over both ends of system memory. */
  predicate FdEncloses(arch: Arch, c: Config)
  {
    c.fdBase < c.base && c.FdTop() > UsableTop(arch, c)
  }

  /** The top of system memory and the two ends of the device as the source has them: a memory that
      runs over the end of the address space is cut, and a UINTN holds the ends of the device. */
  function SeenTop(arch: Arch, c: Config): nat
  {
    if c.Top() > TWO64 then c.Top() - TWO64 else UsableTop(arch, c)
  }

  function SeenFdBase(arch: Arch, c: Config): nat
  {
    c.fdBase % arch.Width()
  }

  function SeenFdTop(arch: Arch, c: Config): nat
  {
    var top := SeenFdBase(arch, c) + c.fdSize;
    if top < arch.Width() then top else top - arch.Width()
  }

  /** The source means to put the region below the device: it takes the device to lie in memory,
      with too little room above it. */
  predicate GoesBelow(arch: Arch, c: Config, region: nat)
  {
    && SeenFdBase(arch, c) >= c.base && SeenFdTop(arch, c) <= SeenTop(arch, c)
    && SeenTop(arch, c) - SeenFdTop(arch, c) < region
  }

  /** What makes a placement safe. Below the device: the room is there without wrap-around, and the
      device as it is seen starts inside memory. At the top of memory: the region fits, the
      device does not enclose memory, and one that runs to the end of a UINTN or over it, whose top
      is seen as a low address, starts behind memory. */
  predicate PlacementOk(arch: Arch, c: Config, region: nat)
  {
    if GoesBelow(arch, c, region) then c.base + region <= SeenFdBase(arch, c) <= UsableTop(arch, c)
    else
      && c.Top() <= TWO64 && region <= UsableTop(arch, c) - c.base
      && (c.FdTop() < arch.Width() ==> !FdEncloses(arch, c))
      && (c.fdBase < arch.Width() <= c.FdTop() ==> UsableTop(arch, c) <= c.fdBase)
  }

  /** When the asserts hold, the chosen region is inside system memory and clear of the firmware
      device if and only if PlacementOk, for every configuration; it then ends at the device or at the
      top of usable memory. */
  lemma {:induction false} PlacementIsSafe(arch: Arch, c: Config, region: uint32)
    requires region > 0 && Place(arch, c, region).Placed?
    ensures SafeRegion(arch, c, region, Place(arch, c, region).base) <==> PlacementOk(arch, c, region)
    ensures PlacementOk(arch, c, region) ==>
              Place(arch, c, region).base + region ==
              if GoesBelow(arch, c, region) then SeenFdBase(arch, c) else UsableTop(arch, c)
  {
    if GoesBelow(arch, c, region) {
      BelowIsSafe(arch, c, region);
    } else {
      TopIsSafe(arch, c, region);
    }
    hide Place, PlacementOk, SafeRegion, GoesBelow;
    if PlacementOk(arch, c, region) {
      RegionEnds(arch, c, region);
    }
  }

  lemma {:induction false} BelowIsSafe(arch: Arch, c: Config, region: uint32)
    requires region > 0 && Place(arch, c, region).Placed? && GoesBelow(arch, c, region)
    ensures SafeRegion(arch, c, region, Place(arch, c, region).base) <==> PlacementOk(arch, c, region)
  {
    PlaceAsSeen(arch, c, region);
    SeenFdIs(arch, c);
    hide Place, Choose, SeenFdBase, SeenFdTop;
  }

  lemma {:induction false} TopIsSafe(arch: Arch, c: Config, region: uint32)
    requires region > 0 && Place(arch, c, region).Placed? && !GoesBelow(arch, c, region)
    ensures SafeRegion(arch, c, region, Place(arch, c, region).base) <==> PlacementOk(arch, c, region)
  {
    PlaceAsSeen(arch, c, region);
    SeenFdIs(arch, c);
    hide Place, Choose, SeenFdBase, SeenFdTop;
  }

  lemma {:induction false} RegionEnds(arch: Arch, c: Config, region: uint32)
    requires region > 0 && Place(arch, c, region).Placed? && PlacementOk(arch, c, region)
    ensures Place(arch, c, region).base + region ==
            if GoesBelow(arch, c, region) then SeenFdBase(arch, c) else UsableTop(arch, c)
  {
    PlaceAsSeen(arch, c, region);
    SeenFdIs(arch, c);
    hide Place, Choose, SeenFdBase, SeenFdTop;
  }

  /** The placement without modular arithmetic, and when an ASSERT refuses it. */
  lemma {:induction false} PlaceAsSeen(arch: Arch, c: Config, region: uint32)
    requires region > 0
    ensures c.size == 0 || c.base >= arch.MaxAlloc() ==> Place(arch, c, region) == Refused
    ensures c.size > 0 && c.base < arch.MaxAlloc() ==>
            var W, top, fdBase, fdTop := arch.Width(), SeenTop(arch, c), SeenFdBase(arch, c), SeenFdTop(arch, c);
            Place(arch, c, region) ==
              if fdBase >= c.base && fdTop <= top then
                if top - fdTop >= region then Placed(WrappedSub(W, top, region))
                else if (if c.base + region < W then c.base + region else c.base + region - W) <= fdBase then
                  Placed(WrappedSub(W, fdBase, region))
                else Refused
              else if (fdBase < c.base || fdBase >= top) && (fdTop <= c.base || fdTop > top) then
                Placed(WrappedSub(W, top, region))
              else Refused
  {
    if c.size > 0 && c.base < arch.MaxAlloc() {
      InputsAsSeen(arch, c, region);
      SeenFdIs(arch, c);
      hide Place, Choose, SeenFdBase, SeenFdTop;
      ChoiceIsPlain(arch, c.base, SeenTop(arch, c), SeenFdBase(arch, c), SeenFdTop(arch, c), region);
    }
  }

  /** The ends of the device are seen as they are below the end of a UINTN. */
  lemma {:induction false} SeenFdIs(arch: Arch, c: Config)
    ensures SeenFdBase(arch, c) < arch.Width() && SeenFdTop(arch, c) < arch.Width()
    ensures c.fdBase < arch.Width() ==> SeenFdBase(arch, c) == c.fdBase
    ensures SeenFdTop(arch, c) == SeenFdBase(arch, c) + c.fdSize ||
            SeenFdTop(arch, c) == SeenFdBase(arch, c) + c.fdSize - arch.Width()
    ensures SeenFdTop(arch, c) >= SeenFdBase(arch, c) <==> SeenFdBase(arch, c) + c.fdSize < arch.Width()
  {
    AddInUintn(arch, c.fdBase % arch.Width(), 0);
  }

  lemma {:induction false} InputsAsSeen(arch: Arch, c: Config, region: uint32)
    requires c.size != 0 && c.base < arch.MaxAlloc()
    ensures SeenTop(arch, c) <= arch.Width() && SeenTop(arch, c) < TWO64
    ensures SeenFdBase(arch, c) < TWO64 && SeenFdTop(arch, c) < TWO64
    ensures Place(arch, c, region) ==
            Choose(arch, c.base, SeenTop(arch, c), SeenFdBase(arch, c), SeenFdTop(arch, c), region)
  {
    AddInUintn(arch, c.base, 0);
    AddInUintn(arch, SeenFdBase(arch, c), c.fdSize);
    SeenFdIs(arch, c);
    TopAsSeen(arch, c);
    hide Choose, Add64, Sub64, SeenTop;
  }

  lemma {:induction false} TopAsSeen(arch: Arch, c: Config)
    requires c.size != 0 && c.base < arch.MaxAlloc()
    ensures SeenTop(arch, c) <= arch.Width() && SeenTop(arch, c) < TWO64
    ensures var sum := Add64(c.base, c.size);
            SeenTop(arch, c) == if Sub64(sum, 1) > arch.MaxAlloc() then arch.MaxAlloc() + 1 else sum
  {
    Sum64(c.base, c.size);
    Difference64(Add64(c.base, c.size), 1);
    hide Add64, Sub64;
  }

  /** x - y in arithmetic modulo w. */
  function WrappedSub(w: nat, x: nat, y: nat): int
  {
    if y <= x then x - y else x - y + w
  }

  lemma {:induction false} SubInUintn(arch: Arch, x: nat, y: nat)
    requires x <= arch.Width() && x < TWO64 && 0 < y < TWO32
    ensures Sub64(x, y) % arch.Width() == WrappedSub(arch.Width(), x, y)
    ensures (x - y) % arch.Width() == WrappedSub(arch.Width(), x, y)
  {
  }

  lemma {:induction false} AddInUintn(arch: Arch, x: nat, y: nat)
    requires x < arch.Width() && y < TWO32
    ensures (x + y) % arch.Width() == if x + y < arch.Width() then x + y else x + y - arch.Width()
  {
  }

  /** The choice without modular arithmetic. */
  lemma {:induction false} ChoiceIsPlain(arch: Arch, base: uint64, top: uint64, fdBase: uint64, fdTop: uint64, region: uint32)
    requires base < arch.Width() && top <= arch.Width() && fdBase < arch.Width() && fdTop < arch.Width() && region > 0
    ensures var W := arch.Width();
            Choose(arch, base, top, fdBase, fdTop, region) ==
              if fdBase >= base && fdTop <= top then
                if top - fdTop >= region then Placed(WrappedSub(W, top, region))
                else if (if base + region < W then base + region else base + region - W) <= fdBase then
                  Placed(WrappedSub(W, fdBase, region))
                else Refused
              else if (fdBase < base || fdBase >= top) && (fdTop <= base || fdTop > top) then
                Placed(WrappedSub(W, top, region))
              else Refused
  {
    SubInUintn(arch, top, region);
    SubInUintn(arch, fdBase, region);
    AddInUintn(arch, base, region);
    Difference64(top, fdTop);
    hide Sub64;
  }

  /** On a 32-bit processor a region as large as the memory up to 4 GB passes the ASSERT. */
  lemma {:induction false} AssertCanWrap()
    ensures var c := Config(0x8000_0000, 0x8000_0000, 0xC000_0000, 0x10_0000);
            && Place(Arm, c, 0x8000_0000) == Placed(0x4000_0000)
            && !SafeRegion(Arm, c, 0x8000_0000, 0x4000_0000)
  {
    var c := Config(0x8000_0000, 0x8000_0000, 0xC000_0000, 0x10_0000);
    SeenFdIs(Arm, c);
    hide Place, SeenFdBase, SeenFdTop, FdInMemory;
    assert SeenTop(Arm, c) == 0x1_0000_0000 && SeenFdBase(Arm, c) == 0xC000_0000 && SeenFdTop(Arm, c) == 0xC010_0000;
    PlaceAsSeen(Arm, c, 0x8000_0000);
  }

  /** On a 32-bit processor a device that ends at 4 GB has its top at 0, and the region is put on
      top of it. */
  lemma {:induction false} DeviceTopCanWrap()
    ensures var c := Config(0x8000_0000, 0x8000_0000, 0xFFF0_0000, 0x10_0000);
            && FdInMemory(c) && !FdEncloses(Arm, c)
            && Place(Arm, c, 0x400_0000) == Placed(0xFC00_0000)
            && !SafeRegion(Arm, c, 0x400_0000, 0xFC00_0000)
  {
    var c := Config(0x8000_0000, 0x8000_0000, 0xFFF0_0000, 0x10_0000);
    Sum64(c.base, c.size);
    Sum64(c.fdBase, c.fdSize);
    SeenFdIs(Arm, c);
    hide Place, SeenFdBase, SeenFdTop, Add64;
    assert SeenTop(Arm, c) == 0x1_0000_0000 && SeenFdBase(Arm, c) == 0xFFF0_0000 && SeenFdTop(Arm, c) == 0;
    PlaceAsSeen(Arm, c, 0x400_0000);
  }

  // ----- both files together

  predicate HoldsRegion(c: Config, h: Hob, u: nat, region: nat)
  {
    IsMemory(h) && h.start <= u && u + region <= End(h) && (FdInMemory(c) ==> End(h) <= c.fdBase || c.FdTop() <= h.start)
  }

  /** The region lies in one system memory descriptor, and that descriptor misses the device. */
  ghost predicate InOneDescriptor(c: Config, hobs: seq<Hob>, u: nat, region: nat)
  {
    exists h :: h in hobs && HoldsRegion(c, h, u, region)
  }

  /** After MemoryPeim the region lies in one descriptor that misses the device, and the descriptors
      are disjoint and describe the memory they described before. */
  ghost predicate Usable(c: Config, hobs: seq<Hob>, u: nat, region: nat)
  {
    match Peim(c, hobs)
    case AssertFails => false
    case Hobs(out) => InOneDescriptor(c, out, u, region) && Disjoint(out) && SameMemory(out, Declared(c, hobs))
  }

  /** Where the source splits, its search finds a descriptor, and that one contains the device. */
  predicate SplitsRight(c: Config, d: seq<Hob>)
  {
    FdInMemory(c) ==>
      var n := First(h => HoldsFd(c, h), d, 0);
      n < |d| && Contains(c, d[n])
  }

  /** Descriptor `h` covers system memory. */
  predicate MainDescriptor(c: Config, h: Hob)
  {
    IsMemory(h) && h.start <= c.base && c.Top() <= End(h)
  }

  /** A safe region, where one descriptor covers system memory, is usable after MemoryPeim if and only
      if MemoryPeim splits right or not at all. */
  lemma {:induction false} RegionIsInOneDescriptor(arch: Arch, c: Config, hobs: seq<Hob>, i: nat, region: uint32, u: nat)
    requires c.size > 0 && c.fdSize > 0 && region > 0 && c.FdTop() <= TWO64 && SafeRegion(arch, c, region, u)
    requires var d := Declared(c, hobs);
             Disjoint(d) && i < |d| && MainDescriptor(c, d[i])
    ensures Usable(c, hobs, u, region) <==> SplitsRight(c, Declared(c, hobs))
  {
    var d := Declared(c, hobs);
    assert u + region <= c.Top() && u + region <= TWO64 && (u + region <= c.fdBase || c.FdTop() <= u);
    hide Declared, SafeRegion;
    var n := First(h => HoldsFd(c, h), d, 0);
    if !FdInMemory(c) {
      assert d[i] in d && HoldsRegion(c, d[i], u, region);
    } else if n < |d| {
      SplitIsRightIff(c, d, n);
      hide Split, SameMemory, HoldsFd;
      if Contains(c, d[n]) {
        SplitKeepsRegion(c, d, n, i, u, region);
      } else if LeftAsItIs(c, d[n]) {
        hide Disjoint;
        RegionMeetsDevice(c, d, n, i, u, region);
      }
    }
  }

  lemma {:induction false} SplitKeepsRegion(c: Config, d: seq<Hob>, n: nat, i: nat, u: nat, region: nat)
    requires n < |d| && i < |d| && Disjoint(d) && MainDescriptor(c, d[i]) && HoldsFd(c, d[n]) && Contains(c, d[n])
    requires FdInMemory(c) && c.fdSize > 0 && region > 0 && c.base <= u && u + region <= c.Top() && u + region <= TWO64
    requires u + region <= c.fdBase || c.FdTop() <= u
    ensures InOneDescriptor(c, Split(c, d, n), u, region)
  {
    if n == i {
      PieceHoldsRegion(c, d[i], u, region);
      PieceIsInList(c, d, i, u, region);
    } else {
      assert !(Covers(d[n], c.fdBase) && Covers(d[i], c.fdBase));
      hide HoldsFd, Pieces;
      assert HoldsRegion(c, d[i], u, region);
      assert Split(c, d, n)[i] == d[i] && d[i] in Split(c, d, n);
    }
  }

  lemma {:induction false} PieceIsInList(c: Config, d: seq<Hob>, i: nat, u: nat, region: nat)
    requires i < |d| && IsMemory(d[i]) && c.fdBase >= d[i].start
    requires exists p :: 0 <= p < |AllPieces(c, d[i])| && HoldsRegion(c, AllPieces(c, d[i])[p], u, region)
    ensures InOneDescriptor(c, Split(c, d, i), u, region)
  {
    var p :| 0 <= p < |AllPieces(c, d[i])| && HoldsRegion(c, AllPieces(c, d[i])[p], u, region);
    hide Pieces, Split, AllPieces, HoldsRegion;
    var k := if p == 0 then i else |d| + p - 1;
    SplitIndex(c, d, i, i);
    SplitIndex(c, d, i, k);
    assert Split(c, d, i)[k] in Split(c, d, i);
  }

  lemma {:induction false} PieceHoldsRegion(c: Config, h: Hob, u: nat, region: nat)
    requires MainDescriptor(c, h) && FdInMemory(c) && HoldsFd(c, h) && Contains(c, h) && c.fdSize > 0 && region > 0
    requires c.base <= u && u + region <= c.Top() && u + region <= TWO64
    requires u + region <= c.fdBase || c.FdTop() <= u
    ensures exists p :: 0 <= p < |AllPieces(c, h)| && HoldsRegion(c, AllPieces(c, h)[p], u, region)
  {
    PiecesAreCut(c, h);
    Sum64(h.start, c.fdSize);
    Sum64(c.base, c.size);
    Sum64(c.fdBase, c.fdSize);
    hide Pieces, HoldsFd, Add64;
    assert c.fdBase == h.start ==> !AtTop(c);
    hide FdInMemory, AtTop;
    var p := if c.fdBase != h.start && c.FdTop() <= u then 2 else 0;
    assert HoldsRegion(c, AllPieces(c, h)[p], u, region);
  }

  /** Where the descriptor is left as it is without containing the device, the device ends with the
      address space, as system memory does, and shares its descriptor with the region. */
  lemma {:induction false} RegionMeetsDevice(c: Config, d: seq<Hob>, n: nat, i: nat, u: nat, region: nat)
    requires n < |d| && i < |d| && MainDescriptor(c, d[i]) && HoldsFd(c, d[n])
    requires !Contains(c, d[n]) && LeftAsItIs(c, d[n]) && c.FdTop() <= TWO64 && FdInMemory(c)
    requires c.size > 0 && region > 0 && c.base <= u && u + region <= c.Top() && u + region <= TWO64
    ensures Disjoint(d) ==> !InOneDescriptor(c, Split(c, d, n), u, region)
  {
    NotContained(c, d[n]);
    Sum64(c.base, c.size);
    Sum64(c.fdBase, c.fdSize);
    hide HoldsFd, Add64;
    assert c.Top() == TWO64 && c.FdTop() == TWO64;
    var out := Split(c, d, n);
    assert out == d + [Allocation(c.fdBase, c.fdSize, BOOT_SERVICES_DATA)];
    if Disjoint(d) {
      forall g | g in out
        ensures !HoldsRegion(c, g, u, region)
      {
        if IsMemory(g) {
          var k :| 0 <= k < |d| && d[k] == g;
          assert Covers(d[i], u);
          assert Covers(d[k], u) ==> k == i;
        }
      }
    }
  }

  /** Both phases, from the configuration and the descriptors: if the asserts of the first hold, the
      region lies in usable system memory, misses the device and is usable after the second, if and
      only if PlacementOk and MemoryPeim splits right or not at all. */
  lemma {:induction false} RegionIsUsable(arch: Arch, c: Config, hobs: seq<Hob>, i: nat, region: uint32)
    requires c.fdSize > 0 && region > 0 && c.FdTop() <= TWO64 && Place(arch, c, region).Placed?
    requires var d := Declared(c, hobs);
             Disjoint(d) && i < |d| && MainDescriptor(c, d[i])
    ensures var u := Place(arch, c, region).base;
            SafeRegion(arch, c, region, u) && Usable(c, hobs, u, region)
            <==> PlacementOk(arch, c, region) && SplitsRight(c, Declared(c, hobs))
  {
    PlacementIsSafe(arch, c, region);
    assert c.size > 0;
    hide Place, Choose, Usable, Declared, PlacementOk, SplitsRight;
    if PlacementOk(arch, c, region) {
      RegionIsInOneDescriptor(arch, c, hobs, i, region, Place(arch, c, region).base);
    }
  }

  /** A descriptor of system memory that ends with the address space is not found by the search for a
      device inside it, and an ASSERT fails. */
  lemma {:induction false} LastDescriptorIsNotFound()
    ensures var c := Config(0x8000_0000, 0x4000_0000, 0x9000_0000, 0x10_0000);
            var hobs := [Resource(SYSTEM_MEMORY, DEFAULT_ATTRIBUTES, 0x8000_0000, 0xFFFF_FFFF_8000_0000)];
            Declared(c, hobs) == hobs && FdInMemory(c) && Peim(c, hobs) == AssertFails
  {
    var c := Config(0x8000_0000, 0x4000_0000, 0x9000_0000, 0x10_0000);
    var h := Resource(SYSTEM_MEMORY, DEFAULT_ATTRIBUTES, 0x8000_0000, 0xFFFF_FFFF_8000_0000);
    Sum64(c.base, c.size);
    Sum64(c.fdBase, c.fdSize);
    Sum64(h.start, h.length);
    hide Add64;
    assert !HoldsFd(c, h) && Declares(c, h);
    assert Declared(c, [h]) == [h];
  }
}

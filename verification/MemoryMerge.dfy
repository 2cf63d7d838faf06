/** Merging the bootloader and the sketch memory images: merge in the sketch builder. Addresses
    are 32-bit and their arithmetic wraps; the memory library rejects a segment exactly when
    it overlaps what is already there. */
module MemoryMerge {
  import opened Wrappers

  newtype Byte = x: int | 0 <= x < 0x100

  const WORD: int := 0x1_0000_0000

  newtype uint32 = x: int | 0 <= x < 0x1_0000_0000

  datatype Segment = Segment(address: uint32, data: seq<Byte>)

  type Cells = map<int, Byte>

  function Start(s: Segment): int { s.address as int }

  /** The address behind the last byte, not wrapped. */
  function End(s: Segment): int { s.address as int + |s.data| }

  predicate Covers(s: Segment, a: int) { Start(s) <= a < End(s) }

  function ByteAt(s: Segment, a: int): Byte
    requires Covers(s, a)
  {
    s.data[a - Start(s)]
  }

  /** No cell of the segment is taken yet. */
  predicate Fits(cells: Cells, s: Segment) {
    forall a :: Start(s) <= a < End(s) ==> a !in cells
  }

  function Added(cells: Cells, s: Segment): (r: Cells) {
    var own := map a: int | Start(s) <= a < End(s) && Covers(s, a) :: ByteAt(s, a);
    cells + own
  }

  /** gohex.Memory, as far as it is used here. */
  class Memory {
    var cells: Cells

    constructor ()
      ensures cells == map[]
    {
      cells := map[];
    }

    method AddBinary(s: Segment) returns (ok: bool)
      modifies this
      ensures ok == Fits(old(cells), s)
      ensures cells == if ok then Added(old(cells), s) else old(cells)
    {
      ok := Fits(cells, s);
      if ok {
        cells := Added(cells, s);
      }
    }

    function ToBinary(address: uint32, size: uint32, padding: Byte): (r: seq<Byte>)
      reads this
      ensures r == Binary(cells, address, size, padding)
    {
      Binary(cells, address, size, padding)
    }
  }

  function Binary(cells: Cells, address: uint32, size: uint32, padding: Byte): (r: seq<Byte>)
    ensures |r| == size as int
  {
    seq(size as int, i => if address as int + i in cells then cells[address as int + i] else padding)
  }

  function AddWrapped(a: uint32, b: uint32): uint32 {
    ((a as int + b as int) % WORD) as uint32
  }

  function SubWrapped(a: uint32, b: uint32): uint32 {
    ((a as int - b as int) % WORD) as uint32
  }

  // ----- the loops

  datatype Image = Image(cells: Cells, initial: uint32, last: uint32, accepted: seq<Segment>)

  const EMPTY := Image(map[], 0xFFFF_FFFF, 0, [])

  /** A segment is longer than a 32-bit length can say. */
  predicate TooLong(s: Segment) {
    |s.data| >= WORD
  }

  function Grown(m: Image, s: Segment): Image
    requires !TooLong(s)
  {
    var end := AddWrapped(s.address, |s.data| as uint32);
    Image(Added(m.cells, s),
          if s.address < m.initial then s.address else m.initial,
          if end > m.last then end else m.last,
          m.accepted + [s])
  }

  /** One turn of a loop: skip a segment that overlaps, fail on one whose length does not fit. */
  function Take(m: Image, s: Segment): Option<Image> {
    if !Fits(m.cells, s) then Some(m) else if TooLong(s) then None else Some(Grown(m, s))
  }

  function TakeAll(segs: seq<Segment>): Option<Image> {
    if segs == [] then Some(EMPTY)
    else match TakeAll(segs[..|segs| - 1])
      case None => None
      case Some(m) => Take(m, segs[|segs| - 1])
  }

  datatype Outcome = Error | HexOnly(cells: Cells) | HexAndBin(cells: Cells, bin: seq<Byte>)

  /** What is written once both images have been taken. */
  function Written(m: Image, maximumBinSize: int): Outcome {
    var size := SubWrapped(m.last, m.initial);
    if maximumBinSize < 0 || maximumBinSize >= WORD || size as int > maximumBinSize then HexOnly(m.cells)
    else HexAndBin(m.cells, Binary(m.cells, m.initial, size, 0xFF))
  }

  /** The loop body, the same for both images. */
  method TakeSegment(memory: Memory, s: Segment, initial0: uint32, last0: uint32, ghost accepted: seq<Segment>)
    returns (ok: bool, initial: uint32, last: uint32, ghost accepted': seq<Segment>)
    modifies memory
    ensures var m := Image(old(memory.cells), initial0, last0, accepted);
      Take(m, s) == if ok then Some(Image(memory.cells, initial, last, accepted')) else None
  {
    ok, initial, last, accepted' := true, initial0, last0, accepted;
    var added := memory.AddBinary(s);
    if !added {
      return;
    }
    accepted' := accepted + [s];
    if s.address < initial {
      initial := s.address;
    }
    if |s.data| >= WORD {
      ok := false;
      return;
    }
    var lenData := |s.data| as uint32;
    if AddWrapped(s.address, lenData) > last {
      last := AddWrapped(s.address, lenData);
    }
  }

  lemma {:induction false} TakeAllFails(segs: seq<Segment>, n: nat)
    requires n <= |segs| && TakeAll(segs[..n]).None?
    ensures TakeAll(segs).None?
  {
    if n < |segs| {
      assert segs[..|segs| - 1][..n] == segs[..n];
      TakeAllFails(segs[..|segs| - 1], n);
    } else {
      assert segs[..n] == segs;
    }
  }

  method WriteOut(memory: Memory, initialAddress: uint32, lastAddress: uint32, maximumBinSize: int, ghost m: Image) returns (r: Outcome)
    requires m.cells == memory.cells && m.initial == initialAddress && m.last == lastAddress
    ensures r == Written(m, maximumBinSize)
  {
    var size := SubWrapped(lastAddress, initialAddress);
    if maximumBinSize < 0 || maximumBinSize >= WORD || size as int > maximumBinSize {
      return HexOnly(memory.cells);
    }
    var data := memory.ToBinary(initialAddress, size, 0xFF);
    r := HexAndBin(memory.cells, data);
  }

  lemma TakeNextAfter(before: seq<Segment>, segs: seq<Segment>, i: nat)
    requires i < |segs|
    ensures TakeAll(before + segs[..i + 1]) == match TakeAll(before + segs[..i]) case None => None case Some(m) => Take(m, segs[i])
  {
    var all := before + segs[..i + 1];
    assert all[..|all| - 1] == before + segs[..i] && all[|all| - 1] == segs[i];
  }

  lemma FailsAfter(before: seq<Segment>, segs: seq<Segment>, i: nat)
    requires i <= |segs| && TakeAll(before + segs[..i]).None?
    ensures TakeAll(before + segs).None?
  {
    assert (before + segs)[..|before| + i] == before + segs[..i];
    TakeAllFails(before + segs, |before| + i);
  }

  /** One of the two loops, which are alike: it takes the segments after those taken before. */
  method TakeImage(memory: Memory, segs: seq<Segment>, initial0: uint32, last0: uint32,
                   ghost before: seq<Segment>, ghost accepted0: seq<Segment>)
    returns (ok: bool, initial: uint32, last: uint32, ghost accepted: seq<Segment>)
    requires TakeAll(before) == Some(Image(memory.cells, initial0, last0, accepted0))
    modifies memory
    ensures !ok ==> TakeAll(before + segs).None?
    ensures ok ==> TakeAll(before + segs) == Some(Image(memory.cells, initial, last, accepted))
  {
    initial, last, accepted := initial0, last0, accepted0;
    assert before + segs[..0] == before;
    for i := 0 to |segs|
      invariant TakeAll(before + segs[..i]) == Some(Image(memory.cells, initial, last, accepted))
    {
      TakeNextAfter(before, segs, i);
      ok, initial, last, accepted := TakeSegment(memory, segs[i], initial, last, accepted);
      if !ok {
        FailsAfter(before, segs, i + 1);
        return;
      }
    }
    assert segs[..|segs|] == segs;
    ok := true;
  }

  /** The whole function, on the segments of the two parsed files. Besides the loops, its contract
      says what the result means without them. */
  method Merge(boot: seq<Segment>, sketch: seq<Segment>, maximumBinSize: int) returns (r: Outcome)
    ensures r == match TakeAll(boot + sketch) case None => Error case Some(m) => Written(m, maximumBinSize)
    ensures MergedFrom(boot + sketch, Chosen(boot + sketch), maximumBinSize, r)
  {
    var memMerged := new Memory();
    var ok, initialAddress, lastAddress := TakeImages(memMerged, boot, sketch);
    if ok {
      r := WriteOut(memMerged, initialAddress, lastAddress, maximumBinSize, TakeAll(boot + sketch).value);
    } else {
      r := Error;
    }
    MergeIs(boot + sketch, maximumBinSize, r);
  }

  /** The two loops. */
  method TakeImages(memMerged: Memory, boot: seq<Segment>, sketch: seq<Segment>) returns (ok: bool, initialAddress: uint32, lastAddress: uint32)
    requires memMerged.cells == map[]
    modifies memMerged
    ensures ok == TakeAll(boot + sketch).Some?
    ensures ok ==>
      var m := TakeAll(boot + sketch).value;
      m.cells == memMerged.cells && m.initial == initialAddress && m.last == lastAddress
  {
    assert [] + boot == boot && sketch[..0] == [] && boot + [] == boot;
    ok, initialAddress, lastAddress := true, 0xFFFF_FFFF, 0;
    ghost var accepted: seq<Segment>;
    ok, initialAddress, lastAddress, accepted := TakeImage(memMerged, boot, initialAddress, lastAddress, [], []);
    if !ok {
      FailsAfter(boot, sketch, 0);
      return;
    }
    ok, initialAddress, lastAddress, accepted := TakeImage(memMerged, sketch, initialAddress, lastAddress, boot, accepted);
  }

  // ----- what the image holds

  ghost predicate Overlap(s: Segment, t: Segment) {
    exists a :: Covers(s, a) && Covers(t, a)
  }

  ghost predicate Covered(segs: seq<Segment>, a: int) {
    exists i :: 0 <= i < |segs| && Covers(segs[i], a)
  }

  /** The cells are the accepted segments, each kept whole, and nothing else. */
  ghost predicate HoldsExactly(cells: Cells, accepted: seq<Segment>) {
    && (forall i, a :: 0 <= i < |accepted| && Covers(accepted[i], a) ==> a in cells && cells[a] == ByteAt(accepted[i], a))
    && (forall a :: a in cells ==> Covered(accepted, a))
  }

  lemma CoveredSnoc(segs: seq<Segment>, s: Segment, a: int)
    ensures Covered(segs + [s], a) <==> Covered(segs, a) || Covers(s, a)
  {
    var all := segs + [s];
    assert all[|segs|] == s;
    if Covered(segs, a) {
      var i :| 0 <= i < |segs| && Covers(segs[i], a);
      assert all[i] == segs[i];
    }
  }

  lemma GrownHolds(m: Image, s: Segment)
    requires HoldsExactly(m.cells, m.accepted) && Fits(m.cells, s) && !TooLong(s)
    ensures HoldsExactly(Grown(m, s).cells, Grown(m, s).accepted)
  {
    var g := Grown(m, s);
    forall a | a in g.cells ensures Covered(g.accepted, a) {
      CoveredSnoc(m.accepted, s, a);
    }
    forall i, a | 0 <= i < |g.accepted| && Covers(g.accepted[i], a)
      ensures a in g.cells && g.cells[a] == ByteAt(g.accepted[i], a)
    {
      if i < |m.accepted| { assert Covers(m.accepted[i], a); }
    }
  }

  lemma {:induction false} ImageHoldsAccepted(segs: seq<Segment>)
    requires TakeAll(segs).Some?
    ensures var m := TakeAll(segs).value; HoldsExactly(m.cells, m.accepted)
    ensures forall s :: s in TakeAll(segs).value.accepted ==> s in segs
  {
    if segs != [] {
      var n := |segs| - 1;
      ImageHoldsAccepted(segs[..n]);
      var m := TakeAll(segs[..n]).value;
      if Fits(m.cells, segs[n]) { GrownHolds(m, segs[n]); }
    }
  }

  lemma MisfitOverlaps(m: Image, s: Segment) returns (t: Segment)
    requires HoldsExactly(m.cells, m.accepted) && !Fits(m.cells, s)
    ensures t in m.accepted && Overlap(t, s)
  {
    var a :| Start(s) <= a < End(s) && a in m.cells;
    assert Covered(m.accepted, a);
    var k :| 0 <= k < |m.accepted| && Covers(m.accepted[k], a);
    assert Covers(s, a);
    t := m.accepted[k];
  }

  lemma {:induction false} AcceptedGrows(segs: seq<Segment>, i: nat, s: Segment)
    requires i <= |segs| && TakeAll(segs).Some?
    ensures TakeAll(segs[..i]).Some?
    ensures s in TakeAll(segs[..i]).value.accepted ==> s in TakeAll(segs).value.accepted
  {
    if i < |segs| {
      assert segs[..|segs| - 1][..i] == segs[..i];
      AcceptedGrows(segs[..|segs| - 1], i, s);
    } else {
      assert segs[..i] == segs;
    }
  }

  /** A segment is left out only if it overlaps one that was accepted before it. */
  lemma LeftOutOverlaps(segs: seq<Segment>, i: nat)
    requires i < |segs| && TakeAll(segs).Some?
    ensures var accepted := TakeAll(segs).value.accepted;
      segs[i] in accepted || exists t :: t in segs[..i] && t in accepted && Overlap(t, segs[i])
  {
    AcceptedGrows(segs, i, segs[i]);
    AcceptedGrows(segs, i + 1, segs[i]);
    assert segs[..i + 1][..i] == segs[..i];
    var m := TakeAll(segs[..i]).value;
    ImageHoldsAccepted(segs[..i]);
    if !Fits(m.cells, segs[i]) {
      var t := MisfitOverlaps(m, segs[i]);
      AcceptedGrows(segs, i, t);
    }
  }

  /** Segments of a bootloader do not overlap each other, so every one of them is accepted,
      whatever the sketch is. */
  lemma BootloaderKept(boot: seq<Segment>, sketch: seq<Segment>, i: nat)
    requires forall j, k :: 0 <= j < k < |boot| ==> !Overlap(boot[j], boot[k])
    requires i < |boot| && TakeAll(boot + sketch).Some?
    ensures boot[i] in TakeAll(boot + sketch).value.accepted
  {
    LeftOutOverlaps(boot + sketch, i);
    assert (boot + sketch)[..i] == boot[..i];
  }

  // ----- the address range

  ghost predicate IsHull(initial: int, last: int, accepted: seq<Segment>) {
    && (exists i :: 0 <= i < |accepted| && Start(accepted[i]) == initial)
    && (exists i :: 0 <= i < |accepted| && End(accepted[i]) == last)
    && (forall i :: 0 <= i < |accepted| ==> initial <= Start(accepted[i]) && End(accepted[i]) <= last)
  }

  ghost predicate EndsBelowTop(accepted: seq<Segment>) {
    forall i :: 0 <= i < |accepted| ==> End(accepted[i]) < WORD
  }

  lemma {:induction false} RangeOfImage(segs: seq<Segment>)
    requires TakeAll(segs).Some?
    ensures var m := TakeAll(segs).value;
      && (m.accepted == [] ==> m.initial == EMPTY.initial && m.last == EMPTY.last)
      && (m.accepted != [] && EndsBelowTop(m.accepted) ==>
            IsHull(m.initial as int, m.last as int, m.accepted))
  {
    if segs != [] {
      var n := |segs| - 1;
      RangeOfImage(segs[..n]);
      var m := TakeAll(segs[..n]).value;
      if Fits(m.cells, segs[n]) {
        RangeOfGrown(m, segs[n]);
      }
    }
  }

  lemma RangeOfGrown(m: Image, s: Segment)
    requires !TooLong(s)
    requires m.accepted == [] ==> m.initial == EMPTY.initial && m.last == EMPTY.last
    requires m.accepted != [] && EndsBelowTop(m.accepted) ==>
      IsHull(m.initial as int, m.last as int, m.accepted)
    ensures var g := Grown(m, s);
      EndsBelowTop(g.accepted) ==> IsHull(g.initial as int, g.last as int, g.accepted)
  {
    var g := Grown(m, s);
    var n := |m.accepted|;
    if EndsBelowTop(g.accepted) {
      assert g.accepted[n] == s;
      assert forall i :: 0 <= i < n ==> g.accepted[i] == m.accepted[i];
      assert AddWrapped(s.address, |s.data| as uint32) as int == End(s);
      if n > 0 {
        var i :| 0 <= i < n && Start(m.accepted[i]) == m.initial as int;
        var j :| 0 <= j < n && End(m.accepted[j]) == m.last as int;
        assert g.accepted[i] == m.accepted[i] && g.accepted[j] == m.accepted[j];
      }
    }
  }

  /** With something accepted, the two addresses are the tight hull of the accepted segments
      exactly when all of those end below 2^32; a segment reaching the top wraps. */
  lemma HullIff(segs: seq<Segment>)
    requires TakeAll(segs).Some? && TakeAll(segs).value.accepted != []
    ensures var m := TakeAll(segs).value;
      IsHull(m.initial as int, m.last as int, m.accepted) <==> EndsBelowTop(m.accepted)
  {
    RangeOfImage(segs);
  }

  /** The .bin file: its size is the width of the hull, every accepted byte stands at its
      address minus the initial one, and every other byte is 0xFF; this holds exactly when no
      accepted segment reaches the top of the address space. */
  lemma BinaryIsTheImageIff(segs: seq<Segment>, maximumBinSize: int)
    requires TakeAll(segs).Some? && TakeAll(segs).value.accepted != []
    requires Written(TakeAll(segs).value, maximumBinSize).HexAndBin?
    ensures var m, bin := TakeAll(segs).value, Written(TakeAll(segs).value, maximumBinSize).bin;
      BinaryOf(bin, m.initial as int, m.last as int, m.accepted) <==> EndsBelowTop(m.accepted)
  {
    var m, bin := TakeAll(segs).value, Written(TakeAll(segs).value, maximumBinSize).bin;
    if EndsBelowTop(m.accepted) {
      RangeOfImage(segs);
      ImageHoldsAccepted(segs);
      BinaryOfImage(m, bin);
    } else {
      var i :| 0 <= i < |m.accepted| && End(m.accepted[i]) >= WORD;
      assert Covers(m.accepted[i], End(m.accepted[i]) - 1);
    }
  }

  lemma TakeTwo(s: Segment, t: Segment)
    requires !Overlap(s, t) && !TooLong(s) && !TooLong(t)
    ensures TakeAll([s, t]) == Some(Grown(Grown(EMPTY, s), t))
    ensures Grown(Grown(EMPTY, s), t).accepted == [s, t]
  {
    assert [s, t][..1] == [s] && [s][..0] == [];
    assert Fits(EMPTY.cells, s);
    assert TakeAll([s]) == Take(EMPTY, s);
    forall a | Start(t) <= a < End(t) ensures a !in Grown(EMPTY, s).cells {
      assert Covers(t, a);
    }
  }

  /** A byte at the very top of the address space: it is accepted and in memory, but its end
      wraps to zero, so the last address does not reach it and the .bin file is without it. */
  lemma TopByteLost(a: Byte, b: Byte, maximumBinSize: int)
    requires 1 <= maximumBinSize < WORD
    ensures var m := TakeAll([Segment(0x10, [a]), Segment(0xFFFF_FFFF, [b])]);
      && m.Some? && m.value.accepted == [Segment(0x10, [a]), Segment(0xFFFF_FFFF, [b])]
      && Written(m.value, maximumBinSize) == HexAndBin(m.value.cells, [a])
  {
    var low, top := Segment(0x10, [a]), Segment(0xFFFF_FFFF, [b]);
    TakeTwo(low, top);
    var m := Grown(Grown(EMPTY, low), top);
    assert m.initial == 0x10 && m.last == 0x11 && SubWrapped(m.last, m.initial) == 1;
    ImageHoldsAccepted([low, top]);
    assert Covers(m.accepted[0], 0x10) && ByteAt(low, 0x10) == a;
    assert 0x10 in m.cells && m.cells[0x10] == a;
    assert Binary(m.cells, 0x10, 1, 0xFF) == [a];
  }

  ghost predicate BinaryOf(bin: seq<Byte>, initial: int, last: int, accepted: seq<Segment>) {
    && |bin| == last - initial
    && (forall i, a :: 0 <= i < |accepted| && Covers(accepted[i], a) ==>
          0 <= a - initial < |bin| && bin[a - initial] == ByteAt(accepted[i], a))
    && (forall p :: 0 <= p < |bin| && !Covered(accepted, initial + p) ==> bin[p] == 0xFF)
  }

  lemma BinaryOfImage(m: Image, bin: seq<Byte>)
    requires IsHull(m.initial as int, m.last as int, m.accepted) && HoldsExactly(m.cells, m.accepted)
    requires bin == Binary(m.cells, m.initial, SubWrapped(m.last, m.initial), 0xFF)
    ensures BinaryOf(bin, m.initial as int, m.last as int, m.accepted)
  {
    SizeDoesNotWrap(m);
    forall i, a | 0 <= i < |m.accepted| && Covers(m.accepted[i], a)
      ensures 0 <= a - m.initial as int < |bin| && bin[a - m.initial as int] == ByteAt(m.accepted[i], a)
    {
      assert a in m.cells && m.cells[a] == ByteAt(m.accepted[i], a);
      BinaryAt(m.cells, m.initial, SubWrapped(m.last, m.initial), 0xFF, a);
    }
    forall p | 0 <= p < |bin| && !Covered(m.accepted, m.initial as int + p) ensures bin[p] == 0xFF {
      BinaryAt(m.cells, m.initial, SubWrapped(m.last, m.initial), 0xFF, m.initial as int + p);
    }
  }

  lemma BinaryAt(cells: Cells, address: uint32, size: uint32, padding: Byte, a: int)
    requires address as int <= a < address as int + size as int
    ensures Binary(cells, address, size, padding)[a - address as int] == if a in cells then cells[a] else padding
  {}

  lemma SizeDoesNotWrap(m: Image)
    requires IsHull(m.initial as int, m.last as int, m.accepted)
    ensures SubWrapped(m.last, m.initial) as int == m.last as int - m.initial as int
  {
    var i :| 0 <= i < |m.accepted| && Start(m.accepted[i]) == m.initial as int;
    assert m.initial as int <= End(m.accepted[i]) <= m.last as int;
  }

  /** With no segment at all the size wraps to one and a one-byte file of padding is written. */
  lemma NothingAccepted(segs: seq<Segment>, maximumBinSize: int)
    requires TakeAll(segs).Some? && TakeAll(segs).value.accepted == []
    requires 1 <= maximumBinSize < WORD
    ensures Written(TakeAll(segs).value, maximumBinSize) == HexAndBin(map[], [0xFF])
  {
    RangeOfImage(segs);
    ImageHoldsAccepted(segs);
    assert TakeAll(segs).value.cells == map[];
  }

  // ----- the whole result, without the loops

  /** The segments that are taken: each one that overlaps no earlier one that is taken. */
  ghost predicate IsChosen(segs: seq<Segment>, sel: set<nat>) {
    && (forall i :: i in sel ==> i < |segs|)
    && (forall i :: 0 <= i < |segs| ==> (i in sel <==> Clear(segs, sel, i)))
  }

  ghost predicate Clear(segs: seq<Segment>, sel: set<nat>, i: nat)
    requires i < |segs|
  {
    forall j :: 0 <= j < i && j in sel ==> !Overlap(segs[j], segs[i])
  }

  ghost function Chosen(segs: seq<Segment>): (sel: set<nat>)
    ensures IsChosen(segs, sel)
  {
    if segs == [] then {}
    else
      var n := |segs| - 1;
      var sel := Chosen(segs[..n]);
      ClearPrefix(segs, sel);
      if Clear(segs, sel, n) then sel + {n} else sel
  }

  lemma ClearPrefix(segs: seq<Segment>, sel: set<nat>)
    requires segs != []
    ensures forall i :: 0 <= i < |segs| - 1 ==> (Clear(segs[..|segs| - 1], sel, i) <==> Clear(segs, sel, i))
    ensures forall i :: 0 <= i < |segs| - 1 ==> (Clear(segs, sel + {|segs| - 1}, i) <==> Clear(segs, sel, i))
    ensures Clear(segs, sel + {|segs| - 1}, |segs| - 1) <==> Clear(segs, sel, |segs| - 1)
  {
    assert forall i :: 0 <= i < |segs| - 1 ==> segs[..|segs| - 1][i] == segs[i];
  }

  /** There is only one such selection. */
  lemma {:induction false} ChosenIsUnique(segs: seq<Segment>, a: set<nat>, b: set<nat>, i: nat)
    requires IsChosen(segs, a) && IsChosen(segs, b)
    ensures i in a <==> i in b
  {
    if i < |segs| {
      forall j | 0 <= j < i ensures j in a <==> j in b {
        ChosenIsUnique(segs, a, b, j);
      }
      assert Clear(segs, a, i) <==> Clear(segs, b, i);
    }
  }

  /** The cells are the bytes of the chosen segments at their addresses, and nothing else. */
  ghost predicate CellsAre(segs: seq<Segment>, sel: set<nat>, cells: Cells) {
    && (forall i, a :: i in sel && i < |segs| && Covers(segs[i], a) ==> a in cells && cells[a] == ByteAt(segs[i], a))
    && (forall a :: a in cells ==> SomeChosenCovers(segs, sel, a))
  }

  ghost predicate SomeChosenCovers(segs: seq<Segment>, sel: set<nat>, a: int) {
    exists i :: i in sel && i < |segs| && Covers(segs[i], a)
  }

  lemma ChosenCoversSnoc(segs: seq<Segment>, sel: set<nat>, n: nat, a: int)
    requires n == |segs| - 1 && SomeChosenCovers(segs[..n], sel, a)
    ensures SomeChosenCovers(segs, sel, a) && SomeChosenCovers(segs, sel + {n}, a)
  {
    var i :| i in sel && i < n && Covers(segs[..n][i], a);
    assert i in sel + {n} && Covers(segs[i], a);
  }

  /** The lowest start, and the highest end as far as 32 bits can tell. */
  ghost predicate RangeIs(segs: seq<Segment>, sel: set<nat>, lo: int, last: int) {
    && (exists i :: i in sel && i < |segs| && Start(segs[i]) == lo)
    && (exists i :: i in sel && i < |segs| && End(segs[i]) % WORD == last)
    && (forall i :: i in sel && i < |segs| ==> lo <= Start(segs[i]) && End(segs[i]) % WORD <= last)
  }

  /** The files that are written: the .hex holds the cells; the .bin is there exactly when its size
      and the largest size allowed are sizes and the one is at most the other, and holds the
      cells from the lowest address on, with padding between them. */
  ghost predicate FilesAre(lo: int, size: int, maximumBinSize: int, r: Outcome) {
    match r
    case Error => false
    case HexOnly(_) => !(0 <= maximumBinSize < WORD && size <= maximumBinSize)
    case HexAndBin(cells, bin) =>
      && 0 <= maximumBinSize < WORD && size <= maximumBinSize && |bin| == size
      && forall p :: 0 <= p < size ==> bin[p] == if lo + p in cells then cells[lo + p] else 0xFF
  }

  ghost predicate MergedFrom(segs: seq<Segment>, sel: set<nat>, maximumBinSize: int, r: Outcome) {
    && (r == Error <==> exists i :: i in sel && i < |segs| && |segs[i].data| >= WORD)
    && (r != Error ==> CellsAre(segs, sel, r.cells))
    && (r != Error && segs == [] ==> FilesAre(WORD - 1, 1, maximumBinSize, r))
    && (r != Error && segs != [] ==>
          exists lo, last :: RangeIs(segs, sel, lo, last) && FilesAre(lo, (last - lo) % WORD, maximumBinSize, r))
  }

  /** Below the top of the address space the range is the hull and its width the size. */
  lemma RangeIsHull(segs: seq<Segment>, sel: set<nat>, lo: int, last: int)
    requires RangeIs(segs, sel, lo, last) && forall i :: i in sel && i < |segs| ==> End(segs[i]) < WORD
    ensures (last - lo) % WORD == last - lo >= 0
    ensures forall i :: i in sel && i < |segs| ==> lo <= Start(segs[i]) && End(segs[i]) <= last
    ensures exists i :: i in sel && i < |segs| && End(segs[i]) == last
  {
    var k :| k in sel && k < |segs| && End(segs[k]) % WORD == last;
    assert lo <= Start(segs[k]) <= End(segs[k]) == last < WORD;
    assert 0 <= lo;
  }

  /** How an image stands to the segments taken so far. */
  ghost predicate ImageIs(segs: seq<Segment>, sel: set<nat>, m: Image) {
    && CellsAre(segs, sel, m.cells)
    && (segs == [] ==> m.initial == EMPTY.initial && m.last == EMPTY.last)
    && (segs != [] ==> RangeIs(segs, sel, m.initial as int, m.last as int))
  }

  lemma FitsIfClear(segs: seq<Segment>, sel: set<nat>, m: Image, n: nat)
    requires n < |segs| && IsChosen(segs[..n], sel) && CellsAre(segs[..n], sel, m.cells)
    ensures Fits(m.cells, segs[n]) <==> Clear(segs, sel, n)
  {
    if !Fits(m.cells, segs[n]) {
      var a :| Start(segs[n]) <= a < End(segs[n]) && a in m.cells;
      assert SomeChosenCovers(segs[..n], sel, a);
      var i :| i in sel && i < n && Covers(segs[..n][i], a);
      assert Covers(segs[i], a) && Covers(segs[n], a);
    }
    if !Clear(segs, sel, n) {
      var j :| 0 <= j < n && j in sel && Overlap(segs[j], segs[n]);
      var a :| Covers(segs[j], a) && Covers(segs[n], a);
      assert segs[..n][j] == segs[j] && j < |segs[..n]|;
      assert a in m.cells && Start(segs[n]) <= a < End(segs[n]);
    }
  }

  lemma GrownCells(segs: seq<Segment>, sel: set<nat>, m: Image, n: nat)
    requires n == |segs| - 1 && IsChosen(segs[..n], sel) && CellsAre(segs[..n], sel, m.cells)
    requires Fits(m.cells, segs[n]) && !TooLong(segs[n])
    ensures CellsAre(segs, sel + {n}, Grown(m, segs[n]).cells)
  {
    var cells, sel' := Grown(m, segs[n]).cells, sel + {n};
    forall i, a | i in sel' && i < |segs| && Covers(segs[i], a) ensures a in cells && cells[a] == ByteAt(segs[i], a) {
      if i < n { assert Covers(segs[..n][i], a); }
    }
    forall a | a in cells ensures SomeChosenCovers(segs, sel', a) {
      if a in m.cells {
        ChosenCoversSnoc(segs, sel, n, a);
      } else {
        assert n in sel' && Covers(segs[n], a);
      }
    }
  }

  lemma GrownRange(segs: seq<Segment>, sel: set<nat>, m: Image, n: nat)
    requires n == |segs| - 1 && IsChosen(segs[..n], sel) && ImageIs(segs[..n], sel, m) && !TooLong(segs[n])
    ensures var g := Grown(m, segs[n]); RangeIs(segs, sel + {n}, g.initial as int, g.last as int)
  {
    var g, sel' := Grown(m, segs[n]), sel + {n};
    assert AddWrapped(segs[n].address, |segs[n].data| as uint32) as int == End(segs[n]) % WORD;
    assert n in sel';
    if n > 0 {
      var i :| i in sel && i < n && Start(segs[..n][i]) == m.initial as int;
      var j :| j in sel && j < n && End(segs[..n][j]) % WORD == m.last as int;
      assert segs[..n][i] == segs[i] && segs[..n][j] == segs[j] && i in sel' && j in sel';
      forall k | k in sel' && k < |segs| ensures g.initial as int <= Start(segs[k]) && End(segs[k]) % WORD <= g.last as int {
        if k < n { assert segs[..n][k] == segs[k]; }
      }
    } else {
      assert sel == {};
    }
  }

  lemma KeptCells(segs: seq<Segment>, sel: set<nat>, cells: Cells, n: nat)
    requires n == |segs| - 1 && IsChosen(segs[..n], sel) && CellsAre(segs[..n], sel, cells)
    ensures CellsAre(segs, sel, cells)
  {
    assert forall i :: 0 <= i < n ==> segs[..n][i] == segs[i];
    forall a | a in cells ensures SomeChosenCovers(segs, sel, a) {
      ChosenCoversSnoc(segs, sel, n, a);
    }
  }

  lemma KeptRange(segs: seq<Segment>, sel: set<nat>, lo: int, last: int, n: nat)
    requires n == |segs| - 1 && IsChosen(segs[..n], sel) && RangeIs(segs[..n], sel, lo, last)
    ensures RangeIs(segs, sel, lo, last)
  {
    assert forall i :: 0 <= i < n ==> segs[..n][i] == segs[i];
    var i :| i in sel && i < n && Start(segs[..n][i]) == lo;
    var j :| j in sel && j < n && End(segs[..n][j]) % WORD == last;
    assert i < |segs| && Start(segs[i]) == lo && j < |segs| && End(segs[j]) % WORD == last;
  }

  ghost predicate SomeTooLong(segs: seq<Segment>, sel: set<nat>) {
    exists i :: i in sel && i < |segs| && |segs[i].data| >= WORD
  }

  lemma TooLongSnoc(segs: seq<Segment>, sel: set<nat>, n: nat)
    requires n == |segs| - 1 && IsChosen(segs[..n], sel)
    ensures SomeTooLong(segs, sel) <==> SomeTooLong(segs[..n], sel)
    ensures SomeTooLong(segs, sel + {n}) <==> SomeTooLong(segs[..n], sel) || TooLong(segs[n])
  {
    assert forall i :: 0 <= i < n ==> segs[..n][i] == segs[i];
    if TooLong(segs[n]) { assert n in sel + {n}; }
    if SomeTooLong(segs[..n], sel) {
      var i :| i in sel && i < n && |segs[..n][i].data| >= WORD;
      assert i in sel + {n} && |segs[i].data| >= WORD;
    }
  }

  /** The loops fail exactly when a chosen segment is too long, and otherwise take exactly the
      chosen segments. */
  lemma {:induction false} TakenAre(segs: seq<Segment>)
    ensures TakeAll(segs).None? <==> SomeTooLong(segs, Chosen(segs))
    ensures TakeAll(segs).Some? ==> ImageIs(segs, Chosen(segs), TakeAll(segs).value)
  {
    if segs != [] {
      var n := |segs| - 1;
      var sel := Chosen(segs[..n]);
      TakenAre(segs[..n]);
      TooLongSnoc(segs, sel, n);
      if TakeAll(segs[..n]).Some? {
        var m := TakeAll(segs[..n]).value;
        FitsIfClear(segs, sel, m, n);
        if Fits(m.cells, segs[n]) {
          if !TooLong(segs[n]) {
            GrownCells(segs, sel, m, n);
            GrownRange(segs, sel, m, n);
          }
        } else {
          KeptCells(segs, sel, m.cells, n);
          if n > 0 { KeptRange(segs, sel, m.initial as int, m.last as int, n); }
        }
      }
    }
  }

  lemma WrittenIs(m: Image, maximumBinSize: int)
    ensures var r := Written(m, maximumBinSize);
      r != Error && r.cells == m.cells && FilesAre(m.initial as int, (m.last as int - m.initial as int) % WORD, maximumBinSize, r)
  {}

  lemma MergeIs(segs: seq<Segment>, maximumBinSize: int, r: Outcome)
    requires r == match TakeAll(segs) case None => Error case Some(m) => Written(m, maximumBinSize)
    ensures MergedFrom(segs, Chosen(segs), maximumBinSize, r)
  {
    TakenAre(segs);
    if TakeAll(segs).Some? {
      WrittenIs(TakeAll(segs).value, maximumBinSize);
    }
  }
}

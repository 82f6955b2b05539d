/**
 The coverage map and the corpus minimiser of fuzzing_tool.c.
 */
module CorpusMinimiser {
  import opened MachineArithmetic

  const MAP_SIZE := 65536
  const MAX_CORPUS := 4096

  /** bitmap OR data, on the bytes that both have. */
  function Covered(bitmap: Bytes, data: Bytes): (r: Bytes)
    ensures |r| == |bitmap|
  {
    seq(|bitmap|, i requires 0 <= i < |bitmap| => if i < |data| then bitmap[i] | data[i] else bitmap[i])
  }

  /** How many of the first n bytes an update changes. */
  function Changes(bitmap: Bytes, data: Bytes, n: nat): nat
    requires n <= |bitmap|
  {
    if n == 0 then 0
    else Changes(bitmap, data, n - 1) + if Covered(bitmap, data)[n - 1] != bitmap[n - 1] then 1 else 0
  }

  lemma {:induction false} NoChanges(bitmap: Bytes, data: Bytes, n: nat)
    requires n <= |bitmap|
    ensures Changes(bitmap, data, n) == 0 <==> Covered(bitmap, data)[..n] == bitmap[..n]
  {
    var c := Covered(bitmap, data);
    if n > 0 {
      NoChanges(bitmap, data, n - 1);
      assert c[..n] == c[..n - 1] + [c[n - 1]] && bitmap[..n] == bitmap[..n - 1] + [bitmap[n - 1]];
    }
  }

  lemma {:induction false} ChangesBeyondData(bitmap: Bytes, data: Bytes, n: nat)
    requires |data| <= n <= |bitmap|
    ensures Changes(bitmap, data, n) == Changes(bitmap, data, |data|)
  {
    if n > |data| {
      ChangesBeyondData(bitmap, data, n - 1);
    }
  }

  /** That is the number of positions at which the update changes the map. */
  lemma {:induction false} ChangesCount(bitmap: Bytes, data: Bytes, n: nat)
    requires n <= |bitmap|
    ensures Changes(bitmap, data, n) == |set i | 0 <= i < n && Covered(bitmap, data)[i] != bitmap[i]|
  {
    var c := Covered(bitmap, data);
    var here := set i | 0 <= i < n && c[i] != bitmap[i];
    if n == 0 {
      assert here == {};
    } else {
      ChangesCount(bitmap, data, n - 1);
      var before := set i | 0 <= i < n - 1 && c[i] != bitmap[i];
      assert here == if c[n - 1] != bitmap[n - 1] then before + {n - 1} else before;
    }
  }

  function Blank(n: nat): (r: Bytes)
    ensures |r| == n && forall i :: 0 <= i < n ==> r[i] == 0
  {
    seq(n, _ => 0)
  }

  class CoverageMap {
    const bitmap: array<bv8>
    var totalEdges: nat

    constructor (size: nat)
      ensures bitmap.Length == size && fresh(bitmap) && totalEdges == 0
      ensures bitmap[..] == Blank(size)
    {
      bitmap := new bv8[size](_ => 0);
      totalEdges := 0;
    }

    /** ORs the data in; true when some byte changed.  Data beyond the map is ignored. */
    method Update(data: Bytes) returns (hasNew: bool)
      modifies this, bitmap
      ensures bitmap[..] == Covered(old(bitmap[..]), data)
      ensures hasNew <==> bitmap[..] != old(bitmap[..])
      ensures totalEdges == old(totalEdges) + Changes(old(bitmap[..]), data, bitmap.Length)
    {
      ghost var before := bitmap[..];
      var newEdges := 0;
      var len := if |data| > bitmap.Length then bitmap.Length else |data|;
      for i := 0 to len
        invariant newEdges == Changes(before, data, i) && totalEdges == old(totalEdges) + newEdges
        invariant forall k :: 0 <= k < i ==> bitmap[k] == Covered(before, data)[k]
        invariant forall k :: i <= k < bitmap.Length ==> bitmap[k] == before[k]
      {
        var was := bitmap[i];
        bitmap[i] := bitmap[i] | data[i];
        if bitmap[i] != was {
          newEdges := newEdges + 1;
          totalEdges := totalEdges + 1;
        }
      }
      if |data| <= bitmap.Length {
        ChangesBeyondData(before, data, bitmap.Length);
      }
      assert bitmap[..] == Covered(before, data);
      NoChanges(before, data, bitmap.Length);
      assert before[..bitmap.Length] == before && bitmap[..][..bitmap.Length] == bitmap[..];
      return newEdges > 0;
    }
  }

  // ---- The minimiser ----

  /** A corpus entry; `data` is None after the entry was freed and zeroed. */
  datatype Entry = Entry(data: Option<Bytes>, depth: nat, fuzzCount: nat, wasFuzzed: bool, name: string)

  const ZERO_ENTRY := Entry(None, 0, 0, false, "")

  /** The coverage after seeing all entries. */
  function Union(coverage: Bytes, s: seq<Entry>): (r: Bytes)
    ensures |r| == |coverage|
    decreases |s|
  {
    if s == [] then coverage
    else Union(if s[0].data.Some? then Covered(coverage, s[0].data.value) else coverage, s[1..])
  }

  /** The entries that the minimiser keeps, starting from the given coverage. */
  function Kept(coverage: Bytes, s: seq<Entry>): seq<Entry>
    decreases |s|
  {
    if s == [] then []
    else if s[0].data.None? then Kept(coverage, s[1..])
    else
      var c := Covered(coverage, s[0].data.value);
      if c != coverage then [s[0]] + Kept(c, s[1..]) else Kept(coverage, s[1..])
  }

  class Corpus {
    const entries: array<Entry>
    var count: nat

    constructor ()
      ensures entries.Length == MAX_CORPUS && fresh(entries) && count == 0
    {
      entries := new Entry[MAX_CORPUS](_ => ZERO_ENTRY);
      count := 0;
    }

    /** An entry moves to the first free slot and leaves none of its data behind. */
    method MoveDown(i: nat, kept: nat)
      requires kept <= i < entries.Length
      modifies entries
      ensures entries[kept] == old(entries[i]) && (kept != i ==> entries[i] == ZERO_ENTRY)
      ensures forall k :: 0 <= k < entries.Length && k != i && k != kept ==> entries[k] == old(entries[k])
    {
      if kept != i {
        entries[kept] := entries[i];
        entries[i] := ZERO_ENTRY;
      }
    }

    /**
     Compacts the corpus in place.  Behind the kept entries, what had no data stays as it was, and
     everything else is zeroed.
     */
    method Minimize()
      requires count <= entries.Length
      modifies this, entries
      ensures count <= old(count) && entries[..count] == Kept(Blank(65536), old(entries[..count]))
      ensures forall k :: count <= k < old(count) ==>
                entries[k] == if old(entries[k]).data.None? then old(entries[k]) else Entry(None, 0, 0, false, "")
      ensures entries[old(count)..] == old(entries[count..])
    {
      hide Covered, Kept, Changes, Blank;
      ghost var s := entries[..count];
      ghost var all := Kept(Blank(MAP_SIZE), s);
      var temp := new CoverageMap(MAP_SIZE);
      var kept := 0;
      ghost var done: seq<Entry> := [];
      assert s[0..] == s;
      for i := 0 to count
        invariant kept <= i && count == old(count) && |done| == kept
        invariant done + Kept(temp.bitmap[..], s[i..]) == all
        invariant forall k :: 0 <= k < kept ==> entries[k] == done[k]
        invariant forall k :: kept <= k < i ==>
                    entries[k] == if old(entries[k]).data.None? then old(entries[k]) else ZERO_ENTRY
        invariant forall k :: i <= k < entries.Length ==> entries[k] == old(entries[k])
        invariant fresh(temp) && fresh(temp.bitmap)
        modifies entries, temp, temp.bitmap
      {
        var e := entries[i];
        assert e == s[i];
        KeptStep(temp.bitmap[..], s, i);
        if e.data.None? {
          continue;
        }
        var hasNew := temp.Update(e.data.value);
        if hasNew {
          MoveDown(i, kept);
          kept := kept + 1;
          done := done + [e];
        } else {
          entries[i] := ZERO_ENTRY;
        }
      }
      KeptEnd(temp.bitmap[..], s);
      assert entries[..kept] == done;
      count := kept;
    }
  }

  lemma KeptStep(coverage: Bytes, s: seq<Entry>, i: nat)
    requires i < |s|
    ensures Kept(coverage, s[i..])
         == if s[i].data.None? || Covered(coverage, s[i].data.value) == coverage then Kept(coverage, s[i + 1..])
            else [s[i]] + Kept(Covered(coverage, s[i].data.value), s[i + 1..])
    ensures s[i].data.Some? && Covered(coverage, s[i].data.value) == coverage ==>
              Kept(coverage, s[i..]) == Kept(Covered(coverage, s[i].data.value), s[i + 1..])
  {
    hide Covered;
    assert s[i..][0] == s[i] && s[i..][1..] == s[i + 1..];
  }

  lemma KeptEnd(coverage: Bytes, s: seq<Entry>)
    ensures Kept(coverage, s[|s|..]) == []
  {
  }

  // ---- What minimising keeps ----

  /** k is s with some entries left out. */
  ghost predicate Subsequence(k: seq<Entry>, s: seq<Entry>)
    decreases |s|
  {
    if s == [] then k == []
    else Subsequence(k, s[1..]) || (k != [] && k[0] == s[0] && Subsequence(k[1..], s[1..]))
  }

  lemma {:induction false} KeptIsSubsequence(coverage: Bytes, s: seq<Entry>)
    ensures Subsequence(Kept(coverage, s), s)
    decreases |s|
  {
    hide Covered;
    if s != [] {
      KeptIsSubsequence(coverage, s[1..]);
      if s[0].data.Some? {
        KeptIsSubsequence(Covered(coverage, s[0].data.value), s[1..]);
      }
    }
  }

  /** The kept entries cover what the whole corpus covers. */
  lemma {:induction false} KeptCoversAll(coverage: Bytes, s: seq<Entry>)
    ensures Union(coverage, Kept(coverage, s)) == Union(coverage, s)
    decreases |s|
  {
    hide Covered;
    if s != [] {
      KeptCoversAll(coverage, s[1..]);
      if s[0].data.Some? {
        KeptCoversAll(Covered(coverage, s[0].data.value), s[1..]);
      }
    }
  }

  /** Each kept entry adds to what the kept entries before it cover. */
  lemma {:induction false} EachKeptAdds(coverage: Bytes, s: seq<Entry>, j: nat)
    requires j < |Kept(coverage, s)|
    ensures var k := Kept(coverage, s);
            k[j].data.Some? && Covered(Union(coverage, k[..j]), k[j].data.value) != Union(coverage, k[..j])
    decreases |s|
  {
    hide Covered;
    var k := Kept(coverage, s);
    if s[0].data.None? || Covered(coverage, s[0].data.value) == coverage {
      EachKeptAdds(coverage, s[1..], j);
    } else if j == 0 {
      assert k[..0] == [];
    } else {
      var c := Covered(coverage, s[0].data.value);
      EachKeptAdds(c, s[1..], j - 1);
      assert k[..j][0] == s[0] && k[..j][1..] == Kept(c, s[1..])[..j - 1];
    }
  }

  /** Minimising again changes nothing. */
  lemma {:induction false} KeptIsStable(coverage: Bytes, s: seq<Entry>)
    ensures Kept(coverage, Kept(coverage, s)) == Kept(coverage, s)
    decreases |s|
  {
    hide Covered;
    if s != [] {
      KeptIsStable(coverage, s[1..]);
      if s[0].data.Some? {
        KeptIsStable(Covered(coverage, s[0].data.value), s[1..]);
      }
    }
  }

  // ---- What the union means, bit by bit ----

  /** x has some of the bits of mask. */
  predicate Test(x: bv8, mask: bv8) {
    x & mask != 0
  }

  /** The entry has, at position i, some of the bits of mask. */
  predicate HasBit(e: Entry, i: nat, mask: bv8) {
    e.data.Some? && i < |e.data.value| && Test(e.data.value[i], mask)
  }

  lemma OrBit(a: bv8, b: bv8, mask: bv8)
    ensures Test(a | b, mask) <==> Test(a, mask) || Test(b, mask)
  {
  }

  ghost predicate AnyHasBit(s: seq<Entry>, i: nat, mask: bv8) {
    exists j :: 0 <= j < |s| && HasBit(s[j], i, mask)
  }

  lemma AnySplit(s: seq<Entry>, i: nat, mask: bv8)
    requires s != []
    ensures AnyHasBit(s, i, mask) <==> HasBit(s[0], i, mask) || AnyHasBit(s[1..], i, mask)
  {
    hide HasBit;
    if AnyHasBit(s, i, mask) {
      var j :| 0 <= j < |s| && HasBit(s[j], i, mask);
      assert j == 0 || HasBit(s[1..][j - 1], i, mask);
    }
    if AnyHasBit(s[1..], i, mask) {
      var j :| 0 <= j < |s[1..]| && HasBit(s[1..][j], i, mask);
      assert HasBit(s[j + 1], i, mask);
    }
  }

  lemma CoveredBit(coverage: Bytes, e: Entry, i: nat, mask: bv8)
    requires i < |coverage|
    ensures var c := if e.data.Some? then Covered(coverage, e.data.value) else coverage;
            Test(c[i], mask) <==> Test(coverage[i], mask) || HasBit(e, i, mask)
  {
    hide Test;
    if e.data.Some? {
      CoveredByte(coverage, e.data.value, i);
      hide Covered;
      if i < |e.data.value| {
        OrBit(coverage[i], e.data.value[i], mask);
      }
    }
  }

  lemma CoveredByte(coverage: Bytes, data: Bytes, i: nat)
    requires i < |coverage|
    ensures Covered(coverage, data)[i] == if i < |data| then coverage[i] | data[i] else coverage[i]
  {
  }

  /** A bit of the union comes from the initial coverage or from some entry, and no bit is lost. */
  lemma {:induction false} UnionBits(coverage: Bytes, s: seq<Entry>, i: nat, mask: bv8)
    requires i < |coverage|
    ensures Test(Union(coverage, s)[i], mask) <==> Test(coverage[i], mask) || AnyHasBit(s, i, mask)
    decreases |s|
  {
    hide HasBit, Covered, Test;
    if s != [] {
      hide AnyHasBit;
      UnionBits(if s[0].data.Some? then Covered(coverage, s[0].data.value) else coverage, s[1..], i, mask);
      CoveredBit(coverage, s[0], i, mask);
      AnySplit(s, i, mask);
    }
  }

  /** A byte that an OR changes gains a bit. */
  lemma NewBit(a: bv8, b: bv8) returns (mask: bv8)
    requires a | b != a
    ensures Test(b, mask) && !Test(a, mask)
  {
    mask := b & !a;
  }

  lemma ChangedByte(coverage: Bytes, data: Bytes) returns (i: nat)
    requires Covered(coverage, data) != coverage
    ensures i < |coverage| && i < |data| && coverage[i] | data[i] != coverage[i]
  {
    var c := Covered(coverage, data);
    i :| i < |coverage| && c[i] != coverage[i];
    CoveredByte(coverage, data, i);
  }

  /** Each kept entry has a bit that neither the initial coverage nor any earlier kept entry has. */
  lemma EachKeptAddsABit(coverage: Bytes, s: seq<Entry>, j: nat) returns (i: nat, mask: bv8)
    requires j < |Kept(coverage, s)|
    ensures i < |coverage| && HasBit(Kept(coverage, s)[j], i, mask)
    ensures !Test(coverage[i], mask) && !AnyHasBit(Kept(coverage, s)[..j], i, mask)
  {
    hide Covered, Kept, Union, Test, AnyHasBit;
    EachKeptAdds(coverage, s, j);
    var k := Kept(coverage, s);
    var before := Union(coverage, k[..j]);
    i := ChangedByte(before, k[j].data.value);
    mask := NewBit(before[i], k[j].data.value[i]);
    UnionBits(coverage, k[..j], i, mask);
  }

  /** The entry has a bit that neither the initial coverage nor an entry of the corpus has. */
  ghost predicate AddsBit(coverage: Bytes, s: seq<Entry>, e: Entry) {
    exists i, mask: bv8 :: 0 <= i < |coverage| && HasBit(e, i, mask) && NewTo(coverage, s, i, mask)
  }

  ghost predicate NewTo(coverage: Bytes, s: seq<Entry>, i: nat, mask: bv8)
    requires i < |coverage|
  {
    !Test(coverage[i], mask) && !AnyHasBit(s, i, mask)
  }

  lemma ChangeIsNewBit(coverage: Bytes, s: seq<Entry>, e: Entry)
    ensures AddsBit(coverage, s, e) <==>
              e.data.Some? && Covered(Union(coverage, s), e.data.value) != Union(coverage, s)
  {
    hide Covered, Union, Test, AnyHasBit, HasBit;
    var before := Union(coverage, s);
    if e.data.Some? && Covered(before, e.data.value) != before {
      var i := ChangedByte(before, e.data.value);
      var mask := NewBit(before[i], e.data.value[i]);
      UnionBits(coverage, s, i, mask);
      HasBitOf(e, i, mask);
    }
    if AddsBit(coverage, s, e) {
      var i, mask: bv8 :| 0 <= i < |coverage| && HasBit(e, i, mask) && NewTo(coverage, s, i, mask);
      UnionBits(coverage, s, i, mask);
      HasBitOf(e, i, mask);
      CoveredBit(before, e, i, mask);
    }
  }

  lemma HasBitOf(e: Entry, i: nat, mask: bv8)
    ensures HasBit(e, i, mask) <==> e.data.Some? && i < |e.data.value| && Test(e.data.value[i], mask)
  {
  }

  lemma {:induction false} KeptSnoc(coverage: Bytes, s: seq<Entry>, e: Entry)
    ensures Kept(coverage, s + [e])
         == Kept(coverage, s)
            + if e.data.Some? && Covered(Union(coverage, s), e.data.value) != Union(coverage, s) then [e] else []
    decreases |s|
  {
    hide Covered;
    if s == [] {
      assert s + [e] == [e] && [e][1..] == [];
    } else {
      assert (s + [e])[0] == s[0] && (s + [e])[1..] == s[1..] + [e];
      KeptSnoc(coverage, s[1..], e);
      if s[0].data.Some? {
        KeptSnoc(Covered(coverage, s[0].data.value), s[1..], e);
      }
    }
  }

  /** What is kept, entry by entry: exactly those with a bit that no entry before them has. */
  lemma KeptIffNewBit(s: seq<Entry>, e: Entry)
    ensures Kept(Blank(65536), s + [e])
         == Kept(Blank(65536), s) + if AddsBit(Blank(65536), s, e) then [e] else []
  {
    hide Kept, Covered, Union, AddsBit;
    KeptSnoc(Blank(65536), s, e);
    ChangeIsNewBit(Blank(65536), s, e);
  }

  /** So minimising loses no bit that any entry of the corpus has. */
  lemma NoBitLost(s: seq<Entry>, i: nat, mask: bv8)
    requires i < 65536 && AnyHasBit(s, i, mask)
    ensures AnyHasBit(Kept(Blank(65536), s), i, mask)
  {
    hide AnyHasBit, Union, Kept;
    var zero := Blank(MAP_SIZE);
    KeptCoversAll(zero, s);
    UnionBits(zero, s, i, mask);
    UnionBits(zero, Kept(zero, s), i, mask);
    assert !Test(zero[i], mask);
  }
}

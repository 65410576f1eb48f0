/** The post-scan half of `Payload::from_hex` (src/payload.rs:84-124): the
    collected `(address, byte)` pairs are sorted, folded into a dense buffer
    with `fill_value` in the gaps, and optionally byte-swapped per word. */
module MemoryMap {
  import opened Bytes
  import opened Words
  import opened Image

  /** One element of `memory_map: Vec<(usize, u8)>`. */
  type Entry = (nat, byte)

  /** Rust's derived tuple order: by address, then by byte. */
  predicate EntryLe(x: Entry, y: Entry)
  {
    x.0 < y.0 || (x.0 == y.0 && x.1 <= y.1)
  }

  predicate Sorted(s: seq<Entry>)
  {
    forall i, j :: 0 <= i < j < |s| ==> EntryLe(s[i], s[j])
  }

  /** Addresses strictly increase: sorted, and no address occurs twice. */
  predicate StrictlyIncreasing(s: seq<Entry>)
  {
    forall i, j :: 0 <= i < j < |s| ==> s[i].0 < s[j].0
  }

  /** Insertion into a sorted sequence: `x` goes before the first element
      it is strictly below. */
  function Insert(x: Entry, s: seq<Entry>): seq<Entry>
  {
    if s == [] then [x]
    else if EntryLe(s[0], x) then [s[0]] + Insert(x, s[1..])
    else [x] + s
  }

  /** Insertion adds `x` and keeps everything else. */
  lemma {:induction false} InsertPermutation(x: Entry, s: seq<Entry>)
    ensures multiset(Insert(x, s)) == multiset(s) + multiset{x}
  {
    if s != [] {
      assert s == [s[0]] + s[1..];
      if EntryLe(s[0], x) {
        InsertPermutation(x, s[1..]);
      }
    }
  }

  /** Insertion keeps a sorted sequence sorted. */
  lemma {:induction false} InsertSorted(x: Entry, s: seq<Entry>)
    requires Sorted(s)
    ensures Sorted(Insert(x, s))
  {
    if s == [] {
    } else if EntryLe(s[0], x) {
      var rest := Insert(x, s[1..]);
      SortedTail(s);
      InsertSorted(x, s[1..]);
      InsertPermutation(x, s[1..]);
      forall j | 0 <= j < |rest| ensures EntryLe(s[0], rest[j]) {
        assert rest[j] in multiset(rest);
        if rest[j] != x {
          assert rest[j] in multiset(s[1..]);
          var k :| 0 <= k < |s[1..]| && s[1..][k] == rest[j];
          assert s[k + 1] == rest[j];
        }
      }
      SortedCons(s[0], rest);
    } else {
      assert forall j :: 0 <= j < |s| ==> EntryLe(s[0], s[j]);
      SortedCons(x, s);
    }
  }

  /** An element no greater than any of a sorted sequence can go in front. */
  lemma SortedCons(x: Entry, s: seq<Entry>)
    requires Sorted(s) && forall j :: 0 <= j < |s| ==> EntryLe(x, s[j])
    ensures Sorted([x] + s)
  {
    var r := [x] + s;
    forall i, j | 0 <= i < j < |r| ensures EntryLe(r[i], r[j]) {
      if i > 0 {
        assert r[i] == s[i - 1] && r[j] == s[j - 1];
      } else {
        assert r[j] == s[j - 1];
      }
    }
  }

  /** `memory_map.sort()`: the result is ordered and is a permutation of the
      input. The derived order is total, so this permutation is unique and any
      sorting algorithm produces it. */
  function SortEntries(s: seq<Entry>): (r: seq<Entry>)
    ensures Sorted(r)
    ensures multiset(r) == multiset(s)
  {
    if s == [] then []
    else
      var sorted := SortEntries(s[..|s| - 1]);
      assert s == s[..|s| - 1] + [s[|s| - 1]];
      InsertSorted(s[|s| - 1], sorted);
      InsertPermutation(s[|s| - 1], sorted);
      Insert(s[|s| - 1], sorted)
  }

  lemma SortedTail(a: seq<Entry>)
    requires Sorted(a) && a != []
    ensures Sorted(a[1..])
  {
    forall i, j | 0 <= i < j < |a[1..]| ensures EntryLe(a[1..][i], a[1..][j]) {
      assert a[1..][i] == a[i + 1] && a[1..][j] == a[j + 1];
    }
  }

  /** The head of a sorted sequence is below all of its elements. */
  lemma SortedHeadLeast(a: seq<Entry>, x: Entry)
    requires Sorted(a) && x in multiset(a)
    ensures EntryLe(a[0], x)
  {
    var p :| 0 <= p < |a| && a[p] == x;
    if p > 0 {
      assert EntryLe(a[0], a[p]);
    }
  }

  /** Two sorted permutations of the same entries are equal. */
  lemma {:induction false} SortedUnique(a: seq<Entry>, b: seq<Entry>)
    requires Sorted(a) && Sorted(b) && multiset(a) == multiset(b)
    ensures a == b
  {
    if a != [] {
      assert |b| == |a| by {
        assert |multiset(a)| == |multiset(b)|;
      }
      SortedHeadLeast(b, a[0]);
      SortedHeadLeast(a, b[0]);
      assert a[0] == b[0];
      assert a == [a[0]] + a[1..] && b == [b[0]] + b[1..];
      assert multiset(a[1..]) == multiset(a) - multiset{a[0]};
      assert multiset(b[1..]) == multiset(b) - multiset{b[0]};
      SortedTail(a);
      SortedTail(b);
      SortedUnique(a[1..], b[1..]);
    }
  }

  /** Sorting an already sorted map changes nothing. */
  lemma SortSorted(s: seq<Entry>)
    requires Sorted(s)
    ensures SortEntries(s) == s
  {
    SortedUnique(SortEntries(s), s);
  }

  /** The `gap - 1` copies of `fill_value` inserted before an entry that lies
      `gap` addresses after the previous one; a gap of 0 or 1 adds nothing. */
  function Fill(gap: int, fill: byte): (r: seq<byte>)
    ensures |r| == if gap <= 1 then 0 else gap - 1
    ensures forall i :: 0 <= i < |r| ==> r[i] == fill
  {
    if gap <= 1 then [] else seq(gap - 1, _ => fill)
  }

  /** The fold of src/payload.rs:96-112, continued from accumulator
      `(last, acc)`. */
  function FoldEntries(entries: seq<Entry>, last: nat, acc: seq<byte>, fill: byte): seq<byte>
    decreases |entries|
  {
    if entries == [] then acc
    else
      var (address, b) := entries[0];
      FoldEntries(entries[1..], address, acc + Fill(address - last, fill) + [b], fill)
  }

  /** The start address: the first address after sorting, or 0. */
  function StartAddress(sorted: seq<Entry>): nat
  {
    if sorted == [] then 0 else sorted[0].0
  }

  /** The dense buffer `raw_bytes`, folded from `start_address`. */
  function GapFill(sorted: seq<Entry>, fill: byte): seq<byte>
  {
    FoldEntries(sorted, StartAddress(sorted), [], fill)
  }

  /** Everything after the line scan: sort, fold, and the endianness step,
      whose `assert!` on word alignment is the error `UnalignedImage`. */
  function Assemble(memoryMap: seq<Entry>, littleEndian: bool, fill: byte): (r: Result<Payload, AssembleError>)
  {
    var sorted := SortEntries(memoryMap);
    var raw := GapFill(sorted, fill);
    if !littleEndian then Ok(Payload(StartAddress(sorted), raw))
    else if |raw| % 4 != 0 then Err(UnalignedImage)
    else Ok(Payload(StartAddress(sorted), ReverseEachWord(raw)))
  }

  /** `assert!(raw_bytes.len() % BYTES_IN_WORD == 0)` failing: the source
      panics here. */
  datatype AssembleError = UnalignedImage

  /** No entry of `es` has address `a`. */
  predicate NotAnAddress(es: seq<Entry>, a: int)
  {
    forall k :: 0 <= k < |es| ==> es[k].0 != a
  }

  /** `r` lays out `es` from address `origin` on: each entry's byte at its
      address minus `origin`, the fill byte everywhere else. */
  predicate LaidOut(r: seq<byte>, es: seq<Entry>, origin: int, fill: byte)
  {
    && (forall k :: 0 <= k < |es| ==> 0 <= es[k].0 - origin < |r| && r[es[k].0 - origin] == es[k].1)
    && (forall j :: 0 <= j < |r| && NotAnAddress(es, origin + j) ==> r[j] == fill)
  }

  /** The accumulator of the fold is only ever extended. */
  lemma {:induction false} FoldAccumulates(es: seq<Entry>, last: nat, acc: seq<byte>, fill: byte)
    ensures FoldEntries(es, last, acc, fill) == acc + FoldEntries(es, last, [], fill)
    decreases |es|
  {
    if es != [] {
      var (a, b) := es[0];
      var step := Fill(a - last, fill) + [b];
      assert acc + Fill(a - last, fill) + [b] == acc + step;
      assert [] + Fill(a - last, fill) + [b] == step;
      FoldAccumulates(es[1..], a, acc + step, fill);
      FoldAccumulates(es[1..], a, step, fill);
    }
  }

  /** Folded from just below its first address, a strictly increasing map
      yields exactly the addresses `last + 1 ..= lastAddress`, laid out. */
  lemma {:induction false} FoldLayout(es: seq<Entry>, last: nat, fill: byte)
    requires StrictlyIncreasing(es) && es != [] && last < es[0].0
    ensures |FoldEntries(es, last, [], fill)| == es[|es| - 1].0 - last
    ensures LaidOut(FoldEntries(es, last, [], fill), es, last + 1, fill)
    decreases |es|
  {
    var (a, b) := es[0];
    var tail := es[1..];
    var prefix := Fill(a - last, fill) + [b];
    assert [] + Fill(a - last, fill) + [b] == prefix;
    FoldAccumulates(tail, a, prefix, fill);
    var rest := FoldEntries(tail, a, [], fill);
    assert es == [(a, b)] + tail;
    if tail == [] {
      assert rest == [];
    } else {
      assert tail[|tail| - 1] == es[|es| - 1];
      FoldLayout(tail, a, fill);
    }
    LaidOutStep(last, a, b, rest, tail, fill, FoldEntries(es, last, [], fill), es);
  }

  /** The fill bytes and the byte of an entry at `a`, placed in front of a
      layout that starts at `a + 1`, lay it out from `last + 1`. */
  lemma LaidOutStep(last: int, a: nat, b: byte, rest: seq<byte>, tail: seq<Entry>, fill: byte, r: seq<byte>, es: seq<Entry>)
    requires last < a && LaidOut(rest, tail, a + 1, fill)
    requires r == Fill(a - last, fill) + [b] + rest && es == [(a, b)] + tail
    ensures LaidOut(r, es, last + 1, fill)
  {
    var prefix := Fill(a - last, fill) + [b];
    assert |prefix| == a - last;
    forall k | 0 <= k < |es| ensures 0 <= es[k].0 - (last + 1) < |r| && r[es[k].0 - (last + 1)] == es[k].1 {
      if k > 0 {
        assert es[k] == tail[k - 1];
      }
    }
    forall j | 0 <= j < |r| && NotAnAddress(es, last + 1 + j) ensures r[j] == fill {
      assert j != a - last - 1 by {
        assert es[0].0 == a;
      }
      if j >= |prefix| {
        forall k | 0 <= k < |tail| ensures tail[k].0 != a + 1 + (j - |prefix|) {
          assert tail[k] == es[k + 1];
        }
      }
    }
  }

  /** With distinct addresses the dense buffer runs from the first to the
      last address: each byte sits at its address minus the start address
      and every other position holds the fill byte. */
  lemma DenseLayout(sorted: seq<Entry>, fill: byte)
    requires StrictlyIncreasing(sorted) && sorted != []
    ensures |GapFill(sorted, fill)| == sorted[|sorted| - 1].0 - sorted[0].0 + 1
    ensures LaidOut(GapFill(sorted, fill), sorted, sorted[0].0, fill)
  {
    GapFillFirst(sorted, fill);
    DenseTail(sorted, fill);
    LaidOutFirst(sorted[0].0, sorted[0].1, FoldEntries(sorted[1..], sorted[0].0, [], fill), fill, GapFill(sorted, fill), sorted);
  }

  /** The byte of the first entry in front of a layout of the others that
      starts right after it lays out all of them. */
  lemma LaidOutFirst(a: nat, b: byte, rest: seq<byte>, fill: byte, r: seq<byte>, es: seq<Entry>)
    requires es != [] && es[0] == (a, b) && LaidOut(rest, es[1..], a + 1, fill)
    requires r == [b] + rest
    ensures LaidOut(r, es, a, fill)
  {
    var last := a as int - 1;
    assert Fill(a - last, fill) == [];
    assert r == Fill(a - last, fill) + [b] + rest;
    assert es == [(a, b)] + es[1..];
    LaidOutStep(last, a, b, rest, es[1..], fill, r, es);
  }

  /** After the first entry, the fold lays out the rest of the entries up
      to the last address. */
  lemma DenseTail(sorted: seq<Entry>, fill: byte)
    requires StrictlyIncreasing(sorted) && sorted != []
    ensures var rest := FoldEntries(sorted[1..], sorted[0].0, [], fill);
      |rest| == sorted[|sorted| - 1].0 - sorted[0].0 && LaidOut(rest, sorted[1..], sorted[0].0 + 1, fill)
  {
    var tail := sorted[1..];
    if tail == [] {
      assert FoldEntries(tail, sorted[0].0, [], fill) == [];
    } else {
      IncreasingTail(sorted);
      FoldLayout(tail, sorted[0].0, fill);
    }
  }

  /** Without its first entry a strictly increasing map stays so, and its
      first address is still above the dropped one. */
  lemma IncreasingTail(sorted: seq<Entry>)
    requires StrictlyIncreasing(sorted) && |sorted| >= 2
    ensures StrictlyIncreasing(sorted[1..]) && sorted[0].0 < sorted[1..][0].0
    ensures sorted[1..][|sorted| - 2] == sorted[|sorted| - 1]
  {
    var tail := sorted[1..];
    forall i, j | 0 <= i < j < |tail| ensures tail[i].0 < tail[j].0 {
      assert tail[i] == sorted[i + 1] && tail[j] == sorted[j + 1];
    }
  }

  /** The dense buffer starts with the first byte, and the fold goes on from
      its address. */
  lemma GapFillFirst(sorted: seq<Entry>, fill: byte)
    requires sorted != []
    ensures GapFill(sorted, fill) == [sorted[0].1] + FoldEntries(sorted[1..], sorted[0].0, [], fill)
  {
    var (a, b) := sorted[0];
    assert GapFill(sorted, fill) == FoldEntries(sorted[1..], a, [b], fill) by {
      assert Fill(0, fill) == [];
      assert [] + Fill(a - a, fill) + [b] == [b];
    }
    FoldAccumulates(sorted[1..], a, [b], fill);
  }

  /** Laying out is insensitive to the order of the entries. */
  lemma LaidOutPermutation(r: seq<byte>, a: seq<Entry>, b: seq<Entry>, origin: int, fill: byte)
    requires multiset(a) == multiset(b) && LaidOut(r, a, origin, fill)
    ensures LaidOut(r, b, origin, fill)
  {
    forall k | 0 <= k < |b| ensures 0 <= b[k].0 - origin < |r| && r[b[k].0 - origin] == b[k].1 {
      assert b[k] in multiset(a);
      var i :| 0 <= i < |a| && a[i] == b[k];
    }
    forall j | 0 <= j < |r| && NotAnAddress(b, origin + j) ensures r[j] == fill {
      forall i | 0 <= i < |a| ensures a[i].0 != origin + j {
        assert a[i] in multiset(b);
        var k :| 0 <= k < |b| && b[k] == a[i];
      }
    }
  }

  /** The assembled image of a map with distinct addresses: the start
      address is the lowest address of the map, the last byte stands at the
      highest one, every pair of the map has its byte at
      `address - start_address`, and every other byte is `fill_value`. */
  lemma AssembleLayout(memoryMap: seq<Entry>, fill: byte)
    requires memoryMap != [] && StrictlyIncreasing(SortEntries(memoryMap))
    ensures Assemble(memoryMap, false, fill).Ok?
    ensures var image := Assemble(memoryMap, false, fill).value;
      && (forall k :: 0 <= k < |memoryMap| ==> image.startAddress <= memoryMap[k].0)
      && LaidOut(image.bytes, memoryMap, image.startAddress, fill)
      && |image.bytes| > 0
      && (exists k :: 0 <= k < |memoryMap| && memoryMap[k].0 == image.startAddress)
      && (exists k :: 0 <= k < |memoryMap| && memoryMap[k].0 == image.startAddress + |image.bytes| - 1)
  {
    var sorted := SortEntries(memoryMap);
    DenseLayout(sorted, fill);
    LaidOutPermutation(GapFill(sorted, fill), sorted, memoryMap, sorted[0].0, fill);
    InPermutation(memoryMap, sorted, 0);
    InPermutation(memoryMap, sorted, |sorted| - 1);
  }

  /** Every element of a permutation stands somewhere in the original. */
  lemma InPermutation(a: seq<Entry>, b: seq<Entry>, i: nat)
    requires multiset(a) == multiset(b) && i < |b|
    ensures exists k :: 0 <= k < |a| && a[k] == b[i]
  {
    assert b[i] in multiset(b);
    assert b[i] in multiset(a);
  }

  /** No collected pair: the image starts at 0 and is empty, in either
      byte order. */
  lemma AssembleEmpty(littleEndian: bool, fill: byte)
    ensures Assemble([], littleEndian, fill) == Ok(Payload(0, []))
  {
  }

  /** Two pairs at one address (overlapping data records) are not merged:
      the fold sees a gap of 0 and keeps both bytes, in sorted order, so
      the image grows by one byte and every later byte moves up. */
  lemma AssembleKeepsOverlap(a: nat, x: byte, y: byte, fill: byte)
    requires x < y
    ensures Assemble([(a, y), (a, x)], false, fill) == Ok(Payload(a, [x, y]))
  {
    var m := [(a, y), (a, x)];
    assert m[..1] == [(a, y)];
    assert SortEntries([(a, y)]) == [(a, y)];
    assert SortEntries(m) == [(a, x), (a, y)];
    var sorted := [(a, x), (a, y)];
    assert sorted[1..] == [(a, y)];
    assert Fill(0, fill) == [];
    assert FoldEntries([(a, y)], a, [x], fill) == [x, y];
    assert [] + Fill(a - a, fill) + [x] == [x];
    assert GapFill(sorted, fill) == FoldEntries([(a, y)], a, [x], fill);
  }

  /** Little endian is big endian followed by the per-word byte swap, and
      fails exactly when the dense buffer is not word-aligned. */
  lemma AssembleEndianness(memoryMap: seq<Entry>, fill: byte)
    ensures var big := Assemble(memoryMap, false, fill);
      && big.Ok?
      && Assemble(memoryMap, true, fill) ==
           if |big.value.bytes| % 4 == 0 then Ok(Payload(big.value.startAddress, ReverseEachWord(big.value.bytes)))
           else Err(UnalignedImage)
  {
  }

  lemma RemoveAt(s: seq<Entry>, i: nat)
    requires i < |s|
    ensures multiset(s[..i] + s[i + 1..]) == multiset(s) - multiset{s[i]}
  {
    assert s == s[..i] + [s[i]] + s[i + 1..];
  }

  /** Two positions of a sequence are matched by two positions of any
      permutation of it. */
  lemma PermutationPositions(a: seq<Entry>, b: seq<Entry>, i: nat, j: nat)
    requires multiset(a) == multiset(b) && i < j < |b|
    ensures exists p, q :: 0 <= p < |a| && 0 <= q < |a| && p != q && a[p] == b[i] && a[q] == b[j]
  {
    var bRest := b[..i] + b[i + 1..];
    RemoveAt(b, i);
    assert bRest[j - 1] == b[j];
    assert b[j] in multiset(bRest);
    assert b[i] in multiset(a);
    var p :| 0 <= p < |a| && a[p] == b[i];
    var aRest := a[..p] + a[p + 1..];
    RemoveAt(a, p);
    assert b[j] in multiset(aRest);
    var q' :| 0 <= q' < |aRest| && aRest[q'] == b[j];
    var q := if q' < p then q' else q' + 1;
    assert a[q] == b[j];
  }

  /** A map without repeated addresses sorts into strictly increasing
      order. */
  lemma SortDistinct(memoryMap: seq<Entry>)
    requires forall i, j :: 0 <= i < j < |memoryMap| ==> memoryMap[i].0 != memoryMap[j].0
    ensures StrictlyIncreasing(SortEntries(memoryMap))
  {
    var sorted := SortEntries(memoryMap);
    forall i, j | 0 <= i < j < |sorted| ensures sorted[i].0 < sorted[j].0 {
      assert EntryLe(sorted[i], sorted[j]);
      PermutationPositions(memoryMap, sorted, i, j);
      var p, q :| 0 <= p < |memoryMap| && 0 <= q < |memoryMap| && p != q && memoryMap[p] == sorted[i] && memoryMap[q] == sorted[j];
      if p < q {
        assert memoryMap[p].0 != memoryMap[q].0;
      } else {
        assert memoryMap[q].0 != memoryMap[p].0;
      }
    }
  }
}

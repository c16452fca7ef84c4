/** The inverted chord index, mask -> chord names, and its JSON index file
    (backend/jass/chroma_index.py). */
module ChromaIndex {
  import opened Wrappers
  import opened Text
  import opened Sorting
  import opened Dicts
  import opened Chroma
  import opened ChordNames

  /** An index: masks, each with its chord names. */
  type Index = Dict<int, seq<string>>

  /** `names.sort()` on a list of chord names. */
  function SortNames(names: seq<string>): seq<string> {
    Sort(names, StrLe)
  }

  /** Ordering of index entries by their mask: `sorted(index.items(), key=lambda kv: kv[0])`. */
  predicate KeyLe(a: (int, seq<string>), b: (int, seq<string>)) {
    a.0 <= b.0
  }

  function EntryKey(e: (int, seq<string>)): int {
    e.0
  }

  /** The (mask, name) pairs of a chord table whose bit lists are all valid. */
  function MaskPairs(chords: Dict<string, seq<int>>): (r: seq<(int, string)>)
    ensures |r| == |chords| && forall j :: 0 <= j < |chords| ==> r[j] == (FromBits(chords[j].1), chords[j].0)
  {
    seq(|chords|, j requires 0 <= j < |chords| => (FromBits(chords[j].1), chords[j].0))
  }

  predicate AllChroma(chords: Dict<string, seq<int>>) {
    forall j :: 0 <= j < |chords| ==> IsChroma(chords[j].1)
  }

  /** The value of `build_chroma_index`: a `ChromaInputError` if any bit list is invalid;
      otherwise the names grouped by mask, each group sorted, the groups in ascending mask
      order. */
  function ChromaIndexOf(chords: Dict<string, seq<int>>): (r: Result<Index>)
    ensures r.Ok? <==> AllChroma(chords)
    ensures r.Err? ==> r.error == ChromaInputError
  {
    if AllChroma(chords) then Ok(Sort(MapValues(GroupBy(MaskPairs(chords)), SortNames), KeyLe))
    else Err(ChromaInputError)
  }

  /** `build_chroma_index`: one pass filling the index with `setdefault(mask, []).append(name)`,
      one pass sorting each list in place, then the entries sorted by mask. */
  method BuildChromaIndex(chords: Dict<string, seq<int>>) returns (r: Result<Index>)
    ensures r == ChromaIndexOf(chords)
  {
    var grouped := GroupByMask(chords);
    if grouped.Err? {
      return Err(ChromaInputError);
    }
    var index := SortEachList(grouped.value);
    return Ok(Sort(index, KeyLe));
  }

  /** The first pass of `build_chroma_index`: stops at the first invalid bit list. */
  method GroupByMask(chords: Dict<string, seq<int>>) returns (r: Result<Index>)
    ensures r.Ok? <==> AllChroma(chords)
    ensures r.Ok? ==> r.value == GroupBy(MaskPairs(chords))
    ensures r.Err? ==> r.error == ChromaInputError
  {
    var index: Index := [];
    ghost var pairs: seq<(int, string)> := [];
    for i := 0 to |chords|
      invariant |pairs| == i
      invariant ValidPairs(chords[..i], pairs)
      invariant index == GroupBy(pairs)
    {
      var mask := BitsToMask(chords[i].1);
      if mask.Err? {
        NotAllChroma(chords, i);
        return Err(ChromaInputError);
      }
      GroupMaskStep(chords, i, pairs, index, mask.value);
      index := AppendTo(index, mask.value, chords[i].0);
      pairs := pairs + [(mask.value, chords[i].0)];
    }
    assert chords[..|chords|] == chords;
    MaskPairsOfMasks(chords, pairs);
    return Ok(index);
  }

  /** `pairs` holds the mask and name of each chord, in order, and every bit list is valid. */
  predicate ValidPairs(chords: Dict<string, seq<int>>, pairs: seq<(int, string)>)
    decreases |chords|
  {
    |pairs| == |chords| &&
    (chords == [] ||
     (ValidPairs(chords[..|chords| - 1], pairs[..|pairs| - 1]) &&
      MaskOf(chords[|chords| - 1].1) == Ok(pairs[|pairs| - 1].0) && pairs[|pairs| - 1].1 == chords[|chords| - 1].0))
  }

  lemma NotAllChroma(chords: Dict<string, seq<int>>, i: int)
    requires 0 <= i < |chords| && MaskOf(chords[i].1).Err?
    ensures !AllChroma(chords)
  {
  }

  /** One step of the first pass: the chord at `i` joins the group of its mask. */
  lemma GroupMaskStep(chords: Dict<string, seq<int>>, i: int, pairs: seq<(int, string)>, index: Index, m: int)
    requires 0 <= i < |chords| && ValidPairs(chords[..i], pairs) && index == GroupBy(pairs)
    requires MaskOf(chords[i].1) == Ok(m)
    ensures ValidPairs(chords[..i + 1], pairs + [(m, chords[i].0)])
    ensures AppendTo(index, m, chords[i].0) == GroupBy(pairs + [(m, chords[i].0)])
  {
    GroupBySnoc(pairs, m, chords[i].0);
    ValidPairsSnoc(chords, i, pairs, m);
  }

  /** The pairs of one more chord: its mask and its name appended. */
  lemma ValidPairsSnoc(chords: Dict<string, seq<int>>, i: int, pairs: seq<(int, string)>, m: int)
    requires 0 <= i < |chords| && ValidPairs(chords[..i], pairs)
    requires MaskOf(chords[i].1) == Ok(m)
    ensures ValidPairs(chords[..i + 1], pairs + [(m, chords[i].0)])
  {
    var chords', pairs' := chords[..i + 1], pairs + [(m, chords[i].0)];
    assert |pairs| == i;
    assert chords'[..i] == chords[..i] && chords'[i] == chords[i];
    assert pairs'[..i] == pairs && pairs'[i] == (m, chords[i].0);
  }

  lemma {:induction false} MaskPairsOfMasks(chords: Dict<string, seq<int>>, pairs: seq<(int, string)>)
    requires ValidPairs(chords, pairs)
    ensures AllChroma(chords) && pairs == MaskPairs(chords)
    decreases |chords|
  {
    if chords != [] {
      var n := |chords| - 1;
      MaskPairsOfMasks(chords[..n], pairs[..n]);
      assert forall j :: 0 <= j < n ==> chords[j] == chords[..n][j];
    }
  }

  /** `for chord_names in index.values(): chord_names.sort()` */
  method SortEachList(index: Index) returns (r: Index)
    ensures r == MapValues(index, SortNames)
  {
    r := index;
    for k := 0 to |r|
      invariant |r| == |index|
      invariant forall j :: 0 <= j < |index| ==> r[j] == (if j < k then (index[j].0, SortNames(index[j].1)) else index[j])
    {
      r := r[k := (r[k].0, SortNames(r[k].1))];
    }
  }

  lemma KeyLeOrder()
    ensures Total(KeyLe) && Transitive(KeyLe)
    ensures forall a :: KeyLe(a, a)
  {
  }

  lemma StrLeOrder()
    ensures Total(StrLe) && Transitive(StrLe)
  {
    forall a, b ensures StrLe(a, b) || StrLe(b, a) {
      StrLeTotal(a, b);
    }
    forall a, b, c | StrLe(a, b) && StrLe(b, c) ensures StrLe(a, c) {
      StrLeTransitive(a, b, c);
    }
  }

  /** An entry of the index is a group of the by-mask grouping, with its names sorted. */
  lemma IndexEntryGroup(chords: Dict<string, seq<int>>, e: (int, seq<string>))
    requires AllChroma(chords) && e in ChromaIndexOf(chords).value
    ensures e.0 in KeysOf(MaskPairs(chords))
    ensures e.1 == SortNames(Bucket(MaskPairs(chords), e.0))
  {
    var ps := MaskPairs(chords);
    var g := GroupBy(ps);
    var m := MapValues(g, SortNames);
    SortMembers(m, KeyLe);
    MapValuesGroupEntry(ps, SortNames, e);
  }

  /** Each entry of the index holds, sorted, exactly the names whose bits give its mask. */
  lemma IndexEntry(chords: Dict<string, seq<int>>, e: (int, seq<string>))
    requires AllChroma(chords) && e in ChromaIndexOf(chords).value
    ensures 0 <= e.0 < 4096
    ensures Sorted(e.1, StrLe)
    ensures forall name :: name in e.1 <==> exists j :: 0 <= j < |chords| && chords[j].0 == name && FromBits(chords[j].1) == e.0
  {
    IndexEntryGroup(chords, e);
    MaskKeyRange(chords, e.0);
    SortNamesSorted(Bucket(MaskPairs(chords), e.0));
    IndexEntryNames(chords, e.0, e.1);
  }

  lemma SortNamesSorted(names: seq<string>)
    ensures Sorted(SortNames(names), StrLe)
  {
    StrLeOrder();
    SortSorted(names, StrLe);
  }

  lemma IndexEntryNames(chords: Dict<string, seq<int>>, key: int, names: seq<string>)
    requires names == SortNames(Bucket(MaskPairs(chords), key))
    ensures forall name :: name in names <==> exists j :: 0 <= j < |chords| && chords[j].0 == name && FromBits(chords[j].1) == key
  {
    forall name ensures name in names <==> exists j :: 0 <= j < |chords| && chords[j].0 == name && FromBits(chords[j].1) == key {
      IndexEntryMember(chords, key, names, name);
    }
  }

  lemma MaskKeyRange(chords: Dict<string, seq<int>>, key: int)
    requires AllChroma(chords) && key in KeysOf(MaskPairs(chords))
    ensures 0 <= key < 4096
  {
    var ps := MaskPairs(chords);
    var j :| 0 <= j < |ps| && KeysOf(ps)[j] == key;
    ChromaMaskRange(chords[j].1);
  }

  lemma IndexEntryMember(chords: Dict<string, seq<int>>, key: int, names: seq<string>, name: string)
    requires names == SortNames(Bucket(MaskPairs(chords), key))
    ensures name in names <==> exists j :: 0 <= j < |chords| && chords[j].0 == name && FromBits(chords[j].1) == key
  {
    var ps := MaskPairs(chords);
    SortMembers(Bucket(ps, key), StrLe);
    BucketMembers(ps, key, name);
    if (key, name) in ps {
      var j :| 0 <= j < |ps| && ps[j] == (key, name);
      assert chords[j].0 == name && FromBits(chords[j].1) == key;
    } else {
      forall j | 0 <= j < |chords| && chords[j].0 == name ensures FromBits(chords[j].1) != key {
        assert ps[j] == (FromBits(chords[j].1), name);
      }
    }
  }

  /** The index keys are distinct and strictly ascending. */
  lemma IndexKeysAscending(chords: Dict<string, seq<int>>)
    requires AllChroma(chords)
    ensures var idx := ChromaIndexOf(chords).value;
      forall i, j :: 0 <= i < j < |idx| ==> idx[i].0 < idx[j].0
  {
    var ps := MaskPairs(chords);
    var g := GroupBy(ps);
    var m := MapValues(g, SortNames);
    var idx := Sort(m, KeyLe);
    GroupByContents(ps);
    MapValuesDistinct(g, SortNames);
    assert DistinctBy(m, EntryKey);
    SortDistinctBy(m, KeyLe, EntryKey);
    KeyLeOrder();
    SortSorted(m, KeyLe);
    forall i, j | 0 <= i < j < |idx| ensures idx[i].0 < idx[j].0 {
      SortedPairwise(idx, KeyLe, i, j);
      assert EntryKey(idx[i]) != EntryKey(idx[j]);
    }
  }

  /** Every chord name lies in the entry keyed by its own mask. */
  lemma IndexEntryOf(chords: Dict<string, seq<int>>, j: int) returns (i: int)
    requires AllChroma(chords) && 0 <= j < |chords|
    ensures var idx := ChromaIndexOf(chords).value;
      0 <= i < |idx| && idx[i].0 == FromBits(chords[j].1) && chords[j].0 in idx[i].1
  {
    var ps := MaskPairs(chords);
    var idx := ChromaIndexOf(chords).value;
    var g := GroupBy(ps);
    var k := GroupOf(ps, j);
    var m := MapValues(g, SortNames);
    SortMembers(m, KeyLe);
    SortMembers(g[k].1, StrLe);
    var e := m[k];
    assert e.0 == FromBits(chords[j].1) && chords[j].0 in e.1;
    assert e in idx;
    i :| 0 <= i < |idx| && idx[i] == e;
  }

  /** With distinct chord names, a name lies in no entry other than the one of its mask. */
  lemma IndexNameUnique(chords: Dict<string, seq<int>>, j: int, i: int)
    requires AllChroma(chords) && DistinctKeys(chords) && 0 <= j < |chords|
    requires 0 <= i < |ChromaIndexOf(chords).value| && chords[j].0 in ChromaIndexOf(chords).value[i].1
    ensures ChromaIndexOf(chords).value[i].0 == FromBits(chords[j].1)
  {
    var e := ChromaIndexOf(chords).value[i];
    assert e in ChromaIndexOf(chords).value;
    IndexEntryGroup(chords, e);
    IndexEntryMember(chords, e.0, e.1, chords[j].0);
    var j' :| 0 <= j' < |chords| && chords[j'].0 == chords[j].0 && FromBits(chords[j'].1) == e.0;
    assert j' == j;
  }

  /** Every entry of the chroma index holds at least one name. */
  lemma IndexEntriesNonEmpty(chords: Dict<string, seq<int>>)
    requires AllChroma(chords)
    ensures var idx := ChromaIndexOf(chords).value;
      forall i :: 0 <= i < |idx| ==> idx[i].1 != []
  {
    var idx := ChromaIndexOf(chords).value;
    forall i | 0 <= i < |idx| ensures idx[i].1 != [] {
      assert idx[i] in idx;
      IndexEntryGroup(chords, idx[i]);
      SortMembers(Bucket(MaskPairs(chords), idx[i].0), StrLe);
    }
  }
}

/** The discrete layout of the TIS index (backend/jass/tis_index.py): one row per distinct
    chroma mask, with the representative and alias names of all rows flattened into two
    name arrays that offset arrays cut back into rows. */
module TisIndex {
  import opened Wrappers
  import opened Text
  import opened Sorting
  import opened Dicts
  import opened Chroma
  import opened ChordNames
  import opened ChromaIndex

  /** Width of the `<U64` name arrays: a longer name keeps only its first 64 characters. */
  const NAME_WIDTH := 64

  /** A name as stored in a `<U64` array. */
  function Fit(name: string): (r: string)
    ensures |r| <= NAME_WIDTH && r <= name
    ensures |name| <= NAME_WIDTH ==> r == name
  {
    if |name| <= NAME_WIDTH then name else name[..NAME_WIDTH]
  }

  function FitAll(names: seq<string>): (r: seq<string>)
    ensures |r| == |names| && forall i :: 0 <= i < |names| ==> r[i] == Fit(names[i])
  {
    seq(|names|, i requires 0 <= i < |names| => Fit(names[i]))
  }

  /** `TISIndex` without its floating-point members (`tis`, `tis_norm`, `tis_unit`) and
      its metadata. */
  datatype TisLayout = TisLayout(
    repNames: seq<string>,
    chromaBits: seq<seq<int>>,
    chromaMask: seq<int>,
    repOffsets: seq<int>,
    repNamesByRoot: seq<string>,
    aliasOffsets: seq<int>,
    aliasNames: seq<string>)

  // ---------------------------------------------------------------------------------------
  // Reading rows

  /** Python (and numpy) indexing: a negative index counts from the end; outside
      `[-|s|, |s|)` it is an `IndexError`. */
  function PyIndex(s: seq<int>, k: int): (r: Result<int>)
    ensures r.Ok? <==> -|s| <= k < |s|
    ensures r.Err? ==> r.error == IndexError
  {
    if 0 <= k < |s| then Ok(s[k])
    else if -|s| <= k < 0 then Ok(s[|s| + k])
    else Err(IndexError)
  }

  /** A slice bound as Python normalises it. */
  function Clamp(k: int, n: nat): (r: nat)
    ensures r <= n
  {
    if k < 0 then (if k + n < 0 then 0 else k + n) else if k > n then n else k
  }

  /** Python slicing `s[a:b]`: bounds are clamped and an empty range gives []. */
  function PySlice(s: seq<string>, a: int, b: int): (r: seq<string>)
    ensures 0 <= a <= b <= |s| ==> r == s[a..b]
  {
    var i := Clamp(a, |s|);
    var j := Clamp(b, |s|);
    if i < j then s[i..j] else []
  }

  /** `names[offsets[row]:offsets[row + 1]]`: an `IndexError` unless both offsets exist. */
  function SliceRow(offsets: seq<int>, names: seq<string>, row: int): (r: Result<seq<string>>)
    ensures r.Ok? <==> -|offsets| <= row && row + 1 < |offsets|
    ensures r.Err? ==> r.error == IndexError
  {
    var start := PyIndex(offsets, row);
    var end := PyIndex(offsets, row + 1);
    if start.Err? || end.Err? then Err(IndexError) else Ok(PySlice(names, start.value, end.value))
  }

  /** `TISIndex.reps_for_row`. */
  function RepsForRow(l: TisLayout, row: int): Result<seq<string>> {
    SliceRow(l.repOffsets, l.repNamesByRoot, row)
  }

  /** `TISIndex.aliases_for_row`. */
  function AliasesForRow(l: TisLayout, row: int): Result<seq<string>> {
    SliceRow(l.aliasOffsets, l.aliasNames, row)
  }

  // ---------------------------------------------------------------------------------------
  // Flattened rows and their offsets

  /** The concatenation of a list of rows (`flat.extend(row)` for each row). */
  function Flatten(rows: seq<seq<string>>): seq<string>
    decreases |rows|
  {
    if rows == [] then [] else Flatten(rows[..|rows| - 1]) + rows[|rows| - 1]
  }

  /** `[0]` followed by `len(flat)` after each row is appended. */
  function Offsets(rows: seq<seq<string>>): (r: seq<int>)
    ensures |r| == |rows| + 1
    decreases |rows|
  {
    if rows == [] then [0] else Offsets(rows[..|rows| - 1]) + [|Flatten(rows)|]
  }

  /** The offsets start at 0, end at the length of the flat array, and step by the
      length of each row. */
  lemma {:induction false} OffsetsShape(rows: seq<seq<string>>)
    ensures |Offsets(rows)| == |rows| + 1
    ensures Offsets(rows)[0] == 0 && Offsets(rows)[|rows|] == |Flatten(rows)|
    ensures forall i :: 0 <= i < |rows| ==> Offsets(rows)[i + 1] == Offsets(rows)[i] + |rows[i]|
    decreases |rows|
  {
    if rows != [] {
      var n := |rows| - 1;
      OffsetsShape(rows[..n]);
      assert forall i :: 0 <= i < n ==> rows[..n][i] == rows[i];
    }
  }

  /** Each row is read back from the flat array between its two offsets. */
  lemma {:induction false} FlattenRow(rows: seq<seq<string>>, i: int)
    requires 0 <= i < |rows|
    ensures 0 <= Offsets(rows)[i] <= Offsets(rows)[i + 1] <= |Flatten(rows)|
    ensures Flatten(rows)[Offsets(rows)[i]..Offsets(rows)[i + 1]] == rows[i]
    decreases |rows|
  {
    var n := |rows| - 1;
    var prefix := Flatten(rows[..n]);
    assert Flatten(rows) == prefix + rows[n];
    assert Offsets(rows) == Offsets(rows[..n]) + [|Flatten(rows)|];
    OffsetsShape(rows[..n]);
    if i < n {
      FlattenRow(rows[..n], i);
      assert rows[..n][i] == rows[i];
      assert Offsets(rows)[i] == Offsets(rows[..n])[i] && Offsets(rows)[i + 1] == Offsets(rows[..n])[i + 1];
      assert Flatten(rows)[..|prefix|] == prefix;
    } else {
      assert Offsets(rows)[n] == |prefix|;
      assert Flatten(rows)[|prefix|..] == rows[n];
    }
  }

  lemma FlattenSnoc(rows: seq<seq<string>>, i: int)
    requires 0 <= i < |rows|
    ensures Flatten(rows[..i + 1]) == Flatten(rows[..i]) + rows[i]
    ensures Offsets(rows[..i + 1]) == Offsets(rows[..i]) + [|Flatten(rows[..i + 1])|]
  {
    assert rows[..i + 1][..i] == rows[..i];
  }

  /** Offsets strictly increase when every row is non-empty. */
  predicate StrictlyIncreasing(s: seq<int>) {
    forall i :: 0 <= i < |s| - 1 ==> s[i] < s[i + 1]
  }

  // ---------------------------------------------------------------------------------------
  // Building

  /** One row of the layout: its mask, its primary representative, its representatives
      and its sorted aliases. */
  datatype Row = Row(mask: int, rep: string, reps: seq<string>, aliases: seq<string>)

  /** The row `build_tis_index` makes of an index entry: the representatives are
      `reps_by_root`, or `[rep]` when that is empty; the primary representative is
      `choose_representative` of those. */
  function RowOf(e: (int, seq<string>)): (r: Row)
    ensures r.mask == e.0 && r.aliases == e.1
    ensures e.1 != [] ==> r.rep in r.reps && r.reps != [] && forall x :: x in r.reps ==> x in e.1
  {
    if e.1 == [] then Row(e.0, "", [], [])
    else
      var reps := RepsOrRepresentative(e.1).value;
      Row(e.0, Representative(reps), reps, e.1)
  }

  function RowsOf(idx: Index): (r: seq<Row>)
    ensures |r| == |idx| && forall i :: 0 <= i < |idx| ==> r[i] == RowOf(idx[i])
  {
    seq(|idx|, i requires 0 <= i < |idx| => RowOf(idx[i]))
  }

  /** `chords_to_bits[rep]`; a name that is not a chord (which the built rows never hold)
      gives []. */
  function BitsOf(chords: Dict<string, seq<int>>, name: string): seq<int> {
    match Get(chords, name)
    case Some(bits) => bits
    case None => []
  }

  function RepLists(rows: seq<Row>): (r: seq<seq<string>>)
    ensures |r| == |rows| && forall i :: 0 <= i < |rows| ==> r[i] == FitAll(rows[i].reps)
  {
    seq(|rows|, i requires 0 <= i < |rows| => FitAll(rows[i].reps))
  }

  function AliasLists(rows: seq<Row>): (r: seq<seq<string>>)
    ensures |r| == |rows| && forall i :: 0 <= i < |rows| ==> r[i] == FitAll(rows[i].aliases)
  {
    seq(|rows|, i requires 0 <= i < |rows| => FitAll(rows[i].aliases))
  }

  /** The primary representative of each row, cut to the array width. */
  function RepNamesOf(rows: seq<Row>): (r: seq<string>)
    ensures |r| == |rows| && forall i :: 0 <= i < |rows| ==> r[i] == Fit(rows[i].rep)
  {
    seq(|rows|, i requires 0 <= i < |rows| => Fit(rows[i].rep))
  }

  /** The bit list of each row's primary representative. */
  function RepBitsOf(rows: seq<Row>, chords: Dict<string, seq<int>>): (r: seq<seq<int>>)
    ensures |r| == |rows| && forall i :: 0 <= i < |rows| ==> r[i] == BitsOf(chords, rows[i].rep)
  {
    seq(|rows|, i requires 0 <= i < |rows| => BitsOf(chords, rows[i].rep))
  }

  /** How each array of the layout grows when one more row is appended. */
  lemma RowsSnoc(rows: seq<Row>, chords: Dict<string, seq<int>>, i: int)
    requires 0 <= i < |rows|
    ensures RepNamesOf(rows[..i + 1]) == RepNamesOf(rows[..i]) + [Fit(rows[i].rep)]
    ensures RepBitsOf(rows[..i + 1], chords) == RepBitsOf(rows[..i], chords) + [BitsOf(chords, rows[i].rep)]
    ensures Flatten(RepLists(rows)[..i + 1]) == Flatten(RepLists(rows)[..i]) + FitAll(rows[i].reps)
    ensures Offsets(RepLists(rows)[..i + 1]) == Offsets(RepLists(rows)[..i]) + [|Flatten(RepLists(rows)[..i + 1])|]
    ensures Flatten(AliasLists(rows)[..i + 1]) == Flatten(AliasLists(rows)[..i]) + FitAll(rows[i].aliases)
    ensures Offsets(AliasLists(rows)[..i + 1]) == Offsets(AliasLists(rows)[..i]) + [|Flatten(AliasLists(rows)[..i + 1])|]
  {
    FlattenSnoc(RepLists(rows), i);
    FlattenSnoc(AliasLists(rows), i);
  }

  /** The arrays of the layout for a list of rows. */
  function LayoutOf(rows: seq<Row>, chords: Dict<string, seq<int>>): (r: TisLayout)
    ensures |r.repNames| == |r.chromaBits| == |r.chromaMask| == |rows|
    ensures forall i :: 0 <= i < |rows| ==>
      r.repNames[i] == Fit(rows[i].rep) && r.chromaBits[i] == BitsOf(chords, rows[i].rep) && r.chromaMask[i] == rows[i].mask
  {
    TisLayout(
      RepNamesOf(rows),
      RepBitsOf(rows, chords),
      seq(|rows|, i requires 0 <= i < |rows| => rows[i].mask),
      Offsets(RepLists(rows)),
      Flatten(RepLists(rows)),
      Offsets(AliasLists(rows)),
      Flatten(AliasLists(rows)))
  }

  /** A chroma row with no active pitch class. */
  predicate Silent(bits: seq<int>) {
    forall k :: 0 <= k < |bits| ==> bits[k] == 0
  }

  predicate AnySilent(rows: seq<seq<int>>) {
    exists i :: 0 <= i < |rows| && Silent(rows[i])
  }

  /** The value of `build_tis_index`: a `ChromaInputError` for an invalid bit list, for an
      empty chord table (no rows to convert) and for a row whose representative has no
      active pitch class; otherwise the rows of the chroma index in ascending mask order. */
  function TisIndexOf(chords: Dict<string, seq<int>>): (r: Result<TisLayout>)
    ensures r.Err? ==> r.error == ChromaInputError
  {
    if !AllChroma(chords) || chords == [] then Err(ChromaInputError)
    else
      var l := LayoutOf(RowsOf(ChromaIndexOf(chords).value), chords);
      if AnySilent(l.chromaBits) then Err(ChromaInputError) else Ok(l)
  }

  /** `build_tis_index`: the grouping pass of `build_chroma_index`, then one pass over the
      masks in ascending order appending to the name lists and the offset lists. */
  method BuildTisIndex(chords: Dict<string, seq<int>>) returns (r: Result<TisLayout>)
    ensures r == TisIndexOf(chords)
  {
    var built := BuildChromaIndex(chords);
    if built.Err? {
      return Err(ChromaInputError);
    }
    var idx := built.value;
    IndexEntriesNonEmpty(chords);
    var repNames, repBits, repOffsets, flatReps, aliasOffsets, flatAliases := BuildRows(chords, idx);
    var l := TisLayout(repNames, repBits, KeysOf(idx), repOffsets, flatReps, aliasOffsets, flatAliases);
    LayoutEq(RowsOf(idx), chords, l);
    if chords == [] || AnySilent(repBits) {
      return Err(ChromaInputError);
    }
    return Ok(l);
  }

  /** The loop of `build_tis_index` over the entries of the chroma index. */
  method BuildRows(chords: Dict<string, seq<int>>, idx: Index)
    returns (repNames: seq<string>, repBits: seq<seq<int>>, repOffsets: seq<int>, flatReps: seq<string>,
             aliasOffsets: seq<int>, flatAliases: seq<string>)
    requires forall i :: 0 <= i < |idx| ==> idx[i].1 != []
    ensures repNames == RepNamesOf(RowsOf(idx)) && repBits == RepBitsOf(RowsOf(idx), chords)
    ensures flatReps == Flatten(RepLists(RowsOf(idx))) && repOffsets == Offsets(RepLists(RowsOf(idx)))
    ensures flatAliases == Flatten(AliasLists(RowsOf(idx))) && aliasOffsets == Offsets(AliasLists(RowsOf(idx)))
  {
    ghost var rows := RowsOf(idx);
    repNames, repBits := [], [];
    repOffsets, flatReps := [0], [];
    aliasOffsets, flatAliases := [0], [];
    for i := 0 to |idx|
      invariant Built(rows, chords, i, repNames, repBits, repOffsets, flatReps, aliasOffsets, flatAliases)
    {
      var aliases := idx[i].1;
      var rep, reps := RowReps(aliases);
      assert rows[i] == Row(idx[i].0, rep, reps, aliases);
      BuiltStep(rows, chords, i, repNames, repBits, repOffsets, flatReps, aliasOffsets, flatAliases);
      repNames := repNames + [Fit(rep)];
      repBits := repBits + [BitsOf(chords, rep)];
      flatReps := flatReps + FitAll(reps);
      repOffsets := repOffsets + [|flatReps|];
      flatAliases := flatAliases + FitAll(aliases);
      aliasOffsets := aliasOffsets + [|flatAliases|];
    }
    BuiltAll(rows, chords, repNames, repBits, repOffsets, flatReps, aliasOffsets, flatAliases);
  }

  /** The arrays `build_tis_index` has after its first `i` rows. */
  ghost predicate Built(rows: seq<Row>, chords: Dict<string, seq<int>>, i: nat,
                        repNames: seq<string>, repBits: seq<seq<int>>, repOffsets: seq<int>, flatReps: seq<string>,
                        aliasOffsets: seq<int>, flatAliases: seq<string>)
  {
    i <= |rows| &&
    repNames == RepNamesOf(rows[..i]) && repBits == RepBitsOf(rows[..i], chords) &&
    flatReps == Flatten(RepLists(rows)[..i]) && repOffsets == Offsets(RepLists(rows)[..i]) &&
    flatAliases == Flatten(AliasLists(rows)[..i]) && aliasOffsets == Offsets(AliasLists(rows)[..i])
  }

  lemma BuiltStep(rows: seq<Row>, chords: Dict<string, seq<int>>, i: nat,
                  repNames: seq<string>, repBits: seq<seq<int>>, repOffsets: seq<int>, flatReps: seq<string>,
                  aliasOffsets: seq<int>, flatAliases: seq<string>)
    requires i < |rows| && Built(rows, chords, i, repNames, repBits, repOffsets, flatReps, aliasOffsets, flatAliases)
    ensures var r := rows[i];
      Built(rows, chords, i + 1, repNames + [Fit(r.rep)], repBits + [BitsOf(chords, r.rep)],
        repOffsets + [|flatReps + FitAll(r.reps)|], flatReps + FitAll(r.reps),
        aliasOffsets + [|flatAliases + FitAll(r.aliases)|], flatAliases + FitAll(r.aliases))
  {
    RowsSnoc(rows, chords, i);
  }

  lemma BuiltAll(rows: seq<Row>, chords: Dict<string, seq<int>>,
                 repNames: seq<string>, repBits: seq<seq<int>>, repOffsets: seq<int>, flatReps: seq<string>,
                 aliasOffsets: seq<int>, flatAliases: seq<string>)
    requires Built(rows, chords, |rows|, repNames, repBits, repOffsets, flatReps, aliasOffsets, flatAliases)
    ensures repNames == RepNamesOf(rows) && repBits == RepBitsOf(rows, chords)
    ensures flatReps == Flatten(RepLists(rows)) && repOffsets == Offsets(RepLists(rows))
    ensures flatAliases == Flatten(AliasLists(rows)) && aliasOffsets == Offsets(AliasLists(rows))
  {
    assert rows[..|rows|] == rows;
    assert RepLists(rows)[..|rows|] == RepLists(rows);
    assert AliasLists(rows)[..|rows|] == AliasLists(rows);
  }

  /** A layout whose arrays agree with the rows entry by entry is their layout. */
  lemma LayoutEq(rows: seq<Row>, chords: Dict<string, seq<int>>, l: TisLayout)
    requires l.repNames == RepNamesOf(rows) && l.chromaBits == RepBitsOf(rows, chords)
    requires |l.chromaMask| == |rows| && forall i :: 0 <= i < |rows| ==> l.chromaMask[i] == rows[i].mask
    requires l.repOffsets == Offsets(RepLists(rows)) && l.repNamesByRoot == Flatten(RepLists(rows))
    requires l.aliasOffsets == Offsets(AliasLists(rows)) && l.aliasNames == Flatten(AliasLists(rows))
    ensures l == LayoutOf(rows, chords)
  {
  }

  /** The representatives `build_tis_index` picks for one mask's sorted aliases: the
      by-root representatives (or the single representative when there are none) and the
      primary one among them. */
  method RowReps(aliases: seq<string>) returns (rep: string, reps: seq<string>)
    requires aliases != []
    ensures reps == RepsOrRepresentative(aliases).value && rep == Representative(reps)
    ensures rep in reps && forall x :: x in reps ==> x in aliases
  {
    var byRoot := ChooseRepresentativesByRoot(aliases);
    if byRoot != [] {
      rep := Representative(byRoot);
      reps := byRoot;
    } else {
      rep := Representative(aliases);
      reps := [rep];
      assert Representative([rep]) in [rep];
    }
  }

  // ---------------------------------------------------------------------------------------
  // Properties of a built layout

  /** A built layout is the layout of the rows of the chroma index. */
  lemma TisValue(chords: Dict<string, seq<int>>)
    requires TisIndexOf(chords).Ok?
    ensures AllChroma(chords) && chords != []
    ensures TisIndexOf(chords).value == LayoutOf(RowsOf(ChromaIndexOf(chords).value), chords)
    ensures forall i :: 0 <= i < |ChromaIndexOf(chords).value| ==> ChromaIndexOf(chords).value[i].1 != []
  {
    IndexEntriesNonEmpty(chords);
  }

  /** Rows whose representative and alias lists are all non-empty. */
  predicate FullRows(rows: seq<Row>) {
    forall i :: 0 <= i < |rows| ==> rows[i].reps != [] && rows[i].aliases != []
  }

  /** The offset arrays of a layout of full rows. */
  lemma LayoutOffsets(rows: seq<Row>, chords: Dict<string, seq<int>>)
    requires FullRows(rows)
    ensures var l := LayoutOf(rows, chords);
      |l.repOffsets| == |l.aliasOffsets| == |rows| + 1 &&
      l.repOffsets[0] == 0 && l.aliasOffsets[0] == 0 &&
      StrictlyIncreasing(l.repOffsets) && StrictlyIncreasing(l.aliasOffsets) &&
      l.repOffsets[|rows|] == |l.repNamesByRoot| && l.aliasOffsets[|rows|] == |l.aliasNames|
  {
    OffsetsShape(RepLists(rows));
    OffsetsShape(AliasLists(rows));
  }

  /** The slices of a layout give back each row's (width-cut) lists. */
  lemma LayoutRow(rows: seq<Row>, chords: Dict<string, seq<int>>, i: int)
    requires 0 <= i < |rows|
    ensures var l := LayoutOf(rows, chords);
      AliasesForRow(l, i) == Ok(FitAll(rows[i].aliases)) && RepsForRow(l, i) == Ok(FitAll(rows[i].reps))
  {
    var l := LayoutOf(rows, chords);
    FlattenRow(RepLists(rows), i);
    FlattenRow(AliasLists(rows), i);
    SliceRowIn(l.repOffsets, l.repNamesByRoot, i);
    SliceRowIn(l.aliasOffsets, l.aliasNames, i);
  }

  /** A row whose offsets are in order and within the flat array is the slice between them. */
  lemma SliceRowIn(offsets: seq<int>, names: seq<string>, row: int)
    requires 0 <= row && row + 1 < |offsets|
    requires 0 <= offsets[row] <= offsets[row + 1] <= |names|
    ensures SliceRow(offsets, names, row) == Ok(names[offsets[row]..offsets[row + 1]])
  {
  }

  /** The masks of a built layout strictly ascend, one row per distinct mask. */
  lemma TisMasksAscending(chords: Dict<string, seq<int>>)
    requires TisIndexOf(chords).Ok?
    ensures var l := TisIndexOf(chords).value;
      |l.chromaMask| == |ChromaIndexOf(chords).value| && StrictlyIncreasing(l.chromaMask)
  {
    TisValue(chords);
    var idx := ChromaIndexOf(chords).value;
    var l := TisIndexOf(chords).value;
    IndexKeysAscending(chords);
    forall i | 0 <= i < |l.chromaMask| - 1 ensures l.chromaMask[i] < l.chromaMask[i + 1] {
      assert l.chromaMask[i] == idx[i].0 && l.chromaMask[i + 1] == idx[i + 1].0;
    }
  }

  /** Each mask of a built layout is a 12-bit mask of some chord of the table. */
  lemma TisMasksOfChords(chords: Dict<string, seq<int>>, i: int)
    requires TisIndexOf(chords).Ok? && 0 <= i < |TisIndexOf(chords).value.chromaMask|
    ensures var l := TisIndexOf(chords).value;
      0 <= l.chromaMask[i] < 4096 && exists j :: 0 <= j < |chords| && FromBits(chords[j].1) == l.chromaMask[i]
  {
    TisValue(chords);
    var idx := ChromaIndexOf(chords).value;
    var e := idx[i];
    assert TisIndexOf(chords).value.chromaMask[i] == e.0;
    assert e in idx;
    IndexEntry(chords, e);
    var name := e.1[0];
    assert name in e.1;
  }

  /** Both offset arrays have one entry more than there are rows, start at 0, strictly
      increase (every row has at least one representative and one alias) and end at the
      length of their flat array. */
  lemma TisOffsets(chords: Dict<string, seq<int>>)
    requires TisIndexOf(chords).Ok?
    ensures var l := TisIndexOf(chords).value;
      |l.repOffsets| == |l.aliasOffsets| == |l.chromaMask| + 1 &&
      l.repOffsets[0] == 0 && l.aliasOffsets[0] == 0 &&
      StrictlyIncreasing(l.repOffsets) && StrictlyIncreasing(l.aliasOffsets) &&
      l.repOffsets[|l.chromaMask|] == |l.repNamesByRoot| && l.aliasOffsets[|l.chromaMask|] == |l.aliasNames|
  {
    TisValue(chords);
    var rows := RowsOf(ChromaIndexOf(chords).value);
    assert FullRows(rows);
    LayoutOffsets(rows, chords);
  }

  /** `aliases_for_row(i)` of a built layout is the sorted list of the chord names whose
      bits give that row's mask (each cut to the array width). */
  lemma TisAliasesForRow(chords: Dict<string, seq<int>>, i: int)
    requires TisIndexOf(chords).Ok? && 0 <= i < |TisIndexOf(chords).value.chromaMask|
    ensures var l := TisIndexOf(chords).value;
      var names := ChromaIndexOf(chords).value[i].1;
      AliasesForRow(l, i) == Ok(FitAll(names)) &&
      Sorted(names, StrLe) &&
      forall name :: name in names <==> exists j :: 0 <= j < |chords| && chords[j].0 == name && FromBits(chords[j].1) == l.chromaMask[i]
  {
    TisValue(chords);
    var idx := ChromaIndexOf(chords).value;
    LayoutRow(RowsOf(idx), chords, i);
    assert idx[i] in idx;
    IndexEntry(chords, idx[i]);
  }

  /** `reps_for_row(i)` of a built layout is the by-root representatives of the row's
      aliases, or its primary representative alone when there are none; the primary
      representative is one of them and one of the aliases. */
  lemma TisRepsForRow(chords: Dict<string, seq<int>>, i: int)
    requires TisIndexOf(chords).Ok? && 0 <= i < |TisIndexOf(chords).value.chromaMask|
    ensures var l := TisIndexOf(chords).value;
      var names := ChromaIndexOf(chords).value[i].1;
      var row := RowOf(ChromaIndexOf(chords).value[i]);
      RepsOrRepresentative(names) == Ok(row.reps) && RepsForRow(l, i) == Ok(FitAll(row.reps)) &&
      l.repNames[i] == Fit(row.rep) && row.rep in row.reps && row.rep in names
  {
    TisValue(chords);
    var idx := ChromaIndexOf(chords).value;
    LayoutRow(RowsOf(idx), chords, i);
  }

  /** With distinct chord names (a Python mapping), the chroma row stored for a row is the
      bit list of its representative, whose mask is the row's mask. */
  lemma TisBitsOfRow(chords: Dict<string, seq<int>>, i: int)
    requires DistinctKeys(chords)
    requires TisIndexOf(chords).Ok? && 0 <= i < |TisIndexOf(chords).value.chromaMask|
    ensures var l := TisIndexOf(chords).value;
      IsChroma(l.chromaBits[i]) && FromBits(l.chromaBits[i]) == l.chromaMask[i]
  {
    TisValue(chords);
    RowBits(chords, i);
  }

  /** The bits stored for a row are those of a chord whose mask is the row's mask. */
  lemma RowBits(chords: Dict<string, seq<int>>, i: int)
    requires DistinctKeys(chords) && AllChroma(chords)
    requires 0 <= i < |ChromaIndexOf(chords).value|
    ensures var idx := ChromaIndexOf(chords).value;
      exists j :: 0 <= j < |chords| && LayoutOf(RowsOf(idx), chords).chromaBits[i] == chords[j].1 &&
        IsChroma(chords[j].1) && FromBits(chords[j].1) == idx[i].0
  {
    var idx := ChromaIndexOf(chords).value;
    IndexEntriesNonEmpty(chords);
    var row := RowOf(idx[i]);
    assert idx[i] in idx;
    IndexEntry(chords, idx[i]);
    var j :| 0 <= j < |chords| && chords[j].0 == row.rep && FromBits(chords[j].1) == idx[i].0;
    GetAt(chords, j);
    var bits := chords[j].1;
    assert Get(chords, row.rep) == Some(bits);
    assert BitsOf(chords, row.rep) == bits;
    var rows := RowsOf(idx);
    assert rows[i] == row;
    assert LayoutOf(rows, chords).chromaBits[i] == bits;
    assert IsChroma(bits);
  }

  /** A built layout fails exactly for an invalid bit list, an empty table, or a chord with
      no active pitch class. */
  lemma TisIndexOk(chords: Dict<string, seq<int>>)
    requires DistinctKeys(chords)
    ensures TisIndexOf(chords).Ok? <==>
      AllChroma(chords) && chords != [] && forall j :: 0 <= j < |chords| ==> FromBits(chords[j].1) != 0
  {
    if AllChroma(chords) && chords != [] {
      var idx := ChromaIndexOf(chords).value;
      IndexEntriesNonEmpty(chords);
      var l := LayoutOf(RowsOf(idx), chords);
      if AnySilent(l.chromaBits) {
        var i :| 0 <= i < |l.chromaBits| && Silent(l.chromaBits[i]);
        SilentRow(chords, i);
      } else {
        forall j | 0 <= j < |chords| ensures FromBits(chords[j].1) != 0 {
          var i := IndexEntryOf(chords, j);
          SilentRow(chords, i);
          assert !Silent(l.chromaBits[i]);
        }
      }
    }
  }

  /** A row's stored bits are silent exactly when its mask is 0, and then some chord has
      mask 0. */
  lemma SilentRow(chords: Dict<string, seq<int>>, i: int)
    requires DistinctKeys(chords) && AllChroma(chords) && chords != []
    requires 0 <= i < |ChromaIndexOf(chords).value|
    ensures var l := LayoutOf(RowsOf(ChromaIndexOf(chords).value), chords);
      (Silent(l.chromaBits[i]) <==> ChromaIndexOf(chords).value[i].0 == 0) &&
      (Silent(l.chromaBits[i]) ==> exists j :: 0 <= j < |chords| && FromBits(chords[j].1) == 0)
  {
    var idx := ChromaIndexOf(chords).value;
    RowBits(chords, i);
    var j :| 0 <= j < |chords| && LayoutOf(RowsOf(idx), chords).chromaBits[i] == chords[j].1 &&
      IsChroma(chords[j].1) && FromBits(chords[j].1) == idx[i].0;
    SilentMask(chords[j].1);
  }

  /** A valid bit list is silent exactly when its mask is 0. */
  lemma SilentMask(bits: seq<int>)
    requires IsChroma(bits)
    ensures Silent(bits) <==> FromBits(bits) == 0
  {
    BitsMaskRoundTrip(bits);
    ZeroMaskBits();
    if Silent(bits) {
      assert bits == MaskToBits(0).value;
      MaskBitsRoundTrip(0);
    }
  }

  // ---------------------------------------------------------------------------------------
  // Name and mask lookups

  /** `for name in aliases: name_to_row[name] = row`. */
  function PutAll(d: Dict<string, int>, names: seq<string>, row: int): Dict<string, int>
    decreases |names|
  {
    if names == [] then d else Put(PutAll(d, names[..|names| - 1], row), names[|names| - 1], row)
  }

  lemma {:induction false} PutAllGet(d: Dict<string, int>, names: seq<string>, row: int, name: string)
    ensures Get(PutAll(d, names, row), name) == if name in names then Some(row) else Get(d, name)
    decreases |names|
  {
    if names != [] {
      var n := |names| - 1;
      PutAllGet(d, names[..n], row, name);
      assert names == names[..n] + [names[n]];
    }
  }

  /** `aliases_for_row(i)` for the first `n` rows, in row order. */
  function RowAliases(l: TisLayout, n: nat): (r: seq<Result<seq<string>>>)
    ensures |r| == n && forall k :: 0 <= k < n ==> r[k] == AliasesForRow(l, k)
  {
    seq(n, k requires 0 <= k < n => AliasesForRow(l, k))
  }

  /** The loop of `build_name_to_row` over the rows' alias lists: the first row whose
      aliases cannot be read stops it with an `IndexError`. */
  function NameMap(rows: seq<Result<seq<string>>>): Result<Dict<string, int>>
    decreases |rows|
  {
    if rows == [] then Ok([])
    else
      var n := |rows| - 1;
      var prev := NameMap(rows[..n]);
      if prev.Err? then prev
      else if rows[n].Err? then Err(IndexError)
      else Ok(PutAll(prev.value, rows[n].value, n))
  }

  /** `TISIndex.build_name_to_row`. */
  function NameToRow(l: TisLayout): Result<Dict<string, int>> {
    NameMap(RowAliases(l, |l.repNames|))
  }

  /** Reference reading of `build_name_to_row`: the last row whose aliases hold the name. */
  function LastRowWith(rows: seq<Result<seq<string>>>, name: string): Option<int>
    decreases |rows|
  {
    if rows == [] then None
    else
      var n := |rows| - 1;
      if rows[n].Ok? && name in rows[n].value then Some(n) else LastRowWith(rows[..n], name)
  }

  /** Every name maps to the last row that lists it among its aliases, and a name no row
      lists is absent. */
  lemma {:induction false} NameMapGet(rows: seq<Result<seq<string>>>, name: string)
    requires NameMap(rows).Ok?
    ensures Get(NameMap(rows).value, name) == LastRowWith(rows, name)
    decreases |rows|
  {
    if rows != [] {
      var n := |rows| - 1;
      NameMapGet(rows[..n], name);
      PutAllGet(NameMap(rows[..n]).value, rows[n].value, n, name);
    }
  }

  /** Once a row's aliases cannot be read, the whole loop fails. */
  lemma {:induction false} NameMapErrorStays(rows: seq<Result<seq<string>>>, i: nat)
    requires i <= |rows| && NameMap(rows[..i]) == Err(IndexError)
    ensures NameMap(rows) == Err(IndexError)
    decreases |rows|
  {
    if i < |rows| {
      var n := |rows| - 1;
      assert rows[..n][..i] == rows[..i];
      NameMapErrorStays(rows[..n], i);
    } else {
      assert rows[..i] == rows;
    }
  }

  /** The loop succeeds when every row's aliases can be read. */
  lemma {:induction false} NameMapOk(rows: seq<Result<seq<string>>>)
    requires forall k :: 0 <= k < |rows| ==> rows[k].Ok?
    ensures NameMap(rows).Ok?
    decreases |rows|
  {
    if rows != [] {
      var n := |rows| - 1;
      assert forall k :: 0 <= k < n ==> rows[..n][k] == rows[k];
      NameMapOk(rows[..n]);
    }
  }

  /** A name listed by exactly one row maps to that row. */
  lemma {:induction false} LastRowWithUnique(rows: seq<Result<seq<string>>>, name: string, i: int)
    requires 0 <= i < |rows|
    requires forall k :: 0 <= k < |rows| ==> rows[k].Ok? && (name in rows[k].value <==> k == i)
    ensures LastRowWith(rows, name) == Some(i)
    decreases |rows|
  {
    var n := |rows| - 1;
    if n != i {
      assert forall k :: 0 <= k < n ==> rows[..n][k] == rows[k];
      LastRowWithUnique(rows[..n], name, i);
    }
  }

  /** `TISIndex.build_name_to_row`: the nested loop over rows and their aliases. */
  method BuildNameToRow(l: TisLayout) returns (r: Result<Dict<string, int>>)
    ensures r == NameToRow(l)
  {
    ghost var rows := RowAliases(l, |l.repNames|);
    var out: Dict<string, int> := [];
    for i := 0 to |l.repNames|
      invariant NameMap(rows[..i]) == Ok(out)
    {
      assert rows[..i + 1][..i] == rows[..i];
      var aliases := AliasesForRow(l, i);
      assert rows[..i + 1][i] == aliases;
      if aliases.Err? {
        assert NameMap(rows[..i + 1]) == Err(IndexError);
        NameMapErrorStays(rows, i + 1);
        return Err(IndexError);
      }
      ghost var before := out;
      out := PutRow(out, aliases.value, i);
      assert NameMap(rows[..i + 1]) == Ok(PutAll(before, aliases.value, i));
    }
    assert rows[..|l.repNames|] == rows;
    return Ok(out);
  }

  /** The inner loop of `build_name_to_row`: every alias of one row maps to that row. */
  method PutRow(d: Dict<string, int>, names: seq<string>, row: int) returns (r: Dict<string, int>)
    ensures r == PutAll(d, names, row)
  {
    r := d;
    for k := 0 to |names|
      invariant r == PutAll(d, names[..k], row)
    {
      assert names[..k + 1][..k] == names[..k];
      r := Put(r, names[k], row);
    }
    assert names[..|names|] == names;
  }

  /** In a built layout whose chord names are distinct and fit the array width, every
      chord name maps to the row of its own mask. */
  lemma BuiltNameToRow(chords: Dict<string, seq<int>>, j: int)
    requires DistinctKeys(chords) && forall k :: 0 <= k < |chords| ==> |chords[k].0| <= NAME_WIDTH
    requires TisIndexOf(chords).Ok? && 0 <= j < |chords|
    ensures var l := TisIndexOf(chords).value;
      NameToRow(l).Ok? &&
      exists i :: 0 <= i < |l.chromaMask| && l.chromaMask[i] == FromBits(chords[j].1) &&
        Get(NameToRow(l).value, chords[j].0) == Some(i)
  {
    var l := TisIndexOf(chords).value;
    var idx := ChromaIndexOf(chords).value;
    var rows := RowAliases(l, |l.repNames|);
    TisOffsets(chords);
    var i := IndexEntryOf(chords, j);
    var name := chords[j].0;
    forall k | 0 <= k < |rows| ensures rows[k].Ok? && (name in rows[k].value <==> k == i) {
      TisAliasesForRow(chords, k);
      assert idx[k] in idx;
      IndexEntry(chords, idx[k]);
      FitAllShort(idx[k].1, chords);
      if name in idx[k].1 {
        IndexNameUnique(chords, j, k);
        IndexKeysAscending(chords);
      }
    }
    NameMapOk(rows);
    LastRowWithUnique(rows, name, i);
    NameMapGet(rows, name);
  }

  /** Names that fit the width are stored unchanged. */
  lemma FitAllShort(names: seq<string>, chords: Dict<string, seq<int>>)
    requires forall k :: 0 <= k < |chords| ==> |chords[k].0| <= NAME_WIDTH
    requires forall name :: name in names ==> exists j :: 0 <= j < |chords| && chords[j].0 == name
    ensures FitAll(names) == names
  {
    forall k | 0 <= k < |names| ensures FitAll(names)[k] == names[k] {
      assert names[k] in names;
    }
  }

  /** `build_mask_to_row`: `{m: i for i, m in enumerate(chroma_mask)}`. */
  function MaskToRow(masks: seq<int>): Dict<int, int>
    decreases |masks|
  {
    if masks == [] then [] else Put(MaskToRow(masks[..|masks| - 1]), masks[|masks| - 1], |masks| - 1)
  }

  /** A mask maps to the last row holding it; masks that no row holds are absent. */
  lemma {:induction false} MaskToRowGet(masks: seq<int>, m: int)
    ensures Get(MaskToRow(masks), m).Some? <==> m in masks
    ensures Get(MaskToRow(masks), m).Some? ==>
      var i := Get(MaskToRow(masks), m).value;
      0 <= i < |masks| && masks[i] == m && forall k :: i < k < |masks| ==> masks[k] != m
    decreases |masks|
  {
    if masks != [] {
      var n := |masks| - 1;
      MaskToRowGet(masks[..n], m);
      assert masks == masks[..n] + [masks[n]];
    }
  }

  /** In a built layout, `build_mask_to_row` inverts the row order of `chroma_mask`. */
  lemma BuiltMaskToRow(chords: Dict<string, seq<int>>, i: int)
    requires TisIndexOf(chords).Ok? && 0 <= i < |TisIndexOf(chords).value.chromaMask|
    ensures var masks := TisIndexOf(chords).value.chromaMask;
      Get(MaskToRow(masks), masks[i]) == Some(i)
  {
    TisMasksAscending(chords);
    MaskToRowAscending(TisIndexOf(chords).value.chromaMask, i);
  }

  /** Over strictly ascending masks, `build_mask_to_row` maps each mask to its own row. */
  lemma MaskToRowAscending(masks: seq<int>, i: int)
    requires StrictlyIncreasing(masks) && 0 <= i < |masks|
    ensures Get(MaskToRow(masks), masks[i]) == Some(i)
  {
    MaskToRowGet(masks, masks[i]);
    var k := Get(MaskToRow(masks), masks[i]).value;
    if k < i {
      StrictlyIncreasingPairs(masks, k, i);
    } else if k > i {
      StrictlyIncreasingPairs(masks, i, k);
    }
  }

  lemma {:induction false} StrictlyIncreasingPairs(s: seq<int>, i: int, j: int)
    requires StrictlyIncreasing(s) && 0 <= i < j < |s|
    ensures s[i] < s[j]
    decreases j - i
  {
    if i + 1 < j {
      StrictlyIncreasingPairs(s, i + 1, j);
    }
  }

  // ---------------------------------------------------------------------------------------
  // Layouts of older files

  /** `np.arange(0, n)`. */
  function Range(n: nat): (r: seq<int>)
    ensures |r| == n && forall i :: 0 <= i < n ==> r[i] == i
  {
    seq(n, i requires 0 <= i < n => i)
  }

  /** `from_npz` for a file with one row per chord name: identity offsets over the names
      for both representatives and aliases. */
  function LegacyRowsLayout(names: seq<string>, chromaBits: seq<seq<int>>, chromaMask: seq<int>): TisLayout {
    TisLayout(names, chromaBits, chromaMask, Range(|names| + 1), names, Range(|names| + 1), names)
  }

  /** `from_npz` for a deduplicated file without per-root representatives: each row's only
      representative is its primary one. */
  function PrimaryRepLayout(l: TisLayout): TisLayout {
    l.(repOffsets := Range(|l.repNames| + 1), repNamesByRoot := l.repNames)
  }

  /** In a one-row-per-name layout every row's aliases and representatives are its name. */
  lemma LegacyRows(names: seq<string>, chromaBits: seq<seq<int>>, chromaMask: seq<int>, i: int)
    requires 0 <= i < |names|
    ensures var l := LegacyRowsLayout(names, chromaBits, chromaMask);
      AliasesForRow(l, i) == Ok([names[i]]) && RepsForRow(l, i) == Ok([names[i]])
  {
    assert names[i..i + 1] == [names[i]];
  }

  /** Without per-root representatives a row's representatives are its primary one and
      its aliases are unchanged. */
  lemma PrimaryRepRows(l: TisLayout, i: int)
    requires 0 <= i < |l.repNames|
    ensures RepsForRow(PrimaryRepLayout(l), i) == Ok([l.repNames[i]])
    ensures AliasesForRow(PrimaryRepLayout(l), i) == AliasesForRow(l, i)
  {
    assert l.repNames[i..i + 1] == [l.repNames[i]];
  }
}

/** The discrete part of `voice_leading_tension`
    (backend/jass/tonal_tension/voice_leading.py): the circular semitone table, the
    pitch classes of a chroma, the cost matrix shape, and the two fallback searches for
    an assignment of pitch classes (exhaustive over permutations for n <= 8, greedy
    otherwise). Costs are real numbers; the TIS distance between two notes is a
    parameter, and the exponential stability sum is not modelled. */
module VoiceLeading {
  import opened Wrappers
  import Sorting

  // ---------------------------------------------------------------------------------------
  // PC_DIST

  /** `PC_DIST[i, j]`: `min(d, 12 - d)` for `d = abs(i - j)`. */
  function PcDist(i: int, j: int): int
    requires 0 <= i < 12 && 0 <= j < 12
  {
    var d := if i >= j then i - j else j - i;
    if d <= 12 - d then d else 12 - d
  }

  /** Stepping k semitones up from one pitch class (round the octave) reaches the other. */
  predicate Reaches(i: int, j: int, k: int) {
    (i + k) % 12 == j || (j + k) % 12 == i
  }

  /** The table is symmetric, lies in [0, 6], is 0 exactly on the diagonal, and is the
      least number of semitone steps, up from either side, that joins the two pitch
      classes. */
  lemma PcDistSteps(i: int, j: int)
    requires 0 <= i < 12 && 0 <= j < 12
    ensures PcDist(i, j) == PcDist(j, i)
    ensures 0 <= PcDist(i, j) <= 6
    ensures PcDist(i, j) == 0 <==> i == j
    ensures Reaches(i, j, PcDist(i, j))
    ensures forall k :: 0 <= k < PcDist(i, j) ==> !Reaches(i, j, k)
  {
    forall k | 0 <= k < 12
      ensures Reaches(i, j, k) <==> k == (if i <= j then j - i else j - i + 12) || k == (if j <= i then i - j else i - j + 12)
    {
      WrapStep(i, k);
      WrapStep(j, k);
    }
  }

  /** Stepping up from a pitch class wraps round the octave at most once. */
  lemma WrapStep(i: int, k: int)
    requires 0 <= i < 12 && 0 <= k < 12
    ensures (i + k) % 12 == if i + k < 12 then i + k else i + k - 12
  {
  }

  /** The nested loops filling `PC_DIST`. */
  method BuildPcDist() returns (t: array2<int>)
    ensures fresh(t) && t.Length0 == 12 && t.Length1 == 12
    ensures forall i, j :: 0 <= i < 12 && 0 <= j < 12 ==> t[i, j] == PcDist(i, j)
  {
    t := new int[12, 12];
    for i := 0 to 12
      invariant forall a, b :: 0 <= a < i && 0 <= b < 12 ==> t[a, b] == PcDist(a, b)
    {
      for j := 0 to 12
        invariant forall a, b :: 0 <= a < i && 0 <= b < 12 ==> t[a, b] == PcDist(a, b)
        invariant forall b :: 0 <= b < j ==> t[i, b] == PcDist(i, b)
      {
        var d := if i >= j then i - j else j - i;
        t[i, j] := if d <= 12 - d then d else 12 - d;
      }
    }
  }

  // ---------------------------------------------------------------------------------------
  // _chroma_to_pc_list

  /** `[i for i, b in enumerate(bits) if b]`: the strictly ascending positions of exactly
      the nonzero entries. */
  function PcList(bits: seq<int>): (r: seq<int>)
    ensures forall k :: 0 <= k < |r| ==> 0 <= r[k] < |bits| && bits[r[k]] != 0
    ensures forall x :: 0 <= x < |bits| && bits[x] != 0 ==> x in r
    ensures forall a, b :: 0 <= a < b < |r| ==> r[a] < r[b]
    decreases |bits|
  {
    if bits == [] then []
    else
      var m := |bits| - 1;
      var prev := PcList(bits[..m]);
      if bits[m] != 0 then prev + [m] else prev
  }

  // ---------------------------------------------------------------------------------------
  // Permutations

  /** `range(n)`. */
  function Range(n: nat): (r: seq<int>)
    ensures |r| == n && forall k :: 0 <= k < n ==> r[k] == k
  {
    seq(n, k requires 0 <= k < n => k)
  }

  /** p lists `range(n)` in some order. */
  predicate IsPermutation(p: seq<int>, n: nat) {
    multiset(p) == multiset(Range(n))
  }

  /** s without its element at position k. */
  function Remove(s: seq<int>, k: int): (r: seq<int>)
    requires 0 <= k < |s|
    ensures |r| == |s| - 1 && multiset(r) == multiset(s) - multiset{s[k]}
  {
    assert s == s[..k] + [s[k]] + s[k + 1..];
    s[..k] + s[k + 1..]
  }

  function Prepend(x: int, ps: seq<seq<int>>): (r: seq<seq<int>>)
    ensures |r| == |ps| && forall i :: 0 <= i < |ps| ==> r[i] == [x] + ps[i]
  {
    seq(|ps|, i requires 0 <= i < |ps| => [x] + ps[i])
  }

  /** `itertools.permutations(s)`: each element in turn goes first, followed by the
      permutations of the others in the same order. */
  function PermsOf(s: seq<int>): seq<seq<int>>
    decreases |s|, |s| + 1
  {
    if s == [] then [[]] else PermsFrom(s, 0)
  }

  /** The permutations of s whose first element is at position k or later. */
  function PermsFrom(s: seq<int>, k: nat): seq<seq<int>>
    requires s != []
    decreases |s|, |s| - k
  {
    if k >= |s| then [] else Prepend(s[k], PermsOf(Remove(s, k))) + PermsFrom(s, k + 1)
  }

  /** `itertools.permutations(range(n))`. */
  function Permutations(n: nat): seq<seq<int>> {
    PermsOf(Range(n))
  }

  /** Everything listed is a rearrangement of s. */
  lemma {:induction false} PermsOfSound(s: seq<int>)
    ensures forall p :: p in PermsOf(s) ==> multiset(p) == multiset(s)
    decreases |s|, |s| + 1
  {
    if s != [] {
      PermsFromSound(s, 0);
    }
  }

  lemma {:induction false} PermsFromSound(s: seq<int>, k: nat)
    requires s != []
    ensures forall p :: p in PermsFrom(s, k) ==> multiset(p) == multiset(s)
    decreases |s|, |s| - k
  {
    if k < |s| {
      PermsOfSound(Remove(s, k));
      PermsFromSound(s, k + 1);
      PrependSound(s[k], PermsOf(Remove(s, k)), multiset(Remove(s, k)));
      assert multiset{s[k]} + multiset(Remove(s, k)) == multiset(s);
    }
  }

  lemma PrependSound(x: int, ps: seq<seq<int>>, m: multiset<int>)
    requires forall q :: q in ps ==> multiset(q) == m
    ensures forall p :: p in Prepend(x, ps) ==> multiset(p) == multiset{x} + m
  {
    var pre := Prepend(x, ps);
    forall p | p in pre
      ensures multiset(p) == multiset{x} + m
    {
      var i :| 0 <= i < |pre| && pre[i] == p;
      assert p == [x] + ps[i];
      assert ps[i] in ps;
    }
  }

  /** Every rearrangement of s is listed. */
  lemma {:induction false} PermsOfComplete(s: seq<int>, p: seq<int>)
    requires multiset(p) == multiset(s)
    ensures p in PermsOf(s)
    decreases |s|
  {
    if s != [] {
      assert s[0] in multiset(p);
      assert p != [];
      assert p[0] in multiset(s);
      var k :| 0 <= k < |s| && s[k] == p[0];
      assert p == [p[0]] + p[1..];
      assert multiset(p) == multiset{p[0]} + multiset(p[1..]);
      assert multiset(p[1..]) == multiset(Remove(s, k));
      PermsOfComplete(Remove(s, k), p[1..]);
      var rest := PermsOf(Remove(s, k));
      var i :| 0 <= i < |rest| && rest[i] == p[1..];
      assert Prepend(s[k], rest)[i] == p;
      PermsFromHas(s, 0, k, p);
    } else {
      assert p == [];
    }
  }

  /** `PermsFrom(s, j)` holds every permutation led by the element at k >= j. */
  lemma {:induction false} PermsFromHas(s: seq<int>, j: nat, k: nat, p: seq<int>)
    requires s != [] && j <= k < |s| && p in Prepend(s[k], PermsOf(Remove(s, k)))
    ensures p in PermsFrom(s, j)
    decreases k - j
  {
    if j < k {
      PermsFromHas(s, j + 1, k, p);
    }
  }

  /** `itertools.permutations(range(n))` lists exactly the permutations of `range(n)`. */
  lemma PermutationsExactly(n: nat, p: seq<int>)
    ensures p in Permutations(n) <==> IsPermutation(p, n)
  {
    PermsOfSound(Range(n));
    if IsPermutation(p, n) {
      PermsOfComplete(Range(n), p);
    }
  }

  // ---------------------------------------------------------------------------------------
  // The cost matrix

  /** `max(na, nb)`. */
  function Max(a: int, b: int): int {
    if a >= b then a else b
  }

  /** Every pitch class indexes the 12x12 tables (`PC_DIST`, `NOTE_TIS`). */
  predicate InTable(pcs: seq<int>) {
    forall k :: 0 <= k < |pcs| ==> 0 <= pcs[k] < 12
  }

  /** `cost[i, j]`: inside the na x nb block, the circular distance of the two pitch
      classes scaled by `mu`, the distance of their single-note TIS vectors; elsewhere the
      addition penalty the matrix was filled with. */
  function CostCell(pcsA: seq<int>, pcsB: seq<int>, penalty: real, mu: (int, int) -> real,
                    i: int, j: int): real
    requires InTable(pcsA) && InTable(pcsB)
  {
    if 0 <= i < |pcsA| && 0 <= j < |pcsB| then
      (PcDist(pcsA[i], pcsB[j]) as real) * mu(pcsA[i], pcsB[j])
    else penalty
  }

  /** `np.full((n, n), penalty)` followed by the nested loops over the na x nb block. */
  method BuildCost(pcsA: seq<int>, pcsB: seq<int>, penalty: real, mu: (int, int) -> real)
    returns (cost: array2<real>)
    requires InTable(pcsA) && InTable(pcsB)
    ensures fresh(cost)
    ensures cost.Length0 == Max(|pcsA|, |pcsB|) && cost.Length1 == Max(|pcsA|, |pcsB|)
    ensures forall i, j :: 0 <= i < cost.Length0 && 0 <= j < cost.Length1 ==>
              cost[i, j] == CostCell(pcsA, pcsB, penalty, mu, i, j)
  {
    var n := Max(|pcsA|, |pcsB|);
    cost := new real[n, n]((i, j) => penalty);
    for i := 0 to |pcsA|
      invariant forall a, b :: 0 <= a < n && 0 <= b < n ==>
                  cost[a, b] == if a < i then CostCell(pcsA, pcsB, penalty, mu, a, b) else penalty
    {
      for j := 0 to |pcsB|
        invariant forall a, b :: 0 <= a < n && 0 <= b < n ==>
                    cost[a, b] == if a < i || (a == i && b < j)
                                  then CostCell(pcsA, pcsB, penalty, mu, a, b) else penalty
      {
        var s := PcDist(pcsA[i], pcsB[j]) as real;
        cost[i, j] := s * mu(pcsA[i], pcsB[j]);
      }
    }
  }

  /** `cost[i, j]`, read as 0.0 outside the matrix so that sums over any sequence are
      defined. */
  function At(cost: array2<real>, i: int, j: int): real
    reads cost
  {
    if 0 <= i < cost.Length0 && 0 <= j < cost.Length1 then cost[i, j] else 0.0
  }

  /** Python's `sum` over a sequence of floats: added left to right from 0. */
  function Sum(xs: seq<real>): real
    decreases |xs|
  {
    if xs == [] then 0.0 else Sum(xs[..|xs| - 1]) + xs[|xs| - 1]
  }

  /** `[cost[i, perm[i]] for i in range(len(perm))]`. */
  function Costs(cost: array2<real>, perm: seq<int>): (r: seq<real>)
    reads cost
    ensures |r| == |perm| && forall i :: 0 <= i < |perm| ==> r[i] == At(cost, i, perm[i])
  {
    seq(|perm|, i requires 0 <= i < |perm| reads cost => At(cost, i, perm[i]))
  }

  /** `sum(cost[i, perm[i]] for i in range(len(perm)))`. */
  function Total(cost: array2<real>, perm: seq<int>): real
    reads cost
  {
    Sum(Costs(cost, perm))
  }

  // ---------------------------------------------------------------------------------------
  // Exhaustive search (n <= 8)

  /** The loop over `itertools.permutations(range(n))`: a total replaces the best only
      when strictly smaller, so the result is the first permutation, in itertools order,
      of least total. */
  method BestPermutation(cost: array2<real>, n: nat) returns (best: seq<int>)
    requires cost.Length0 == n && cost.Length1 == n
    ensures IsPermutation(best, n)
    ensures forall p :: IsPermutation(p, n) ==> Total(cost, best) <= Total(cost, p)
    ensures exists k :: 0 <= k < |Permutations(n)| && Permutations(n)[k] == best &&
              forall j :: 0 <= j < k ==> Total(cost, Permutations(n)[j]) > Total(cost, best)
  {
    var perms := Permutations(n);
    PermutationsExactly(n, Range(n));
    var bestTotal: real := 0.0;
    best := [];
    ghost var at := 0;
    for k := 0 to |perms|
      invariant k > 0 ==> 0 <= at < k && perms[at] == best && bestTotal == Total(cost, best)
      invariant k > 0 ==> forall j :: 0 <= j < k ==> Total(cost, perms[j]) >= bestTotal
      invariant k > 0 ==> forall j :: 0 <= j < at ==> Total(cost, perms[j]) > bestTotal
    {
      var total := Total(cost, perms[k]);
      if k == 0 || total < bestTotal {
        bestTotal := total;
        best := perms[k];
        at := k;
      }
    }
    PermutationsExactly(n, best);
    forall p | IsPermutation(p, n)
      ensures Total(cost, best) <= Total(cost, p)
    {
      PermutationsExactly(n, p);
      var j :| 0 <= j < |perms| && perms[j] == p;
    }
  }

  // ---------------------------------------------------------------------------------------
  // Greedy assignment (n > 8)

  /** A `(cost[i, j], i, j)` triple of the flattened matrix. */
  type Entry = (real, int, int)

  /** Python's tuple order on entries: by cost, then row, then column. */
  predicate EntryLe(a: Entry, b: Entry) {
    a.0 < b.0 || (a.0 == b.0 && (a.1 < b.1 || (a.1 == b.1 && a.2 <= b.2)))
  }

  lemma EntryLeOrder()
    ensures Sorting.Total(EntryLe) && Sorting.Transitive(EntryLe)
    ensures forall a :: EntryLe(a, a)
  {
  }

  /** The triples of row i, by column. */
  function RowEntries(cost: array2<real>, i: int): (r: seq<Entry>)
    requires 0 <= i < cost.Length0
    reads cost
    ensures |r| == cost.Length1
    ensures forall j :: 0 <= j < |r| ==> r[j] == (cost[i, j], i, j)
  {
    seq(cost.Length1, j requires 0 <= j < cost.Length1 reads cost => (cost[i, j], i, j))
  }

  /** The triples of the first `rows` rows in row-major order: each is a cell of the
      matrix with its own cost. */
  function Entries(cost: array2<real>, rows: nat): (r: seq<Entry>)
    requires rows <= cost.Length0
    reads cost
    ensures forall e :: e in r ==>
              0 <= e.1 < rows && 0 <= e.2 < cost.Length1 && e.0 == cost[e.1, e.2]
  {
    if rows == 0 then [] else Entries(cost, rows - 1) + RowEntries(cost, rows - 1)
  }

  /** Every cell of the first `rows` rows is listed. */
  lemma {:induction false} EntriesHas(cost: array2<real>, rows: nat, i: int, j: int)
    requires rows <= cost.Length0 && 0 <= i < rows && 0 <= j < cost.Length1
    ensures (cost[i, j], i, j) in Entries(cost, rows)
  {
    if i < rows - 1 {
      EntriesHas(cost, rows - 1, i, j);
    } else {
      assert RowEntries(cost, i)[j] == (cost[i, j], i, j);
    }
  }

  /** `sorted(...)` of the flattened matrix: the same cells, ascending by cost. */
  lemma SortedEntries(cost: array2<real>)
    ensures forall e :: e in Sorting.Sort(Entries(cost, cost.Length0), EntryLe) <==>
              e in Entries(cost, cost.Length0)
    ensures forall a, b :: 0 <= a <= b < |Sorting.Sort(Entries(cost, cost.Length0), EntryLe)| ==>
              Sorting.Sort(Entries(cost, cost.Length0), EntryLe)[a].0 <=
              Sorting.Sort(Entries(cost, cost.Length0), EntryLe)[b].0
  {
    var es := Entries(cost, cost.Length0);
    var flat := Sorting.Sort(es, EntryLe);
    Sorting.SortMembers(es, EntryLe);
    EntryLeOrder();
    Sorting.SortSorted(es, EntryLe);
    forall a, b | 0 <= a <= b < |flat|
      ensures flat[a].0 <= flat[b].0
    {
      Sorting.SortedPairwise(flat, EntryLe, a, b);
    }
  }

  /** A set of indices in [0, n) with fewer than n elements misses one of them. */
  lemma MissingIndex(used: set<int>, n: nat)
    requires forall x :: x in used ==> 0 <= x < n
    requires |used| < n
    ensures exists i :: 0 <= i < n && i !in used
  {
    if forall i :: 0 <= i < n ==> i in used {
      assert RangeSet(n) <= used;
      RangeSetSize(n);
      SubsetSize(RangeSet(n), used);
      assert false;
    }
  }

  function RangeSet(n: nat): (r: set<int>)
    ensures forall x :: x in r <==> 0 <= x < n
  {
    if n == 0 then {} else RangeSet(n - 1) + {n - 1}
  }

  lemma {:induction false} RangeSetSize(n: nat)
    ensures |RangeSet(n)| == n
  {
    if n > 0 {
      RangeSetSize(n - 1);
    }
  }

  lemma {:induction false} SubsetSize(a: set<int>, b: set<int>)
    requires a <= b
    ensures |a| <= |b|
  {
    assert b == a + (b - a);
  }

  /** Some triple of `flat` is the cell (i, j). */
  predicate Listed(flat: seq<Entry>, i: int, j: int) {
    exists m :: 0 <= m < |flat| && flat[m].1 == i && flat[m].2 == j
  }

  /** The state of the greedy loop is a partial assignment: `cells` are distinct in row
      and column, the used sets hold exactly their rows and columns, and each picked cost
      comes with its cell from `flat`. */
  ghost predicate Partial(flat: seq<Entry>, n: nat, picked: seq<real>, cells: seq<(int, int)>,
                          usedR: set<int>, usedC: set<int>)
  {
    && |usedR| == |cells| && |usedC| == |cells| && |picked| == |cells|
    && (forall x :: x in usedR ==> 0 <= x < n)
    && (forall x :: x in usedC ==> 0 <= x < n)
    && (forall m :: 0 <= m < |cells| ==> Taken(flat, picked, cells, usedR, usedC, m))
    && (forall a, b :: 0 <= a < b < |cells| ==>
          cells[a].0 != cells[b].0 && cells[a].1 != cells[b].1)
  }

  ghost predicate Taken(flat: seq<Entry>, picked: seq<real>, cells: seq<(int, int)>,
                        usedR: set<int>, usedC: set<int>, m: int)
    requires 0 <= m < |cells| && |picked| == |cells|
  {
    && cells[m].0 in usedR && cells[m].1 in usedC
    && (picked[m], cells[m].0, cells[m].1) in flat
  }

  /** Taking a cell whose row and column are both free extends a partial assignment. */
  lemma TakeCell(flat: seq<Entry>, n: nat, picked: seq<real>, cells: seq<(int, int)>,
                 usedR: set<int>, usedC: set<int>, k: int)
    requires Partial(flat, n, picked, cells, usedR, usedC)
    requires 0 <= k < |flat| && 0 <= flat[k].1 < n && 0 <= flat[k].2 < n
    requires flat[k].1 !in usedR && flat[k].2 !in usedC
    ensures Partial(flat, n, picked + [flat[k].0], cells + [(flat[k].1, flat[k].2)],
                    usedR + {flat[k].1}, usedC + {flat[k].2})
  {
    var (c, i, j) := flat[k];
    var picked', cells' := picked + [c], cells + [(i, j)];
    forall m | 0 <= m < |cells'|
      ensures Taken(flat, picked', cells', usedR + {i}, usedC + {j}, m)
    {
      if m < |cells| {
        assert Taken(flat, picked, cells, usedR, usedC, m);
      }
    }
    forall a, b | 0 <= a < b < |cells'|
      ensures cells'[a].0 != cells'[b].0 && cells'[a].1 != cells'[b].1
    {
      if b == |cells| {
        assert Taken(flat, picked, cells, usedR, usedC, a);
      }
    }
  }

  /** Once every cell has been scanned and each has a used row or column, the rows are
      all used. */
  lemma ScanComplete(flat: seq<Entry>, n: nat, picked: seq<real>, cells: seq<(int, int)>,
                     usedR: set<int>, usedC: set<int>)
    requires Partial(flat, n, picked, cells, usedR, usedC)
    requires forall i, j :: 0 <= i < n && 0 <= j < n ==> Listed(flat, i, j)
    requires forall m :: 0 <= m < |flat| ==> flat[m].1 in usedR || flat[m].2 in usedC
    ensures |cells| >= n
  {
    forall i, j | 0 <= i < n && 0 <= j < n
      ensures i in usedR || j in usedC
    {
      assert Listed(flat, i, j);
      var m :| 0 <= m < |flat| && flat[m].1 == i && flat[m].2 == j;
    }
    if |usedR| < n {
      MissingIndex(usedR, n);
      MissingIndex(usedC, n);
      assert false;
    }
  }

  /** A partial assignment uses at most n rows. */
  lemma PartialBound(flat: seq<Entry>, n: nat, picked: seq<real>, cells: seq<(int, int)>,
                     usedR: set<int>, usedC: set<int>)
    requires Partial(flat, n, picked, cells, usedR, usedC)
    ensures |cells| <= n
  {
    SubsetSize(usedR, RangeSet(n));
    RangeSetSize(n);
  }

  /** Row x is the row of one of `cells` (`x in used_r`). */
  predicate UsedRow(cells: seq<(int, int)>, x: int) {
    exists a :: 0 <= a < |cells| && cells[a].0 == x
  }

  /** Column y is the column of one of `cells` (`y in used_c`). */
  predicate UsedCol(cells: seq<(int, int)>, y: int) {
    exists a :: 0 <= a < |cells| && cells[a].1 == y
  }

  /** Entry e shares its row or its column with one of `cells`, so the scan skips it. */
  predicate Blocked(cells: seq<(int, int)>, e: Entry) {
    UsedRow(cells, e.1) || UsedCol(cells, e.2)
  }

  /** The greedy rule over `flat`: pick k is the entry of `flat` at position at[k], the
      positions ascend, that entry is free of the picks before it, and every entry before
      it is blocked by those picks. So each pick is the first entry of `flat` whose row
      and column are both still unused. */
  ghost predicate FirstFree(flat: seq<Entry>, picked: seq<real>, cells: seq<(int, int)>, at: seq<int>) {
    && |at| == |cells| && |picked| == |cells|
    && (forall k :: 0 <= k < |at| ==>
          0 <= at[k] < |flat| && flat[at[k]] == (picked[k], cells[k].0, cells[k].1))
    && (forall a, b :: 0 <= a < b < |at| ==> at[a] < at[b])
    && (forall k :: 0 <= k < |at| ==> !Blocked(cells[..k], flat[at[k]]))
    && (forall k, m :: 0 <= k < |at| && 0 <= m < at[k] ==> Blocked(cells[..k], flat[m]))
  }

  /** The greedy rule fixes the picks: two runs over the same `flat` that pick equally
      many cells pick the same cells, at the same positions, with the same costs. */
  lemma FirstFreeUnique(flat: seq<Entry>, picked: seq<real>, cells: seq<(int, int)>, at: seq<int>,
                        picked': seq<real>, cells': seq<(int, int)>, at': seq<int>)
    requires FirstFree(flat, picked, cells, at) && FirstFree(flat, picked', cells', at')
    requires |at| == |at'|
    ensures at == at' && cells == cells' && picked == picked'
  {
    FirstFreePrefix(flat, picked, cells, at, picked', cells', at', |at|);
  }

  lemma {:induction false} FirstFreePrefix(flat: seq<Entry>, picked: seq<real>, cells: seq<(int, int)>,
                        at: seq<int>, picked': seq<real>, cells': seq<(int, int)>, at': seq<int>, k: nat)
    requires FirstFree(flat, picked, cells, at) && FirstFree(flat, picked', cells', at')
    requires k <= |at| == |at'|
    ensures forall i :: 0 <= i < k ==> at[i] == at'[i] && cells[i] == cells'[i] && picked[i] == picked'[i]
  {
    if k > 0 {
      var j := k - 1;
      FirstFreePrefix(flat, picked, cells, at, picked', cells', at', j);
      assert cells[..j] == cells'[..j];
      FirstFreeNoLater(flat, picked, cells, at, picked', cells', at', j);
      FirstFreeNoLater(flat, picked', cells', at', picked, cells, at, j);
    }
  }

  /** With the same picks before it, a greedy run cannot take pick j later than
      another: the other run's pick j is free of those picks. */
  lemma FirstFreeNoLater(flat: seq<Entry>, picked: seq<real>, cells: seq<(int, int)>, at: seq<int>,
                         picked': seq<real>, cells': seq<(int, int)>, at': seq<int>, j: nat)
    requires FirstFree(flat, picked, cells, at) && FirstFree(flat, picked', cells', at')
    requires j < |at| && j < |at'| && cells[..j] == cells'[..j]
    ensures at[j] <= at'[j]
  {
    assert !Blocked(cells'[..j], flat[at'[j]]);
  }

  /** Taking the free entry at position k extends a greedy run that has scanned the
      entries before k. */
  lemma FirstFreeTake(flat: seq<Entry>, picked: seq<real>, cells: seq<(int, int)>, at: seq<int>, k: int)
    requires FirstFree(flat, picked, cells, at)
    requires 0 <= k < |flat| && !Blocked(cells, flat[k])
    requires forall j :: 0 <= j < |at| ==> at[j] < k
    requires forall m :: 0 <= m < k ==> Blocked(cells, flat[m])
    ensures FirstFree(flat, picked + [flat[k].0], cells + [(flat[k].1, flat[k].2)], at + [k])
    ensures forall m :: 0 <= m <= k ==> Blocked(cells + [(flat[k].1, flat[k].2)], flat[m])
  {
    var c := (flat[k].1, flat[k].2);
    var cells2 := cells + [c];
    assert cells2[..|cells|] == cells;
    forall j | 0 <= j < |cells|
      ensures cells2[..j] == cells[..j]
    {
    }
    forall m | 0 <= m <= k
      ensures Blocked(cells2, flat[m])
    {
      if m == k {
        assert cells2[|cells|] == c;
      } else if UsedRow(cells, flat[m].1) {
        var a :| 0 <= a < |cells| && cells[a].0 == flat[m].1;
        assert cells2[a] == cells[a];
      } else {
        var a :| 0 <= a < |cells| && cells[a].1 == flat[m].2;
        assert cells2[a] == cells[a];
      }
    }
  }

  /** `flat` is ascending by cost and its entries are cells of the n x n matrix. */
  predicate ScanInput(flat: seq<Entry>, n: nat) {
    && (forall a, b :: 0 <= a <= b < |flat| ==> flat[a].0 <= flat[b].0)
    && (forall m :: 0 <= m < |flat| ==> 0 <= flat[m].1 < n && 0 <= flat[m].2 < n)
  }

  /** The state of the greedy loop after the entries before position k: a partial
      assignment following the greedy rule, `used_r`/`used_c` holding exactly its rows and
      columns, and every scanned entry blocked. */
  ghost predicate Scanned(flat: seq<Entry>, n: nat, k: int, picked: seq<real>, cells: seq<(int, int)>,
                          at: seq<int>, usedR: set<int>, usedC: set<int>)
  {
    && 0 <= k <= |flat|
    && Partial(flat, n, picked, cells, usedR, usedC)
    && FirstFree(flat, picked, cells, at)
    && (forall x :: x in usedR <==> UsedRow(cells, x))
    && (forall y :: y in usedC <==> UsedCol(cells, y))
    && (forall j :: 0 <= j < |at| ==> at[j] < k)
    && (forall m :: 0 <= m < k ==> Blocked(cells, flat[m]))
  }

  /** The loop step that takes the free entry at position k. */
  lemma ScanTake(flat: seq<Entry>, n: nat, k: int, picked: seq<real>, cells: seq<(int, int)>,
                 at: seq<int>, usedR: set<int>, usedC: set<int>)
    requires ScanInput(flat, n) && Scanned(flat, n, k, picked, cells, at, usedR, usedC)
    requires k < |flat| && flat[k].1 !in usedR && flat[k].2 !in usedC
    ensures Scanned(flat, n, k + 1, picked + [flat[k].0], cells + [(flat[k].1, flat[k].2)], at + [k],
                    usedR + {flat[k].1}, usedC + {flat[k].2})
  {
    TakeCell(flat, n, picked, cells, usedR, usedC, k);
    FirstFreeTake(flat, picked, cells, at, k);
    UsedGrow(cells, (flat[k].1, flat[k].2));
  }

  /** The loop step that skips the blocked entry at position k. */
  lemma ScanSkip(flat: seq<Entry>, n: nat, k: int, picked: seq<real>, cells: seq<(int, int)>,
                 at: seq<int>, usedR: set<int>, usedC: set<int>)
    requires ScanInput(flat, n) && Scanned(flat, n, k, picked, cells, at, usedR, usedC)
    requires k < |flat| && (flat[k].1 in usedR || flat[k].2 in usedC)
    ensures Scanned(flat, n, k + 1, picked, cells, at, usedR, usedC)
  {
    assert Blocked(cells, flat[k]);
  }

  /** The loop over `flat`, the cells in ascending order of cost that between them list
      every cell of the n x n matrix: an entry is taken when neither its row nor its column
      has been used, and the scan stops once every row is used. The picks follow the
      greedy rule at the positions `at`; they are n cells, one per row and one per
      column, with ascending costs. */
  method GreedyScan(flat: seq<Entry>, n: nat) returns (picked: seq<real>, ghost cells: seq<(int, int)>,
                                                       ghost at: seq<int>)
    requires forall a, b :: 0 <= a <= b < |flat| ==> flat[a].0 <= flat[b].0
    requires forall m :: 0 <= m < |flat| ==> 0 <= flat[m].1 < n && 0 <= flat[m].2 < n
    requires forall i, j :: 0 <= i < n && 0 <= j < n ==> Listed(flat, i, j)
    ensures |picked| == n && |cells| == n
    ensures FirstFree(flat, picked, cells, at)
    ensures forall k :: 0 <= k < n ==> (picked[k], cells[k].0, cells[k].1) in flat
    ensures forall a, b :: 0 <= a < b < n ==> cells[a].0 != cells[b].0 && cells[a].1 != cells[b].1
    ensures forall a, b :: 0 <= a < b < n ==> picked[a] <= picked[b]
  {
    var usedR: set<int> := {};
    var usedC: set<int> := {};
    picked := [];
    cells := [];
    at := [];
    var k := 0;
    while k < |flat|
      invariant Scanned(flat, n, k, picked, cells, at, usedR, usedC)
    {
      var (c, i, j) := flat[k];
      if i !in usedR && j !in usedC {
        ScanTake(flat, n, k, picked, cells, at, usedR, usedC);
        picked, cells, at := picked + [c], cells + [(i, j)], at + [k];
        usedR, usedC := usedR + {i}, usedC + {j};
        if |usedR| == n {
          ScanDone(flat, n, k + 1, picked, cells, at, usedR, usedC);
          return;
        }
      } else {
        ScanSkip(flat, n, k, picked, cells, at, usedR, usedC);
      }
      k := k + 1;
    }
    ScanDone(flat, n, k, picked, cells, at, usedR, usedC);
  }

  /** When the loop ends, either once every row is used or after the last entry, n
      cells have been picked. */
  lemma ScanDone(flat: seq<Entry>, n: nat, k: int, picked: seq<real>, cells: seq<(int, int)>,
                 at: seq<int>, usedR: set<int>, usedC: set<int>)
    requires ScanInput(flat, n) && forall i, j :: 0 <= i < n && 0 <= j < n ==> Listed(flat, i, j)
    requires Scanned(flat, n, k, picked, cells, at, usedR, usedC) && (k == |flat| || |usedR| == n)
    ensures |picked| == n && |cells| == n
    ensures FirstFree(flat, picked, cells, at)
    ensures forall k :: 0 <= k < n ==> (picked[k], cells[k].0, cells[k].1) in flat
    ensures forall a, b :: 0 <= a < b < n ==> cells[a].0 != cells[b].0 && cells[a].1 != cells[b].1
    ensures forall a, b :: 0 <= a < b < n ==> picked[a] <= picked[b]
  {
    PartialBound(flat, n, picked, cells, usedR, usedC);
    if |usedR| < n {
      forall m | 0 <= m < |flat|
        ensures flat[m].1 in usedR || flat[m].2 in usedC
      {
        assert Blocked(cells, flat[m]);
      }
      ScanComplete(flat, n, picked, cells, usedR, usedC);
    }
    forall k | 0 <= k < n
      ensures (picked[k], cells[k].0, cells[k].1) in flat
    {
      assert flat[at[k]] == (picked[k], cells[k].0, cells[k].1);
    }
    forall a, b | 0 <= a < b < n
      ensures picked[a] <= picked[b]
    {
      assert flat[at[a]].0 <= flat[at[b]].0;
    }
  }

  /** Adding a cell adds its row and column to the used ones. */
  lemma UsedGrow(cells: seq<(int, int)>, c: (int, int))
    ensures forall x :: UsedRow(cells + [c], x) <==> UsedRow(cells, x) || x == c.0
    ensures forall y :: UsedCol(cells + [c], y) <==> UsedCol(cells, y) || y == c.1
  {
    var cells2 := cells + [c];
    assert cells2[|cells|] == c;
    forall x | UsedRow(cells, x) ensures UsedRow(cells2, x) {
      var a :| 0 <= a < |cells| && cells[a].0 == x;
      assert cells2[a] == cells[a];
    }
    forall y | UsedCol(cells, y) ensures UsedCol(cells2, y) {
      var a :| 0 <= a < |cells| && cells[a].1 == y;
      assert cells2[a] == cells[a];
    }
    forall x | UsedRow(cells2, x) ensures UsedRow(cells, x) || x == c.0 {
      var a :| 0 <= a < |cells2| && cells2[a].0 == x;
      if a < |cells| {
        assert cells[a] == cells2[a];
      }
    }
    forall y | UsedCol(cells2, y) ensures UsedCol(cells, y) || y == c.1 {
      var a :| 0 <= a < |cells2| && cells2[a].1 == y;
      if a < |cells| {
        assert cells[a] == cells2[a];
      }
    }
  }

  /** The greedy fallback: `sorted` over the flattened matrix, then the scan. Each pick
      is the first entry of the sorted matrix whose row and column are still free, its
      cost is the cost of its own cell, the cells form a complete assignment, and the
      costs come out ascending. */
  method Greedy(cost: array2<real>, n: nat) returns (picked: seq<real>, ghost cells: seq<(int, int)>,
                                                     ghost at: seq<int>)
    requires cost.Length0 == n && cost.Length1 == n
    ensures |picked| == n && |cells| == n
    ensures FirstFree(Sorting.Sort(Entries(cost, n), EntryLe), picked, cells, at)
    ensures forall k :: 0 <= k < n ==>
              0 <= cells[k].0 < n && 0 <= cells[k].1 < n && picked[k] == cost[cells[k].0, cells[k].1]
    ensures forall a, b :: 0 <= a < b < n ==> cells[a].0 != cells[b].0 && cells[a].1 != cells[b].1
    ensures forall a, b :: 0 <= a < b < n ==> picked[a] <= picked[b]
  {
    var flat := Sorting.Sort(Entries(cost, n), EntryLe);
    SortedEntries(cost);
    forall m | 0 <= m < |flat|
      ensures 0 <= flat[m].1 < n && 0 <= flat[m].2 < n && flat[m].0 == cost[flat[m].1, flat[m].2]
    {
      assert flat[m] in Entries(cost, n);
    }
    forall i, j | 0 <= i < n && 0 <= j < n
      ensures Listed(flat, i, j)
    {
      EntriesHas(cost, n, i, j);
      var m :| 0 <= m < |flat| && flat[m] == (cost[i, j], i, j);
    }
    picked, cells, at := GreedyScan(flat, n);
    forall k | 0 <= k < n
      ensures 0 <= cells[k].0 < n && 0 <= cells[k].1 < n && picked[k] == cost[cells[k].0, cells[k].1]
    {
      var m :| 0 <= m < |flat| && flat[m] == (picked[k], cells[k].0, cells[k].1);
    }
  }

  // ---------------------------------------------------------------------------------------
  // voice_leading_tension, up to the chosen costs

  /** p lists each of 0..n-1 exactly once, so (i, p[i]) is a complete assignment. */
  lemma PermutationCells(p: seq<int>, n: nat)
    requires IsPermutation(p, n)
    ensures |p| == n
    ensures forall k :: 0 <= k < |p| ==> 0 <= p[k] < n
    ensures forall a, b :: 0 <= a < b < |p| ==> p[a] != p[b]
  {
    assert |p| == |multiset(p)| == |multiset(Range(n))| == n;
    forall k | 0 <= k < |p|
      ensures 0 <= p[k] < n
    {
      assert p[k] in multiset(p);
      assert p[k] in Range(n);
    }
    RangeOnce(n);
    forall a, b | 0 <= a < b < |p|
      ensures p[a] != p[b]
    {
      var x := p[b];
      assert p == p[..b] + p[b..];
      assert p[a] in multiset(p[..b]) by { assert p[..b][a] == p[a]; }
      assert x in multiset(p[b..]) by { assert p[b..][0] == x; }
      assert multiset(p)[x] == multiset(p[..b])[x] + multiset(p[b..])[x];
      assert multiset(Range(n))[x] <= 1;
    }
  }

  /** `range(n)` holds each value at most once. */
  lemma {:induction false} RangeOnce(n: nat)
    ensures forall x :: multiset(Range(n))[x] <= 1
  {
    if n > 0 {
      RangeOnce(n - 1);
      assert Range(n) == Range(n - 1) + [n - 1];
      assert n - 1 !in Range(n - 1);
    }
  }

  /** `cells` pairs each row of an n x n matrix with its own column. */
  ghost predicate Complete(cells: seq<(int, int)>, n: nat) {
    && |cells| == n
    && (forall k :: 0 <= k < n ==> 0 <= cells[k].0 < n && 0 <= cells[k].1 < n)
    && (forall a, b :: 0 <= a < b < n ==> cells[a].0 != cells[b].0 && cells[a].1 != cells[b].1)
  }

  /** The costs of the cells of an assignment, as the matrix gives them. */
  function CellCosts(pcsA: seq<int>, pcsB: seq<int>, penalty: real, mu: (int, int) -> real,
                     cells: seq<(int, int)>): (r: seq<real>)
    requires InTable(pcsA) && InTable(pcsB)
    ensures |r| == |cells|
    ensures forall k :: 0 <= k < |cells| ==>
              r[k] == CostCell(pcsA, pcsB, penalty, mu, cells[k].0, cells[k].1)
  {
    seq(|cells|, k requires 0 <= k < |cells| =>
      CostCell(pcsA, pcsB, penalty, mu, cells[k].0, cells[k].1))
  }

  /** The cells (i, p[i]) of a permutation. */
  function Rows(p: seq<int>): (r: seq<(int, int)>)
    ensures |r| == |p| && forall k :: 0 <= k < |p| ==> r[k] == (k, p[k])
  {
    seq(|p|, k requires 0 <= k < |p| => (k, p[k]))
  }

  /** What `voice_leading_tension` computes before its stability sum. */
  datatype Choice = NoPitchClasses | Chosen(costs: seq<real>)

  /** `voice_leading_tension` without SciPy, up to `chosen`: no pitch class on either
      side gives the early 0.0 (`NoPitchClasses`); a set bit at position 12 or later
      fails the table lookup (`IndexError`); otherwise the costs of a complete
      assignment of the n = max(na, nb) rows to columns are chosen: when n <= 8 those of
      the first permutation of least total, and otherwise those the greedy rule picks from
      the sorted matrix, ascending. `cells` names the assignment. */
  method ChooseCosts(bitsA: seq<int>, bitsB: seq<int>, penalty: real, mu: (int, int) -> real)
    returns (r: Result<Choice>, ghost cells: seq<(int, int)>)
    ensures r == Ok(NoPitchClasses) <==> PcList(bitsA) == [] || PcList(bitsB) == []
    ensures r.Err? <==> PcList(bitsA) != [] && PcList(bitsB) != [] &&
                        !(InTable(PcList(bitsA)) && InTable(PcList(bitsB)))
    ensures r.Err? ==> r.error == IndexError
    ensures r.Ok? && r.value.Chosen? ==>
              && InTable(PcList(bitsA)) && InTable(PcList(bitsB))
              && Complete(cells, Max(|PcList(bitsA)|, |PcList(bitsB)|))
              && r.value.costs == CellCosts(PcList(bitsA), PcList(bitsB), penalty, mu, cells)
    ensures r.Ok? && r.value.Chosen? && Max(|PcList(bitsA)|, |PcList(bitsB)|) <= 8 ==>
              forall p :: IsPermutation(p, Max(|PcList(bitsA)|, |PcList(bitsB)|)) ==>
                Sum(r.value.costs) <= Sum(CellCosts(PcList(bitsA), PcList(bitsB), penalty, mu, Rows(p)))
    ensures r.Ok? && r.value.Chosen? && Max(|PcList(bitsA)|, |PcList(bitsB)|) <= 8 ==>
              FirstLeast(PcList(bitsA), PcList(bitsB), penalty, mu, Max(|PcList(bitsA)|, |PcList(bitsB)|), cells)
    ensures r.Ok? && r.value.Chosen? && Max(|PcList(bitsA)|, |PcList(bitsB)|) > 8 ==>
              forall a, b :: 0 <= a < b < |r.value.costs| ==> r.value.costs[a] <= r.value.costs[b]
    ensures r.Ok? && r.value.Chosen? && Max(|PcList(bitsA)|, |PcList(bitsB)|) > 8 ==>
              var n := Max(|PcList(bitsA)|, |PcList(bitsB)|);
              exists at :: FirstFree(Sorting.Sort(CostEntries(PcList(bitsA), PcList(bitsB), penalty, mu, n, n), EntryLe),
                                     r.value.costs, cells, at)
  {
    var pcsA := PcList(bitsA);
    var pcsB := PcList(bitsB);
    if pcsA == [] || pcsB == [] {
      return Ok(NoPitchClasses), [];
    }
    if !(InTable(pcsA) && InTable(pcsB)) {
      return Err(IndexError), [];
    }
    var chosen;
    chosen, cells := AssignCosts(pcsA, pcsB, penalty, mu);
    r := Ok(Chosen(chosen));
  }

  /** The cost matrix over two lists of pitch classes and the costs chosen from it: for
      n = max(na, nb) <= 8 those of the first permutation of least total, otherwise those
      the greedy rule picks from the sorted matrix, ascending. */
  method AssignCosts(pcsA: seq<int>, pcsB: seq<int>, penalty: real, mu: (int, int) -> real)
    returns (chosen: seq<real>, ghost cells: seq<(int, int)>)
    requires InTable(pcsA) && InTable(pcsB)
    ensures Complete(cells, Max(|pcsA|, |pcsB|))
    ensures chosen == CellCosts(pcsA, pcsB, penalty, mu, cells)
    ensures Max(|pcsA|, |pcsB|) <= 8 ==>
              forall p :: IsPermutation(p, Max(|pcsA|, |pcsB|)) ==>
                Sum(chosen) <= Sum(CellCosts(pcsA, pcsB, penalty, mu, Rows(p)))
    ensures Max(|pcsA|, |pcsB|) <= 8 ==> FirstLeast(pcsA, pcsB, penalty, mu, Max(|pcsA|, |pcsB|), cells)
    ensures Max(|pcsA|, |pcsB|) > 8 ==> forall a, b :: 0 <= a < b < |chosen| ==> chosen[a] <= chosen[b]
    ensures Max(|pcsA|, |pcsB|) > 8 ==>
              exists at :: FirstFree(Sorting.Sort(CostEntries(pcsA, pcsB, penalty, mu, Max(|pcsA|, |pcsB|),
                                                               Max(|pcsA|, |pcsB|)), EntryLe), chosen, cells, at)
  {
    var n := Max(|pcsA|, |pcsB|);
    var cost := BuildCost(pcsA, pcsB, penalty, mu);
    if n <= 8 {
      chosen, cells := Exhaustive(cost, pcsA, pcsB, penalty, mu, n);
    } else {
      ghost var at;
      chosen, cells, at := Greedy(cost, n);
      assert Complete(cells, n);
      EntriesOfCost(cost, pcsA, pcsB, penalty, mu, n, n);
      assert FirstFree(Sorting.Sort(CostEntries(pcsA, pcsB, penalty, mu, n, n), EntryLe), chosen, cells, at);
    }
  }

  /** The n <= 8 branch over a matrix `BuildCost` filled: the costs of the permutation
      `BestPermutation` keeps, which is the first of least total. */
  method Exhaustive(cost: array2<real>, pcsA: seq<int>, pcsB: seq<int>, penalty: real,
                    mu: (int, int) -> real, n: nat) returns (chosen: seq<real>, ghost cells: seq<(int, int)>)
    requires InTable(pcsA) && InTable(pcsB) && n == Max(|pcsA|, |pcsB|)
    requires cost.Length0 == n && cost.Length1 == n
    requires forall i, j :: 0 <= i < n && 0 <= j < n ==>
               cost[i, j] == CostCell(pcsA, pcsB, penalty, mu, i, j)
    ensures Complete(cells, n)
    ensures chosen == CellCosts(pcsA, pcsB, penalty, mu, cells)
    ensures forall p :: IsPermutation(p, n) ==> Sum(chosen) <= Sum(CellCosts(pcsA, pcsB, penalty, mu, Rows(p)))
    ensures FirstLeast(pcsA, pcsB, penalty, mu, n, cells)
  {
    var best := BestPermutation(cost, n);
    PermutationCells(best, n);
    chosen := seq(n, i requires 0 <= i < n reads cost => cost[i, best[i]]);
    cells := Rows(best);
    PermutationOptimal(cost, pcsA, pcsB, penalty, mu, n, best);
    BestIsFirstLeast(cost, pcsA, pcsB, penalty, mu, n, best);
  }

  /** Read through the matrix, the least total over permutations is the least total of
      the costs the matrix stands for. */
  lemma PermutationOptimal(cost: array2<real>, pcsA: seq<int>, pcsB: seq<int>, penalty: real,
                           mu: (int, int) -> real, n: nat, best: seq<int>)
    requires InTable(pcsA) && InTable(pcsB) && n == Max(|pcsA|, |pcsB|)
    requires cost.Length0 == n && cost.Length1 == n
    requires forall i, j :: 0 <= i < n && 0 <= j < n ==>
               cost[i, j] == CostCell(pcsA, pcsB, penalty, mu, i, j)
    requires IsPermutation(best, n)
    requires forall p :: IsPermutation(p, n) ==> Total(cost, best) <= Total(cost, p)
    ensures forall p :: IsPermutation(p, n) ==>
              Sum(CellCosts(pcsA, pcsB, penalty, mu, Rows(best))) <=
              Sum(CellCosts(pcsA, pcsB, penalty, mu, Rows(p)))
  {
    forall p | IsPermutation(p, n)
      ensures Costs(cost, p) == CellCosts(pcsA, pcsB, penalty, mu, Rows(p))
    {
      PermutationCells(p, n);
    }
  }

  /** The total of a permutation's cells, as the matrix gives them. */
  function PermTotal(pcsA: seq<int>, pcsB: seq<int>, penalty: real, mu: (int, int) -> real,
                     p: seq<int>): real
    requires InTable(pcsA) && InTable(pcsB)
  {
    Sum(CellCosts(pcsA, pcsB, penalty, mu, Rows(p)))
  }

  /** `cells` are those of the permutation the exhaustive search keeps: one of least total,
      and the first such in `itertools.permutations` order, since a later permutation
      replaces the best only when its total is strictly smaller. */
  ghost predicate FirstLeast(pcsA: seq<int>, pcsB: seq<int>, penalty: real, mu: (int, int) -> real,
                             n: nat, cells: seq<(int, int)>)
    requires InTable(pcsA) && InTable(pcsB)
  {
    exists k :: 0 <= k < |Permutations(n)| && cells == Rows(Permutations(n)[k]) &&
      (forall p :: IsPermutation(p, n) ==>
         PermTotal(pcsA, pcsB, penalty, mu, Permutations(n)[k]) <= PermTotal(pcsA, pcsB, penalty, mu, p)) &&
      (forall j :: 0 <= j < k ==>
         PermTotal(pcsA, pcsB, penalty, mu, Permutations(n)[j]) > PermTotal(pcsA, pcsB, penalty, mu, Permutations(n)[k]))
  }

  /** Over a matrix built by `BuildCost`, the permutation `BestPermutation` returns is the
      one `FirstLeast` describes. */
  lemma BestIsFirstLeast(cost: array2<real>, pcsA: seq<int>, pcsB: seq<int>, penalty: real,
                         mu: (int, int) -> real, n: nat, best: seq<int>)
    requires InTable(pcsA) && InTable(pcsB) && n == Max(|pcsA|, |pcsB|)
    requires cost.Length0 == n && cost.Length1 == n
    requires forall i, j :: 0 <= i < n && 0 <= j < n ==>
               cost[i, j] == CostCell(pcsA, pcsB, penalty, mu, i, j)
    requires IsPermutation(best, n)
    requires forall p :: IsPermutation(p, n) ==> Total(cost, best) <= Total(cost, p)
    requires exists k :: 0 <= k < |Permutations(n)| && Permutations(n)[k] == best &&
               forall j :: 0 <= j < k ==> Total(cost, Permutations(n)[j]) > Total(cost, best)
    ensures FirstLeast(pcsA, pcsB, penalty, mu, n, Rows(best))
  {
    var perms := Permutations(n);
    var k :| 0 <= k < |perms| && perms[k] == best &&
             forall j :: 0 <= j < k ==> Total(cost, perms[j]) > Total(cost, best);
    forall p | IsPermutation(p, n)
      ensures Total(cost, p) == PermTotal(pcsA, pcsB, penalty, mu, p)
    {
      PermutationCells(p, n);
      assert Costs(cost, p) == CellCosts(pcsA, pcsB, penalty, mu, Rows(p));
    }
    forall j | 0 <= j < k
      ensures PermTotal(pcsA, pcsB, penalty, mu, perms[j]) > PermTotal(pcsA, pcsB, penalty, mu, perms[k])
    {
      PermutationsExactly(n, perms[j]);
      assert Total(cost, perms[j]) > Total(cost, best);
    }
  }

  /** The flattened matrix of `CostCell` values over the first `rows` rows of n columns,
      in row-major order: what `Entries` lists for a matrix `BuildCost` filled. */
  function CostEntries(pcsA: seq<int>, pcsB: seq<int>, penalty: real, mu: (int, int) -> real,
                       n: nat, rows: nat): seq<Entry>
    requires InTable(pcsA) && InTable(pcsB)
  {
    if rows == 0 then []
    else CostEntries(pcsA, pcsB, penalty, mu, n, rows - 1) +
         seq(n, j requires 0 <= j < n => (CostCell(pcsA, pcsB, penalty, mu, rows - 1, j), rows - 1, j))
  }

  lemma {:induction false} EntriesOfCost(cost: array2<real>, pcsA: seq<int>, pcsB: seq<int>, penalty: real,
                                         mu: (int, int) -> real, n: nat, rows: nat)
    requires InTable(pcsA) && InTable(pcsB)
    requires cost.Length0 == n && cost.Length1 == n && rows <= n
    requires forall i, j :: 0 <= i < n && 0 <= j < n ==>
               cost[i, j] == CostCell(pcsA, pcsB, penalty, mu, i, j)
    ensures Entries(cost, rows) == CostEntries(pcsA, pcsB, penalty, mu, n, rows)
  {
    if rows > 0 {
      EntriesOfCost(cost, pcsA, pcsB, penalty, mu, n, rows - 1);
      assert RowEntries(cost, rows - 1) ==
        seq(n, j requires 0 <= j < n => (CostCell(pcsA, pcsB, penalty, mu, rows - 1, j), rows - 1, j));
    }
  }
}

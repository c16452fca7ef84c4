/** Chord roots and the choice of representative chord names (backend/jass/chroma_index.py).
    Names are preferred without a slash (root position), then shorter, then in code-point
    order. */
module ChordNames {
  import opened Wrappers
  import opened Text
  import opened Sorting
  import opened Dicts

  /** `chord_root`: the upper-cased first letter when it is A-G, followed by a '#' or 'b'
      written right after it; "" for an empty name or any other first character. */
  function ChordRoot(name: string): (r: string)
    ensures |r| <= 2
    ensures r == [] <==> name == [] || !('A' <= UpperChar(name[0]) <= 'G')
    ensures r != [] ==> r[0] == UpperChar(name[0]) && 'A' <= r[0] <= 'G'
    ensures r != [] ==> (|r| == 2 <==> |name| >= 2 && (name[1] == '#' || name[1] == 'b'))
    ensures |r| == 2 ==> r[1] == name[1]
  {
    if name == [] then ""
    else
      var c0 := UpperChar(name[0]);
      if c0 < 'A' || c0 > 'G' then ""
      else if |name| >= 2 && (name[1] == '#' || name[1] == 'b') then [c0, name[1]]
      else [c0]
  }

  /** A root names its own root: `chord_root` is idempotent. */
  lemma ChordRootIdempotent(name: string)
    ensures ChordRoot(ChordRoot(name)) == ChordRoot(name)
  {
  }

  function Slash(name: string): int {
    if '/' in name then 1 else 0
  }

  /** `(len(a), a) <= (len(b), b)` */
  predicate LenLe(a: string, b: string) {
    |a| < |b| || (|a| == |b| && StrLe(a, b))
  }

  /** `_name_pref_key(a) <= _name_pref_key(b)`: the key `(has '/', len, name)`. */
  predicate PrefLe(a: string, b: string) {
    Slash(a) < Slash(b) || (Slash(a) == Slash(b) && LenLe(a, b))
  }

  lemma LenLeOrder()
    ensures Total(LenLe) && Transitive(LenLe)
    ensures forall a, b :: LenLe(a, b) && LenLe(b, a) ==> a == b
  {
    forall a, b ensures LenLe(a, b) || LenLe(b, a) {
      StrLeTotal(a, b);
    }
    forall a, b, c | LenLe(a, b) && LenLe(b, c) ensures LenLe(a, c) {
      if |a| == |b| == |c| {
        StrLeTransitive(a, b, c);
      }
    }
    forall a, b | LenLe(a, b) && LenLe(b, a) ensures a == b {
      StrLeAntisymmetric(a, b);
    }
  }

  /** The preference key orders names totally: two names with equal keys are equal. */
  lemma PrefLeOrder()
    ensures Total(PrefLe) && Transitive(PrefLe)
    ensures forall a, b :: PrefLe(a, b) && PrefLe(b, a) ==> a == b
  {
    LenLeOrder();
  }

  /** The names without a '/', in their original order. */
  function NoSlash(names: seq<string>): (r: seq<string>)
    ensures |r| <= |names|
  {
    if names == [] then []
    else (if '/' in names[0] then [] else [names[0]]) + NoSlash(names[1..])
  }

  /** `NoSlash` keeps exactly the slash-free names, and keeps a slash-free list whole. */
  lemma {:induction false} NoSlashMembers(names: seq<string>)
    ensures forall x :: x in NoSlash(names) <==> x in names && '/' !in x
    ensures (forall x :: x in names ==> '/' !in x) ==> NoSlash(names) == names
  {
    if names != [] {
      NoSlashMembers(names[1..]);
      assert names == [names[0]] + names[1..];
    }
  }

  /** The value of `choose_shortest_no_slash` on a non-empty list: the least name by
      (length, name) among the slash-free names, or among all names if every one has a slash. */
  function ShortestNoSlash(names: seq<string>): (r: string)
    requires names != []
    ensures r in names
  {
    NoSlashMembers(names);
    var noSlash := NoSlash(names);
    if noSlash != [] then Min(noSlash, LenLe) else Min(names, LenLe)
  }

  /** The pick is slash-free whenever a slash-free name exists, and no longer (then no later
      in code-point order) than any name of its own kind. */
  lemma ShortestNoSlashLeast(names: seq<string>)
    requires names != []
    ensures (exists x :: x in names && '/' !in x) ==> '/' !in ShortestNoSlash(names)
    ensures forall x :: x in names && ('/' !in x || '/' in ShortestNoSlash(names)) ==> LenLe(ShortestNoSlash(names), x)
  {
    NoSlashMembers(names);
    var noSlash := NoSlash(names);
    var pool := if noSlash != [] then noSlash else names;
    LenLeOrder();
    forall x | x in pool ensures LenLe(Min(pool, LenLe), x) {
      MinLeast(pool, LenLe, x);
    }
    if exists x :: x in names && '/' !in x {
      var x :| x in names && '/' !in x;
      assert x in noSlash;
    }
  }

  /** `choose_shortest_no_slash`: a `ValueError` for an empty list. */
  function ChooseShortestNoSlash(names: seq<string>): (r: Result<string>)
    ensures r.Ok? <==> names != []
    ensures r.Err? ==> r.error == ValueError
    ensures r.Ok? ==> r.value in names && ((exists x :: x in names && '/' !in x) ==> '/' !in r.value)
  {
    if names == [] then Err(ValueError)
    else
      ShortestNoSlashLeast(names);
      Ok(ShortestNoSlash(names))
  }

  /** The value of `choose_representative` on a non-empty list: the least name by
      `_name_pref_key`. */
  function Representative(names: seq<string>): (r: string)
    requires names != []
    ensures r in names
    ensures forall x :: x in names ==> PrefLe(r, x)
  {
    PrefLeOrder();
    forall x | x in names ensures PrefLe(Min(names, PrefLe), x) {
      MinLeast(names, PrefLe, x);
    }
    Min(names, PrefLe)
  }

  /** `choose_representative`: a `ValueError` for an empty list; otherwise a member of the
      list, slash-free whenever the list has a slash-free name. */
  function ChooseRepresentative(names: seq<string>): (r: Result<string>)
    ensures r.Ok? <==> names != []
    ensures r.Err? ==> r.error == ValueError
    ensures r.Ok? ==> r.value in names && forall x :: x in names ==> PrefLe(r.value, x)
    ensures r.Ok? ==> ((exists x :: x in names && '/' !in x) ==> '/' !in r.value)
  {
    if names == [] then Err(ValueError) else Ok(Representative(names))
  }

  /** The two selection rules agree: filtering out slash names first and then taking the
      shortest is the same as minimising the full preference key. */
  lemma ShortestNoSlashIsRepresentative(names: seq<string>)
    requires names != []
    ensures ShortestNoSlash(names) == Representative(names)
  {
    var a := ShortestNoSlash(names);
    var b := Representative(names);
    ShortestNoSlashLeast(names);
    PrefLeOrder();
    assert PrefLe(b, a);
    if '/' !in b {
      assert LenLe(a, b);
    } else {
      assert forall x :: x in names ==> '/' in x by {
        forall x | x in names ensures '/' in x {
          assert PrefLe(b, x);
        }
      }
      assert LenLe(a, b);
    }
    assert PrefLe(a, b);
  }

  /** `filter_slash_suggestions`: the slash-free names in their original order; if there
      are none, a singleton holding the shortest name; [] for an empty list. */
  function FilterSlashSuggestions(names: seq<string>): (r: seq<string>)
    ensures (exists x :: x in names && '/' !in x) ==> r == NoSlash(names)
    ensures names != [] && (forall x :: x in names ==> '/' in x) ==>
      |r| == 1 && r[0] in names && forall x :: x in names ==> LenLe(r[0], x)
    ensures names == [] ==> r == []
    ensures forall x :: x in r ==> x in names
  {
    NoSlashMembers(names);
    var noSlash := NoSlash(names);
    if noSlash != [] then
      assert noSlash[0] in noSlash;
      noSlash
    else if names == [] then []
    else
      LenLeOrder();
      forall x | x in names ensures LenLe(Min(names, LenLe), x) {
        MinLeast(names, LenLe, x);
      }
      [Min(names, LenLe)]
  }

  /** Filtering suggestions a second time changes nothing. */
  lemma FilterSlashSuggestionsIdempotent(names: seq<string>)
    ensures FilterSlashSuggestions(FilterSlashSuggestions(names)) == FilterSlashSuggestions(names)
  {
    var r := FilterSlashSuggestions(names);
    NoSlashMembers(names);
    NoSlashMembers(r);
    if exists x :: x in names && '/' !in x {
      assert r != [] && '/' !in r[0] by {
        var x :| x in names && '/' !in x;
        assert x in NoSlash(names);
      }
    } else if names != [] {
      assert NoSlash(r) == [];
    }
  }

  /** The (root, name) pairs that `choose_representatives_by_root` groups, skipping names
      without a root. */
  function RootPairs(names: seq<string>): (r: seq<(string, string)>)
    ensures forall p :: p in r <==> p.1 in names && p.0 == ChordRoot(p.1) && p.0 != []
  {
    if names == [] then []
    else
      var init := names[..|names| - 1];
      var n := names[|names| - 1];
      assert names == init + [n];
      RootPairs(init) + (if ChordRoot(n) != [] then [(ChordRoot(n), n)] else [])
  }

  /** One pick per group: the shortest slash-free name of each group. */
  function Picks(groups: Dict<string, seq<string>>): (r: seq<string>)
    requires forall k :: 0 <= k < |groups| ==> groups[k].1 != []
    ensures |r| == |groups| && forall k :: 0 <= k < |groups| ==> r[k] == ShortestNoSlash(groups[k].1)
  {
    MapToSeq(groups, ShortestNoSlash)
  }

  lemma RootPairsSnoc(names: seq<string>, i: int)
    requires 0 <= i < |names|
    ensures RootPairs(names[..i + 1]) ==
      RootPairs(names[..i]) + (if ChordRoot(names[i]) != [] then [(ChordRoot(names[i]), names[i])] else [])
  {
    assert names[..i + 1][..i] == names[..i];
  }

  /** Every group of `GroupBy(RootPairs(names))` is non-empty. */
  lemma RootGroupsNonEmpty(names: seq<string>)
    ensures forall k :: 0 <= k < |GroupBy(RootPairs(names))| ==> GroupBy(RootPairs(names))[k].1 != []
  {
    var ps := RootPairs(names);
    forall k | 0 <= k < |GroupBy(ps)| ensures GroupBy(ps)[k].1 != [] {
      GroupByEntry(ps, k);
    }
  }

  /** The value of `choose_representatives_by_root`: names grouped by root in order of first
      appearance, the shortest slash-free name of each group, sorted by `_name_pref_key`. */
  function RepsByRoot(names: seq<string>): seq<string> {
    if names == [] then []
    else
      RootGroupsNonEmpty(names);
      Sort(Picks(GroupBy(RootPairs(names))), PrefLe)
  }

  /** `choose_representatives_by_root`: fills the by-root dictionary with
      `setdefault(r, []).append(name)`, picks one name per root, then sorts. */
  method ChooseRepresentativesByRoot(names: seq<string>) returns (reps: seq<string>)
    ensures reps == RepsByRoot(names)
  {
    if |names| == 0 {
      return [];
    }
    var byRoot := GroupByRoot(names);
    RootGroupsNonEmpty(names);
    reps := PickEach(byRoot);
    reps := Sort(reps, PrefLe);
  }

  /** The first loop of `choose_representatives_by_root`: names without a root are skipped. */
  method GroupByRoot(names: seq<string>) returns (byRoot: Dict<string, seq<string>>)
    ensures byRoot == GroupBy(RootPairs(names))
  {
    byRoot := [];
    for i := 0 to |names|
      invariant byRoot == GroupBy(RootPairs(names[..i]))
    {
      RootPairsSnoc(names, i);
      var r := ChordRoot(names[i]);
      if r != [] {
        GroupBySnoc(RootPairs(names[..i]), r, names[i]);
        byRoot := AppendTo(byRoot, r, names[i]);
        assert byRoot == GroupBy(RootPairs(names[..i]) + [(r, names[i])]);
      } else {
        assert RootPairs(names[..i + 1]) == RootPairs(names[..i]);
      }
    }
    assert names[..|names|] == names;
  }

  /** The second loop of `choose_representatives_by_root`: one pick per group, in the
      dictionary's order. */
  method PickEach(byRoot: Dict<string, seq<string>>) returns (reps: seq<string>)
    requires forall k :: 0 <= k < |byRoot| ==> byRoot[k].1 != []
    ensures reps == Picks(byRoot)
  {
    reps := [];
    for j := 0 to |byRoot|
      invariant reps == MapToSeq(byRoot[..j], ShortestNoSlash)
    {
      MapToSeqSnoc(byRoot, ShortestNoSlash, j);
      reps := reps + [ShortestNoSlash(byRoot[j].1)];
    }
    assert byRoot[..|byRoot|] == byRoot;
  }

  /** The pick of group k has the group's root and is the shortest slash-free name with it. */
  lemma PickOfGroup(names: seq<string>, k: int)
    requires 0 <= k < |GroupBy(RootPairs(names))|
    ensures GroupBy(RootPairs(names))[k].1 != []
    ensures var g := GroupBy(RootPairs(names)); var x := ShortestNoSlash(g[k].1);
      x in names && ChordRoot(x) == g[k].0 && g[k].0 != [] &&
      forall y :: y in names && ChordRoot(y) == g[k].0 ==> y in g[k].1
  {
    var ps := RootPairs(names);
    var g := GroupBy(ps);
    GroupByEntry(ps, k);
    var x := ShortestNoSlash(g[k].1);
    BucketMembers(ps, g[k].0, x);
    forall y | y in names && ChordRoot(y) == g[k].0 ensures y in g[k].1 {
      BucketMembers(ps, g[k].0, y);
    }
  }

  /** `choose_representatives_by_root` returns its names sorted by the preference key. */
  lemma RepsByRootSorted(names: seq<string>)
    ensures Sorted(RepsByRoot(names), PrefLe)
  {
    if names != [] {
      RootGroupsNonEmpty(names);
      PrefLeOrder();
      SortSorted(Picks(GroupBy(RootPairs(names))), PrefLe);
    }
  }

  /** Every returned name is an input name with a root, and every root of an input name
      is the root of a returned name. */
  lemma RepsByRootCoversRoots(names: seq<string>)
    ensures forall x :: x in RepsByRoot(names) ==> x in names && ChordRoot(x) != []
    ensures forall n :: n in names && ChordRoot(n) != [] ==> exists x :: x in RepsByRoot(names) && ChordRoot(x) == ChordRoot(n)
  {
    forall x | x in RepsByRoot(names) ensures x in names && ChordRoot(x) != [] {
      RepFromInput(names, x);
    }
    forall n | n in names && ChordRoot(n) != [] ensures exists x :: x in RepsByRoot(names) && ChordRoot(x) == ChordRoot(n) {
      RootCovered(names, n);
    }
  }

  /** For a non-empty input, the result is the sorted picks of the root groups. */
  lemma RepsByRootUnfold(names: seq<string>)
    requires names != []
    ensures forall k :: 0 <= k < |GroupBy(RootPairs(names))| ==> GroupBy(RootPairs(names))[k].1 != []
    ensures RepsByRoot(names) == Sort(Picks(GroupBy(RootPairs(names))), PrefLe)
    ensures forall x :: x in RepsByRoot(names) <==> x in Picks(GroupBy(RootPairs(names)))
  {
    RootGroupsNonEmpty(names);
    SortMembers(Picks(GroupBy(RootPairs(names))), PrefLe);
  }

  lemma RepFromInput(names: seq<string>, x: string)
    requires x in RepsByRoot(names)
    ensures x in names && ChordRoot(x) != []
  {
    RepsByRootUnfold(names);
    var picks := Picks(GroupBy(RootPairs(names)));
    var k :| 0 <= k < |picks| && picks[k] == x;
    PickOfGroup(names, k);
  }

  lemma RootCovered(names: seq<string>, n: string)
    requires n in names && ChordRoot(n) != []
    ensures exists x :: x in RepsByRoot(names) && ChordRoot(x) == ChordRoot(n)
  {
    var ps := RootPairs(names);
    assert (ChordRoot(n), n) in ps;
    var j :| 0 <= j < |ps| && ps[j] == (ChordRoot(n), n);
    var k := GroupOf(ps, j);
    RepsByRootUnfold(names);
    var picks := Picks(GroupBy(ps));
    PickOfGroup(names, k);
    var x := picks[k];
    assert x in picks;
    assert x in RepsByRoot(names) && ChordRoot(x) == ChordRoot(n);
  }

  /** No two returned names share a root. */
  lemma RepsByRootDistinctRoots(names: seq<string>)
    ensures DistinctBy(RepsByRoot(names), ChordRoot)
  {
    if names != [] {
      var ps := RootPairs(names);
      var g := GroupBy(ps);
      RootGroupsNonEmpty(names);
      var picks := Picks(g);
      GroupByContents(ps);
      forall i, j | 0 <= i < j < |picks| ensures ChordRoot(picks[i]) != ChordRoot(picks[j]) {
        PickOfGroup(names, i);
        PickOfGroup(names, j);
      }
      SortDistinctBy(picks, PrefLe, ChordRoot);
    }
  }

  /** Each representative is the shortest name among those with its root, slash-free
      whenever one of them is. */
  lemma RepsByRootShortest(names: seq<string>, x: string, y: string)
    requires x in RepsByRoot(names) && y in names && ChordRoot(y) == ChordRoot(x)
    ensures '/' !in y ==> '/' !in x
    ensures '/' !in y || '/' in x ==> LenLe(x, y)
  {
    RepsByRootUnfold(names);
    var g := GroupBy(RootPairs(names));
    var picks := Picks(g);
    var k :| 0 <= k < |picks| && picks[k] == x;
    PickOfGroup(names, k);
    var grp := g[k].1;
    ShortestNoSlashLeast(grp);
    assert y in grp && x == ShortestNoSlash(grp);
  }

  /** `choose_representatives_by_root(names) or [choose_representative(names)]`: fails only
      on an empty list; otherwise a non-empty selection of the names. */
  function RepsOrRepresentative(names: seq<string>): (r: Result<seq<string>>)
    ensures r.Ok? <==> names != []
    ensures r.Err? ==> r.error == ValueError
    ensures r.Ok? ==> r.value != [] && forall x :: x in r.value ==> x in names
  {
    var byRoot := RepsByRoot(names);
    if byRoot != [] then
      RepsByRootMembers(names);
      Ok(byRoot)
    else
      match ChooseRepresentative(names)
      case Ok(n) => Ok([n])
      case Err(e) => Err(e)
  }

  lemma RepsByRootMembers(names: seq<string>)
    ensures forall x :: x in RepsByRoot(names) ==> x in names
  {
    forall x | x in RepsByRoot(names) ensures x in names {
      RepFromInput(names, x);
    }
  }
}

/** Key and triad theory (backend/jass/tonal_tension/theory.py): pitch-class spellings,
    diatonic scales and triads as 12-bit chroma lists, the key-string parser and the choice of
    the tonic, subdominant and dominant prototype triads. */
module Theory {
  import opened Wrappers
  import opened Text
  import opened Dicts
  import opened Chroma

  /** `PC_TO_IDX`: the pitch class of each accepted root spelling, C = 0. */
  const PC_TO_IDX: map<string, int> := map[
    "C" := 0, "C#" := 1, "Db" := 1, "D" := 2, "D#" := 3, "Eb" := 3, "E" := 4, "Fb" := 4,
    "E#" := 5, "F" := 5, "F#" := 6, "Gb" := 6, "G" := 7, "G#" := 8, "Ab" := 8, "A" := 9,
    "A#" := 10, "Bb" := 10, "B" := 11, "Cb" := 11, "B#" := 0]

  const MAJOR_INTERVALS: seq<int> := [0, 2, 4, 5, 7, 9, 11]
  const MINOR_INTERVALS: seq<int> := [0, 2, 3, 5, 7, 8, 10]

  /** Diatonic triad quality per scale degree (offset from the tonic). */
  const MAJOR_TRIAD_MAP: map<int, string> := map[
    0 := "major", 2 := "minor", 4 := "minor", 5 := "major", 7 := "major", 9 := "minor", 11 := "diminished"]
  const MINOR_TRIAD_MAP: map<int, string> := map[
    0 := "minor", 2 := "diminished", 3 := "major", 5 := "minor", 7 := "minor", 8 := "major", 10 := "major"]

  /** Every spelling names a pitch class in [0, 12), and enharmonic spellings agree. */
  lemma PcToIdxFacts()
    ensures forall name :: name in PC_TO_IDX ==> 0 <= PC_TO_IDX[name] < 12
    ensures PC_TO_IDX["C#"] == PC_TO_IDX["Db"] && PC_TO_IDX["E"] == PC_TO_IDX["Fb"]
    ensures PC_TO_IDX["F"] == PC_TO_IDX["E#"] && PC_TO_IDX["B"] == PC_TO_IDX["Cb"]
    ensures PC_TO_IDX["C"] == PC_TO_IDX["B#"]
  {
  }

  /** A letter A-G, optionally followed by '#' or 'b'. */
  predicate IsRootSpelling(s: string) {
    1 <= |s| <= 2 && 'A' <= s[0] <= 'G' && (|s| == 2 ==> s[1] == '#' || s[1] == 'b')
  }

  /** The spellings `PC_TO_IDX` knows are exactly the 21 letters with an optional sharp or
      flat. */
  lemma KnownRootIff(s: string)
    ensures s in PC_TO_IDX <==> IsRootSpelling(s)
  {
    if IsRootSpelling(s) {
      if |s| == 1 {
        assert s == [s[0]];
      } else {
        assert s == [s[0], s[1]];
      }
    }
  }

  /** A root spelling holds no whitespace. */
  lemma RootNoSpace(root: string)
    requires IsRootSpelling(root)
    ensures root != [] && forall c :: c in root ==> !IsSpace(c)
  {
  }

  /** The scale degrees of each triad map are exactly the intervals of its scale. */
  lemma TriadMapKeys()
    ensures MAJOR_TRIAD_MAP.Keys == set iv | iv in MAJOR_INTERVALS
    ensures MINOR_TRIAD_MAP.Keys == set iv | iv in MINOR_INTERVALS
  {
  }

  /** The interval table inside `triad_chroma`; an unknown quality is a `KeyError`. */
  function QualityIntervals(quality: string): (r: Result<seq<int>>)
    ensures r.Err? ==> r.error == KeyError
    ensures r.Ok? <==> quality in {"major", "minor", "diminished", "augmented"}
    ensures r.Ok? ==> |r.value| == 3 && r.value[0] == 0
  {
    if quality == "major" then Ok([0, 4, 7])
    else if quality == "minor" then Ok([0, 3, 7])
    else if quality == "diminished" then Ok([0, 3, 6])
    else if quality == "augmented" then Ok([0, 4, 8])
    else Err(KeyError)
  }

  /** The list `bits = [0] * 12` holds after `bits[(root + iv) % 12] = 1` for each interval
      in turn. */
  function IntervalChroma(root: int, intervals: seq<int>): (r: seq<int>)
    ensures IsChroma(r)
    decreases |intervals|
  {
    if intervals == [] then seq(12, _ => 0)
    else
      var n := |intervals| - 1;
      IntervalChroma(root, intervals[..n])[(root + intervals[n]) % 12 := 1]
  }

  /** Pitch class i is set exactly when some interval, added to the root, lands on it. */
  lemma {:induction false} IntervalChromaHits(root: int, intervals: seq<int>, i: int)
    requires 0 <= i < 12
    ensures IntervalChroma(root, intervals)[i] == 1 <==> exists iv :: iv in intervals && (root + iv) % 12 == i
    decreases |intervals|
  {
    if intervals != [] {
      var n := |intervals| - 1;
      var init := intervals[..n];
      IntervalChromaHits(root, init, i);
      assert intervals == init + [intervals[n]];
      assert forall iv :: iv in intervals <==> iv in init || iv == intervals[n];
      if (root + intervals[n]) % 12 == i {
        assert intervals[n] in intervals;
      }
    }
  }

  /** The loop shared by `triad_chroma` and `key_chroma`: start from twelve zeros and set
      `bits[(root + iv) % 12] = 1` for each interval. */
  method SetIntervalBits(root: int, intervals: seq<int>) returns (bits: seq<int>)
    ensures bits == IntervalChroma(root, intervals)
  {
    bits := seq(12, _ => 0);
    for j := 0 to |intervals|
      invariant bits == IntervalChroma(root, intervals[..j])
    {
      assert intervals[..j + 1][..j] == intervals[..j];
      bits := bits[(root + intervals[j]) % 12 := 1];
    }
    assert intervals[..|intervals|] == intervals;
  }

  /** `triad_chroma`: a `KeyError` for an unknown quality. */
  method TriadChroma(rootPc: int, quality: string) returns (r: Result<seq<int>>)
    ensures QualityIntervals(quality).Err? ==> r == Err(KeyError)
    ensures QualityIntervals(quality).Ok? ==> r == Ok(IntervalChroma(rootPc, QualityIntervals(quality).value))
  {
    var intervals := QualityIntervals(quality);
    if intervals.Err? {
      return Err(KeyError);
    }
    var bits := SetIntervalBits(rootPc, intervals.value);
    return Ok(bits);
  }

  /** Rotation of a chroma list by k pitch classes: entry i moves to (i + k) mod 12. */
  function Rotate(bits: seq<int>, k: int): (r: seq<int>)
    requires |bits| == 12
    ensures |r| == 12 && forall i :: 0 <= i < 12 ==> r[i] == bits[(i - k) % 12]
  {
    var m := k % 12;
    bits[12 - m..] + bits[..12 - m]
  }

  /** Congruence modulo 12 is divisibility of the difference. */
  lemma ModCongruence(x: int, y: int)
    ensures x % 12 == y % 12 <==> (x - y) % 12 == 0
  {
    var qx, qy := x / 12, y / 12;
    assert x == 12 * qx + x % 12;
    assert y == 12 * qy + y % 12;
    assert x - y == 12 * (qx - qy) + (x % 12 - y % 12);
  }

  /** (root + iv) mod 12 hits i exactly when iv mod 12 hits (i - root) mod 12. */
  lemma ModShift(root: int, iv: int, i: int)
    requires 0 <= i < 12
    ensures (root + iv) % 12 == i <==> iv % 12 == (i - root) % 12
  {
    ModCongruence(root + iv, i);
    ModCongruence(iv, i - root);
    assert (root + iv) - i == iv - (i - root);
  }

  /** Entry i after transposing by `root` is entry (i - root) mod 12 of the C pattern. */
  lemma IntervalChromaRotatesAt(root: int, intervals: seq<int>, i: int)
    requires 0 <= i < 12
    ensures IntervalChroma(root, intervals)[i] == IntervalChroma(0, intervals)[(i - root) % 12]
  {
    var j := (i - root) % 12;
    IntervalChromaHits(root, intervals, i);
    IntervalChromaHits(0, intervals, j);
    if IntervalChroma(root, intervals)[i] == 1 {
      var iv :| iv in intervals && (root + iv) % 12 == i;
      ModShift(root, iv, i);
      assert (0 + iv) % 12 == j;
    }
    if IntervalChroma(0, intervals)[j] == 1 {
      var iv :| iv in intervals && (0 + iv) % 12 == j;
      ModShift(root, iv, i);
    }
  }

  /** Transposing the root rotates the chroma list: the pattern for any root is the
      pattern for C rotated by the root. */
  lemma IntervalChromaRotates(root: int, intervals: seq<int>)
    ensures IntervalChroma(root, intervals) == Rotate(IntervalChroma(0, intervals), root)
  {
    forall i | 0 <= i < 12 ensures IntervalChroma(root, intervals)[i] == Rotate(IntervalChroma(0, intervals), root)[i] {
      IntervalChromaRotatesAt(root, intervals, i);
    }
  }

  /** The number of entries equal to 1. */
  function Ones(bits: seq<int>): nat {
    if bits == [] then 0 else (if bits[0] == 1 then 1 else 0) + Ones(bits[1..])
  }

  lemma {:induction false} OnesConcat(a: seq<int>, b: seq<int>)
    ensures Ones(a + b) == Ones(a) + Ones(b)
  {
    if a == [] {
      assert a + b == b;
    } else {
      assert (a + b)[0] == a[0] && (a + b)[1..] == a[1..] + b;
      OnesConcat(a[1..], b);
    }
  }

  /** Rotation permutes the entries, so it keeps the number of ones. */
  lemma RotateOnes(bits: seq<int>, k: int)
    requires |bits| == 12
    ensures Ones(Rotate(bits, k)) == Ones(bits)
  {
    var m := k % 12;
    OnesConcat(bits[12 - m..], bits[..12 - m]);
    OnesConcat(bits[..12 - m], bits[12 - m..]);
    assert bits == bits[..12 - m] + bits[12 - m..];
  }

  /** The three steps of the loop on a three-interval list. */
  lemma IntervalChroma3(root: int, ivs: seq<int>)
    requires |ivs| == 3
    ensures IntervalChroma(root, ivs) ==
      seq(12, _ => 0)[(root + ivs[0]) % 12 := 1][(root + ivs[1]) % 12 := 1][(root + ivs[2]) % 12 := 1]
  {
    assert ivs[..2][..1] == ivs[..1] && ivs[..1][..0] == [];
    var z: seq<int> := seq(12, _ => 0);
    assert IntervalChroma(root, ivs[..1]) == z[(root + ivs[0]) % 12 := 1];
    assert IntervalChroma(root, ivs[..2]) == IntervalChroma(root, ivs[..1])[(root + ivs[1]) % 12 := 1];
  }

  /** The C-rooted triad of each quality, and its three ones. */
  lemma TriadAtC()
    ensures IntervalChroma(0, [0, 4, 7]) == [1, 0, 0, 0, 1, 0, 0, 1, 0, 0, 0, 0]
    ensures IntervalChroma(0, [0, 3, 7]) == [1, 0, 0, 1, 0, 0, 0, 1, 0, 0, 0, 0]
    ensures IntervalChroma(0, [0, 3, 6]) == [1, 0, 0, 1, 0, 0, 1, 0, 0, 0, 0, 0]
    ensures IntervalChroma(0, [0, 4, 8]) == [1, 0, 0, 0, 1, 0, 0, 0, 1, 0, 0, 0]
  {
    IntervalChroma3(0, [0, 4, 7]);
    IntervalChroma3(0, [0, 3, 7]);
    IntervalChroma3(0, [0, 3, 6]);
    IntervalChroma3(0, [0, 4, 8]);
  }

  lemma TriadPatternOnes()
    ensures Ones([1, 0, 0, 0, 1, 0, 0, 1, 0, 0, 0, 0]) == 3
    ensures Ones([1, 0, 0, 1, 0, 0, 0, 1, 0, 0, 0, 0]) == 3
    ensures Ones([1, 0, 0, 1, 0, 0, 1, 0, 0, 0, 0, 0]) == 3
    ensures Ones([1, 0, 0, 0, 1, 0, 0, 0, 1, 0, 0, 0]) == 3
  {
    MajorTriadOnes();
    MinorTriadOnes();
    DiminishedTriadOnes();
    AugmentedTriadOnes();
  }

  lemma MajorTriadOnes()
    ensures Ones([1, 0, 0, 0, 1, 0, 0, 1, 0, 0, 0, 0]) == 3
  {
  }

  lemma MinorTriadOnes()
    ensures Ones([1, 0, 0, 1, 0, 0, 0, 1, 0, 0, 0, 0]) == 3
  {
  }

  lemma DiminishedTriadOnes()
    ensures Ones([1, 0, 0, 1, 0, 0, 1, 0, 0, 0, 0, 0]) == 3
  {
  }

  lemma AugmentedTriadOnes()
    ensures Ones([1, 0, 0, 0, 1, 0, 0, 0, 1, 0, 0, 0]) == 3
  {
  }

  /** `triad_chroma` sets exactly three bits, at `(root_pc + iv) mod 12` for the quality's
      intervals, the root's own bit among them. */
  lemma TriadHasThreeNotes(rootPc: int, quality: string)
    requires QualityIntervals(quality).Ok?
    ensures Ones(IntervalChroma(rootPc, QualityIntervals(quality).value)) == 3
    ensures IntervalChroma(rootPc, QualityIntervals(quality).value)[rootPc % 12] == 1
  {
    var ivs := QualityIntervals(quality).value;
    IntervalChromaRotates(rootPc, ivs);
    TriadAtC();
    TriadPatternOnes();
    RotateOnes(IntervalChroma(0, ivs), rootPc);
    IntervalChromaHits(rootPc, ivs, rootPc % 12);
    assert 0 in ivs;
  }

  /** One more step of the loop. */
  lemma IntervalChromaPrefix(root: int, ivs: seq<int>, k: int)
    requires 0 <= k < |ivs|
    ensures IntervalChroma(root, ivs[..k + 1]) == IntervalChroma(root, ivs[..k])[(root + ivs[k]) % 12 := 1]
  {
    assert ivs[..k + 1][..k] == ivs[..k];
  }

  /** The seven-step loop, unrolled. */
  lemma IntervalChroma7(root: int, ivs: seq<int>)
    requires |ivs| == 7
    ensures IntervalChroma(root, ivs) ==
      seq(12, _ => 0)[(root + ivs[0]) % 12 := 1][(root + ivs[1]) % 12 := 1][(root + ivs[2]) % 12 := 1]
        [(root + ivs[3]) % 12 := 1][(root + ivs[4]) % 12 := 1][(root + ivs[5]) % 12 := 1][(root + ivs[6]) % 12 := 1]
  {
    assert ivs[..0] == [] && ivs[..7] == ivs;
    IntervalChromaPrefix(root, ivs, 0);
    IntervalChromaPrefix(root, ivs, 1);
    IntervalChromaPrefix(root, ivs, 2);
    IntervalChromaPrefix(root, ivs, 3);
    IntervalChromaPrefix(root, ivs, 4);
    IntervalChromaPrefix(root, ivs, 5);
    IntervalChromaPrefix(root, ivs, 6);
  }

  /** The intervals `key_chroma` uses: the major scale for mode "major", the natural minor
      scale for any other mode. */
  function ScaleIntervals(mode: string): (r: seq<int>)
    ensures |r| == 7 && r[0] == 0
  {
    if mode == "major" then MAJOR_INTERVALS else MINOR_INTERVALS
  }

  /** `key_chroma`: a `KeyError` for a root spelling outside `PC_TO_IDX`. */
  method KeyChroma(root: string, mode: string) returns (r: Result<seq<int>>)
    ensures root !in PC_TO_IDX ==> r == Err(KeyError)
    ensures root in PC_TO_IDX ==> r == Ok(IntervalChroma(PC_TO_IDX[root], ScaleIntervals(mode)))
  {
    if root !in PC_TO_IDX {
      return Err(KeyError);
    }
    var rootIdx := PC_TO_IDX[root];
    var intervals := if mode == "major" then MAJOR_INTERVALS else MINOR_INTERVALS;
    var bits := SetIntervalBits(rootIdx, intervals);
    return Ok(bits);
  }

  /** The C major and C minor scales. */
  lemma ScaleAtC()
    ensures IntervalChroma(0, MAJOR_INTERVALS) == [1, 0, 1, 0, 1, 1, 0, 1, 0, 1, 0, 1]
    ensures IntervalChroma(0, MINOR_INTERVALS) == [1, 0, 1, 1, 0, 1, 0, 1, 1, 0, 1, 0]
  {
    IntervalChroma7(0, MAJOR_INTERVALS);
    IntervalChroma7(0, MINOR_INTERVALS);
  }

  lemma ScalePatternOnes()
    ensures Ones([1, 0, 1, 0, 1, 1, 0, 1, 0, 1, 0, 1]) == 7
    ensures Ones([1, 0, 1, 1, 0, 1, 0, 1, 1, 0, 1, 0]) == 7
  {
    MajorScaleOnes();
    MinorScaleOnes();
  }

  lemma MajorScaleOnes()
    ensures Ones([1, 0, 1, 0, 1, 1, 0, 1, 0, 1, 0, 1]) == 7
  {
  }

  lemma MinorScaleOnes()
    ensures Ones([1, 0, 1, 1, 0, 1, 0, 1, 1, 0, 1, 0]) == 7
  {
  }

  /** `key_chroma` sets exactly seven bits, the root's own bit among them. */
  lemma KeyHasSevenNotes(root: string, mode: string)
    requires root in PC_TO_IDX
    ensures Ones(IntervalChroma(PC_TO_IDX[root], ScaleIntervals(mode))) == 7
    ensures IntervalChroma(PC_TO_IDX[root], ScaleIntervals(mode))[PC_TO_IDX[root]] == 1
  {
    var r := PC_TO_IDX[root];
    var ivs := ScaleIntervals(mode);
    PcToIdxFacts();
    IntervalChromaRotates(r, ivs);
    ScaleAtC();
    ScalePatternOnes();
    RotateOnes(IntervalChroma(0, ivs), r);
    IntervalChromaHits(r, ivs, r);
    assert ivs[0] == 0 && 0 in ivs;
  }

  /** Transposing the key rotates its chroma: the key of a root with index r is the key of C
      in the same mode, rotated by r. */
  lemma KeyTransposes(root: string, mode: string)
    requires root in PC_TO_IDX
    ensures IntervalChroma(PC_TO_IDX[root], ScaleIntervals(mode)) ==
      Rotate(IntervalChroma(PC_TO_IDX["C"], ScaleIntervals(mode)), PC_TO_IDX[root])
  {
    IntervalChromaRotates(PC_TO_IDX[root], ScaleIntervals(mode));
  }

  /** The mode word of the two-word key form, already lower-cased. */
  function ModeWord(w: string): (r: Option<string>)
    ensures r.Some? <==> w in {"major", "maj", "minor", "min"}
    ensures r.Some? ==> (r.value == "major" <==> w in {"major", "maj"})
    ensures r.Some? ==> r.value in {"major", "minor"}
  {
    if w == "major" || w == "maj" then Some("major")
    else if w == "minor" || w == "min" then Some("minor")
    else None
  }

  /** The two-word form "<root> <mode word>", tried first; its root is not checked. */
  function TwoWordKey(parts: seq<string>): (r: Option<(string, string)>)
    ensures r.Some? <==> |parts| == 2 && Lower(parts[1]) in {"major", "maj", "minor", "min"}
    ensures r.Some? ==> r.value.0 == parts[0] && r.value.1 in {"major", "minor"}
  {
    if |parts| == 2 && ModeWord(Lower(parts[1])).Some? then Some((parts[0], ModeWord(Lower(parts[1])).value))
    else None
  }

  /** The remaining forms, on the stripped text: a known root followed by "min" or "maj"
      (compared in lower case), a known root followed by "m", a bare known root. The table of
      known spellings is a parameter so that proofs about the parse do not enumerate it. */
  function SuffixKey(s: string, known: map<string, int>): (r: Result<(string, string)>)
    ensures r.Err? ==> r.error == ValueError
    ensures r.Ok? ==> r.value.0 in known && r.value.1 in {"major", "minor"}
  {
    if EndsWith(Lower(s), "min") && s[..|s| - 3] in known then Ok((s[..|s| - 3], "minor"))
    else if EndsWith(Lower(s), "maj") && s[..|s| - 3] in known then Ok((s[..|s| - 3], "major"))
    else if EndsWith(s, "m") && |s| >= 2 && s[..|s| - 1] in known then Ok((s[..|s| - 1], "minor"))
    else if s in known then Ok((s, "major"))
    else Err(ValueError)
  }

  /** `parse_key` against a table of root spellings. */
  function ParseKeyIn(keyStr: string, known: map<string, int>): (r: Result<(string, string)>)
    ensures r.Err? ==> r.error == ValueError
    ensures r.Ok? ==> r.value.1 == "major" || r.value.1 == "minor"
    ensures r.Ok? && r.value.0 !in known ==>
      |Words(Strip(keyStr))| == 2 && r.value.0 == Words(Strip(keyStr))[0]
  {
    var s := Strip(keyStr);
    var twoWord := TwoWordKey(Words(s));
    if twoWord.Some? then Ok(twoWord.value) else SuffixKey(s, known)
  }

  /** `parse_key`: the mode is always "major" or "minor", the only error is a `ValueError`,
      and a root outside `PC_TO_IDX` comes only from the two-word form. */
  function ParseKey(keyStr: string): (r: Result<(string, string)>)
    ensures r.Err? ==> r.error == ValueError
    ensures r.Ok? ==> r.value.1 == "major" || r.value.1 == "minor"
    ensures r.Ok? && r.value.0 !in PC_TO_IDX ==>
      |Words(Strip(keyStr))| == 2 && r.value.0 == Words(Strip(keyStr))[0]
  {
    ParseKeyIn(keyStr, PC_TO_IDX)
  }

  /** Whitespace around the key text does not change the result. */
  lemma ParseKeyStrips(keyStr: string, known: map<string, int>)
    ensures ParseKeyIn(keyStr, known) == ParseKeyIn(Strip(keyStr), known)
  {
    StripIdempotent(keyStr);
  }

  /** "<root> <mode word>" gives back the root, whatever it is, and the mode the word names
      in any letter case: "major"/"maj" or "minor"/"min". */
  lemma ParseKeyTwoWords(root: string, w: string, known: map<string, int>)
    requires root != [] && forall c :: c in root ==> !IsSpace(c)
    requires w != [] && forall c :: c in w ==> !IsSpace(c)
    requires ModeWord(Lower(w)).Some?
    ensures ParseKeyIn(root + " " + w, known) == Ok((root, ModeWord(Lower(w)).value))
  {
    var s := root + " " + w;
    assert s == root + ([' '] + w);
    assert s[0] == root[0] && s[|s| - 1] == w[|w| - 1];
    StripUnchanged(s);
    WordsPrefix(root, [' '] + w);
    WordsSpace(' ', w);
    WordsSingle(w);
  }

  /** The lower-case mode words are their own `lower()`. */
  lemma LowerModeWord(w: string)
    requires w in {"major", "maj", "minor", "min"}
    ensures Lower(w) == w && forall c :: c in w ==> !IsSpace(c)
  {
    forall k | 0 <= k < |w| ensures Lower(w)[k] == w[k] {
      assert 'a' <= w[k] <= 'z';
    }
  }

  /** "<root> <mode word>" with a lower-case mode word. */
  lemma ParseKeyModeWord(root: string, w: string, known: map<string, int>)
    requires root != [] && forall c :: c in root ==> !IsSpace(c)
    requires w in {"major", "maj", "minor", "min"}
    ensures ParseKeyIn(root + " " + w, known) == Ok((root, if w in {"major", "maj"} then "major" else "minor"))
  {
    LowerModeWord(w);
    ParseKeyTwoWords(root, w, known);
  }

  /** A key text of one word is read by the one-word forms alone. */
  lemma ParseKeyOneWord(s: string, known: map<string, int>)
    requires s != [] && forall c :: c in s ==> !IsSpace(c)
    ensures ParseKeyIn(s, known) == SuffixKey(s, known)
  {
    WordsSingle(s);
  }

  /** The lower-cased text ends with the lower-case suffix that was appended. */
  lemma LowerSuffix(root: string, suffix: string)
    requires suffix == "min" || suffix == "maj"
    ensures Lower(root + suffix)[|root|..] == suffix
  {
    var s := root + suffix;
    forall k | 0 <= k < 3 ensures Lower(s)[|root| + k] == suffix[k] {
      assert s[|root| + k] == suffix[k];
    }
  }

  /** A known root on its own is its major key. */
  lemma ParseKeyBareRoot(root: string, known: map<string, int>)
    requires IsRootSpelling(root) && root in known
    ensures ParseKeyIn(root, known) == Ok((root, "major"))
  {
    RootNoSpace(root);
    ParseKeyOneWord(root, known);
    BareSuffixKey(root, known);
  }

  /** A root spelling has no "min", "maj" or "m" suffix, so the suffix forms read it bare. */
  lemma BareSuffixKey(root: string, known: map<string, int>)
    requires IsRootSpelling(root) && root in known
    ensures SuffixKey(root, known) == Ok((root, "major"))
  {
    assert root[|root| - 1..] == [root[|root| - 1]];
    assert !EndsWith(root, "m");
  }

  /** A known root followed by "m" is its minor key. */
  lemma ParseKeyMinorM(root: string, known: map<string, int>)
    requires IsRootSpelling(root) && root in known
    ensures ParseKeyIn(root + "m", known) == Ok((root, "minor"))
  {
    var s := root + "m";
    ParseKeyOneWord(s, known);
    var low := Lower(s);
    assert low[|s| - 1] == 'm';
    assert !EndsWith(low, "min") && !EndsWith(low, "maj") by {
      if |s| >= 3 {
        assert low[|s| - 3..][2] == low[|s| - 1];
      }
    }
    assert s[..|s| - 1] == root;
  }

  /** A known root followed by "min" is its minor key. */
  lemma ParseKeyMin(root: string, known: map<string, int>)
    requires IsRootSpelling(root) && root in known
    ensures ParseKeyIn(root + "min", known) == Ok((root, "minor"))
  {
    SuffixedNoSpace(root, "min");
    MinSuffixKey(root, known);
    ParseKeyOneWord(root + "min", known);
  }

  /** A root spelling followed by a lower-case suffix is one word. */
  lemma SuffixedNoSpace(root: string, suffix: string)
    requires IsRootSpelling(root) && suffix in {"m", "min", "maj"}
    ensures root + suffix != [] && forall c :: c in root + suffix ==> !IsSpace(c)
  {
    RootNoSpace(root);
  }

  /** The suffix forms read a known root followed by "min" as its minor key. */
  lemma MinSuffixKey(root: string, known: map<string, int>)
    requires IsRootSpelling(root) && root in known
    ensures SuffixKey(root + "min", known) == Ok((root, "minor"))
  {
    var s := root + "min";
    LowerSuffix(root, "min");
    assert s[..|s| - 3] == root;
    assert EndsWith(Lower(s), "min");
  }

  /** A known root followed by "maj" is its major key. */
  lemma ParseKeyMaj(root: string, known: map<string, int>)
    requires IsRootSpelling(root) && root in known
    ensures ParseKeyIn(root + "maj", known) == Ok((root, "major"))
  {
    SuffixedNoSpace(root, "maj");
    MajSuffixKey(root, known);
    ParseKeyOneWord(root + "maj", known);
  }

  /** The suffix forms read a known root followed by "maj" as its major key. */
  lemma MajSuffixKey(root: string, known: map<string, int>)
    requires IsRootSpelling(root) && root in known
    ensures SuffixKey(root + "maj", known) == Ok((root, "major"))
  {
    var s := root + "maj";
    LowerSuffix(root, "maj");
    assert s[..|s| - 3] == root;
    assert !EndsWith(Lower(s), "min") by {
      assert Lower(s)[|s| - 3..][2] == 'j';
    }
    assert EndsWith(Lower(s), "maj");
  }

  /** Every spelling of `PC_TO_IDX` round-trips through each key form: bare (major), with
      "m" or "min" (minor), with "maj" (major), and "<root> <mode word>". */
  lemma ParseKeyRoundTrip(root: string)
    requires root in PC_TO_IDX
    ensures ParseKey(root) == Ok((root, "major"))
    ensures ParseKey(root + "m") == Ok((root, "minor"))
    ensures ParseKey(root + "min") == Ok((root, "minor"))
    ensures ParseKey(root + "maj") == Ok((root, "major"))
    ensures ParseKey(root + " " + "major") == Ok((root, "major"))
    ensures ParseKey(root + " " + "minor") == Ok((root, "minor"))
  {
    KnownRootIff(root);
    RootNoSpace(root);
    ParseKeyBareRoot(root, PC_TO_IDX);
    ParseKeyMinorM(root, PC_TO_IDX);
    ParseKeyMin(root, PC_TO_IDX);
    ParseKeyMaj(root, PC_TO_IDX);
    ParseKeyModeWord(root, "major", PC_TO_IDX);
    ParseKeyModeWord(root, "minor", PC_TO_IDX);
  }

  /** The two-word form does not check its root. */
  lemma ParseKeyUncheckedRoot()
    ensures "H" !in PC_TO_IDX && ParseKey("H" + " " + "major") == Ok(("H", "major"))
  {
    KnownRootIff("H");
    ParseKeyModeWord("H", "major", PC_TO_IDX);
  }

  /** A single unknown word is a `ValueError`. */
  lemma ParseKeyRejectsUnknown()
    ensures ParseKey("H") == Err(ValueError)
  {
    ParseKeyOneWord("H", PC_TO_IDX);
    KnownRootIff("H");
  }

  /** Empty key text is a `ValueError`. */
  lemma ParseKeyRejectsEmpty()
    ensures ParseKey("") == Err(ValueError)
  {
    assert Words(Strip("")) == [];
  }

  /** The function names are distinct. */
  lemma DegreeNamesDistinct()
    ensures forall i, j :: 0 <= i < j < |DEGREES| ==> DEGREES[i].0 != DEGREES[j].0
  {
    assert DEGREES[0].0[0] == 't' && DEGREES[1].0[0] == 's' && DEGREES[2].0[0] == 'd';
  }

  /** The three harmonic functions and the scale degree of each one's prototype chord
      (I/IV/V in major, i/iv/v in minor). */
  const DEGREES: seq<(string, int)> := [("tonic", 0), ("subdominant", 5), ("dominant", 7)]

  /** `function_prototypes` reads the major triad map for mode "major", the minor one for any
      other mode. */
  function TriadMap(mode: string): map<int, string> {
    if mode == "major" then MAJOR_TRIAD_MAP else MINOR_TRIAD_MAP
  }

  /** The quality both triad maps give all three prototype degrees of a mode. */
  function PrototypeQuality(mode: string): (q: string)
    ensures QualityIntervals(q).Ok?
  {
    if mode == "major" then "major" else "minor"
  }

  /** The diatonic triads on degrees 0, 5 and 7 have the same quality: major in a major key,
      minor in a minor key. */
  lemma DegreeQualities(mode: string)
    ensures forall k :: 0 <= k < |DEGREES| ==>
      DEGREES[k].1 in TriadMap(mode) && TriadMap(mode)[DEGREES[k].1] == PrototypeQuality(mode)
  {
  }

  /** The prototype chord of harmonic function k for a key whose root has index `rootIdx`. */
  function Prototype(rootIdx: int, mode: string, k: int): (r: seq<int>)
    requires 0 <= k < |DEGREES|
    ensures IsChroma(r)
  {
    IntervalChroma((rootIdx + DEGREES[k].1) % 12, QualityIntervals(PrototypeQuality(mode)).value)
  }

  /** `function_prototypes`, up to the Tonal Interval Space transform of each chord: a
      `KeyError` for an unknown root; otherwise the three functions in order, each mapped to
      the triad on its degree with the quality the triad map gives it. */
  method FunctionPrototypes(root: string, mode: string) returns (r: Result<Dict<string, seq<int>>>)
    ensures root !in PC_TO_IDX ==> r == Err(KeyError)
    ensures root in PC_TO_IDX ==> r.Ok? && KeysOf(r.value) == KeysOf(DEGREES)
    ensures root in PC_TO_IDX ==> forall k :: 0 <= k < |DEGREES| ==>
      Get(r.value, DEGREES[k].0) == Some(Prototype(PC_TO_IDX[root], mode, k))
  {
    if root !in PC_TO_IDX {
      return Err(KeyError);
    }
    var rootIdx := PC_TO_IDX[root];
    var triadMap := if mode == "major" then MAJOR_TRIAD_MAP else MINOR_TRIAD_MAP;
    DegreeQualities(mode);
    DegreeNamesDistinct();
    var out: Dict<string, seq<int>> := [];
    for k := 0 to |DEGREES|
      invariant KeysOf(out) == KeysOf(DEGREES)[..k]
      invariant forall j :: 0 <= j < k ==> Get(out, DEGREES[j].0) == Some(Prototype(rootIdx, mode, j))
    {
      var (name, deg) := DEGREES[k];
      var pc := (rootIdx + deg) % 12;
      var quality := triadMap[deg];
      assert quality == PrototypeQuality(mode);
      var bits := TriadChroma(pc, quality);
      assert bits == Ok(Prototype(rootIdx, mode, k));
      PutPrototype(out, rootIdx, mode, k);
      out := Put(out, name, bits.value);
    }
    return Ok(out);
  }

  /** Storing prototype k after the first k keeps the loop invariant of `FunctionPrototypes`. */
  lemma PutPrototype(out: Dict<string, seq<int>>, rootIdx: int, mode: string, k: int)
    requires 0 <= k < |DEGREES| && KeysOf(out) == KeysOf(DEGREES)[..k]
    requires forall j :: 0 <= j < k ==> Get(out, DEGREES[j].0) == Some(Prototype(rootIdx, mode, j))
    ensures var next := Put(out, DEGREES[k].0, Prototype(rootIdx, mode, k));
      KeysOf(next) == KeysOf(DEGREES)[..k + 1] &&
      forall j :: 0 <= j < k + 1 ==> Get(next, DEGREES[j].0) == Some(Prototype(rootIdx, mode, j))
  {
    DegreeNamesDistinct();
    assert KeysOf(DEGREES)[..k + 1] == KeysOf(DEGREES)[..k] + [DEGREES[k].0];
  }

  /** Adding a multiple of 12 back in does not change a residue. */
  lemma ModAdd(a: int, b: int)
    ensures (a % 12 + b) % 12 == (a + b) % 12
  {
    ModCongruence(a % 12 + b, a + b);
    assert a == 12 * (a / 12) + a % 12;
    assert (a % 12 + b) - (a + b) == 12 * (-(a / 12));
  }

  /** Stepping up by `deg` and then by `iv` lands where stepping by their sum does. */
  lemma ShiftResidue(r: int, deg: int, iv: int)
    ensures (r + (deg + iv) % 12) % 12 == ((r + deg) % 12 + iv) % 12
  {
    ModAdd(deg + iv, r);
    ModAdd(r + deg, iv);
    assert (deg + iv) % 12 + r == r + (deg + iv) % 12;
    assert deg + iv + r == r + deg + iv;
  }

  /** Each note of a prototype triad, as an interval above the tonic, is a degree of the
      scale. */
  lemma PrototypeIntervalsInScale(mode: string, k: int, iv: int)
    requires 0 <= k < |DEGREES| && iv in QualityIntervals(PrototypeQuality(mode)).value
    ensures (DEGREES[k].1 + iv) % 12 in ScaleIntervals(mode)
  {
  }

  /** The prototypes are diatonic: every note of each prototype chord belongs to the key's
      scale as `key_chroma` gives it. */
  lemma PrototypeIsDiatonic(rootIdx: int, mode: string, k: int, i: int)
    requires 0 <= k < |DEGREES| && 0 <= i < 12 && Prototype(rootIdx, mode, k)[i] == 1
    ensures IntervalChroma(rootIdx, ScaleIntervals(mode))[i] == 1
  {
    var deg := DEGREES[k].1;
    var ivs := QualityIntervals(PrototypeQuality(mode)).value;
    var pc := (rootIdx + deg) % 12;
    var iv := IntervalOfHit(pc, ivs, i);
    PrototypeIntervalsInScale(mode, k, iv);
    ShiftResidue(rootIdx, deg, iv);
    HitOfInterval(rootIdx, ScaleIntervals(mode), (deg + iv) % 12, i);
  }

  /** A set bit comes from some interval. */
  lemma IntervalOfHit(root: int, intervals: seq<int>, i: int) returns (iv: int)
    requires 0 <= i < 12 && IntervalChroma(root, intervals)[i] == 1
    ensures iv in intervals && (root + iv) % 12 == i
  {
    IntervalChromaHits(root, intervals, i);
    iv :| iv in intervals && (root + iv) % 12 == i;
  }

  /** Every interval sets its bit. */
  lemma HitOfInterval(root: int, intervals: seq<int>, iv: int, i: int)
    requires 0 <= i < 12 && iv in intervals && (root + iv) % 12 == i
    ensures IntervalChroma(root, intervals)[i] == 1
  {
    IntervalChromaHits(root, intervals, i);
  }

  /** Each prototype is a three-note chord holding its own root, the scale degree it
      stands on. */
  lemma PrototypeHasThreeNotes(rootIdx: int, mode: string, k: int)
    requires 0 <= k < |DEGREES|
    ensures Ones(Prototype(rootIdx, mode, k)) == 3
    ensures Prototype(rootIdx, mode, k)[(rootIdx + DEGREES[k].1) % 12] == 1
  {
    var q := PrototypeQuality(mode);
    var pc := (rootIdx + DEGREES[k].1) % 12;
    assert Prototype(rootIdx, mode, k) == IntervalChroma(pc, QualityIntervals(q).value);
    TriadHasThreeNotes(pc, q);
    ResidueFixed(rootIdx + DEGREES[k].1);
  }

  /** A residue mod 12 is its own residue. */
  lemma ResidueFixed(x: int)
    ensures (x % 12) % 12 == x % 12
  {
    var r := x % 12;
    assert 0 <= r < 12;
  }
}

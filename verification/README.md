# Chord chroma indexing and tonal tension, modelled in Dafny

This project models the discrete core of the chord-suggestion backend. It is an
executable-style model that Dafny checks against contracts:

- **Chroma encodings** (`backend/jass/chroma_index.py`): a chord's pitch-class set as
  twelve 0/1 bits, as a 12-bit mask (bit *i* is pitch class *i*, C = 0) and as a
  12-character bitstring. Also the conversions between them, the note names of a chroma
  and the parsing of user-typed chroma text.
- **Chord names**: the root of a chord name, the preference order between aliases (no
  inversion slash, then shorter, then lexicographic), and the per-root representatives.
- **The chroma index**: the inverted index from mask to sorted chord names, and the
  JSON index file (`ChromaIndexFile`) with its mask/bitstring key formats, its legacy
  layouts and its `to_json_obj`/`from_json_obj` round trip.
- **Music theory tables** (`backend/jass/tonal_tension/theory.py`): the pitch-class table,
  triad and scale chromas, key parsing and the diatonic function prototypes.
- **The TIS index layout** (`backend/jass/tis_index.py`): the rows, the flattened
  representative and alias lists with their offsets, the name-to-row and mask-to-row
  maps, and the 64-character name truncation of the `<U64` arrays. The Tonal Interval
  Space vectors themselves (`tis`, `tis_norm`, `tis_unit`) are left out.
- **Hierarchical tension** (`backend/jass/tonal_tension/hierarchy.py`): leaf regions,
  the span-merging rules (SR·DR, DR·TR, TR·DR), the fold to a single ROOT, the node arena
  with parent links, and the walk that collects the distinct parent heads of the last
  chord.
- **Voice-leading assignment** (`backend/jass/tonal_tension/voice_leading.py`): the
  circular pitch-class distance table, the pitch classes of a chroma, the cost matrix,
  and the two fallbacks used when SciPy is missing. The first is an exhaustive search over
  `itertools.permutations` for n ≤ 8; the second is a greedy scan for larger n.
- **The MIDI chord detector** (`backend/pianomidi/pianomidi/detector.py`): decoding Note
  On/Note Off channel voice messages (MIDI 1.0, "Channel Voice Messages"; Note On with
  velocity 0 is a Note Off), the held-note set, and the chroma and note names reported
  for it.

Python's builtins that the core relies on are modelled once and shared:
- `str.strip`, `split`, `lower`, string order and `int()` in `Text`;
- `list.sort`/`sorted`/`min` in `Sorting`;
- insertion-ordered `dict` and `setdefault(...).append` grouping in `Dicts`;
- exceptions as `Result` values in `Wrappers`.

Exceptions are modelled as `Err` values: `ChromaInputError`, `ValueError`, `KeyError`
and `IndexError`. Floating-point values (distances, costs) are modelled as exact
`real`s.

## Model

| member | source | states |
|---|---|---|
| ChordNames.ChordRoot | backend/jass/chroma_index.py:17-30 | the root is "" exactly for an empty name or a first letter outside A–G after upper-casing; otherwise it is that letter, followed by the second character exactly when that is '#' or 'b' |
| ChordNames.ChordRootIdempotent | backend/jass/chroma_index.py:17-30 | the root of a root is itself |
| ChordNames.PrefLeOrder | backend/jass/chroma_index.py:33-35 | the `_name_pref_key` order (slash-free first, then shorter, then lexicographic) is total and transitive, and only equal names tie |
| ChordNames.LenLeOrder | backend/jass/chroma_index.py:46 | the `(len(n), n)` key is a total, transitive order in which only equal names tie |
| ChordNames.NoSlashMembers | backend/jass/chroma_index.py:44 | the slash-free filter keeps exactly the names without '/' and leaves a slash-free list unchanged |
| ChordNames.ShortestNoSlash | backend/jass/chroma_index.py:44-46 | the pick of a non-empty list is one of its names |
| ChordNames.ShortestNoSlashLeast | backend/jass/chroma_index.py:44-46 | the pick is slash-free whenever a slash-free name exists, and is least by (length, name) among the names of its own kind |
| ChordNames.ChooseShortestNoSlash | backend/jass/chroma_index.py:38-46 | ValueError exactly for an empty list; otherwise a member of the list, slash-free whenever one exists |
| ChordNames.Representative | backend/jass/chroma_index.py:75 | the minimum of a non-empty list under the preference key: a member that precedes every other |
| ChordNames.ChooseRepresentative | backend/jass/chroma_index.py:64-75 | ValueError exactly for an empty list; otherwise the member that precedes all others by the preference key, slash-free whenever possible |
| ChordNames.ShortestNoSlashIsRepresentative | backend/jass/chroma_index.py:38-75 | `choose_shortest_no_slash` and `choose_representative` pick the same name from every non-empty list |
| ChordNames.FilterSlashSuggestions | backend/jass/chroma_index.py:49-61 | the slash-free names in order if any exist; else the single shortest name; [] for []; never a name that was not given |
| ChordNames.FilterSlashSuggestionsIdempotent | backend/jass/chroma_index.py:49-61 | filtering twice equals filtering once |
| ChordNames.RootPairs | backend/jass/chroma_index.py:87-91 | the grouped pairs are exactly (root, name) for the input names whose root is non-empty |
| ChordNames.Picks | backend/jass/chroma_index.py:93-95 | one pick per root group, in dictionary order, each the group's `choose_shortest_no_slash` |
| ChordNames.RootGroupsNonEmpty | backend/jass/chroma_index.py:86-91 | no group of the by-root dictionary is empty, so every pick is defined |
| ChordNames.ChooseRepresentativesByRoot | backend/jass/chroma_index.py:78-98 | the loops compute the grouped, picked and sorted list |
| ChordNames.GroupByRoot | backend/jass/chroma_index.py:86-91 | the `setdefault(r, []).append(name)` loop builds the by-root dictionary, skipping rootless names |
| ChordNames.PickEach | backend/jass/chroma_index.py:93-95 | the second loop appends one pick per group in order |
| ChordNames.PickOfGroup | backend/jass/chroma_index.py:86-95 | each group's pick is an input name with that group's root, and the group holds every input name with that root |
| ChordNames.RepsByRootSorted | backend/jass/chroma_index.py:97 | the result is sorted by the preference key |
| ChordNames.RepsByRootCoversRoots | backend/jass/chroma_index.py:78-98 | every result is an input name with a root, and every root among the inputs has a representative |
| ChordNames.RepsByRootUnfold | backend/jass/chroma_index.py:83-98 | for a non-empty input the result is the sorted picks, with the same members as the picks |
| ChordNames.RepsByRootDistinctRoots | backend/jass/chroma_index.py:86-95 | no two representatives share a root |
| ChordNames.RepsByRootShortest | backend/jass/chroma_index.py:86-95 | each representative is the shortest name of its root, slash-free whenever a name with that root is |
| ChordNames.RepsOrRepresentative | backend/jass/chroma_index.py:322 | `choose_representatives_by_root(names) or [choose_representative(names)]` fails exactly on an empty list and otherwise gives a non-empty selection of the names |
| Chroma.LowBits | backend/jass/chroma_index.py:116 | `[(mask >> i) & 1 for i in range(k)]`: k entries, each bit i of the mask |
| Chroma.BitOfFromBits | backend/jass/chroma_index.py:104-109 | bit i of the mask built from a 0/1 list is element i |
| Chroma.FromLowBits | backend/jass/chroma_index.py:116 | the low k bits of a number below 2^k rebuild that number |
| Chroma.FromBitsRange | backend/jass/chroma_index.py:104-109 | the mask of a 0/1 list of length k lies in [0, 2^k) |
| Chroma.FromBitsSnoc | backend/jass/chroma_index.py:108-109 | setting bit i (`1 << i`) while it is clear adds the next bit's weight to the mask |
| Chroma.MaskOf | backend/jass/chroma_index.py:101-110 | Ok exactly for twelve 0/1 entries (else ChromaInputError); the mask is in [0, 4096) and bit i is element i |
| Chroma.BitsToMask | backend/jass/chroma_index.py:101-110 | the loop computes `MaskOf`, failing on the length first and then on the first non-0/1 element |
| Chroma.MaskToBits | backend/jass/chroma_index.py:113-116 | Ok exactly for a mask in [0, 4096) (else ChromaInputError); element i is bit i |
| Chroma.BitsMaskRoundTrip | backend/jass/chroma_index.py:101-116 | `mask_to_bits(bits_to_mask(b)) == b` for every valid list |
| Chroma.MaskBitsRoundTrip | backend/jass/chroma_index.py:101-116 | `bits_to_mask(mask_to_bits(m)) == m` for every mask in [0, 4096) |
| Chroma.ShiftZero | backend/jass/chroma_index.py:118 | shifting 0 right by any amount gives 0 |
| Chroma.ZeroMaskBits | backend/jass/chroma_index.py:115-118 | `mask_to_bits(0)` is twelve zeros |
| Chroma.BitsToBitstring | backend/jass/chroma_index.py:119-122 | Ok exactly for twelve entries; character i is '1' exactly when element i is non-zero |
| Chroma.MaskToBitstring | backend/jass/chroma_index.py:125-126 | Ok exactly for a mask in [0, 4096); twelve 0/1 characters, '1' exactly at the set bits |
| Chroma.DigitBits | backend/jass/chroma_index.py:133 | `[int(c) for c in s]` on a 0/1 text: 1 exactly at the '1' characters |
| Chroma.BitstringToMask | backend/jass/chroma_index.py:129-133 | Ok exactly when the stripped text is twelve 0/1 characters (else ChromaInputError); bit i is set exactly at a '1' |
| Chroma.BitstringRoundTrip | backend/jass/chroma_index.py:125-133 | `bitstring_to_mask(mask_to_bitstring(m)) == m` for every mask in [0, 4096) |
| Chroma.IndicesWhere | backend/jass/chroma_index.py:149-151 | the selected positions are in range, pass the test and ascend |
| Chroma.IndicesWhereComplete | backend/jass/chroma_index.py:149-151 | every position that passes the test is selected |
| Chroma.ChromaMaskRange | backend/jass/chroma_index.py:101-110 | a valid chroma's mask fits in twelve bits |
| Chroma.ChromaBitsToNotes | backend/jass/chroma_index.py:140-152 | ChromaInputError exactly for a wrong length; otherwise the sharp (or flat) lower-case name of each position holding 1, in pitch-class order |
| Chroma.CheckBits | backend/jass/chroma_index.py:155-168 | a list of integers is returned unchanged exactly when it has twelve 0/1 entries; otherwise ChromaInputError |
| Chroma.ParseBitsList | backend/jass/chroma_index.py:155-168 | the copy-and-check loops compute `CheckBits` |
| Chroma.Parts | backend/jass/chroma_index.py:184 | one stripped part per comma-separated field |
| Chroma.PartValues | backend/jass/chroma_index.py:187-190 | all parts parse with `int()` exactly when a value list is returned, and each value is its part's `int()` |
| Chroma.ParseCommaBits | backend/jass/chroma_index.py:183-191 | a result is twelve 0/1 values, each the `int()` of its stripped part; twelve parts that each read as 0 or 1 are accepted; a field count other than twelve is ChromaInputError |
| Chroma.ParseChroma | backend/jass/chroma_index.py:171-203 | twelve 0/1 characters are read directly; comma text of 0, 1, spaces and tabs is accepted exactly when the comma form accepts it, and then gives its bits; text starting with '[' is always handed on as JSON; text of none of the three shapes, and every failure, is ChromaInputError |
| ChromaIndex.MaskPairs | backend/jass/chroma_index.py:238-239 | one (mask, name) pair per chord, in table order, with the mask its bits spell |
| ChromaIndex.ChromaIndexOf | backend/jass/chroma_index.py:233-243 | ChromaInputError exactly when some bit list is invalid |
| ChromaIndex.BuildChromaIndex | backend/jass/chroma_index.py:233-243 | the three passes compute `ChromaIndexOf` |
| ChromaIndex.GroupByMask | backend/jass/chroma_index.py:237-240 | the first pass fails exactly when some bit list is invalid, and otherwise groups the names by mask in first-appearance order |
| ChromaIndex.GroupMaskStep | backend/jass/chroma_index.py:239-240 | one `setdefault(mask, []).append(name)` step extends the grouping by that chord |
| ChromaIndex.MaskPairsOfMasks | backend/jass/chroma_index.py:238-240 | after a pass without error every bit list was valid and the pairs are exactly the chords' (mask, name) pairs |
| ChromaIndex.NotAllChroma | backend/jass/chroma_index.py:239 | one invalid bit list makes the whole table invalid |
| ChromaIndex.SortEachList | backend/jass/chroma_index.py:241-242 | the in-place loop sorts every name list and keeps the keys |
| ChromaIndex.KeyLeOrder | backend/jass/chroma_index.py:243 | ordering entries by mask is a total preorder |
| ChromaIndex.IndexEntryGroup | backend/jass/chroma_index.py:233-243 | each index entry is a mask of some chord, with the sorted names of that mask's group |
| ChromaIndex.IndexEntry | backend/jass/chroma_index.py:233-243 | each entry's mask is in [0, 4096), its names are sorted, and a name is listed exactly when some chord of that name has that mask |
| ChromaIndex.MaskKeyRange | backend/jass/chroma_index.py:239 | every key of the index is a 12-bit mask |
| ChromaIndex.IndexEntryMember | backend/jass/chroma_index.py:240-242 | a name is in a sorted group exactly when a chord of that name has the group's mask |
| ChromaIndex.IndexKeysAscending | backend/jass/chroma_index.py:243 | the keys are distinct and strictly ascending |
| ChromaIndex.IndexEntryOf | backend/jass/chroma_index.py:233-243 | every chord name lies in the entry keyed by its own mask |
| ChromaIndex.IndexNameUnique | backend/jass/chroma_index.py:233-243 | with distinct names, a name lies in no other entry |
| ChromaIndex.IndexEntriesNonEmpty | backend/jass/chroma_index.py:240 | no entry of the index is empty |
| ChromaIndexFile.KeyFormatOf | backend/jass/chroma_index.py:252-256 | the key format is "bits12" exactly when the metadata's "key" is the string "bits12"; anything else (missing, other, non-string) gives "mask12" |
| ChromaIndexFile.EncodeKey | backend/jass/chroma_index.py:260-261 | decimal keys always encode; a bitstring key encodes exactly for masks in range, as twelve 0/1 characters; otherwise ChromaInputError |
| ChromaIndexFile.NamesJson | backend/jass/chroma_index.py:265 | a name list is written as a JSON array of the same strings, in order |
| ChromaIndexFile.EncodeEntries | backend/jass/chroma_index.py:265 | a failed dictionary encoding is a ChromaInputError |
| ChromaIndexFile.EncodeEntriesOk | backend/jass/chroma_index.py:260-268 | encoding fails exactly when the format is "bits12" and some mask is out of range |
| ChromaIndexFile.ToJsonObj | backend/jass/chroma_index.py:258-269 | ChromaInputError exactly when the format is "bits12" and a reps or aliases mask is out of range; otherwise an object whose "_meta" is the metadata |
| ChromaIndexFile.ParseIndexKey | backend/jass/chroma_index.py:286-289 | a 12-character 0/1 key is read as a bitstring (bit i set exactly at a '1'); any other key is `int()` of the text, and a failure is a ValueError |
| ChromaIndexFile.StrList | backend/jass/chroma_index.py:297-299 | a value is accepted exactly when it is a list of strings, and is then those strings in order |
| ChromaIndexFile.SingleName | backend/jass/chroma_index.py:306-308 | a legacy `rep_index` value is accepted exactly when it is a string, and becomes a one-name list |
| ChromaIndexFile.DecodeEntries | backend/jass/chroma_index.py:291-308 | a failed member decoding is a ValueError |
| ChromaIndexFile.DecodeEntriesOk | backend/jass/chroma_index.py:291-308 | decoding fails exactly when some member's key or value is bad |
| ChromaIndexFile.DecodeEntriesGet | backend/jass/chroma_index.py:292-299 | each decoded mask holds the value of the last member naming it, and unnamed masks are absent |
| ChromaIndexFile.LegacyEntry | backend/jass/chroma_index.py:312-322 | a legacy member is accepted exactly when its key parses and its value is a non-empty list of strings; the aliases are those names sorted and the representatives are a non-empty selection of them |
| ChromaIndexFile.DecodeLegacy | backend/jass/chroma_index.py:309-323 | a failed legacy decoding is a ValueError |
| ChromaIndexFile.DecodeLegacyOk | backend/jass/chroma_index.py:309-323 | the legacy layout fails exactly when some member is bad |
| ChromaIndexFile.LegacyConsistent | backend/jass/chroma_index.py:309-323 | in the legacy layout a mask has representatives exactly when it has aliases; the representatives are a non-empty selection of the aliases, and the aliases are sorted |
| ChromaIndexFile.ObjField | backend/jass/chroma_index.py:275-279 | `isinstance(obj.get(key), dict)`: present exactly when the member exists and is an object |
| ChromaIndexFile.DecodeMain | backend/jass/chroma_index.py:291-325 | no object among "reps", "rep_index" and "index" is a ValueError; a "reps" object takes precedence and is decoded with the list-of-strings check |
| ChromaIndexFile.FromJson | backend/jass/chroma_index.py:272-341 | every failure is a ValueError; success requires an object and keeps its "_meta"; without "reps", "rep_index" or "index" objects it fails |
| ChromaIndexFile.DecodeMembers | backend/jass/chroma_index.py:291-308 | the member loop computes `DecodeEntries` |
| ChromaIndexFile.DecodeLegacyMembers | backend/jass/chroma_index.py:309-323 | the legacy loop computes `DecodeLegacy` |
| ChromaIndexFile.FromJsonObj | backend/jass/chroma_index.py:272-341 | the step-by-step decoding computes `FromJson` |
| ChromaIndexFile.KeyRoundTrip | backend/jass/chroma_index.py:260-261 | a mask in range is read back from either encoding of it |
| ChromaIndexFile.EncodedFields | backend/jass/chroma_index.py:265 | one encoded member per entry |
| ChromaIndexFile.EncodeDistinct | backend/jass/chroma_index.py:265 | with distinct masks in range, encoding succeeds with one member per entry, none colliding |
| ChromaIndexFile.EncodedKeyFresh | backend/jass/chroma_index.py:265 | the last mask's member name is new |
| ChromaIndexFile.EncodeKeyInjective | backend/jass/chroma_index.py:260-261 | distinct masks in range get distinct member names in either format |
| ChromaIndexFile.DecodeEncoded | backend/jass/chroma_index.py:258-299 | decoding the encoded members gives back the index |
| ChromaIndexFile.StrListOfNames | backend/jass/chroma_index.py:258-299 | a name list is read back from its JSON array |
| ChromaIndexFile.FileFieldsGet | backend/jass/chroma_index.py:263-268 | the written object's "_meta", "reps" and "aliases" members read back as written |
| ChromaIndexFile.FileRoundTrip | backend/jass/chroma_index.py:258-341 | a file with distinct in-range masks survives `from_json_obj(to_json_obj(f))` unchanged in either key format |
| ChromaIndexFile.EntryReps | backend/jass/chroma_index.py:346-351 | the representatives kept for a mask are non-empty and drawn from its names |
| ChromaIndexFile.RepsOfIndex | backend/jass/chroma_index.py:346-351 | representatives for every entry, same keys and order, each non-empty and drawn from the entry's names |
| ChromaIndexFile.MakeIndexFile | backend/jass/chroma_index.py:344-374 | fails exactly as `build_chroma_index` does; the file uses decimal keys and the index as aliases, every mask has a name, and the representatives are `RepsOfIndex` of the aliases: per mask the names `EntryReps` keeps, a non-empty selection of that mask's names |
| ChromaIndexFile.MakeMetaMask12 | backend/jass/chroma_index.py:352-373 | the metadata written asks for decimal keys |
| ChromaIndexFile.MakeIndexFileRoundTrip | backend/jass/chroma_index.py:258-374 | a built index file reads back as built |
| Theory.PcToIdxFacts | backend/jass/tonal_tension/theory.py:10-32 | every spelling maps into [0, 12), and the enharmonic spellings (C#/Db, E/Fb, F/E#, B/Cb, C/B#) agree |
| Theory.KnownRootIff | backend/jass/tonal_tension/theory.py:10-32 | the table knows exactly the 21 spellings "letter A–G, optionally '#' or 'b'" |
| Theory.TriadMapKeys | backend/jass/tonal_tension/theory.py:34-55 | each triad map's degrees are exactly its scale's intervals |
| Theory.QualityIntervals | backend/jass/tonal_tension/theory.py:59-64 | the four known qualities give three intervals starting at 0; any other quality is a KeyError |
| Theory.IntervalChroma | backend/jass/tonal_tension/theory.py:65-68 | the list built from twelve zeros is a 0/1 chroma |
| Theory.IntervalChromaHits | backend/jass/tonal_tension/theory.py:65-68 | pitch class i is set exactly when root + some interval is congruent to i mod 12 |
| Theory.SetIntervalBits | backend/jass/tonal_tension/theory.py:65-68 | the loop computes `IntervalChroma` |
| Theory.TriadChroma | backend/jass/tonal_tension/theory.py:58-68 | KeyError exactly for an unknown quality, otherwise the interval chroma of the quality at the root |
| Theory.IntervalChromaRotates | backend/jass/tonal_tension/theory.py:65-68 | transposing the root rotates the chroma: any root's pattern is C's rotated by the root |
| Theory.IntervalChromaRotatesAt | backend/jass/tonal_tension/theory.py:65-68 | entry i for a root is entry (i - root) mod 12 of the C pattern |
| Theory.RotateOnes | backend/jass/tonal_tension/theory.py:65-68 | rotation keeps the number of set bits |
| Theory.TriadAtC | backend/jass/tonal_tension/theory.py:59-64 | the C-rooted major, minor, diminished and augmented triads are the expected patterns |
| Theory.TriadHasThreeNotes | backend/jass/tonal_tension/theory.py:58-68 | every triad has exactly three set bits, including the root's own bit |
| Theory.ScaleIntervals | backend/jass/tonal_tension/theory.py:34-35 | the scale for a mode has seven intervals starting at 0 |
| Theory.KeyChroma | backend/jass/tonal_tension/theory.py:101-107 | KeyError exactly for an unknown root (the dictionary lookup); otherwise the scale chroma at the root's index |
| Theory.ScaleAtC | backend/jass/tonal_tension/theory.py:34-35 | C major and C minor are the expected patterns |
| Theory.KeyHasSevenNotes | backend/jass/tonal_tension/theory.py:101-107 | every key chroma has exactly seven set bits, including the tonic's |
| Theory.KeyTransposes | backend/jass/tonal_tension/theory.py:101-107 | a key's chroma is C's in the same mode rotated by the root index |
| Theory.ModeWord | backend/jass/tonal_tension/theory.py:78-82 | exactly "major", "maj", "minor" and "min" are mode words; the first two give "major" |
| Theory.TwoWordKey | backend/jass/tonal_tension/theory.py:75-82 | the two-word form applies exactly to two words whose lower-cased second word is a mode word; the first word is kept as the root unchecked |
| Theory.SuffixKey | backend/jass/tonal_tension/theory.py:84-98 | the one-word forms yield a known root and a mode "major"/"minor", or a ValueError |
| Theory.ParseKeyIn | backend/jass/tonal_tension/theory.py:71-98 | the mode is "major" or "minor", the only error is ValueError, and an unknown root can come only from the two-word form |
| Theory.ParseKey | backend/jass/tonal_tension/theory.py:71-98 | the same, against the `PC_TO_IDX` table |
| Theory.ParseKeyStrips | backend/jass/tonal_tension/theory.py:73 | surrounding whitespace does not change the result |
| Theory.ParseKeyTwoWords | backend/jass/tonal_tension/theory.py:75-82 | "root word" gives back the root and the mode the word names, in any letter case |
| Theory.ParseKeyModeWord | backend/jass/tonal_tension/theory.py:75-82 | "root word" with a lower-case mode word gives that mode |
| Theory.ParseKeyOneWord | backend/jass/tonal_tension/theory.py:75-98 | one word is read by the one-word forms alone |
| Theory.ParseKeyBareRoot | backend/jass/tonal_tension/theory.py:95-96 | a known root alone is its major key |
| Theory.ParseKeyMinorM | backend/jass/tonal_tension/theory.py:90-93 | a known root followed by "m" is its minor key |
| Theory.ParseKeyMin | backend/jass/tonal_tension/theory.py:84-88 | a known root followed by "min" is its minor key |
| Theory.ParseKeyMaj | backend/jass/tonal_tension/theory.py:84-88 | a known root followed by "maj" is its major key |
| Theory.MinSuffixKey | backend/jass/tonal_tension/theory.py:84-88 | the suffix loop reads a known root followed by "min" as its minor key |
| Theory.MajSuffixKey | backend/jass/tonal_tension/theory.py:84-88 | "maj" does not end in "min", so the suffix loop reads a known root followed by "maj" as its major key |
| Theory.SuffixedNoSpace | backend/jass/tonal_tension/theory.py:71-75 | a root spelling with a lower-case suffix is a single word |
| Theory.ParseKeyRoundTrip | backend/jass/tonal_tension/theory.py:71-98 | every spelling round-trips through all key forms |
| Theory.ParseKeyUncheckedRoot | backend/jass/tonal_tension/theory.py:76-80 | "H major" parses although H is no pitch class |
| Theory.ParseKeyRejectsUnknown | backend/jass/tonal_tension/theory.py:98 | an unknown single word is a ValueError |
| Theory.ParseKeyRejectsEmpty | backend/jass/tonal_tension/theory.py:98 | empty text is a ValueError |
| Theory.DegreeNamesDistinct | backend/jass/tonal_tension/theory.py:119-123 | the three function names are distinct |
| Theory.PrototypeQuality | backend/jass/tonal_tension/theory.py:117-128 | the prototype quality is one `triad_chroma` knows |
| Theory.DegreeQualities | backend/jass/tonal_tension/theory.py:38-55 | degrees 0, 5 and 7 all have the major quality in a major key and the minor quality in a minor key |
| Theory.Prototype | backend/jass/tonal_tension/theory.py:127-129 | each prototype is a 0/1 chroma |
| Theory.FunctionPrototypes | backend/jass/tonal_tension/theory.py:114-130 | KeyError exactly for an unknown root; otherwise tonic, subdominant and dominant in order, each the triad on its degree with the triad map's quality |
| Theory.PrototypeIntervalsInScale | backend/jass/tonal_tension/theory.py:117-128 | each prototype note, as an interval above the tonic, is a degree of the scale |
| Theory.PrototypeIsDiatonic | backend/jass/tonal_tension/theory.py:101-129 | every note of every prototype belongs to the key's scale chroma |
| Theory.PrototypeHasThreeNotes | backend/jass/tonal_tension/theory.py:127-129 | each prototype has three notes, including its own degree's root |
| TisIndex.Fit | backend/jass/tis_index.py:250-255 | a name stored in a `<U64` array is at most 64 characters, a prefix of the name, and unchanged when it already fits |
| TisIndex.FitAll | backend/jass/tis_index.py:250-255 | every name of a list is stored as `Fit` of itself |
| TisIndex.PyIndex | backend/jass/tis_index.py:131-132 | an index is valid exactly within [-length, length); otherwise IndexError |
| TisIndex.Clamp | backend/jass/tis_index.py:133 | a clamped slice bound lies within the sequence |
| TisIndex.PySlice | backend/jass/tis_index.py:133 | an in-range slice is the ordinary subsequence |
| TisIndex.SliceRow | backend/jass/tis_index.py:130-138 | reading a row fails with IndexError exactly when one of its two offsets does not exist |
| TisIndex.Offsets | backend/jass/tis_index.py:234-248 | there is one offset more than there are rows |
| TisIndex.OffsetsShape | backend/jass/tis_index.py:234-248 | the offsets start at 0, end at the length of the flat array and grow by each row's length |
| TisIndex.FlattenRow | backend/jass/tis_index.py:245-248 | each row is the flat array between its two offsets |
| TisIndex.FlattenSnoc | backend/jass/tis_index.py:245-248 | appending one row extends the flat array by that row and the offsets by the new length |
| TisIndex.RowOf | backend/jass/tis_index.py:240-242 | a row keeps the mask and the sorted aliases; its primary representative is one of its representatives, which are all aliases |
| TisIndex.RowsOf | backend/jass/tis_index.py:239-248 | one row per index entry, in index order |
| TisIndex.RepLists | backend/jass/tis_index.py:245 | each row's representatives as stored |
| TisIndex.AliasLists | backend/jass/tis_index.py:247 | each row's aliases as stored |
| TisIndex.RepNamesOf | backend/jass/tis_index.py:243 | each row's primary representative as stored |
| TisIndex.RepBitsOf | backend/jass/tis_index.py:244 | each row's bits are those of its primary representative |
| TisIndex.RowsSnoc | backend/jass/tis_index.py:239-248 | how every array grows when one more row is appended |
| TisIndex.LayoutOf | backend/jass/tis_index.py:250-283 | the names, bits and masks arrays are one entry per row, row by row |
| TisIndex.TisIndexOf | backend/jass/tis_index.py:219-283 | the only failure is ChromaInputError (invalid bits, no rows, a silent row) |
| TisIndex.BuildTisIndex | backend/jass/tis_index.py:219-283 | the loop-built layout is `TisIndexOf` |
| TisIndex.BuildRows | backend/jass/tis_index.py:239-248 | the loop over masks builds the name, bits, flat and offset arrays of the rows of the chroma index |
| TisIndex.BuiltStep | backend/jass/tis_index.py:239-248 | one loop iteration keeps the loop invariant with one more row |
| TisIndex.BuiltAll | backend/jass/tis_index.py:239-248 | after the last row the arrays are those of all rows |
| TisIndex.LayoutEq | backend/jass/tis_index.py:271-283 | a layout agreeing with the rows array by array is their layout |
| TisIndex.RowReps | backend/jass/tis_index.py:240-242 | the representatives are the by-root ones (or the single representative), the primary one is among them, and all are aliases |
| TisIndex.TisValue | backend/jass/tis_index.py:219-283 | a built layout comes from valid bits of a non-empty table and is the layout of the chroma index's rows |
| TisIndex.LayoutOffsets | backend/jass/tis_index.py:234-248 | with non-empty rows both offset arrays start at 0, strictly increase and end at their flat array's length |
| TisIndex.LayoutRow | backend/jass/tis_index.py:130-138 | `reps_for_row` and `aliases_for_row` give back each row's lists |
| TisIndex.SliceRowIn | backend/jass/tis_index.py:130-133 | in-order, in-range offsets slice the row out |
| TisIndex.TisMasksAscending | backend/jass/tis_index.py:231 | the masks strictly ascend, one row per distinct mask |
| TisIndex.TisMasksOfChords | backend/jass/tis_index.py:226-231 | each mask is a 12-bit mask of some chord of the table |
| TisIndex.TisOffsets | backend/jass/tis_index.py:234-248 | the offsets of a built layout have one entry per row plus one, start at 0, strictly increase and end at the flat length |
| TisIndex.TisAliasesForRow | backend/jass/tis_index.py:135-138 | a row's aliases are the sorted names of exactly the chords with that row's mask |
| TisIndex.TisRepsForRow | backend/jass/tis_index.py:130-133 | a row's representatives are the by-root ones or the single representative, which is one of the aliases |
| TisIndex.TisBitsOfRow | backend/jass/tis_index.py:244 | the stored bits of a row are a chroma whose mask is the row's mask |
| TisIndex.RowBits | backend/jass/tis_index.py:244 | the stored bits are those of a chord with the row's mask |
| TisIndex.TisIndexOk | backend/jass/tis_index.py:219-283 | building succeeds exactly when every bit list is valid, the table is non-empty and no chord is silent |
| TisIndex.SilentRow | backend/jass/tis_index.py:96-97 | a row's bits are silent exactly when its mask is 0 |
| TisIndex.SilentMask | backend/jass/tis_index.py:95-97 | a valid bit list sums to 0 exactly when its mask is 0 |
| TisIndex.PutAllGet | backend/jass/tis_index.py:143-144 | after the inner loop the row's aliases map to the row and every other name is unchanged |
| TisIndex.RowAliases | backend/jass/tis_index.py:142-143 | the alias lists of the rows, in row order |
| TisIndex.NameMapGet | backend/jass/tis_index.py:140-145 | every name maps to the last row listing it; a name no row lists is absent |
| TisIndex.NameMapErrorStays | backend/jass/tis_index.py:142-143 | once a row cannot be read the whole loop fails |
| TisIndex.NameMapOk | backend/jass/tis_index.py:140-145 | the loop succeeds when every row can be read |
| TisIndex.LastRowWithUnique | backend/jass/tis_index.py:140-145 | a name listed by one row only maps to that row |
| TisIndex.BuildNameToRow | backend/jass/tis_index.py:140-145 | the nested loop computes `NameToRow` |
| TisIndex.PutRow | backend/jass/tis_index.py:143-144 | the inner loop computes `PutAll` |
| TisIndex.BuiltNameToRow | backend/jass/tis_index.py:140-145 | in a built layout every chord name maps to the row of its own mask |
| TisIndex.FitAllShort | backend/jass/tis_index.py:250-255 | names that fit the width are stored unchanged |
| TisIndex.MaskToRowGet | backend/jass/tis_index.py:147-148 | a mask maps to the last row holding it; absent masks are absent |
| TisIndex.BuiltMaskToRow | backend/jass/tis_index.py:147-148 | in a built layout each mask maps back to its own row |
| TisIndex.MaskToRowAscending | backend/jass/tis_index.py:147-148 | over strictly ascending masks each mask maps to its own row |
| TisIndex.StrictlyIncreasingPairs | backend/jass/tis_index.py:231 | a strictly increasing array is ordered for any two positions |
| TisIndex.Range | backend/jass/tis_index.py:178 | `arange(0, n)` holds 0 .. n-1 in order |
| TisIndex.LegacyRows | backend/jass/tis_index.py:194-216 | in a one-row-per-name file every row's aliases and representatives are its own name |
| TisIndex.PrimaryRepRows | backend/jass/tis_index.py:175-179 | without per-root representatives a row's only representative is its primary one, and its aliases are unchanged |
| Hierarchy.StableHead | backend/jass/tonal_tension/hierarchy.py:67-71 | the head is one of the two; lower function priority wins; on equal priority the left one wins exactly when its key distance is not larger |
| Hierarchy.MergeTiles | backend/jass/tonal_tension/hierarchy.py:73-78 | a merge keeps the working list a tiling of the same chords, one node shorter |
| Hierarchy.FindFrom | backend/jass/tonal_tension/hierarchy.py:83-88 | the scan finds the leftmost adjacent pair of the two kinds, or reports that there is none |
| Hierarchy.NextRule | backend/jass/tonal_tension/hierarchy.py:80-104 | a rule merges an existing adjacent pair and takes one of the pair's heads |
| Hierarchy.RulePriority | backend/jass/tonal_tension/hierarchy.py:80-104 | the leftmost SR·DR pair merges first into DR with the right head; otherwise the leftmost DR·TR into TR with the right head; otherwise the leftmost TR·DR into TR with the left head; the loop stops exactly when none is left |
| Hierarchy.ReduceTiles | backend/jass/tonal_tension/hierarchy.py:80-104 | the rule loop keeps a tiling of all chords, never lengthens it, and stops where no rule applies |
| Hierarchy.FoldRootSingle | backend/jass/tonal_tension/hierarchy.py:106-111 | the ROOT fold ends with one node spanning every chord, a ROOT node whenever a merge happened |
| Hierarchy.CollectSound | backend/jass/tonal_tension/hierarchy.py:116-121 | the collected heads are heads on the path, never the last chord, never the same twice in a row |
| Hierarchy.CollectSnoc | backend/jass/tonal_tension/hierarchy.py:117-120 | one more head is kept unless it is the last chord or repeats the previous kept head |
| Hierarchy.CollectComplete | backend/jass/tonal_tension/hierarchy.py:116-121 | every other head on the path is kept, so the list is empty exactly when every head is the last chord |
| Hierarchy.Spans | backend/jass/tonal_tension/hierarchy.py:11-25 | the spans of the working list, node by node |
| Hierarchy.Path | backend/jass/tonal_tension/hierarchy.py:113-121 | the parent walk starts at the given node and stays in the arena |
| Hierarchy.HeadsOf | backend/jass/tonal_tension/hierarchy.py:117 | the heads of the walked nodes, node by node |
| Hierarchy.PathChain | backend/jass/tonal_tension/hierarchy.py:113-121 | each node on the walk is the parent of the one before, and the walk ends at a node without a parent |
| Hierarchy.HeadsSnoc | backend/jass/tonal_tension/hierarchy.py:117 | one more walked node appends its head |
| Hierarchy.WalkStep | backend/jass/tonal_tension/hierarchy.py:116-121 | one step of the walk moves to the parent and grows the collected heads as `Collect` says |
| Hierarchy.WalkHeads | backend/jass/tonal_tension/hierarchy.py:113-121 | the loop collects the heads of the walk from the leaf's parent upwards |
| Hierarchy.PathToRoot | backend/jass/tonal_tension/hierarchy.py:113-121 | the walk ends at a node of the working list, and every node on the way spans the start |
| Hierarchy.MergedListAt | backend/jass/tonal_tension/hierarchy.py:78 | `nodes[i:i+2] = [new]` position by position |
| Hierarchy.MergedListMembers | backend/jass/tonal_tension/hierarchy.py:78 | after a merge the list holds the new node and every old node except the two merged |
| Hierarchy.MergedSpans | backend/jass/tonal_tension/hierarchy.py:73-78 | the object merge acts on the spans as `MergeAt` |
| Hierarchy.MergedDistinct | backend/jass/tonal_tension/hierarchy.py:78 | the working list stays free of duplicates |
| Hierarchy.MergedNodeSpan | backend/jass/tonal_tension/hierarchy.py:76 | the new node spans both merged nodes, which are adjacent, and holds its head |
| Hierarchy.MergedSpansIn | backend/jass/tonal_tension/hierarchy.py:73-78 | every node stays within the chords and the leaves stay in place |
| Hierarchy.MergedParents | backend/jass/tonal_tension/hierarchy.py:21-25 | parent links keep pointing to newer nodes that enclose the child |
| Hierarchy.MergedRoots | backend/jass/tonal_tension/hierarchy.py:21-25 | the nodes without a parent are exactly the new working list |
| Hierarchy.MergedForest | backend/jass/tonal_tension/hierarchy.py:73-78 | one merge keeps the invariant of the node objects |
| Hierarchy.PairHeads | backend/jass/tonal_tension/hierarchy.py:84-104 | both heads of an adjacent pair lie in the pair's joint span |
| Hierarchy.LeavesForest | backend/jass/tonal_tension/hierarchy.py:56-65 | the leaves alone form a valid forest |
| Hierarchy.MergeAtAt | backend/jass/tonal_tension/hierarchy.py:75-78 | after a merge the spans before i are unchanged, position i spans both merged nodes with the given kind and head, and the later ones move down by one |
| Hierarchy.FoldTraceRoot | backend/jass/tonal_tension/hierarchy.py:106-111 | the fold takes in the last node only at its final merge, so it adds exactly one ancestor, the ROOT node, with the root's head; nothing when there is a single node |
| Hierarchy.ChainIsPath | backend/jass/tonal_tension/hierarchy.py:113-121 | a chain of parent links ending at a node without a parent is, from every position on, the parent walk |
| Hierarchy.ChainPath | backend/jass/tonal_tension/hierarchy.py:113-121 | the recorded chain from the last leaf is the parent walk from it, and the recorded heads are the heads met after the leaf |
| Hierarchy.MergedArenaAt | backend/jass/tonal_tension/hierarchy.py:73-76 | a merge keeps every older node's head and span, and changes only the two merged nodes, whose parent becomes the new node |
| Hierarchy.MergedNew | backend/jass/tonal_tension/hierarchy.py:73-76 | the new node spans both merged nodes, holds the merge's head and has no parent |
| Hierarchy.MergedChainInner | backend/jass/tonal_tension/hierarchy.py:21-25 | the nodes on the chain below its end have parents, so a merge leaves them as they were |
| Hierarchy.MergedChainLast | backend/jass/tonal_tension/hierarchy.py:73-78 | merging the last two nodes makes the new node the chain's end and adds its head |
| Hierarchy.MergedChainOther | backend/jass/tonal_tension/hierarchy.py:73-78 | a merge that does not take in the last node leaves the chain and its heads as they were |
| Hierarchy.MergedChain | backend/jass/tonal_tension/hierarchy.py:73-78 | a merge keeps the chain, grown by the new node and its head exactly when it takes in the last node |
| Hierarchy.LeavesLastChain | backend/jass/tonal_tension/hierarchy.py:56-65 | before any merge the last leaf is the last node of the list and has no ancestors |
| Hierarchy.MergedState | backend/jass/tonal_tension/hierarchy.py:73-78 | one merge, with the head of one of the two nodes, keeps the invariant and the chain, and acts on the spans as `MergeAt` |
| Hierarchy.TreeChain | backend/jass/tonal_tension/hierarchy.py:113-121 | in the invariant, the heads met walking up from the last leaf are the recorded heads |
| Hierarchy.Tree.constructor | backend/jass/tonal_tension/hierarchy.py:56-65 | the leaf loop: one leaf per chord, in order, each in the working list; the last leaf is its own walk and has no ancestors yet |
| Hierarchy.Tree.Merge | backend/jass/tonal_tension/hierarchy.py:73-78 | `merge` makes the node, sets its children and splices the list, keeping the invariant; the last leaf gains the new node as an ancestor, with its head, exactly when the merge takes in the last node of the list |
| Hierarchy.Tree.ScanPair | backend/jass/tonal_tension/hierarchy.py:83-88 | the scan loop finds `FindPair` on the spans |
| Hierarchy.Tree.RulePass | backend/jass/tonal_tension/hierarchy.py:82-104 | one pass merges exactly when a rule applies, by `NextRule`, and otherwise changes nothing; the head it records is the rule's when the rule takes in the last node |
| Hierarchy.Tree.ApplyRules | backend/jass/tonal_tension/hierarchy.py:80-104 | the rule loop computes `Reduce` on the spans and adds to the last leaf's ancestors the heads of its merges that take in the last node, in order (`ReduceTrace`) |
| Hierarchy.Tree.FoldRoots | backend/jass/tonal_tension/hierarchy.py:106-111 | the fold loop computes `FoldRoot` on the spans and adds the heads `FoldTrace` names to the last leaf's ancestors |
| Hierarchy.HeadsInRange | backend/jass/tonal_tension/hierarchy.py:117 | every head is a chord position |
| Hierarchy.LeafKinds | backend/jass/tonal_tension/hierarchy.py:56-62 | ValueError exactly when some label is not "t", "s" or "d"; otherwise each label's region kind |
| Hierarchy.LeafSpans | backend/jass/tonal_tension/hierarchy.py:59-65 | the leaf spans tile all chords |
| Hierarchy.BuildTree | backend/jass/tonal_tension/hierarchy.py:56-111 | the tree ends as one node spanning all chords, built by `Reduce` and then `FoldRoot`; the heads met walking up from the last leaf are `LastTrace`: those of the rule merges that take in the last node, then the fold's |
| Hierarchy.WalkedHeads | backend/jass/tonal_tension/hierarchy.py:113-121 | the collected heads are chord positions other than the start, never twice in a row |
| Hierarchy.TreeHeads | backend/jass/tonal_tension/hierarchy.py:56-121 | the walk from the last leaf keeps `Collect` of `LastTrace`, the ancestors' heads in the order the merges made them; so earlier chords, never twice in a row |
| Hierarchy.HierarchicalHeads | backend/jass/tonal_tension/hierarchy.py:50-124 | no heads for at most one chord; ValueError exactly for unequal lengths or an unknown label; otherwise the heads are `Collect` of `LastTrace` over the labels' kinds, so earlier chords, never twice in a row |
| VoiceLeading.PcDistSteps | backend/jass/tonal_tension/voice_leading.py:11-15 | the pitch-class distance is symmetric, between 0 and 6, 0 exactly on the diagonal, and the least number of semitone steps joining the two classes round the octave |
| VoiceLeading.BuildPcDist | backend/jass/tonal_tension/voice_leading.py:11-15 | the nested loops fill the 12×12 table with `PcDist` |
| VoiceLeading.PcList | backend/jass/tonal_tension/voice_leading.py:18-19 | exactly the positions of the nonzero bits, strictly ascending |
| VoiceLeading.Range | backend/jass/tonal_tension/voice_leading.py:63 | `range(n)` holds 0 .. n-1 in order |
| VoiceLeading.Remove | backend/jass/tonal_tension/voice_leading.py:63 | removing one element removes exactly one occurrence of it |
| VoiceLeading.Prepend | backend/jass/tonal_tension/voice_leading.py:63 | every listed permutation gets the element in front |
| VoiceLeading.PermsOfSound | backend/jass/tonal_tension/voice_leading.py:63 | every listed ordering is a rearrangement of the input |
| VoiceLeading.PermsFromSound | backend/jass/tonal_tension/voice_leading.py:63 | every ordering led from position k on is a rearrangement |
| VoiceLeading.PrependSound | backend/jass/tonal_tension/voice_leading.py:63 | putting an element in front adds it to the multiset |
| VoiceLeading.PermsOfComplete | backend/jass/tonal_tension/voice_leading.py:63 | every rearrangement of the input is listed |
| VoiceLeading.PermsFromHas | backend/jass/tonal_tension/voice_leading.py:63 | orderings led by a later element are listed from position j on |
| VoiceLeading.PermutationsExactly | backend/jass/tonal_tension/voice_leading.py:63 | `itertools.permutations(range(n))` lists exactly the permutations of range(n) |
| VoiceLeading.BuildCost | backend/jass/tonal_tension/voice_leading.py:46-53 | an n×n matrix, n = max(na, nb), holding the scaled distance inside the na×nb block and the addition penalty elsewhere |
| VoiceLeading.Costs | backend/jass/tonal_tension/voice_leading.py:64 | the cost of each row's chosen column |
| VoiceLeading.BestPermutation | backend/jass/tonal_tension/voice_leading.py:61-68 | the result is a permutation of least total, and the first such one in itertools order because only a strictly smaller total replaces the best |
| VoiceLeading.EntryLeOrder | backend/jass/tonal_tension/voice_leading.py:73 | tuple order on (cost, row, column) is total, transitive and reflexive |
| VoiceLeading.RowEntries | backend/jass/tonal_tension/voice_leading.py:73 | row i's triples, one per column, each with its own cost |
| VoiceLeading.Entries | backend/jass/tonal_tension/voice_leading.py:73 | every listed triple is a cell of the matrix with its own cost |
| VoiceLeading.EntriesHas | backend/jass/tonal_tension/voice_leading.py:73 | every cell of the matrix is listed |
| VoiceLeading.SortedEntries | backend/jass/tonal_tension/voice_leading.py:73 | sorting keeps exactly the same cells and puts them in ascending cost |
| VoiceLeading.MissingIndex | backend/jass/tonal_tension/voice_leading.py:79 | fewer than n used rows leave a row unused |
| VoiceLeading.RangeSet | backend/jass/tonal_tension/voice_leading.py:70-79 | the set of 0 .. n-1 |
| VoiceLeading.RangeSetSize | backend/jass/tonal_tension/voice_leading.py:79 | that set has n elements |
| VoiceLeading.SubsetSize | backend/jass/tonal_tension/voice_leading.py:79 | a subset is no larger |
| VoiceLeading.TakeCell | backend/jass/tonal_tension/voice_leading.py:75-78 | taking a cell with a free row and a free column keeps a partial assignment |
| VoiceLeading.ScanComplete | backend/jass/tonal_tension/voice_leading.py:74-80 | a full scan that left no free row-column pair has used every row |
| VoiceLeading.PartialBound | backend/jass/tonal_tension/voice_leading.py:70-79 | a partial assignment never holds more than n cells |
| VoiceLeading.FirstFreeUnique | backend/jass/tonal_tension/voice_leading.py:74-80 | the greedy rule fixes the result: two runs over the same sorted entries that pick equally many cells pick the same cells, at the same positions, with the same costs |
| VoiceLeading.FirstFreePrefix | backend/jass/tonal_tension/voice_leading.py:74-80 | two runs following the greedy rule agree on their first k picks |
| VoiceLeading.FirstFreeNoLater | backend/jass/tonal_tension/voice_leading.py:74-75 | with the same earlier picks, a run takes its next pick no later than the first entry whose row and column are both free |
| VoiceLeading.FirstFreeTake | backend/jass/tonal_tension/voice_leading.py:75-78 | taking the first free entry at position k extends a run that follows the greedy rule, and every entry up to k is then blocked |
| VoiceLeading.UsedGrow | backend/jass/tonal_tension/voice_leading.py:76-78 | adding a cell adds exactly its row to `used_r` and its column to `used_c` |
| VoiceLeading.ScanTake | backend/jass/tonal_tension/voice_leading.py:74-78 | the loop step that takes a free entry keeps the loop state |
| VoiceLeading.ScanSkip | backend/jass/tonal_tension/voice_leading.py:74-75 | the loop step that skips an entry with a used row or column keeps the loop state |
| VoiceLeading.ScanDone | backend/jass/tonal_tension/voice_leading.py:74-80 | when the loop ends, by the `break` or after the last entry, there are n picks following the greedy rule, one per row and one per column, with ascending costs |
| VoiceLeading.GreedyScan | backend/jass/tonal_tension/voice_leading.py:74-80 | each pick is the first entry of `flat`, in order, whose row and column are both still unused; n picks, one per row and one per column, with ascending costs |
| VoiceLeading.Greedy | backend/jass/tonal_tension/voice_leading.py:69-81 | over `sorted` of the flattened matrix, each pick is the first entry whose row and column are still free; each picked cost is its own cell's cost; the cells are a complete assignment with ascending costs |
| VoiceLeading.PermutationCells | backend/jass/tonal_tension/voice_leading.py:63-68 | a permutation of range(n) lists each column once, so (i, p[i]) is a complete assignment |
| VoiceLeading.RangeOnce | backend/jass/tonal_tension/voice_leading.py:63 | range(n) holds each value at most once |
| VoiceLeading.CellCosts | backend/jass/tonal_tension/voice_leading.py:48-53 | each cell's cost as the matrix defines it |
| VoiceLeading.Rows | backend/jass/tonal_tension/voice_leading.py:68 | the cells (i, p[i]) of a permutation |
| VoiceLeading.ChooseCosts | backend/jass/tonal_tension/voice_leading.py:40-81 | no pitch class on a side gives 0.0; a bit at position 12 or later fails the lookup; otherwise the costs of a complete assignment: for n <= 8 those of the first permutation of least total (`FirstLeast`), otherwise those the greedy rule picks from the sorted matrix (`FirstFree`), ascending |
| VoiceLeading.AssignCosts | backend/jass/tonal_tension/voice_leading.py:45-81 | the matrix is built and, for n <= 8, the first permutation of least total is chosen; otherwise the greedy picks over the sorted `CostEntries` |
| VoiceLeading.Exhaustive | backend/jass/tonal_tension/voice_leading.py:61-68 | the costs of the permutation the search keeps: of least total, with every earlier permutation strictly costlier |
| VoiceLeading.PermutationOptimal | backend/jass/tonal_tension/voice_leading.py:61-68 | the permutation of least matrix total also has the least sum of cell costs |
| VoiceLeading.BestIsFirstLeast | backend/jass/tonal_tension/voice_leading.py:61-68 | the permutation `BestPermutation` returns over a `BuildCost` matrix is the first permutation of least total cell cost |
| VoiceLeading.EntriesOfCost | backend/jass/tonal_tension/voice_leading.py:73 | the triples listed from a `BuildCost` matrix are the `CostEntries` of the cell costs |
| Detector.Decode | backend/pianomidi/pianomidi/detector.py:33-40 | IndexError exactly for a message shorter than two bytes; note-on exactly for status 0x90 with a third byte above 0; note-off for status 0x80, or 0x90 with velocity 0 or missing; the note is the second byte |
| Detector.DecodeIgnoresChannel | backend/pianomidi/pianomidi/detector.py:33 | the channel nibble of the status byte does not change the decoded event |
| Detector.NoteMessage | backend/pianomidi/pianomidi/detector.py:33-35 | a three-byte note message carries the note and the velocity |
| Detector.NoteMessageRoundTrip | backend/pianomidi/pianomidi/detector.py:33-40 | decoding a built note message gives back note-on (velocity above 0) or note-off with the same note, on any channel |
| Detector.ApplyIdempotent | backend/pianomidi/pianomidi/detector.py:42-48 | applying an event twice is applying it once; releasing an unheld note or pressing a held one changes nothing; other notes are untouched |
| Detector.LastTouch | backend/pianomidi/pianomidi/detector.py:37-48 | the last event in a sequence that touches a note is an event of that sequence for that note |
| Detector.ReplayHeld | backend/pianomidi/pianomidi/detector.py:37-48 | after a sequence of events a note is held exactly when the last event touching it is a note-on, or nothing touched it and it was held before |
| Detector.ChordDetector.constructor | backend/pianomidi/pianomidi/detector.py:19-20 | no note is held at first |
| Detector.ChordDetector.NoteOn | backend/pianomidi/pianomidi/detector.py:42-44 | the note is added to the held notes |
| Detector.ChordDetector.NoteOff | backend/pianomidi/pianomidi/detector.py:46-48 | the note is discarded from the held notes, held or not |
| Detector.ChordDetector.MidiCallback | backend/pianomidi/pianomidi/detector.py:25-40 | the message is decoded, the held notes change by the decoded event, and a short message changes nothing |
| Detector.ChordDetector.Detect | backend/pianomidi/pianomidi/detector.py:72-80 | chroma and names come from the held notes; no chord for fewer than two names; otherwise the first suggestion, if any |
| Detector.PitchClass | backend/pianomidi/pianomidi/detector.py:72 | the pitch class lies in [0, 12) and is congruent to the note mod 12 |
| Detector.PitchClasses | backend/pianomidi/pianomidi/detector.py:72 | exactly the pitch classes of the held notes |
| Detector.Chroma | backend/pianomidi/pianomidi/detector.py:72 | twelve 0/1 entries; entry i is 1 exactly when some held note has pitch class i |
| Detector.Below | backend/pianomidi/pianomidi/detector.py:73 | the pitch classes below k, strictly ascending, every one of them |
| Detector.SortedPitchClasses | backend/pianomidi/pianomidi/detector.py:73 | the pitch classes of the held notes, each in [0, 12), strictly ascending |
| Detector.Names | backend/pianomidi/pianomidi/detector.py:74 | the note name of each sorted pitch class, in order |
| Detector.BelowOnes | backend/pianomidi/pianomidi/detector.py:72-73 | the number of pitch classes below k equals the number of set chroma entries below k |
| Detector.NamesMatchChroma | backend/pianomidi/pianomidi/detector.py:72-74 | the names are distinct, as many as the set chroma entries, and name i appears exactly when chroma entry i is set |
| Detector.NameOf | backend/pianomidi/pianomidi/detector.py:72-74 | name i appears exactly when chroma entry i is set |
| Detector.NoteNamesDistinct | backend/pianomidi/pianomidi/detector.py:15 | the twelve note names are distinct |

## Left out

- Tonal Interval Space numerics (`dot`, `norm`, `euclidean_distance`, `cosine_similarity`, `angle`, the DFT matrix, `chroma_matrix_to_tis`, `chroma_bits_to_tis`): complex floating-point work. The only part modelled is the `ChromaInputError` for a row with no active pitch class.
- TisIndex.TisIndexOf: the `tis`, `tis_norm` and `tis_unit` arrays and the `meta` mapping of a `TISIndex` are not part of the layout. The `ValueError` for badly shaped `weights` is also left out, since the weights are a fixed default.
- ChordNames.FilterSlashSuggestions: its first step keeps only the entries that are strings (`isinstance(n, str)`, backend/jass/chroma_index.py:54). The model takes a sequence of strings, so that step keeps everything and is not written out; lists of mixed types are not modelled.
- `TISIndex.to_npz`/`from_npz` file handling: file I/O. The two legacy layouts `from_npz` builds are modelled as `LegacyRowsLayout` and `PrimaryRepLayout`.
- The TIS conversion in `function_prototypes` and `key_tis`: floating point. Theory.FunctionPrototypes returns each triad's chroma, the value handed to that conversion.
- Hierarchy.HierarchicalHeads: it stops at the list of parent heads, which it states as `Collect` of the heads the merges give the last leaf's ancestors. Three parts are not modelled, being floating point: the average of TIS distances over those heads, the 0.0 returned for an empty list, and `harmonic_function_label_from_tis`. Only the length of `tis_list` matters to the tree.
- VoiceLeading.ChooseCosts: it stops at the chosen costs. The `exp` stability sum and its negation are floating point and not modelled.
- SciPy's `linear_sum_assignment`: a foreign library. Only the two fallbacks for a missing SciPy are modelled.
- `NOTE_TIS`, `NOTE_TIS_NORM` and the TIS distance `mu` between two single notes become parameters of the cost matrix: `mu` and `penalty` (`addition_penalty * NOTE_TIS_NORM`).
- Floating-point rounding, NaN and infinities are not modelled: costs and distances are exact reals.
- Detector.ChordDetector.Detect: `pychord.find_chords_from_notes` is a foreign library, taken as a function parameter. The JSON line printed on standard output is not modelled; the method returns its three fields instead.
- The debounce timer and lock of the detector (`_schedule_detect` and the start of `_detect`): concurrency. Every note change simply makes a detection possible.
- The raw-message logging to standard error, the `_dt` timestamp of a MIDI event and the rtmidi port handling in `main`: I/O.
- The JSON branch of `parse_chroma`: `json.loads` is a foreign parser. The model stops at the stripped text it would hand over (`JsonArrayText`).
- `load_chords_chroma`, `dump_index_file` and `load_index_file`: file I/O and the JSON library. The JSON values these functions exchange are modelled as a `Json` datatype.
- The current time in `make_index_file`: a parameter (`createdUtc`).
- Integer widths (`uint8`, `uint16`, `int32` arrays): every stored value is small (masks below 4096, offsets at most the number of names), so unbounded integers give the same values.
- `str.lower`/`str.upper` beyond ASCII letters, and `int()` on non-ASCII decimal digits: the inputs are note names, chord names and chroma digits.
- `list.sort` and `sorted` are modelled as a stable insertion sort. Python's sort is also stable, so both give the same order for the keys used here.
- The guitar detector, the WebSocket server, the tension model (`features`, `model`, `dissonance`, `weights`) and `chord_suggestion.py`: outside the modelled core.

/** The JSON index file of backend/jass/chroma_index.py: `ChromaIndexFile`, its two key
    formats, `to_json_obj`, `from_json_obj` (with the legacy layouts) and `make_index_file`. */
module ChromaIndexFile {
  import opened Wrappers
  import opened Text
  import opened Sorting
  import opened Dicts
  import opened Chroma
  import opened ChordNames
  import opened ChromaIndex

  /** A JSON value as the standard decoder returns it. The index file holds no floats, so
      numbers are integers; an object is its list of members in document order. */
  datatype Json =
    | JNull
    | JBool(b: bool)
    | JInt(i: int)
    | JStr(s: string)
    | JArr(items: seq<Json>)
    | JObj(fields: Dict<string, Json>)

  /** `ChromaIndexFile(meta, reps, aliases)`: the metadata object, the representative names
      of each mask and, optionally, every name of each mask. */
  datatype IndexFile = IndexFile(meta: Dict<string, Json>, reps: Index, aliases: Option<Index>)

  /** How masks are written as JSON member names: decimal ("mask12") or a twelve-character
      bitstring ("bits12"). */
  datatype KeyFormat = Mask12 | Bits12

  /** Every mask of an index lies in the twelve-bit range. */
  predicate MasksInRange(d: Index) {
    forall i :: 0 <= i < |d| ==> 0 <= d[i].0 < 4096
  }

  // ---------------------------------------------------------------------------------------
  // Writing

  /** `_key_format`: the metadata's "key" only when it is exactly "bits12" or "mask12"; a
      missing, non-string or unknown key falls back to "mask12". */
  function KeyFormatOf(meta: Dict<string, Json>): (r: KeyFormat)
    ensures r == Bits12 <==> Get(meta, "key") == Some(JStr("bits12"))
  {
    if Get(meta, "key") == Some(JStr("bits12")) then Bits12 else Mask12
  }

  /** `encode_key`: the decimal text of the mask, or its bitstring, which fails with a
      `ChromaInputError` outside the twelve-bit range. */
  function EncodeKey(fmt: KeyFormat, mask: int): (r: Result<string>)
    ensures r.Ok? <==> fmt == Mask12 || 0 <= mask < 4096
    ensures r.Err? ==> r.error == ChromaInputError
    ensures r.Ok? && fmt == Bits12 ==> Is01Text(r.value)
  {
    if fmt == Mask12 then Ok(IntToString(mask)) else MaskToBitstring(mask)
  }

  /** A list of names as a JSON array of strings. */
  function NamesJson(names: seq<string>): (r: Json)
    ensures r.JArr? && |r.items| == |names|
    ensures forall i :: 0 <= i < |names| ==> r.items[i] == JStr(names[i])
  {
    JArr(seq(|names|, i requires 0 <= i < |names| => JStr(names[i])))
  }

  /** `{encode_key(k): v for k, v in d.items()}`: fails at the first mask that cannot be
      encoded. */
  function EncodeEntries(fmt: KeyFormat, d: Index): (r: Result<Dict<string, Json>>)
    ensures r.Err? ==> r.error == ChromaInputError
    decreases |d|
  {
    if d == [] then Ok([])
    else
      var n := |d| - 1;
      var prev := EncodeEntries(fmt, d[..n]);
      var key := EncodeKey(fmt, d[n].0);
      if prev.Err? then prev
      else if key.Err? then Err(key.error)
      else Ok(Put(prev.value, key.value, NamesJson(d[n].1)))
  }

  /** Encoding fails exactly when the format is "bits12" and some mask is out of range. */
  lemma {:induction false} EncodeEntriesOk(fmt: KeyFormat, d: Index)
    ensures EncodeEntries(fmt, d).Ok? <==> fmt == Mask12 || MasksInRange(d)
    decreases |d|
  {
    if d != [] {
      var n := |d| - 1;
      EncodeEntriesOk(fmt, d[..n]);
      MasksInRangeSnoc(d);
      assert EncodeEntries(fmt, d).Ok? <==> EncodeEntries(fmt, d[..n]).Ok? && EncodeKey(fmt, d[n].0).Ok?;
    }
  }

  lemma MasksInRangeSnoc(d: Index)
    requires d != []
    ensures MasksInRange(d) <==> MasksInRange(d[..|d| - 1]) && 0 <= d[|d| - 1].0 < 4096
  {
    assert forall i :: 0 <= i < |d| - 1 ==> d[..|d| - 1][i] == d[i];
  }

  /** The members of the written object: "_meta", "reps" and, when there are aliases,
      "aliases". */
  function FileFields(meta: Dict<string, Json>, reps: Dict<string, Json>, aliases: Option<Dict<string, Json>>): Dict<string, Json> {
    [("_meta", JObj(meta)), ("reps", JObj(reps))] + (if aliases.Some? then [("aliases", JObj(aliases.value))] else [])
  }

  /** `to_json_obj`: a `ChromaInputError` exactly when the format is "bits12" and a mask of
      the representatives or of the aliases is out of range. */
  function ToJsonObj(f: IndexFile): (r: Result<Json>)
    ensures r.Ok? <==> (KeyFormatOf(f.meta) == Mask12 ||
                        (MasksInRange(f.reps) && (f.aliases.Some? ==> MasksInRange(f.aliases.value))))
    ensures r.Err? ==> r.error == ChromaInputError
    ensures r.Ok? ==> r.value.JObj? && Get(r.value.fields, "_meta") == Some(JObj(f.meta))
  {
    var fmt := KeyFormatOf(f.meta);
    var reps := EncodeEntries(fmt, f.reps);
    EncodeEntriesOk(fmt, f.reps);
    if reps.Err? then Err(reps.error)
    else if f.aliases.None? then Ok(JObj(FileFields(f.meta, reps.value, None)))
    else
      var aliases := EncodeEntries(fmt, f.aliases.value);
      EncodeEntriesOk(fmt, f.aliases.value);
      if aliases.Err? then Err(aliases.error)
      else Ok(JObj(FileFields(f.meta, reps.value, Some(aliases.value))))
  }

  // ---------------------------------------------------------------------------------------
  // Reading

  /** `parse_key` of `from_json_obj`: a twelve-character text of '0' and '1' is a bitstring,
      anything else goes through `int()`; any failure becomes a `ValueError`. */
  function ParseIndexKey(k: string): (r: Result<int>)
    ensures r.Err? ==> r.error == ValueError
    ensures Is01Text(k) ==> r.Ok? && 0 <= r.value < 4096
    ensures Is01Text(k) ==> forall i :: 0 <= i < CHROMA_LEN ==> (Bit(r.value, i) == 1 <==> k[i] == '1')
    ensures !Is01Text(k) ==> (r.Ok? <==> ParseInt(k).Some?) && (r.Ok? ==> r.value == ParseInt(k).value)
  {
    if Is01Text(k) then
      assert Strip(k) == k;
      match BitstringToMask(k)
      case Ok(m) => Ok(m)
      case Err(_) => Err(ValueError)
    else
      match ParseInt(k)
      case Some(m) => Ok(m)
      case None => Err(ValueError)
  }

  /** The value check of the "reps", "index" and "aliases" loops: a list of strings. */
  function StrList(v: Json): (r: Option<seq<string>>)
    ensures r.Some? <==> v.JArr? && forall i :: 0 <= i < |v.items| ==> v.items[i].JStr?
    ensures r.Some? ==> |r.value| == |v.items| && forall i :: 0 <= i < |v.items| ==> v.items[i] == JStr(r.value[i])
  {
    if v.JArr? && forall i :: 0 <= i < |v.items| ==> v.items[i].JStr? then
      Some(seq(|v.items|, i requires 0 <= i < |v.items| && v.items[i].JStr? => v.items[i].s))
    else None
  }

  /** The value check of the legacy "rep_index" loop: one string, kept as a one-name list. */
  function SingleName(v: Json): (r: Option<seq<string>>)
    ensures r.Some? <==> v.JStr?
    ensures r.Some? ==> r.value == [v.s]
  {
    if v.JStr? then Some([v.s]) else None
  }

  /** A decoding loop `for k, v in obj.items(): out[parse_key(k)] = value(v)`: a
      `ValueError` unless every key parses and every value passes the check; a later key
      that parses to the same mask replaces the earlier value in place. */
  function DecodeEntries(fields: Dict<string, Json>, value: Json -> Option<seq<string>>): (r: Result<Index>)
    ensures r.Err? ==> r.error == ValueError
    decreases |fields|
  {
    if fields == [] then Ok([])
    else
      var n := |fields| - 1;
      var prev := DecodeEntries(fields[..n], value);
      var mask := ParseIndexKey(fields[n].0);
      var v := value(fields[n].1);
      if prev.Err? || mask.Err? || v.None? then Err(ValueError)
      else Ok(Put(prev.value, mask.value, v.value))
  }

  /** A member that decodes: a parsable key and a value that passes the check. */
  predicate EntryOk(field: (string, Json), value: Json -> Option<seq<string>>) {
    ParseIndexKey(field.0).Ok? && value(field.1).Some?
  }

  /** Decoding fails exactly when some member's key or value is bad. */
  lemma {:induction false} DecodeEntriesOk(fields: Dict<string, Json>, value: Json -> Option<seq<string>>)
    ensures DecodeEntries(fields, value).Ok? <==> AllEntriesOk(fields, value)
    decreases |fields|
  {
    if fields != [] {
      var n := |fields| - 1;
      DecodeEntriesOk(fields[..n], value);
      AllEntriesOkSnoc(fields, value);
      assert DecodeEntries(fields, value).Ok? <==> DecodeEntries(fields[..n], value).Ok? && EntryOk(fields[n], value);
    }
  }

  predicate AllEntriesOk(fields: Dict<string, Json>, value: Json -> Option<seq<string>>) {
    forall i :: 0 <= i < |fields| ==> EntryOk(fields[i], value)
  }

  lemma AllEntriesOkSnoc(fields: Dict<string, Json>, value: Json -> Option<seq<string>>)
    requires fields != []
    ensures AllEntriesOk(fields, value) <==>
      AllEntriesOk(fields[..|fields| - 1], value) && EntryOk(fields[|fields| - 1], value)
  {
    assert forall i :: 0 <= i < |fields| - 1 ==> fields[..|fields| - 1][i] == fields[i];
  }

  /** One member of a legacy "index" object: its mask, the representatives chosen from
      its sorted names, and those sorted names. */
  function LegacyEntry(field: (string, Json)): (r: Result<(int, seq<string>, seq<string>)>)
    ensures r.Ok? <==> LegacyEntryOk(field)
    ensures r.Err? ==> r.error == ValueError
    ensures r.Ok? ==> r.value.2 == SortNames(StrList(field.1).value)
    ensures r.Ok? ==> r.value.1 != [] && forall x :: x in r.value.1 ==> x in r.value.2
  {
    var mask := ParseIndexKey(field.0);
    var v := StrList(field.1);
    if mask.Err? || v.None? then Err(ValueError)
    else
      var names := SortNames(v.value);
      var reps := RepsOrRepresentative(names);
      if reps.Err? then Err(ValueError)
      else Ok((mask.value, reps.value, names))
  }

  /** A member of a legacy "index" object that decodes: a parsable key and a non-empty
      list of strings. */
  predicate LegacyEntryOk(field: (string, Json)) {
    ParseIndexKey(field.0).Ok? && StrList(field.1).Some? && StrList(field.1).value != []
  }

  /** The legacy "index" loop: each list of names is sorted and kept as the aliases of its
      mask, and the representatives of the mask are chosen from it; an empty list is a
      `ValueError`. */
  function DecodeLegacy(fields: Dict<string, Json>): (r: Result<(Index, Index)>)
    ensures r.Err? ==> r.error == ValueError
    decreases |fields|
  {
    if fields == [] then Ok(([], []))
    else
      var n := |fields| - 1;
      var prev := DecodeLegacy(fields[..n]);
      var e := LegacyEntry(fields[n]);
      if prev.Err? || e.Err? then Err(ValueError)
      else Ok((Put(prev.value.0, e.value.0, e.value.1), Put(prev.value.1, e.value.0, e.value.2)))
  }

  /** The legacy layout fails exactly when some member's key is bad or its names are not
      a non-empty list of strings. */
  lemma {:induction false} DecodeLegacyOk(fields: Dict<string, Json>)
    ensures DecodeLegacy(fields).Ok? <==> AllLegacyOk(fields)
    decreases |fields|
  {
    if fields != [] {
      var n := |fields| - 1;
      DecodeLegacyOk(fields[..n]);
      AllLegacyOkSnoc(fields);
      assert DecodeLegacy(fields).Ok? <==> DecodeLegacy(fields[..n]).Ok? && LegacyEntryOk(fields[n]);
    }
  }

  predicate AllLegacyOk(fields: Dict<string, Json>) {
    forall i :: 0 <= i < |fields| ==> LegacyEntryOk(fields[i])
  }

  lemma AllLegacyOkSnoc(fields: Dict<string, Json>)
    requires fields != []
    ensures AllLegacyOk(fields) <==> AllLegacyOk(fields[..|fields| - 1]) && LegacyEntryOk(fields[|fields| - 1])
  {
    assert forall i :: 0 <= i < |fields| - 1 ==> fields[..|fields| - 1][i] == fields[i];
  }

  /** The object member `key` when it is itself an object (`isinstance(obj.get(key), dict)`). */
  function ObjField(fields: Dict<string, Json>, key: string): (r: Option<Dict<string, Json>>)
    ensures r.Some? <==> Get(fields, key).Some? && Get(fields, key).value.JObj?
    ensures r.Some? ==> Get(fields, key) == Some(JObj(r.value))
  {
    var g := Get(fields, key);
    if g.Some? && g.value.JObj? then Some(g.value.fields) else None
  }

  /** The representatives and aliases of `from_json_obj` before the "aliases" member is
      read: the first of "reps", "rep_index" and "index" that is an object decides. */
  function DecodeMain(fields: Dict<string, Json>): (r: Result<(Index, Option<Index>)>)
    ensures r.Err? ==> r.error == ValueError
    ensures (ObjField(fields, "reps").None? && ObjField(fields, "rep_index").None? &&
             ObjField(fields, "index").None?) ==> r.Err?
    ensures ObjField(fields, "reps").Some? ==>
      r == (match DecodeEntries(ObjField(fields, "reps").value, StrList)
            case Ok(reps) => Ok((reps, None))
            case Err(e) => Err(e))
  {
    if ObjField(fields, "reps").Some? then
      match DecodeEntries(ObjField(fields, "reps").value, StrList)
      case Ok(reps) => Ok((reps, None))
      case Err(e) => Err(e)
    else if ObjField(fields, "rep_index").Some? then
      match DecodeEntries(ObjField(fields, "rep_index").value, SingleName)
      case Ok(reps) => Ok((reps, None))
      case Err(e) => Err(e)
    else if ObjField(fields, "index").Some? then
      match DecodeLegacy(ObjField(fields, "index").value)
      case Ok(p) => Ok((p.0, Some(p.1)))
      case Err(e) => Err(e)
    else Err(ValueError)
  }

  /** `from_json_obj`: a `ValueError` unless the value is an object whose "_meta" is an
      object and one of "reps", "rep_index", "index" decodes; an "aliases" object, when
      present, replaces whatever aliases the main member gave. */
  function FromJson(obj: Json): (r: Result<IndexFile>)
    ensures r.Err? ==> r.error == ValueError
    ensures r.Ok? ==> obj.JObj? && Get(obj.fields, "_meta") == Some(JObj(r.value.meta))
    ensures (obj.JObj? && ObjField(obj.fields, "reps").None? && ObjField(obj.fields, "rep_index").None? &&
             ObjField(obj.fields, "index").None?) ==> r.Err?
  {
    if !obj.JObj? then Err(ValueError)
    else
      var meta := ObjField(obj.fields, "_meta");
      if meta.None? then Err(ValueError)
      else
        match DecodeMain(obj.fields)
        case Err(e) => Err(e)
        case Ok(main) =>
          if ObjField(obj.fields, "aliases").None? then Ok(IndexFile(meta.value, main.0, main.1))
          else
            match DecodeEntries(ObjField(obj.fields, "aliases").value, StrList)
            case Err(e) => Err(e)
            case Ok(aliases) => Ok(IndexFile(meta.value, main.0, Some(aliases)))
  }

  /** The decoding loop of `from_json_obj` for "reps", "rep_index" and "aliases": fills a
      dictionary member by member and stops at the first bad key or value. */
  method DecodeMembers(fields: Dict<string, Json>, value: Json -> Option<seq<string>>) returns (r: Result<Index>)
    ensures r == DecodeEntries(fields, value)
  {
    var out: Index := [];
    for i := 0 to |fields|
      invariant DecodeEntries(fields[..i], value) == Ok(out)
    {
      var mask := ParseIndexKey(fields[i].0);
      var v := value(fields[i].1);
      if mask.Err? || v.None? {
        DecodeEntriesOk(fields, value);
        assert !EntryOk(fields[i], value);
        return Err(ValueError);
      }
      assert fields[..i + 1][..i] == fields[..i];
      out := Put(out, mask.value, v.value);
    }
    assert fields[..|fields|] == fields;
    return Ok(out);
  }

  /** One more member of a legacy "index" object: `DecodeLegacy` of the longer prefix. */
  lemma DecodeLegacyPrefix(fields: Dict<string, Json>, i: int)
    requires 0 <= i < |fields|
    ensures DecodeLegacy(fields[..i + 1]) ==
              var prev := DecodeLegacy(fields[..i]);
              var e := LegacyEntry(fields[i]);
              if prev.Err? || e.Err? then Err(ValueError)
              else Ok((Put(prev.value.0, e.value.0, e.value.1), Put(prev.value.1, e.value.0, e.value.2)))
  {
    assert fields[..i + 1][..i] == fields[..i];
  }

  /** One bad member makes the whole legacy "index" object fail. */
  lemma DecodeLegacyBad(fields: Dict<string, Json>, i: int)
    requires 0 <= i < |fields| && !LegacyEntryOk(fields[i])
    ensures DecodeLegacy(fields) == Err(ValueError)
  {
    DecodeLegacyOk(fields);
  }

  /** The legacy "index" loop of `from_json_obj`: sorts each list of names, stores it as
      the aliases of its mask and stores the representatives chosen from it. */
  method DecodeLegacyMembers(fields: Dict<string, Json>) returns (r: Result<(Index, Index)>)
    ensures r == DecodeLegacy(fields)
  {
    var reps: Index := [];
    var aliases: Index := [];
    for i := 0 to |fields|
      invariant DecodeLegacy(fields[..i]) == Ok((reps, aliases))
    {
      var mask := ParseIndexKey(fields[i].0);
      var v := StrList(fields[i].1);
      if mask.Err? || v.None? {
        DecodeLegacyBad(fields, i);
        return Err(ValueError);
      }
      var names := SortNames(v.value);
      var picked := RepsOrRepresentative(names);
      if picked.Err? {
        assert LegacyEntry(fields[i]).Err?;
        DecodeLegacyBad(fields, i);
        return Err(ValueError);
      }
      assert LegacyEntry(fields[i]) == Ok((mask.value, picked.value, names));
      DecodeLegacyPrefix(fields, i);
      aliases := Put(aliases, mask.value, names);
      reps := Put(reps, mask.value, picked.value);
    }
    assert fields[..|fields|] == fields;
    return Ok((reps, aliases));
  }

  /** `from_json_obj`, step by step. */
  method FromJsonObj(obj: Json) returns (r: Result<IndexFile>)
    ensures r == FromJson(obj)
  {
    if !obj.JObj? {
      return Err(ValueError);
    }
    var meta := ObjField(obj.fields, "_meta");
    if meta.None? {
      return Err(ValueError);
    }
    var reps: Index;
    var aliases: Option<Index> := None;
    if ObjField(obj.fields, "reps").Some? {
      var decoded := DecodeMembers(ObjField(obj.fields, "reps").value, StrList);
      if decoded.Err? {
        return Err(ValueError);
      }
      reps := decoded.value;
    } else if ObjField(obj.fields, "rep_index").Some? {
      var decoded := DecodeMembers(ObjField(obj.fields, "rep_index").value, SingleName);
      if decoded.Err? {
        return Err(ValueError);
      }
      reps := decoded.value;
    } else if ObjField(obj.fields, "index").Some? {
      var decoded := DecodeLegacyMembers(ObjField(obj.fields, "index").value);
      if decoded.Err? {
        return Err(ValueError);
      }
      reps := decoded.value.0;
      aliases := Some(decoded.value.1);
    } else {
      return Err(ValueError);
    }
    if ObjField(obj.fields, "aliases").Some? {
      var decoded := DecodeMembers(ObjField(obj.fields, "aliases").value, StrList);
      if decoded.Err? {
        return Err(ValueError);
      }
      aliases := Some(decoded.value);
    }
    return Ok(IndexFile(meta.value, reps, aliases));
  }

  /** Reference reading of one mask: the value of the last member whose key parses to it. */
  function LastValue(fields: Dict<string, Json>, value: Json -> Option<seq<string>>, m: int): Option<seq<string>>
    decreases |fields|
  {
    if fields == [] then None
    else if ParseIndexKey(fields[|fields| - 1].0) == Ok(m) then value(fields[|fields| - 1].1)
    else LastValue(fields[..|fields| - 1], value, m)
  }

  /** In a decoded dictionary each mask holds the value of the last member that names it,
      and no mask that no member names appears. */
  lemma {:induction false} DecodeEntriesGet(fields: Dict<string, Json>, value: Json -> Option<seq<string>>, m: int)
    requires DecodeEntries(fields, value).Ok?
    ensures Get(DecodeEntries(fields, value).value, m) == LastValue(fields, value, m)
    decreases |fields|
  {
    if fields != [] {
      DecodeEntriesGet(fields[..|fields| - 1], value, m);
    }
  }

  /** In the legacy layout every mask with aliases has representatives and conversely;
      the representatives are a non-empty selection of the aliases, which are sorted. */
  lemma {:induction false} LegacyConsistent(fields: Dict<string, Json>, m: int)
    requires DecodeLegacy(fields).Ok?
    ensures var p := DecodeLegacy(fields).value;
      (Get(p.0, m).Some? <==> Get(p.1, m).Some?) &&
      (Get(p.0, m).Some? ==> Get(p.0, m).value != [] && forall x :: x in Get(p.0, m).value ==> x in Get(p.1, m).value) &&
      (Get(p.1, m).Some? ==> Sorted(Get(p.1, m).value, StrLe))
    decreases |fields|
  {
    if fields != [] {
      var n := |fields| - 1;
      LegacyConsistent(fields[..n], m);
      var e := LegacyEntry(fields[n]).value;
      if e.0 == m {
        StrLeOrder();
        SortSorted(StrList(fields[n].1).value, StrLe);
      }
    }
  }

  // ---------------------------------------------------------------------------------------
  // Round trip

  /** A mask in range is read back from either of its encodings. */
  lemma KeyRoundTrip(fmt: KeyFormat, mask: int)
    requires 0 <= mask < 4096
    ensures EncodeKey(fmt, mask).Ok? && ParseIndexKey(EncodeKey(fmt, mask).value) == Ok(mask)
  {
    if fmt == Mask12 {
      var s := IntToString(mask);
      assert !Is01Text(s);
      ParseIntOfIntToString(mask);
    } else {
      BitstringRoundTrip(mask);
      var s := MaskToBitstring(mask).value;
      assert Strip(s) == s;
    }
  }

  /** The encoded members of an index, one per entry, in order. */
  function EncodedFields(fmt: KeyFormat, d: Index): (r: Dict<string, Json>)
    requires MasksInRange(d)
    ensures |r| == |d|
  {
    seq(|d|, i requires 0 <= i < |d| => (EncodeKey(fmt, d[i].0).value, NamesJson(d[i].1)))
  }

  /** With distinct masks, encoding writes one member per entry and no two collide. */
  lemma {:induction false} EncodeDistinct(fmt: KeyFormat, d: Index)
    requires MasksInRange(d) && DistinctKeys(d)
    ensures EncodeEntries(fmt, d) == Ok(EncodedFields(fmt, d))
    decreases |d|
  {
    if d != [] {
      var n := |d| - 1;
      MasksInRangeSnoc(d);
      EncodeDistinct(fmt, d[..n]);
      EncodedKeyFresh(fmt, d);
      PutNew(EncodedFields(fmt, d[..n]), EncodeKey(fmt, d[n].0).value, NamesJson(d[n].1));
      EncodedFieldsSnoc(fmt, d);
    }
  }

  /** The last mask's member name is not among the earlier ones. */
  lemma EncodedKeyFresh(fmt: KeyFormat, d: Index)
    requires d != [] && MasksInRange(d) && DistinctKeys(d)
    ensures EncodeKey(fmt, d[|d| - 1].0).value !in KeysOf(EncodedFields(fmt, d[..|d| - 1]))
  {
    var n := |d| - 1;
    var e := EncodedFields(fmt, d[..n]);
    var key := EncodeKey(fmt, d[n].0).value;
    forall i | 0 <= i < n ensures KeysOf(e)[i] != key {
      assert d[..n][i] == d[i];
      assert e[i].0 == EncodeKey(fmt, d[i].0).value;
      EncodeKeyInjective(fmt, d[i].0, d[n].0);
    }
  }

  lemma EncodedFieldsSnoc(fmt: KeyFormat, d: Index)
    requires d != [] && MasksInRange(d)
    ensures EncodedFields(fmt, d) ==
      EncodedFields(fmt, d[..|d| - 1]) + [(EncodeKey(fmt, d[|d| - 1].0).value, NamesJson(d[|d| - 1].1))]
  {
    var n := |d| - 1;
    var all := EncodedFields(fmt, d);
    var put := EncodedFields(fmt, d[..n]) + [(EncodeKey(fmt, d[n].0).value, NamesJson(d[n].1))];
    forall i | 0 <= i < |all| ensures all[i] == put[i] {
      if i < n {
        assert d[..n][i] == d[i];
      }
    }
    assert put == all;
  }

  /** Distinct masks in range get distinct member names. */
  lemma EncodeKeyInjective(fmt: KeyFormat, a: int, b: int)
    requires 0 <= a < 4096 && 0 <= b < 4096 && a != b
    ensures EncodeKey(fmt, a).value != EncodeKey(fmt, b).value
  {
    KeyRoundTrip(fmt, a);
    KeyRoundTrip(fmt, b);
  }

  /** Decoding the encoded members gives back the index. */
  lemma {:induction false} DecodeEncoded(fmt: KeyFormat, d: Index)
    requires MasksInRange(d) && DistinctKeys(d)
    ensures DecodeEntries(EncodedFields(fmt, d), StrList) == Ok(d)
    decreases |d|
  {
    if d != [] {
      var n := |d| - 1;
      MasksInRangeSnoc(d);
      DecodeEncoded(fmt, d[..n]);
      DecodeEncodedStep(fmt, d);
    }
  }

  lemma DecodeEncodedStep(fmt: KeyFormat, d: Index)
    requires d != [] && MasksInRange(d) && DistinctKeys(d) && MasksInRange(d[..|d| - 1])
    requires DecodeEntries(EncodedFields(fmt, d[..|d| - 1]), StrList) == Ok(d[..|d| - 1])
    ensures DecodeEntries(EncodedFields(fmt, d), StrList) == Ok(d)
  {
    DecodeLastField(fmt, d);
    PutLast(d);
  }

  /** Decoding the members of an encoded index reads the last member back onto the
      decoded prefix. */
  lemma DecodeLastField(fmt: KeyFormat, d: Index)
    requires d != [] && MasksInRange(d) && MasksInRange(d[..|d| - 1])
    requires DecodeEntries(EncodedFields(fmt, d[..|d| - 1]), StrList) == Ok(d[..|d| - 1])
    ensures DecodeEntries(EncodedFields(fmt, d), StrList) == Ok(Put(d[..|d| - 1], d[|d| - 1].0, d[|d| - 1].1))
  {
    var n := |d| - 1;
    var e := EncodedFields(fmt, d);
    EncodedFieldsSnoc(fmt, d);
    assert e[..n] == EncodedFields(fmt, d[..n]);
    KeyRoundTrip(fmt, d[n].0);
    StrListOfNames(d[n].1);
  }

  /** Storing the last entry of a dictionary with distinct keys onto the rest rebuilds it. */
  lemma PutLast(d: Index)
    requires d != [] && DistinctKeys(d)
    ensures Put(d[..|d| - 1], d[|d| - 1].0, d[|d| - 1].1) == d
  {
    var n := |d| - 1;
    LastKeyFresh(d);
    PutNew(d[..n], d[n].0, d[n].1);
    assert d[..n] + [(d[n].0, d[n].1)] == d;
  }

  lemma LastKeyFresh(d: Index)
    requires d != [] && DistinctKeys(d)
    ensures d[|d| - 1].0 !in KeysOf(d[..|d| - 1])
  {
    var n := |d| - 1;
    forall i | 0 <= i < n ensures KeysOf(d[..n])[i] != d[n].0 {
      assert d[..n][i] == d[i];
    }
  }

  /** A list of names is read back from its JSON array. */
  lemma StrListOfNames(names: seq<string>)
    ensures StrList(NamesJson(names)) == Some(names)
  {
    var j := NamesJson(names);
    assert forall i :: 0 <= i < |j.items| ==> j.items[i].JStr?;
    var r := StrList(j).value;
    assert forall i :: 0 <= i < |names| ==> r[i] == names[i];
    assert r == names;
  }

  /** The members "_meta", "reps" and "aliases" of a written file, looked up. */
  lemma FileFieldsGet(meta: Dict<string, Json>, reps: Dict<string, Json>, aliases: Option<Dict<string, Json>>)
    ensures ObjField(FileFields(meta, reps, aliases), "_meta") == Some(meta)
    ensures ObjField(FileFields(meta, reps, aliases), "reps") == Some(reps)
    ensures ObjField(FileFields(meta, reps, aliases), "aliases") == aliases
  {
    var fs := FileFields(meta, reps, aliases);
    assert fs[0].0 == "_meta" && fs[1].0 == "reps";
    assert "_meta"[1] != "reps"[1] && "_meta"[0] != "aliases"[0] && "reps"[0] != "aliases"[0];
    FirstMatch(fs, "_meta", 0);
    FirstMatch(fs, "reps", 1);
    if aliases.Some? {
      FirstMatch(fs, "aliases", 2);
    } else {
      NoMatch(fs, "aliases");
    }
  }

  /** A file whose masks are distinct and in range is read back unchanged from the object
      `to_json_obj` writes, in either key format. */
  lemma FileRoundTrip(f: IndexFile)
    requires MasksInRange(f.reps) && DistinctKeys(f.reps)
    requires f.aliases.Some? ==> MasksInRange(f.aliases.value) && DistinctKeys(f.aliases.value)
    ensures ToJsonObj(f).Ok? && FromJson(ToJsonObj(f).value) == Ok(f)
  {
    var fmt := KeyFormatOf(f.meta);
    EncodeDistinct(fmt, f.reps);
    DecodeEncoded(fmt, f.reps);
    var reps := EncodedFields(fmt, f.reps);
    if f.aliases.Some? {
      EncodeDistinct(fmt, f.aliases.value);
      DecodeEncoded(fmt, f.aliases.value);
      var aliases := EncodedFields(fmt, f.aliases.value);
      FileFieldsGet(f.meta, reps, Some(aliases));
    } else {
      FileFieldsGet(f.meta, reps, None);
    }
  }

  // ---------------------------------------------------------------------------------------
  // Building

  const BIT_ORDER: seq<string> := ["C", "C#", "D", "D#", "E", "F", "F#", "G", "G#", "A", "A#", "B"]

  /** The representatives `make_index_file` keeps for one mask:
      `filter_slash_suggestions(choose_representatives_by_root(names) or [choose_representative(names)])`. */
  function EntryReps(names: seq<string>): (r: seq<string>)
    requires names != []
    ensures r != [] && forall x :: x in r ==> x in names
  {
    var picked := RepsOrRepresentative(names).value;
    var r := FilterSlashSuggestions(picked);
    assert picked[0] in picked;
    r
  }

  /** The representatives of every entry of an index, keys and order unchanged. */
  function RepsOfIndex(index: Index): (r: Index)
    requires forall i :: 0 <= i < |index| ==> index[i].1 != []
    ensures |r| == |index| && KeysOf(r) == KeysOf(index)
    ensures forall i :: 0 <= i < |r| ==> r[i].1 != [] && forall x :: x in r[i].1 ==> x in index[i].1
  {
    seq(|index|, i requires 0 <= i < |index| => (index[i].0, EntryReps(index[i].1)))
  }

  /** The metadata `make_index_file` writes; the source file name and the creation time
      are parameters. */
  function MakeMeta(sourceName: string, createdUtc: string, index: Index, chords: Dict<string, seq<int>>): Dict<string, Json> {
    [("source", JStr(sourceName)),
     ("created_utc", JStr(createdUtc)),
     ("chroma_len", JInt(CHROMA_LEN)),
     ("key", JStr("mask12")),
     ("bit_order", NamesJson(BIT_ORDER)),
     ("unique_keys", JInt(|index|)),
     ("num_chords", JInt(|chords|))]
  }

  /** `make_index_file`: the chroma index as aliases, the representatives `EntryReps`
      keeps for each mask (non-empty, drawn from that mask's names), decimal keys; fails as
      `build_chroma_index` does. */
  function MakeIndexFile(sourceName: string, createdUtc: string, chords: Dict<string, seq<int>>): (r: Result<IndexFile>)
    ensures r.Ok? <==> AllChroma(chords)
    ensures r.Err? ==> r.error == ChromaInputError
    ensures r.Ok? ==> KeyFormatOf(r.value.meta) == Mask12 && r.value.aliases == Some(ChromaIndexOf(chords).value)
    ensures r.Ok? ==> KeysOf(r.value.reps) == KeysOf(r.value.aliases.value)
    ensures r.Ok? ==> forall i :: 0 <= i < |r.value.reps| ==>
                        (r.value.reps[i].1 != [] && forall x :: x in r.value.reps[i].1 ==> x in r.value.aliases.value[i].1)
    ensures r.Ok? ==> forall i :: 0 <= i < |r.value.aliases.value| ==> r.value.aliases.value[i].1 != []
    ensures r.Ok? ==> r.value.reps == RepsOfIndex(r.value.aliases.value)
  {
    match ChromaIndexOf(chords)
    case Err(e) => Err(e)
    case Ok(index) =>
      IndexEntriesNonEmpty(chords);
      MakeMetaMask12(sourceName, createdUtc, index, chords);
      Ok(IndexFile(MakeMeta(sourceName, createdUtc, index, chords), RepsOfIndex(index), Some(index)))
  }

  /** The metadata of a built file asks for decimal keys. */
  lemma MakeMetaMask12(sourceName: string, createdUtc: string, index: Index, chords: Dict<string, seq<int>>)
    ensures KeyFormatOf(MakeMeta(sourceName, createdUtc, index, chords)) == Mask12
  {
    var meta := MakeMeta(sourceName, createdUtc, index, chords);
    assert meta[3] == ("key", JStr("mask12"));
    assert meta[0].0[0] == 's' && meta[1].0[0] == 'c' && meta[2].0[0] == 'c';
    FirstMatch(meta, "key", 3);
  }

  /** The masks of an index file built from a chord table are distinct and in range, so
      the written file reads back as built. */
  lemma MakeIndexFileRoundTrip(sourceName: string, createdUtc: string, chords: Dict<string, seq<int>>)
    requires AllChroma(chords)
    ensures var f := MakeIndexFile(sourceName, createdUtc, chords).value;
      ToJsonObj(f).Ok? && FromJson(ToJsonObj(f).value) == Ok(f)
  {
    var f := MakeIndexFile(sourceName, createdUtc, chords).value;
    var idx := ChromaIndexOf(chords).value;
    IndexKeysAscending(chords);
    forall i | 0 <= i < |idx| ensures 0 <= idx[i].0 < 4096 {
      assert idx[i] in idx;
      IndexEntry(chords, idx[i]);
    }
    assert KeysOf(f.reps) == KeysOf(idx);
    forall i | 0 <= i < |f.reps| ensures f.reps[i].0 == idx[i].0 {
      assert KeysOf(f.reps)[i] == KeysOf(idx)[i];
    }
    FileRoundTrip(f);
  }
}

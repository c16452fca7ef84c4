/** Chroma encodings (backend/jass/chroma_index.py). A chord is a set of pitch classes,
    written three ways: a list of twelve 0/1 values, an integer mask below 4096 whose bit
    i stands for pitch class i (C = 0, C# = 1, ..., B = 11), and a twelve-character
    bitstring whose character i is '1' exactly when pitch class i sounds. */
module Chroma {
  import opened Wrappers
  import opened Text

  const CHROMA_LEN: nat := 12

  /** 1 << k */
  function Pow2(k: nat): (r: nat)
    ensures r >= 1
  {
    if k == 0 then 1 else 2 * Pow2(k - 1)
  }

  /** m >> k, for a non-negative m */
  function ShiftRight(m: nat, k: nat): nat {
    if k == 0 then m else ShiftRight(m / 2, k - 1)
  }

  /** (m >> k) & 1 */
  function Bit(m: nat, k: nat): (r: int)
    ensures r == 0 || r == 1
  {
    ShiftRight(m, k) % 2
  }

  predicate IsBits(b: seq<int>) {
    forall i :: 0 <= i < |b| ==> b[i] == 0 || b[i] == 1
  }

  /** What `bits_to_mask` accepts: exactly twelve entries, each 0 or 1. */
  predicate IsChroma(b: seq<int>) {
    |b| == CHROMA_LEN && IsBits(b)
  }

  /** The number a 0/1 list spells with element 0 as the least significant bit. */
  function FromBits(b: seq<int>): int {
    if b == [] then 0 else b[0] + 2 * FromBits(b[1..])
  }

  /** The low k bits of m, least significant first. */
  function LowBits(m: nat, k: nat): (r: seq<int>)
    ensures |r| == k && IsBits(r)
    ensures forall i :: 0 <= i < k ==> r[i] == Bit(m, i)
  {
    seq(k, i requires 0 <= i < k => Bit(m, i))
  }

  lemma {:induction false} FromBitsRange(b: seq<int>)
    requires IsBits(b)
    ensures 0 <= FromBits(b) < Pow2(|b|)
  {
    if b != [] {
      FromBitsRange(b[1..]);
    }
  }

  /** Reading bit i back out of the mask gives element i of the list. */
  lemma {:induction false} BitOfFromBits(b: seq<int>, i: nat)
    requires IsBits(b) && i < |b|
    ensures FromBits(b) >= 0 && Bit(FromBits(b), i) == b[i]
  {
    FromBitsRange(b);
    if i > 0 {
      FromBitsRange(b[1..]);
      assert FromBits(b) / 2 == FromBits(b[1..]);
      BitOfFromBits(b[1..], i - 1);
    }
  }

  /** The low k bits of a number below 2^k spell that number. */
  lemma {:induction false} FromLowBits(m: nat, k: nat)
    requires m < Pow2(k)
    ensures FromBits(LowBits(m, k)) == m
  {
    if k > 0 {
      var r := LowBits(m, k);
      assert r[1..] == LowBits(m / 2, k - 1) by {
        forall i | 0 <= i < k - 1 ensures r[1..][i] == Bit(m / 2, i) {
          assert ShiftRight(m, i + 1) == ShiftRight(m / 2, i);
        }
      }
      FromLowBits(m / 2, k - 1);
      assert r[0] == m % 2;
    }
  }

  /** `mask |= 1 << i` on a mask whose bit i is clear adds 2^i: the value of a prefix grows
      by the next bit's weight. */
  lemma {:induction false} FromBitsSnoc(b: seq<int>, i: nat)
    requires i < |b|
    ensures FromBits(b[..i + 1]) == FromBits(b[..i]) + b[i] * Pow2(i)
  {
    if i > 0 {
      assert b[..i + 1][1..] == b[1..][..i];
      assert b[..i][1..] == b[1..][..i - 1];
      FromBitsSnoc(b[1..], i - 1);
    }
  }

  /** `bits_to_mask`, as a value: the mask of a valid list, otherwise `ChromaInputError`. */
  function MaskOf(bits: seq<int>): (r: Result<int>)
    ensures r.Ok? <==> IsChroma(bits)
    ensures r.Err? ==> r.error == ChromaInputError
    ensures r.Ok? ==> 0 <= r.value < 4096 && forall i :: 0 <= i < CHROMA_LEN ==> Bit(r.value, i) == bits[i]
  {
    if IsChroma(bits) then
      FromBitsRange(bits);
      forall i | 0 <= i < CHROMA_LEN ensures Bit(FromBits(bits), i) == bits[i] {
        BitOfFromBits(bits, i);
      }
      Ok(FromBits(bits))
    else Err(ChromaInputError)
  }

  /** `bits_to_mask`: rejects a wrong length first, then the first element that is not 0/1;
      sets bit i for every element equal to 1. */
  method BitsToMask(bits: seq<int>) returns (r: Result<int>)
    ensures r == MaskOf(bits)
  {
    if |bits| != CHROMA_LEN {
      return Err(ChromaInputError);
    }
    var mask := 0;
    var i := 0;
    while i < |bits|
      invariant 0 <= i <= |bits|
      invariant IsBits(bits[..i])
      invariant mask == FromBits(bits[..i]) && 0 <= mask < Pow2(i)
    {
      var bit := bits[i];
      if bit != 0 && bit != 1 {
        return Err(ChromaInputError);
      }
      FromBitsSnoc(bits, i);
      if bit == 1 {
        // bit i of mask is still clear, so `mask |= 1 << i` adds 2^i
        mask := mask + Pow2(i);
      }
      i := i + 1;
    }
    assert bits[..i] == bits;
    return Ok(mask);
  }

  /** `mask_to_bits`: bit i of the mask, for i = 0..11; a mask outside [0, 4096) is a
      `ChromaInputError`. */
  function MaskToBits(mask: int): (r: Result<seq<int>>)
    ensures r.Ok? <==> 0 <= mask < 4096
    ensures r.Err? ==> r.error == ChromaInputError
    ensures r.Ok? ==> IsChroma(r.value) && forall i :: 0 <= i < CHROMA_LEN ==> r.value[i] == Bit(mask, i)
  {
    if mask < 0 || mask >= Pow2(CHROMA_LEN) then Err(ChromaInputError)
    else Ok(LowBits(mask, CHROMA_LEN))
  }

  /** `mask_to_bits(bits_to_mask(b)) == b` for every valid 0/1 list. */
  lemma BitsMaskRoundTrip(bits: seq<int>)
    requires IsChroma(bits)
    ensures MaskOf(bits).Ok? && MaskToBits(MaskOf(bits).value) == Ok(bits)
  {
    var m := MaskOf(bits).value;
    assert MaskToBits(m).value == bits;
  }

  /** `bits_to_mask(mask_to_bits(m)) == m` for every mask in [0, 4096). */
  lemma MaskBitsRoundTrip(mask: int)
    requires 0 <= mask < 4096
    ensures MaskToBits(mask).Ok? && MaskOf(MaskToBits(mask).value) == Ok(mask)
  {
    FromLowBits(mask, CHROMA_LEN);
  }

  /** 0 >> k is 0. */
  lemma {:induction false} ShiftZero(k: nat)
    ensures ShiftRight(0, k) == 0
  {
    if k > 0 {
      ShiftZero(k - 1);
    }
  }

  /** `mask_to_bits(0)` is twelve zeros. */
  lemma ZeroMaskBits()
    ensures MaskToBits(0) == Ok(seq(CHROMA_LEN, _ => 0))
  {
    forall k | 0 <= k < CHROMA_LEN
      ensures Bit(0, k) == 0
    {
      ShiftZero(k);
    }
    assert MaskToBits(0).value == seq(CHROMA_LEN, _ => 0);
  }

  /** The character `bits_to_bitstring` writes for one element: '1' for a non-zero value. */
  function BitChar(b: int): char {
    if b != 0 then '1' else '0'
  }

  /** `bits_to_bitstring` */
  function BitsToBitstring(bits: seq<int>): (r: Result<string>)
    ensures r.Ok? <==> |bits| == CHROMA_LEN
    ensures r.Err? ==> r.error == ChromaInputError
    ensures r.Ok? ==> |r.value| == CHROMA_LEN && forall i :: 0 <= i < CHROMA_LEN ==> (r.value[i] == '1' <==> bits[i] != 0)
  {
    if |bits| != CHROMA_LEN then Err(ChromaInputError)
    else Ok(seq(CHROMA_LEN, i requires 0 <= i < CHROMA_LEN => BitChar(bits[i])))
  }

  /** `mask_to_bitstring`: character i is '1' exactly when bit i of the mask is set. */
  function MaskToBitstring(mask: int): (r: Result<string>)
    ensures r.Ok? <==> 0 <= mask < 4096
    ensures r.Err? ==> r.error == ChromaInputError
    ensures r.Ok? ==> Is01Text(r.value) && forall i :: 0 <= i < CHROMA_LEN ==> (r.value[i] == '1' <==> Bit(mask, i) == 1)
  {
    match MaskToBits(mask)
    case Err(e) => Err(e)
    case Ok(bits) => BitsToBitstring(bits)
  }

  /** Exactly twelve characters, each '0' or '1'. */
  predicate Is01Text(s: string) {
    |s| == CHROMA_LEN && forall i :: 0 <= i < |s| ==> s[i] == '0' || s[i] == '1'
  }

  /** `[int(c) for c in s]` for a text of '0'/'1' characters. */
  function DigitBits(s: string): (r: seq<int>)
    ensures |r| == |s| && forall i :: 0 <= i < |s| ==> r[i] == (if s[i] == '1' then 1 else 0)
  {
    seq(|s|, i requires 0 <= i < |s| => if s[i] == '1' then 1 else 0)
  }

  /** `bitstring_to_mask`: strips whitespace, then accepts exactly twelve '0'/'1' characters;
      anything else is a `ChromaInputError`. */
  function BitstringToMask(bitstring: string): (r: Result<int>)
    ensures r.Ok? <==> Is01Text(Strip(bitstring))
    ensures r.Err? ==> r.error == ChromaInputError
    ensures r.Ok? ==> (0 <= r.value < 4096 &&
      forall i :: 0 <= i < CHROMA_LEN ==> (Bit(r.value, i) == 1 <==> Strip(bitstring)[i] == '1'))
  {
    var s := Strip(bitstring);
    if !Is01Text(s) then Err(ChromaInputError)
    else MaskOf(DigitBits(s))
  }

  /** `bitstring_to_mask(mask_to_bitstring(m)) == m` for every mask in [0, 4096). */
  lemma BitstringRoundTrip(mask: int)
    requires 0 <= mask < 4096
    ensures MaskToBitstring(mask).Ok? && BitstringToMask(MaskToBitstring(mask).value) == Ok(mask)
  {
    var s := MaskToBitstring(mask).value;
    assert Strip(s) == s;
    assert DigitBits(s) == MaskToBits(mask).value;
    MaskBitsRoundTrip(mask);
  }

  /** The positions i of `bits` whose value passes `keep`, in ascending order. */
  function IndicesWhere(bits: seq<int>, keep: int -> bool): (r: seq<nat>)
    ensures forall k :: 0 <= k < |r| ==> r[k] < |bits| && keep(bits[r[k]])
    ensures forall k, l :: 0 <= k < l < |r| ==> r[k] < r[l]
  {
    if bits == [] then []
    else
      var init := IndicesWhere(bits[..|bits| - 1], keep);
      init + (if keep(bits[|bits| - 1]) then [|bits| - 1] else [])
  }

  lemma IndicesWhereSnoc(bits: seq<int>, keep: int -> bool, i: int)
    requires 0 <= i < |bits|
    ensures IndicesWhere(bits[..i + 1], keep) == IndicesWhere(bits[..i], keep) + (if keep(bits[i]) then [i] else [])
  {
    assert bits[..i + 1][..i] == bits[..i];
  }

  /** The mask of a valid chroma list fits in twelve bits. */
  lemma ChromaMaskRange(bits: seq<int>)
    requires IsChroma(bits)
    ensures 0 <= FromBits(bits) < 4096
  {
    assert MaskOf(bits).Ok?;
  }

  /** Every position whose value passes `keep` is listed. */
  lemma {:induction false} IndicesWhereComplete(bits: seq<int>, keep: int -> bool, i: int)
    requires 0 <= i < |bits| && keep(bits[i])
    ensures i in IndicesWhere(bits, keep)
  {
    if i < |bits| - 1 {
      IndicesWhereComplete(bits[..|bits| - 1], keep, i);
    }
  }

  const NOTE_NAMES_SHARP_LOWER: seq<string> := ["c", "c#", "d", "d#", "e", "f", "f#", "g", "g#", "a", "a#", "b"]
  const NOTE_NAMES_FLAT_LOWER: seq<string> := ["c", "db", "d", "eb", "e", "f", "gb", "g", "ab", "a", "bb", "b"]

  function IsOne(b: int): bool {
    b == 1
  }

  /** `chroma_bits_to_notes`: the lower-case name of every pitch class whose element equals 1,
      in pitch-class order; sharps unless `flats`. A wrong length is a `ChromaInputError`. */
  method ChromaBitsToNotes(bits: seq<int>, flats: bool) returns (r: Result<seq<string>>)
    ensures r.Ok? <==> |bits| == CHROMA_LEN
    ensures r.Err? ==> r.error == ChromaInputError
    ensures r.Ok? ==> var on := IndicesWhere(bits, IsOne);
      |r.value| == |on| &&
      forall k :: 0 <= k < |on| ==> r.value[k] == (if flats then NOTE_NAMES_FLAT_LOWER else NOTE_NAMES_SHARP_LOWER)[on[k]]
  {
    if |bits| != CHROMA_LEN {
      return Err(ChromaInputError);
    }
    var names := if flats then NOTE_NAMES_FLAT_LOWER else NOTE_NAMES_SHARP_LOWER;
    var out: seq<string> := [];
    for i := 0 to |bits|
      invariant var on := IndicesWhere(bits[..i], IsOne);
        |out| == |on| && forall k :: 0 <= k < |on| ==> out[k] == names[on[k]]
    {
      IndicesWhereSnoc(bits, IsOne, i);
      if bits[i] == 1 {
        out := out + [names[i]];
      }
    }
    assert bits[..|bits|] == bits;
    return Ok(out);
  }

  /** The value `_parse_bits_list` returns for a list of integers: the list itself when it
      has twelve entries, each 0 or 1; otherwise `ChromaInputError`. */
  function CheckBits(value: seq<int>): (r: Result<seq<int>>)
    ensures r.Ok? <==> IsChroma(value)
    ensures r.Ok? ==> r.value == value
    ensures r.Err? ==> r.error == ChromaInputError
  {
    if IsChroma(value) then Ok(value) else Err(ChromaInputError)
  }

  /** `_parse_bits_list` on a list of integers: copies the list, then checks its length, then
      each element. */
  method ParseBitsList(value: seq<int>) returns (r: Result<seq<int>>)
    ensures r == CheckBits(value)
  {
    var bits: seq<int> := [];
    for i := 0 to |value|
      invariant bits == value[..i]
    {
      bits := bits + [value[i]];
    }
    assert bits == value;
    if |bits| != CHROMA_LEN {
      return Err(ChromaInputError);
    }
    for i := 0 to |bits|
      invariant IsBits(bits[..i])
    {
      if bits[i] != 0 && bits[i] != 1 {
        return Err(ChromaInputError);
      }
      assert bits[..i + 1] == bits[..i] + [bits[i]];
    }
    assert bits[..|bits|] == bits;
    return Ok(bits);
  }

  /** What `parse_chroma` makes of a text: a bit list, or, for text starting with '[', the
      JSON array text that it hands to `json.loads`. */
  datatype ChromaText = BitList(bits: seq<int>) | JsonArrayText(text: string)

  predicate OnlyChars(s: string, allowed: string) {
    forall i :: 0 <= i < |s| ==> s[i] in allowed
  }

  /** The stripped comma-separated parts of a text. */
  function Parts(s: string): (r: seq<string>)
    ensures |r| == |Split(s, ',')|
    ensures forall k :: 0 <= k < |r| ==> r[k] == Strip(Split(s, ',')[k])
  {
    var pieces := Split(s, ',');
    seq(|pieces|, k requires 0 <= k < |pieces| => Strip(pieces[k]))
  }

  /** `int(p)` of every part, or None if one of them is not an integer. */
  function PartValues(parts: seq<string>): (r: Option<seq<int>>)
    ensures r.Some? <==> forall k :: 0 <= k < |parts| ==> ParseInt(parts[k]).Some?
    ensures r.Some? ==> |r.value| == |parts| && forall k :: 0 <= k < |parts| ==> ParseInt(parts[k]) == Some(r.value[k])
  {
    if forall k :: 0 <= k < |parts| ==> ParseInt(parts[k]).Some? then
      Some(seq(|parts|, k requires 0 <= k < |parts| => ParseInt(parts[k]).value))
    else None
  }

  /** The comma form of `parse_chroma`: exactly twelve comma-separated parts, each read by
      `int()` after stripping and each 0 or 1. */
  function ParseCommaBits(s: string): (r: Result<seq<int>>)
    ensures r.Ok? ==> (IsChroma(r.value) && |Split(s, ',')| == CHROMA_LEN &&
      forall k :: 0 <= k < CHROMA_LEN ==> ParseInt(Strip(Split(s, ',')[k])) == Some(r.value[k]))
    ensures |Split(s, ',')| != CHROMA_LEN ==> r.Err?
    ensures (|Split(s, ',')| == CHROMA_LEN &&
      forall k :: 0 <= k < CHROMA_LEN ==> ParseInt(Strip(Split(s, ',')[k])) in {Some(0), Some(1)}) ==> r.Ok?
    ensures r.Err? ==> r.error == ChromaInputError
  {
    var parts := Parts(s);
    if |parts| != CHROMA_LEN then Err(ChromaInputError)
    else
      match PartValues(parts)
      case None => Err(ChromaInputError)
      case Some(values) => CheckBits(values)
  }

  /** `parse_chroma` without the JSON branch. The stripped text is read as twelve 0/1
      characters, else (when it holds a comma and only 0, 1, comma, space and tab) in the
      comma form, else (when it starts with '[') as JSON; anything else is a
      `ChromaInputError`. */
  function ParseChroma(text: string): (r: Result<ChromaText>)
    ensures r.Ok? && r.value.BitList? ==> IsChroma(r.value.bits)
    ensures Is01Text(Strip(text)) ==> r == Ok(BitList(DigitBits(Strip(text))))
    ensures !Is01Text(Strip(text)) && r.Ok? && r.value.BitList? ==> ParseCommaBits(Strip(text)) == Ok(r.value.bits)
    ensures r.Ok? && r.value.JsonArrayText? ==> StartsWith(Strip(text), "[") && r.value.text == Strip(text)
    ensures StartsWith(Strip(text), "[") ==> r == Ok(JsonArrayText(Strip(text)))
    ensures (!Is01Text(Strip(text)) && ',' in Strip(text) && OnlyChars(Strip(text), "01, \t") &&
      ParseCommaBits(Strip(text)).Ok?) ==> r == Ok(BitList(ParseCommaBits(Strip(text)).value))
    ensures r.Err? ==> r.error == ChromaInputError
    ensures (!Is01Text(Strip(text)) && !(',' in Strip(text) && OnlyChars(Strip(text), "01, \t")) &&
      !StartsWith(Strip(text), "[")) ==> r.Err?
  {
    var s := Strip(text);
    BracketText(s);
    if Is01Text(s) then
      Ok(BitList(DigitBits(s)))
    else if ',' in s && OnlyChars(s, "01, \t") then
      match ParseCommaBits(s)
      case Err(e) => Err(e)
      case Ok(bits) => Ok(BitList(bits))
    else if StartsWith(s, "[") then
      Ok(JsonArrayText(s))
    else
      Err(ChromaInputError)
  }

  /** A text starting with '[' is neither twelve 0/1 characters nor comma text. */
  lemma BracketText(s: string)
    ensures StartsWith(s, "[") ==> !Is01Text(s) && !OnlyChars(s, "01, \t")
  {
    if StartsWith(s, "[") {
      assert s[0] == s[..1][0] == '[';
    }
  }
}

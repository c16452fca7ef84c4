/** The parts of Python's `str` behaviour that the backend relies on: `isspace`,
    `strip`, `split`, ASCII case mapping, `endswith`, code-point ordering of strings,
    `int()` on decimal text and `str()` of an integer. */
module Text {
  import opened Wrappers

  /** Python's `str.isspace` for a single character. */
  predicate IsSpace(c: char) {
    c == ' ' || ('\t' <= c <= '\r') || ('\U{1C}' <= c <= '\U{1F}') ||
    c == '\U{85}' || c == '\U{A0}' || c == '\U{1680}' || ('\U{2000}' <= c <= '\U{200A}') ||
    c == '\U{2028}' || c == '\U{2029}' || c == '\U{202F}' || c == '\U{205F}' || c == '\U{3000}'
  }

  predicate IsDigit(c: char) {
    '0' <= c <= '9'
  }

  /** `s.lstrip()` */
  function StripLeft(s: string): (r: string)
    ensures |r| <= |s| && r == s[|s| - |r|..]
    ensures r == [] || !IsSpace(r[0])
    ensures forall i :: 0 <= i < |s| - |r| ==> IsSpace(s[i])
  {
    if |s| > 0 && IsSpace(s[0]) then StripLeft(s[1..]) else s
  }

  /** `s.rstrip()` */
  function StripRight(s: string): (r: string)
    ensures |r| <= |s| && r == s[..|r|]
    ensures r == [] || !IsSpace(r[|r| - 1])
    ensures forall i :: |r| <= i < |s| ==> IsSpace(s[i])
  {
    if |s| > 0 && IsSpace(s[|s| - 1]) then StripRight(s[..|s| - 1]) else s
  }

  /** `s.strip()`: the longest slice of `s` that neither starts nor ends with whitespace,
      obtained by removing whitespace only. */
  function Strip(s: string): (r: string)
    ensures |r| <= |s|
    ensures r == [] || (!IsSpace(r[0]) && !IsSpace(r[|r| - 1]))
    ensures (forall i :: 0 <= i < |s| ==> !IsSpace(s[i])) ==> r == s
  {
    StripRight(StripLeft(s))
  }

  /** `s.split(sep)` for a one-character separator. */
  function Split(s: string, sep: char): (r: seq<string>)
    ensures |r| == Count(s, sep) + 1
    ensures forall k :: 0 <= k < |r| ==> sep !in r[k]
  {
    if s == [] then [""]
    else
      var rest := Split(s[1..], sep);
      if s[0] == sep then [""] + rest else [[s[0]] + rest[0]] + rest[1..]
  }

  function Count(s: string, c: char): nat {
    if s == [] then 0 else (if s[0] == c then 1 else 0) + Count(s[1..], c)
  }

  /** Joining the pieces of `Split` with the separator gives the text back. */
  function Join(parts: seq<string>, sep: char): string
    requires |parts| > 0
  {
    if |parts| == 1 then parts[0] else parts[0] + [sep] + Join(parts[1..], sep)
  }

  lemma {:induction false} JoinSplit(s: string, sep: char)
    ensures Join(Split(s, sep), sep) == s
  {
    if s != [] {
      JoinSplit(s[1..], sep);
      var rest := Split(s[1..], sep);
      if s[0] != sep {
        if |rest| == 1 {
        } else {
          calc {
            Join([[s[0]] + rest[0]] + rest[1..], sep);
            [s[0]] + rest[0] + [sep] + Join(rest[1..], sep);
            [s[0]] + (rest[0] + [sep] + Join(rest[1..], sep));
          }
        }
      }
    }
  }

  /** `s.split()` without arguments: the maximal runs of non-whitespace characters. */
  function Words(s: string): (r: seq<string>)
    ensures forall k :: 0 <= k < |r| ==> r[k] != [] && forall c :: c in r[k] ==> !IsSpace(c)
    ensures s != [] && !IsSpace(s[0]) ==> |r| > 0 && r[0][0] == s[0]
  {
    if s == [] then []
    else if IsSpace(s[0]) then Words(s[1..])
    else
      var rest := Words(s[1..]);
      assert |s| > 1 ==> s[1..][0] == s[1];
      if |s| > 1 && !IsSpace(s[1]) then [[s[0]] + rest[0]] + rest[1..] else [[s[0]]] + rest
  }

  /** A string that neither starts nor ends with whitespace is its own `strip()`. */
  lemma StripUnchanged(s: string)
    requires s != [] && !IsSpace(s[0]) && !IsSpace(s[|s| - 1])
    ensures Strip(s) == s
  {
    assert StripLeft(s) == s;
  }

  /** `strip()` is idempotent. */
  lemma StripIdempotent(s: string)
    ensures Strip(Strip(s)) == Strip(s)
  {
    if Strip(s) != [] {
      StripUnchanged(Strip(s));
    }
  }

  /** A leading run of non-whitespace followed by whitespace (or nothing) is the first word. */
  lemma {:induction false} WordsPrefix(a: string, t: string)
    requires a != [] && forall c :: c in a ==> !IsSpace(c)
    requires t == [] || IsSpace(t[0])
    ensures Words(a + t) == [a] + Words(t)
    decreases |a|
  {
    var s := a + t;
    assert s[1..] == a[1..] + t;
    assert a[0] in a;
    if |a| > 1 {
      WordsPrefix(a[1..], t);
      var rest := Words(s[1..]);
      assert rest[0] == a[1..] && rest[1..] == Words(t);
      assert s[1] == a[1] && a[1] in a;
      assert Words(s) == [[s[0]] + rest[0]] + rest[1..];
      assert [a[0]] + a[1..] == a;
    } else {
      assert s[1..] == t && [s[0]] == a;
    }
  }

  /** Leading whitespace does not start a word. */
  lemma WordsSpace(c: char, t: string)
    requires IsSpace(c)
    ensures Words([c] + t) == Words(t)
  {
    assert ([c] + t)[1..] == t;
  }

  /** A non-empty string without whitespace is one word. */
  lemma WordsSingle(a: string)
    requires a != [] && forall c :: c in a ==> !IsSpace(c)
    ensures Words(a) == [a]
  {
    WordsPrefix(a, []);
    assert a + [] == a;
  }

  /** Python's `lower()` on an ASCII letter; other characters are left as they are. */
  function LowerChar(c: char): (r: char)
    ensures 'A' <= c <= 'Z' ==> 'a' <= r <= 'z'
    ensures !('A' <= c <= 'Z') ==> r == c
  {
    if 'A' <= c <= 'Z' then (c as int + 32) as char else c
  }

  /** Python's `upper()` on an ASCII letter; other characters are left as they are. */
  function UpperChar(c: char): (r: char)
    ensures 'a' <= c <= 'z' ==> 'A' <= r <= 'Z' && r as int == c as int - 32
    ensures !('a' <= c <= 'z') ==> r == c
  {
    if 'a' <= c <= 'z' then (c as int - 32) as char else c
  }

  function Lower(s: string): (r: string)
    ensures |r| == |s| && forall i :: 0 <= i < |s| ==> r[i] == LowerChar(s[i])
  {
    seq(|s|, i requires 0 <= i < |s| => LowerChar(s[i]))
  }

  predicate EndsWith(s: string, suffix: string) {
    |suffix| <= |s| && s[|s| - |suffix|..] == suffix
  }

  predicate StartsWith(s: string, prefix: string) {
    |prefix| <= |s| && s[..|prefix|] == prefix
  }

  /** Python's `<=` on strings: code-point lexicographic order, a prefix first. */
  predicate StrLe(a: string, b: string) {
    a == [] || (b != [] && (a[0] < b[0] || (a[0] == b[0] && StrLe(a[1..], b[1..]))))
  }

  predicate StrLt(a: string, b: string) {
    StrLe(a, b) && a != b
  }

  lemma {:induction false} StrLeTotal(a: string, b: string)
    ensures StrLe(a, b) || StrLe(b, a)
  {
    if a != [] && b != [] && a[0] == b[0] {
      StrLeTotal(a[1..], b[1..]);
    }
  }

  lemma {:induction false} StrLeAntisymmetric(a: string, b: string)
    requires StrLe(a, b) && StrLe(b, a)
    ensures a == b
  {
    if a != [] && b != [] {
      StrLeAntisymmetric(a[1..], b[1..]);
      assert a == [a[0]] + a[1..];
      assert b == [b[0]] + b[1..];
    }
  }

  lemma {:induction false} StrLeTransitive(a: string, b: string, c: string)
    requires StrLe(a, b) && StrLe(b, c)
    ensures StrLe(a, c)
  {
    if a != [] && b != [] && c != [] && a[0] == b[0] == c[0] {
      StrLeTransitive(a[1..], b[1..], c[1..]);
    }
  }

  lemma StrLeReflexive(a: string)
    ensures StrLe(a, a)
  {
  }

  /** The value of a run of ASCII decimal digits, most significant first. */
  function DigitsValue(ds: string): (v: nat)
    requires forall c :: c in ds ==> IsDigit(c)
  {
    if ds == [] then 0
    else
      assert ds[|ds| - 1] in ds;
      assert IsDigit(ds[|ds| - 1]);
      var d := ds[|ds| - 1] as int - '0' as int;
      DigitsValue(ds[..|ds| - 1]) * 10 + d
  }

  /** The text `int()` accepts after its optional sign: digits, with single underscores
      allowed between two digits. */
  predicate IsDigitRun(t: string) {
    t != [] && IsDigit(t[0]) &&
    forall i :: 0 < i < |t| ==> IsDigit(t[i]) || (t[i] == '_' && i + 1 < |t| && IsDigit(t[i + 1]))
  }

  lemma DigitRunChars(t: string)
    requires IsDigitRun(t)
    ensures forall c :: c in t ==> IsDigit(c) || c == '_'
  {
    forall c | c in t ensures IsDigit(c) || c == '_' {
      var i :| 0 <= i < |t| && t[i] == c;
      if i > 0 {
        assert IsDigit(t[i]) || (t[i] == '_' && i + 1 < |t| && IsDigit(t[i + 1]));
      }
    }
  }

  function RemoveUnderscores(t: string): (r: string)
    ensures (forall c :: c in t ==> IsDigit(c) || c == '_') ==> forall c :: c in r ==> IsDigit(c)
    ensures (forall c :: c in t ==> IsDigit(c)) ==> r == t
  {
    if t == [] then []
    else
      assert t[0] in t && forall c :: c in t[1..] ==> c in t;
      (if t[0] == '_' then [] else [t[0]]) + RemoveUnderscores(t[1..])
  }

  /** Python's `int(s)` on a `str`, for ASCII digits: surrounding whitespace is skipped,
      then an optional sign and digits with underscores between them are accepted; anything
      else is a `ValueError` (None). */
  function ParseInt(s: string): (r: Option<int>)
  {
    if s != [] && IsSpace(s[0]) then ParseInt(s[1..])
    else if s != [] && IsSpace(s[|s| - 1]) then ParseInt(s[..|s| - 1])
    else ParseDecimal(s)
  }

  /** `int()` on text without surrounding whitespace. */
  function ParseDecimal(t: string): (r: Option<int>)
    ensures r.Some? ==> t != []
  {
    var neg := t != [] && t[0] == '-';
    var body := if t != [] && (t[0] == '-' || t[0] == '+') then t[1..] else t;
    if IsDigitRun(body) then
      DigitRunChars(body);
      var v: int := DigitsValue(RemoveUnderscores(body));
      Some(if neg then -v else v)
    else None
  }

  /** Skipping whitespace one character at a time is the same as `strip()` first. */
  lemma {:induction false} ParseIntStrip(s: string)
    ensures ParseInt(s) == ParseDecimal(Strip(s))
    decreases |s|
  {
    if s != [] && IsSpace(s[0]) {
      ParseIntStrip(s[1..]);
      assert StripLeft(s) == StripLeft(s[1..]);
    } else if s != [] && IsSpace(s[|s| - 1]) {
      ParseIntStrip(s[..|s| - 1]);
      assert |s| >= 2;
      var t := s[..|s| - 1];
      assert t[0] == s[0];
      assert StripLeft(t) == t;
      assert StripLeft(s) == s;
      assert StripRight(s) == StripRight(t);
    }
  }

  /** The decimal digits of a natural number, as `str()` writes them. */
  function NatToString(n: nat): (r: string)
    ensures r != [] && forall c :: c in r ==> IsDigit(c)
    ensures n < 10 ==> |r| == 1
    ensures n < 100 ==> |r| <= 2
    ensures n < 1000 ==> |r| <= 3
    ensures n < 10000 ==> |r| <= 4
  {
    var d := ['0' + (n % 10) as char];
    if n < 10 then d else NatToString(n / 10) + d
  }

  /** Python's `str()` of an integer. */
  function IntToString(n: int): (r: string)
    ensures r != []
    ensures 0 <= n < 10000 ==> |r| <= 4
  {
    if n < 0 then "-" + NatToString(-n) else NatToString(n)
  }

  lemma {:induction false} DigitsValueOfNatToString(n: nat)
    ensures DigitsValue(NatToString(n)) == n
  {
    var d := ['0' + (n % 10) as char];
    if n >= 10 {
      DigitsValueOfNatToString(n / 10);
      var s := NatToString(n / 10) + d;
      assert s[..|s| - 1] == NatToString(n / 10);
    }
  }

  lemma NatToStringDigits(n: nat)
    ensures forall i :: 0 <= i < |NatToString(n)| ==> IsDigit(NatToString(n)[i])
  {
    var digits := NatToString(n);
    forall i | 0 <= i < |digits| ensures IsDigit(digits[i]) {
      assert digits[i] in digits;
    }
  }

  /** The decimal text of an integer reads back as that integer. */
  lemma ParseDecimalOfIntToString(n: int)
    ensures ParseDecimal(IntToString(n)) == Some(n)
  {
    var s := IntToString(n);
    var m: nat := if n < 0 then -n else n;
    var digits := NatToString(m);
    NatToStringDigits(m);
    var body := if n < 0 then s[1..] else s;
    assert body == digits;
    assert body == (if s != [] && (s[0] == '-' || s[0] == '+') then s[1..] else s);
    assert IsDigitRun(body);
    assert RemoveUnderscores(body) == body;
    DigitsValueOfNatToString(m);
  }

  /** `int(str(n)) == n`: the text of an integer has no surrounding whitespace and reads back
      as that integer. */
  lemma ParseIntOfIntToString(n: int)
    ensures ParseInt(IntToString(n)) == Some(n)
  {
    var s := IntToString(n);
    var m: nat := if n < 0 then -n else n;
    NatToStringDigits(m);
    assert !IsSpace(s[0]) && !IsSpace(s[|s| - 1]);
    ParseDecimalOfIntToString(n);
  }
}

/**
 * Shared vocabulary for the voting front end model: optional values and
 * results (JavaScript's `null`/`undefined` and thrown values), the
 * character classes the source's regular expressions and `String.trim`
 * use, and decimal digit strings (`parseInt(_, 10)` and template-string
 * printing of a number).
 */
module Common {

  /** A value that may be missing: `null`, `undefined` or an absent field. */
  datatype Option<+T> = None | Some(value: T)

  /** Either a value or the thing a JavaScript function throws. */
  datatype Result<+R, +E> = Success(value: R) | Failure(error: E)

  /** JavaScript's `value || fallback` on an optional string: missing and empty both fall back. */
  function OrElse(value: Option<string>, fallback: string): (r: string)
    ensures value.Some? && value.value != "" ==> r == value.value
    ensures value.None? || value.value == "" ==> r == fallback
  {
    if value.Some? && value.value != "" then value.value else fallback
  }

  // ---------------------------------------------------------------------
  // Whitespace and String.prototype.trim
  // ---------------------------------------------------------------------

  /**
   * The characters `String.prototype.trim` strips: ECMAScript WhiteSpace
   * (tab, vertical tab, form feed, space, no-break space, byte order mark
   * and the Unicode space separators) and LineTerminator (LF, CR, line
   * separator, paragraph separator).
   */
  predicate IsJsWhitespace(c: char) {
    || c == '\t' || c == '\n' || c == '\U{000B}' || c == '\U{000C}' || c == '\r'
    || c == ' ' || c == '\U{00A0}' || c == '\U{1680}'
    || ('\U{2000}' <= c <= '\U{200A}')
    || c == '\U{2028}' || c == '\U{2029}' || c == '\U{202F}' || c == '\U{205F}'
    || c == '\U{3000}' || c == '\U{FEFF}'
  }

  /** Drops the leading whitespace: the result is the longest suffix that starts with a non-whitespace character. */
  function TrimStart(s: string): (r: string)
    ensures |r| <= |s| && r == s[|s| - |r|..]
    ensures forall i :: 0 <= i < |s| - |r| ==> IsJsWhitespace(s[i])
    ensures |r| > 0 ==> !IsJsWhitespace(r[0])
  {
    if |s| > 0 && IsJsWhitespace(s[0]) then TrimStart(s[1..]) else s
  }

  /** Drops the trailing whitespace: the result is the longest prefix that ends with a non-whitespace character. */
  function TrimEnd(s: string): (r: string)
    ensures |r| <= |s| && r == s[..|r|]
    ensures forall i :: |r| <= i < |s| ==> IsJsWhitespace(s[i])
    ensures |r| > 0 ==> !IsJsWhitespace(r[|r| - 1])
  {
    if |s| > 0 && IsJsWhitespace(s[|s| - 1]) then TrimEnd(s[..|s| - 1]) else s
  }

  /** `String.prototype.trim`. */
  function Trim(s: string): (r: string)
    ensures |r| <= |s|
    ensures |r| > 0 ==> !IsJsWhitespace(r[0]) && !IsJsWhitespace(r[|r| - 1])
    ensures r == [] <==> forall i :: 0 <= i < |s| ==> IsJsWhitespace(s[i])
  {
    var t := TrimStart(s);
    var r := TrimEnd(t);
    assert r == [] ==> t == [];
    r
  }

  /** A string without surrounding whitespace is its own trim. */
  lemma {:induction false} TrimOfTrimmed(s: string)
    requires |s| > 0 ==> !IsJsWhitespace(s[0]) && !IsJsWhitespace(s[|s| - 1])
    ensures Trim(s) == s
  {
    assert TrimStart(s) == s;
    assert TrimEnd(s) == s;
  }

  /** Trimming is idempotent. */
  lemma TrimIdempotent(s: string)
    ensures Trim(Trim(s)) == Trim(s)
  {
    TrimOfTrimmed(Trim(s));
  }

  // ---------------------------------------------------------------------
  // Case and substrings
  // ---------------------------------------------------------------------

  /** ASCII lower-casing; the only case mapping an ASCII-only `/…/i` pattern can observe. */
  function LowerAscii(c: char): (r: char)
    ensures 'A' <= c <= 'Z' ==> 'a' <= r <= 'z' && r as int - c as int == 32
    ensures !('A' <= c <= 'Z') ==> r == c
  {
    if 'A' <= c <= 'Z' then (c as int + 32) as char else c
  }

  function LowerAsciiString(s: string): (r: string)
    ensures |r| == |s|
    ensures forall i :: 0 <= i < |s| ==> r[i] == LowerAscii(s[i])
  {
    seq(|s|, i requires 0 <= i < |s| => LowerAscii(s[i]))
  }

  predicate StartsWith(s: string, prefix: string) {
    |prefix| <= |s| && s[..|prefix|] == prefix
  }

  predicate OccursAt(s: string, pattern: string, i: int) {
    0 <= i && i + |pattern| <= |s| && s[i..i + |pattern|] == pattern
  }

  /** `pattern` occurs somewhere in `s` (an unanchored regular-expression literal). */
  predicate Contains(s: string, pattern: string) {
    exists i :: 0 <= i <= |s| - |pattern| && OccursAt(s, pattern, i)
  }

  /** The last character of a join is the last character of its right part, or of the left part when the right is empty. */
  lemma LastOfJoin(a: string, b: string)
    requires |a| + |b| > 0
    ensures (a + b)[|a + b| - 1] == if |b| > 0 then b[|b| - 1] else a[|a| - 1]
  {
  }

  // ---------------------------------------------------------------------
  // Decimal digits
  // ---------------------------------------------------------------------

  /** `\d` without the `u` flag: the ASCII digits only. */
  predicate IsDigit(c: char) {
    '0' <= c <= '9'
  }

  predicate AllDigits(s: string) {
    forall i :: 0 <= i < |s| ==> IsDigit(s[i])
  }

  /** A string matching `\d+`. */
  predicate IsDigitString(s: string) {
    |s| > 0 && AllDigits(s)
  }

  function DigitValue(c: char): (d: nat)
    requires IsDigit(c)
    ensures d < 10
  {
    c as int - '0' as int
  }

  function DigitChar(d: nat): (c: char)
    requires d < 10
    ensures IsDigit(c) && DigitValue(c) == d
  {
    ('0' as int + d) as char
  }

  /** The length of the run of digits at the start of `s`. */
  function DigitRun(s: string): (n: nat)
    ensures n <= |s| && AllDigits(s[..n])
    ensures forall i :: 0 <= i < n ==> IsDigit(s[i])
    ensures n < |s| ==> !IsDigit(s[n])
  {
    if |s| > 0 && IsDigit(s[0]) then
      var n := 1 + DigitRun(s[1..]);
      assert s[..n] == [s[0]] + s[1..][..n - 1];
      n
    else 0
  }

  /** The run of digits at the start of `d + rest` is `d` when `rest` does not start with a digit. */
  lemma {:induction false} DigitRunOfDigits(d: string, rest: string)
    requires AllDigits(d) && (rest == [] || !IsDigit(rest[0]))
    ensures DigitRun(d + rest) == |d|
  {
    if |d| > 0 {
      assert (d + rest)[1..] == d[1..] + rest;
      DigitRunOfDigits(d[1..], rest);
    } else {
      assert d + rest == rest;
    }
  }

  /** `parseInt(s, 10)` of a digit string (ids are unbounded naturals here). */
  function DigitsValue(s: string): nat
    requires AllDigits(s)
  {
    if |s| == 0 then 0 else DigitsValue(s[..|s| - 1]) * 10 + DigitValue(s[|s| - 1])
  }

  /** The decimal text of a natural number, as `${n}` prints it. */
  function NatToString(n: nat): (r: string)
    ensures IsDigitString(r)
  {
    if n < 10 then [DigitChar(n)] else NatToString(n / 10) + [DigitChar(n % 10)]
  }

  /** The decimal text of an integer, with a leading `-` when negative. */
  function IntToString(n: int): (r: string)
    ensures |r| > 0
    ensures n >= 0 ==> IsDigitString(r)
    ensures n < 0 ==> r[0] == '-' && IsDigitString(r[1..])
  {
    if n >= 0 then NatToString(n) else "-" + NatToString(-n)
  }

  /** Parsing the printed form of `n` gives `n` back. */
  lemma {:induction false} DigitsValueOfNatToString(n: nat)
    ensures DigitsValue(NatToString(n)) == n
  {
    if n >= 10 {
      var s := NatToString(n);
      assert s[..|s| - 1] == NatToString(n / 10);
      DigitsValueOfNatToString(n / 10);
    }
  }

  /** A leading zero does not change the parsed value, so `\d+` has many spellings of one number. */
  lemma {:induction false} DigitsValueLeadingZero(s: string)
    requires AllDigits(s)
    ensures AllDigits("0" + s) && DigitsValue("0" + s) == DigitsValue(s)
  {
    if |s| > 0 {
      var t := "0" + s;
      assert t[..|t| - 1] == "0" + s[..|s| - 1];
      DigitsValueLeadingZero(s[..|s| - 1]);
    }
  }
}

/**
 * A JavaScript `Record<string, V>` object: its own entries in the order
 * `Object.entries` lists them. For the keys this front end uses (none of
 * them an array index) that order is insertion order, and assigning an
 * existing key keeps its position.
 */
module JsRecord {
  import opened Common

  type Entries<V> = seq<(string, V)>

  /** The keys of the entries, in no particular order. */
  function Keys<V>(e: Entries<V>): set<string> {
    if |e| == 0 then {} else {e[0].0} + Keys(e[1..])
  }

  /** No key is listed twice, as in any JavaScript object. */
  predicate UniqueKeys<V>(e: Entries<V>) {
    |e| == 0 || (e[0].0 !in Keys(e[1..]) && UniqueKeys(e[1..]))
  }

  /** `record[key]`, with `undefined` as `None`. */
  function Get<V>(e: Entries<V>, key: string): (r: Option<V>)
    ensures r.None? <==> key !in Keys(e)
    ensures r.Some? ==> (key, r.value) in e
  {
    if |e| == 0 then None
    else if e[0].0 == key then Some(e[0].1)
    else Get(e[1..], key)
  }

  /** `{ ...record, [key]: value }`: the key's entry is replaced in place, or appended when new. */
  function Put<V>(e: Entries<V>, key: string, value: V): (r: Entries<V>)
    ensures UniqueKeys(e) ==> UniqueKeys(r)
    ensures Get(r, key) == Some(value)
    ensures forall k :: k != key ==> Get(r, k) == Get(e, k)
    ensures Keys(r) == Keys(e) + {key}
  {
    if |e| == 0 then [(key, value)]
    else if e[0].0 == key then
      var r := [(key, value)] + e[1..];
      assert r[1..] == e[1..];
      r
    else
      var r := [e[0]] + Put(e[1..], key, value);
      assert r[1..] == Put(e[1..], key, value);
      r
  }
}

/** String helpers with the semantics of the JavaScript built-ins the TODO
    engine relies on: `trim()`, the `\s` and `\S` regex classes,
    `search(/\S/)`, `startsWith`, `indexOf`, `replace` with a string pattern,
    `' '.repeat(n)` and the decimal rendering of numbers. Strings are
    `seq<char>`; nothing here allocates or performs I/O. */
module Text {

  /** The characters matched by `\s` and removed by `trim()`: the ECMAScript
      WhiteSpace and LineTerminator sets. */
  predicate IsWs(c: char) {
    || c == ' ' || c == '\t' || c == '\n' || c == '\r'
    || c == '\U{000B}' || c == '\U{000C}' || c == '\U{00A0}' || c == '\U{1680}'
    || ('\U{2000}' <= c <= '\U{200A}')
    || c == '\U{2028}' || c == '\U{2029}' || c == '\U{202F}' || c == '\U{205F}'
    || c == '\U{3000}' || c == '\U{FEFF}'
  }

  /** The characters that `.` does not match and before which `$` cannot
      stop when the regex has no `m` flag. */
  predicate IsLineTerminator(c: char) {
    c == '\n' || c == '\r' || c == '\U{2028}' || c == '\U{2029}'
  }

  /** `\d`: ASCII digits only. */
  predicate IsDigit(c: char) {
    '0' <= c <= '9'
  }

  predicate AllWs(s: string) {
    forall i :: 0 <= i < |s| ==> IsWs(s[i])
  }

  /** Length of the leading whitespace run: the length of the group `(\s*)`
      in `^(\s*)`. */
  function LeadingWs(s: string): (n: nat)
    ensures n <= |s|
    ensures forall i :: 0 <= i < n ==> IsWs(s[i])
    ensures n < |s| ==> !IsWs(s[n])
  {
    if |s| == 0 || !IsWs(s[0]) then 0 else 1 + LeadingWs(s[1..])
  }

  /** Length of the trailing whitespace run. */
  function TrailingWs(s: string): (n: nat)
    ensures n <= |s|
    ensures forall i :: |s| - n <= i < |s| ==> IsWs(s[i])
    ensures n < |s| ==> !IsWs(s[|s| - n - 1])
  {
    if |s| == 0 || !IsWs(s[|s| - 1]) then 0 else 1 + TrailingWs(s[..|s| - 1])
  }

  /** `String.prototype.trimStart` */
  function TrimStart(s: string): (r: string)
    ensures r == s[LeadingWs(s)..]
    ensures |r| > 0 ==> !IsWs(r[0])
  {
    s[LeadingWs(s)..]
  }

  /** `String.prototype.trim`: the input with its leading and trailing
      whitespace removed; it is empty exactly when the input is all
      whitespace. `TrimShape` says where the rest of it comes from. */
  function Trim(s: string): (r: string)
    ensures |r| <= |s|
    ensures |r| == 0 <==> AllWs(s)
  {
    if |s| == 0 then s
    else if IsWs(s[0]) then Trim(s[1..])
    else s[..|s| - TrailingWs(s)]
  }

  /** What is left after trimming is the input from its first
      non-whitespace character on, neither starts nor ends with whitespace,
      and only whitespace follows it. */
  lemma {:induction false} TrimShape(s: string)
    requires !AllWs(s)
    ensures TrimmedAt(s, LeadingWs(s), Trim(s))
  {
    if IsWs(s[0]) {
      NotAllWsTail(s);
      TrimShape(s[1..]);
      TrimmedShift(s, LeadingWs(s[1..]), Trim(s));
    } else {
      TrimmedAt0(s);
    }
  }

  /** `r` sits in `s` at `w`, neither starts nor ends with whitespace, and
      only whitespace follows it. */
  predicate TrimmedAt(s: string, w: nat, r: string) {
    && w + |r| <= |s| && |r| > 0
    && (forall i :: 0 <= i < |r| ==> r[i] == s[w + i])
    && !IsWs(r[0]) && !IsWs(r[|r| - 1])
    && (forall i :: w + |r| <= i < |s| ==> IsWs(s[i]))
  }

  lemma {:induction false} TrimmedAt0(s: string)
    requires |s| > 0 && !IsWs(s[0])
    ensures LeadingWs(s) == 0 && TrimmedAt(s, 0, Trim(s))
  {
    var t := TrailingWs(s);
    assert t < |s|;
    var r := s[..|s| - t];
    assert Trim(s) == r;
    assert r[|r| - 1] == s[|s| - t - 1];
  }

  /** A match one character further into the tail is a match in `s`. */
  lemma {:induction false} TrimmedShift(s: string, w: nat, r: string)
    requires |s| > 0 && TrimmedAt(s[1..], w, r)
    ensures TrimmedAt(s, w + 1, r)
  {
    forall i | 0 <= i < |r| ensures r[i] == s[w + 1 + i] {
      assert s[1..][w + i] == s[w + 1 + i];
    }
    forall i | w + 1 + |r| <= i < |s| ensures IsWs(s[i]) {
      assert s[1..][i - 1] == s[i];
    }
  }

  lemma {:induction false} NotAllWsTail(s: string)
    requires !AllWs(s) && IsWs(s[0])
    ensures !AllWs(s[1..])
  {
    var i :| 0 <= i < |s| && !IsWs(s[i]);
    assert s[1..][i - 1] == s[i];
  }

  /** Trimming keeps every non-whitespace character at its place relative
      to the first one. */
  lemma {:induction false} TrimKeeps(s: string, k: nat)
    requires LeadingWs(s) <= k < |s| && !IsWs(s[k])
    ensures LeadingWs(s) + |Trim(s)| > k
    ensures Trim(s)[k - LeadingWs(s)] == s[k]
  {
    assert !IsWs(s[k]);
    assert !AllWs(s);
    TrimShape(s);
  }

  /** The leading whitespace run is the only prefix that is all
      whitespace and is followed by a non-whitespace character (or the end). */
  lemma {:induction false} LeadingWsUnique(t: string, n: nat)
    requires n <= |t| && forall i :: 0 <= i < n ==> IsWs(t[i])
    requires n < |t| ==> !IsWs(t[n])
    ensures LeadingWs(t) == n
  {
    if n > 0 {
      assert IsWs(t[0]);
      LeadingWsUnique(t[1..], n - 1);
    }
  }

  /** Whitespace followed by a non-whitespace character: the leading run
      is exactly the whitespace. */
  lemma {:induction false} LeadingWsConcat(p: string, t: string)
    requires AllWs(p) && |t| > 0 && !IsWs(t[0])
    ensures LeadingWs(p + t) == |p|
  {
    LeadingWsUnique(p + t, |p|);
  }

  /** Two strings that agree up to and including the first non-whitespace
      character of one have the same leading whitespace. */
  lemma {:induction false} LeadingWsOfSamePrefix(s: string, t: string)
    requires LeadingWs(s) < |s| && LeadingWs(s) < |t|
    requires forall i :: 0 <= i <= LeadingWs(s) ==> s[i] == t[i]
    ensures LeadingWs(t) == LeadingWs(s)
  {
    var w := LeadingWs(s);
    assert t[w] == s[w];
    LeadingWsUnique(t, w);
  }

  /** A string that neither starts nor ends with whitespace is its own trim. */
  lemma {:induction false} TrimOfTrimmed(s: string)
    requires |s| > 0 && !IsWs(s[0]) && !IsWs(s[|s| - 1])
    ensures Trim(s) == s
  {
    assert LeadingWs(s) == 0 && TrailingWs(s) == 0;
    assert TrimStart(s) == s;
  }

  /** `s.search(/\S/)`: the index of the first non-whitespace character, or
      -1 when the string is entirely whitespace. */
  function FirstNonWs(s: string): (r: int)
    ensures -1 <= r < |s|
    ensures r == -1 <==> AllWs(s)
    ensures r >= 0 ==> r == LeadingWs(s)
  {
    if LeadingWs(s) < |s| then LeadingWs(s) else -1
  }

  /** `line.trim() === ''`: nothing but whitespace (see `BlankTrims`). */
  predicate IsBlank(s: string) {
    AllWs(s)
  }

  lemma {:induction false} BlankTrims(s: string)
    ensures IsBlank(s) <==> Trim(s) == ""
  {
  }

  predicate StartsWith(s: string, p: string) {
    |p| <= |s| && s[..|p|] == p
  }

  /** `' '.repeat(n)` */
  function Spaces(n: nat): (r: string)
    ensures |r| == n && AllWs(r)
    ensures forall i :: 0 <= i < n ==> r[i] == ' '
  {
    seq(n, _ => ' ')
  }

  predicate OccursAt(s: string, p: string, k: nat) {
    k + |p| <= |s| && s[k..k + |p|] == p
  }

  function IndexFrom(s: string, p: string, k: nat): (r: int)
    requires k <= |s|
    ensures r == -1 || (k <= r && OccursAt(s, p, r))
    ensures r == -1 ==> forall j :: k <= j <= |s| ==> !OccursAt(s, p, j)
    ensures r >= 0 ==> forall j :: k <= j < r ==> !OccursAt(s, p, j)
    decreases |s| - k
  {
    if OccursAt(s, p, k) then k
    else if k == |s| then -1
    else IndexFrom(s, p, k + 1)
  }

  /** `s.indexOf(p)`: the first position where `p` occurs, -1 if none. */
  function IndexOf(s: string, p: string): (r: int)
    ensures r == -1 <==> forall j :: 0 <= j <= |s| ==> !OccursAt(s, p, j)
    ensures r >= 0 ==> OccursAt(s, p, r) && forall j :: 0 <= j < r ==> !OccursAt(s, p, j)
  {
    IndexFrom(s, p, 0)
  }

  /** `s.includes(p)` */
  predicate Includes(s: string, p: string) {
    IndexOf(s, p) >= 0
  }

  /** `s.replace(p, q)` with a string pattern: only the first occurrence of
      `p` is replaced; without one the string is returned unchanged. */
  function ReplaceFirst(s: string, p: string, q: string): (r: string)
    ensures IndexOf(s, p) == -1 ==> r == s
    ensures IndexOf(s, p) >= 0 ==>
      var k := IndexOf(s, p);
      |r| == |s| - |p| + |q| && r[..k] == s[..k] && r[k..k + |q|] == q && r[k + |q|..] == s[k + |p|..]
  {
    var k := IndexOf(s, p);
    if k < 0 then s else s[..k] + q + s[k + |p|..]
  }

  function DigitChar(d: nat): (c: char)
    requires d < 10
    ensures IsDigit(c) && c as int - '0' as int == d
  {
    ('0' as int + d) as char
  }

  predicate AllDigits(s: string) {
    forall i :: 0 <= i < |s| ==> IsDigit(s[i])
  }

  /** Decimal rendering of a natural number, as a template literal prints it. */
  function NatToString(n: nat): (r: string)
    ensures |r| > 0 && AllDigits(r)
    decreases n
  {
    if n < 10 then [DigitChar(n)] else NatToString(n / 10) + [DigitChar(n % 10)]
  }

  /** `parseInt` of a string of ASCII digits. */
  function DigitsValue(s: string): nat
    requires AllDigits(s)
  {
    if |s| == 0 then 0
    else DigitsValue(s[..|s| - 1]) * 10 + (s[|s| - 1] as int - '0' as int)
  }

  lemma {:induction false} DigitsValueOfNatToString(n: nat)
    ensures DigitsValue(NatToString(n)) == n
    decreases n
  {
    if n >= 10 {
      var r := NatToString(n);
      assert r[..|r| - 1] == NatToString(n / 10);
      DigitsValueOfNatToString(n / 10);
    }
  }

  /** Length of the run of digits starting at `k`. */
  function DigitRun(s: string, k: nat): (n: nat)
    requires k <= |s|
    ensures k + n <= |s|
    ensures k + n < |s| ==> !IsDigit(s[k + n])
    decreases |s| - k
  {
    if k == |s| || !IsDigit(s[k]) then 0 else 1 + DigitRun(s, k + 1)
  }

  /** Length of the run of whitespace starting at `k` (a greedy `\s*`). */
  function WsRun(s: string, k: nat): (n: nat)
    requires k <= |s|
    ensures k + n <= |s|
    ensures k + n < |s| ==> !IsWs(s[k + n])
    decreases |s| - k
  {
    if k == |s| || !IsWs(s[k]) then 0 else 1 + WsRun(s, k + 1)
  }
}

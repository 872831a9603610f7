/** The JavaScript string built-ins the archive relies on, over `seq<char>`. */
module Text {
  import opened Common

  // ---------- toLowerCase (ASCII letters only) ----------

  predicate IsAsciiUpper(c: char) { 'A' <= c <= 'Z' }

  function LowerChar(c: char): char {
    if IsAsciiUpper(c) then (c as int + 32) as char else c
  }

  /** `s.toLowerCase()` restricted to ASCII letters. */
  function Lower(s: string): (r: string)
    ensures |r| == |s|
    ensures forall i :: 0 <= i < |s| ==> r[i] == LowerChar(s[i])
  {
    seq(|s|, i requires 0 <= i < |s| => LowerChar(s[i]))
  }

  /** Lower-casing leaves no ASCII capital behind and is idempotent. */
  lemma LowerIdempotent(s: string)
    ensures forall i :: 0 <= i < |Lower(s)| ==> !IsAsciiUpper(Lower(s)[i])
    ensures Lower(Lower(s)) == Lower(s)
  {
  }

  // ---------- indexOf / includes ----------

  /** `q` occurs in `s` starting at position `i`. */
  predicate OccursAt(s: string, q: string, i: nat) {
    i + |q| <= |s| && s[i..i + |q|] == q
  }

  lemma {:induction false} OccursAtTail(s: string, q: string, j: nat)
    requires |s| > 0
    ensures OccursAt(s, q, j + 1) <==> OccursAt(s[1..], q, j)
  {
    if j + 1 + |q| <= |s| {
      assert s[j + 1..j + 1 + |q|] == s[1..][j..j + |q|];
    }
  }

  /** `s.indexOf(q)`: the first position where `q` occurs, or None (what it
      finds is stated by `IndexOfSpec`). */
  function IndexOf(s: string, q: string): (r: Option<nat>)
    ensures r.Some? ==> r.value + |q| <= |s|
    decreases |s|
  {
    if q <= s then Some(0)
    else if |s| == 0 then None
    else
      match IndexOf(s[1..], q)
      case None => None
      case Some(k) => Some(k + 1)
  }

  /** `indexOf` finds an occurrence, and none earlier; None means there is none. */
  lemma {:induction false} IndexOfSpec(s: string, q: string)
    ensures IndexOf(s, q).Some? ==> OccursAt(s, q, IndexOf(s, q).value)
    ensures IndexOf(s, q).Some? ==> forall j :: 0 <= j < IndexOf(s, q).value ==> !OccursAt(s, q, j)
    ensures IndexOf(s, q).None? ==> forall j :: 0 <= j <= |s| ==> !OccursAt(s, q, j)
    decreases |s|
  {
    if q <= s {
      assert s[..|q|] == q;
    } else if |s| > 0 {
      assert !OccursAt(s, q, 0);
      IndexOfSpec(s[1..], q);
      match IndexOf(s[1..], q)
      case None =>
        forall j | 1 <= j <= |s| ensures !OccursAt(s, q, j) { OccursAtTail(s, q, j - 1); }
      case Some(k) =>
        OccursAtTail(s, q, k);
        forall j | 1 <= j < k + 1 ensures !OccursAt(s, q, j) { OccursAtTail(s, q, j - 1); }
    }
  }

  /** `s.includes(q)`. */
  predicate Contains(s: string, q: string) {
    IndexOf(s, q).Some?
  }

  // ---------- split / join ----------

  /** `s.split(sep)` for a non-empty separator. */
  function Split(s: string, sep: string): (r: seq<string>)
    requires |sep| > 0
    ensures |r| >= 1
    decreases |s|
  {
    match IndexOf(s, sep)
    case None => [s]
    case Some(i) => [s[..i]] + Split(s[i + |sep|..], sep)
  }

  /** `parts.join(sep)`. */
  function Join(parts: seq<string>, sep: string): string
  {
    if parts == [] then ""
    else if |parts| == 1 then parts[0]
    else parts[0] + sep + Join(parts[1..], sep)
  }

  /** Splitting and re-joining gives back the input. */
  lemma {:induction false} JoinSplit(s: string, sep: string)
    requires |sep| > 0
    ensures Join(Split(s, sep), sep) == s
    decreases |s|
  {
    match IndexOf(s, sep)
    case None =>
    case Some(i) =>
      var rest := s[i + |sep|..];
      JoinSplit(rest, sep);
      SplitStep(s, sep, i);
      IndexOfSpec(s, sep);
      AroundOccurrence(s, sep, i);
      JoinCons(s[..i], Split(rest, sep), sep);
  }

  /** The input is its text before an occurrence, the occurrence, and the rest. */
  lemma AroundOccurrence(s: string, q: string, i: nat)
    requires OccursAt(s, q, i)
    ensures s == s[..i] + q + s[i + |q|..]
  {
    assert s[i..i + |q|] == q;
  }

  /** One step of `split`: the text before the first separator, then the split of the rest. */
  lemma SplitStep(s: string, sep: string, i: nat)
    requires |sep| > 0 && IndexOf(s, sep) == Some(i)
    ensures i + |sep| <= |s|
    ensures Split(s, sep) == [s[..i]] + Split(s[i + |sep|..], sep)
  {
  }

  /** Joining a non-empty tail behind a first part. */
  lemma JoinCons(a: string, tail: seq<string>, sep: string)
    requires |tail| >= 1
    ensures Join([a] + tail, sep) == a + sep + Join(tail, sep)
  {
    assert ([a] + tail)[1..] == tail;
  }

  lemma OccursInPrefix(s: string, q: string, i: nat, j: nat)
    requires i <= |s| && OccursAt(s[..i], q, j)
    ensures OccursAt(s, q, j) && j + |q| <= i
  {
    assert s[..i][j..j + |q|] == s[j..j + |q|];
  }

  /** No piece produced by `split` contains the separator. */
  lemma {:induction false} SplitPiecesFree(s: string, sep: string)
    requires |sep| > 0
    ensures forall k :: 0 <= k < |Split(s, sep)| ==> !Contains(Split(s, sep)[k], sep)
    decreases |s|
  {
    match IndexOf(s, sep)
    case None =>
    case Some(i) =>
      var rest := s[i + |sep|..];
      SplitPiecesFree(rest, sep);
      IndexOfSpec(s, sep);
      assert !Contains(s[..i], sep) by {
        if Contains(s[..i], sep) {
          var j := IndexOf(s[..i], sep).value;
          IndexOfSpec(s[..i], sep);
          OccursInPrefix(s, sep, i, j);
          assert false;
        }
      }
  }

  /** The first piece of `split` is everything before the first separator, and
      the second is the first piece of what follows that separator. */
  lemma {:induction false} SplitFirst(s: string, sep: string)
    requires |sep| > 0
    ensures IndexOf(s, sep).None? ==> Split(s, sep) == [s]
    ensures IndexOf(s, sep).Some? ==>
      var i := IndexOf(s, sep).value;
      |Split(s, sep)| >= 2 &&
      Split(s, sep)[0] == s[..i] &&
      Split(s, sep)[1] == Split(s[i + |sep|..], sep)[0]
  {
    match IndexOf(s, sep)
    case None =>
    case Some(i) =>
      var tail := Split(s[i + |sep|..], sep);
      assert Split(s, sep) == [s[..i]] + tail;
  }

  /** `p` is a suffix of `s` that is the whole of `s` or follows an occurrence of `sep`. */
  predicate IsLastPiece(s: string, sep: string, p: string) {
    |p| <= |s| && s[|s| - |p|..] == p &&
    (|p| == |s| || (|p| + |sep| <= |s| && s[|s| - |p| - |sep|..|s| - |p|] == sep))
  }

  lemma LastPieceExtend(s: string, sep: string, i: nat, p: string)
    requires OccursAt(s, sep, i)
    requires IsLastPiece(s[i + |sep|..], sep, p)
    ensures IsLastPiece(s, sep, p)
  {
    var rest := s[i + |sep|..];
    assert s[|s| - |p|..] == rest[|rest| - |p|..];
    if |p| == |rest| {
      assert s[|s| - |p| - |sep|..|s| - |p|] == s[i..i + |sep|];
    } else {
      assert s[|s| - |p| - |sep|..|s| - |p|] == rest[|rest| - |p| - |sep|..|rest| - |p|];
    }
  }

  /** The last piece of `s.split(sep)`, which `pop()` returns. */
  function LastPiece(s: string, sep: string): string
    requires |sep| > 0
  {
    var pieces := Split(s, sep);
    pieces[|pieces| - 1]
  }

  /** The last piece of `split` (what `pop()` returns) contains no separator, is a
      suffix of the input, and is the whole input or follows a separator. */
  lemma SplitLast(s: string, sep: string)
    requires |sep| > 0
    ensures IsLastPiece(s, sep, Split(s, sep)[|Split(s, sep)| - 1])
    ensures !Contains(Split(s, sep)[|Split(s, sep)| - 1], sep)
  {
    LastPieceIsSuffix(s, sep);
    SplitPiecesFree(s, sep);
  }

  lemma {:induction false} LastPieceIsSuffix(s: string, sep: string)
    requires |sep| > 0
    ensures IsLastPiece(s, sep, LastPiece(s, sep))
    decreases |s|
  {
    match IndexOf(s, sep)
    case None =>
    case Some(i) =>
      LastPieceStep(s, sep, i);
      LastPieceIsSuffix(s[i + |sep|..], sep);
      IndexOfSpec(s, sep);
      LastPieceExtend(s, sep, i, LastPiece(s, sep));
  }

  /** Past the first separator, the last piece is the last piece of the rest. */
  lemma LastPieceStep(s: string, sep: string, i: nat)
    requires |sep| > 0 && IndexOf(s, sep) == Some(i)
    ensures i + |sep| <= |s| && LastPiece(s, sep) == LastPiece(s[i + |sep|..], sep)
  {
    var rest := s[i + |sep|..];
    var pieces, tail := Split(s, sep), Split(rest, sep);
    assert LastPiece(s, sep) == pieces[|pieces| - 1];
    assert LastPiece(rest, sep) == tail[|tail| - 1];
    SplitStep(s, sep, i);
    LastOfCons(pieces, s[..i], tail);
  }

  lemma LastOfCons<T>(p: seq<T>, a: T, tail: seq<T>)
    requires |tail| >= 1 && p == [a] + tail
    ensures p[|p| - 1] == tail[|tail| - 1]
  {
  }

  /** `sep` holds the character `c` exactly once, at position `m`. */
  predicate MarkedOnceAt(sep: string, c: char, m: nat) {
    m < |sep| && sep[m] == c && forall t :: 0 <= t < |sep| && t != m ==> sep[t] != c
  }

  /** `c` does not occur in `s`. */
  predicate Lacks(s: string, c: char) {
    forall k :: 0 <= k < |s| ==> s[k] != c
  }

  lemma NoOccurrenceWithout(s: string, sep: string, c: char, m: nat)
    requires MarkedOnceAt(sep, c, m) && Lacks(s, c)
    ensures IndexOf(s, sep).None?
  {
    IndexOfSpec(s, sep);
    if IndexOf(s, sep).Some? {
      assert false;
    }
  }

  /** The first separator in `a + sep + rest` is the one after `a`, when `a` lacks
      the separator's marker character. */
  lemma FirstSepAfter(a: string, sep: string, rest: string, c: char, m: nat)
    requires MarkedOnceAt(sep, c, m) && Lacks(a, c)
    ensures IndexOf(a + sep + rest, sep) == Some(|a|)
  {
    var s := a + sep + rest;
    IndexOfSpec(s, sep);
    assert OccursAt(s, sep, |a|) by {
      assert s[|a|..|a| + |sep|] == sep;
    }
    forall j | 0 <= j < |a| ensures !OccursAt(s, sep, j) {
      if OccursAt(s, sep, j) {
        assert false;
      }
    }
  }

  /** Split at a known first separator. */
  lemma SplitAtFirst(a: string, sep: string, rest: string)
    requires |sep| > 0 && IndexOf(a + sep + rest, sep) == Some(|a|)
    ensures Split(a + sep + rest, sep) == [a] + Split(rest, sep)
  {
    var s := a + sep + rest;
    assert s[..|a|] == a;
    assert s[|a| + |sep|..] == rest;
  }

  /** Splitting a join gives back the parts when the separator holds a character
      that no part contains. */
  lemma {:induction false} SplitJoinMarked(parts: seq<string>, sep: string, c: char, m: nat)
    requires |parts| >= 1 && MarkedOnceAt(sep, c, m)
    requires forall k :: 0 <= k < |parts| ==> Lacks(parts[k], c)
    ensures Split(Join(parts, sep), sep) == parts
    decreases |parts|
  {
    if |parts| == 1 {
      NoOccurrenceWithout(parts[0], sep, c, m);
    } else {
      var tail := parts[1..];
      var rest := Join(tail, sep);
      assert Join(parts, sep) == parts[0] + sep + rest;
      FirstSepAfter(parts[0], sep, rest, c, m);
      SplitAtFirst(parts[0], sep, rest);
      assert forall k :: 0 <= k < |tail| ==> tail[k] == parts[k + 1];
      SplitJoinMarked(tail, sep, c, m);
      assert parts == [parts[0]] + tail;
    }
  }

  // ---------- trim ----------

  /** ECMAScript WhiteSpace and LineTerminator code points, which `trim` removes. */
  predicate IsJsWhitespace(c: char) {
    c == '\t' || c == '\n' || c == '\U{000B}' || c == '\U{000C}' || c == '\r' || c == ' ' ||
    c == '\U{00A0}' || c == '\U{1680}' || ('\U{2000}' <= c <= '\U{200A}') ||
    c == '\U{2028}' || c == '\U{2029}' || c == '\U{202F}' || c == '\U{205F}' ||
    c == '\U{3000}' || c == '\U{FEFF}'
  }

  /** Where the leading whitespace of `s[i..]` ends. */
  function SkipStart(s: string, i: nat): (k: nat)
    requires i <= |s|
    ensures i <= k <= |s|
    ensures forall m :: i <= m < k ==> IsJsWhitespace(s[m])
    ensures k < |s| ==> !IsJsWhitespace(s[k])
    decreases |s| - i
  {
    if i < |s| && IsJsWhitespace(s[i]) then SkipStart(s, i + 1) else i
  }

  /** Where the trailing whitespace of `s[lo..j]` starts. */
  function SkipEnd(s: string, lo: nat, j: nat): (k: nat)
    requires lo <= j <= |s|
    ensures lo <= k <= j
    ensures forall m :: k <= m < j ==> IsJsWhitespace(s[m])
    ensures k > lo ==> !IsJsWhitespace(s[k - 1])
    decreases j
  {
    if j > lo && IsJsWhitespace(s[j - 1]) then SkipEnd(s, lo, j - 1) else j
  }

  /** `r` is `s[i..j]`, and everything of `s` outside `i..j` is whitespace. */
  predicate TrimmedSlice(s: string, r: string, i: nat, j: nat) {
    i <= j <= |s| && r == s[i..j] &&
    (forall k :: 0 <= k < i ==> IsJsWhitespace(s[k])) &&
    (forall k :: j <= k < |s| ==> IsJsWhitespace(s[k]))
  }

  /** `s.trim()`: `s` without its leading and trailing whitespace. */
  function Trim(s: string): (r: string)
    ensures exists i, j :: TrimmedSlice(s, r, i, j)
    ensures r != [] ==> !IsJsWhitespace(r[0]) && !IsJsWhitespace(r[|r| - 1])
  {
    var i := SkipStart(s, 0);
    var j := SkipEnd(s, i, |s|);
    assert TrimmedSlice(s, s[i..j], i, j);
    s[i..j]
  }

  /** Trimming twice is trimming once. */
  lemma TrimIdempotent(s: string)
    ensures Trim(Trim(s)) == Trim(s)
  {
    var r := Trim(s);
    if r != [] {
      assert SkipStart(r, 0) == 0;
      assert SkipEnd(r, 0, |r|) == |r|;
      assert r[0..|r|] == r;
    }
  }

  // ---------- String(n) for integers ----------

  /** The character of a decimal digit. */
  function DigitChar(d: nat): (c: char)
    requires d < 10
    ensures '0' <= c <= '9' && c as int - '0' as int == d
  {
    ('0' as int + d) as char
  }

  predicate IsDigit(c: char) { '0' <= c <= '9' }

  /** Decimal rendering of a natural number, without leading zeros. */
  function NatToDecimal(n: nat): (r: string)
    ensures |r| >= 1
    ensures forall k :: 0 <= k < |r| ==> IsDigit(r[k])
    ensures |r| > 1 ==> r[0] != '0'
  {
    if n < 10 then [DigitChar(n)] else NatToDecimal(n / 10) + [DigitChar(n % 10)]
  }

  /** `String(n)` for an integer. */
  function IntToString(n: int): string {
    if n < 0 then "-" + NatToDecimal(-n) else NatToDecimal(n)
  }

  /** The numeric value of a string of decimal digits. */
  function DecimalValue(s: string): nat
    requires forall k :: 0 <= k < |s| ==> IsDigit(s[k])
  {
    if s == [] then 0
    else
      assert IsDigit(s[|s| - 1]);
      10 * DecimalValue(s[..|s| - 1]) + (s[|s| - 1] as int - '0' as int)
  }

  /** Reading back the decimal rendering gives the number. */
  lemma {:induction false} DecimalRoundTrip(n: nat)
    ensures DecimalValue(NatToDecimal(n)) == n
  {
    if n >= 10 {
      DecimalRoundTrip(n / 10);
      var s := NatToDecimal(n);
      assert s == NatToDecimal(n / 10) + [DigitChar(n % 10)];
      assert s[..|s| - 1] == NatToDecimal(n / 10);
    }
  }

  lemma NatToDecimalInjective(a: nat, b: nat)
    requires NatToDecimal(a) == NatToDecimal(b)
    ensures a == b
  {
    DecimalRoundTrip(a);
    DecimalRoundTrip(b);
  }

  /** `String(n)` is injective on integers. */
  lemma IntToStringInjective(a: int, b: int)
    requires IntToString(a) == IntToString(b)
    ensures a == b
  {
    var sa, sb := IntToString(a), IntToString(b);
    if a < 0 && b < 0 {
      assert sa[1..] == NatToDecimal(-a);
      assert sb[1..] == NatToDecimal(-b);
      NatToDecimalInjective(-a, -b);
    } else if a >= 0 && b >= 0 {
      NatToDecimalInjective(a, b);
    }
  }
}

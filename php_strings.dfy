/** Byte strings as PHP treats them, and the few PHP string built-ins the
    packing slip relies on (`substr` with a zero start, `str_contains` and
    `explode` with the leftmost search they perform, `strrpos`, `implode`,
    `ucfirst`, integer to string conversion, and the truthiness of a
    string). PHP's string functions count bytes, not characters, so every
    string here is a sequence of bytes. */
module PhpStrings {

  /** A byte, written as a character whose code is below 256 so that string
      literals can be used as byte strings. */
  type Byte = c: char | c as int < 256
  type Bytes = seq<Byte>

  datatype Option<+T> = None | Some(value: T) {
    function GetOr(default: T): T {
      match this
      case Some(v) => v
      case None => default
    }
  }

  /** `substr(s, 0, n)` for n >= 0: the first n bytes, or all of s when it is shorter. */
  function Prefix(s: Bytes, n: nat): (r: Bytes)
    ensures |r| == if |s| < n then |s| else n
    ensures r <= s
  {
    if |s| <= n then s else s[..n]
  }

  /** p occurs in s starting at byte i. */
  predicate OccursAt(s: Bytes, p: Bytes, i: int) {
    0 <= i && i + |p| <= |s| && s[i..i + |p|] == p
  }

  /** p occurs nowhere in s. */
  ghost predicate Absent(s: Bytes, p: Bytes) {
    forall j :: !OccursAt(s, p, j)
  }

  /** i is the leftmost occurrence of p in s. */
  ghost predicate FirstOccurrence(s: Bytes, p: Bytes, i: int) {
    OccursAt(s, p, i) && forall j :: 0 <= j < i ==> !OccursAt(s, p, j)
  }

  lemma OccursAtTail(s: Bytes, p: Bytes, j: int)
    requires |s| > 0 && j >= 0
    ensures OccursAt(s[1..], p, j) <==> OccursAt(s, p, j + 1)
  {
    if 0 <= j && j + |p| <= |s| - 1 {
      assert s[1..][j..j + |p|] == s[j + 1..j + 1 + |p|];
    }
  }

  /** The leftmost occurrence of a non-empty needle, or None when there is
      none: the search that `str_contains` and `explode` perform. */
  function IndexOf(s: Bytes, p: Bytes): (r: Option<nat>)
    requires |p| > 0
    ensures r.Some? ==> FirstOccurrence(s, p, r.value)
    ensures r.None? ==> Absent(s, p)
    decreases |s|
  {
    if |s| < |p| then None
    else if s[..|p|] == p then Some(0)
    else
      var r := IndexOf(s[1..], p);
      assert !OccursAt(s, p, 0);
      assert forall j :: OccursAt(s[1..], p, j - 1) <==> OccursAt(s, p, j) by {
        forall j ensures OccursAt(s[1..], p, j - 1) <==> OccursAt(s, p, j) {
          if j >= 1 { OccursAtTail(s, p, j - 1); }
        }
      }
      match r
      case None => None
      case Some(i) => Some(i + 1)
  }

  /** `str_contains(s, p)` for a non-empty needle. */
  function StrContains(s: Bytes, p: Bytes): (r: bool)
    requires |p| > 0
    ensures r <==> !Absent(s, p)
  {
    IndexOf(s, p).Some?
  }

  /** `strrpos(s, b)` for a one-byte needle: the index of the last b in s, or
      None where PHP returns false. */
  function LastIndexOf(s: Bytes, b: Byte): (r: Option<nat>)
    ensures r.Some? ==> r.value < |s| && s[r.value] == b
                        && forall j :: r.value < j < |s| ==> s[j] != b
    ensures r.None? ==> forall j :: 0 <= j < |s| ==> s[j] != b
    decreases |s|
  {
    if s == [] then None
    else if s[|s| - 1] == b then Some(|s| - 1)
    else LastIndexOf(s[..|s| - 1], b)
  }

  /** `implode(glue, parts)`: the parts in order with the glue between
      them, so the first part starts the result and the last one ends it. */
  function Implode(glue: Bytes, parts: seq<Bytes>): (r: Bytes)
    ensures parts == [] ==> r == []
    ensures parts != [] ==> parts[0] <= r
    ensures parts != [] ==> var last := parts[|parts| - 1];
      |last| <= |r| && r[|r| - |last|..] == last
    decreases |parts|
  {
    if parts == [] then []
    else if |parts| == 1 then parts[0]
    else parts[0] + glue + Implode(glue, parts[1..])
  }

  /** `explode(sep, s)` for a non-empty separator: the pieces between the
      leftmost non-overlapping occurrences of sep, scanned left to right. */
  function Explode(sep: Bytes, s: Bytes): (parts: seq<Bytes>)
    requires |sep| > 0
    ensures |parts| >= 1
    decreases |s|
  {
    match IndexOf(s, sep)
    case None => [s]
    case Some(i) => [s[..i]] + Explode(sep, s[i + |sep|..])
  }

  /** No occurrence of p starts before byte i of s, so none lies inside s[..i]. */
  lemma AbsentInPrefix(s: Bytes, p: Bytes, i: nat)
    requires |p| > 0 && i <= |s|
    requires forall j :: 0 <= j < i ==> !OccursAt(s, p, j)
    ensures Absent(s[..i], p)
  {
    forall j ensures !OccursAt(s[..i], p, j) {
      if OccursAt(s[..i], p, j) {
        assert s[..i][j..j + |p|] == s[j..j + |p|];
        assert OccursAt(s, p, j);
      }
    }
  }

  lemma ImplodeCons(glue: Bytes, x: Bytes, tail: seq<Bytes>)
    requires |tail| >= 1
    ensures Implode(glue, [x] + tail) == x + glue + Implode(glue, tail)
  {
    assert ([x] + tail)[1..] == tail;
  }

  lemma SplitAround(s: Bytes, p: Bytes, i: int)
    requires OccursAt(s, p, i)
    ensures s == s[..i] + p + s[i + |p|..]
  {
    assert s == s[..i] + s[i..i + |p|] + s[i + |p|..];
  }

  /** Gluing the pieces of `explode` back together with the separator gives
      the original string. */
  lemma {:induction false} ExplodeImplode(sep: Bytes, s: Bytes)
    requires |sep| > 0
    ensures Implode(sep, Explode(sep, s)) == s
    decreases |s|
  {
    match IndexOf(s, sep)
    case None =>
    case Some(i) =>
      var head := s[..i];
      var rest := s[i + |sep|..];
      var tail := Explode(sep, rest);
      assert Explode(sep, s) == [head] + tail;
      ExplodeImplode(sep, rest);
      ImplodeCons(sep, head, tail);
      SplitAround(s, sep, i);
  }

  /** No piece of `explode` contains the separator, and there is more than
      one piece exactly when the separator occurs. */
  lemma {:induction false} ExplodePieces(sep: Bytes, s: Bytes)
    requires |sep| > 0
    ensures forall k :: 0 <= k < |Explode(sep, s)| ==> Absent(Explode(sep, s)[k], sep)
    ensures |Explode(sep, s)| == 1 <==> Absent(s, sep)
    decreases |s|
  {
    match IndexOf(s, sep)
    case None =>
    case Some(i) =>
      var rest := s[i + |sep|..];
      ExplodePieces(sep, rest);
      var parts := Explode(sep, s);
      assert parts == [s[..i]] + Explode(sep, rest);
      AbsentInPrefix(s, sep, i);
      assert !Absent(s, sep) by { assert OccursAt(s, sep, i); }
  }

  /** PHP's truthiness of a possibly null string: null, "" and "0" are false. */
  predicate Truthy(s: Option<Bytes>) {
    s.Some? && s.value != [] && s.value != "0"
  }

  predicate IsLower(b: Byte) { 'a' <= b <= 'z' }

  /** `ucfirst(s)`: the first byte upper-cased when it is an ASCII lower-case letter. */
  function Ucfirst(s: Bytes): (r: Bytes)
    ensures |r| == |s| && (s != [] ==> r[1..] == s[1..])
    ensures s != [] && IsLower(s[0]) ==> r[0] as int == s[0] as int - 32 && !IsLower(r[0])
    ensures s != [] && !IsLower(s[0]) ==> r == s
  {
    if s != [] && IsLower(s[0]) then [(s[0] as int - 32) as char] + s[1..] else s
  }

  /** Applying `ucfirst` twice is the same as applying it once. */
  lemma UcfirstIdempotent(s: Bytes)
    ensures Ucfirst(Ucfirst(s)) == Ucfirst(s)
  {
  }

  function DigitChar(d: nat): (r: Byte)
    requires d < 10
  {
    ('0' as int + d) as char
  }

  predicate IsDigit(b: Byte) { '0' <= b <= '9' }

  /** The decimal digits of n, most significant first. */
  function NatDigits(n: nat): (r: Bytes)
    ensures |r| >= 1 && forall k :: 0 <= k < |r| ==> IsDigit(r[k])
    decreases n
  {
    if n < 10 then [DigitChar(n)] else NatDigits(n / 10) + [DigitChar(n % 10)]
  }

  /** The string PHP produces for an integer in a string context. */
  function IntToString(n: int): (r: Bytes)
    ensures r != []
  {
    if n < 0 then "-" + NatDigits(-n) else NatDigits(n)
  }

  /** The value of a string of decimal digits. */
  function DigitsValue(s: Bytes): nat
    requires forall k :: 0 <= k < |s| ==> IsDigit(s[k])
    decreases |s|
  {
    if s == [] then 0
    else
      assert IsDigit(s[|s| - 1]);
      DigitsValue(s[..|s| - 1]) * 10 + (s[|s| - 1] as int - '0' as int)
  }

  /** Reads back an optionally signed decimal numeral. */
  function ParseInt(s: Bytes): int
    requires s != [] && (s[0] == '-' || IsDigit(s[0]))
    requires forall k :: 1 <= k < |s| ==> IsDigit(s[k])
  {
    if s[0] == '-' then -(DigitsValue(s[1..]) as int) else DigitsValue(s)
  }

  lemma {:induction false} NatDigitsValue(n: nat)
    ensures DigitsValue(NatDigits(n)) == n
    decreases n
  {
    if n >= 10 {
      NatDigitsValue(n / 10);
      var s := NatDigits(n);
      assert s[..|s| - 1] == NatDigits(n / 10);
    }
  }

  /** Converting an integer to a string loses nothing: it reads back as the same integer. */
  lemma IntToStringRoundTrip(n: int)
    ensures IntToString(n)[0] == '-' || IsDigit(IntToString(n)[0])
    ensures forall k :: 1 <= k < |IntToString(n)| ==> IsDigit(IntToString(n)[k])
    ensures ParseInt(IntToString(n)) == n
  {
    if n < 0 {
      NatDigitsValue(-n);
      assert IntToString(n)[1..] == NatDigits(-n);
    } else {
      NatDigitsValue(n);
    }
  }
}

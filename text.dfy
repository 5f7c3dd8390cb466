/**
 * String helpers that the modelled Python code reaches through its standard
 * library: byte strings, ASCII case mapping, `strip`, `split(sep)[-1]`,
 * `str.join`, `str(n)`, `binascii.b2a_hex`, string ordering, `sorted` and
 * `urllib.quote_plus`. A Python 2 `str` is a byte string; here it is a
 * `string` whose characters are below 256.
 */
module Text {
  import opened Wrappers

  /** Python truthiness of an optional string: present and non-empty. */
  predicate Truthy(s: Option<string>) {
    s.Some? && s.value != ""
  }

  type Byte = b: int | 0 <= b < 256

  predicate IsByteString(s: string) {
    forall i :: 0 <= i < |s| ==> s[i] as int < 256
  }

  // ---------------------------------------------------------------------
  // Hexadecimal (binascii.b2a_hex / hashlib hexdigest)

  predicate IsLowerHexDigit(c: char) {
    '0' <= c <= '9' || 'a' <= c <= 'f'
  }

  function HexDigit(d: int): (c: char)
    requires 0 <= d < 16
    ensures IsLowerHexDigit(c)
  {
    if d < 10 then ('0' as int + d) as char else ('a' as int + d - 10) as char
  }

  /** Two lower-case hexadecimal digits per byte, most significant first. */
  function Hex(bytes: seq<Byte>): (r: string)
    ensures |r| == 2 * |bytes|
    ensures forall i :: 0 <= i < |r| ==> IsLowerHexDigit(r[i])
  {
    if bytes == [] then []
    else [HexDigit(bytes[0] / 16), HexDigit(bytes[0] % 16)] + Hex(bytes[1..])
  }

  /** `binascii.a2b_hex` on lower-case digits: one byte per pair of digits. */
  function Unhex(s: string): seq<int>
  {
    if |s| < 2 then []
    else [16 * HexValue(s[0]) + HexValue(s[1])] + Unhex(s[2..])
  }

  /** A digit's value is read back from it. */
  lemma HexDigitValue(d: int)
    requires 0 <= d < 16
    ensures HexValue(HexDigit(d)) == d
  {
  }

  /** Hexadecimal encoding loses nothing: decoding the digits gives the bytes back. */
  lemma {:induction false} HexRoundTrip(bytes: seq<Byte>)
    ensures Unhex(Hex(bytes)) == bytes
  {
    if bytes != [] {
      var b := bytes[0];
      var r := Hex(bytes);
      HexRoundTrip(bytes[1..]);
      HexDigitValue(b / 16);
      HexDigitValue(b % 16);
      assert r[2..] == Hex(bytes[1..]);
      assert 16 * HexValue(r[0]) + HexValue(r[1]) == b;
      assert bytes == [b] + bytes[1..];
    }
  }

  // ---------------------------------------------------------------------
  // ASCII case mapping (str.lower / str.upper on byte strings)

  predicate IsAsciiUpper(c: char) { 'A' <= c <= 'Z' }
  predicate IsAsciiLower(c: char) { 'a' <= c <= 'z' }
  predicate IsAsciiDigit(c: char) { '0' <= c <= '9' }

  function LowerChar(c: char): char {
    if IsAsciiUpper(c) then (c as int + 32) as char else c
  }

  function UpperChar(c: char): char {
    if IsAsciiLower(c) then (c as int - 32) as char else c
  }

  function Lower(s: string): (r: string)
    ensures |r| == |s|
    ensures forall i :: 0 <= i < |s| ==> r[i] == LowerChar(s[i])
  {
    if s == [] then [] else [LowerChar(s[0])] + Lower(s[1..])
  }

  function Upper(s: string): (r: string)
    ensures |r| == |s|
    ensures forall i :: 0 <= i < |s| ==> r[i] == UpperChar(s[i])
  {
    if s == [] then [] else [UpperChar(s[0])] + Upper(s[1..])
  }

  /** Lower-casing an upper-cased name gives the name lower-cased. */
  lemma LowerOfUpper(s: string)
    ensures Lower(Upper(s)) == Lower(s)
  {
  }

  // ---------------------------------------------------------------------
  // Prefixes and `split(sep)[-1]`

  predicate StartsWith(s: string, prefix: string) {
    |prefix| <= |s| && s[..|prefix|] == prefix
  }

  /** `s.split(sep)[-1]`: the longest suffix of `s` that does not contain `sep`. */
  function AfterLast(s: string, sep: char): (r: string)
    ensures |r| <= |s| && r == s[|s| - |r|..]
    ensures sep !in r
    ensures |r| < |s| ==> s[|s| - |r| - 1] == sep
  {
    if s == [] then []
    else if s[|s| - 1] == sep then []
    else AfterLast(s[..|s| - 1], sep) + [s[|s| - 1]]
  }

  /** A last character other than the separator stays at the end of the last segment. */
  lemma AfterLastLast(s: string, x: char, sep: char)
    requires x != sep
    ensures AfterLast(s + [x], sep) == AfterLast(s, sep) + [x]
  {
    assert (s + [x])[..|s|] == s;
  }

  /** Whatever precedes the last separator is cut off exactly. */
  lemma {:induction false} AfterLastOf(prefix: string, sep: char, s: string)
    requires sep !in s
    ensures AfterLast(prefix + [sep] + s, sep) == s
  {
    if s == [] {
      assert (prefix + [sep] + s)[|prefix|] == sep;
    } else {
      var init := s[..|s| - 1];
      assert (prefix + [sep] + s)[..|prefix| + |s|] == prefix + [sep] + init;
      AfterLastOf(prefix, sep, init);
      assert s == init + [s[|s| - 1]];
    }
  }

  /** `s.replace(a, b)` for one-character `a` and `b`. */
  function ReplaceChar(s: string, a: char, b: char): (r: string)
    ensures |r| == |s|
    ensures forall i :: 0 <= i < |s| ==> r[i] == if s[i] == a then b else s[i]
  {
    if s == [] then [] else [if s[0] == a then b else s[0]] + ReplaceChar(s[1..], a, b)
  }

  /** `s.replace(c, "")` for a one-character `c`. */
  function RemoveChar(s: string, c: char): (r: string)
    ensures |r| <= |s|
    ensures forall x :: x in r <==> x in s && x != c
  {
    if s == [] then []
    else (if s[0] == c then [] else [s[0]]) + RemoveChar(s[1..], c)
  }

  /** Removing `c` leaves a last character other than `c` in place. */
  lemma {:induction false} RemoveCharLast(s: string, x: char, c: char)
    requires x != c
    ensures RemoveChar(s + [x], c) == RemoveChar(s, c) + [x]
    decreases |s|
  {
    if s == [] {
      assert RemoveChar([x], c) == [x] + RemoveChar([], c);
    } else {
      assert (s + [x])[1..] == s[1..] + [x];
      RemoveCharLast(s[1..], x, c);
    }
  }

  // ---------------------------------------------------------------------
  // str.strip()

  /** The characters Python 2's `str.strip()` removes from a byte string. */
  predicate IsSpace(c: char) {
    c == ' ' || c == '\t' || c == '\n' || c == '\r' || c as int == 11 || c as int == 12
  }

  /**
   * The characters Python 2's `unicode.strip()` removes: those of
   * `unicode.isspace()` under the Unicode 5.2 database Python 2.7 ships.
   */
  predicate IsUnicodeSpace(c: char) {
    var n := c as int;
    (9 <= n <= 13) || (0x1C <= n <= 0x20) || n == 0x85 || n == 0xA0 || n == 0x1680 || n == 0x180E
    || (0x2000 <= n <= 0x200A) || n == 0x2028 || n == 0x2029 || n == 0x202F || n == 0x205F || n == 0x3000
  }

  /** White space for `strip()` on a `unicode` string when `unicode` holds, on a byte string otherwise. */
  predicate IsWhite(c: char, unicode: bool) {
    if unicode then IsUnicodeSpace(c) else IsSpace(c)
  }

  function TrimLeft(s: string, unicode: bool): (r: string)
    ensures |r| <= |s| && r == s[|s| - |r|..]
    ensures r == [] || !IsWhite(r[0], unicode)
    ensures forall i :: 0 <= i < |s| - |r| ==> IsWhite(s[i], unicode)
  {
    if s != [] && IsWhite(s[0], unicode) then TrimLeft(s[1..], unicode) else s
  }

  function TrimRight(s: string, unicode: bool): (r: string)
    ensures |r| <= |s| && r == s[..|r|]
    ensures r == [] || !IsWhite(r[|r| - 1], unicode)
    ensures forall i :: |r| <= i < |s| ==> IsWhite(s[i], unicode)
  {
    if s != [] && IsWhite(s[|s| - 1], unicode) then TrimRight(s[..|s| - 1], unicode) else s
  }

  /**
   * `s.strip()`: `s` without its leading and trailing white space, where
   * `unicode` tells whether `s` is a `unicode` or a byte string.
   */
  function Strip(s: string, unicode: bool): (r: string)
    ensures r == [] || (!IsWhite(r[0], unicode) && !IsWhite(r[|r| - 1], unicode))
    ensures forall c :: c in r ==> c in s
  {
    TrimRight(TrimLeft(s, unicode), unicode)
  }

  /** Trimming the left of `s + t` trims `t` as well only when all of `s` is white space. */
  lemma {:induction false} TrimLeftAppend(s: string, t: string, unicode: bool)
    ensures TrimLeft(s + t, unicode) ==
      if TrimLeft(s, unicode) == [] then TrimLeft(t, unicode) else TrimLeft(s, unicode) + t
    decreases |s|
  {
    if s == [] {
      assert s + t == t;
    } else if IsWhite(s[0], unicode) {
      assert (s + t)[1..] == s[1..] + t;
      TrimLeftAppend(s[1..], t, unicode);
    }
  }

  /** No white-space character is a path separator or a double quote. */
  lemma WhiteNotSeparator(c: char, unicode: bool)
    requires IsWhite(c, unicode)
    ensures c != '/' && c != '\\' && c != '"'
  {
  }

  /** A trailing white-space character does not survive `strip()`. */
  lemma StripTrailingWhite(s: string, c: char, unicode: bool)
    requires IsWhite(c, unicode)
    ensures Strip(s + [c], unicode) == Strip(s, unicode)
  {
    TrimLeftAppend(s, [c], unicode);
    var l := TrimLeft(s, unicode);
    if l != [] {
      assert (l + [c])[..|l|] == l;
    }
  }

  // ---------------------------------------------------------------------
  // sep.join(parts)

  function Join(parts: seq<string>, sep: string): string {
    if parts == [] then []
    else if |parts| == 1 then parts[0]
    else parts[0] + sep + Join(parts[1..], sep)
  }

  /** `"".join(parts)`, built from the left. */
  function Concat(parts: seq<string>): string {
    if parts == [] then "" else Concat(parts[..|parts| - 1]) + parts[|parts| - 1]
  }

  lemma {:induction false} ConcatAppend(a: seq<string>, b: seq<string>)
    ensures Concat(a + b) == Concat(a) + Concat(b)
  {
    if b != [] {
      var ab := a + b;
      assert ab[..|ab| - 1] == a + b[..|b| - 1];
      ConcatAppend(a, b[..|b| - 1]);
    } else {
      assert a + b == a;
    }
  }

  /** Appending the next part to a prefix of the concatenation extends the prefix by one part. */
  lemma ConcatStep(front: string, parts: seq<string>, i: nat)
    requires i < |parts|
    ensures front + Concat(parts[..i + 1]) == (front + Concat(parts[..i])) + parts[i]
  {
    assert parts[..i + 1][..i] == parts[..i];
  }

  lemma ConcatThree(parts: seq<string>)
    requires |parts| == 3
    ensures Concat(parts) == parts[0] + parts[1] + parts[2]
  {
    assert parts[..1][..0] == [];
    assert Concat(parts[..1]) == "" + parts[0] == parts[0];
    assert parts[..2][..1] == parts[..1];
    assert Concat(parts[..2]) == parts[0] + parts[1];
    assert parts[..3] == parts;
  }

  /** Every part occurs in the joined string. */
  lemma {:induction false} JoinHasPart(parts: seq<string>, sep: string, i: nat)
    requires i < |parts|
    ensures exists p: string, q: string :: Join(parts, sep) == p + parts[i] + q
  {
    if i == 0 {
      if |parts| == 1 {
        assert Join(parts, sep) == [] + parts[0] + [];
      } else {
        assert Join(parts, sep) == [] + parts[0] + (sep + Join(parts[1..], sep));
      }
    } else {
      JoinHasPart(parts[1..], sep, i - 1);
      var p: string, q: string :| Join(parts[1..], sep) == p + parts[1..][i - 1] + q;
      assert Join(parts, sep) == (parts[0] + sep + p) + parts[i] + q;
    }
  }

  /** Neighbouring parts `i` and `j` follow each other in the joined string, with one separator between them. */
  lemma {:induction false} JoinAdjacent(parts: seq<string>, sep: string, i: nat, j: nat)
    requires j == i + 1 && j < |parts|
    ensures exists p: string, q: string :: Join(parts, sep) == p + parts[i] + sep + parts[j] + q
  {
    var rest := Join(parts[1..], sep);
    assert Join(parts, sep) == parts[0] + sep + rest;
    if i == 0 {
      var q := if |parts| == 2 then [] else sep + Join(parts[2..], sep);
      assert parts[1..][1..] == parts[2..];
      assert rest == parts[1] + q;
      assert Join(parts, sep) == [] + parts[0] + sep + parts[1] + q;
    } else {
      JoinAdjacent(parts[1..], sep, i - 1, j - 1);
      var p: string, q: string :| rest == p + parts[1..][i - 1] + sep + parts[1..][j - 1] + q;
      assert Join(parts, sep) == (parts[0] + sep + p) + parts[i] + sep + parts[j] + q;
    }
  }

  /** The joined string ends with the last part, part `k`. */
  lemma {:induction false} JoinEndsWithLast(parts: seq<string>, sep: string, k: nat)
    requires k + 1 == |parts|
    ensures exists p: string :: Join(parts, sep) == p + parts[k]
  {
    if k == 0 {
      assert Join(parts, sep) == [] + parts[0];
    } else {
      JoinEndsWithLast(parts[1..], sep, k - 1);
      var p: string :| Join(parts[1..], sep) == p + parts[1..][k - 1];
      assert Join(parts, sep) == (parts[0] + sep + p) + parts[k];
    }
  }

  // ---------------------------------------------------------------------
  // str(n) for a natural number

  function DigitChar(d: int): (c: char)
    requires 0 <= d < 10
    ensures IsAsciiDigit(c)
  {
    ('0' as int + d) as char
  }

  /** Decimal digits of `n`, without leading zeros. */
  function NatToString(n: nat): (r: string)
    ensures |r| >= 1
    ensures forall i :: 0 <= i < |r| ==> IsAsciiDigit(r[i])
    ensures |r| > 1 ==> r[0] != '0'
  {
    if n < 10 then [DigitChar(n)] else NatToString(n / 10) + [DigitChar(n % 10)]
  }

  /** Distinct numbers have distinct decimal representations. */
  lemma {:induction false} NatToStringInjective(a: nat, b: nat)
    requires NatToString(a) == NatToString(b)
    ensures a == b
  {
    var s := NatToString(a);
    if a < 10 && b < 10 {
      assert DigitChar(a) == s[0] == DigitChar(b);
    } else if a >= 10 && b >= 10 {
      var k := |s| - 1;
      assert NatToString(a / 10) == s[..k] == NatToString(b / 10);
      assert DigitChar(a % 10) == s[k] == DigitChar(b % 10);
      NatToStringInjective(a / 10, b / 10);
    }
  }

  // ---------------------------------------------------------------------
  // Python string ordering and sorted()

  /** Python's `a < b` on strings: lexicographic by character code. */
  predicate Less(a: string, b: string) {
    if a == [] then b != []
    else if b == [] then false
    else if a[0] != b[0] then a[0] < b[0]
    else Less(a[1..], b[1..])
  }

  /** Strings that agree before index `i` are ordered by their characters at `i`. */
  lemma {:induction false} LessAt(a: string, b: string, i: nat)
    requires i < |a| && i < |b| && a[..i] == b[..i] && a[i] < b[i]
    ensures Less(a, b)
  {
    if i > 0 {
      assert a[0] == a[..i][0] == b[..i][0] == b[0];
      assert a[1..][..i - 1] == a[..i][1..] == b[..i][1..] == b[1..][..i - 1];
      LessAt(a[1..], b[1..], i - 1);
    }
  }

  predicate LessEq(a: string, b: string) {
    a == b || Less(a, b)
  }

  lemma {:induction false} LessIrreflexive(a: string)
    ensures !Less(a, a)
  {
    if a != [] { LessIrreflexive(a[1..]); }
  }

  lemma {:induction false} LessTotal(a: string, b: string)
    ensures a == b || Less(a, b) || Less(b, a)
  {
    if a != [] && b != [] && a[0] == b[0] {
      LessTotal(a[1..], b[1..]);
      if a[1..] == b[1..] {
        assert a == [a[0]] + a[1..] && b == [b[0]] + b[1..];
      }
    }
  }

  lemma {:induction false} LessTransitive(a: string, b: string, c: string)
    requires Less(a, b) && Less(b, c)
    ensures Less(a, c)
  {
    if a != [] && a[0] == b[0] && b[0] == c[0] {
      LessTransitive(a[1..], b[1..], c[1..]);
    }
  }

  predicate Sorted(s: seq<string>) {
    forall i, j :: 0 <= i < j < |s| ==> LessEq(s[i], s[j])
  }

  /** Insert `x` in front of the first element that is not smaller than it. */
  function Insert(x: string, s: seq<string>): (r: seq<string>)
    ensures multiset(r) == multiset(s) + multiset{x}
  {
    if s == [] || !Less(s[0], x) then [x] + s
    else
      assert s == [s[0]] + s[1..];
      [s[0]] + Insert(x, s[1..])
  }

  /** `sorted(s)` on a list of strings (insertion sort). */
  function Sort(s: seq<string>): (r: seq<string>)
    ensures multiset(r) == multiset(s)
  {
    if s == [] then []
    else
      assert s == [s[0]] + s[1..];
      Insert(s[0], Sort(s[1..]))
  }

  /** Sorting keeps exactly the elements it was given. */
  lemma SortMembers(s: seq<string>)
    ensures forall x :: x in Sort(s) <==> x in s
  {
    assert multiset(Sort(s)) == multiset(s);
    forall x
      ensures x in Sort(s) <==> x in s
    {
      assert x in Sort(s) <==> x in multiset(Sort(s));
      assert x in s <==> x in multiset(s);
    }
  }

  lemma {:induction false} InsertSorted(x: string, s: seq<string>)
    requires Sorted(s)
    ensures Sorted(Insert(x, s))
  {
    if s == [] || !Less(s[0], x) {
      if s != [] {
        LessTotal(x, s[0]);
        forall j | 0 <= j < |s| ensures LessEq(x, s[j]) {
          if j > 0 && x != s[0] && s[0] != s[j] { LessTransitive(x, s[0], s[j]); }
        }
      }
    } else {
      InsertSorted(x, s[1..]);
      var r := Insert(x, s);
      var t := Insert(x, s[1..]);
      assert r == [s[0]] + t;
      forall j | 0 < j < |r| ensures LessEq(s[0], r[j]) {
        assert r[j] in multiset(t);
        assert r[j] in multiset(s[1..]) + multiset{x};
        if r[j] != x {
          assert r[j] in s[1..];
          var k :| 0 <= k < |s[1..]| && s[1..][k] == r[j];
          assert s[k + 1] == r[j];
        }
      }
    }
  }

  /** `sorted` returns its input in non-decreasing order. */
  lemma {:induction false} SortSorted(s: seq<string>)
    ensures Sorted(Sort(s))
  {
    if s != [] {
      SortSorted(s[1..]);
      InsertSorted(s[0], Sort(s[1..]));
    }
  }

  lemma HeadRest<T>(p: seq<T>, s: seq<T>)
    requires p != []
    ensures p + s == [p[0]] + (p[1..] + s)
    ensures (p + s)[0] == p[0] && (p + s)[1..] == p[1..] + s
  {
  }

  lemma LastAppended<T>(s: seq<T>, x: T)
    ensures (s + [x])[..|s|] == s && (s + [x])[|s|] == x
  {
  }

  lemma TakeAll<T>(s: seq<T>)
    ensures s[..|s|] == s
  {
  }

  lemma AppendOneAssoc<T>(a: seq<T>, b: seq<T>, x: T)
    ensures (a + b) + [x] == a + (b + [x])
  {
  }

  lemma LessAsymmetric(a: string, b: string)
    requires Less(a, b)
    ensures !Less(b, a)
  {
    if Less(b, a) {
      LessTransitive(a, b, a);
      LessIrreflexive(a);
    }
  }

  /** Each element of `p` is smaller than every later one, and than every element of `s`. */
  ghost predicate IncreasingBelow(p: seq<string>, s: seq<string>) {
    (forall i, j :: 0 <= i < j < |p| ==> Less(p[i], p[j]))
    && (forall i, k :: 0 <= i < |p| && k in s ==> Less(p[i], k))
  }

  lemma IncreasingBelowRest(p: seq<string>, s: seq<string>)
    requires p != [] && IncreasingBelow(p, s)
    ensures IncreasingBelow(p[1..], s)
  {
  }

  /** The head of `p` is smaller than whatever follows it once the rest of `p` is in front of `t`. */
  lemma HeadBelowNext(p: seq<string>, s: seq<string>, t: seq<string>)
    requires p != [] && IncreasingBelow(p, s) && multiset(t) == multiset(s)
    ensures p[1..] + t == [] || Less(p[0], (p[1..] + t)[0])
  {
    if p[1..] == [] {
      assert p[1..] + t == t;
      if t != [] {
        assert t[0] in multiset(s);
        assert t[0] in s;
      }
    } else {
      assert (p[1..] + t)[0] == p[1];
    }
  }

  lemma InsertInFront(x: string, t: seq<string>)
    requires t == [] || Less(x, t[0])
    ensures Insert(x, t) == [x] + t
  {
    if t != [] {
      LessAsymmetric(x, t[0]);
    }
  }

  /** A strictly increasing prefix whose every element is below all the others stays in front. */
  lemma {:induction false} SortAfterPrefix(p: seq<string>, s: seq<string>)
    requires IncreasingBelow(p, s)
    ensures Sort(p + s) == p + Sort(s)
  {
    if p != [] {
      var rest := p[1..];
      HeadRest(p, s);
      IncreasingBelowRest(p, s);
      SortAfterPrefix(rest, s);
      HeadBelowNext(p, s, Sort(s));
      InsertInFront(p[0], rest + Sort(s));
      HeadRest(p, Sort(s));
    } else {
      assert p + s == s;
    }
  }

  // ---------------------------------------------------------------------
  // urllib.quote_plus (Python 2: safe characters are letters, digits and _.-)

  predicate IsAlwaysSafe(c: char) {
    IsAsciiUpper(c) || IsAsciiLower(c) || IsAsciiDigit(c) || c == '_' || c == '.' || c == '-'
  }

  function UpperHexDigit(d: int): char
    requires 0 <= d < 16
  {
    if d < 10 then ('0' as int + d) as char else ('A' as int + d - 10) as char
  }

  function QuoteChar(c: char): (r: string)
    requires c as int < 256
  {
    if IsAlwaysSafe(c) then [c]
    else if c == ' ' then "+"
    else ['%', UpperHexDigit(c as int / 16), UpperHexDigit(c as int % 16)]
  }

  /** `urllib.quote_plus(s)`: a space becomes `+`, every other unsafe byte `%XX`. */
  function QuotePlus(s: string): (r: string)
    requires IsByteString(s)
    ensures |r| >= |s|
  {
    if s == [] then [] else QuoteChar(s[0]) + QuotePlus(s[1..])
  }

  function HexValue(c: char): int {
    if '0' <= c <= '9' then c as int - '0' as int
    else if 'A' <= c <= 'F' then c as int - 'A' as int + 10
    else if 'a' <= c <= 'f' then c as int - 'a' as int + 10
    else -1
  }

  /** `urllib.unquote_plus`, the decoding the storage service applies to a key. */
  function UnquotePlus(s: string): string
  {
    if s == [] then []
    else if s[0] == '+' then " " + UnquotePlus(s[1..])
    else if s[0] == '%' && |s| >= 3 && HexValue(s[1]) >= 0 && HexValue(s[2]) >= 0 then
      [(16 * HexValue(s[1]) + HexValue(s[2])) as char] + UnquotePlus(s[3..])
    else [s[0]] + UnquotePlus(s[1..])
  }

  /** Quoting loses nothing: unquoting the quoted key gives the key back. */
  lemma {:induction false} QuotePlusRoundTrip(s: string)
    requires IsByteString(s)
    ensures UnquotePlus(QuotePlus(s)) == s
  {
    if s != [] {
      var c := s[0];
      var q := QuoteChar(c);
      QuotePlusRoundTrip(s[1..]);
      assert QuotePlus(s) == q + QuotePlus(s[1..]);
      if IsAlwaysSafe(c) {
        assert UnquotePlus(q + QuotePlus(s[1..])) == [c] + UnquotePlus(QuotePlus(s[1..]));
      } else if c == ' ' {
        assert UnquotePlus(q + QuotePlus(s[1..])) == " " + UnquotePlus(QuotePlus(s[1..]));
      } else {
        var t := q + QuotePlus(s[1..]);
        assert t[0] == '%' && t[1] == UpperHexDigit(c as int / 16) && t[2] == UpperHexDigit(c as int % 16);
        assert HexValue(t[1]) == c as int / 16 && HexValue(t[2]) == c as int % 16;
        assert t[3..] == QuotePlus(s[1..]);
      }
    }
  }

  /** A hexadecimal digest needs no quoting. */
  lemma {:induction false} QuotePlusHex(s: string)
    requires forall i :: 0 <= i < |s| ==> IsLowerHexDigit(s[i])
    ensures IsByteString(s) && QuotePlus(s) == s
  {
    if s != [] {
      QuotePlusHex(s[1..]);
      assert s == [s[0]] + s[1..];
    }
  }
}

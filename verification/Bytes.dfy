/** Bytes, C strings and the few libc helpers the daemon's parsers share. */
module Bytes {

  type byte = b: int | 0 <= b < 256

  datatype Option<+T> = None | Some(value: T)

  const CR: byte := 13
  const LF: byte := 10
  const DOT: byte := 46

  function Min(a: int, b: int): (m: int)
    ensures m <= a && m <= b && (m == a || m == b)
  {
    if a <= b then a else b
  }

  /** A bounded copy: at most `cap` bytes. */
  function Cut(s: seq<byte>, cap: nat): (r: seq<byte>)
    ensures r <= s && |r| == Min(|s|, cap)
  {
    if |s| <= cap then s else s[..cap]
  }

  /** `tolower` in the C locale. */
  function Lower(b: byte): (l: byte)
    ensures 'A' as int <= b <= 'Z' as int ==> l == b - 'A' as int + 'a' as int
    ensures b < 'A' as int || b > 'Z' as int ==> l == b
  {
    if 65 <= b <= 90 then b + 32 else b
  }

  /** A string lowercased byte by byte; two strings are equal for `strcasecmp` when their folds are. */
  function Fold(s: seq<byte>): (r: seq<byte>)
    ensures |r| == |s|
    ensures forall i :: 0 <= i < |s| ==> r[i] == Lower(s[i])
  {
    seq(|s|, i requires 0 <= i < |s| => Lower(s[i]))
  }

  function U8(s: seq<byte>, i: nat): (v: nat)
    requires i < |s|
    ensures v < 256
  {
    s[i] as int
  }

  /** Two bytes in network order. */
  function U16(s: seq<byte>, i: nat): (v: nat)
    requires i + 1 < |s|
    ensures v < 65536
  {
    U8(s, i) * 256 + U8(s, i + 1)
  }

  lemma Assoc<T>(a: seq<T>, b: seq<T>, c: seq<T>)
    ensures (a + b) + c == a + (b + c)
  {
  }

  lemma JoinSlices<T>(s: seq<T>, i: nat, j: nat, k: nat)
    requires i <= j <= k <= |s|
    ensures s[i..j] + s[j..k] == s[i..k]
  {
  }

  lemma SliceOfSlice<T>(s: seq<T>, a: nat, b: nat, i: nat, j: nat)
    requires a <= b <= |s| && i <= j <= b - a
    ensures s[a..b][i..j] == s[a + i..a + j]
  {
    var x, y := s[a..b][i..j], s[a + i..a + j];
    forall k | 0 <= k < j - i
      ensures x[k] == y[k]
    {
      assert x[k] == s[a..b][i + k] == s[a + (i + k)];
    }
  }

  /** `memchr`: the first index of `b` at or after `from`, or `|s|`. */
  function IndexFrom(s: seq<byte>, b: byte, from: nat): (k: nat)
    requires from <= |s|
    ensures from <= k <= |s|
    ensures forall i :: from <= i < k ==> s[i] != b
    ensures k < |s| ==> s[k] == b
    decreases |s| - from
  {
    if from == |s| || s[from] == b then from else IndexFrom(s, b, from + 1)
  }

  /** Any index with the defining property of `IndexFrom` is its value. */
  lemma {:induction false} IndexFromIs(s: seq<byte>, b: byte, from: nat, k: nat)
    requires from <= k <= |s|
    requires forall i :: from <= i < k ==> s[i] != b
    requires k < |s| ==> s[k] == b
    ensures IndexFrom(s, b, from) == k
  {
  }

  /** A field without the separator ends at the separator behind it. */
  lemma {:induction false} FieldEnds(pre: seq<byte>, field: seq<byte>, sep: byte, rest: seq<byte>)
    requires sep !in field
    ensures var t := pre + field + [sep] + rest;
            var k := |pre| + |field|;
            IndexFrom(t, sep, |pre|) == k && t[|pre|..k] == field && t[k + 1..] == rest
  {
    var t := pre + field + [sep] + rest;
    var k := |pre| + |field|;
    assert t[|pre|..k] == field;
    assert forall i :: |pre| <= i < k ==> t[i] == field[i - |pre|] && t[i] in field;
    IndexFromIs(t, sep, |pre|, k);
  }

  /** A buffer as C string functions see it: up to its first NUL. */
  function CText(buf: seq<byte>): seq<byte> {
    buf[..IndexFrom(buf, 0, 0)]
  }

  lemma WholeText(s: seq<byte>)
    requires 0 !in s
    ensures CText(s) == s
  {
    IndexFromIs(s, 0, 0, |s|);
  }

  /** CRLFCRLF starts at index i. */
  predicate BlankLine(s: seq<byte>, i: nat) {
    i + 4 <= |s| && s[i] == CR && s[i + 1] == LF && s[i + 2] == CR && s[i + 3] == LF
  }

  /** The first CRLFCRLF at or after `from`, or `|s|`. */
  function FirstBlankLine(s: seq<byte>, from: nat): (k: nat)
    requires from <= |s|
    ensures from <= k <= |s|
    ensures k < |s| ==> BlankLine(s, k)
    ensures forall j :: from <= j < k ==> !BlankLine(s, j)
    decreases |s| - from
  {
    if from == |s| || BlankLine(s, from) then from else FirstBlankLine(s, from + 1)
  }

  /** A longer stream has the same first blank line. */
  lemma {:induction false} FirstOfPrefix(s: seq<byte>, t: seq<byte>, k: nat)
    requires s <= t && BlankLine(s, k) && forall j :: 0 <= j < k ==> !BlankLine(s, j)
    ensures FirstBlankLine(t, 0) == k
  {
    assert BlankLine(t, k);
    assert forall j :: 0 <= j < k && BlankLine(t, j) ==> BlankLine(s, j);
  }
}

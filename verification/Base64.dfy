/** The base64 encoder for proxy credentials (section 4 of RFC 4648). */
module Base64 {
  import opened Bytes

  const PAD: byte := 61
  const OUT_SIZE := 512
  const CREDENTIALS_SIZE := 384
  const FIELD_MAX := 127

  type sextet = v: int | 0 <= v < 64

  /** The alphabet: A-Z, a-z, 0-9, plus, slash. */
  function Letter(v: sextet): (c: byte)
    ensures c != PAD
    ensures v < 26 ==> c == 'A' as int + v
    ensures 26 <= v < 52 ==> c == 'a' as int + (v - 26)
    ensures 52 <= v < 62 ==> c == '0' as int + (v - 52)
    ensures v >= 62 ==> c == if v == 62 then '+' as int else '/' as int
  {
    if v < 26 then 65 + v
    else if v < 52 then 97 + v - 26
    else if v < 62 then 48 + v - 52
    else if v == 62 then 43
    else 47
  }

  function Value(c: byte): Option<sextet> {
    if 65 <= c <= 90 then Some(c - 65)
    else if 97 <= c <= 122 then Some(c - 97 + 26)
    else if 48 <= c <= 57 then Some(c - 48 + 52)
    else if c == 43 then Some(62)
    else if c == 47 then Some(63)
    else None
  }

  lemma LetterValue(v: sextet)
    ensures Value(Letter(v)) == Some(v)
  {
  }

  /** Decoding as the standard defines it: groups of four letters, with
      padding only at the very end and no stray bits under it. */
  function Decode(s: seq<byte>): Option<seq<byte>>
    decreases |s|
  {
    if s == [] then Some([])
    else if |s| < 4 || Value(s[0]).None? || Value(s[1]).None? then None
    else
      var a, b := Value(s[0]).value, Value(s[1]).value;
      if s[2] == PAD then
        if |s| == 4 && s[3] == PAD && b % 16 == 0 then Some([a * 4 + b / 16]) else None
      else if Value(s[2]).None? then None
      else
        var c := Value(s[2]).value;
        if s[3] == PAD then
          if |s| == 4 && c % 4 == 0 then Some([a * 4 + b / 16, b % 16 * 16 + c / 4]) else None
        else if Value(s[3]).None? then None
        else
          var d := Value(s[3]).value;
          var rest := Decode(s[4..]);
          if rest.None? then None
          else Some([a * 4 + b / 16, b % 16 * 16 + c / 4, c % 4 * 64 + d] + rest.value)
  }

  /** Three bytes packed into 24 bits, missing ones as zero. */
  function Word(s: seq<byte>, i: nat): nat
    requires i < |s|
  {
    var x: nat := s[i];
    var y: nat := if i + 1 < |s| then s[i + 1] else 0;
    var z: nat := if i + 2 < |s| then s[i + 2] else 0;
    x * 65536 + y * 256 + z
  }

  /** The four letters for the group starting at i: the packed bytes cut
      into sextets, with padding for the missing bytes. */
  function Quad(s: seq<byte>, i: nat): (q: seq<byte>)
    requires i < |s|
    ensures |q| == 4
  {
    var val := Word(s, i);
    [Letter(val / 262144 % 64),
     Letter(val / 4096 % 64),
     if i + 1 < |s| then Letter(val / 64 % 64) else PAD,
     if i + 2 < |s| then Letter(val % 64) else PAD]
  }

  /** The output for the groups from i on. */
  function EncodeFrom(s: seq<byte>, i: nat): seq<byte>
    decreases |s| - i
  {
    if i >= |s| then [] else Quad(s, i) + EncodeFrom(s, i + 3)
  }

  function Encode(s: seq<byte>): seq<byte> {
    EncodeFrom(s, 0)
  }

  /** The sextets of a packed group, in terms of its bytes. */
  lemma Cut(x: nat, y: nat, z: nat)
    requires x < 256 && y < 256 && z < 256
    ensures var val := x * 65536 + y * 256 + z;
            && val / 262144 % 64 == x / 4
            && val / 4096 % 64 == x % 4 * 16 + y / 16
            && val / 64 % 64 == y % 16 * 4 + z / 64
            && val % 64 == z % 64
  {
    CutDigits(x / 4, x % 4 * 16 + y / 16, y % 16 * 4 + z / 64, z % 64);
  }

  lemma CutDigits(a: nat, b: nat, c: nat, d: nat)
    requires a < 64 && b < 64 && c < 64 && d < 64
    ensures var val := a * 262144 + b * 4096 + c * 64 + d;
            val / 262144 % 64 == a && val / 4096 % 64 == b && val / 64 % 64 == c && val % 64 == d
  {
    var val := a * 262144 + b * 4096 + c * 64 + d;
    assert val / 64 == a * 4096 + b * 64 + c;
    assert val / 4096 == a * 64 + b;
  }

  /** The sextets of a group give its bytes back. */
  lemma Rejoin(x: nat, y: nat, z: nat)
    requires x < 256 && y < 256 && z < 256
    ensures var a, b, c, d := x / 4, x % 4 * 16 + y / 16, y % 16 * 4 + z / 64, z % 64;
            && a * 4 + b / 16 == x && b % 16 * 16 + c / 4 == y && c % 4 * 64 + d == z
            && (y == 0 ==> b % 16 == 0) && (z == 0 ==> c % 4 == 0)
  {
  }

  lemma Sextets(s: seq<byte>, i: nat)
    requires i < |s|
    ensures var x: nat := s[i];
            var y: nat := if i + 1 < |s| then s[i + 1] else 0;
            var z: nat := if i + 2 < |s| then s[i + 2] else 0;
            var q := Quad(s, i);
            && Value(q[0]) == Some(x / 4)
            && Value(q[1]) == Some(x % 4 * 16 + y / 16)
            && (if i + 1 < |s| then Value(q[2]) == Some(y % 16 * 4 + z / 64) && q[2] != PAD else q[2] == PAD)
            && (if i + 2 < |s| then Value(q[3]) == Some(z % 64) && q[3] != PAD else q[3] == PAD)
  {
    var y: nat := if i + 1 < |s| then s[i + 1] else 0;
    var z: nat := if i + 2 < |s| then s[i + 2] else 0;
    Cut(s[i], y, z);
    var val := Word(s, i);
    hide Letter, Value, Word;
    LetterValue(val / 262144 % 64);
    LetterValue(val / 4096 % 64);
    LetterValue(val / 64 % 64);
    LetterValue(val % 64);
  }

  lemma {:induction false} DecodeQuad(s: seq<byte>, i: nat, rest: seq<byte>)
    requires i < |s| && (i + 3 > |s| ==> rest == [])
    ensures Decode(Quad(s, i) + rest) ==
            if i + 3 > |s| then Some(s[i..])
            else if Decode(rest).None? then None
            else Some(s[i..i + 3] + Decode(rest).value)
  {
    hide Letter, Value, Quad;
    Sextets(s, i);
    var y: nat := if i + 1 < |s| then s[i + 1] else 0;
    var z: nat := if i + 2 < |s| then s[i + 2] else 0;
    Rejoin(s[i], y, z);
    var q := Quad(s, i) + rest;
    assert q[4..] == rest;
    assert q[0] == Quad(s, i)[0] && q[1] == Quad(s, i)[1] && q[2] == Quad(s, i)[2] && q[3] == Quad(s, i)[3];
    if i + 1 == |s| {
      assert s[i..] == [s[i]];
    } else if i + 2 == |s| {
      assert s[i..] == [s[i], s[i + 1]];
    } else {
      assert s[i..i + 3] == [s[i], s[i + 1], s[i + 2]];
    }
  }

  lemma DecodeEmpty()
    ensures Decode([]) == Some([])
  {
  }

  /** Round trip: decoding recovers every byte string. */
  lemma {:induction false} DecodeEncode(s: seq<byte>, i: nat)
    requires i <= |s|
    ensures Decode(EncodeFrom(s, i)) == Some(s[i..])
    decreases |s| - i
  {
    hide Decode, Quad;
    if i == |s| {
      DecodeEmpty();
    } else {
      DecodeQuad(s, i, EncodeFrom(s, i + 3));
      if i + 3 <= |s| {
        DecodeEncode(s, i + 3);
        assert s[i..i + 3] + s[i + 3..] == s[i..];
      }
    }
  }

  lemma {:induction false} EncodedLength(s: seq<byte>, i: nat)
    ensures |EncodeFrom(s, i)| == if i >= |s| then 0 else (|s| - i + 2) / 3 * 4
    decreases |s| - i
  {
    hide Quad;
    if i < |s| {
      EncodedLength(s, i + 3);
    }
  }

  /** The terminated output fits the 512-byte buffer exactly for up to 381
      credential bytes; two fields of 127 bytes and a colon need at most 341. */
  lemma EncodedFits(s: seq<byte>)
    ensures |Encode(s)| + 1 <= OUT_SIZE <==> |s| <= 381
    ensures |s| <= FIELD_MAX + 1 + FIELD_MAX ==> |Encode(s)| <= 340
  {
    EncodedLength(s, 0);
  }

  /** The code's own limit on credentials (383 bytes) lets 382 bytes through,
      whose terminated encoding takes 513. */
  lemma LongCredentialsDoNotFit(s: seq<byte>)
    requires |s| == 382
    ensures |s| < CREDENTIALS_SIZE && |Encode(s)| + 1 == 513 > OUT_SIZE
  {
    EncodedLength(s, 0);
  }

  method EncodeCredentials(creds: seq<byte>) returns (b64: seq<byte>)
    ensures b64 == Encode(creds)
  {
    hide Letter;
    b64 := [];
    var i := 0;
    while i < |creds|
      invariant 0 <= i && b64 + EncodeFrom(creds, i) == Encode(creds)
    {
      var val: nat := creds[i] as int * 65536;
      if i + 1 < |creds| {
        val := val + creds[i + 1] as int * 256;
      }
      if i + 2 < |creds| {
        val := val + creds[i + 2] as int;
      }
      assert val == Word(creds, i);
      var third := if i + 1 < |creds| then Letter(val / 64 % 64) else PAD;
      var fourth := if i + 2 < |creds| then Letter(val % 64) else PAD;
      var quad := [Letter(val / 262144 % 64), Letter(val / 4096 % 64), third, fourth];
      assert quad == Quad(creds, i);
      Assoc(b64, quad, EncodeFrom(creds, i + 3));
      b64 := b64 + quad;
      i := i + 3;
    }
  }
}

/** The rule patterns: domains (exact, `*.foo`, `*foo*`, glob, and comma
    lists of these) and IPv4 addresses (exact, range, CIDR block). The shell
    glob and the reading of a dotted address belong to the C library and are
    parameters. */
module Patterns {
  import opened Bytes
  import opened CNumbers
  import Rules

  const DOMAIN_MAX := 253
  const LIST_SIZE := 1012
  const ADDRESS_SIZE := 48
  const STAR: byte := 42
  const COMMA: byte := 44
  const DASH: byte := 45
  const SLASH: byte := 47
  const QUESTION: byte := 63
  const SPACE: byte := 32

  type Glob = (seq<byte>, seq<byte>) -> bool

  // ----- One domain pattern

  /** The needle occurs in the domain, ignoring case. */
  predicate Contains(domain: seq<byte>, needle: seq<byte>) {
    exists i :: 0 <= i <= |domain| - |needle| && OccursAt(domain, needle, i)
  }

  predicate OccursAt(domain: seq<byte>, needle: seq<byte>, i: nat)
    requires i + |needle| <= |domain|
  {
    Fold(domain)[i..i + |needle|] == Fold(needle)
  }

  predicate IsContains(p: seq<byte>) {
    |p| >= 2 && p[0] == STAR && p[|p| - 1] == STAR
  }

  predicate IsSubdomains(p: seq<byte>) {
    |p| > 2 && p[0] == STAR && p[1] == DOT
  }

  predicate IsPlain(p: seq<byte>) {
    STAR !in p && QUESTION !in p
  }

  predicate Single(p: seq<byte>, domain: seq<byte>, glob: Glob) {
    if IsContains(p) then
      var needle := p[1..|p| - 1];
      needle == [] || (|needle| <= DOMAIN_MAX && Contains(domain, needle))
    else if IsSubdomains(p) then
      var suffix := p[1..];
      || Fold(domain) == Fold(suffix[1..])
      || EndsIn(Fold(domain), Fold(suffix))
    else if IsPlain(p) then Fold(p) == Fold(domain)
    else glob(p, domain)
  }

  method MatchSingle(p: seq<byte>, domain: seq<byte>, glob: Glob) returns (r: bool)
    ensures r == Single(p, domain, glob)
  {
    if |p| >= 2 && p[0] == STAR && p[|p| - 1] == STAR {
      var needle := p[1..|p| - 1];
      if needle == [] {
        return true;
      }
      if |needle| >= DOMAIN_MAX + 1 || |domain| < |needle| {
        return false;
      }
      r := Search(domain, needle);
      return;
    }
    if |p| > 2 && p[0] == STAR && p[1] == DOT {
      var suffix := p[1..];
      if Fold(domain) == Fold(suffix[1..]) {
        return true;
      }
      return |domain| > |suffix| && Fold(domain)[|domain| - |suffix|..] == Fold(suffix);
    }
    if STAR !in p && QUESTION !in p {
      return Fold(p) == Fold(domain);
    }
    return glob(p, domain);
  }

  method Search(domain: seq<byte>, needle: seq<byte>) returns (r: bool)
    requires |needle| <= |domain|
    ensures r == Contains(domain, needle)
  {
    var i := 0;
    while i <= |domain| - |needle|
      invariant 0 <= i <= |domain| - |needle| + 1
      invariant forall j :: 0 <= j < i ==> !OccursAt(domain, needle, j)
    {
      if OccursAt(domain, needle, i) {
        return true;
      }
      i := i + 1;
    }
    return false;
  }

  // ----- What the patterns mean

  /** f is t behind at least one more byte. */
  predicate EndsIn(f: seq<byte>, t: seq<byte>) {
    |f| > |t| && f[|f| - |t|..] == t
  }

  lemma EndsInMeaning(f: seq<byte>, t: seq<byte>)
    ensures EndsIn(f, t) <==> exists x :: x != [] && f == x + t
  {
    if EndsIn(f, t) {
      var x := f[..|f| - |t|];
      assert x != [] && f == x + t;
    }
  }

  lemma FoldDot(foo: seq<byte>)
    ensures Fold([DOT] + foo) == [DOT] + Fold(foo)
  {
  }

  /** Below foo: a proper subdomain, ignoring case. */
  ghost predicate Below(domain: seq<byte>, foo: seq<byte>) {
    exists x :: x != [] && Fold(domain) == x + ([DOT] + Fold(foo))
  }

  /** `*.foo` matches exactly foo and its proper subdomains, ignoring case. */
  lemma SubdomainsMeaning(foo: seq<byte>, domain: seq<byte>, glob: Glob)
    requires foo != [] && foo[|foo| - 1] != STAR
    ensures Single([STAR, DOT] + foo, domain, glob) <==> Fold(domain) == Fold(foo) || Below(domain, foo)
  {
    hide Contains, EndsIn;
    var p := [STAR, DOT] + foo;
    assert p[|p| - 1] == foo[|foo| - 1];
    assert p[1..] == [DOT] + foo && p[1..][1..] == foo;
    FoldDot(foo);
    hide Fold, IsPlain;
    EndsInMeaning(Fold(domain), [DOT] + Fold(foo));
  }

  /** Subdomains nest: what `*.foo` matches, `*.bar` matches too when it matches foo. */
  lemma SubdomainsNest(foo: seq<byte>, bar: seq<byte>, domain: seq<byte>, glob: Glob)
    requires foo != [] && foo[|foo| - 1] != STAR && bar != [] && bar[|bar| - 1] != STAR
    requires Single([STAR, DOT] + bar, foo, glob) && Single([STAR, DOT] + foo, domain, glob)
    ensures Single([STAR, DOT] + bar, domain, glob)
  {
    hide Single, Fold;
    SubdomainsMeaning(foo, domain, glob);
    SubdomainsMeaning(bar, foo, glob);
    SubdomainsMeaning(bar, domain, glob);
    if Fold(domain) != Fold(foo) && Fold(foo) != Fold(bar) {
      var x :| x != [] && Fold(domain) == x + ([DOT] + Fold(foo));
      var y :| y != [] && Fold(foo) == y + ([DOT] + Fold(bar));
      var z := x + ([DOT] + y);
      assert z != [] && Fold(domain) == z + ([DOT] + Fold(bar));
    }
  }

  /** `*x*` is substring search ignoring case, for x of up to 253 bytes. */
  lemma ContainsMeaning(needle: seq<byte>, domain: seq<byte>, glob: Glob)
    ensures Single([STAR] + needle + [STAR], domain, glob) <==>
            |needle| <= DOMAIN_MAX && exists a, b :: Fold(domain) == a + Fold(needle) + b
  {
    var p := [STAR] + needle + [STAR];
    assert p[1..|p| - 1] == needle;
    var f := Fold(domain);
    if needle == [] {
      assert f == f + Fold(needle) + [];
    }
    if Contains(domain, needle) {
      var i :| 0 <= i <= |domain| - |needle| && OccursAt(domain, needle, i);
      assert f == f[..i] + Fold(needle) + f[i + |needle|..];
    }
    if a, b :| f == a + Fold(needle) + b {
      assert f[|a|..|a| + |needle|] == Fold(needle);
      assert OccursAt(domain, needle, |a|);
    }
  }

  /** A pattern without wildcards matches its own domain only, ignoring case. */
  lemma PlainMeaning(p: seq<byte>, domain: seq<byte>, glob: Glob)
    requires forall i :: 0 <= i < |p| ==> p[i] != STAR && p[i] != QUESTION
    ensures Single(p, domain, glob) <==> Fold(p) == Fold(domain)
  {
    hide Fold, Contains, EndsIn;
  }

  /** Every other pattern is a shell glob, handed on with the pattern first. */
  lemma GlobMeaning(p: seq<byte>, domain: seq<byte>, glob: Glob)
    requires exists i :: 0 <= i < |p| && (p[i] == STAR || p[i] == QUESTION)
    requires forall x :: p != [STAR] + x + [STAR]
    requires forall foo :: foo != [] ==> p != [STAR, DOT] + foo
    ensures Single(p, domain, glob) == glob(p, domain)
  {
    Shapes(p);
    hide Fold, Contains, EndsIn, IsContains, IsSubdomains;
  }

  lemma Shapes(p: seq<byte>)
    ensures IsContains(p) <==> exists x :: p == [STAR] + x + [STAR]
    ensures IsSubdomains(p) <==> exists foo :: foo != [] && p == [STAR, DOT] + foo
  {
    if IsContains(p) {
      assert p == [STAR] + p[1..|p| - 1] + [STAR];
    }
    if IsSubdomains(p) {
      assert p[2..] != [] && p == [STAR, DOT] + p[2..];
    }
  }

  // ----- Comma lists

  /** The parts of a text between commas. */
  function Pieces(s: seq<byte>): (r: seq<seq<byte>>)
    ensures r != [] && Parts(r)
    ensures Join(r) == s
    decreases |s|
  {
    var j := IndexFrom(s, COMMA, 0);
    if j == |s| then [s]
    else
      assert s == s[..j] + [COMMA] + s[j + 1..];
      [s[..j]] + Pieces(s[j + 1..])
  }

  predicate Parts(ps: seq<seq<byte>>) {
    forall k :: 0 <= k < |ps| ==> COMMA !in ps[k]
  }

  function Join(ps: seq<seq<byte>>): seq<byte>
    requires ps != []
  {
    if |ps| == 1 then ps[0] else ps[0] + [COMMA] + Join(ps[1..])
  }

  lemma {:induction false} PiecesOfJoin(ps: seq<seq<byte>>)
    requires ps != [] && Parts(ps)
    ensures Pieces(Join(ps)) == ps
    decreases |ps|
  {
    if |ps| == 1 {
      IndexFromIs(ps[0], COMMA, 0, |ps[0]|);
    } else {
      PiecesOfJoin(ps[1..]);
      FieldEnds([], ps[0], COMMA, Join(ps[1..]));
      assert [] + ps[0] == ps[0];
      assert ps == [ps[0]] + ps[1..];
    }
  }

  function TrimLeft(s: seq<byte>): (r: seq<byte>)
    ensures r != [] ==> r[0] != SPACE
  {
    if s != [] && s[0] == SPACE then TrimLeft(s[1..]) else s
  }

  function TrimRight(s: seq<byte>): (r: seq<byte>)
    ensures r != [] ==> r[|r| - 1] != SPACE
  {
    if s != [] && s[|s| - 1] == SPACE then TrimRight(s[..|s| - 1]) else s
  }

  function Trim(s: seq<byte>): seq<byte> {
    TrimRight(TrimLeft(s))
  }

  /** One of the comma-separated patterns, trimmed and not blank, matches. */
  predicate Hit(piece: seq<byte>, domain: seq<byte>, glob: Glob) {
    Trim(piece) != [] && Single(Trim(piece), domain, glob)
  }

  predicate AnyHit(pieces: seq<seq<byte>>, domain: seq<byte>, glob: Glob) {
    exists k :: 0 <= k < |pieces| && Hit(pieces[k], domain, glob)
  }

  /** A pattern with a comma is a list, of which the first 1011 bytes are used. */
  predicate Domain(pattern: seq<byte>, domain: seq<byte>, glob: Glob) {
    if COMMA in pattern then AnyHit(Pieces(Cut(pattern, LIST_SIZE - 1)), domain, glob)
    else Single(pattern, domain, glob)
  }

  /** A pattern without a comma is matched as it stands. */
  lemma OnePattern(p: seq<byte>, domain: seq<byte>, glob: Glob)
    requires forall i :: 0 <= i < |p| ==> p[i] != COMMA
    ensures Domain(p, domain, glob) == Single(p, domain, glob)
  {
    hide Single, AnyHit, Pieces;
  }

  /** A list longer than its buffer counts with its first 1011 bytes. */
  lemma LongList(p: seq<byte>, domain: seq<byte>, glob: Glob)
    requires |p| >= LIST_SIZE && COMMA in p[..LIST_SIZE - 1]
    ensures Domain(p, domain, glob) == Domain(p[..LIST_SIZE - 1], domain, glob)
  {
    hide AnyHit, Pieces, Single;
  }

  /** A list of patterns, with blanks around them or not, matches what any of them matches. */
  lemma ListMatchesAny(ps: seq<seq<byte>>, domain: seq<byte>, glob: Glob)
    requires |ps| >= 2 && Parts(ps) && |Join(ps)| < LIST_SIZE
    ensures Domain(Join(ps), domain, glob) <==>
            exists k :: 0 <= k < |ps| && Trim(ps[k]) != [] && Single(Trim(ps[k]), domain, glob)
  {
    AnyHitMeaning(ps, domain, glob);
    hide Pieces, AnyHit, Single, Trim;
    PiecesOfJoin(ps);
    assert Join(ps)[|ps[0]|] == COMMA;
  }

  lemma AnyHitMeaning(ps: seq<seq<byte>>, domain: seq<byte>, glob: Glob)
    ensures AnyHit(ps, domain, glob) <==>
            exists k :: 0 <= k < |ps| && Trim(ps[k]) != [] && Single(Trim(ps[k]), domain, glob)
  {
    assert forall k :: 0 <= k < |ps| ==> Hit(ps[k], domain, glob) == (Trim(ps[k]) != [] && Single(Trim(ps[k]), domain, glob));
    hide Hit, Single, Trim;
  }

  method MatchDomain(pattern: seq<byte>, domain: seq<byte>, glob: Glob) returns (r: bool)
    ensures r == Domain(pattern, domain, glob)
  {
    if COMMA in pattern {
      r := MatchList(Cut(pattern, LIST_SIZE - 1), domain, glob);
    } else {
      r := MatchSingle(pattern, domain, glob);
    }
  }

  /** Walks the tokens between runs of commas. */
  method MatchList(list: seq<byte>, domain: seq<byte>, glob: Glob) returns (r: bool)
    ensures r == AnyHit(Pieces(list), domain, glob)
  {
    hide AnyHit, Pieces, Hit, Trim, Single;
    var rest := list;
    while true
      invariant AnyHit(Pieces(rest), domain, glob) == AnyHit(Pieces(list), domain, glob)
      decreases |rest|
    {
      var j := IndexFrom(rest, COMMA, 0);
      var token := rest[..j];
      AnyStep(rest, domain, glob);
      if token != [] {
        var t := TrimToken(token);
        var hit := false;
        if t != [] {
          hit := MatchSingle(t, domain, glob);
        }
        HitMeaning(token, domain, glob);
        if hit {
          return true;
        }
      } else {
        BlankNeverHits(domain, glob);
      }
      if j == |rest| {
        return false;
      }
      rest := rest[j + 1..];
    }
  }

  lemma HitMeaning(piece: seq<byte>, domain: seq<byte>, glob: Glob)
    ensures Hit(piece, domain, glob) == (Trim(piece) != [] && Single(Trim(piece), domain, glob))
  {
  }

  lemma BlankNeverHits(domain: seq<byte>, glob: Glob)
    ensures !Hit([], domain, glob)
  {
  }

  lemma AnyStep(s: seq<byte>, domain: seq<byte>, glob: Glob)
    ensures var j := IndexFrom(s, COMMA, 0);
            AnyHit(Pieces(s), domain, glob) ==
            (Hit(s[..j], domain, glob) || (j < |s| && AnyHit(Pieces(s[j + 1..]), domain, glob)))
  {
    hide Hit;
    var j := IndexFrom(s, COMMA, 0);
    if j < |s| {
      var more := Pieces(s[j + 1..]);
      assert Pieces(s) == [s[..j]] + more;
      assert forall k :: 0 <= k < |more| ==> Pieces(s)[k + 1] == more[k];
      assert Pieces(s)[0] == s[..j];
    } else {
      assert Pieces(s) == [s] && s[..j] == s;
    }
  }

  method TrimToken(tok: seq<byte>) returns (t: seq<byte>)
    ensures t == Trim(tok)
  {
    var a := 0;
    assert tok[a..] == tok;
    while a < |tok| && tok[a] == SPACE
      invariant 0 <= a <= |tok| && TrimLeft(tok[a..]) == TrimLeft(tok)
    {
      assert tok[a..][1..] == tok[a + 1..];
      a := a + 1;
    }
    t := TrimEnd(tok[a..]);
  }

  /** The first byte stays even if it is a blank. */
  method TrimEnd(body: seq<byte>) returns (t: seq<byte>)
    requires body != [] ==> body[0] != SPACE
    ensures t == TrimRight(body)
  {
    var e := |body|;
    assert body[..e] == body;
    while e > 1 && body[e - 1] == SPACE
      invariant 0 <= e <= |body| && (body != [] ==> e >= 1) && TrimRight(body[..e]) == TrimRight(body)
    {
      assert body[..e][..e - 1] == body[..e - 1];
      e := e - 1;
    }
    t := body[..e];
  }

  ghost predicate Blanks(s: seq<byte>) {
    forall i :: 0 <= i < |s| ==> s[i] == SPACE
  }

  lemma {:induction false} TrimLeftPadded(left: seq<byte>, s: seq<byte>)
    requires Blanks(left) && s != [] && s[0] != SPACE
    ensures TrimLeft(left + s) == s
    decreases |left|
  {
    if left == [] {
      assert left + s == s;
    } else {
      assert (left + s)[1..] == left[1..] + s;
      TrimLeftPadded(left[1..], s);
    }
  }

  lemma {:induction false} TrimRightPadded(s: seq<byte>, right: seq<byte>)
    requires Blanks(right) && s != [] && s[|s| - 1] != SPACE
    ensures TrimRight(s + right) == s
    decreases |right|
  {
    if right == [] {
      assert s + right == s;
    } else {
      var n := |right| - 1;
      assert (s + right)[..|s| + n] == s + right[..n];
      TrimRightPadded(s, right[..n]);
    }
  }

  /** Blanks around a pattern do not matter. */
  lemma TrimPadded(left: seq<byte>, core: seq<byte>, right: seq<byte>)
    requires Blanks(left) && Blanks(right) && core != [] && core[0] != SPACE && core[|core| - 1] != SPACE
    ensures Trim(left + (core + right)) == core
  {
    hide TrimLeft, TrimRight, Blanks;
    TrimLeftPadded(left, core + right);
    TrimRightPadded(core, right);
  }

  /** Nothing is left of a blank part. */
  lemma {:induction false} TrimBlank(s: seq<byte>)
    requires Blanks(s)
    ensures Trim(s) == []
    decreases |s|
  {
    if s != [] {
      TrimBlank(s[1..]);
    }
  }

  // ----- Case does not matter

  ghost predicate CaseBlind(glob: Glob) {
    forall p, d :: glob(p, d) == glob(Fold(p), Fold(d))
  }

  lemma FoldTwice(s: seq<byte>)
    ensures Fold(Fold(s)) == Fold(s)
  {
  }

  lemma FoldSlice(s: seq<byte>, i: nat, j: nat)
    requires i <= j <= |s|
    ensures Fold(s)[i..j] == Fold(s[i..j])
  {
  }

  lemma FoldDrop(s: seq<byte>, i: nat)
    requires i <= |s|
    ensures |Fold(s)| == |s| && Fold(s)[i..] == Fold(s[i..]) && Fold(s)[..i] == Fold(s[..i])
  {
  }

  lemma FoldKeepsByte(s: seq<byte>, b: byte)
    requires !(65 <= b <= 90) && !(97 <= b <= 122)
    ensures b in Fold(s) <==> b in s
    ensures forall i :: 0 <= i < |s| ==> (Fold(s)[i] == b <==> s[i] == b)
  {
    if b in Fold(s) {
      var i :| 0 <= i < |s| && Fold(s)[i] == b;
      assert s[i] == b;
    }
    if b in s {
      var i :| 0 <= i < |s| && s[i] == b;
      assert Fold(s)[i] == b;
    }
  }

  lemma ContainsIgnoresCase(domain: seq<byte>, n: seq<byte>)
    ensures Contains(domain, n) == Contains(Fold(domain), Fold(n))
  {
    FoldTwice(n);
    FoldTwice(domain);
    hide Fold;
    assert forall i :: 0 <= i <= |domain| - |n| ==> OccursAt(domain, n, i) == OccursAt(Fold(domain), Fold(n), i);
  }

  lemma SubdomainsIgnoreCase(p: seq<byte>)
    requires |p| >= 2
    ensures Fold(Fold(p)[1..]) == Fold(p[1..]) && Fold(Fold(p)[1..][1..]) == Fold(p[1..][1..])
  {
    FoldDrop(p, 1);
    FoldDrop(p[1..], 1);
    FoldTwice(p[1..]);
    FoldTwice(p[1..][1..]);
  }

  lemma SameKind(p: seq<byte>)
    ensures IsContains(Fold(p)) == IsContains(p) && IsSubdomains(Fold(p)) == IsSubdomains(p)
    ensures IsPlain(Fold(p)) == IsPlain(p)
  {
    FoldKeepsByte(p, STAR);
    FoldKeepsByte(p, DOT);
    FoldKeepsByte(p, QUESTION);
  }

  lemma SingleIgnoresCase(p: seq<byte>, domain: seq<byte>, glob: Glob)
    requires CaseBlind(glob)
    ensures Single(p, domain, glob) == Single(Fold(p), Fold(domain), glob)
  {
    hide Fold, Contains, EndsIn, IsPlain;
    FoldTwice(p);
    FoldTwice(domain);
    SameKind(p);
    if IsContains(p) {
      FoldSlice(p, 1, |p| - 1);
      ContainsIgnoresCase(domain, p[1..|p| - 1]);
    } else if IsSubdomains(p) {
      SubdomainsIgnoreCase(p);
    }
  }

  lemma {:induction false} TrimLeftFold(s: seq<byte>)
    ensures TrimLeft(Fold(s)) == Fold(TrimLeft(s))
    decreases |s|
  {
    FoldKeepsByte(s, SPACE);
    hide Fold;
    if s != [] && s[0] == SPACE {
      TrimLeftFold(s[1..]);
      FoldDrop(s, 1);
    }
  }

  lemma {:induction false} TrimRightFold(s: seq<byte>)
    ensures TrimRight(Fold(s)) == Fold(TrimRight(s))
    decreases |s|
  {
    FoldKeepsByte(s, SPACE);
    hide Fold;
    if s != [] && s[|s| - 1] == SPACE {
      TrimRightFold(s[..|s| - 1]);
      FoldDrop(s, |s| - 1);
    }
  }

  lemma HitIgnoresCase(piece: seq<byte>, domain: seq<byte>, glob: Glob)
    requires CaseBlind(glob)
    ensures Hit(piece, domain, glob) == Hit(Fold(piece), Fold(domain), glob)
  {
    hide Single, CaseBlind, Fold, TrimLeft, TrimRight;
    TrimLeftFold(piece);
    TrimRightFold(TrimLeft(piece));
    SingleIgnoresCase(Trim(piece), domain, glob);
  }

  lemma {:induction false} AnyIgnoresCase(s: seq<byte>, domain: seq<byte>, glob: Glob)
    requires CaseBlind(glob)
    ensures AnyHit(Pieces(s), domain, glob) == AnyHit(Pieces(Fold(s)), Fold(domain), glob)
    decreases |s|
  {
    hide AnyHit, Pieces, Hit, CaseBlind, Fold;
    var j := IndexFrom(s, COMMA, 0);
    FoldKeepsByte(s, COMMA);
    IndexFromIs(Fold(s), COMMA, 0, j);
    AnyStep(s, domain, glob);
    AnyStep(Fold(s), Fold(domain), glob);
    FoldDrop(s, j);
    HitIgnoresCase(s[..j], domain, glob);
    if j < |s| {
      FoldDrop(s, j + 1);
      AnyIgnoresCase(s[j + 1..], domain, glob);
    }
  }

  lemma DomainFolds(pattern: seq<byte>, domain: seq<byte>, glob: Glob)
    requires CaseBlind(glob)
    ensures Domain(pattern, domain, glob) == Domain(Fold(pattern), Fold(domain), glob)
  {
    hide AnyHit, Pieces, Single, CaseBlind;
    FoldKeepsByte(pattern, COMMA);
    SingleIgnoresCase(pattern, domain, glob);
    AnyIgnoresCase(Cut(pattern, LIST_SIZE - 1), domain, glob);
    FoldDrop(pattern, |Cut(pattern, LIST_SIZE - 1)|);
    assert Fold(Cut(pattern, LIST_SIZE - 1)) == Cut(Fold(pattern), LIST_SIZE - 1);
  }

  /** The case of neither pattern nor domain matters, in lists as in single patterns. */
  lemma DomainIgnoresCase(p: seq<byte>, q: seq<byte>, d: seq<byte>, e: seq<byte>, glob: Glob)
    requires CaseBlind(glob) && Fold(p) == Fold(q) && Fold(d) == Fold(e)
    ensures Domain(p, d, glob) == Domain(q, e, glob)
  {
    hide Domain, CaseBlind, Fold;
    DomainFolds(p, d, glob);
    DomainFolds(q, e, glob);
  }

  // ----- Addresses

  /** `inet_pton` and conversion to host order. */
  type Pton = seq<byte> -> Option<nat>

  function Pow2(k: nat): (r: nat)
    ensures r >= 1
  {
    if k == 0 then 1 else 2 * Pow2(k - 1)
  }

  /** A number with its k lowest bits cleared. */
  function Cleared(x: nat, k: nat): nat {
    if k == 0 then x else 2 * Cleared(x / 2, k - 1)
  }

  /** An address under the mask of `prefix` ones above zeros. */
  function Masked(address: nat, prefix: nat): nat
    requires prefix <= 32
  {
    Cleared(address, 32 - prefix)
  }

  predicate InBlock(net: nat, prefix: nat, host: nat)
    requires prefix <= 32
  {
    Masked(host, prefix) == Masked(net, prefix)
  }

  predicate Block(net: Option<nat>, prefix: int, host: nat) {
    0 <= prefix <= 32 && net.Some? && InBlock(net.value, prefix, host)
  }

  predicate Between(lo: Option<nat>, hi: Option<nat>, host: nat) {
    lo.Some? && hi.Some? && lo.value <= host <= hi.value
  }

  /** A slash makes a block, else a dash a range. */
  predicate Address(pattern: seq<byte>, ip: seq<byte>, pton: Pton) {
    var host := pton(ip);
    host.Some? &&
    var slash := IndexFrom(pattern, SLASH, 0);
    if slash < |pattern| then
      slash < ADDRESS_SIZE && Block(pton(pattern[..slash]), Atoi(pattern[slash + 1..]), host.value)
    else
      var dash := IndexFrom(pattern, DASH, 0);
      if dash < |pattern| then
        && dash < ADDRESS_SIZE
        && Between(pton(pattern[..dash]), pton(Cut(pattern[dash + 1..], ADDRESS_SIZE - 1)), host.value)
      else pton(pattern) == host
  }

  lemma {:induction false} SameCleared(x: nat, y: nat, k: nat)
    ensures Cleared(x, k) == Cleared(y, k) <==> Cleared(y, k) <= x < Cleared(y, k) + Pow2(k)
    decreases k
  {
    if k > 0 {
      SameCleared(x / 2, y / 2, k - 1);
    }
  }

  lemma {:induction false} ClearedMultiple(x: nat, k: nat) returns (q: nat)
    ensures Cleared(x, k) == q * Pow2(k)
    decreases k
  {
    if k == 0 {
      q := x;
    } else {
      q := ClearedMultiple(x / 2, k - 1);
      assert 2 * (q * Pow2(k - 1)) == q * (2 * Pow2(k - 1));
    }
  }

  lemma {:induction false} ClearMore(x: nat, y: nat, k: nat)
    requires Cleared(x, k) == Cleared(y, k)
    ensures Cleared(x, k + 1) == Cleared(y, k + 1)
    decreases k
  {
    if k > 0 {
      ClearMore(x / 2, y / 2, k - 1);
    }
  }

  /** A CIDR block is the interval of 2^(32 - prefix) addresses, aligned to
      that size, which holds the network address. */
  lemma BlockIsInterval(net: nat, prefix: nat, host: nat)
    requires prefix <= 32
    ensures var first, size := Masked(net, prefix), Pow2(32 - prefix);
            && first <= net < first + size && (exists q :: first == q * size)
            && (InBlock(net, prefix, host) <==> first <= host < first + size)
  {
    hide Pow2, Cleared;
    SameCleared(host, net, 32 - prefix);
    SameCleared(net, net, 32 - prefix);
    var q := ClearedMultiple(net, 32 - prefix);
  }

  /** A shorter prefix widens the block. */
  lemma {:induction false} BlocksNest(net: nat, short: nat, long: nat, host: nat)
    requires short <= long <= 32 && InBlock(net, long, host)
    ensures InBlock(net, short, host)
    decreases long
  {
    if short < long {
      hide Cleared;
      ClearMore(host, net, 32 - long);
      BlocksNest(net, short, long - 1, host);
    }
  }

  /** `net/len` matches exactly the addresses of the block; an unreadable or
      overlong part or a length outside 0 to 32 matches nothing. */
  lemma CidrMeaning(net: seq<byte>, len: seq<byte>, ip: seq<byte>, pton: Pton)
    requires SLASH !in net
    ensures var prefix := Atoi(len);
            Address(net + [SLASH] + len, ip, pton) <==>
            && |net| < ADDRESS_SIZE && pton(ip).Some? && pton(net).Some? && 0 <= prefix <= 32
            && var first := Masked(pton(net).value, prefix);
               first <= pton(ip).value < first + Pow2(32 - prefix)
  {
    hide Atoi, Masked, Pow2, InBlock;
    FieldEnds([], net, SLASH, len);
    assert [] + net == net;
    if pton(ip).Some? && pton(net).Some? && 0 <= Atoi(len) <= 32 {
      BlockIsInterval(pton(net).value, Atoi(len), pton(ip).value);
    }
  }

  /** `a-b` matches exactly the addresses from a to b, both included; of an
      overlong b the first 47 bytes count. */
  lemma RangeMeaning(a: seq<byte>, b: seq<byte>, ip: seq<byte>, pton: Pton)
    requires DASH !in a && SLASH !in a && SLASH !in b
    ensures var end := pton(if |b| < ADDRESS_SIZE then b else b[..ADDRESS_SIZE - 1]);
            Address(a + [DASH] + b, ip, pton) <==>
            && |a| < ADDRESS_SIZE && pton(ip).Some? && pton(a).Some? && end.Some?
            && pton(a).value <= pton(ip).value <= end.value
  {
    hide Atoi, Block;
    FieldEnds([], a, DASH, b);
    assert [] + a == a;
    var p := a + [DASH] + b;
    assert SLASH !in p;
    IndexFromIs(p, SLASH, 0, |p|);
  }

  /** Any other pattern is one address. */
  lemma AddressMeaning(a: seq<byte>, ip: seq<byte>, pton: Pton)
    requires SLASH !in a && DASH !in a
    ensures Address(a, ip, pton) <==> pton(ip).Some? && pton(a) == pton(ip)
  {
    hide Atoi, Block, Between;
    IndexFromIs(a, SLASH, 0, |a|);
    IndexFromIs(a, DASH, 0, |a|);
  }

  // ----- Rules with these patterns

  /** The matchers of the daemon; `app` stands for the match of application paths. */
  function DaemonMatchers(app: Glob, glob: Glob, pton: Pton): Rules.Matchers {
    Rules.Matchers(app, (p, d) => Domain(p, d, glob), (p, ip) => Address(p, ip, pton))
  }

  /** Which rule decides does not depend on the case of the domain name. */
  lemma DecisionIgnoresCase(
    app: Glob, glob: Glob, pton: Pton, rules: seq<Rules.Rule>, d: Rules.Destination, name: seq<byte>)
    requires CaseBlind(glob) && d.domain.Some? && Fold(d.domain.value) == Fold(name)
    ensures var m := DaemonMatchers(app, glob, pton);
            Rules.Decision(m, rules, d) == Rules.Decision(m, rules, d.(domain := Some(name)))
  {
    hide Domain, Address, CaseBlind, Fold;
    var m := DaemonMatchers(app, glob, pton);
    var e := d.(domain := Some(name));
    forall r: Rules.Rule
      ensures Rules.Covers(m, r, d) == Rules.Covers(m, r, e)
    {
      DomainIgnoresCase(r.domain, r.domain, d.domain.value, name, glob);
    }
    Rules.SameFirst(rules, Rules.General(m, d), Rules.General(m, e));
    Rules.SameFirst(rules, Rules.AppProxy(m, d, true), Rules.AppProxy(m, e, true));
    Rules.SameFirst(rules, Rules.AppProxy(m, d, false), Rules.AppProxy(m, e, false));
  }
}

/** The DNS-over-HTTPS answer cache: a ring of the last 512 answers, each
    good for 60 s, keyed by the lowercased name and the type of the question. */
module DohCache {
  import opened Bytes

  const RING := 512
  const TTL := 60
  const PAYLOAD_MAX := 1024
  const NAME_CAP := 256

  type Name = seq<byte>

  // ----- The key of a question

  datatype Key = Key(name: Name, qtype: nat)

  /** Labels from `off` on, lowercased and each followed by a dot, appended to
      `name`; with the offset of the terminating zero byte. */
  function Labels(q: seq<byte>, off: nat, name: Name): (r: Option<(nat, Name)>)
    requires off <= |q|
    ensures r.Some? ==> r.value.0 < |q|
    decreases |q| - off
  {
    if off == |q| then None
    else if q[off] == 0 then Some((off, name))
    else
      var n := U8(q, off);
      if n >= 64 || off + 1 + n > |q| || |name| + n + 1 >= NAME_CAP then None
      else Labels(q, off + 1 + n, name + Fold(q[off + 1..off + 1 + n]) + [DOT])
  }

  function StripDot(name: Name): Name {
    if name != [] && name[|name| - 1] == DOT then name[..|name| - 1] else name
  }

  /** The key as the cache sees it: a C string and a type. */
  function KeyOf(q: seq<byte>): Option<Key> {
    if |q| < 12 then None
    else
      var r := Labels(q, 12, []);
      if r.None? || r.value.0 + 5 > |q| then None
      else Some(Key(CText(StripDot(r.value.1)), U16(q, r.value.0 + 1)))
  }

  method AppendLower(name: Name, q: seq<byte>, off: nat, n: nat) returns (r: Name)
    requires off + n <= |q|
    ensures r == name + Fold(q[off..off + n])
  {
    r := name;
    var i := 0;
    while i < n
      invariant 0 <= i <= n && r == name + Fold(q[off..off + i])
    {
      assert Fold(q[off..off + i + 1]) == Fold(q[off..off + i]) + [Lower(q[off + i])];
      r := r + [Lower(q[off + i])];
      i := i + 1;
    }
  }

  method ExtractKey(q: seq<byte>) returns (r: Option<Key>)
    ensures r == KeyOf(q)
  {
    if |q| < 12 {
      return None;
    }
    var off := 12;
    var name: Name := [];
    while off < |q| && q[off] != 0
      invariant 12 <= off <= |q| && Labels(q, off, name) == Labels(q, 12, [])
      decreases |q| - off
    {
      var n := U8(q, off);
      if n >= 64 {
        return None;
      }
      off := off + 1;
      if off + n > |q| || |name| + n + 1 >= NAME_CAP {
        return None;
      }
      name := AppendLower(name, q, off, n);
      name := name + [DOT];
      off := off + n;
    }
    if off >= |q| {
      return None;
    }
    if name != [] && name[|name| - 1] == DOT {
      name := name[..|name| - 1];
    }
    off := off + 1;
    if off + 4 > |q| {
      return None;
    }
    return Some(Key(CText(name), U16(q, off)));
  }

  // ----- Questions as a resolver writes them

  /** Labels of 1 to 63 bytes without dots and NULs. */
  predicate Plain(l: seq<byte>) {
    1 <= |l| < 64 && DOT !in l && 0 !in l
  }

  predicate AllPlain(labels: seq<seq<byte>>) {
    forall i :: 0 <= i < |labels| ==> Plain(labels[i])
  }

  function EncodeName(labels: seq<seq<byte>>): seq<byte>
    requires AllPlain(labels)
  {
    if labels == [] then [0] else [|labels[0]|] + labels[0] + EncodeName(labels[1..])
  }

  /** The labels lowercased and joined, each with a dot behind it. */
  function Dotted(labels: seq<seq<byte>>): Name {
    if labels == [] then [] else Fold(labels[0]) + [DOT] + Dotted(labels[1..])
  }

  function Question(header: seq<byte>, labels: seq<seq<byte>>, qtype: nat, more: seq<byte>): seq<byte>
    requires |header| == 12 && qtype < 65536 && AllPlain(labels)
  {
    header + EncodeName(labels) + [qtype / 256, qtype % 256] + more
  }

  lemma LabelsStep(q: seq<byte>, off: nat, l: seq<byte>, name: Name)
    requires Plain(l) && off + 1 + |l| <= |q| && q[off] == |l| && q[off + 1..off + 1 + |l|] == l
    ensures Labels(q, off, name) ==
            if |name| + |l| + 1 >= NAME_CAP then None else Labels(q, off + 1 + |l|, name + Fold(l) + [DOT])
  {
  }

  lemma SplitLabel(pre: seq<byte>, n: byte, l: seq<byte>, rest: seq<byte>, post: seq<byte>)
    requires n == |l|
    ensures var q := pre + ([n] + l + rest) + post;
            q == (pre + [n] + l) + rest + post && q[|pre|] == n && q[|pre| + 1..|pre| + 1 + |l|] == l
  {
    var q := pre + ([n] + l + rest) + post;
    assert q == pre + [n] + l + (rest + post);
  }

  lemma {:induction false} LabelsOfEncoded(pre: seq<byte>, labels: seq<seq<byte>>, post: seq<byte>, name: Name)
    requires AllPlain(labels)
    ensures var q := pre + EncodeName(labels) + post;
            Labels(q, |pre|, name) ==
            if |name| + |Dotted(labels)| < NAME_CAP || labels == []
            then Some((|pre| + |EncodeName(labels)| - 1, name + Dotted(labels)))
            else None
    decreases |labels|
  {
    var q := pre + EncodeName(labels) + post;
    if labels == [] {
      assert q[|pre|] == 0;
      assert name + Dotted(labels) == name;
    } else {
      var l := labels[0];
      var pre' := pre + [|l|] + l;
      var name' := name + Fold(l) + [DOT];
      Assoc(name, Fold(l) + [DOT], Dotted(labels[1..]));
      Assoc(name, Fold(l), [DOT]);
      assert EncodeName(labels) == [|l|] + l + EncodeName(labels[1..]);
      assert Dotted(labels) == Fold(l) + [DOT] + Dotted(labels[1..]);
      hide Labels, Dotted, EncodeName, Fold;
      SplitLabel(pre, |l|, l, EncodeName(labels[1..]), post);
      LabelsStep(q, |pre|, l, name);
      LabelsOfEncoded(pre', labels[1..], post, name');
      assert |pre'| == |pre| + 1 + |l|;
    }
  }

  /** A question's key is its lowercased dotted name without the last dot, and
      its type, whatever else the packet holds; names whose dotted form takes
      256 bytes or more have none. */
  lemma KeyOfQuestion(header: seq<byte>, labels: seq<seq<byte>>, qtype: nat, more: seq<byte>)
    requires |header| == 12 && qtype < 65536 && |more| >= 2
    requires AllPlain(labels)
    ensures KeyOf(Question(header, labels, qtype, more)) ==
            if |Dotted(labels)| < NAME_CAP then Some(Key(StripDot(Dotted(labels)), qtype)) else None
  {
    hide Labels, EncodeName, Dotted, Plain;
    var tail := [qtype / 256, qtype % 256] + more;
    var q := Question(header, labels, qtype, more);
    assert q == header + EncodeName(labels) + tail;
    LabelsOfEncoded(header, labels, tail, []);
    assert [] + Dotted(labels) == Dotted(labels);
    var z := |header| + |EncodeName(labels)|;
    assert q[z] == qtype / 256 && q[z + 1] == qtype % 256;
    assert U16(q, z) == qtype;
    NoNul(labels);
    IndexFromIs(StripDot(Dotted(labels)), 0, 0, |StripDot(Dotted(labels))|);
    assert CText(StripDot(Dotted(labels))) == StripDot(Dotted(labels));
    EmptyName(labels);
    if |Dotted(labels)| < NAME_CAP {
      assert Labels(q, 12, []) == Some((z - 1, Dotted(labels)));
    } else {
      assert Labels(q, 12, []).None?;
    }
  }

  lemma EmptyName(labels: seq<seq<byte>>)
    ensures labels == [] ==> Dotted(labels) == []
    ensures labels != [] ==> Dotted(labels) != []
  {
  }

  lemma {:induction false} NoNul(labels: seq<seq<byte>>)
    requires AllPlain(labels)
    ensures 0 !in Dotted(labels)
    decreases |labels|
  {
    if labels != [] {
      NoNul(labels[1..]);
      FoldKeeps(labels[0]);
    }
  }

  lemma FoldKeeps(l: seq<byte>)
    requires Plain(l)
    ensures 0 !in Fold(l) && DOT !in Fold(l)
  {
    forall i | 0 <= i < |l|
      ensures Fold(l)[i] != 0 && Fold(l)[i] != DOT
    {
      assert l[i] in l;
    }
  }

  function FoldAll(labels: seq<seq<byte>>): (r: seq<seq<byte>>)
    ensures |r| == |labels|
  {
    seq(|labels|, i requires 0 <= i < |labels| => Fold(labels[i]))
  }

  lemma {:induction false} DottedOfFolds(a: seq<seq<byte>>, b: seq<seq<byte>>)
    requires FoldAll(a) == FoldAll(b)
    ensures Dotted(a) == Dotted(b)
    decreases |a|
  {
    if a != [] {
      assert FoldAll(a)[0] == FoldAll(b)[0];
      assert FoldAll(a[1..]) == FoldAll(a)[1..] == FoldAll(b)[1..] == FoldAll(b[1..]);
      DottedOfFolds(a[1..], b[1..]);
    }
  }

  /** Dotted names determine their labels up to case. */
  lemma {:induction false} DottedInjective(a: seq<seq<byte>>, b: seq<seq<byte>>)
    requires AllPlain(a)
    requires AllPlain(b)
    requires Dotted(a) == Dotted(b)
    ensures FoldAll(a) == FoldAll(b)
    decreases |a|
  {
    EmptyName(a);
    EmptyName(b);
    if a != [] {
      var x, y := Fold(a[0]), Fold(b[0]);
      FoldKeeps(a[0]);
      FoldKeeps(b[0]);
      FirstDot(x, Dotted(a[1..]));
      FirstDot(y, Dotted(b[1..]));
      assert Dotted(a[1..]) == Dotted(a)[|x| + 1..] == Dotted(b)[|y| + 1..] == Dotted(b[1..]);
      DottedInjective(a[1..], b[1..]);
      assert FoldAll(a) == [x] + FoldAll(a[1..]);
      assert FoldAll(b) == [y] + FoldAll(b[1..]);
    }
  }

  lemma FirstDot(l: seq<byte>, rest: seq<byte>)
    requires DOT !in l
    ensures var s := l + [DOT] + rest;
            IndexFrom(s, DOT, 0) == |l| && s[..|l|] == l && s[|l| + 1..] == rest
  {
    var s := l + [DOT] + rest;
    assert forall i :: 0 <= i < |l| ==> s[i] == l[i] && s[i] in l;
    IndexFromIs(s, DOT, 0, |l|);
  }

  lemma {:induction false} EndsInDot(labels: seq<seq<byte>>)
    requires labels != [] && AllPlain(labels)
    ensures |Dotted(labels)| >= 2 && Dotted(labels)[|Dotted(labels)| - 1] == DOT
    decreases |labels|
  {
    if |labels| > 1 {
      EndsInDot(labels[1..]);
    } else {
      assert labels[1..] == [];
    }
  }

  /** Two cacheable questions share a key exactly when their names are equal
      ignoring case and their types are equal. */
  lemma SameKeyIff(
    h1: seq<byte>, a: seq<seq<byte>>, t1: nat, m1: seq<byte>, h2: seq<byte>, b: seq<seq<byte>>, t2: nat, m2: seq<byte>)
    requires |h1| == |h2| == 12 && t1 < 65536 && t2 < 65536 && |m1| >= 2 && |m2| >= 2
    requires AllPlain(a)
    requires AllPlain(b)
    requires |Dotted(a)| < NAME_CAP && |Dotted(b)| < NAME_CAP
    ensures KeyOf(Question(h1, a, t1, m1)) == KeyOf(Question(h2, b, t2, m2)) <==> FoldAll(a) == FoldAll(b) && t1 == t2
  {
    hide KeyOf, Question;
    KeyOfQuestion(h1, a, t1, m1);
    KeyOfQuestion(h2, b, t2, m2);
    if FoldAll(a) == FoldAll(b) {
      DottedOfFolds(a, b);
    } else if StripDot(Dotted(a)) == StripDot(Dotted(b)) {
      SameStripped(a, b);
      DottedInjective(a, b);
    }
  }

  lemma SameStripped(a: seq<seq<byte>>, b: seq<seq<byte>>)
    requires AllPlain(a)
    requires AllPlain(b)
    requires StripDot(Dotted(a)) == StripDot(Dotted(b))
    ensures Dotted(a) == Dotted(b)
  {
    hide Dotted, AllPlain;
    EmptyName(a);
    EmptyName(b);
    if a != [] {
      EndsInDot(a);
    }
    if b != [] {
      EndsInDot(b);
    }
    if a != [] && b != [] {
      assert Dotted(a) == StripDot(Dotted(a)) + [DOT];
      assert Dotted(b) == StripDot(Dotted(b)) + [DOT];
    }
  }

  // ----- The ring and its history

  datatype Entry = Entry(key: Key, payload: seq<byte>, expires: int)

  /** An accepted answer: its key, its bytes with the id, and when it came. */
  datatype Put = Put(key: Key, answer: seq<byte>, time: int)

  const EMPTY := Entry(Key([], 0), [], 0)

  predicate Accepted(answer: seq<byte>) {
    2 <= |answer| <= PAYLOAD_MAX + 2
  }

  function EntryOf(p: Put): Entry
    requires Accepted(p.answer)
  {
    Entry(p.key, p.answer[2..], p.time + TTL)
  }

  predicate Answers(e: Entry, key: Key, now: int) {
    e.expires > now && e.key == key && e.payload != []
  }

  /** The put of history `puts` that slot i holds, counting from the newest. */
  function HeldBy(n: nat, i: nat): (k: int)
    requires i < RING
    ensures k < n && n - RING <= k && (k >= 0 ==> k % RING == i)
    ensures k < 0 ==> i >= n
  {
    n - 1 - (n - 1 - i) % RING
  }

  ghost predicate Holds(ring: seq<Entry>, puts: seq<Put>) {
    && |ring| == RING
    && (forall k :: 0 <= k < |puts| ==> Accepted(puts[k].answer))
    && (forall k :: 0 <= k < |puts| && |puts| - RING <= k ==> ring[k % RING] == EntryOf(puts[k]))
    && (forall i :: |puts| <= i < RING ==> ring[i] == EMPTY)
  }

  /** A put that can still answer: one of the last 512, under 60 s old, with
      bytes beyond the id. */
  ghost predicate Fresh(puts: seq<Put>, k: int, key: Key, now: int) {
    && 0 <= k < |puts| && |puts| - RING <= k
    && puts[k].key == key && now - puts[k].time < TTL && |puts[k].answer| > 2
  }

  lemma SlotAnswers(ring: seq<Entry>, puts: seq<Put>, i: nat, key: Key, now: int)
    requires Holds(ring, puts) && i < RING
    ensures Answers(ring[i], key, now) <==> Fresh(puts, HeldBy(|puts|, i), key, now)
    ensures Answers(ring[i], key, now) ==> ring[i].payload == puts[HeldBy(|puts|, i)].answer[2..]
  {
    var k := HeldBy(|puts|, i);
    if k >= 0 {
      assert ring[k % RING] == EntryOf(puts[k]);
    }
  }

  lemma FreshHasSlot(ring: seq<Entry>, puts: seq<Put>, k: int, key: Key, now: int)
    requires Holds(ring, puts) && Fresh(puts, k, key, now)
    ensures Answers(ring[k % RING], key, now)
  {
    assert ring[k % RING] == EntryOf(puts[k]);
  }

  lemma SlotsDiffer(a: nat, b: nat)
    requires a < b < a + RING
    ensures a % RING != b % RING
  {
  }

  lemma HoldsAfterPut(ring: seq<Entry>, puts: seq<Put>, p: Put)
    requires Holds(ring, puts) && Accepted(p.answer)
    ensures Holds(ring[|puts| % RING := EntryOf(p)], puts + [p])
  {
    var n := |puts|;
    forall k | 0 <= k < n && n + 1 - RING <= k
      ensures k % RING != n % RING
    {
      SlotsDiffer(k, n);
    }
  }

  class Cache {
    const ring: array<Entry>
    var head: nat
    ghost var puts: seq<Put>

    ghost predicate Valid()
      reads this, ring
    {
      Holds(ring[..], puts) && head == |puts| % RING
    }

    constructor ()
      ensures Valid() && puts == []
    {
      ring := new Entry[RING](_ => EMPTY);
      head, puts := 0, [];
    }

    /** A hit answers with the bytes of a fresh put under the caller's id, and
        a buffer that holds the largest answer gets a hit exactly when there is
        a fresh put. */
    method Lookup(key: Key, id: nat, now: int, cap: nat) returns (r: Option<seq<byte>>)
      requires Valid() && id < 65536
      ensures cap >= PAYLOAD_MAX + 2 ==> (r.Some? <==> exists k :: Fresh(puts, k, key, now))
      ensures r.Some? ==>
                && |r.value| <= cap
                && exists k :: Fresh(puts, k, key, now) && r.value == [id / 256, id % 256] + puts[k].answer[2..]
    {
      var i := 0;
      while i < RING
        invariant 0 <= i <= RING
        invariant forall j :: 0 <= j < i ==> !Answers(ring[j], key, now)
      {
        var e := ring[i];
        if Answers(e, key, now) {
          SlotAnswers(ring[..], puts, i, key, now);
          ghost var k := HeldBy(|puts|, i);
          assert Fresh(puts, k, key, now);
          if |e.payload| + 2 > cap {
            return None;
          }
          return Some([id / 256, id % 256] + e.payload);
        }
        i := i + 1;
      }
      forall k | Fresh(puts, k, key, now)
        ensures false
      {
        FreshHasSlot(ring[..], puts, k, key, now);
      }
      return None;
    }

    /** Stores an acceptable answer over the oldest one; others are ignored. */
    method Store(key: Key, answer: seq<byte>, now: int)
      requires Valid()
      modifies this, ring
      ensures Valid()
      ensures puts == if 2 <= |answer| <= 1026 then old(puts) + [Put(key, answer, now)] else old(puts)
    {
      if |answer| < 2 || |answer| - 2 > PAYLOAD_MAX {
        return;
      }
      HoldsAfterPut(ring[..], puts, Put(key, answer, now));
      ring[head] := Entry(key, answer[2..], now + TTL);
      puts := puts + [Put(key, answer, now)];
      head := (head + 1) % RING;
    }
  }
}

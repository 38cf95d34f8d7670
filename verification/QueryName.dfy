/** The name in an observed DNS query, as the cache of DNS traffic reads it,
    and its agreement with the key of the DNS-over-HTTPS cache. */
module QueryName {
  import opened Bytes
  import opened DohCache

  const COMPRESSED := 192
  /** The buffer for the name, and thereby the longest cached domain. */
  const NAME_BUFFER := 253

  /** Reads labels from p on behind the text read so far, into a buffer of
      `cap` bytes. Without a cursor the packet is malformed or the name too
      long; the text read until then is used all the same. */
  function Read(packet: seq<byte>, p: nat, name: Name, cap: nat): (r: (Option<nat>, Name))
    requires p <= |packet| && |name| < cap
    ensures |r.1| < cap && (r.0.Some? ==> p <= r.0.value <= |packet|)
    decreases |packet| - p
  {
    if p == |packet| then (Some(p), name)
    else
      var len := U8(packet, p);
      var dotted := if name == [] then name else name + [DOT];
      if len >= COMPRESSED then (if p + 1 == |packet| then None else Some(p + 2), name)
      else if len == 0 then (Some(p + 1), name)
      else if p + 1 + len > |packet| || |dotted| >= cap then (None, name)
      else if |dotted| + len >= cap then (None, dotted)
      else Read(packet, p + 1 + len, dotted + packet[p + 1..p + 1 + len], cap)
  }

  /** Whatever the packet holds, the name is shorter than the buffer and the
      cursor stays inside the packet. */
  method ParseName(packet: seq<byte>, start: nat, cap: nat) returns (pos: Option<nat>, name: Name)
    requires start <= |packet| && cap > 0
    ensures (pos, name) == Read(packet, start, [], cap)
    ensures |name| < cap && (pos.Some? ==> start <= pos.value <= |packet|)
  {
    name := [];
    var p := start;
    while p < |packet|
      invariant start <= p <= |packet| && |name| < cap
      invariant Read(packet, p, name, cap) == Read(packet, start, [], cap)
      decreases |packet| - p
    {
      var len := U8(packet, p);
      if len >= COMPRESSED {
        if p + 1 >= |packet| {
          return None, name;
        }
        return Some(p + 2), name;
      }
      if len == 0 {
        return Some(p + 1), name;
      }
      if p + 1 + len > |packet| {
        return None, name;
      }
      if |name| > 0 {
        if |name| + 1 >= cap {
          return None, name;
        }
        name := name + [DOT];
      }
      if |name| + len >= cap {
        return None, name;
      }
      name := name + packet[p + 1..p + 1 + len];
      p := p + 1 + len;
    }
    return Some(p), name;
  }

  // ----- What is read from an encoded name

  /** The labels with dots between them. */
  function Text(labels: seq<seq<byte>>): Name {
    if labels == [] then []
    else if |labels| == 1 then labels[0]
    else labels[0] + [DOT] + Text(labels[1..])
  }

  /** The labels behind what has been read. */
  function Extended(name: Name, labels: seq<seq<byte>>): Name {
    if labels == [] then name
    else if name == [] then Text(labels)
    else name + [DOT] + Text(labels)
  }

  function OneMore(name: Name, l: seq<byte>): Name {
    (if name == [] then name else name + [DOT]) + l
  }

  lemma ExtendedStep(name: Name, labels: seq<seq<byte>>)
    requires labels != [] && labels[0] != []
    ensures Extended(name, labels) == Extended(OneMore(name, labels[0]), labels[1..])
    ensures |Extended(name, labels)| >= |OneMore(name, labels[0])|
  {
    if |labels| == 1 {
      assert labels[1..] == [];
    } else if name != [] {
      assert name + [DOT] + (labels[0] + [DOT] + Text(labels[1..]))
          == (name + [DOT] + labels[0]) + [DOT] + Text(labels[1..]);
    }
  }

  lemma ReadLabel(packet: seq<byte>, p: nat, l: seq<byte>, name: Name, cap: nat)
    requires Plain(l) && p + 1 + |l| <= |packet| && packet[p] == |l| && packet[p + 1..p + 1 + |l|] == l && |name| < cap
    ensures var name' := OneMore(name, l);
            if |name'| < cap then Read(packet, p, name, cap) == Read(packet, p + 1 + |l|, name', cap)
            else Read(packet, p, name, cap).0.None?
  {
  }

  lemma ReadEnd(packet: seq<byte>, p: nat, name: Name, cap: nat)
    requires p < |packet| && packet[p] == 0 && |name| < cap
    ensures Read(packet, p, name, cap) == (Some(p + 1), name)
  {
  }

  /** From an encoded name, wherever it stands, exactly its labels joined by
      dots are read and the cursor is left behind its zero byte, if and only
      if the text fits the buffer. */
  lemma {:induction false} ReadEncoded(
    pre: seq<byte>, labels: seq<seq<byte>>, post: seq<byte>, name: Name, cap: nat)
    requires AllPlain(labels) && |name| < cap
    ensures var r := Read(pre + EncodeName(labels) + post, |pre|, name, cap);
            if |Extended(name, labels)| < cap
            then r == (Some(|pre| + |EncodeName(labels)|), Extended(name, labels))
            else r.0.None?
    decreases |labels|
  {
    hide Read, OneMore, Text;
    var q := pre + EncodeName(labels) + post;
    if labels == [] {
      assert EncodeName(labels) == [0];
      ReadEnd(q, |pre|, name, cap);
    } else {
      var l := labels[0];
      assert Plain(l);
      var rest := EncodeName(labels[1..]);
      assert EncodeName(labels) == [|l|] + l + rest;
      hide Extended, EncodeName, Plain;
      SplitLabel(pre, |l|, l, rest, post);
      ReadLabel(q, |pre|, l, name, cap);
      PlainNotEmpty(l);
      ExtendedStep(name, labels);
      if |OneMore(name, l)| < cap {
        ReadEncoded(pre + [|l|] + l, labels[1..], post, OneMore(name, l), cap);
      }
    }
  }

  /** The encoded labels without the zero byte. */
  function Stem(labels: seq<seq<byte>>): seq<byte>
    requires AllPlain(labels)
  {
    if labels == [] then [] else [|labels[0]|] + labels[0] + Stem(labels[1..])
  }

  lemma ReadPointer(packet: seq<byte>, p: nat, name: Name, cap: nat)
    requires p + 1 < |packet| && packet[p] >= 192 && |name| < cap
    ensures Read(packet, p, name, cap) == (Some(p + 2), name)
  {
  }

  /** A compression pointer ends the name: the labels in front of it are read,
      the pointer is not followed, and the cursor is left behind its two bytes. */
  lemma {:induction false} ReadCompressed(
    pre: seq<byte>, labels: seq<seq<byte>>, high: byte, low: byte, post: seq<byte>, name: Name, cap: nat)
    requires AllPlain(labels) && high >= 192 && |name| < cap
    ensures var r := Read(pre + Stem(labels) + ([high, low] + post), |pre|, name, cap);
            if |Extended(name, labels)| < cap then r == (Some(|pre| + |Stem(labels)| + 2), Extended(name, labels))
            else r.0.None?
    decreases |labels|
  {
    hide Read, OneMore, Text;
    var tail := [high, low] + post;
    var q := pre + Stem(labels) + tail;
    if labels == [] {
      ReadPointer(q, |pre|, name, cap);
    } else {
      var l := labels[0];
      assert Plain(l);
      assert Stem(labels) == [|l|] + l + Stem(labels[1..]);
      hide Extended, Stem, Plain;
      SplitLabel(pre, |l|, l, Stem(labels[1..]), tail);
      ReadLabel(q, |pre|, l, name, cap);
      PlainNotEmpty(l);
      ExtendedStep(name, labels);
      if |OneMore(name, l)| < cap {
        ReadCompressed(pre + [|l|] + l, labels[1..], high, low, post, OneMore(name, l), cap);
      }
    }
  }

  lemma PlainNotEmpty(l: seq<byte>)
    requires Plain(l)
    ensures l != [] && |l| < 64
  {
  }

  // ----- Agreement with the DNS-over-HTTPS cache

  lemma {:induction false} FoldOfText(labels: seq<seq<byte>>)
    requires AllPlain(labels)
    ensures Dotted(labels) == if labels == [] then [] else Fold(Text(labels)) + [DOT]
    decreases |labels|
  {
    if |labels| == 1 {
      assert labels[1..] == [];
      assert Dotted(labels) == Fold(labels[0]) + [DOT];
    } else if |labels| > 1 {
      FoldOfText(labels[1..]);
      FoldJoined(labels[0], Text(labels[1..]));
      Assoc(Fold(labels[0]) + [DOT], Fold(Text(labels[1..])), [DOT]);
    }
  }

  lemma FoldJoined(a: seq<byte>, b: seq<byte>)
    ensures Fold(a + [DOT] + b) == Fold(a) + [DOT] + Fold(b)
  {
  }

  /** For a question whose name fits its buffer, the name observed in the
      packet is, lowercased, the name under which its answer is cached. */
  lemma ObservedNameIsKey(header: seq<byte>, labels: seq<seq<byte>>, qtype: nat, more: seq<byte>)
    requires |header| == 12 && qtype < 65536 && |more| >= 2 && AllPlain(labels) && |Text(labels)| < NAME_BUFFER
    ensures var q := Question(header, labels, qtype, more);
            var r := Read(q, 12, [], NAME_BUFFER);
            r.0.Some? && r.1 == Text(labels) && KeyOf(q) == Some(Key(Fold(r.1), qtype))
  {
    hide Read, KeyOf, EncodeName, Dotted, Text, Fold;
    var q := Question(header, labels, qtype, more);
    var tail := [qtype / 256, qtype % 256] + more;
    assert q == header + EncodeName(labels) + tail;
    ReadEncoded(header, labels, tail, [], NAME_BUFFER);
    KeyOfQuestion(header, labels, qtype, more);
    FoldOfText(labels);
    EmptyText(labels);
  }

  lemma EmptyText(labels: seq<seq<byte>>)
    ensures labels == [] ==> Text(labels) == [] && Fold(Text(labels)) == []
    ensures |Fold(Text(labels))| == |Text(labels)|
  {
  }
}

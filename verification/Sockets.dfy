/** A connected stream socket. What the peer sends is a fixed but arbitrary
    byte sequence; how many bytes each call moves is a fixed but arbitrary
    schedule, in which zero stands for an error. Everything proved about the
    callers therefore holds for every peer and every fragmentation. */
module Sockets {
  import opened Bytes

  class Socket {
    const inbound: seq<byte>
    const recvSchedule: nat -> nat
    const sendSchedule: nat -> nat
    var pos: nat
    var recvs: nat
    var sends: nat
    var sent: seq<byte>
    var closes: nat

    constructor (inbound: seq<byte>, recvSchedule: nat -> nat, sendSchedule: nat -> nat)
      ensures Valid() && pos == 0 && sent == [] && closes == 0
      ensures this.inbound == inbound && this.recvSchedule == recvSchedule && this.sendSchedule == sendSchedule
    {
      this.inbound, this.recvSchedule, this.sendSchedule := inbound, recvSchedule, sendSchedule;
      pos, recvs, sends, sent, closes := 0, 0, 0, [], 0;
    }

    ghost predicate Valid()
      reads this`pos
    {
      pos <= |inbound|
    }

    /** No call fails by itself; reads can still run into the end of the stream. */
    ghost predicate Healthy() {
      && (forall n :: recvSchedule(n) > 0)
      && (forall n :: sendSchedule(n) > 0)
    }

    /** What the peer has yet to deliver. */
    ghost function Unread(): seq<byte>
      requires Valid()
      reads this`pos
    {
      inbound[pos..]
    }

    /** One `recv` of at most `want` bytes; nothing means error or end of stream. */
    method Recv(want: nat) returns (chunk: seq<byte>)
      requires Valid() && want > 0
      modifies this`pos, this`recvs
      ensures Valid() && |chunk| <= want
      ensures pos == old(pos) + |chunk| && chunk == inbound[old(pos)..pos]
      ensures Healthy() && old(pos) < |inbound| ==> chunk != []
      ensures |chunk| == Min(Min(recvSchedule(old(recvs)), want), |inbound| - old(pos)) && recvs == old(recvs) + 1
    {
      var n := Min(Min(recvSchedule(recvs), want), |inbound| - pos);
      recvs := recvs + 1;
      chunk := inbound[pos..pos + n];
      pos := pos + n;
    }

    /** Reads exactly `len` bytes into a buffer of `cap` bytes. */
    method RecvAll(len: nat, ghost cap: nat) returns (ok: bool, buf: seq<byte>)
      requires Valid() && len <= cap
      modifies this`pos, this`recvs
      ensures Valid() && old(pos) <= pos
      ensures ok ==> pos == old(pos) + len && buf == inbound[old(pos)..pos]
      ensures Healthy() && old(pos) + len <= |inbound| ==> ok
      ensures !ok && Healthy() ==> pos == |inbound|
    {
      buf := [];
      while |buf| < len
        invariant |buf| <= len && old(pos) + |buf| == pos <= |inbound|
        invariant buf == inbound[old(pos)..pos]
      {
        var chunk := Recv(len - |buf|);
        if chunk == [] {
          return false, buf;
        }
        buf := buf + chunk;
      }
      return true, buf;
    }

    /** Writes all bytes; after a failure some prefix of them has been written. */
    method SendAll(bytes: seq<byte>) returns (ok: bool)
      modifies this`sends, this`sent
      ensures ok ==> sent == old(sent) + bytes
      ensures !ok ==> exists n :: 0 <= n <= |bytes| && sent == old(sent) + bytes[..n]
      ensures Healthy() ==> ok
    {
      var done := 0;
      while done < |bytes|
        invariant 0 <= done <= |bytes| && sent == old(sent) + bytes[..done]
      {
        var n := Min(sendSchedule(sends), |bytes| - done);
        sends := sends + 1;
        if n == 0 {
          return false;
        }
        sent := sent + bytes[done..done + n];
        done := done + n;
      }
      return true;
    }

    method Close()
      modifies this`closes
      ensures closes == old(closes) + 1
    {
      closes := closes + 1;
    }
  }
}

/** The table of IPC clients: 16 slots filled by accept and emptied by removal. */
module ClientTable {
  import opened Bytes

  const SLOTS := 16

  /** A slot holds a descriptor and the two subscriptions; a negative descriptor means free. */
  datatype Client = Client(fd: int, log: bool, stats: bool)

  const FREE := Client(-1, false, false)

  /** Number of taken slots. */
  function Taken(clients: seq<Client>): (n: nat)
    ensures n <= |clients|
    ensures n < |clients| ==> exists i :: 0 <= i < |clients| && clients[i].fd < 0
    ensures n == |clients| ==> forall i :: 0 <= i < |clients| ==> clients[i].fd >= 0
  {
    if clients == [] then 0
    else
      var init := clients[..|clients| - 1];
      assert forall i :: 0 <= i < |init| ==> init[i] == clients[i];
      Taken(init) + (if clients[|clients| - 1].fd >= 0 then 1 else 0)
  }

  /** Changing one slot changes the number by that slot alone. */
  lemma {:induction false} TakenUpdate(clients: seq<Client>, i: nat, c: Client)
    requires i < |clients|
    ensures Taken(clients[i := c]) ==
            Taken(clients) - (if clients[i].fd >= 0 then 1 else 0) + (if c.fd >= 0 then 1 else 0)
  {
    var init := clients[..|clients| - 1];
    if i < |init| {
      TakenUpdate(init, i, c);
      assert clients[i := c][..|clients| - 1] == init[i := c];
    } else {
      assert clients[i := c][..|clients| - 1] == init;
    }
  }

  lemma {:induction false} NoneTaken(clients: seq<Client>)
    requires forall i :: 0 <= i < |clients| ==> clients[i].fd < 0
    ensures Taken(clients) == 0
  {
    if clients != [] {
      NoneTaken(clients[..|clients| - 1]);
    }
  }

  /** Only root and regular users may connect; an unknown peer is let in. */
  predicate Admitted(uid: Option<nat>) {
    uid.None? || uid.value == 0 || uid.value >= 1000
  }

  class Table {
    const clients: array<Client>
    var count: nat

    /** The count is the number of taken slots. */
    ghost predicate Valid()
      reads this, clients
    {
      clients.Length == SLOTS && count == Taken(clients[..])
    }

    constructor ()
      ensures Valid() && count == 0 && forall i :: 0 <= i < SLOTS ==> clients[i] == FREE
    {
      clients := new Client[SLOTS](_ => FREE);
      count := 0;
      new;
      NoneTaken(clients[..]);
    }

    /** A connection is refused exactly when its user is not admitted, the
        table is full or the descriptor cannot be made non-blocking; otherwise
        it takes the first free slot and no other slot changes. */
    method Accept(fd: nat, uid: Option<nat>, nonBlocking: bool) returns (slot: int)
      requires Valid()
      modifies this, clients
      ensures Valid()
      ensures slot < 0 <==>
                || (uid.Some? && 1 <= uid.value < 1000) || !nonBlocking
                || forall j :: 0 <= j < SLOTS ==> old(clients[j].fd) >= 0
      ensures slot < 0 ==> clients[..] == old(clients[..])
      ensures slot >= 0 ==>
                && slot < SLOTS && old(clients[slot].fd) < 0 && count == old(count) + 1
                && clients[..] == old(clients[..])[slot := Client(fd, false, false)]
                && forall j :: 0 <= j < slot ==> old(clients[j].fd) >= 0
    {
      if !Admitted(uid) || count >= SLOTS || !nonBlocking {
        return -1;
      }
      ghost var table := clients[..];
      assert exists k :: 0 <= k < SLOTS && table[k].fd < 0;
      var i := 0;
      while clients[i].fd >= 0
        invariant 0 <= i < SLOTS && forall j :: 0 <= j < i ==> clients[j].fd >= 0
        invariant exists k :: i <= k < SLOTS && clients[k].fd < 0
        decreases SLOTS - i
      {
        i := i + 1;
      }
      TakenUpdate(clients[..], i, Client(fd, false, false));
      clients[i] := Client(fd, false, false);
      count := count + 1;
      return i;
    }

    method Remove(slot: nat)
      requires Valid() && slot < SLOTS && clients[slot].fd >= 0
      modifies this, clients
      ensures Valid() && count == old(count) - 1
      ensures clients[..] == old(clients[..])[slot := FREE]
    {
      TakenUpdate(clients[..], slot, FREE);
      clients[slot] := FREE;
      count := count - 1;
    }
  }
}

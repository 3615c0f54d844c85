// The poll-descriptor registry of jackwsmeter: a compact table of `struct pollfd`
// records, `pollfds[0..count_pollfds)`, and a reverse map `fd_lookup[fd] -> slot`,
// kept up to date by the ADD/DEL/SET_MODE/CLEAR_MODE_POLL_FD cases of callback_http.
module PollRegistry {

  /** One `struct pollfd`: the descriptor, the requested events and the returned
      events (both C `short`, so 16 bits). */
  datatype PollFd = PollFd(fd: int, events: bv16, revents: bv16)

  /** The live records and the whole lookup array, as values. */
  datatype Table = Table(records: seq<PollFd>, lookup: seq<int>)

  /** The event argument `(int)(long)len` as it lands in the 16-bit `events`
      field of a record: its low 16 bits. */
  function EventBits(len: nat): bv16
  {
    (len % 0x1_0000) as bv16
  }

  /** The descriptors of the live records. */
  ghost function Fds(records: seq<PollFd>): set<int>
  {
    set i | 0 <= i < |records| :: records[i].fd
  }

  /** The registry invariant: every live slot i holds a descriptor that indexes
      the lookup array and whose lookup entry points back at i. */
  ghost predicate Indexed(t: Table)
  {
    forall i :: 0 <= i < |t.records| ==>
      0 <= t.records[i].fd < |t.lookup| && t.lookup[t.records[i].fd] == i
  }

  /** No descriptor occupies two slots. */
  ghost predicate DistinctFds(records: seq<PollFd>)
  {
    forall i, j :: 0 <= i < |records| && 0 <= j < |records| && records[i].fd == records[j].fd ==> i == j
  }

  /** The slot of a descriptor that is present, found through the lookup array. */
  lemma SlotOf(t: Table, fd: int) returns (k: nat)
    requires Indexed(t) && fd in Fds(t.records)
    ensures 0 <= fd < |t.lookup| && k == t.lookup[fd] && k < |t.records| && t.records[k].fd == fd
  {
    var i :| 0 <= i < |t.records| && t.records[i].fd == fd;
    k := i;
  }

  /** ADD_POLL_FD once capacity is checked: the new record goes to the old
      `count_pollfds` with `revents == 0`, and its lookup entry names that slot. */
  function Added(t: Table, fd: int, events: bv16): Table
    requires 0 <= fd < |t.lookup|
  {
    Table(t.records + [PollFd(fd, events, 0)], t.lookup[fd := |t.records|])
  }

  /** DEL_POLL_FD: the count drops by one; when records remain, the former last
      record moves into the freed slot and its lookup entry follows it. */
  function Deleted(t: Table, fd: int): Table
    requires Indexed(t) && fd in Fds(t.records)
  {
    var last := |t.records| - 1;
    if last == 0 then Table([], t.lookup)
    else
      var m := t.lookup[fd];
      var moved := t.records[last];
      Table(t.records[m := moved][..last], t.lookup[moved.fd := m])
  }

  /** SET_MODE_POLL_FD: OR the bits into the events of the descriptor's record. */
  function ModeSet(t: Table, fd: int, bits: bv16): Table
    requires 0 <= fd < |t.lookup| && 0 <= t.lookup[fd] < |t.records|
  {
    var k := t.lookup[fd];
    t.(records := t.records[k := t.records[k].(events := t.records[k].events | bits)])
  }

  /** CLEAR_MODE_POLL_FD: AND the events of the descriptor's record with `~bits`. */
  function ModeCleared(t: Table, fd: int, bits: bv16): Table
    requires 0 <= fd < |t.lookup| && 0 <= t.lookup[fd] < |t.records|
  {
    var k := t.lookup[fd];
    t.(records := t.records[k := t.records[k].(events := t.records[k].events & !bits)])
  }

  /** The lookup invariant forces the descriptors of live records to be distinct. */
  lemma IndexedDistinct(t: Table)
    requires Indexed(t)
    ensures DistinctFds(t.records)
  {
    forall i, j | 0 <= i < |t.records| && 0 <= j < |t.records| && t.records[i].fd == t.records[j].fd
      ensures i == j
    {
      assert t.lookup[t.records[i].fd] == i;
    }
  }

  /** Adding a descriptor that is not yet present keeps the invariant and adds
      exactly that descriptor. */
  lemma AddKeepsIndexed(t: Table, fd: int, events: bv16)
    requires Indexed(t) && 0 <= fd < |t.lookup| && fd !in Fds(t.records)
    ensures Indexed(Added(t, fd, events))
    ensures Fds(Added(t, fd, events).records) == Fds(t.records) + {fd}
    ensures |Added(t, fd, events).records| == |t.records| + 1
  {
    var a := Added(t, fd, events);
    forall i | 0 <= i < |a.records|
      ensures 0 <= a.records[i].fd < |a.lookup| && a.lookup[a.records[i].fd] == i
    {
      if i < |t.records| {
        assert t.records[i].fd in Fds(t.records);
      }
    }
    forall x | x in Fds(a.records) ensures x in Fds(t.records) + {fd} {
      var i :| 0 <= i < |a.records| && a.records[i].fd == x;
      if i < |t.records| { assert t.records[i].fd in Fds(t.records); }
    }
    forall x | x in Fds(t.records) + {fd} ensures x in Fds(a.records) {
      if x == fd {
        assert a.records[|t.records|].fd == fd;
      } else {
        var i :| 0 <= i < |t.records| && t.records[i].fd == x;
        assert a.records[i].fd == x;
      }
    }
  }

  /** callback_http does not check for a descriptor that is already present:
      adding it again breaks the lookup invariant for its earlier slot. */
  lemma AddDuplicateBreaksIndexed(t: Table, fd: int, events: bv16)
    requires Indexed(t) && fd in Fds(t.records)
    ensures 0 <= fd < |t.lookup| && !Indexed(Added(t, fd, events))
  {
    var k := SlotOf(t, fd);
    var a := Added(t, fd, events);
    assert a.records[k].fd == fd && a.lookup[fd] == |t.records| != k;
  }

  /** Deleting a present descriptor keeps the invariant, removes exactly that
      descriptor, and keeps every other record: the records afterwards are the
      records before minus the deleted one, with no gap. */
  lemma DeleteKeepsIndexed(t: Table, fd: int)
    requires Indexed(t) && fd in Fds(t.records)
    ensures Indexed(Deleted(t, fd))
    ensures Fds(Deleted(t, fd).records) == Fds(t.records) - {fd}
    ensures |Deleted(t, fd).records| == |t.records| - 1
    ensures multiset(Deleted(t, fd).records) + multiset{t.records[t.lookup[fd]]} == multiset(t.records)
  {
    var m := SlotOf(t, fd);
    if |t.records| == 1 {
      assert t.records == [t.records[m]];
      assert Fds(t.records) == {fd};
    } else {
      DeleteIndexed(t, fd, m);
      DeleteFds(t, fd, m);
      SwapRemoveMultiset(t.records, m);
    }
  }

  /** The lookup half of a deletion that leaves records behind. */
  lemma DeleteIndexed(t: Table, fd: int, m: nat)
    requires Indexed(t) && fd in Fds(t.records) && |t.records| > 1
    requires 0 <= fd < |t.lookup| && m == t.lookup[fd] && m < |t.records| && t.records[m].fd == fd
    ensures Indexed(Deleted(t, fd))
  {
    IndexedDistinct(t);
    var d := Deleted(t, fd);
    var last := |t.records| - 1;
    forall i | 0 <= i < |d.records|
      ensures 0 <= d.records[i].fd < |d.lookup| && d.lookup[d.records[i].fd] == i
    {
      if i != m {
        assert d.records[i] == t.records[i];
        assert t.records[i].fd != t.records[last].fd;
      }
    }
  }

  /** The descriptor half of a deletion that leaves records behind. */
  lemma DeleteFds(t: Table, fd: int, m: nat)
    requires Indexed(t) && fd in Fds(t.records) && |t.records| > 1
    requires 0 <= fd < |t.lookup| && m == t.lookup[fd] && m < |t.records| && t.records[m].fd == fd
    ensures Fds(Deleted(t, fd).records) == Fds(t.records) - {fd}
  {
    IndexedDistinct(t);
    var d := Deleted(t, fd).records;
    var last := |t.records| - 1;
    forall x | x in Fds(d) ensures x in Fds(t.records) - {fd} {
      var i :| 0 <= i < |d| && d[i].fd == x;
      var j := if i == m then last else i;
      assert t.records[j].fd == x;
    }
    forall x | x in Fds(t.records) - {fd} ensures x in Fds(d) {
      var i :| 0 <= i < |t.records| && t.records[i].fd == x;
      var j := if i == last then m else i;
      assert d[j].fd == x;
    }
  }

  /** Moving the last element into slot m and dropping the last position loses
      exactly the element that was at m. */
  lemma SwapRemoveMultiset(s: seq<PollFd>, m: nat)
    requires m < |s|
    ensures multiset(s[m := s[|s| - 1]][..|s| - 1]) + multiset{s[m]} == multiset(s)
  {
    var last := |s| - 1;
    if m == last {
      assert s[m := s[last]] == s;
      assert s == s[..last] + [s[m]];
    } else {
      var r := s[m := s[last]][..last];
      assert r == s[..m] + [s[last]] + s[m + 1..last];
      assert s == s[..m] + [s[m]] + s[m + 1..last] + [s[last]];
    }
  }

  /** Deleting a descriptor right after adding it restores the live records. */
  lemma DeleteUndoesAdd(t: Table, fd: int, events: bv16)
    requires Indexed(t) && 0 <= fd < |t.lookup| && fd !in Fds(t.records)
    ensures Indexed(Added(t, fd, events)) && fd in Fds(Added(t, fd, events).records)
    ensures Deleted(Added(t, fd, events), fd).records == t.records
  {
    AddKeepsIndexed(t, fd, events);
    var a := Added(t, fd, events);
    if |t.records| > 0 {
      assert a.records[|t.records| := a.records[|t.records|]] == a.records;
      assert a.records[..|t.records|] == t.records;
    }
  }

  /** Two tables whose records hold the same descriptors slot by slot and whose
      lookup arrays agree have the same descriptors and the same invariant. */
  lemma SameSlots(t: Table, u: Table)
    requires t.lookup == u.lookup && |t.records| == |u.records|
    requires forall i :: 0 <= i < |t.records| ==> u.records[i].fd == t.records[i].fd
    ensures Indexed(t) ==> Indexed(u)
    ensures Fds(u.records) == Fds(t.records)
  {
    forall x | x in Fds(u.records) ensures x in Fds(t.records) {
      var i :| 0 <= i < |u.records| && u.records[i].fd == x;
      assert t.records[i].fd == x;
    }
    forall x | x in Fds(t.records) ensures x in Fds(u.records) {
      var i :| 0 <= i < |t.records| && t.records[i].fd == x;
      assert u.records[i].fd == x;
    }
  }

  /** SET_MODE leaves the invariant, the lookup array, the descriptors and every
      record of another descriptor as they were. */
  lemma ModeSetKeepsIndexed(t: Table, fd: int, bits: bv16)
    requires Indexed(t) && fd in Fds(t.records)
    ensures Indexed(ModeSet(t, fd, bits)) && ModeSet(t, fd, bits).lookup == t.lookup
    ensures Fds(ModeSet(t, fd, bits).records) == Fds(t.records)
    ensures |ModeSet(t, fd, bits).records| == |t.records|
    ensures forall i :: 0 <= i < |t.records| && t.records[i].fd != fd ==> ModeSet(t, fd, bits).records[i] == t.records[i]
    ensures forall i :: 0 <= i < |t.records| && t.records[i].fd == fd ==>
      ModeSet(t, fd, bits).records[i] == t.records[i].(events := t.records[i].events | bits)
  {
    var k := SlotOf(t, fd);
    SameSlots(t, ModeSet(t, fd, bits));
  }

  /** SET_MODE keeps the lookup invariant. */
  lemma ModeSetIndexed(t: Table, fd: int, bits: bv16)
    requires Indexed(t) && fd in Fds(t.records)
    ensures Indexed(ModeSet(t, fd, bits))
  {
    var k := SlotOf(t, fd);
    SameSlots(t, ModeSet(t, fd, bits));
  }

  /** CLEAR_MODE keeps the lookup invariant. */
  lemma ModeClearedIndexed(t: Table, fd: int, bits: bv16)
    requires Indexed(t) && fd in Fds(t.records)
    ensures Indexed(ModeCleared(t, fd, bits))
  {
    var k := SlotOf(t, fd);
    SameSlots(t, ModeCleared(t, fd, bits));
  }

  /** CLEAR_MODE leaves the invariant, the lookup array, the descriptors and every
      record of another descriptor as they were. */
  lemma ModeClearedKeepsIndexed(t: Table, fd: int, bits: bv16)
    requires Indexed(t) && fd in Fds(t.records)
    ensures Indexed(ModeCleared(t, fd, bits)) && ModeCleared(t, fd, bits).lookup == t.lookup
    ensures Fds(ModeCleared(t, fd, bits).records) == Fds(t.records)
    ensures |ModeCleared(t, fd, bits).records| == |t.records|
    ensures forall i :: 0 <= i < |t.records| && t.records[i].fd != fd ==> ModeCleared(t, fd, bits).records[i] == t.records[i]
    ensures forall i :: 0 <= i < |t.records| && t.records[i].fd == fd ==>
      ModeCleared(t, fd, bits).records[i] == t.records[i].(events := t.records[i].events & !bits)
  {
    var k := SlotOf(t, fd);
    SameSlots(t, ModeCleared(t, fd, bits));
  }

  /** After SET_MODE the record in the slot that `fd_lookup[fd]` names has every given bit on, and
      agrees with the old record on every other bit (`x | bits == y | bits` says that `x` and `y`
      differ at most in `bits`). */
  lemma ModeSetBits(t: Table, fd: int, bits: bv16)
    requires 0 <= fd < |t.lookup| && 0 <= t.lookup[fd] < |t.records|
    ensures var k := t.lookup[fd];
      && ModeSet(t, fd, bits).records[k].events & bits == bits
      && ModeSet(t, fd, bits).records[k].events | bits == t.records[k].events | bits
  {
  }

  /** After CLEAR_MODE the record in the slot that `fd_lookup[fd]` names has every given bit off, and
      agrees with the old record on every other bit. */
  lemma ModeClearedBits(t: Table, fd: int, bits: bv16)
    requires 0 <= fd < |t.lookup| && 0 <= t.lookup[fd] < |t.records|
    ensures var k := t.lookup[fd];
      && ModeCleared(t, fd, bits).records[k].events & bits == 0
      && ModeCleared(t, fd, bits).records[k].events | bits == t.records[k].events | bits
  {
  }

  /** The registry object: `pollfds` and `fd_lookup`, both allocated with
      `max_poll_elements` entries, and the live count `count_pollfds`. */
  class Registry {
    const maxPollElements: nat
    const pollfds: array<PollFd>
    const fdLookup: array<int>
    var countPollfds: int

    /** The array sizes and the range of the live count. */
    ghost predicate Shaped()
      reads this
    {
      pollfds.Length == maxPollElements && fdLookup.Length == maxPollElements &&
      0 <= countPollfds <= maxPollElements
    }

    /** The live records and the lookup array, as values; `pollfds` up to
        `count_pollfds` is also the set handed to `poll()`. */
    function View(): Table
      reads this, pollfds, fdLookup
      requires Shaped()
    {
      Table(pollfds[..countPollfds], fdLookup[..])
    }

    ghost predicate Valid()
      reads this, pollfds, fdLookup
    {
      Shaped() && Indexed(View())
    }

    constructor (maxPollElements: nat)
      ensures Valid() && this.maxPollElements == maxPollElements
      ensures View().records == []
    {
      this.maxPollElements := maxPollElements;
      pollfds := new PollFd[maxPollElements](_ => PollFd(0, 0, 0));
      fdLookup := new int[maxPollElements](_ => 0);
      countPollfds := 0;
    }

    /** LWS_CALLBACK_ADD_POLL_FD: status 1 and nothing changed when the table is
        full; otherwise the record is appended. The invariant survives exactly
        when the descriptor was not already present (the source does not check). */
    method AddPollFd(fd: int, len: nat) returns (status: int)
      requires Valid() && 0 <= fd < maxPollElements
      modifies this, pollfds, fdLookup
      ensures Shaped()
      ensures status == (if old(countPollfds) >= maxPollElements then 1 else 0)
      ensures status == 1 ==> View() == old(View()) && countPollfds == old(countPollfds)
      ensures status == 0 ==> View() == Added(old(View()), fd, EventBits(len)) && countPollfds == old(countPollfds) + 1
      ensures Valid() <==> (status == 1 || fd !in old(Fds(View().records)))
    {
      if countPollfds >= maxPollElements {
        return 1;
      }
      ghost var t := View();
      fdLookup[fd] := countPollfds;
      pollfds[countPollfds] := PollFd(fd, EventBits(len), 0);
      countPollfds := countPollfds + 1;
      assert pollfds[..countPollfds] == t.records + [PollFd(fd, EventBits(len), 0)];
      assert View() == Added(t, fd, EventBits(len));
      if fd in Fds(t.records) {
        AddDuplicateBreaksIndexed(t, fd, EventBits(len));
      } else {
        AddKeepsIndexed(t, fd, EventBits(len));
      }
      return 0;
    }

    /** LWS_CALLBACK_DEL_POLL_FD for a descriptor that is present: the table
        shrinks by one, keeps the invariant and loses exactly that descriptor. */
    method DelPollFd(fd: int)
      requires Valid() && fd in Fds(View().records)
      modifies this, pollfds, fdLookup
      ensures Valid()
      ensures View() == Deleted(old(View()), fd)
      ensures countPollfds == old(countPollfds) - 1
      ensures Fds(View().records) == old(Fds(View().records)) - {fd}
    {
      ghost var t := View();
      ghost var k := SlotOf(t, fd);
      countPollfds := countPollfds - 1;
      if countPollfds == 0 {
        assert View() == Deleted(t, fd);
        DeleteKeepsIndexed(t, fd);
        return;
      }
      var m := fdLookup[fd];
      // fill the hole with the record from the end of the live prefix
      pollfds[m] := pollfds[countPollfds];
      fdLookup[pollfds[countPollfds].fd] := m;
      assert pollfds[..countPollfds] == t.records[m := t.records[countPollfds]][..countPollfds];
      assert View() == Deleted(t, fd);
      DeleteIndexed(t, fd, k);
      DeleteFds(t, fd, k);
    }

    /** LWS_CALLBACK_SET_MODE_POLL_FD for a descriptor that is present: the
        event argument is cut to the 16 bits of `events`. */
    method SetModePollFd(fd: int, len: nat)
      requires Valid() && fd in Fds(View().records)
      modifies pollfds
      ensures Valid()
      ensures View() == ModeSet(old(View()), fd, EventBits(len))
    {
      RaiseEvents(fd, EventBits(len));
    }

    /** OR `bits` into the events of the record of `fd`. */
    method RaiseEvents(fd: int, bits: bv16)
      requires Valid() && fd in Fds(View().records)
      modifies pollfds
      ensures Valid()
      ensures View() == ModeSet(old(View()), fd, bits)
    {
      ghost var t := View();
      ghost var k := SlotOf(t, fd);
      var m := fdLookup[fd];
      var events := pollfds[m].events | bits;
      pollfds[m] := pollfds[m].(events := events);
      assert View() == ModeSet(t, fd, bits);
      ModeSetIndexed(t, fd, bits);
    }

    /** LWS_CALLBACK_CLEAR_MODE_POLL_FD for a descriptor that is present: the
        event argument is cut to the 16 bits of `events`. */
    method ClearModePollFd(fd: int, len: nat)
      requires Valid() && fd in Fds(View().records)
      modifies pollfds
      ensures Valid()
      ensures View() == ModeCleared(old(View()), fd, EventBits(len))
    {
      LowerEvents(fd, EventBits(len));
    }

    /** clear `bits` from the events of the record of `fd`. */
    method LowerEvents(fd: int, bits: bv16)
      requires Valid() && fd in Fds(View().records)
      modifies pollfds
      ensures Valid()
      ensures View() == ModeCleared(old(View()), fd, bits)
    {
      ghost var t := View();
      ghost var k := SlotOf(t, fd);
      var m := fdLookup[fd];
      var events := pollfds[m].events & !bits;
      pollfds[m] := pollfds[m].(events := events);
      assert View() == ModeCleared(t, fd, bits);
      ModeClearedIndexed(t, fd, bits);
    }
  }
}

/** The external poll table of test-server-http.c: an array of descriptors to poll, and for every
    descriptor the place it has in that array. */
module PollTables {

  datatype Poll = Poll(fd: nat, events: int, revents: int)

  // ----- the table as a map ------------------------------------------------------------------

  /** Entry i is in m, and is where its descriptor leads. */
  ghost predicate EntryOk(polls: seq<Poll>, lookup: seq<nat>, m: map<nat, Poll>, i: nat)
    requires i < |polls|
  {
    var p := polls[i];
    p.fd < |lookup| && lookup[p.fd] == i && p.fd in m && m[p.fd] == p
  }

  /** Descriptor fd leads to its entry. */
  ghost predicate Found(polls: seq<Poll>, lookup: seq<nat>, fd: nat)
  {
    fd < |lookup| && lookup[fd] < |polls| && polls[lookup[fd]].fd == fd
  }

  /** polls lists the entries of m, each once, and lookup leads from each descriptor to its place. */
  ghost predicate Lists(polls: seq<Poll>, lookup: seq<nat>, m: map<nat, Poll>)
  {
    && |m| == |polls|
    && (forall i :: 0 <= i < |polls| ==> EntryOk(polls, lookup, m, i))
    && (forall fd | fd in m :: Found(polls, lookup, fd))
  }

  lemma PlaceOf(polls: seq<Poll>, lookup: seq<nat>, m: map<nat, Poll>, fd: nat)
    requires Lists(polls, lookup, m) && fd in m
    ensures fd < |lookup| && lookup[fd] < |polls| == |m| && polls[lookup[fd]] == m[fd] && m[fd].fd == fd
  {
    assert Found(polls, lookup, fd);
    assert EntryOk(polls, lookup, m, lookup[fd]);
  }

  lemma FdAt(polls: seq<Poll>, lookup: seq<nat>, m: map<nat, Poll>, i: nat)
    requires Lists(polls, lookup, m) && i < |polls|
    ensures polls[i].fd < |lookup| && lookup[polls[i].fd] == i && polls[i].fd in m && m[polls[i].fd] == polls[i]
  {
    assert EntryOk(polls, lookup, m, i);
  }

  /** No descriptor is listed twice. */
  lemma ListedOnce(polls: seq<Poll>, lookup: seq<nat>, m: map<nat, Poll>, i: nat, j: nat)
    requires Lists(polls, lookup, m) && i < j < |polls|
    ensures polls[i].fd != polls[j].fd
  {
    FdAt(polls, lookup, m, i);
    FdAt(polls, lookup, m, j);
  }

  lemma Appended(polls: seq<Poll>, lookup: seq<nat>, m: map<nat, Poll>, p: Poll)
    requires Lists(polls, lookup, m) && p.fd !in m && p.fd < |lookup|
    ensures Lists(polls + [p], lookup[p.fd := |polls|], m[p.fd := p])
  {
    var polls', lookup', m' := polls + [p], lookup[p.fd := |polls|], m[p.fd := p];
    forall i | 0 <= i < |polls'| ensures EntryOk(polls', lookup', m', i) {
      if i < |polls| { FdAt(polls, lookup, m, i); }
    }
    forall fd | fd in m' ensures Found(polls', lookup', fd) {
      if fd != p.fd { PlaceOf(polls, lookup, m, fd); }
    }
  }

  /** The last entry moves to the place of the one that is removed; when that is the last one itself,
      it is only cut off. */
  lemma SwapRemoved(polls: seq<Poll>, lookup: seq<nat>, m: map<nat, Poll>, fd: nat)
    requires Lists(polls, lookup, m) && fd in m
    ensures fd < |lookup| && lookup[fd] < |polls| && polls[|polls| - 1].fd < |lookup|
    ensures var last, at := |polls| - 1, lookup[fd];
            Lists(polls[at := polls[last]][..last], lookup[polls[last].fd := at], m - {fd})
  {
    hide Lists;
    PlaceOf(polls, lookup, m, fd);
    var last, at, m' := |polls| - 1, lookup[fd], m - {fd};
    FdAt(polls, lookup, m, last);
    var polls', lookup' := polls[at := polls[last]][..last], lookup[polls[last].fd := at];
    assert m'.Keys == m.Keys - {fd};
    forall i | 0 <= i < |polls'| ensures EntryOk(polls', lookup', m', i) {
      FdAt(polls, lookup, m, i);
    }
    forall x | x in m' ensures Found(polls', lookup', x) {
      PlaceOf(polls, lookup, m, x);
    }
    MakeLists(polls', lookup', m');
  }

  lemma MakeLists(polls: seq<Poll>, lookup: seq<nat>, m: map<nat, Poll>)
    requires |m.Keys| == |polls|
    requires forall i :: 0 <= i < |polls| ==> EntryOk(polls, lookup, m, i)
    requires forall fd | fd in m :: Found(polls, lookup, fd)
    ensures Lists(polls, lookup, m)
  {
  }

  /** An empty table does not depend on the places remembered for descriptors. */
  lemma NothingListed(lookup: seq<nat>, lookup': seq<nat>, m: map<nat, Poll>)
    requires Lists([], lookup, m)
    ensures Lists([], lookup', m)
  {
    assert m == map[];
  }

  lemma Rewritten(polls: seq<Poll>, lookup: seq<nat>, m: map<nat, Poll>, fd: nat, events: int)
    requires Lists(polls, lookup, m) && fd in m
    ensures fd < |lookup| && lookup[fd] < |polls| && m[fd] == polls[lookup[fd]]
    ensures var p := m[fd].(events := events);
            Lists(polls[lookup[fd] := p], lookup, m[fd := p])
  {
    hide Lists;
    PlaceOf(polls, lookup, m, fd);
    var p := m[fd].(events := events);
    var polls', m' := polls[lookup[fd] := p], m[fd := p];
    assert m'.Keys == m.Keys;
    forall i | 0 <= i < |polls'| ensures EntryOk(polls', lookup, m', i) {
      FdAt(polls, lookup, m, i);
    }
    forall x | x in m' ensures Found(polls', lookup, x) {
      PlaceOf(polls, lookup, m, x);
    }
    MakeLists(polls', lookup, m');
  }

  // ----- the code ----------------------------------------------------------------------------

  class PollTable {
    const pollfds: array<Poll>
    const fdLookup: array<nat>
    const maxPollElements: nat
    var countPollfds: nat
    ghost var table: map<nat, Poll>

    ghost predicate Valid()
      reads this, pollfds, fdLookup
    {
      && (pollfds as object) != fdLookup && pollfds.Length == fdLookup.Length == maxPollElements
      && countPollfds <= pollfds.Length
      && Lists(pollfds[..countPollfds], fdLookup[..], table)
    }

    /** The entries in use. */
    ghost function Polls(): (polls: seq<Poll>)
      requires countPollfds <= pollfds.Length
      reads this, pollfds
    {
      pollfds[..countPollfds]
    }

    /** The place that fd_lookup has for a descriptor. */
    ghost function Place(fd: nat): (at: nat)
      reads fdLookup
    {
      if fd < fdLookup.Length then fdLookup[fd] else 0
    }

    constructor (max: nat)
      ensures Valid() && table == map[] && maxPollElements == max && fresh(pollfds) && fresh(fdLookup)
    {
      pollfds := new Poll[max](_ => Poll(0, 0, 0));
      fdLookup := new nat[max](_ => 0);
      maxPollElements, countPollfds, table := max, 0, map[];
    }

    /** LWS_CALLBACK_ADD_POLL_FD: refused if and only if the table is full, whatever the descriptor. */
    method Add(fd: nat, events: int) returns (ret: int)
      requires Valid() && fd !in table && (|table| < maxPollElements ==> fd < maxPollElements)
      modifies this, pollfds, fdLookup
      ensures Valid() && ret == if |old(table)| == maxPollElements then 1 else 0
      ensures table == if ret == 0 then old(table)[fd := Poll(fd, events, 0)] else old(table)
      ensures Polls() == if ret == 0 then old(Polls()) + [Poll(fd, events, 0)] else old(Polls())
    {
      hide Lists;
      Size(pollfds[..countPollfds], fdLookup[..], table);
      if countPollfds >= maxPollElements {
        return 1;
      }
      ghost var polls, p := pollfds[..countPollfds], Poll(fd, events, 0);
      Appended(polls, fdLookup[..], table, p);
      fdLookup[fd] := countPollfds;
      pollfds[countPollfds] := Poll(fd, events, 0);
      countPollfds := countPollfds + 1;
      table := table[fd := p];
      assert pollfds[..countPollfds] == polls + [p];
      return 0;
    }

    /** LWS_CALLBACK_DEL_POLL_FD. */
    method Delete(fd: nat)
      requires Valid() && fd in table
      modifies this, pollfds, fdLookup
      ensures Valid() && table == old(table) - {fd}
      ensures var last, at := |old(Polls())| - 1, old(Place(fd));
              at <= last && Polls() == old(Polls())[at := old(Polls())[last]][..last]
    {
      hide Lists;
      ghost var polls, lookup := pollfds[..countPollfds], fdLookup[..];
      SwapRemoved(polls, lookup, table, fd);
      table := table - {fd};
      countPollfds := countPollfds - 1;
      if countPollfds == 0 {
        assert pollfds[..0] == polls[lookup[fd] := polls[0]][..0];
        NothingListed(lookup[polls[0].fd := lookup[fd]], lookup, table);
        return;
      }
      var m := fdLookup[fd];
      pollfds[m] := pollfds[countPollfds];
      fdLookup[pollfds[countPollfds].fd] := m;
      assert pollfds[..countPollfds] == polls[m := polls[countPollfds]][..countPollfds];
    }

    /** LWS_CALLBACK_CHANGE_MODE_POLL_FD. */
    method ChangeMode(fd: nat, events: int)
      requires Valid() && fd in table
      modifies this`table, pollfds
      ensures Valid() && table == old(table)[fd := old(table)[fd].(events := events)]
      ensures var at := old(Place(fd)); at < |old(Polls())| && Polls() == old(Polls())[at := table[fd]]
    {
      hide Lists;
      ghost var polls := pollfds[..countPollfds];
      Rewritten(polls, fdLookup[..], table, fd, events);
      var m := fdLookup[fd];
      pollfds[m] := pollfds[m].(events := events);
      table := table[fd := pollfds[m]];
      assert pollfds[..countPollfds] == polls[m := pollfds[m]];
    }
  }

  /** Descriptors that fit fd_lookup are never refused: a table that lacks one of them is not full. */
  lemma NeverRefused(polls: seq<Poll>, lookup: seq<nat>, m: map<nat, Poll>, fd: nat)
    requires Lists(polls, lookup, m) && fd !in m && fd < |lookup|
    ensures |m| < |lookup|
  {
    forall x | x in m.Keys ensures x in FdsBelow(|lookup|) - {fd} {
      PlaceOf(polls, lookup, m, x);
    }
    Fewer(m.Keys, FdsBelow(|lookup|) - {fd});
  }

  ghost function FdsBelow(n: nat): (fds: set<nat>)
    ensures forall x: nat :: x in fds <==> x < n
    ensures |fds| == n
  {
    if n == 0 then {} else FdsBelow(n - 1) + {n - 1}
  }

  lemma {:induction false} Fewer(s: set<nat>, t: set<nat>)
    requires s <= t
    ensures |s| <= |t|
    decreases |s|
  {
    if x :| x in s {
      Fewer(s - {x}, t - {x});
    }
  }

  lemma Size(polls: seq<Poll>, lookup: seq<nat>, m: map<nat, Poll>)
    requires Lists(polls, lookup, m)
    ensures |polls| == |m|
  {
  }
}

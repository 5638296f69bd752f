/** The SMBIOS event log iterator of lib/eventlog/elog_smbios.c. An entry is known by its offset in the log. */
module EventLog {
  import opened Basics

  const END_OF_LOG := 0xff   // SMBIOS_EVENT_TYPE_ENDLOG
  const TYPE_AT := 0         // offsetof(struct smbios_log_entry, type)
  const LENGTH_AT := 1       // offsetof(struct smbios_log_entry, length)

  /** The fields of an entry that the iterator reads lie inside the log. */
  predicate Readable(log: seq<byte>, o: int) {
    0 <= o && o + LENGTH_AT + 1 < |log|
  }

  function Length(log: seq<byte>, o: int): nat
    requires Readable(log, o)
  {
    log[o + LENGTH_AT]
  }

  function TypeOf(log: seq<byte>, o: int): nat
    requires Readable(log, o)
  {
    log[o + TYPE_AT]
  }

  /** The offset of the entry behind `current`; a negative `current` stands before the first entry. */
  function NextOffset(log: seq<byte>, dataOffset: nat, current: int): Option<nat>
    requires current >= 0 ==> Readable(log, current)
  {
    var next := if current < 0 then dataOffset else current + Length(log, current);
    if next >= |log| || !Readable(log, next) || TypeOf(log, next) == END_OF_LOG || Length(log, next) + next >= |log|
    then None
    else Some(next)
  }

  /** Entries handed out lie inside the log, each behind the one before it unless that one is empty. */
  lemma NextOffsetFacts(log: seq<byte>, dataOffset: nat, current: int)
    requires current >= 0 ==> Readable(log, current)
    ensures var n := NextOffset(log, dataOffset, current);
            n.Some? ==>
              && Readable(log, n.value) && n.value + Length(log, n.value) < |log|
              && n.value >= current
              && (n.value == current <==> current >= 0 && Length(log, current) == 0)
  {}

  class Iterator {
    const log: seq<byte>
    const headerOffset: int
    const dataOffset: nat
    var currentOffset: int

    ghost predicate Valid()
      reads this
    {
      currentOffset >= 0 ==> Readable(log, currentOffset) && currentOffset + Length(log, currentOffset) < |log|
    }

    constructor (log: seq<byte>, headerOffset: int, dataOffset: nat)
      ensures Valid() && currentOffset == -1
      ensures this.log == log && this.headerOffset == headerOffset && this.dataOffset == dataOffset
    {
      this.log, this.headerOffset, this.dataOffset := log, headerOffset, dataOffset;
      currentOffset := -1;
    }

    method Reset()
      modifies this
      ensures Valid() && currentOffset == -1
    {
      currentOffset := -1;
    }

    method GetNextEntry() returns (entry: Option<nat>)
      requires Valid()
      modifies this
      ensures Valid()
      ensures entry == NextOffset(log, dataOffset, old(currentOffset))
      ensures var next := if old(currentOffset) < 0 then dataOffset else old(currentOffset) + log[old(currentOffset) + 1];
              entry == if next + 2 < |log| && log[next] != 0xff && next + log[next + 1] < |log| then Some(next) else None
      ensures currentOffset == if entry.Some? then entry.value else old(currentOffset)
    {
      var next;
      if currentOffset < 0 {
        next := dataOffset;
      } else {
        next := currentOffset + log[currentOffset + LENGTH_AT];
      }
      if next >= |log| {
        return None;
      }
      if next + LENGTH_AT + 1 >= |log| {
        return None;
      }
      if log[next + TYPE_AT] == END_OF_LOG {
        return None;
      }
      if log[next + LENGTH_AT] + next >= |log| {
        return None;
      }
      currentOffset := next;
      return Some(next);
    }

    /** The current entry, or the first if the iterator stands before it. */
    method GetCurrentEntry() returns (entry: Option<nat>)
      requires Valid()
      modifies this
      ensures Valid()
      ensures entry == if old(currentOffset) < 0 then NextOffset(log, dataOffset, -1) else Some(old(currentOffset))
      ensures currentOffset == if entry.Some? then entry.value else old(currentOffset)
    {
      if currentOffset < 0 {
        entry := GetNextEntry();
      } else {
        entry := Some(currentOffset);
      }
    }

    /** What the verification of the header is given: it passes for the log exactly if it accepts this. */
    method GetHeader() returns (header: Option<int>)
      ensures forall verify: Option<int> -> int ::
                HeaderOk(Fetched(log, headerOffset, dataOffset), Some(verify)) <==> verify(header) >= 0
      ensures header.None? <==> headerOffset == dataOffset
      ensures header.Some? ==> header.value == headerOffset
    {
      if headerOffset == dataOffset {
        return None;
      }
      return Some(headerOffset);
    }
  }

  // ----- foreach ----------------------------------------------------------------------------

  /** What a callback gives back: its return code, `*complete`, and its argument as it leaves it. */
  datatype Reply<S> = Reply(ret: bv32, complete: bool, arg: S)

  const FAILURE: bv32 := 0xffff_ffff   // -1

  /** A call of the callback: the entry it got and what it gave back. */
  datatype Call<S> = Call(entry: nat, reply: Reply<S>)

  // The iterator does not get past an empty entry, so there the callback is called again and again.

  /** Called for the same entry over and over, the callback completes, at call `k` (from 0) at the latest. */
  ghost predicate CompletesIn<S>(cb: (S, nat) -> Reply<S>, o: nat, arg: S, k: nat) {
    cb(arg, o).complete || (k > 0 && CompletesIn(cb, o, cb(arg, o).arg, k - 1))
  }

  ghost predicate Completes<S(!new)>(cb: (S, nat) -> Reply<S>, o: nat, arg: S) {
    exists k: nat :: CompletesIn(cb, o, arg, k)
  }

  ghost predicate FirstCompletes<S(!new)>(cb: (S, nat) -> Reply<S>, o: nat, arg: S, k: nat) {
    CompletesIn(cb, o, arg, k) && forall j: nat :: j < k ==> !CompletesIn(cb, o, arg, j)
  }

  lemma {:induction false} FirstExists<S(!new)>(cb: (S, nat) -> Reply<S>, o: nat, arg: S, k: nat)
    requires CompletesIn(cb, o, arg, k)
    ensures exists i: nat :: FirstCompletes(cb, o, arg, i)
  {
    if j: nat :| j < k && CompletesIn(cb, o, arg, j) {
      FirstExists(cb, o, arg, j);
    } else {
      assert FirstCompletes(cb, o, arg, k);
    }
  }

  /** How many calls for the entry do not complete before the first that does. */
  ghost function Turns<S(!new)>(cb: (S, nat) -> Reply<S>, o: nat, arg: S): (i: nat)
    ensures Completes(cb, o, arg) ==> FirstCompletes(cb, o, arg, i)
  {
    if Completes(cb, o, arg) then
      var k: nat :| CompletesIn(cb, o, arg, k);
      FirstExists(cb, o, arg, k);
      var i: nat :| FirstCompletes(cb, o, arg, i);
      i
    else 0
  }

  lemma TurnsDown<S(!new)>(cb: (S, nat) -> Reply<S>, o: nat, arg: S)
    requires Completes(cb, o, arg) && !cb(arg, o).complete
    ensures Completes(cb, o, cb(arg, o).arg) && Turns(cb, o, cb(arg, o).arg) < Turns(cb, o, arg)
  {
    var k := Turns(cb, o, arg);
    assert CompletesIn(cb, o, cb(arg, o).arg, k - 1);
  }

  /** The walk after `current` comes to an end: the log or the callback ends it; and if it comes to an empty
      entry, the callback completes on that sooner or later. */
  ghost predicate Stops<S(!new)>(log: seq<byte>, dataOffset: nat, cb: (S, nat) -> Reply<S>, current: int, arg: S)
    requires current >= 0 ==> Readable(log, current)
    decreases |log| - current
  {
    var next := NextOffset(log, dataOffset, current);
    || next.None?
    || if Length(log, next.value) == 0 then Completes(cb, next.value, arg)
       else var r := cb(arg, next.value); r.complete || Stops(log, dataOffset, cb, next.value, r.arg)
  }

  /** What goes down while the iterator stays where it is. */
  ghost function TurnsLeft<S(!new)>(log: seq<byte>, dataOffset: nat, cb: (S, nat) -> Reply<S>, current: int, arg: S): nat
    requires current >= 0 ==> Readable(log, current)
  {
    var next := NextOffset(log, dataOffset, current);
    if next.Some? && Length(log, next.value) == 0 then Turns(cb, next.value, arg) else 0
  }

  /** The walk goes on behind a call that does not complete. */
  lemma GoesOn<S(!new)>(log: seq<byte>, dataOffset: nat, cb: (S, nat) -> Reply<S>, current: int, arg: S)
    requires current >= 0 ==> Readable(log, current)
    requires Stops(log, dataOffset, cb, current, arg)
    ensures var next := NextOffset(log, dataOffset, current);
            next.Some? && !cb(arg, next.value).complete ==>
              var o, arg' := next.value, cb(arg, next.value).arg;
              && Stops(log, dataOffset, cb, o, arg')
              && (current < o
                  || (current == o && TurnsLeft(log, dataOffset, cb, o, arg') < TurnsLeft(log, dataOffset, cb, current, arg)))
  {
    var next := NextOffset(log, dataOffset, current);
    if next.Some? && Length(log, next.value) == 0 && !cb(arg, next.value).complete {
      assert NextOffset(log, dataOffset, next.value) == next;
      TurnsDown(cb, next.value, arg);
    }
  }

  /** The calls after `current`: one for each entry, up to the first that completes. */
  ghost function Calls<S(!new)>(log: seq<byte>, dataOffset: nat, cb: (S, nat) -> Reply<S>, current: int, arg: S): seq<Call<S>>
    requires current >= 0 ==> Readable(log, current)
    requires Stops(log, dataOffset, cb, current, arg)
    decreases |log| - current, TurnsLeft(log, dataOffset, cb, current, arg)
  {
    GoesOn(log, dataOffset, cb, current, arg);
    var next := NextOffset(log, dataOffset, current);
    if next.None? then []
    else
      var r := cb(arg, next.value);
      [Call(next.value, r)] + if r.complete then [] else Calls(log, dataOffset, cb, next.value, r.arg)
  }

  /** Where the loop of foreach is after `n` rounds, and its argument; None if it has ended by then. */
  ghost function After<S(!new)>(log: seq<byte>, dataOffset: nat, cb: (S, nat) -> Reply<S>, current: int, arg: S, n: nat): Option<(int, S)>
    requires current >= 0 ==> Readable(log, current)
    decreases n
  {
    if n == 0 then Some((current, arg)) else
    var next := NextOffset(log, dataOffset, current);
    if next.None? || cb(arg, next.value).complete then None
    else After(log, dataOffset, cb, next.value, cb(arg, next.value).arg, n - 1)
  }

  /** The loop ends, after some number of rounds, exactly if the walk stops in the sense above. */
  lemma EndsIffStops<S(!new)>(log: seq<byte>, dataOffset: nat, cb: (S, nat) -> Reply<S>, arg: S)
    ensures (exists n: nat :: After(log, dataOffset, cb, -1, arg, n).None?) <==> Stops(log, dataOffset, cb, -1, arg)
  {
    if n: nat :| After(log, dataOffset, cb, -1, arg, n).None? {
      EndedMeansStops(log, dataOffset, cb, -1, arg, n);
    } else if Stops(log, dataOffset, cb, -1, arg) {
      var n := Ends(log, dataOffset, cb, -1, arg);
    }
  }

  lemma {:induction false} EndedMeansStops<S(!new)>(log: seq<byte>, dataOffset: nat, cb: (S, nat) -> Reply<S>, current: int, arg: S, n: nat)
    requires current >= 0 ==> Readable(log, current)
    requires After(log, dataOffset, cb, current, arg, n).None?
    ensures Stops(log, dataOffset, cb, current, arg)
    decreases n
  {
    var next := NextOffset(log, dataOffset, current);
    if next.Some? {
      var o, r := next.value, cb(arg, next.value);
      if r.complete {
        assert CompletesIn(cb, o, arg, 0);
      } else {
        EndedMeansStops(log, dataOffset, cb, o, r.arg, n - 1);
        if Length(log, o) == 0 {
          assert NextOffset(log, dataOffset, o) == next;
          var k: nat :| CompletesIn(cb, o, r.arg, k);
          assert CompletesIn(cb, o, arg, k + 1);
        }
      }
    }
  }

  lemma {:induction false} Ends<S(!new)>(log: seq<byte>, dataOffset: nat, cb: (S, nat) -> Reply<S>, current: int, arg: S) returns (n: nat)
    requires current >= 0 ==> Readable(log, current)
    requires Stops(log, dataOffset, cb, current, arg)
    ensures After(log, dataOffset, cb, current, arg, n).None?
    decreases |log| - current, TurnsLeft(log, dataOffset, cb, current, arg)
  {
    GoesOn(log, dataOffset, cb, current, arg);
    var next := NextOffset(log, dataOffset, current);
    n := 0;
    if next.Some? && !cb(arg, next.value).complete {
      n := Ends(log, dataOffset, cb, next.value, cb(arg, next.value).arg);
    }
    n := n + 1;
  }

  /** A callback that completes on every empty entry; with it every walk stops. */
  ghost predicate StopsAtEmpty<S(!new)>(log: seq<byte>, cb: (S, nat) -> Reply<S>) {
    forall arg, o: nat :: Readable(log, o) && Length(log, o) == 0 ==> cb(arg, o).complete
  }

  lemma {:induction false} AlwaysStops<S(!new)>(log: seq<byte>, dataOffset: nat, cb: (S, nat) -> Reply<S>, current: int, arg: S)
    requires current >= 0 ==> Readable(log, current)
    requires StopsAtEmpty(log, cb)
    ensures Stops(log, dataOffset, cb, current, arg)
    decreases |log| - current
  {
    var next := NextOffset(log, dataOffset, current);
    if next.Some? {
      if Length(log, next.value) == 0 {
        assert CompletesIn(cb, next.value, arg, 0);
      } else {
        AlwaysStops(log, dataOffset, cb, next.value, cb(arg, next.value).arg);
      }
    }
  }

  // ----- Without a callback -----------------------------------------------------------------

  /** The offset the iterator is at after `n` calls of get_next_entry, or None if one of them gave NULL. */
  function Nth(log: seq<byte>, dataOffset: nat, n: nat): (r: Option<int>)
    ensures r.Some? && r.value >= 0 ==> Readable(log, r.value)
    ensures r.Some? && n > 0 ==> r.value >= 0
  {
    if n == 0 then Some(-1) else
    var before := Nth(log, dataOffset, n - 1);
    if before.None? then None else
    var next := NextOffset(log, dataOffset, before.value);
    if next.None? then None else Some(next.value as int)
  }

  /** After `n` calls the iterator is at an empty entry. */
  predicate EmptyAt(log: seq<byte>, dataOffset: nat, n: nat) {
    var r := Nth(log, dataOffset, n);
    r.Some? && r.value >= 0 && Length(log, r.value) == 0
  }

  /** get_next_entry never gives NULL, however often it is called, exactly if it comes to an empty entry. */
  lemma NeverEndsIffEmpty(log: seq<byte>, dataOffset: nat)
    ensures (forall n: nat :: Nth(log, dataOffset, n).Some?) <==> exists n: nat :: EmptyAt(log, dataOffset, n)
  {
    if n: nat :| EmptyAt(log, dataOffset, n) {
      forall m: nat ensures Nth(log, dataOffset, m).Some? {
        if m <= n {
          SomeBefore(log, dataOffset, m, n);
        } else {
          EmptyStays(log, dataOffset, n, m);
        }
      }
    } else {
      var m := |log| + 1;
      assert Nth(log, dataOffset, m).None? by {
        if Nth(log, dataOffset, m).Some? {
          Increases(log, dataOffset, m);
        }
      }
    }
  }

  /** And that does happen: from a log of one empty entry there is no way out, neither for get_next_entry nor for
      foreach with a callback that does not complete. */
  lemma RunsForEver<S(!new)>(cb: (S, nat) -> Reply<S>, arg: S) returns (log: seq<byte>)
    requires forall a, o: nat :: !cb(a, o).complete
    ensures forall n: nat :: Nth(log, 0, n).Some?
    ensures !Stops(log, 0, cb, -1, arg) && forall n: nat :: After(log, 0, cb, -1, arg, n).Some?
  {
    log := [1, 0, 0];   // type, length, and a byte behind it
    assert Nth(log, 0, 0) == Some(-1) && Nth(log, 0, 1) == Some(0);
    assert EmptyAt(log, 0, 1);
    NeverEndsIffEmpty(log, 0);
    forall k: nat ensures !CompletesIn(cb, 0, arg, k) {
      NeverCompletes(cb, 0, arg, k);
    }
    EndsIffStops(log, 0, cb, arg);
  }

  lemma {:induction false} NeverCompletes<S(!new)>(cb: (S, nat) -> Reply<S>, o: nat, arg: S, k: nat)
    requires forall a :: !cb(a, o).complete
    ensures !CompletesIn(cb, o, arg, k)
  {
    if k > 0 {
      NeverCompletes(cb, o, cb(arg, o).arg, k - 1);
    }
  }

  lemma {:induction false} SomeBefore(log: seq<byte>, dataOffset: nat, m: nat, n: nat)
    requires m <= n && Nth(log, dataOffset, n).Some?
    ensures Nth(log, dataOffset, m).Some?
  {
    if m < n {
      SomeBefore(log, dataOffset, m, n - 1);
    }
  }

  /** An empty entry is handed out again and again. */
  lemma {:induction false} EmptyStays(log: seq<byte>, dataOffset: nat, n: nat, m: nat)
    requires n <= m && EmptyAt(log, dataOffset, n)
    ensures Nth(log, dataOffset, m) == Nth(log, dataOffset, n)
  {
    if n < m {
      EmptyStays(log, dataOffset, n, m - 1);
      HandedOut(log, dataOffset, n);
    }
  }

  /** What was handed out once would be found again at the same place. */
  lemma HandedOut(log: seq<byte>, dataOffset: nat, n: nat)
    requires Nth(log, dataOffset, n).Some? && n > 0
    ensures var o := Nth(log, dataOffset, n).value; TypeOf(log, o) != END_OF_LOG && o + Length(log, o) < |log|
  {}

  lemma {:induction false} Increases(log: seq<byte>, dataOffset: nat, n: nat)
    requires Nth(log, dataOffset, n).Some? && forall k: nat :: k < n ==> !EmptyAt(log, dataOffset, k)
    ensures Nth(log, dataOffset, n).value >= n - 1
  {
    if n > 0 {
      Increases(log, dataOffset, n - 1);
      assert !EmptyAt(log, dataOffset, n - 1);
    }
  }

  // ----- The calls --------------------------------------------------------------------------

  function OrAll<S>(cs: seq<Call<S>>): bv32 {
    if cs == [] then 0 else Or(cs[0].reply.ret, OrAll(cs[1..]))
  }

  /** `|` on int */
  function Or(a: bv32, b: bv32): bv32 {
    a | b
  }

  /** The argument after all the calls. */
  function LastArg<S>(cs: seq<Call<S>>, arg: S): S {
    if cs == [] then arg else cs[|cs| - 1].reply.arg
  }

  lemma OrLaws(a: bv32, b: bv32, c: bv32)
    ensures Or(Or(a, b), c) == Or(a, Or(b, c)) && Or(a, 0) == Or(0, a) == a
  {}

  lemma {:induction false} OrAllSnoc<S>(cs: seq<Call<S>>, c: Call<S>)
    ensures OrAll(cs + [c]) == Or(OrAll(cs), c.reply.ret)
  {
    hide Or;
    if cs == [] {
      assert [] + [c] == [c] && [c][1..] == [];
      OrLaws(c.reply.ret, 0, 0);
    } else {
      assert (cs + [c])[0] == cs[0] && (cs + [c])[1..] == cs[1..] + [c];
      OrAllSnoc(cs[1..], c);
      OrLaws(cs[0].reply.ret, OrAll(cs[1..]), c.reply.ret);
    }
  }

  function And(a: bv32, b: bv32): bv32 {
    a & b
  }

  predicate Has(a: bv32, bits: bv32) {
    And(a, bits) != 0
  }

  lemma Distributes(a: bv32, b: bv32, m: bv32)
    ensures And(Or(a, b), m) == Or(And(a, m), And(b, m))
  {}

  lemma ZeroOr(x: bv32, y: bv32)
    ensures Or(x, y) == 0 <==> x == 0 && y == 0
  {}

  lemma OrHas(a: bv32, b: bv32, bits: bv32)
    ensures Has(Or(a, b), bits) <==> Has(a, bits) || Has(b, bits)
  {
    hide Or, And;
    Distributes(a, b, bits);
    ZeroOr(And(a, bits), And(b, bits));
  }

  lemma ZeroHasNone(bits: bv32)
    ensures !Has(0, bits)
  {}

  /** Bit by bit: the result has one exactly if the result of some call has it. */
  lemma {:induction false} OrAllHas<S>(cs: seq<Call<S>>, bits: bv32)
    ensures Has(OrAll(cs), bits) <==> exists k :: 0 <= k < |cs| && Has(cs[k].reply.ret, bits)
  {
    hide Or, Has;
    if cs == [] {
      ZeroHasNone(bits);
    } else {
      OrHas(cs[0].reply.ret, OrAll(cs[1..]), bits);
      OrAllHas(cs[1..], bits);
      hide OrAll;
      if k :| 0 <= k < |cs| && Has(cs[k].reply.ret, bits) {
        assert k > 0 ==> cs[1..][k - 1] == cs[k];
      }
      if k :| 0 <= k < |cs[1..]| && Has(cs[1..][k].reply.ret, bits) {
        assert cs[k + 1] == cs[1..][k];
      }
    }
  }

  /** Call `i` gets the entry behind the one of the call before it, inside the log, and the argument that
      call left; only the last call may complete; and if it does not, there is no further entry. */
  ghost predicate GoodCall<S(!new)>(log: seq<byte>, dataOffset: nat, cb: (S, nat) -> Reply<S>, current: int, arg: S, cs: seq<Call<S>>, i: nat)
    requires current >= 0 ==> Readable(log, current)
    requires i < |cs| && forall k :: 0 <= k < |cs| ==> Readable(log, cs[k].entry)
  {
    var before := if i == 0 then current else cs[i - 1].entry;
    && NextOffset(log, dataOffset, before) == Some(cs[i].entry)
    && before <= cs[i].entry && (before == cs[i].entry <==> before >= 0 && Length(log, before) == 0)
    && cs[i].entry + Length(log, cs[i].entry) < |log|
    && cs[i].reply == cb(if i == 0 then arg else cs[i - 1].reply.arg, cs[i].entry)
    && if i < |cs| - 1 then !cs[i].reply.complete
       else cs[i].reply.complete || NextOffset(log, dataOffset, cs[i].entry).None?
  }

  ghost predicate OneByOne<S(!new)>(log: seq<byte>, dataOffset: nat, cb: (S, nat) -> Reply<S>, current: int, arg: S, cs: seq<Call<S>>)
    requires current >= 0 ==> Readable(log, current)
  {
    && (forall k :: 0 <= k < |cs| ==> Readable(log, cs[k].entry))
    && (forall i :: 0 <= i < |cs| ==> GoodCall(log, dataOffset, cb, current, arg, cs, i))
    && (cs == [] ==> NextOffset(log, dataOffset, current).None?)
  }

  lemma {:induction false} CallsOneByOne<S(!new)>(log: seq<byte>, dataOffset: nat, cb: (S, nat) -> Reply<S>, current: int, arg: S)
    requires current >= 0 ==> Readable(log, current)
    requires Stops(log, dataOffset, cb, current, arg)
    ensures OneByOne(log, dataOffset, cb, current, arg, Calls(log, dataOffset, cb, current, arg))
    decreases |log| - current, TurnsLeft(log, dataOffset, cb, current, arg)
  {
    GoesOn(log, dataOffset, cb, current, arg);
    var next := NextOffset(log, dataOffset, current);
    if next.Some? && !cb(arg, next.value).complete {
      var c := Call(next.value, cb(arg, next.value));
      var rest := Calls(log, dataOffset, cb, c.entry, c.reply.arg);
      CallsOneByOne(log, dataOffset, cb, c.entry, c.reply.arg);
      OneMore(log, dataOffset, cb, current, arg, c, rest);
    }
  }

  lemma OneMore<S(!new)>(log: seq<byte>, dataOffset: nat, cb: (S, nat) -> Reply<S>, current: int, arg: S, c: Call<S>, rest: seq<Call<S>>)
    requires current >= 0 ==> Readable(log, current)
    requires NextOffset(log, dataOffset, current) == Some(c.entry) && c.reply == cb(arg, c.entry)
    requires !c.reply.complete && Readable(log, c.entry)
    requires OneByOne(log, dataOffset, cb, c.entry, c.reply.arg, rest)
    ensures OneByOne(log, dataOffset, cb, current, arg, [c] + rest)
  {
    hide NextOffset;
    NextOffsetFacts(log, dataOffset, current);
    var cs := [c] + rest;
    forall k | 0 <= k < |cs| ensures Readable(log, cs[k].entry) {
      if k > 0 {
        assert cs[k] == rest[k - 1];
      }
    }
    forall i | 0 <= i < |cs| ensures GoodCall(log, dataOffset, cb, current, arg, cs, i) {
      if i > 0 {
        assert GoodCall(log, dataOffset, cb, c.entry, c.reply.arg, rest, i - 1);
        assert cs[i] == rest[i - 1] && (i > 1 ==> cs[i - 1] == rest[i - 2]);
      }
    }
  }

  /** The event log as the platform hands it out. */
  datatype Fetched = Fetched(data: seq<byte>, headerOffset: int, dataOffset: nat)

  /** The OR of the results of the callback over the entries, up to and including the first call that
      completes. An unreadable log or a header that does not verify gives -1 and no call. */
  method ForeachEvent<S(!new)>(fetch: Option<Fetched>, verify: Option<Option<int> -> int>, cb: (S, nat) -> Reply<S>, arg: S)
    returns (ret: bv32, arg': S)
    requires fetch.Some? && HeaderOk(fetch.value, verify) ==> Stops(fetch.value.data, fetch.value.dataOffset, cb, -1, arg)
    ensures var f := if fetch.Some? then fetch.value else Fetched([], 0, 0);
            var header := if f.headerOffset == f.dataOffset then None else Some(f.headerOffset);
            if fetch.None? || (verify.Some? && verify.value(header) < 0) then ret == 0xffff_ffff && arg' == arg
            else var cs := Calls(f.data, f.dataOffset, cb, -1, arg);
                 ret == OrAll(cs) && arg' == LastArg(cs, arg)
  {
    if fetch.None? {
      return FAILURE, arg;
    }
    var it := new Iterator(fetch.value.data, fetch.value.headerOffset, fetch.value.dataOffset);
    if verify.Some? {
      var header := it.GetHeader();
      assert HeaderOk(fetch.value, verify) <==> verify.value(header) >= 0;
      if verify.value(header) < 0 {
        return FAILURE, arg;
      }
    }
    ret, arg' := CycleThrough(it, cb, arg);
  }

  /** The calls after `current` begin with the one for the next entry. */
  lemma CallsStep<S(!new)>(log: seq<byte>, dataOffset: nat, cb: (S, nat) -> Reply<S>, current: int, arg: S)
    requires current >= 0 ==> Readable(log, current)
    requires Stops(log, dataOffset, cb, current, arg)
    ensures var next, cs := NextOffset(log, dataOffset, current), Calls(log, dataOffset, cb, current, arg);
            if next.None? then cs == []
            else && current <= next.value && Readable(log, next.value)
                 && var r := cb(arg, next.value);
                    if r.complete then cs == [Call(next.value, r)]
                    else && Stops(log, dataOffset, cb, next.value, r.arg)
                         && (current == next.value ==>
                               TurnsLeft(log, dataOffset, cb, next.value, r.arg) < TurnsLeft(log, dataOffset, cb, current, arg))
                         && cs == [Call(next.value, r)] + Calls(log, dataOffset, cb, next.value, r.arg)
  {
    hide NextOffset, Stops, TurnsLeft;
    GoesOn(log, dataOffset, cb, current, arg);
    NextOffsetFacts(log, dataOffset, current);
  }

  lemma Regroup<T>(done: seq<T>, c: T, rest: seq<T>)
    ensures done + ([c] + rest) == (done + [c]) + rest
  {}

  /** The loop of smbios_eventlog_foreach_event. */
  method CycleThrough<S(!new)>(it: Iterator, cb: (S, nat) -> Reply<S>, arg: S) returns (ret: bv32, arg': S)
    requires it.currentOffset == -1 && Stops(it.log, it.dataOffset, cb, -1, arg)
    modifies it
    ensures ret == OrAll(Calls(it.log, it.dataOffset, cb, -1, arg))
    ensures arg' == LastArg(Calls(it.log, it.dataOffset, cb, -1, arg), arg)
  {
    hide NextOffset, Stops, TurnsLeft, Calls, OrAll, Or;
    var log, d := it.log, it.dataOffset;
    ret, arg' := 0, arg;
    ghost var all := Calls(log, d, cb, -1, arg);
    ghost var done: seq<Call<S>> := [];
    OrAllNone(done);
    while true
      invariant it.Valid()
      invariant Stops(log, d, cb, it.currentOffset, arg')
      invariant all == done + Calls(log, d, cb, it.currentOffset, arg')
      invariant ret == OrAll(done) && arg' == LastArg(done, arg)
      decreases |log| - it.currentOffset, TurnsLeft(log, d, cb, it.currentOffset, arg')
    {
      CallsStep(log, d, cb, it.currentOffset, arg');
      var entry := it.GetNextEntry();
      if entry.None? {
        assert all == done;
        break;
      }
      var r := cb(arg', entry.value);
      ghost var c := Call(entry.value, r);
      OrAllSnoc(done, c);
      ret := Or(ret, r.ret);
      arg' := r.arg;
      if r.complete {
        done := done + [c];
        break;
      }
      Regroup(done, c, Calls(log, d, cb, entry.value, r.arg));
      done := done + [c];
    }
  }

  lemma OrAllNone<S>(cs: seq<Call<S>>)
    requires cs == []
    ensures OrAll(cs) == 0
  {}

  /** The optional verification of the header passes. */
  predicate HeaderOk(f: Fetched, verify: Option<Option<int> -> int>) {
    verify.Some? ==> verify.value(if f.headerOffset == f.dataOffset then None else Some(f.headerOffset)) >= 0
  }

  // ----- Round trip -------------------------------------------------------------------------

  /** An entry as the format has it: its second byte is its length, which covers both. */
  predicate WellFormed(e: seq<byte>) {
    |e| >= 2 && e[1] == |e| && e[0] != 0xff
  }

  function Concat(es: seq<seq<byte>>): seq<byte> {
    if es == [] then [] else es[0] + Concat(es[1..])
  }

  /** The entries the iterator hands out after `current`, up to an empty one. */
  function Entries(log: seq<byte>, dataOffset: nat, current: int): seq<seq<byte>>
    requires current >= 0 ==> Readable(log, current) && Length(log, current) > 0
    decreases |log| - current
  {
    var next := NextOffset(log, dataOffset, current);
    if next.None? then []
    else
      var o := next.value;
      [log[o..o + Length(log, o)]] + if Length(log, o) == 0 then [] else Entries(log, dataOffset, o)
  }

  /** The entries that have a byte behind them: all, or all but the last. */
  function Followed(es: seq<seq<byte>>, closed: bool): seq<seq<byte>> {
    if closed || es == [] then es else es[..|es| - 1]
  }

  /** From an offset where the bytes of `es` start, followed by 0xff or by nothing. */
  lemma {:induction false} EntriesAt(log: seq<byte>, dataOffset: nat, current: int, at: nat, es: seq<seq<byte>>)
    requires current >= 0 ==> Readable(log, current) && Length(log, current) > 0
    requires at == if current < 0 then dataOffset else current + Length(log, current)
    requires forall i :: 0 <= i < |es| ==> WellFormed(es[i])
    requires at + |Concat(es)| <= |log| && log[at..at + |Concat(es)|] == Concat(es)
    requires at + |Concat(es)| < |log| ==> log[at + |Concat(es)|] == END_OF_LOG
    ensures Entries(log, dataOffset, current) == Followed(es, at + |Concat(es)| < |log|)
    decreases |es|
  {
    hide Followed, Entries, NextOffset, WellFormed;
    EntriesStep(log, dataOffset, current);
    FollowedStep(es, at + |Concat(es)| < |log|);
    if es == [] {
      NothingIsAt(log, dataOffset, current, at);
    } else {
      var e, rest := es[0], Concat(es[1..]);
      assert Concat(es) == e + rest;
      AllWellFormed(es);
      hide Concat;
      NextIsAt(log, dataOffset, current, at, e, rest);
      if at + |e| < |log| {
        EntriesAt(log, dataOffset, at, at + |e|, es[1..]);
      } else {
        LastEntry(es);
      }
    }
  }

  lemma AllWellFormed(es: seq<seq<byte>>)
    requires es != [] && forall i :: 0 <= i < |es| ==> WellFormed(es[i])
    ensures WellFormed(es[0]) && |es[0]| >= 2 && forall i :: 0 <= i < |es[1..]| ==> WellFormed(es[1..][i])
  {}

  lemma FollowedStep(es: seq<seq<byte>>, closed: bool)
    ensures Followed(es, closed) ==
            if es == [] || (|es| == 1 && !closed) then [] else [es[0]] + Followed(es[1..], closed)
  {}

  lemma EntriesStep(log: seq<byte>, dataOffset: nat, current: int)
    requires current >= 0 ==> Readable(log, current) && Length(log, current) > 0
    ensures var next, es := NextOffset(log, dataOffset, current), Entries(log, dataOffset, current);
            if next.None? then es == []
            else es == [log[next.value..next.value + Length(log, next.value)]]
                       + if Length(log, next.value) == 0 then [] else Entries(log, dataOffset, next.value)
  {}

  lemma NothingIsAt(log: seq<byte>, dataOffset: nat, current: int, at: nat)
    requires current >= 0 ==> Readable(log, current)
    requires at == if current < 0 then dataOffset else current + Length(log, current)
    requires at < |log| ==> log[at] == END_OF_LOG
    ensures NextOffset(log, dataOffset, current).None?
  {}

  lemma LastEntry(es: seq<seq<byte>>)
    requires es != [] && (forall i :: 0 <= i < |es| ==> WellFormed(es[i])) && Concat(es[1..]) == []
    ensures |es| == 1
  {}

  /** A well-formed entry is handed out, with all its bytes, exactly if there is something behind it. */
  lemma NextIsAt(log: seq<byte>, dataOffset: nat, current: int, at: nat, e: seq<byte>, rest: seq<byte>)
    requires current >= 0 ==> Readable(log, current) && Length(log, current) > 0
    requires at == if current < 0 then dataOffset else current + Length(log, current)
    requires WellFormed(e) && at + |e| + |rest| <= |log| && log[at..at + |e| + |rest|] == e + rest
    ensures log[at..at + |e|] == e && log[at + |e|..at + |e| + |rest|] == rest
    ensures NextOffset(log, dataOffset, current) == if at + |e| < |log| then Some(at) else None
    ensures at + |e| < |log| ==> Readable(log, at) && Length(log, at) == |e|
  {
    var here := log[at..at + |e| + |rest|];
    assert log[at] == here[0] && log[at + 1] == here[1];
    assert log[at..at + |e|] == here[..|e|] == e;
    assert log[at + |e|..at + |e| + |rest|] == here[|e|..] == rest;
  }

  /** A log of well-formed entries is read back as exactly these entries if at least one 0xff byte closes it;
      else the last one is missing. */
  lemma ReadsBack(header: seq<byte>, es: seq<seq<byte>>, closing: seq<byte>)
    requires forall i :: 0 <= i < |es| ==> WellFormed(es[i])
    requires closing != [] ==> closing[0] == 0xff
    ensures Entries(header + Concat(es) + closing, |header|, -1) == if closing != [] || es == [] then es else es[..|es| - 1]
  {
    var log := header + Concat(es) + closing;
    assert log[|header|..|header| + |Concat(es)|] == Concat(es);
    EntriesAt(log, |header|, -1, |header|, es);
  }

  /** The round trip holds exactly if a closing byte is there, or nothing to close. */
  lemma RoundTrip(header: seq<byte>, es: seq<seq<byte>>, closing: seq<byte>)
    requires forall i :: 0 <= i < |es| ==> WellFormed(es[i])
    requires closing != [] ==> closing[0] == 0xff
    ensures Entries(header + Concat(es) + closing, |header|, -1) == es <==> closing != [] || es == []
  {
    ReadsBack(header, es, closing);
  }
}

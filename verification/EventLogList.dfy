/** `eventlog list` of core/command/eventlog.c: the callback that closes the termination argument of the
    iterator, and the numbering of the records. */
module EventLogList {
  import opened Basics
  import opened EventLog

  const OEM := 0x80   // SMBIOS_EVENT_TYPE_OEM

  /** The platform's handlers, as arbitrary functions of the entry. `printMulti` gets the number of the next
      record and returns how many records it has printed; `output` stands for the printing of one record. */
  datatype Handlers = Handlers(verify: Option<nat -> bool>, printMulti: Option<(nat, int) -> int>, output: (nat, int) -> bv32)

  /** What was printed for an entry: `count` records, the first with this number. */
  datatype Printed = Printed(entry: nat, number: int, count: nat)

  /** `entryCount` is the callback's argument; `printed` is the output so far. */
  datatype Listing = Listing(entryCount: int, printed: seq<Printed>)

  function ListReply(log: seq<byte>, h: Handlers, l: Listing, o: nat): Reply<Listing>
    requires Readable(log, o)
  {
    if Length(log, o) == 0 then Reply(FAILURE, true, l)
    else if TypeOf(log, o) >= OEM && h.verify.Some? && !h.verify.value(o) then Reply(0, false, l)
    else
      var multi := if h.printMulti.Some? then h.printMulti.value(o, l.entryCount) else 0;
      if multi > 0 then Reply(0, false, Add(l, o, multi))
      else Reply(h.output(o, l.entryCount), false, Add(l, o, 1))
  }

  function Add(l: Listing, o: nat, count: nat): Listing {
    Listing(l.entryCount + count, l.printed + [Printed(o, l.entryCount, count)])
  }

  /** eventlog_smbios_list_callback */
  class ListArg {
    var entryCount: int
    ghost var printed: seq<Printed>

    constructor ()
      ensures entryCount == 0 && printed == []
    {
      entryCount, printed := 0, [];
    }

    method Callback(log: seq<byte>, h: Handlers, o: nat) returns (ret: bv32, complete: bool)
      requires Readable(log, o)
      modifies this
      ensures Reply(ret, complete, Listing(entryCount, printed)) ==
              ListReply(log, h, Listing(old(entryCount), old(printed)), o)
    {
      complete := false;
      if log[o + LENGTH_AT] == 0 {
        return FAILURE, true;
      }
      if log[o + TYPE_AT] >= OEM && h.verify.Some? && !h.verify.value(o) {
        return 0, false;
      }
      if h.printMulti.Some? {
        var count := h.printMulti.value(o, entryCount);
        if count > 0 {
          printed := printed + [Printed(o, entryCount, count)];
          entryCount := entryCount + count;
          return 0, false;
        }
      }
      ret := h.output(o, entryCount);
      printed := printed + [Printed(o, entryCount, 1)];
      entryCount := entryCount + 1;
    }
  }

  /** The callback as foreach calls it; it is never given an offset it cannot read. */
  ghost function Cb(log: seq<byte>, h: Handlers): (Listing, nat) -> Reply<Listing> {
    (l, o) => if Readable(log, o) then ListReply(log, h, l, o) else Reply(0, true, l)
  }

  /** Every walk with this callback stops, for it completes on empty entries. */
  lemma CbStops(log: seq<byte>, d: nat, h: Handlers, current: int, l: Listing)
    requires current >= 0 ==> Readable(log, current)
    ensures Stops(log, d, Cb(log, h), current, l)
  {
    assert StopsAtEmpty(log, Cb(log, h));
    AlwaysStops(log, d, Cb(log, h), current, l);
  }

  const NOTHING := Listing(0, [])

  /** eventlog_smbios_list_cmd: it terminates on every log, whatever the bytes. For an entry the records are
      printed that its handler prints, or else one; so without such handlers they have the numbers 0, 1, 2, ...
      The result is the OR of the results of the single records, and of -1 for an empty entry. */
  method ListCmd(fetch: Option<Fetched>, verify: Option<Option<int> -> int>, h: Handlers) returns (ret: bv32, l: Listing)
    ensures fetch.Some? ==> Stops(fetch.value.data, fetch.value.dataOffset, Cb(fetch.value.data, h), -1, NOTHING)
    ensures if fetch.None? || !HeaderOk(fetch.value, verify) then ret == 0xffff_ffff && l == NOTHING
            else
              var log, d := fetch.value.data, fetch.value.dataOffset;
              var cs := Calls(log, d, Cb(log, h), -1, NOTHING);
              && ret == OrAll(cs) && l == LastArg(cs, NOTHING) && Numbered(l)
              && ret == Results(h, l.printed) | (if MeetsEmpty(log, d, -1) then 0xffff_ffff else 0)
    ensures forall p :: p in l.printed ==>
              p.count == if h.printMulti.Some? && h.printMulti.value(p.entry, p.number) > 0
                         then h.printMulti.value(p.entry, p.number) else 1
    ensures h.printMulti.None? ==>
              l.entryCount == |l.printed| && forall i :: 0 <= i < |l.printed| ==> l.printed[i].number == i
  {
    var log := if fetch.Some? then fetch.value.data else [];
    var cb := (l: Listing, o: nat) => if Readable(log, o) then ListReply(log, h, l, o) else Reply(0, true, l);
    assert forall l, o: nat :: cb(l, o) == Cb(log, h)(l, o);
    if fetch.Some? {
      CbStops(log, fetch.value.dataOffset, h, -1, NOTHING);
      AlwaysStops(log, fetch.value.dataOffset, cb, -1, NOTHING);
    }
    ret, l := ForeachEvent(fetch, verify, cb, NOTHING);
    if fetch.Some? {
      ghost var d := fetch.value.dataOffset;
      SameCalls(log, d, cb, Cb(log, h), -1, NOTHING);
      ListIsAsSaid(log, d, h);
    }
  }

  lemma ListIsAsSaid(log: seq<byte>, d: nat, h: Handlers)
    requires Stops(log, d, Cb(log, h), -1, NOTHING)
    ensures var cs := Calls(log, d, Cb(log, h), -1, NOTHING); var l := LastArg(cs, NOTHING);
            && Numbered(l) && (forall p :: p in l.printed ==> Counted(h, p))
            && (h.printMulti.None? ==> l.entryCount == |l.printed| && forall i :: 0 <= i < |l.printed| ==> l.printed[i].number == i)
            && OrAll(cs) == Or(Results(h, l.printed), if MeetsEmpty(log, d, -1) then 0xffff_ffff else 0)
  {
    hide Calls, Cb, Stops, Results, MeetsEmpty, OrAll, LastArg, Or;
    NothingNumbered(h);
    NumberedCalls(log, d, h, -1, NOTHING);
    CountedCalls(log, d, h, -1, NOTHING);
    ResultOfCalls(log, d, h, -1, NOTHING);
    var cs := Calls(log, d, Cb(log, h), -1, NOTHING);
    OrLaws(OrAll(cs), 0, 0);
    if h.printMulti.None? {
      SingleNumbers(h, LastArg(cs, NOTHING));
    }
  }

  lemma NothingNumbered(h: Handlers)
    ensures Numbered(NOTHING) && NOTHING.printed == [] && Results(h, []) == 0
  {}

  // ----- What the records are ----------------------------------------------------------------

  /** As many records as the handler says it has printed, or else one. */
  predicate Counted(h: Handlers, p: Printed) {
    var multi := if h.printMulti.Some? then h.printMulti.value(p.entry, p.number) else 0;
    p.count == if multi > 0 then multi else 1
  }

  /** The result of printing a single record; a handler that has printed some gives none. */
  function ResultOf(h: Handlers, p: Printed): bv32 {
    if h.printMulti.Some? && h.printMulti.value(p.entry, p.number) > 0 then 0 else h.output(p.entry, p.number)
  }

  function Results(h: Handlers, ps: seq<Printed>): bv32 {
    if ps == [] then 0 else Or(Results(h, ps[..|ps| - 1]), ResultOf(h, ps[|ps| - 1]))
  }

  /** The walk comes to an empty entry. */
  predicate MeetsEmpty(log: seq<byte>, d: nat, current: int)
    requires current >= 0 ==> Readable(log, current) && Length(log, current) > 0
  {
    var os := Offsets(log, d, current);
    os != [] && Readable(log, os[|os| - 1]) && log[os[|os| - 1] + 1] == 0
  }

  lemma ReplyCounted(log: seq<byte>, h: Handlers, l: Listing, o: nat)
    requires (forall p :: p in l.printed ==> Counted(h, p)) && Readable(log, o)
    ensures forall p :: p in Cb(log, h)(l, o).arg.printed ==> Counted(h, p)
    ensures Or(Results(h, l.printed), Cb(log, h)(l, o).ret) ==
            if Length(log, o) == 0 then Or(Results(h, l.printed), FAILURE) else Results(h, Cb(log, h)(l, o).arg.printed)
  {
    var r := Cb(log, h)(l, o);
    OrLaws(Results(h, l.printed), 0, 0);
    if r.arg != l {
      var p := r.arg.printed[|l.printed|];
      assert r.arg.printed == l.printed + [p];
      assert r.arg.printed[..|l.printed|] == l.printed;
      assert Counted(h, p) && ResultOf(h, p) == r.ret;
    }
  }

  lemma {:induction false} CountedCalls(log: seq<byte>, d: nat, h: Handlers, current: int, l: Listing)
    requires current >= 0 ==> Readable(log, current) && Length(log, current) > 0
    requires Stops(log, d, Cb(log, h), current, l) && forall p :: p in l.printed ==> Counted(h, p)
    ensures forall p :: p in LastArg(Calls(log, d, Cb(log, h), current, l), l).printed ==> Counted(h, p)
    decreases |log| - current
  {
    hide Calls, NextOffset, Counted, ListReply, Cb, Results, Or;
    CallsStep(log, d, Cb(log, h), current, l);
    var next := NextOffset(log, d, current);
    if next.Some? {
      var r := Cb(log, h)(l, next.value);
      ReplyCounted(log, h, l, next.value);
      OneListed(log, h, l, next.value);
      if !r.complete {
        CountedCalls(log, d, h, next.value, r.arg);
        LastArgCons(Call(next.value, r), Calls(log, d, Cb(log, h), next.value, r.arg), l);
      }
    }
  }

  lemma {:induction false} ResultOfCalls(log: seq<byte>, d: nat, h: Handlers, current: int, l: Listing)
    requires current >= 0 ==> Readable(log, current) && Length(log, current) > 0
    requires Stops(log, d, Cb(log, h), current, l) && forall p :: p in l.printed ==> Counted(h, p)
    ensures var cs := Calls(log, d, Cb(log, h), current, l);
            Or(Results(h, l.printed), OrAll(cs)) ==
            Or(Results(h, LastArg(cs, l).printed), if MeetsEmpty(log, d, current) then FAILURE else 0)
    decreases |log| - current
  {
    hide Calls, NextOffset, Counted, ListReply, Cb, Results, Or, OrAll, Stops, Offsets;
    CallsStep(log, d, Cb(log, h), current, l);
    OffsetsStep(log, d, current);
    var next, cs := NextOffset(log, d, current), Calls(log, d, Cb(log, h), current, l);
    OrAllNothing();
    if next.Some? {
      var r := Cb(log, h)(l, next.value);
      ReplyCounted(log, h, l, next.value);
      OneListed(log, h, l, next.value);
      if r.complete {
        EmptyEntryReply(log, h, l, next.value);
        OrAllCons(Call(next.value, r), []);
        assert cs == [Call(next.value, r)] + [];
        OrLaws(FAILURE, 0, 0);
        assert Offsets(log, d, current) == [next.value];
      } else {
        var rest := Calls(log, d, Cb(log, h), next.value, r.arg);
        ResultOfCalls(log, d, h, next.value, r.arg);
        LastArgCons(Call(next.value, r), rest, l);
        OrAllCons(Call(next.value, r), rest);
        OrLaws(Results(h, l.printed), r.ret, OrAll(rest));
        MeetsLater(log, d, current);
      }
    }
  }

  lemma OrAllNothing()
    ensures OrAll<Listing>([]) == 0
  {}

  lemma MeetsLater(log: seq<byte>, d: nat, current: int)
    requires current >= 0 ==> Readable(log, current) && Length(log, current) > 0
    requires var next := NextOffset(log, d, current); next.Some? && Length(log, next.value) > 0
    ensures MeetsEmpty(log, d, current) == MeetsEmpty(log, d, NextOffset(log, d, current).value)
  {
    var o := NextOffset(log, d, current).value;
    var rest := Offsets(log, d, o);
    OffsetsStep(log, d, current);
    hide NextOffset, Offsets;
    assert rest != [] ==> ([o] + rest)[|rest|] == rest[|rest| - 1];
  }

  lemma {:induction false} TotalOfOnes(ps: seq<Printed>)
    requires forall p :: p in ps ==> p.count == 1
    ensures Total(ps) == |ps|
  {
    if ps != [] {
      TotalOfOnes(ps[..|ps| - 1]);
    }
  }

  lemma SingleNumbers(h: Handlers, l: Listing)
    requires h.printMulti.None? && Numbered(l) && forall p :: p in l.printed ==> Counted(h, p)
    ensures l.entryCount == |l.printed| && forall i :: 0 <= i < |l.printed| ==> l.printed[i].number == i
  {
    hide Total;
    TotalOfOnes(l.printed);
    forall i | 0 <= i < |l.printed| ensures l.printed[i].number == i {
      assert forall p :: p in l.printed[..i] ==> p in l.printed;
      TotalOfOnes(l.printed[..i]);
    }
  }

  lemma {:induction false} SameCalls(log: seq<byte>, d: nat, cb: (Listing, nat) -> Reply<Listing>, cb': (Listing, nat) -> Reply<Listing>,
                                     current: int, l: Listing)
    requires StopsAtEmpty(log, cb) && forall l, o: nat :: cb(l, o) == cb'(l, o)
    requires current >= 0 ==> Readable(log, current) && Length(log, current) > 0
    requires Stops(log, d, cb, current, l) && Stops(log, d, cb', current, l)
    ensures Calls(log, d, cb, current, l) == Calls(log, d, cb', current, l)
    decreases |log| - current
  {
    var next := NextOffset(log, d, current);
    if next.Some? && !cb(l, next.value).complete {
      SameCalls(log, d, cb, cb', next.value, cb(l, next.value).arg);
    }
  }

  // ----- Numbering --------------------------------------------------------------------------

  function Total(ps: seq<Printed>): nat {
    if ps == [] then 0 else Total(ps[..|ps| - 1]) + ps[|ps| - 1].count
  }

  /** Every record bears the number of records printed before it: from 0 on, without gap or repetition. */
  ghost predicate Numbered(l: Listing) {
    && l.entryCount == Total(l.printed)
    && forall i :: 0 <= i < |l.printed| ==> l.printed[i].number == Total(l.printed[..i]) && l.printed[i].count > 0
  }

  lemma TotalSnoc(ps: seq<Printed>, p: Printed)
    ensures Total(ps + [p]) == Total(ps) + p.count
  {
    assert (ps + [p])[..|ps|] == ps;
  }

  lemma NumberedAdd(l: Listing, o: nat, count: nat)
    requires Numbered(l) && count > 0
    ensures Numbered(Add(l, o, count))
  {
    hide Total;
    var was, p := l.printed, Printed(o, l.entryCount, count);
    var ps := was + [p];
    TotalSnoc(was, p);
    forall i | 0 <= i < |ps| ensures ps[i].number == Total(ps[..i]) && ps[i].count > 0 {
      if i < |was| {
        assert ps[..i] == was[..i] && ps[i] == was[i];
      } else {
        assert ps[..i] == was && ps[i] == p;
      }
    }
  }

  lemma NumberedReply(log: seq<byte>, h: Handlers, l: Listing, o: nat)
    requires Numbered(l)
    ensures Numbered(Cb(log, h)(l, o).arg)
  {
    var l' := Cb(log, h)(l, o).arg;
    if l' != l {
      NumberedAdd(l, o, l'.entryCount - l.entryCount);
    }
  }

  lemma LastArgCons(c: Call<Listing>, cs: seq<Call<Listing>>, l: Listing)
    ensures LastArg([c] + cs, l) == LastArg(cs, c.reply.arg)
  {}

  lemma {:induction false} NumberedCalls(log: seq<byte>, d: nat, h: Handlers, current: int, l: Listing)
    requires current >= 0 ==> Readable(log, current) && Length(log, current) > 0
    requires Stops(log, d, Cb(log, h), current, l) && Numbered(l)
    ensures Numbered(LastArg(Calls(log, d, Cb(log, h), current, l), l))
    decreases |log| - current
  {
    hide Calls, NextOffset, Numbered, ListReply, Cb;
    CallsStep(log, d, Cb(log, h), current, l);
    var next := NextOffset(log, d, current);
    if next.Some? {
      var r := Cb(log, h)(l, next.value);
      NumberedReply(log, h, l, next.value);
      OneListed(log, h, l, next.value);
      if !r.complete {
        NumberedCalls(log, d, h, next.value, r.arg);
        LastArgCons(Call(next.value, r), Calls(log, d, Cb(log, h), next.value, r.arg), l);
      }
    }
  }

  // ----- Completeness -----------------------------------------------------------------------

  function Bytes(log: seq<byte>, o: nat): seq<byte> {
    if Readable(log, o) && o + Length(log, o) <= |log| then log[o..o + Length(log, o)] else []
  }

  /** Entries whose checksum the platform rejects are left out; only OEM types have one. */
  predicate Shown(log: seq<byte>, h: Handlers, o: nat) {
    Readable(log, o) && !(log[o] >= 0x80 && h.verify.Some? && !h.verify.value(o))
  }

  /** The offsets the iterator hands out after `current`, up to an empty entry. */
  function Offsets(log: seq<byte>, d: nat, current: int): seq<nat>
    requires current >= 0 ==> Readable(log, current) && Length(log, current) > 0
    decreases |log| - current
  {
    var next := NextOffset(log, d, current);
    if next.None? then []
    else [next.value] + if Length(log, next.value) == 0 then [] else Offsets(log, d, next.value)
  }

  function ShownOf(log: seq<byte>, h: Handlers, os: seq<nat>): seq<nat> {
    if os == [] then []
    else (if Shown(log, h, os[0]) && Length(log, os[0]) > 0 then [os[0]] else []) + ShownOf(log, h, os[1..])
  }

  function EntriesOf(ps: seq<Printed>): seq<nat> {
    if ps == [] then [] else EntriesOf(ps[..|ps| - 1]) + [ps[|ps| - 1].entry]
  }

  /** Something is printed for exactly the shown entries before the first empty one, in their order. */
  lemma {:induction false} ListsAll(log: seq<byte>, d: nat, h: Handlers, current: int, l: Listing)
    requires current >= 0 ==> Readable(log, current) && Length(log, current) > 0
    requires Stops(log, d, Cb(log, h), current, l)
    ensures EntriesOf(LastArg(Calls(log, d, Cb(log, h), current, l), l).printed) ==
            EntriesOf(l.printed) + ShownOf(log, h, Offsets(log, d, current))
    decreases |log| - current
  {
    hide Calls, NextOffset, ListReply, Cb;
    CallsStep(log, d, Cb(log, h), current, l);
    var next := NextOffset(log, d, current);
    if next.Some? {
      var o := next.value;
      var r := Cb(log, h)(l, o);
      OneListed(log, h, l, o);
      if r.complete {
        assert [o][1..] == [];
      } else {
        var rest := Offsets(log, d, o);
        assert ([o] + rest)[1..] == rest;
        ListsAll(log, d, h, o, r.arg);
        LastArgCons(Call(o, r), Calls(log, d, Cb(log, h), o, r.arg), l);
      }
    }
  }

  /** What one call adds to the output. */
  lemma OneListed(log: seq<byte>, h: Handlers, l: Listing, o: nat)
    requires Readable(log, o)
    ensures Cb(log, h)(l, o).complete <==> Length(log, o) == 0
    ensures EntriesOf(Cb(log, h)(l, o).arg.printed) ==
            EntriesOf(l.printed) + if Shown(log, h, o) && Length(log, o) > 0 then [o] else []
  {
    var l' := Cb(log, h)(l, o).arg;
    if l' != l {
      assert l'.printed[..|l'.printed| - 1] == l.printed;
    }
  }

  /** The entries themselves are those the round trip speaks of. */
  lemma {:induction false} OffsetsAreEntries(log: seq<byte>, d: nat, current: int)
    requires current >= 0 ==> Readable(log, current) && Length(log, current) > 0
    ensures |Offsets(log, d, current)| == |Entries(log, d, current)|
    ensures forall i :: 0 <= i < |Offsets(log, d, current)| ==> Bytes(log, Offsets(log, d, current)[i]) == Entries(log, d, current)[i]
    decreases |log| - current
  {
    NextOffsetFacts(log, d, current);
    EntriesStep(log, d, current);
    hide NextOffset, Entries;
    var next := NextOffset(log, d, current);
    if next.Some? && Length(log, next.value) > 0 {
      OffsetsAreEntries(log, d, next.value);
    }
  }

  lemma {:induction false} AllShown(log: seq<byte>, h: Handlers, os: seq<nat>)
    requires forall o :: o in os ==> Shown(log, h, o) && Length(log, o) > 0
    ensures ShownOf(log, h, os) == os
  {
    if os != [] {
      AllShown(log, h, os[1..]);
    }
  }

  /** Listing a well-formed log prints exactly its entries, in their order, but for those of an OEM type whose
      checksum the platform rejects: of the offsets `os` of the entries exactly those that are shown. */
  lemma ListRoundTrip(header: seq<byte>, es: seq<seq<byte>>, closing: seq<byte>, h: Handlers) returns (os: seq<nat>)
    requires forall i :: 0 <= i < |es| ==> WellFormed(es[i])
    requires closing != [] && closing[0] == 0xff
    ensures var log := header + Concat(es) + closing;
            && (|os| == |es| && forall i :: 0 <= i < |es| ==> Bytes(log, os[i]) == es[i])
            && Stops(log, |header|, Cb(log, h), -1, NOTHING)
            && EntriesOf(LastArg(Calls(log, |header|, Cb(log, h), -1, NOTHING), NOTHING).printed) == ShownOf(log, h, os)
            && (h.verify.None? ==> ShownOf(log, h, os) == os)
  {
    hide Concat, Cb, Calls, Stops, Entries, Offsets, ListReply, EntriesOf, LastArg;
    var log := header + Concat(es) + closing;
    ReadsBack(header, es, closing);
    OffsetsAreEntries(log, |header|, -1);
    CbStops(log, |header|, h, -1, NOTHING);
    ListsAll(log, |header|, h, -1, NOTHING);
    NothingListed();
    os := Offsets(log, |header|, -1);
    assert EntriesOf(NOTHING.printed) + ShownOf(log, h, os) == ShownOf(log, h, os);
    if h.verify.None? {
      forall o | o in os ensures Shown(log, h, o) && Length(log, o) > 0 {
        var i :| 0 <= i < |os| && os[i] == o;
        assert Bytes(log, o) == es[i] && |es[i]| >= 2;
      }
      AllShown(log, h, os);
    }
  }

  lemma NothingListed()
    ensures EntriesOf(NOTHING.printed) == []
  {}

  lemma OffsetsStep(log: seq<byte>, d: nat, current: int)
    requires current >= 0 ==> Readable(log, current) && Length(log, current) > 0
    ensures var next, os := NextOffset(log, d, current), Offsets(log, d, current);
            if next.None? then os == []
            else if Length(log, next.value) == 0 then os == [next.value]
            else os == [next.value] + Offsets(log, d, next.value)
  {}

  /** An empty entry makes the whole command fail. */
  lemma {:induction false} EmptyEntryFails(log: seq<byte>, d: nat, h: Handlers, current: int, l: Listing)
    requires current >= 0 ==> Readable(log, current) && Length(log, current) > 0
    requires Stops(log, d, Cb(log, h), current, l)
    requires var os := Offsets(log, d, current); os != [] && Readable(log, os[|os| - 1]) && Length(log, os[|os| - 1]) == 0
    ensures OrAll(Calls(log, d, Cb(log, h), current, l)) == 0xffff_ffff
    decreases |log| - current
  {
    hide Calls, ListReply, Cb, Or, Stops, NextOffset;
    NextOffsetFacts(log, d, current);
    OffsetsStep(log, d, current);
    CallsStep(log, d, Cb(log, h), current, l);
    var o := NextOffset(log, d, current).value;
    var r := Cb(log, h)(l, o);
    OneListed(log, h, l, o);
    EmptyEntryReply(log, h, l, o);
    if r.complete {
      OrAllCons(Call(o, r), []);
      OrFailure(0);
    } else {
      EmptyEntryFails(log, d, h, o, r.arg);
      OrAllCons(Call(o, r), Calls(log, d, Cb(log, h), o, r.arg));
      OrFailure(r.ret);
    }
  }

  lemma EmptyEntryReply(log: seq<byte>, h: Handlers, l: Listing, o: nat)
    requires Readable(log, o)
    ensures Length(log, o) == 0 ==> Cb(log, h)(l, o) == Reply(0xffff_ffff, true, l)
  {}

  lemma OrAllCons(c: Call<Listing>, cs: seq<Call<Listing>>)
    ensures OrAll([c] + cs) == Or(c.reply.ret, OrAll(cs))
    ensures cs == [] ==> [c] + cs == [c] && OrAll(cs) == 0
  {
    assert ([c] + cs)[1..] == cs;
  }

  /** -1 has all the bits. */
  lemma OrFailure(a: bv32)
    ensures Or(a, FAILURE) == FAILURE && Or(FAILURE, a) == FAILURE
  {}
}

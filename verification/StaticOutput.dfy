/** The published static overlay units and their audit receipt.  Publishing removes the old
    units, copies the new ones and writes the receipt, one file at a time, and may stop
    anywhere; units may be altered by others.  Reuse trusts the directory only when it holds
    exactly what the receipt of a completed publication lists. */
module StaticOutput {
  import opened Options
  import opened SortedSets

  /** A unit is the dispatcher (0) or a numbered part; contents stand for their digests. */
  type Content = nat
  type Units = map<nat, Content>

  datatype Receipt = Missing | Unreadable | Written(inputs: nat, files: Units)

  datatype Dir = Dir(units: Units, receipt: Receipt)

  datatype Op =
    | Unlink(name: nat)
    | Copy(name: nat, content: Content)
    | Open                      // the receipt is truncated for writing
    | Seal(receipt: Receipt)    // and complete
    | DropReceipt

  function Apply(d: Dir, op: Op): Dir {
    match op
    case Unlink(n) => d.(units := d.units - {n})
    case Copy(n, c) => d.(units := d.units[n := c])
    case Open => d.(receipt := Unreadable)
    case Seal(r) => d.(receipt := r)
    case DropReceipt => d.(receipt := Missing)
  }

  function Then(d: Dir, ops: seq<Op>): Dir
    decreases |ops|
  {
    if ops == [] then d else Then(Apply(d, ops[0]), ops[1..])
  }

  function Unlinks(names: seq<nat>): seq<Op> {
    seq(|names|, i requires 0 <= i < |names| => Unlink(names[i]))
  }

  function Copies(build: Units, names: seq<nat>): seq<Op>
    requires forall n :: n in names ==> n in build
  {
    seq(|names|, i requires 0 <= i < |names| => Copy(names[i], build[names[i]]))
  }

  /** Every file operation of a publication, in order. */
  function PublishPlan(d: Dir, build: Units, r: Receipt): seq<Op> {
    Unlinks(Sorted(d.units.Keys)) + Copies(build, Sorted(build.Keys)) + [Open, Seal(r)]
  }

  function ClearPlan(d: Dir): seq<Op> {
    Unlinks(Sorted(d.units.Keys)) + [DropReceipt]
  }

  function Prefix<T>(xs: seq<T>, k: nat): seq<T> {
    if k >= |xs| then xs else xs[..k]
  }

  /** The audit's file list must still describe the build, which has a dispatcher. */
  predicate Accepted(build: Units, r: Receipt) {
    0 in build && r.Written? && r.files == build
  }

  /** What happens to a directory; `done` is how far the operation gets before it stops. */
  datatype Event =
    | Publish(build: Units, receipt: Receipt, done: nat)
    | Clear(done: nat)
    | Tamper(units: Units)
    | Spoil(gone: bool)

  function After(d: Dir, e: Event): Dir {
    match e
    case Publish(build, r, done) => if Accepted(build, r) then Then(d, Prefix(PublishPlan(d, build, r), done)) else d
    case Clear(done) => Then(d, Prefix(ClearPlan(d), done))
    case Tamper(units) => d.(units := units)
    case Spoil(gone) => d.(receipt := if gone then Missing else Unreadable)
  }

  predicate Completed(d: Dir, e: Event) {
    e.Publish? && Accepted(e.build, e.receipt) && e.done >= |PublishPlan(d, e.build, e.receipt)|
  }

  function Run(d: Dir, events: seq<Event>): Dir {
    if events == [] then d else After(Run(d, events[..|events| - 1]), events[|events| - 1])
  }

  /** The receipt of the last publication that ran to its end. */
  function Issued(d: Dir, events: seq<Event>): Option<Receipt> {
    if events == [] then None
    else
      var e := events[|events| - 1];
      if Completed(Run(d, events[..|events| - 1]), e) then Some(e.receipt) else Issued(d, events[..|events| - 1])
  }

  /** The directory holds exactly what a receipt for these inputs lists. */
  predicate Reusable(d: Dir, inputs: nat) {
    d.receipt.Written? && d.receipt.inputs == inputs && d.receipt.files != map[] && d.units == d.receipt.files
  }

  // ----- Plans -----------------------------------------------------------------------------------

  lemma {:induction false} ThenConcat(d: Dir, a: seq<Op>, b: seq<Op>)
    ensures Then(d, a + b) == Then(Then(d, a), b)
    decreases |a|
  {
    if a == [] {
      assert a + b == b;
    } else {
      assert (a + b)[1..] == a[1..] + b;
      ThenConcat(Apply(d, a[0]), a[1..], b);
    }
  }

  lemma {:induction false} UnlinksLand(d: Dir, names: seq<nat>)
    ensures Then(d, Unlinks(names)) == d.(units := d.units - (set n | n in names))
    decreases |names|
  {
    if names == [] {
      assert d.units - (set n | n in names) == d.units;
    } else {
      var next := Apply(d, Unlink(names[0]));
      assert Unlinks(names)[1..] == Unlinks(names[1..]);
      UnlinksLand(next, names[1..]);
      assert d.units - (set n | n in names) == next.units - (set n | n in names[1..]);
    }
  }

  function Part(build: Units, names: seq<nat>): Units
    requires forall n :: n in names ==> n in build
  {
    map n | n in names :: build[n]
  }

  lemma {:induction false} CopiesLand(d: Dir, build: Units, names: seq<nat>)
    requires forall n :: n in names ==> n in build
    ensures Then(d, Copies(build, names)) == d.(units := d.units + Part(build, names))
    decreases |names|
  {
    if names == [] {
      assert d.units + Part(build, names) == d.units;
    } else {
      var next := Apply(d, Copy(names[0], build[names[0]]));
      assert Copies(build, names)[1..] == Copies(build, names[1..]);
      CopiesLand(next, build, names[1..]);
      assert d.units + Part(build, names) == next.units + Part(build, names[1..]);
    }
  }

  lemma SealLands(d: Dir, r: Receipt)
    ensures Then(d, [Open, Seal(r)]) == d.(receipt := r)
  {
    assert [Open, Seal(r)][1..] == [Seal(r)];
    assert Then(Apply(d, Open), [Seal(r)]) == d.(receipt := r);
  }

  lemma EmptiedUnits(d: Dir, stale: seq<nat>)
    requires forall n :: n in d.units ==> n in stale
    ensures Then(d, Unlinks(stale)) == d.(units := map[])
  {
    UnlinksLand(d, stale);
    assert d.units - (set n | n in stale) == map[];
  }

  lemma FilledUnits(d: Dir, build: Units, names: seq<nat>)
    requires d.units == map[] && forall n :: n in names <==> n in build
    ensures Then(d, Copies(build, names)) == d.(units := build)
  {
    CopiesLand(d, build, names);
    assert d.units + Part(build, names) == build;
  }

  lemma ThreeParts(d: Dir, a: seq<Op>, b: seq<Op>, c: seq<Op>)
    ensures Then(d, a + b + c) == Then(Then(Then(d, a), b), c)
  {
    ThenConcat(d, a + b, c);
    ThenConcat(d, a, b);
  }

  /** A publication that runs to its end leaves exactly the build and its receipt. */
  lemma PublishLands(d: Dir, build: Units, r: Receipt)
    ensures Then(d, PublishPlan(d, build, r)) == Dir(build, r)
  {
    var stale, names := Sorted(d.units.Keys), Sorted(build.Keys);
    var bare := d.(units := map[]);
    EmptiedUnits(d, stale);
    FilledUnits(bare, build, names);
    SealLands(bare.(units := build), r);
    ThreeParts(d, Unlinks(stale), Copies(build, names), [Open, Seal(r)]);
  }

  /** Nothing but the last operation of a publication writes a receipt. */
  ghost predicate Harmless(ops: seq<Op>) {
    forall op :: op in ops ==> !op.Seal?
  }

  lemma {:induction false} HarmlessReceipt(d: Dir, ops: seq<Op>)
    requires Harmless(ops)
    ensures Then(d, ops).receipt == d.receipt || !Then(d, ops).receipt.Written?
    decreases |ops|
  {
    if ops != [] {
      assert ops[0] in ops && forall op :: op in ops[1..] ==> op in ops;
      HarmlessReceipt(Apply(d, ops[0]), ops[1..]);
    }
  }

  lemma PrefixBeforeLast(ops: seq<Op>, last: Op, done: nat)
    requires Harmless(ops) && done <= |ops|
    ensures Harmless(Prefix(ops + [last], done))
  {
    assert (ops + [last])[..done] == ops[..done];
  }

  lemma PublishPlanParts(d: Dir, build: Units, r: Receipt) returns (ops: seq<Op>)
    ensures Harmless(ops) && PublishPlan(d, build, r) == ops + [Seal(r)]
  {
    var a, b := Unlinks(Sorted(d.units.Keys)), Copies(build, Sorted(build.Keys));
    ops := a + b + [Open];
    HarmlessParts(a, b);
    LastApart(a, b, r);
  }

  lemma HarmlessParts(a: seq<Op>, b: seq<Op>)
    requires (forall op :: op in a ==> op.Unlink?) && forall op :: op in b ==> op.Copy?
    ensures Harmless(a + b + [Open])
  {
  }

  lemma LastApart(a: seq<Op>, b: seq<Op>, r: Receipt)
    ensures a + b + [Open, Seal(r)] == a + b + [Open] + [Seal(r)]
  {
    assert [Open, Seal(r)] == [Open] + [Seal(r)];
  }

  lemma ClearPlanHarmless(d: Dir, done: nat)
    ensures Harmless(Prefix(ClearPlan(d), done))
  {
    assert Harmless(ClearPlan(d));
  }

  /** Any event but a completed publication leaves the receipt as it was, or unusable. */
  lemma EventReceipt(d: Dir, e: Event)
    requires !Completed(d, e)
    ensures After(d, e).receipt == d.receipt || !After(d, e).receipt.Written?
  {
    match e
    case Publish(build, r, done) =>
      if Accepted(build, r) {
        var ops := PublishPlanParts(d, build, r);
        PrefixBeforeLast(ops, Seal(r), done);
        HarmlessReceipt(d, Prefix(ops + [Seal(r)], done));
      }
    case Clear(done) =>
      ClearPlanHarmless(d, done);
      HarmlessReceipt(d, Prefix(ClearPlan(d), done));
    case Tamper(_) =>
    case Spoil(_) =>
  }

  // ----- Every run -------------------------------------------------------------------------------

  /** A readable receipt is always the one of the last completed publication. */
  lemma {:induction false} ReceiptIsIssued(d: Dir, events: seq<Event>)
    requires !d.receipt.Written?
    ensures Run(d, events).receipt.Written? ==> Issued(d, events) == Some(Run(d, events).receipt)
    decreases |events|
  {
    if events != [] {
      var before, e := Run(d, events[..|events| - 1]), events[|events| - 1];
      ReceiptIsIssued(d, events[..|events| - 1]);
      if Completed(before, e) {
        PublishLands(before, e.build, e.receipt);
      } else {
        EventReceipt(before, e);
      }
    }
  }

  /** Reuse is granted only for exactly the units of the last completed publication, made
      for these very inputs. */
  lemma ReuseIsAudited(d: Dir, events: seq<Event>, inputs: nat)
    requires !d.receipt.Written? && Reusable(Run(d, events), inputs)
    ensures var issued := Issued(d, events);
            issued.Some? && issued.value == Written(inputs, Run(d, events).units)
  {
    ReceiptIsIssued(d, events);
  }

  /** A publication that ran to its end can be reused, whatever came before. */
  lemma PublishedIsReusable(d: Dir, events: seq<Event>, build: Units, inputs: nat, done: nat)
    requires 0 in build
    requires done >= |PublishPlan(Run(d, events), build, Written(inputs, build))|
    ensures Reusable(Run(d, events + [Publish(build, Written(inputs, build), done)]), inputs)
  {
    var e := Publish(build, Written(inputs, build), done);
    assert (events + [e])[..|events|] == events;
    PublishLands(Run(d, events), build, Written(inputs, build));
  }

  /** After a clear that ran to its end nothing can be reused. */
  lemma ClearedIsEmpty(d: Dir, events: seq<Event>, done: nat)
    requires done >= |ClearPlan(Run(d, events))|
    ensures Run(d, events + [Clear(done)]) == Dir(map[], Missing)
  {
    var before := Run(d, events);
    assert (events + [Clear(done)])[..|events|] == events;
    var stale := Sorted(before.units.Keys);
    UnlinksLand(before, stale);
    assert Then(before, Unlinks(stale)).units == map[];
    ThenConcat(before, Unlinks(stale), [DropReceipt]);
    assert [DropReceipt][1..] == [];
  }

  // ----- The directory ---------------------------------------------------------------------------

  class StaticDir {
    var units: Units
    var receipt: Receipt

    constructor ()
      ensures Contents() == Dir(map[], Missing)
    {
      units, receipt := map[], Missing;
    }

    ghost function Contents(): Dir
      reads this
    {
      Dir(units, receipt)
    }

    /** Remove units one by one while `left` operations remain before the process stops. */
    method UnlinkAll(names: seq<nat>, budget: nat) returns (left: nat)
      modifies this`units
      ensures Contents() == Then(old(Contents()), Prefix(Unlinks(names), budget))
      ensures left == if budget < |names| then 0 else budget - |names|
    {
      left := budget;
      var i := 0;
      ghost var ops := Unlinks(names);
      while i < |names| && left > 0
        invariant i <= |names| && left == budget - i
        invariant Contents() == Then(old(Contents()), ops[..i])
      {
        ThenSnoc(old(Contents()), ops, i);
        units := units - {names[i]};
        left, i := left - 1, i + 1;
      }
      assert ops[..i] == Prefix(ops, budget);
    }

    method CopyAll(build: Units, names: seq<nat>, budget: nat) returns (left: nat)
      requires forall n :: n in names ==> n in build
      modifies this`units
      ensures Contents() == Then(old(Contents()), Prefix(Copies(build, names), budget))
      ensures left == if budget < |names| then 0 else budget - |names|
    {
      left := budget;
      var i := 0;
      ghost var ops := Copies(build, names);
      while i < |names| && left > 0
        invariant i <= |names| && left == budget - i
        invariant Contents() == Then(old(Contents()), ops[..i])
      {
        ThenSnoc(old(Contents()), ops, i);
        units := units[names[i] := build[names[i]]];
        left, i := left - 1, i + 1;
      }
      assert ops[..i] == Prefix(ops, budget);
    }

    method WriteReceipt(r: Receipt, budget: nat)
      modifies this`receipt
      ensures Contents() == Then(old(Contents()), Prefix([Open, Seal(r)], budget))
    {
      SealLands(Contents(), r);
      assert Prefix([Open, Seal(r)], 0) == [] && Prefix([Open, Seal(r)], 1) == [Open];
      assert [Open][1..] == [];
      if budget > 0 {
        receipt := Unreadable;
      }
      if budget > 1 {
        receipt := r;
      }
    }

    /** Replace the units with the audited set; stop after `done` file operations. */
    method PublishStatic(build: Units, r: Receipt, done: nat) returns (accepted: bool)
      modifies this
      ensures accepted == Accepted(build, r)
      ensures Contents() == After(old(Contents()), Publish(build, r, done))
    {
      accepted := 0 in build && r.Written? && r.files == build;
      if !accepted {
        return;
      }
      Replace(build, r, Sorted(units.Keys), Sorted(build.Keys), done);
    }

    method Replace(build: Units, r: Receipt, stale: seq<nat>, names: seq<nat>, done: nat)
      requires forall n :: n in names ==> n in build
      modifies this
      ensures Contents() == Then(old(Contents()), Prefix(Unlinks(stale) + Copies(build, names) + [Open, Seal(r)], done))
    {
      ThreePrefixes(Contents(), Unlinks(stale), Copies(build, names), [Open, Seal(r)], done);
      var left := UnlinkAll(stale, done);
      left := CopyAll(build, names, left);
      WriteReceipt(r, left);
    }

    /** Remove the units and the receipt; stop after `done` file operations. */
    method ClearStatic(done: nat)
      modifies this
      ensures Contents() == After(old(Contents()), Clear(done))
    {
      Remove(Sorted(units.Keys), done);
    }

    method Remove(stale: seq<nat>, done: nat)
      modifies this
      ensures Contents() == Then(old(Contents()), Prefix(Unlinks(stale) + [DropReceipt], done))
    {
      TwoPrefixes(Contents(), Unlinks(stale), [DropReceipt], done);
      var left := UnlinkAll(stale, done);
      DeleteReceipt(left);
    }

    method DeleteReceipt(budget: nat)
      modifies this`receipt
      ensures Contents() == Then(old(Contents()), Prefix([DropReceipt], budget))
    {
      assert Prefix([DropReceipt], 0) == [] && [DropReceipt][1..] == [];
      if budget > 0 {
        receipt := Missing;
      }
    }

    /** The checks before reuse, in order. */
    method ReusableStatic(inputs: nat) returns (reusable: bool)
      ensures reusable == Reusable(Contents(), inputs)
      ensures Contents() == old(Contents())
    {
      if !receipt.Written? || receipt.inputs != inputs {
        return false;
      }
      var files := receipt.files;
      if files == map[] || units.Keys != files.Keys {
        return false;
      }
      var rest := files.Keys;
      while rest != {}
        invariant rest <= files.Keys && forall n :: n in files && n !in rest ==> units[n] == files[n]
        decreases rest
      {
        var n :| n in rest;
        if units[n] != files[n] {
          return false;
        }
        rest := rest - {n};
      }
      assert units == files;
      reusable := true;
    }
  }

  lemma ThenSnoc(d: Dir, ops: seq<Op>, i: nat)
    requires i < |ops|
    ensures Then(d, ops[..i + 1]) == Apply(Then(d, ops[..i]), ops[i])
  {
    assert ops[..i + 1] == ops[..i] + [ops[i]];
    ThenConcat(d, ops[..i], [ops[i]]);
    assert [ops[i]][1..] == [];
  }

  /** Stopping in a sequence of two parts is stopping in the first or in the second. */
  lemma TwoPrefixes(d: Dir, a: seq<Op>, b: seq<Op>, done: nat)
    ensures var left := if done < |a| then 0 else done - |a|;
            Then(d, Prefix(a + b, done)) == Then(Then(d, Prefix(a, done)), Prefix(b, left))
  {
    if done < |a| {
      assert Prefix(a + b, done) == a[..done] && Prefix(b, 0) == [];
    } else {
      assert Prefix(a + b, done) == a + Prefix(b, done - |a|);
      ThenConcat(d, a, Prefix(b, done - |a|));
    }
  }

  lemma ThreePrefixes(d: Dir, a: seq<Op>, b: seq<Op>, c: seq<Op>, done: nat)
    ensures var left := if done < |a| then 0 else done - |a|;
            var last := if left < |b| then 0 else left - |b|;
            Then(d, Prefix(a + b + c, done)) == Then(Then(Then(d, Prefix(a, done)), Prefix(b, left)), Prefix(c, last))
  {
    TwoPrefixes(d, a + b, c, done);
    TwoPrefixes(d, a, b, done);
  }
}

/**
 * The two batch updates driven by a submitted hash: `mass_update`, which
 * reassigns officers to members after an election, and `update_contacts`,
 * which changes the display flag and order. Both walk the hash in order and
 * save each officer through `update_attributes`; neither is atomic.
 */
module Batches {
  import opened Wrappers
  import opened Text
  import opened Records
  import opened Validation

  /**
   * Why a batch stops early: an update was refused (the `false` of
   * `update_contacts`), or `find` raised RecordNotFound for an id.
   */
  datatype Stop = Refused(id: nat) | NotFound(id: nat)

  /** How a batch ends: it ran to the end, or it stopped at an entry. */
  datatype Outcome = Completed | Stopped(stop: Stop)

  /** The table after a batch, and how the batch ended. */
  datatype Run = Run(rows: seq<Row>, outcome: Outcome)

  /** One entry of a batch either leaves a new table and goes on, or ends the batch. */
  datatype Step = Next(rows: seq<Row>) | Halt(stop: Stop)

  /** `params.require(id).permit(:disp, :position)`: the columns an entry may set. */
  datatype Patch = Patch(disp: Option<bool>, position: Option<int>)

  /** Apply `step` to the entries of `ps` in order; a halting entry ends the batch with the table as it is. */
  function RunBatch<E>(step: (seq<Row>, E) -> Step, rows: seq<Row>, ps: seq<E>): Run
    decreases |ps|
  {
    if ps == [] then Run(rows, Completed)
    else match step(rows, ps[0])
      case Next(next) => RunBatch(step, next, ps[1..])
      case Halt(stop) => Run(rows, Stopped(stop))
  }

  /** The batch over `ps[i..]` is entry `i` followed, unless it halts, by the batch over the rest. */
  lemma RunBatchStep<E>(step: (seq<Row>, E) -> Step, rows: seq<Row>, ps: seq<E>, i: nat)
    requires i < |ps|
    ensures var st := step(rows, ps[i]);
      RunBatch(step, rows, ps[i..]) ==
        if st.Next? then RunBatch(step, st.rows, ps[i + 1..]) else Run(rows, Stopped(st.stop))
  {
    assert ps[i..][0] == ps[i] && ps[i..][1..] == ps[i + 1..];
  }

  /**
   * A batch over `a + b` is the batch over `a` followed, only if that one
   * ran to the end, by the batch over `b` on the table it left.
   */
  lemma {:induction false} RunBatchSplit<E>(step: (seq<Row>, E) -> Step, rows: seq<Row>, a: seq<E>, b: seq<E>)
    ensures RunBatch(step, rows, a + b) ==
      var ra := RunBatch(step, rows, a);
      if ra.outcome == Completed then RunBatch(step, ra.rows, b) else ra
    decreases |a|
  {
    if a != [] {
      assert (a + b)[0] == a[0] && (a + b)[1..] == a[1..] + b;
      match step(rows, a[0])
      case Next(next) => RunBatchSplit(step, next, a[1..], b);
      case Halt(o) =>
    } else {
      assert a + b == b;
    }
  }

  /**
   * A batch that does not run to the end stopped at some entry `i`: the
   * table it leaves is the one the entries before `i` produced, and entry
   * `i`, on that table, halted with the batch's outcome.
   */
  lemma {:induction false} RunBatchStops<E>(step: (seq<Row>, E) -> Step, rows: seq<Row>, ps: seq<E>)
    requires RunBatch(step, rows, ps).outcome != Completed
    ensures var r := RunBatch(step, rows, ps);
      exists i | 0 <= i < |ps| ::
        RunBatch(step, rows, ps[..i]) == Run(r.rows, Completed) && step(r.rows, ps[i]).Halt? && Stopped(step(r.rows, ps[i]).stop) == r.outcome
    decreases |ps|
  {
    var r := RunBatch(step, rows, ps);
    assert ps[..0] == [];
    match step(rows, ps[0])
    case Next(next) =>
      RunBatchStops(step, next, ps[1..]);
      var i :| 0 <= i < |ps[1..]| &&
        RunBatch(step, next, ps[1..][..i]) == Run(r.rows, Completed) && step(r.rows, ps[1..][i]).Halt? && Stopped(step(r.rows, ps[1..][i]).stop) == r.outcome;
      assert ps[..i + 1][0] == ps[0] && ps[..i + 1][1..] == ps[1..][..i];
      assert RunBatch(step, rows, ps[..i + 1]) == Run(r.rows, Completed);
      assert ps[i + 1] == ps[1..][i];
    case Halt(o) =>
      assert RunBatch(step, rows, ps[..0]) == Run(r.rows, Completed);
  }

  // ----- mass_update -----

  /** One `find(id).update_attributes(dke_info_id: ref)`; a refused save is ignored. */
  function MassStep(rows: seq<Row>, entry: (nat, Option<nat>)): Step {
    match Find(rows, entry.0)
    case None => Halt(NotFound(entry.0))
    case Some(k) =>
      var updated := rows[k].(dkeInfoId := entry.1);
      Next(if RowAdmissible(updated, rows) then rows[k := updated] else rows)
  }

  function MassRun(rows: seq<Row>, ps: seq<(nat, Option<nat>)>): Run {
    RunBatch(MassStep, rows, ps)
  }

  /** `b` is `a` with at most the member references changed. */
  ghost predicate SameExceptMember(a: seq<Row>, b: seq<Row>) {
    |a| == |b| && forall j | 0 <= j < |a| :: b[j] == a[j].(dkeInfoId := b[j].dkeInfoId)
  }

  /** `b` is `a` with at most the display flags and positions changed. */
  ghost predicate SameExceptDisplay(a: seq<Row>, b: seq<Row>) {
    |a| == |b| && forall j | 0 <= j < |a| :: b[j] == a[j].(disp := b[j].disp, position := b[j].position)
  }

  /** Some entry of the hash is keyed by `id`. */
  ghost predicate Named<V>(ps: seq<(nat, V)>, id: nat) {
    exists i | 0 <= i < |ps| :: ps[i].0 == id
  }

  /** The value the hash holds for `id`: the last entry with that key. */
  ghost function LastFor<V>(ps: seq<(nat, V)>, id: nat): V
    requires Named(ps, id)
  {
    if Named(ps[1..], id) then LastFor(ps[1..], id)
    else
      ps[0].1
  }

  /**
   * `mass_update` changes nothing but member references, and leaves every
   * officer the hash does not name as it was.
   */
  lemma {:induction false} MassUpdateFrame(rows: seq<Row>, ps: seq<(nat, Option<nat>)>)
    ensures SameExceptMember(rows, MassRun(rows, ps).rows)
    ensures forall j | 0 <= j < |rows| && !Named(ps, rows[j].id) :: MassRun(rows, ps).rows[j] == rows[j]
    decreases |ps|
  {
    if ps != [] {
      match MassStep(rows, ps[0])
      case Next(next) =>
        MassUpdateFrame(next, ps[1..]);
        forall j | 0 <= j < |rows| && !Named(ps, rows[j].id) ensures MassRun(rows, ps).rows[j] == rows[j] {
          assert ps[0].0 != rows[j].id;
          assert !Named(ps[1..], next[j].id);
        }
      case Halt(o) =>
    }
  }

  /** `mass_update` keeps a consistent table consistent. */
  lemma {:induction false} MassUpdateConsistent(rows: seq<Row>, ps: seq<(nat, Option<nat>)>)
    requires Consistent(rows)
    ensures Consistent(MassRun(rows, ps).rows)
    decreases |ps|
  {
    if ps != [] && Find(rows, ps[0].0).Some? {
      var k := Find(rows, ps[0].0).value;
      var updated := rows[k].(dkeInfoId := ps[0].1);
      assert RowAdmissible(rows[k], rows);
      SavePreservesConsistency(rows, k, updated);
      MassUpdateConsistent(rows[k := updated], ps[1..]);
    }
  }

  /**
   * `mass_update` ends early exactly when some key names no officer, and
   * then with such an id; a refused save never stops it.
   */
  lemma {:induction false} MassUpdateOutcome(rows: seq<Row>, ps: seq<(nat, Option<nat>)>)
    ensures var r := MassRun(rows, ps);
      && (r.outcome == Completed <==> forall i | 0 <= i < |ps| :: Find(rows, ps[i].0).Some?)
      && (r.outcome != Completed ==> r.outcome.stop.NotFound? && Find(rows, r.outcome.stop.id).None?)
    decreases |ps|
  {
    if ps != [] && Find(rows, ps[0].0).Some? {
      var r := MassRun(rows, ps);
      var next := MassStep(rows, ps[0]).rows;
      assert r == MassRun(next, ps[1..]);
      assert forall j | 0 <= j < |rows| :: next[j].id == rows[j].id;
      MassUpdateOutcome(next, ps[1..]);
      forall i | 0 <= i < |ps[1..]| ensures Find(next, ps[1..][i].0) == Find(rows, ps[1..][i].0) {
        FindSameIds(next, rows, ps[1..][i].0);
      }
      assert forall i | 0 <= i < |ps[1..]| :: ps[1..][i] == ps[i + 1];
      if r.outcome != Completed {
        FindSameIds(next, rows, r.outcome.stop.id);
      }
    }
  }

  /**
   * On a consistent table, a `mass_update` that runs to the end leaves each
   * officer the hash names holding the member the hash gives for it.
   */
  lemma {:induction false} MassUpdateAssigns(rows: seq<Row>, ps: seq<(nat, Option<nat>)>)
    requires Consistent(rows)
    requires MassRun(rows, ps).outcome == Completed
    ensures var r := MassRun(rows, ps);
      && |r.rows| == |rows|
      && forall j | 0 <= j < |rows| && Named(ps, rows[j].id) :: r.rows[j].dkeInfoId == LastFor(ps, rows[j].id)
    decreases |ps|
  {
    MassUpdateFrame(rows, ps);
    if ps != [] {
      var r := MassRun(rows, ps);
      var k := Find(rows, ps[0].0).value;
      var updated := rows[k].(dkeInfoId := ps[0].1);
      assert RowAdmissible(rows[k], rows);
      var next := rows[k := updated];
      SavePreservesConsistency(rows, k, updated);
      MassUpdateAssigns(next, ps[1..]);
      MassUpdateFrame(next, ps[1..]);
      forall j | 0 <= j < |rows| && Named(ps, rows[j].id) ensures r.rows[j].dkeInfoId == LastFor(ps, rows[j].id) {
        if !Named(ps[1..], rows[j].id) {
          FindUnique(rows, rows[j].id, j);
        }
      }
    }
  }

  // ----- update_contacts -----

  /** Assign the permitted columns that the entry supplies. */
  function Patched(o: Row, p: Patch): Row {
    o.(disp := p.disp.GetOr(o.disp), position := p.position.GetOr(o.position))
  }

  /**
   * One entry of `update_contacts`: a key that is not all digits is passed
   * over; otherwise the officer is found and saved with the patch, and a
   * refused save ends the batch.
   */
  function ContactsStep(rows: seq<Row>, entry: (string, Patch)): Step {
    if !IsDigits(entry.0) then Next(rows)
    else
      var id := DecimalValue(entry.0);
      match Find(rows, id)
      case None => Halt(NotFound(id))
      case Some(k) =>
        var updated := Patched(rows[k], entry.1);
        if RowAdmissible(updated, rows) then Next(rows[k := updated]) else Halt(Refused(id))
  }

  function ContactsRun(rows: seq<Row>, ps: seq<(string, Patch)>): Run {
    RunBatch(ContactsStep, rows, ps)
  }

  /** Entry `i` of `update_contacts` with a key that is not all digits is passed over. */
  lemma ContactsRunSkip(rows: seq<Row>, ps: seq<(string, Patch)>, i: nat)
    requires i < |ps| && !IsDigits(ps[i].0)
    ensures ContactsRun(rows, ps[i..]) == ContactsRun(rows, ps[i + 1..])
  {
    RunBatchStep(ContactsStep, rows, ps, i);
  }

  /** Entry `i` naming no officer ends `update_contacts` with the table as it is. */
  lemma ContactsRunNotFound(rows: seq<Row>, ps: seq<(string, Patch)>, i: nat)
    requires i < |ps| && IsDigits(ps[i].0) && Find(rows, DecimalValue(ps[i].0)).None?
    ensures ContactsRun(rows, ps[i..]) == Run(rows, Stopped(NotFound(DecimalValue(ps[i].0))))
  {
    RunBatchStep(ContactsStep, rows, ps, i);
  }

  /** Entry `i` naming the officer at `k` with a valid patch: it is saved and the batch goes on. */
  lemma ContactsRunSaved(rows: seq<Row>, ps: seq<(string, Patch)>, i: nat, k: nat)
    requires i < |ps| && IsDigits(ps[i].0) && Find(rows, DecimalValue(ps[i].0)) == Some(k)
    requires RowAdmissible(Patched(rows[k], ps[i].1), rows)
    ensures ContactsRun(rows, ps[i..]) == ContactsRun(rows[k := Patched(rows[k], ps[i].1)], ps[i + 1..])
  {
    RunBatchStep(ContactsStep, rows, ps, i);
  }

  /** Entry `i` naming the officer at `k` with a refused patch: the batch ends with the table as it is. */
  lemma ContactsRunRefused(rows: seq<Row>, ps: seq<(string, Patch)>, i: nat, k: nat)
    requires i < |ps| && IsDigits(ps[i].0) && Find(rows, DecimalValue(ps[i].0)) == Some(k)
    requires !RowAdmissible(Patched(rows[k], ps[i].1), rows)
    ensures ContactsRun(rows, ps[i..]) == Run(rows, Stopped(Refused(DecimalValue(ps[i].0))))
  {
    RunBatchStep(ContactsStep, rows, ps, i);
  }

  /** The entries of `ps` whose key is all digits, in order. */
  function DigitKeyed(ps: seq<(string, Patch)>): (r: seq<(string, Patch)>)
    ensures forall e | e in r :: e in ps && IsDigits(e.0)
    ensures forall e | e in ps && IsDigits(e.0) :: e in r
  {
    if ps == [] then []
    else if IsDigits(ps[0].0) then [ps[0]] + DigitKeyed(ps[1..])
    else DigitKeyed(ps[1..])
  }

  /** The officer id a digit key names. */
  ghost predicate Targets(e: (string, Patch), id: nat) {
    IsDigits(e.0) && DecimalValue(e.0) == id
  }

  /** Entries whose key is not all digits have no effect at all. */
  lemma {:induction false} ContactsSkipsNonDigitKeys(rows: seq<Row>, ps: seq<(string, Patch)>)
    ensures ContactsRun(rows, ps) == ContactsRun(rows, DigitKeyed(ps))
    decreases |ps|
  {
    if ps != [] {
      if IsDigits(ps[0].0) {
        var d := [ps[0]] + DigitKeyed(ps[1..]);
        assert d[0] == ps[0] && d[1..] == DigitKeyed(ps[1..]);
        match ContactsStep(rows, ps[0])
        case Next(next) => ContactsSkipsNonDigitKeys(next, ps[1..]);
        case Halt(o) =>
      } else {
        ContactsSkipsNonDigitKeys(rows, ps[1..]);
      }
    }
  }

  /** Dropping one entry whose key is not all digits, anywhere in the hash, changes nothing. */
  lemma ContactsSkipsEntry(rows: seq<Row>, a: seq<(string, Patch)>, e: (string, Patch), b: seq<(string, Patch)>)
    requires !IsDigits(e.0)
    ensures ContactsRun(rows, a + [e] + b) == ContactsRun(rows, a + b)
  {
    RunBatchSplit(ContactsStep, rows, a, [e] + b);
    RunBatchSplit(ContactsStep, rows, a, b);
    assert a + [e] + b == a + ([e] + b);
    var ra := RunBatch(ContactsStep, rows, a);
    assert ([e] + b)[0] == e && ([e] + b)[1..] == b;
  }

  /**
   * `update_contacts` changes nothing but display flags and positions, and
   * leaves every officer no digit key names as it was.
   */
  lemma {:induction false} ContactsFrame(rows: seq<Row>, ps: seq<(string, Patch)>)
    ensures SameExceptDisplay(rows, ContactsRun(rows, ps).rows)
    ensures forall j | 0 <= j < |rows| && (forall i | 0 <= i < |ps| :: !Targets(ps[i], rows[j].id)) ::
      ContactsRun(rows, ps).rows[j] == rows[j]
    decreases |ps|
  {
    if ps != [] {
      match ContactsStep(rows, ps[0])
      case Next(next) =>
        ContactsFrame(next, ps[1..]);
        forall j | 0 <= j < |rows| && (forall i | 0 <= i < |ps| :: !Targets(ps[i], rows[j].id))
          ensures ContactsRun(rows, ps).rows[j] == rows[j]
        {
          assert !Targets(ps[0], rows[j].id);
          assert forall i | 0 <= i < |ps[1..]| :: !Targets(ps[1..][i], next[j].id) by {
            forall i | 0 <= i < |ps[1..]| ensures !Targets(ps[1..][i], next[j].id) {
              assert ps[1..][i] == ps[i + 1];
            }
          }
        }
      case Halt(o) =>
    }
  }

  /**
   * A digit-keyed entry is refused on a consistent table exactly when it
   * names no officer or would display an officer whose contact is empty.
   */
  ghost predicate Acceptable(rows: seq<Row>, e: (string, Patch)) {
    IsDigits(e.0) ==>
      var k := Find(rows, DecimalValue(e.0));
      k.Some? && !(e.1.disp == Some(true) && rows[k.value].contact == "")
  }

  /**
   * On a consistent table, `update_contacts` keeps the table consistent and
   * returns true exactly when every digit-keyed entry names an officer and
   * does not display one without contact.
   */
  lemma {:induction false} ContactsOutcome(rows: seq<Row>, ps: seq<(string, Patch)>)
    requires Consistent(rows)
    ensures var r := ContactsRun(rows, ps);
      && Consistent(r.rows)
      && (r.outcome == Completed <==> forall i | 0 <= i < |ps| :: Acceptable(rows, ps[i]))
    decreases |ps|
  {
    if ps != [] {
      var e := ps[0];
      assert forall i | 0 <= i < |ps[1..]| :: ps[1..][i] == ps[i + 1];
      match ContactsStep(rows, e)
      case Next(next) =>
        if IsDigits(e.0) {
          var k := Find(rows, DecimalValue(e.0)).value;
          var updated := Patched(rows[k], e.1);
          ConsistentRefusal(rows, k, updated);
          SavePreservesConsistency(rows, k, updated);
        }
        assert SameExceptDisplay(rows, next);
        ContactsOutcome(next, ps[1..]);
        forall i | 0 <= i < |ps[1..]| ensures Acceptable(next, ps[1..][i]) == Acceptable(rows, ps[1..][i]) {
          if IsDigits(ps[1..][i].0) {
            FindSameIds(next, rows, DecimalValue(ps[1..][i].0));
          }
        }
      case Halt(o) =>
        if o.Refused? {
          var k := Find(rows, DecimalValue(e.0)).value;
          ConsistentRefusal(rows, k, Patched(rows[k], e.1));
        }
    }
  }
}

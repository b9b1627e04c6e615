/**
 * `valid?` for an officer: the declared presence and case-insensitive
 * uniqueness rules on name and title, and on top of them the rule that a
 * displayed officer needs a contact.
 */
module Validation {
  import opened Wrappers
  import opened Text
  import opened Records

  datatype Field = Name | Title | Contact

  /** One entry of the record's `errors`: the attribute and its message. */
  datatype Error = Error(field: Field, message: string)

  const CantBeBlank := "can't be blank"
  const AlreadyTaken := "has already been taken"
  const BlankAndDisplayed := "can't be blank and displayed"

  /**
   * A stored row the uniqueness rule compares against: every row for a new
   * record (`self` is None), every other row for a stored one.
   */
  predicate IsOther(o: Row, self: Option<nat>) {
    self.None? || o.id != self.value
  }

  predicate NameTaken(name: string, self: Option<nat>, rows: seq<Row>) {
    exists i | 0 <= i < |rows| :: IsOther(rows[i], self) && EqualIgnoringCase(rows[i].name, name)
  }

  predicate TitleTaken(title: string, self: Option<nat>, rows: seq<Row>) {
    exists i | 0 <= i < |rows| :: IsOther(rows[i], self) && EqualIgnoringCase(rows[i].title, title)
  }

  /** `presence: true` then `uniqueness:` on one attribute, in declaration order. */
  function AttributeErrors(field: Field, value: string, taken: bool): seq<Error> {
    (if IsBlank(value) then [Error(field, CantBeBlank)] else [])
    + (if taken then [Error(field, AlreadyTaken)] else [])
  }

  /** What the declared validations (lines 5-6) leave in `errors`. */
  function BaseErrors(name: string, title: string, self: Option<nat>, rows: seq<Row>): seq<Error> {
    AttributeErrors(Name, name, NameTaken(name, self, rows))
    + AttributeErrors(Title, title, TitleTaken(title, self, rows))
  }

  /** What `valid?` leaves in `errors`; the record is valid exactly when this is empty. */
  function Errors(name: string, title: string, disp: bool, contact: string, self: Option<nat>, rows: seq<Row>): seq<Error> {
    var base := BaseErrors(name, title, self, rows);
    if base != [] then base
    else if disp && contact == "" then [Error(Contact, BlankAndDisplayed)]
    else []
  }

  predicate Admissible(name: string, title: string, disp: bool, contact: string, self: Option<nat>, rows: seq<Row>) {
    Errors(name, title, disp, contact, self, rows) == []
  }

  /** `valid?` of a stored row, checked against the table it is in. */
  predicate RowAdmissible(r: Row, rows: seq<Row>) {
    Admissible(r.name, r.title, r.disp, r.contact, Some(r.id), rows)
  }

  /** The state a table kept only through `save` is in: unique ids and every row valid. */
  ghost predicate Consistent(rows: seq<Row>) {
    DistinctIds(rows) && forall k | 0 <= k < |rows| :: RowAdmissible(rows[k], rows)
  }

  /** Valid exactly when both attributes are present and unclaimed and a displayed officer has a contact. */
  lemma ValidIff(name: string, title: string, disp: bool, contact: string, self: Option<nat>, rows: seq<Row>)
    ensures Admissible(name, title, disp, contact, self, rows) <==>
      && !IsBlank(name) && !NameTaken(name, self, rows)
      && !IsBlank(title) && !TitleTaken(title, self, rows)
      && (disp ==> contact != "")
  {
  }

  /** When the declared validations fail, `valid?` fails with their errors and adds none on contact. */
  lemma BaseFailureFails(name: string, title: string, disp: bool, contact: string, self: Option<nat>, rows: seq<Row>)
    requires BaseErrors(name, title, self, rows) != []
    ensures Errors(name, title, disp, contact, self, rows) == BaseErrors(name, title, self, rows)
    ensures !Admissible(name, title, disp, contact, self, rows)
  {
  }

  /** A displayed officer without contact fails with exactly one error, on contact. */
  lemma DisplayedNeedsContact(name: string, title: string, self: Option<nat>, rows: seq<Row>)
    requires BaseErrors(name, title, self, rows) == []
    ensures Errors(name, title, true, "", self, rows) == [Error(Contact, BlankAndDisplayed)]
  {
  }

  /** A hidden officer's contact plays no part in validation. */
  lemma HiddenContactIrrelevant(name: string, title: string, contact: string, self: Option<nat>, rows: seq<Row>)
    ensures Errors(name, title, false, contact, self, rows) == BaseErrors(name, title, self, rows)
    ensures Admissible(name, title, false, contact, self, rows) == Admissible(name, title, false, "", self, rows)
  {
  }

  /** "President" cannot be created while "president" is stored: the name is taken. */
  lemma NameUniquenessIgnoresCase(stored: Row)
    requires stored.name == "president"
    ensures NameTaken("President", None, [stored])
    ensures Error(Name, AlreadyTaken) in Errors("President", "Chair", false, "", None, [stored])
  {
    assert Lower("President") == "president";
    assert IsOther([stored][0], None) && EqualIgnoringCase([stored][0].name, "President");
  }

  /** Two tables that agree on ids, names and titles row by row. */
  ghost predicate SameKeys(a: seq<Row>, b: seq<Row>) {
    |a| == |b| && forall j | 0 <= j < |a| ::
      a[j].id == b[j].id && a[j].name == b[j].name && a[j].title == b[j].title
  }

  /** Validation only looks at ids, names and titles of the other rows. */
  lemma ErrorsSameKeys(name: string, title: string, disp: bool, contact: string, self: Option<nat>, a: seq<Row>, b: seq<Row>)
    requires SameKeys(a, b)
    ensures Errors(name, title, disp, contact, self, a) == Errors(name, title, disp, contact, self, b)
  {
    assert NameTaken(name, self, a) == NameTaken(name, self, b) by {
      if NameTaken(name, self, a) {
        var i :| 0 <= i < |a| && IsOther(a[i], self) && EqualIgnoringCase(a[i].name, name);
        assert IsOther(b[i], self) && EqualIgnoringCase(b[i].name, name);
      }
      if NameTaken(name, self, b) {
        var i :| 0 <= i < |b| && IsOther(b[i], self) && EqualIgnoringCase(b[i].name, name);
        assert IsOther(a[i], self) && EqualIgnoringCase(a[i].name, name);
      }
    }
    assert TitleTaken(title, self, a) == TitleTaken(title, self, b) by {
      if TitleTaken(title, self, a) {
        var i :| 0 <= i < |a| && IsOther(a[i], self) && EqualIgnoringCase(a[i].title, title);
        assert IsOther(b[i], self) && EqualIgnoringCase(b[i].title, title);
      }
      if TitleTaken(title, self, b) {
        var i :| 0 <= i < |b| && IsOther(b[i], self) && EqualIgnoringCase(b[i].title, title);
        assert IsOther(a[i], self) && EqualIgnoringCase(a[i].title, title);
      }
    }
  }

  /**
   * Saving a valid new version of row `k` that keeps its id, name and title
   * keeps the whole table consistent.
   */
  lemma SavePreservesConsistency(rows: seq<Row>, k: nat, r: Row)
    requires Consistent(rows)
    requires k < |rows| && r.id == rows[k].id && r.name == rows[k].name && r.title == rows[k].title
    requires RowAdmissible(r, rows)
    ensures Consistent(rows[k := r])
  {
    var next := rows[k := r];
    assert SameKeys(rows, next);
    forall j | 0 <= j < |next| ensures RowAdmissible(next[j], next) {
      var o := next[j];
      assert RowAdmissible(o, rows);
      ErrorsSameKeys(o.name, o.title, o.disp, o.contact, Some(o.id), rows, next);
    }
  }

  /**
   * In a consistent table, a new version of row `k` that keeps its id, name,
   * title and contact is refused exactly when it is displayed with an empty contact.
   */
  lemma ConsistentRefusal(rows: seq<Row>, k: nat, r: Row)
    requires Consistent(rows)
    requires k < |rows| && r.id == rows[k].id && r.name == rows[k].name && r.title == rows[k].title
    requires r.contact == rows[k].contact
    ensures RowAdmissible(r, rows) <==> !(r.disp && r.contact == "")
  {
    assert RowAdmissible(rows[k], rows);
  }

  /** In a consistent table no two rows share a name. */
  lemma {:induction false} ConsistentDistinctNames(rows: seq<Row>)
    requires Consistent(rows)
    ensures forall i, j | 0 <= i < j < |rows| :: rows[i].name != rows[j].name
  {
    forall i, j | 0 <= i < j < |rows| ensures rows[i].name != rows[j].name {
      assert RowAdmissible(rows[i], rows);
      assert IsOther(rows[j], Some(rows[i].id));
      assert !EqualIgnoringCase(rows[j].name, rows[i].name);
    }
  }
}

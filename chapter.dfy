/**
 * `Chapter::Officer`: the officer record (built by `initialize`, checked by
 * `valid?`) and the officers table with its class methods `contact_info`,
 * `list_all`, `mass_update` and `update_contacts`.
 */
module Chapter {
  import opened Wrappers
  import opened Text
  import opened Records
  import opened Ordering
  import opened Validation
  import opened Views
  import opened Batches

  /** The stored officers, as the class methods see them. */
  class OfficerTable {
    var rows: seq<Row>

    ghost predicate Valid()
      reads this
    {
      DistinctIds(rows)
    }

    constructor (stored: seq<Row>)
      requires DistinctIds(stored)
      ensures Valid() && rows == stored
    {
      rows := stored;
    }

    /**
     * `update_attributes` on the row at `k`: the new version is saved when it
     * passes `valid?` against the table, and the table is left as it was otherwise.
     */
    method Save(k: nat, updated: Row) returns (saved: bool)
      requires Valid()
      requires k < |rows| && updated.id == rows[k].id
      modifies this
      ensures Valid()
      ensures saved == RowAdmissible(updated, old(rows))
      ensures rows == if saved then old(rows)[k := updated] else old(rows)
    {
      saved := RowAdmissible(updated, rows);
      if saved {
        rows := rows[k := updated];
      }
    }

    /**
     * `contact_info`: the displayed officers with a `dke_info`, by position,
     * keyed by name.
     */
    method ContactInfo(dir: Directory) returns (officers: Hash<ContactEntry>)
      requires DisplayedChainsIntact(rows, dir)
      ensures officers == ContactInfoOf(rows, dir)
    {
      officers := [];
      var positionMap := ContactRows(rows);
      ContactRowsIntact(rows, dir);
      var i := 0;
      while i < |positionMap|
        invariant 0 <= i <= |positionMap|
        invariant ChainsIntact(positionMap[i..], dir)
        invariant FillContacts([], positionMap, dir) == FillContacts(officers, positionMap[i..], dir)
      {
        var pos := positionMap[i];
        ghost var before := officers;
        FillContactsStep(officers, positionMap, i, dir);
        if HasDkeInfo(pos, dir) {
          var member := dir[pos.dkeInfoId.value].value;
          var name := member.fullName;
          var year := YearSuffix(member.classYear.value);
          var email;
          if IsBlank(pos.email) {
            email := member.uname.value + "@mit.edu";
          } else {
            email := pos.email;
          }
          officers := Put(officers, pos.name, ContactEntry(pos.title, name, year, pos.contact, email));
        }
        assert officers == AddContact(before, pos, dir);
        i := i + 1;
      }
    }

    /**
     * `list_all`: one entry per officer by position, blank name and year
     * where the member cannot be reached.
     */
    method ListAll(dir: Directory) returns (officers: seq<ListEntry>)
      ensures officers == Listing(ByPosition(rows), dir)
      ensures |officers| == |rows|
      ensures forall i, j | 0 <= i < j < |officers| :: officers[i].pos <= officers[j].pos
      ensures forall k | 0 <= k < |rows| :: ListEntryOf(rows[k], dir) in officers
    {
      officers := [];
      var positionMap := ByPosition(rows);
      for i := 0 to |positionMap|
        invariant |officers| == i
        invariant forall k | 0 <= k < i :: officers[k] == ListEntryOf(positionMap[k], dir)
      {
        var pos := positionMap[i];
        var name, year;
        match MemberOf(pos, dir) {
          case Some(member) =>
            if member.classYear.Some? {
              name, year := member.fullName, YearSuffix(member.classYear.value);
            } else {
              name, year := "", Some("");
            }
          case None =>
            name, year := "", Some("");
        }
        officers := officers + [ListEntry(pos.id, pos.name, pos.title, name, year, pos.position, pos.disp, pos.contact)];
      }
      ListAllOrdered(rows, dir);
      ListAllCovers(rows, dir);
    }

    /**
     * `mass_update`: give each officer the hash names its new member; a
     * refused save is passed over, an unknown id ends the batch.
     */
    method MassUpdate(params: seq<(nat, Option<nat>)>) returns (outcome: Outcome)
      requires Valid()
      modifies this
      ensures Valid()
      ensures Run(rows, outcome) == MassRun(old(rows), params)
      ensures SameExceptMember(old(rows), rows)
      ensures forall j | 0 <= j < |rows| && !Named(params, old(rows)[j].id) :: rows[j] == old(rows)[j]
    {
      outcome := Completed;
      var i := 0;
      while i < |params|
        invariant 0 <= i <= |params|
        invariant Valid()
        invariant MassRun(old(rows), params) == MassRun(rows, params[i..])
      {
        var (id, dkeInfoId) := params[i];
        assert params[i..][0] == params[i] && params[i..][1..] == params[i + 1..];
        match Find(rows, id) {
          case None =>
            outcome := Stopped(NotFound(id));
            break;
          case Some(k) =>
            var _ := Save(k, rows[k].(dkeInfoId := dkeInfoId));
        }
        i := i + 1;
      }
      MassUpdateFrame(old(rows), params);
    }

    /**
     * `update_contacts`: apply each digit-keyed entry's `disp` and `position`;
     * answer false (Refused) at the first refused save, keeping the saves before it.
     */
    method UpdateContacts(params: seq<(string, Patch)>) returns (outcome: Outcome)
      requires Valid()
      modifies this
      ensures Valid()
      ensures Run(rows, outcome) == ContactsRun(old(rows), params)
      ensures SameExceptDisplay(old(rows), rows)
      ensures forall j | 0 <= j < |rows| && (forall i | 0 <= i < |params| :: !Targets(params[i], old(rows)[j].id)) ::
        rows[j] == old(rows)[j]
    {
      outcome := Completed;
      var i := 0;
      while i < |params|
        invariant 0 <= i <= |params|
        invariant Valid()
        invariant ContactsRun(old(rows), params) == ContactsRun(rows, params[i..])
      {
        var (key, fields) := params[i];
        if IsDigits(key) {
          var id := DecimalValue(key);
          match Find(rows, id) {
            case None =>
              ContactsRunNotFound(rows, params, i);
              outcome := Stopped(NotFound(id));
              break;
            case Some(k) =>
              ghost var before := rows;
              var saved := Save(k, Patched(rows[k], fields));
              if !saved {
                ContactsRunRefused(before, params, i, k);
                outcome := Stopped(Refused(id));
                break;
              }
              ContactsRunSaved(before, params, i, k);
          }
        } else {
          ContactsRunSkip(rows, params, i);
        }
        i := i + 1;
      }
      ContactsFrame(old(rows), params);
    }
  }

  /** A `Chapter::Officer` record in memory, before or after it is stored. */
  class Officer {
    var id: Option<nat>
    var name: string
    var title: string
    var position: int
    var contact: string
    var email: string
    var disp: bool
    var dkeInfoId: Option<nat>
    var errors: seq<Error>

    /**
     * `initialize(params, transfer)`: take the attributes; unless transferred,
     * place the officer after every officer already in the table.
     */
    constructor (params: Attributes, transfer: bool, table: OfficerTable)
      requires transfer || |table.rows| > 0
      ensures id == None && errors == []
      ensures name == params.name && title == params.title && contact == params.contact
      ensures email == params.email && disp == params.disp && dkeInfoId == params.dkeInfoId
      ensures transfer ==> position == params.position
      ensures !transfer ==> forall i | 0 <= i < |table.rows| :: table.rows[i].position < position
      ensures !transfer ==> exists i | 0 <= i < |table.rows| :: position == table.rows[i].position + 1
    {
      id := None;
      name, title, position := params.name, params.title, params.position;
      contact, email, disp, dkeInfoId := params.contact, params.email, params.disp, params.dkeInfoId;
      errors := [];
      if !transfer {
        position := NextPosition(table.rows);
      }
    }

    /**
     * `valid?`: the declared validations, then the displayed-needs-contact
     * rule; `errors` ends with what failed.
     */
    method IsValid(table: OfficerTable) returns (valid: bool)
      modifies this`errors
      ensures errors == Errors(name, title, disp, contact, id, table.rows)
      ensures valid <==> Admissible(name, title, disp, contact, id, table.rows)
    {
      errors := BaseErrors(name, title, id, table.rows);
      if errors == [] {
        if disp && contact == "" {
          errors := errors + [Error(Contact, BlankAndDisplayed)];
          valid := false;
        } else {
          valid := true;
        }
      } else {
        valid := false;
      }
    }
  }
}

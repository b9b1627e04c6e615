/**
 * The rows of the officers table, the member records an officer's
 * `dke_info` association leads to, and the table lookups ActiveRecord
 * performs for the model: `find` by id and `maximum("position")`.
 */
module Records {
  import opened Wrappers

  /** One stored officer row (columns id, name, title, position, contact, email, disp, dke_info_id). */
  datatype Row = Row(
    id: nat,
    name: string,
    title: string,
    position: int,
    contact: string,
    email: string,
    disp: bool,
    dkeInfoId: Option<nat>)

  /** The attribute hash given to `Chapter::Officer.new`. */
  datatype Attributes = Attributes(
    name: string,
    title: string,
    position: int,
    contact: string,
    email: string,
    disp: bool,
    dkeInfoId: Option<nat>)

  /**
   * The brother a `dke_info` record leads to: his `full_name`, the text of
   * `mit_info.year` (None when `mit_info` is nil; a nil year reads as "")
   * and `user.uname` (None when `user` is nil). Each part is looked up on
   * its own, so a missing user leaves the name and year readable.
   */
  datatype Member = Member(fullName: string, classYear: Option<string>, uname: Option<string>)

  /**
   * The `dke_info` records by id. A missing key is a reference that does not
   * resolve (`pos.dke_info` is nil); a key mapped to None is a `dke_info`
   * record whose brother is nil.
   */
  type Directory = map<nat, Option<Member>>

  /** `pos.dke_info` is present. */
  predicate HasDkeInfo(o: Row, dir: Directory) {
    o.dkeInfoId.Some? && o.dkeInfoId.value in dir
  }

  /** The brother behind an officer, when `dke_info` and its `brother` are present. */
  function MemberOf(o: Row, dir: Directory): Option<Member> {
    if HasDkeInfo(o, dir) then dir[o.dkeInfoId.value] else None
  }

  function NameOf(o: Row): string { o.name }

  function IdOf(o: Row): nat { o.id }

  /**
   * Primary keys are unique, stated pairwise by index as callers use it.
   * `Ordering.DistinctBy` is the recursive form that lemmas about sorting
   * and filtering carry through by induction; `Ordering.DistinctByIndex`
   * proves the two forms agree.
   */
  ghost predicate DistinctIds(rows: seq<Row>) {
    forall i, j | 0 <= i < j < |rows| :: rows[i].id != rows[j].id
  }

  /** `find(id)`: the index of the row with that id, None where `find` raises RecordNotFound. */
  function Find(rows: seq<Row>, id: nat): (r: Option<nat>)
    ensures r.Some? ==> r.value < |rows| && rows[r.value].id == id
    ensures r.None? <==> forall i | 0 <= i < |rows| :: rows[i].id != id
  {
    if rows == [] then None
    else if rows[0].id == id then Some(0)
    else match Find(rows[1..], id)
      case None => None
      case Some(k) => Some(k + 1)
  }

  /** Find answers alike on two tables with the same ids at the same places. */
  lemma FindSameIds(a: seq<Row>, b: seq<Row>, id: nat)
    requires |a| == |b| && forall j | 0 <= j < |a| :: a[j].id == b[j].id
    ensures Find(a, id) == Find(b, id)
  {
    if a != [] {
      FindSameIds(a[1..], b[1..], id);
    }
  }

  /** With unique ids, the row find returns is the only one with that id. */
  lemma FindUnique(rows: seq<Row>, id: nat, j: nat)
    requires DistinctIds(rows)
    requires j < |rows| && rows[j].id == id
    ensures Find(rows, id) == Some(j)
  {
  }

  /** `maximum("position")` over a non-empty table: the largest position, attained by some row. */
  function MaxPosition(rows: seq<Row>): (m: int)
    requires |rows| > 0
    ensures forall i | 0 <= i < |rows| :: rows[i].position <= m
    ensures exists i | 0 <= i < |rows| :: rows[i].position == m
  {
    if |rows| == 1 then rows[0].position
    else
      var rest := MaxPosition(rows[1..]);
      if rows[0].position >= rest then rows[0].position else rest
  }

  /** The position `initialize` gives a new, non-transferred officer: after every existing one. */
  function NextPosition(rows: seq<Row>): (p: int)
    requires |rows| > 0
    ensures forall i | 0 <= i < |rows| :: rows[i].position < p
    ensures exists i | 0 <= i < |rows| :: p == rows[i].position + 1
  {
    MaxPosition(rows) + 1
  }
}

/**
 * The two read views of the officer table: `contact_info`, the public
 * contact list keyed by officer name, and `list_all`, the index-page listing.
 */
module Views {
  import opened Wrappers
  import opened Text
  import opened Records
  import opened Ordering
  import opened Validation

  /** The hash `contact_info` stores under an officer's name. */
  datatype ContactEntry = ContactEntry(
    name: string,
    fullName: string,
    year: Option<string>,
    contact: string,
    email: string)

  /** The hash `list_all` appends for each officer. */
  datatype ListEntry = ListEntry(
    id: nat,
    name: string,
    title: string,
    fullName: string,
    year: Option<string>,
    pos: int,
    disp: bool,
    contact: string)

  /** A Ruby Hash with string keys: its pairs in insertion order. */
  type Hash<V> = seq<(string, V)>

  /** The keys of `h`; `Ordering.KeySet` plays this part for rows. */
  ghost function Keys<V>(h: Hash<V>): set<string> {
    if h == [] then {} else {h[0].0} + Keys(h[1..])
  }

  /** `h[k]`: the value stored under `k`, if any. */
  function Get<V>(h: Hash<V>, k: string): Option<V> {
    if h == [] then None else if h[0].0 == k then Some(h[0].1) else Get(h[1..], k)
  }

  /**
   * `h[k] = v`: a key already present keeps its place and takes the new
   * value; a new key goes at the end.
   */
  function Put<V>(h: Hash<V>, k: string, v: V): (r: Hash<V>)
    ensures Keys(r) == Keys(h) + {k}
    ensures k !in Keys(h) ==> r == h + [(k, v)]
    ensures |r| == if k in Keys(h) then |h| else |h| + 1
    ensures Get(r, k) == Some(v)
    ensures forall k' | k' != k :: Get(r, k') == Get(h, k')
  {
    if h == [] then [(k, v)]
    else if h[0].0 == k then [(k, v)] + h[1..]
    else
      var tail := Put(h[1..], k, v);
      assert ([h[0]] + tail)[1..] == tail;
      assert h == [h[0]] + h[1..];
      [h[0]] + tail
  }

  /**
   * `contact_info` reads the MIT record always and the user only when the
   * officer's own e-mail is blank.
   */
  predicate EntryReady(o: Row, m: Member) {
    m.classYear.Some? && (IsBlank(o.email) ==> m.uname.Some?)
  }

  /** The address `contact_info` shows: the stored one unless blank, else `<uname>@mit.edu`. */
  function EmailFor(email: string, uname: Option<string>): string
    requires IsBlank(email) ==> uname.Some?
  {
    if IsBlank(email) then uname.value + "@mit.edu" else email
  }

  function ContactEntryOf(o: Row, m: Member): ContactEntry
    requires EntryReady(o, m)
  {
    ContactEntry(o.title, m.fullName, YearSuffix(m.classYear.value), o.contact, EmailFor(o.email, m.uname))
  }

  /**
   * `contact_info` handles `o` without raising: it has no `dke_info`, or
   * its brother is there and the parts its entry reads are there.
   */
  predicate Resolves(o: Row, dir: Directory) {
    HasDkeInfo(o, dir) ==> dir[o.dkeInfoId.value].Some? && EntryReady(o, dir[o.dkeInfoId.value].value)
  }

  /** Every officer of `s` resolves. */
  ghost predicate ChainsIntact(s: seq<Row>, dir: Directory) {
    forall o | o in s :: Resolves(o, dir)
  }

  /** `ChainsIntact` for the rows `contact_info` visits: the displayed ones. */
  ghost predicate DisplayedChainsIntact(rows: seq<Row>, dir: Directory) {
    forall o | o in rows && o.disp :: Resolves(o, dir)
  }

  /** One turn of the `contact_info` loop: officers without `dke_info` are passed over. */
  function AddContact(h: Hash<ContactEntry>, o: Row, dir: Directory): Hash<ContactEntry>
    requires Resolves(o, dir)
  {
    if HasDkeInfo(o, dir) then Put(h, o.name, ContactEntryOf(o, dir[o.dkeInfoId.value].value)) else h
  }

  /** The `contact_info` loop run over `s`, starting from `h`. */
  function FillContacts(h: Hash<ContactEntry>, s: seq<Row>, dir: Directory): Hash<ContactEntry>
    requires ChainsIntact(s, dir)
    decreases |s|
  {
    if s == [] then h
    else
      assert s[0] in s;
      FillContacts(AddContact(h, s[0], dir), s[1..], dir)
  }

  /** `where(disp: 1).order(:position)`. */
  function ContactRows(rows: seq<Row>): seq<Row> {
    ByPosition(Displayed(rows))
  }

  /** The rows `contact_info` visits are the displayed ones. */
  lemma ContactRowsMembers(rows: seq<Row>)
    ensures forall x :: x in ContactRows(rows) <==> x in rows && x.disp
  {
    var d := Displayed(rows);
    var r := ByPosition(d);
    forall x ensures x in r <==> x in d {
      assert x in r <==> x in multiset(r);
      assert x in d <==> x in multiset(d);
    }
  }

  lemma ContactRowsIntact(rows: seq<Row>, dir: Directory)
    requires DisplayedChainsIntact(rows, dir)
    ensures ChainsIntact(ContactRows(rows), dir)
  {
    ContactRowsMembers(rows);
  }

  /** What `contact_info` returns for the table `rows`. */
  function ContactInfoOf(rows: seq<Row>, dir: Directory): Hash<ContactEntry>
    requires DisplayedChainsIntact(rows, dir)
  {
    ContactRowsIntact(rows, dir);
    FillContacts([], ContactRows(rows), dir)
  }

  /** The officers of `s` that `contact_info` keeps, in the order of `s`. */
  function Selected(s: seq<Row>, dir: Directory): (r: seq<Row>)
    ensures forall x :: x in r <==> x in s && HasDkeInfo(x, dir)
    ensures SortedByPosition(s) ==> SortedByPosition(r)
  {
    if s == [] then []
    else
      var tail := Selected(s[1..], dir);
      assert s == [s[0]] + s[1..];
      if HasDkeInfo(s[0], dir) then
        assert ([s[0]] + tail)[1..] == tail;
        assert SortedByPosition(s) ==> SortedByPosition([s[0]] + tail) by {
          if SortedByPosition(s) {
            forall j | 0 <= j < |tail| ensures s[0].position <= tail[j].position {
              assert tail[j] in s[1..];
            }
          }
        }
        [s[0]] + tail
      else tail
  }

  /** `Selected` keeps the order of `s`: it filters each part of `s` on its own. */
  lemma {:induction false} SelectedAppend(a: seq<Row>, b: seq<Row>, dir: Directory)
    ensures Selected(a + b, dir) == Selected(a, dir) + Selected(b, dir)
    decreases |a|
  {
    if a == [] {
      assert a + b == b;
    } else {
      assert (a + b)[0] == a[0] && (a + b)[1..] == a[1..] + b;
      SelectedAppend(a[1..], b, dir);
    }
  }

  /** `Selected` keeps every occurrence of an officer with a `dke_info` and no other. */
  lemma {:induction false} SelectedCounts(s: seq<Row>, dir: Directory, x: Row)
    ensures multiset(Selected(s, dir))[x] == if HasDkeInfo(x, dir) then multiset(s)[x] else 0
  {
    if s != [] {
      SelectedCounts(s[1..], dir, x);
      assert s == [s[0]] + s[1..];
      var tail := Selected(s[1..], dir);
      if HasDkeInfo(s[0], dir) {
        assert multiset([s[0]] + tail) == multiset{s[0]} + multiset(tail);
      }
    }
  }

  /** Officers with distinct keys stay distinct once filtered. */
  lemma {:induction false} SelectedDistinct<K>(s: seq<Row>, dir: Directory, f: Row -> K)
    ensures KeySet(Selected(s, dir), f) <= KeySet(s, f)
    ensures DistinctBy(s, f) ==> DistinctBy(Selected(s, dir), f)
  {
    if s != [] {
      SelectedDistinct(s[1..], dir, f);
      var tail := Selected(s[1..], dir);
      if HasDkeInfo(s[0], dir) {
        assert ([s[0]] + tail)[1..] == tail;
      }
    }
  }

  /** The pairs `contact_info` stores for the officers `s`, one per officer. */
  function Entries(s: seq<Row>, dir: Directory): (r: Hash<ContactEntry>)
    requires ChainsIntact(s, dir)
    requires forall o | o in s :: HasDkeInfo(o, dir)
    ensures |r| == |s|
    ensures forall i | 0 <= i < |s| ::
      assert s[i] in s; r[i] == (s[i].name, ContactEntryOf(s[i], dir[s[i].dkeInfoId.value].value))
  {
    if s == [] then []
    else
      assert s[0] in s;
      assert forall o | o in s[1..] :: o in s;
      [(s[0].name, ContactEntryOf(s[0], dir[s[0].dkeInfoId.value].value))] + Entries(s[1..], dir)
  }

  lemma AppendAssociates<T>(a: seq<T>, b: seq<T>, c: seq<T>)
    ensures (a + b) + c == a + (b + c)
  {
  }

  lemma FillContactsStep(h: Hash<ContactEntry>, s: seq<Row>, i: nat, dir: Directory)
    requires i < |s| && ChainsIntact(s[i..], dir)
    ensures ChainsIntact(s[i + 1..], dir)
    ensures Resolves(s[i], dir)
    ensures FillContacts(h, s[i..], dir) == FillContacts(AddContact(h, s[i], dir), s[i + 1..], dir)
  {
    assert s[i..][0] == s[i] && s[i..][1..] == s[i + 1..];
    assert s[i] in s[i..];
  }

  /** The keys `contact_info` ends with are those it had plus the names of the officers it keeps. */
  lemma {:induction false} FillContactsKeys(h: Hash<ContactEntry>, s: seq<Row>, dir: Directory)
    requires ChainsIntact(s, dir)
    decreases |s|
    ensures Keys(FillContacts(h, s, dir)) == Keys(h) + KeySet(Selected(s, dir), NameOf)
  {
    if s != [] {
      assert s[0] in s;
      var h' := AddContact(h, s[0], dir);
      assert ChainsIntact(s[1..], dir);
      FillContactsKeys(h', s[1..], dir);
      var tail := Selected(s[1..], dir);
      if HasDkeInfo(s[0], dir) {
        assert ([s[0]] + tail)[1..] == tail;
      }
    }
  }

  /**
   * With distinct names and no key already present, the loop appends one
   * pair per kept officer, in the order of `s`.
   */
  lemma {:induction false} FillContactsAppends(h: Hash<ContactEntry>, s: seq<Row>, dir: Directory)
    requires ChainsIntact(s, dir)
    requires DistinctBy(s, NameOf)
    requires Keys(h) !! KeySet(s, NameOf)
    ensures FillContacts(h, s, dir) == h + Entries(Selected(s, dir), dir)
    decreases |s|
  {
    if s != [] {
      assert s[0] in s;
      assert ChainsIntact(s[1..], dir);
      var h' := AddContact(h, s[0], dir);
      var tail := Selected(s[1..], dir);
      assert KeySet(s, NameOf) == {s[0].name} + KeySet(s[1..], NameOf);
      if HasDkeInfo(s[0], dir) {
        var e := (s[0].name, ContactEntryOf(s[0], dir[s[0].dkeInfoId.value].value));
        assert h' == h + [e];
        assert Keys(h') == Keys(h) + {s[0].name};
        FillContactsAppends(h', s[1..], dir);
        assert Selected(s, dir) == [s[0]] + tail;
        assert Entries([s[0]] + tail, dir) == [e] + Entries(tail, dir) by {
          assert ([s[0]] + tail)[1..] == tail;
        }
        AppendAssociates(h, [e], Entries(tail, dir));
      } else {
        FillContactsAppends(h', s[1..], dir);
      }
    }
  }

  /** The officers `contact_info` lists, in the order it lists them. */
  function ContactOfficers(rows: seq<Row>, dir: Directory): seq<Row> {
    Selected(ContactRows(rows), dir)
  }

  /**
   * The keys of `contact_info` are exactly the names of the displayed
   * officers whose `dke_info` is present.
   */
  lemma ContactInfoKeys(rows: seq<Row>, dir: Directory)
    requires DisplayedChainsIntact(rows, dir)
    ensures Keys(ContactInfoOf(rows, dir)) ==
      set o | o in rows && o.disp && HasDkeInfo(o, dir) :: o.name
  {
    var s := ContactRows(rows);
    ContactRowsIntact(rows, dir);
    ContactRowsMembers(rows);
    FillContactsKeys([], s, dir);
    KeySetMembers(Selected(s, dir), NameOf);
  }

  /**
   * On a consistent table, `contact_info` holds one pair per displayed officer
   * with a `dke_info`, in ascending position, keyed by the officer's name
   * (no name twice) and carrying its title, contact, the brother's name and
   * year and the e-mail.
   */
  lemma ContactInfoListing(rows: seq<Row>, dir: Directory)
    requires Consistent(rows)
    requires DisplayedChainsIntact(rows, dir)
    ensures var officers := ContactOfficers(rows, dir);
      && SortedByPosition(officers)
      && (forall o :: o in officers <==> o in rows && o.disp && HasDkeInfo(o, dir))
      && (forall i, j | 0 <= i < j < |officers| :: officers[i].name != officers[j].name)
      && ChainsIntact(officers, dir)
      && ContactInfoOf(rows, dir) == Entries(officers, dir)
  {
    ConsistentDistinctNames(rows);
    DistinctByIndex(rows, NameOf);
    DisplayedKeys(rows, NameOf);
    ByPositionKeys(Displayed(rows), NameOf);
    ContactRowsIntact(rows, dir);
    ContactRowsMembers(rows);
    FillContactsAppends([], ContactRows(rows), dir);
    SelectedDistinct(ContactRows(rows), dir, NameOf);
    DistinctByIndex(ContactOfficers(rows, dir), NameOf);
  }

  /** An e-mail stored for the officer is shown as is; a blank one gives way to the member's address. */
  lemma ContactEmail(o: Row, m: Member)
    requires EntryReady(o, m)
    ensures !IsBlank(o.email) ==> ContactEntryOf(o, m).email == o.email
    ensures IsBlank(o.email) ==> ContactEntryOf(o, m).email == m.uname.value + "@mit.edu"
    ensures ContactEntryOf(o, m).year == YearSuffix(m.classYear.value)
    ensures ContactEntryOf(o, m).name == o.title && ContactEntryOf(o, m).contact == o.contact
    ensures ContactEntryOf(o, m).fullName == m.fullName
  {
  }

  /** With an e-mail stored, the officer's entry does not depend on the brother's user at all. */
  lemma StoredEmailNeedsNoUser(o: Row, m: Member, u: Option<string>)
    requires !IsBlank(o.email) && m.classYear.Some?
    ensures EntryReady(o, m) && EntryReady(o, m.(uname := u))
    ensures ContactEntryOf(o, m.(uname := u)) == ContactEntryOf(o, m)
  {
  }

  /** One `list_all` entry; a member that cannot be reached leaves name and year blank. */
  function ListEntryOf(o: Row, dir: Directory): ListEntry {
    match MemberOf(o, dir)
    case Some(m) =>
      if m.classYear.Some? then ListEntry(o.id, o.name, o.title, m.fullName, YearSuffix(m.classYear.value), o.position, o.disp, o.contact)
      else ListEntry(o.id, o.name, o.title, "", Some(""), o.position, o.disp, o.contact)
    case None => ListEntry(o.id, o.name, o.title, "", Some(""), o.position, o.disp, o.contact)
  }

  /** The entries `list_all` builds for the rows `s`, in order. */
  function Listing(s: seq<Row>, dir: Directory): (l: seq<ListEntry>)
    ensures |l| == |s|
  {
    seq(|s|, i requires 0 <= i < |s| => ListEntryOf(s[i], dir))
  }

  /** Entry `i` of a listing is built from row `i` alone. */
  lemma ListingAt(s: seq<Row>, dir: Directory, i: nat)
    requires i < |s|
    ensures Listing(s, dir)[i] == ListEntryOf(s[i], dir)
    ensures Listing(s, dir)[i].id == s[i].id && Listing(s, dir)[i].pos == s[i].position
  {
  }

  /** `list_all` lists officers in ascending position. */
  lemma ListAllOrdered(rows: seq<Row>, dir: Directory)
    ensures var l := Listing(ByPosition(rows), dir);
      |l| == |rows| && forall i, j | 0 <= i < j < |l| :: l[i].pos <= l[j].pos
  {
    var s := ByPosition(rows);
    var l := Listing(s, dir);
    forall i | 0 <= i < |l| ensures l[i].pos == s[i].position {
      ListingAt(s, dir, i);
    }
  }

  /** No officer is listed twice. */
  lemma ListAllDistinct(rows: seq<Row>, dir: Directory)
    requires DistinctIds(rows)
    ensures var l := Listing(ByPosition(rows), dir);
      forall i, j | 0 <= i < j < |l| :: l[i].id != l[j].id
  {
    var s := ByPosition(rows);
    DistinctByIndex(rows, IdOf);
    ByPositionKeys(rows, IdOf);
    assert DistinctBy(s, IdOf);
    DistinctByIndex(s, IdOf);
    var l := Listing(s, dir);
    forall i, j | 0 <= i < j < |l| ensures l[i].id != l[j].id {
      ListingAt(s, dir, i);
      ListingAt(s, dir, j);
      assert IdOf(s[i]) != IdOf(s[j]);
    }
  }

  /** Every officer is listed, whatever its `disp`. */
  lemma ListAllCovers(rows: seq<Row>, dir: Directory)
    ensures var l := Listing(ByPosition(rows), dir);
      forall k | 0 <= k < |rows| :: ListEntryOf(rows[k], dir) in l
  {
    var s := ByPosition(rows);
    var l := Listing(s, dir);
    forall k | 0 <= k < |rows| ensures ListEntryOf(rows[k], dir) in l {
      assert rows[k] in multiset(s);
      var i :| 0 <= i < |s| && s[i] == rows[k];
      ListingAt(s, dir, i);
      assert l[i] == ListEntryOf(rows[k], dir);
    }
  }

  /** Every entry is the listing of some officer of the table. */
  lemma ListAllFromTable(rows: seq<Row>, dir: Directory)
    ensures var l := Listing(ByPosition(rows), dir);
      forall i | 0 <= i < |l| :: exists k | 0 <= k < |rows| :: l[i] == ListEntryOf(rows[k], dir)
  {
    var s := ByPosition(rows);
    var l := Listing(s, dir);
    forall i | 0 <= i < |l| ensures exists k | 0 <= k < |rows| :: l[i] == ListEntryOf(rows[k], dir) {
      assert s[i] in multiset(rows);
      var k :| 0 <= k < |rows| && rows[k] == s[i];
      assert l[i] == ListEntryOf(rows[k], dir);
    }
  }

  /**
   * An officer whose brother or MIT record cannot be reached is listed with
   * blank name and year and its own columns.
   */
  lemma ListEntryFallback(o: Row, dir: Directory)
    requires MemberOf(o, dir).None? || MemberOf(o, dir).value.classYear.None?
    ensures ListEntryOf(o, dir) == ListEntry(o.id, o.name, o.title, "", Some(""), o.position, o.disp, o.contact)
  {
  }

  /** An officer whose brother and MIT record are reached is listed with the brother's name and year. */
  lemma ListEntryResolved(o: Row, dir: Directory)
    requires MemberOf(o, dir).Some? && MemberOf(o, dir).value.classYear.Some?
    ensures var m := MemberOf(o, dir).value;
      ListEntryOf(o, dir) == ListEntry(o.id, o.name, o.title, m.fullName, YearSuffix(m.classYear.value), o.position, o.disp, o.contact)
  {
  }

  /** `list_all` never reads the brother's user: changing it changes no entry. */
  lemma ListEntryIgnoresUser(o: Row, dir: Directory, u: Option<string>)
    requires MemberOf(o, dir).Some?
    ensures ListEntryOf(o, dir[o.dkeInfoId.value := Some(MemberOf(o, dir).value.(uname := u))]) == ListEntryOf(o, dir)
  {
  }
}

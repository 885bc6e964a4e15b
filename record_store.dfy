/** The mutating record handlers: `addRecord`, `checkRecord`, `deleteRecord`,
    `assignRecords` and `deleteUser`. Each reads the whole document, changes its copy
    in memory and writes the copy back whole; the class holds what the blob store
    holds under the key `data`. */
module RecordStore {
  import opened Common
  import opened Http
  import opened Records
  import Accounts

  /* ---------- The document invariant: record ids are unique ---------- */

  /** No id occurs twice in Active, twice in Checked, or in both. */
  predicate WellFormed(db: Db) {
    && (forall i, j :: 0 <= i < j < |db.records| ==> db.records[i].id != db.records[j].id)
    && (forall i, j :: 0 <= i < j < |db.checked| ==>
          db.checked[i].record.id != db.checked[j].record.id)
    && (forall i, j :: 0 <= i < |db.records| && 0 <= j < |db.checked| ==>
          db.records[i].id != db.checked[j].record.id)
  }

  predicate StoredId(db: Db, id: string) {
    || (exists i :: 0 <= i < |db.records| && db.records[i].id == id)
    || (exists j :: 0 <= j < |db.checked| && db.checked[j].record.id == id)
  }

  /** What `uuidv4()` is trusted to give: ids distinct from each other and from every
      stored id. */
  predicate FreshIds(ids: seq<string>, db: Db) {
    && (forall i, j :: 0 <= i < j < |ids| ==> ids[i] != ids[j])
    && (forall i :: 0 <= i < |ids| ==> !StoredId(db, ids[i]))
  }

  /** `r => r.id === id` over Active, and over Checked. */
  function HasId(id: Option<string>): Record -> bool {
    (r: Record) => id == Some(r.id)
  }

  function CheckedHasId(id: Option<string>): CheckedRecord -> bool {
    (c: CheckedRecord) => id == Some(c.record.id)
  }

  /* ---------- addRecord ---------- */

  /** One element of the request body; a field is `None` when it is absent. */
  datatype Item = Item(rawLine: Option<string>, parsedData: Option<map<string, string>>)

  /** The request body: a JSON array, or any single value. */
  datatype Body = One(item: Item) | Many(items: seq<Item>)

  /** `Array.isArray(body) ? body : [body]`. */
  function Items(b: Body): (items: seq<Item>)
    ensures b.One? ==> items == [b.item]
    ensures b.Many? ==> items == b.items
  {
    match b
    case One(it) => [it]
    case Many(its) => its
  }

  /** Items lacking a truthy `rawLine` or any `parsedData` are skipped. */
  predicate ValidItem(it: Item): (b: bool)
    ensures b <==> it.rawLine.Some? && |it.rawLine.value| > 0 && it.parsedData.Some?
  {
    Truthy(it.rawLine) && it.parsedData.Some?
  }

  function NewRecord(it: Item, id: string, owner: string, now: string): (r: Record)
    requires ValidItem(it)
    ensures Some(r.rawLine) == it.rawLine && Some(r.parsedData) == it.parsedData
    ensures r.id == id && r.ownerId == Some(owner) && r.createdAt == now
    ensures r.rawLine != ""
  {
    Record(id, it.rawLine.value, it.parsedData.value, Some(owner), now)
  }

  /** The records `addRecord` creates, in input order: one per valid item, item `i`
      getting the fresh id `ids[i]`, owned by `owner`. */
  function NewRecords(items: seq<Item>, ids: seq<string>, owner: string, now: string): (r: seq<Record>)
    requires |ids| == |items|
    ensures |r| <= |items|
    ensures forall k :: 0 <= k < |r| ==> r[k].ownerId == Some(owner) && r[k].createdAt == now
    decreases |items|
  {
    if items == [] then []
    else
      var n := |items| - 1;
      var init := NewRecords(items[..n], ids[..n], owner, now);
      if ValidItem(items[n]) then init + [NewRecord(items[n], ids[n], owner, now)] else init
  }

  /** Each created record comes from a valid item: it carries that item's `rawLine` and
      `parsedData` and the item's fresh id, and record `k` comes from the `k`-th valid
      item, so the records keep the input order. */
  lemma {:induction false} NewRecordSource(items: seq<Item>, ids: seq<string>, owner: string, now: string,
                                           k: nat) returns (i: nat)
    requires |ids| == |items| && k < |NewRecords(items, ids, owner, now)|
    ensures i < |items| && ValidItem(items[i])
    ensures NewRecords(items, ids, owner, now)[k] == NewRecord(items[i], ids[i], owner, now)
    ensures |Keep(items[..i], ValidItem)| == k
    decreases |items|
  {
    var n := |items| - 1;
    var init := NewRecords(items[..n], ids[..n], owner, now);
    if k < |init| {
      i := NewRecordSource(items[..n], ids[..n], owner, now, k);
      assert items[..n][i] == items[i] && ids[..n][i] == ids[i];
      assert items[..n][..i] == items[..i];
    } else {
      i := n;
      NewRecordsCount(items[..n], ids[..n], owner, now);
    }
  }

  /** As many records are created as there are valid items. */
  lemma {:induction false} NewRecordsCount(items: seq<Item>, ids: seq<string>, owner: string, now: string)
    requires |ids| == |items|
    ensures |NewRecords(items, ids, owner, now)| == |Keep(items, ValidItem)|
    decreases |items|
  {
    if items != [] {
      var n := |items| - 1;
      NewRecordsCount(items[..n], ids[..n], owner, now);
    }
  }

  /** Nothing is created exactly when no item is valid. */
  lemma NoValidItems(items: seq<Item>, ids: seq<string>, owner: string, now: string)
    requires |ids| == |items|
    ensures NewRecords(items, ids, owner, now) == [] <==> forall i :: 0 <= i < |items| ==> !ValidItem(items[i])
  {
    NewRecordsCount(items, ids, owner, now);
    KeepMembers(items, ValidItem);
    if forall i :: 0 <= i < |items| ==> !ValidItem(items[i]) {
      KeepNone(items, ValidItem);
    } else {
      var i :| 0 <= i < |items| && ValidItem(items[i]);
      assert items[i] in Keep(items, ValidItem);
    }
  }

  /** The created records take distinct ids drawn from `ids`. */
  lemma {:induction false} NewRecordIds(items: seq<Item>, ids: seq<string>, owner: string, now: string)
    requires |ids| == |items|
    requires forall i, j :: 0 <= i < j < |ids| ==> ids[i] != ids[j]
    ensures forall k :: 0 <= k < |NewRecords(items, ids, owner, now)| ==>
              NewRecords(items, ids, owner, now)[k].id in ids
    ensures forall k, l :: 0 <= k < l < |NewRecords(items, ids, owner, now)| ==>
              NewRecords(items, ids, owner, now)[k].id != NewRecords(items, ids, owner, now)[l].id
    decreases |items|
  {
    if items != [] {
      var n := |items| - 1;
      var ids' := ids[..n];
      NewRecordIds(items[..n], ids', owner, now);
      var init := NewRecords(items[..n], ids', owner, now);
      var r := NewRecords(items, ids, owner, now);
      assert ids == ids' + [ids[n]];
      assert ids[n] !in ids';
      forall k | 0 <= k < |init| ensures init[k].id in ids && init[k].id != ids[n] {
        assert init[k].id in ids';
      }
      if ValidItem(items[n]) {
        assert r == init + [NewRecord(items[n], ids[n], owner, now)];
        forall k, l | 0 <= k < l < |r| ensures r[k].id != r[l].id {
          if l == |init| {
            assert r[k] == init[k];
            assert r[l].id == ids[n];
          } else {
            assert r[k] == init[k] && r[l] == init[l];
          }
        }
      } else {
        assert r == init;
      }
    }
  }

  /** Appending records with fresh ids keeps every id unique. */
  lemma AddKeepsWellFormed(db: Db, items: seq<Item>, ids: seq<string>, owner: string, now: string)
    requires |ids| == |items|
    requires WellFormed(db) && FreshIds(ids, db)
    ensures WellFormed(db.(records := db.records + NewRecords(items, ids, owner, now)))
  {
    var added := NewRecords(items, ids, owner, now);
    NewRecordIds(items, ids, owner, now);
    var rs := db.records + added;
    forall i, j | 0 <= i < j < |rs| ensures rs[i].id != rs[j].id {
      if i >= |db.records| {
        assert rs[i] == added[i - |db.records|] && rs[j] == added[j - |db.records|];
      } else if j >= |db.records| {
        assert rs[j] == added[j - |db.records|];
        assert rs[j].id in ids;
        var m :| 0 <= m < |ids| && ids[m] == rs[j].id;
        assert !StoredId(db, ids[m]);
      } else {
        assert rs[i] == db.records[i] && rs[j] == db.records[j];
      }
    }
    forall i, j | 0 <= i < |rs| && 0 <= j < |db.checked| ensures rs[i].id != db.checked[j].record.id {
      if i >= |db.records| {
        assert rs[i] == added[i - |db.records|];
        assert rs[i].id in ids;
        var m :| 0 <= m < |ids| && ids[m] == rs[i].id;
        assert !StoredId(db, ids[m]);
      }
    }
  }

  /* ---------- checkRecord and deleteRecord ---------- */

  /** A record as `checkRecord` appends it to Checked. */
  function Stamp(r: Record, now: string, checker: string): (c: CheckedRecord)
    ensures c.record == r
    ensures c.checkedAt == now && c.checkedBy == checker
  {
    CheckedRecord(r, now, checker)
  }

  /** With unique ids, a checked record is no longer in Active: checking it again
      answers 404. */
  lemma CheckTwiceNotFound(rs: seq<Record>, id: string, i: nat)
    requires forall a, b :: 0 <= a < b < |rs| ==> rs[a].id != rs[b].id
    requires i < |rs| && rs[i].id == id
    ensures FirstIndex(RemoveAt(rs, i), HasId(Some(id))).None?
  {
    var rest := RemoveAt(rs, i);
    forall k | 0 <= k < |rest| ensures !HasId(Some(id))(rest[k]) {
      if k < i {
        assert rest[k] == rs[k];
      } else {
        assert rest[k] == rs[k + 1];
      }
    }
  }

  /** The Active record with id `id` goes to Checked: ids stay unique. */
  lemma CheckKeepsWellFormed(db: Db, i: nat, now: string, checker: string)
    requires WellFormed(db) && i < |db.records|
    ensures WellFormed(db.(records := RemoveAt(db.records, i),
                           checked := db.checked + [Stamp(db.records[i], now, checker)]))
  {
    var rs := RemoveAt(db.records, i);
    var cs := db.checked + [Stamp(db.records[i], now, checker)];
    forall a, b | 0 <= a < b < |rs| ensures rs[a].id != rs[b].id {
      var a' := if a < i then a else a + 1;
      var b' := if b < i then b else b + 1;
      assert rs[a] == db.records[a'] && rs[b] == db.records[b'];
    }
    forall a, b | 0 <= a < |rs| && 0 <= b < |cs| ensures rs[a].id != cs[b].record.id {
      var a' := if a < i then a else a + 1;
      assert rs[a] == db.records[a'];
      if b == |db.checked| {
        assert cs[b].record == db.records[i];
      } else {
        assert cs[b] == db.checked[b];
      }
    }
    forall a, b | 0 <= a < b < |cs| ensures cs[a].record.id != cs[b].record.id {
      assert cs[a] == db.checked[a];
      if b == |db.checked| {
        assert cs[b].record == db.records[i];
      } else {
        assert cs[b] == db.checked[b];
      }
    }
  }

  /** Removing one record from either list keeps ids unique. */
  lemma DeleteKeepsWellFormed(db: Db, fromActive: bool, i: nat)
    requires WellFormed(db)
    requires fromActive ==> i < |db.records|
    requires !fromActive ==> i < |db.checked|
    ensures fromActive ==> WellFormed(db.(records := RemoveAt(db.records, i)))
    ensures !fromActive ==> WellFormed(db.(checked := RemoveAt(db.checked, i)))
  {
    if fromActive {
      var rs := RemoveAt(db.records, i);
      forall a, b | 0 <= a < b < |rs| ensures rs[a].id != rs[b].id {
        assert rs[a] == db.records[if a < i then a else a + 1];
        assert rs[b] == db.records[if b < i then b else b + 1];
      }
      forall a, b | 0 <= a < |rs| && 0 <= b < |db.checked| ensures rs[a].id != db.checked[b].record.id {
        assert rs[a] == db.records[if a < i then a else a + 1];
      }
    } else {
      var cs := RemoveAt(db.checked, i);
      forall a, b | 0 <= a < b < |cs| ensures cs[a].record.id != cs[b].record.id {
        assert cs[a] == db.checked[if a < i then a else a + 1];
        assert cs[b] == db.checked[if b < i then b else b + 1];
      }
      forall a, b | 0 <= a < |db.records| && 0 <= b < |cs| ensures db.records[a].id != cs[b].record.id {
        assert cs[b] == db.checked[if b < i then b else b + 1];
      }
    }
  }

  /* ---------- assignRecords and deleteUser: owner rewrites that keep ids ---------- */

  /** `recordIds.includes(record.id) ? {...record, ownerId: targetUserId} : record`. */
  function Reassign(r: Record, ids: seq<string>, target: string): (r': Record)
    ensures r'.id == r.id && r'.rawLine == r.rawLine && r'.parsedData == r.parsedData
    ensures r'.createdAt == r.createdAt
    ensures r'.ownerId == if r.id in ids then Some(target) else r.ownerId
  {
    if r.id in ids then r.(ownerId := Some(target)) else r
  }

  /** `r.ownerId === id ? {...r, ownerId: null} : r`. */
  function Unassign(r: Record, uid: string): (r': Record)
    ensures r'.id == r.id && r'.rawLine == r.rawLine && r'.parsedData == r.parsedData
    ensures r'.createdAt == r.createdAt
    ensures r'.ownerId == if r.ownerId == Some(uid) then None else r.ownerId
  {
    if r.ownerId == Some(uid) then r.(ownerId := None) else r
  }

  /** `db.records.map(...)` of `assignRecords` and of `deleteUser`. */
  function ReassignAll(rs: seq<Record>, ids: seq<string>, target: string): (r: seq<Record>)
    ensures |r| == |rs| && forall k :: 0 <= k < |r| ==> r[k] == Reassign(rs[k], ids, target)
  {
    seq(|rs|, k requires 0 <= k < |rs| => Reassign(rs[k], ids, target))
  }

  function UnassignAll(rs: seq<Record>, uid: string): (r: seq<Record>)
    ensures |r| == |rs| && forall k :: 0 <= k < |r| ==> r[k] == Unassign(rs[k], uid)
  {
    seq(|rs|, k requires 0 <= k < |rs| => Unassign(rs[k], uid))
  }

  /** The callbacks whose hits the two handlers count, and the `users` filter. */
  function InIds(ids: seq<string>): Record -> bool {
    (r: Record) => r.id in ids
  }

  function OwnedBy(uid: string): Record -> bool {
    (r: Record) => r.ownerId == Some(uid)
  }

  function NotUser(uid: string): Accounts.StoredUser -> bool {
    (u: Accounts.StoredUser) => u.id != uid
  }

  /** Rewriting owners record by record keeps the ids, so it keeps them unique. */
  lemma SameIdsKeepWellFormed(db: Db, rs: seq<Record>)
    requires WellFormed(db) && |rs| == |db.records|
    requires forall k :: 0 <= k < |rs| ==> rs[k].id == db.records[k].id
    ensures WellFormed(db.(records := rs))
  {
  }

  /** Of `[id1, id2]`, only `id1` names a stored Active record, once: the update count
      is 1. */
  lemma AssignCountsFoundOnly(a: seq<Record>, r1: Record, b: seq<Record>, id2: string)
    requires forall k :: 0 <= k < |a| ==> a[k].id != r1.id && a[k].id != id2
    requires forall k :: 0 <= k < |b| ==> b[k].id != r1.id && b[k].id != id2
    ensures |Keep(a + [r1] + b, InIds([r1.id, id2]))| == 1
  {
    var f := InIds([r1.id, id2]);
    KeepNone(a, f);
    KeepNone(b, f);
    KeepSnoc([], r1, f);
    assert [] + [r1] == [r1];
    KeepAppend(a, [r1], f);
    assert Keep(a + [r1], f) == [r1];
    KeepAppend(a + [r1], b, f);
  }

  /** After the reassignment, a listing for the target (the target user itself, or an
      admin asking for it) shows the record with `id1` and nothing with `id2`, an id
      that no stored record had. */
  lemma AssignedVisibleToTarget(rs: seq<Record>, k: nat, id2: string, target: string, viewer: Principal)
    requires k < |rs| && forall j :: 0 <= j < |rs| ==> rs[j].id != id2
    requires (!IsAdmin(viewer) && viewer.id == target) ||
             (IsAdmin(viewer) && target != "" && target != "unassigned")
    ensures var after := ReassignAll(rs, [rs[k].id, id2], target);
            var seen := VisibleRecords(viewer, if IsAdmin(viewer) then Some(target) else None, after);
            && rs[k].(ownerId := Some(target)) in seen
            && forall x :: x in seen ==> x.id != id2
  {
    var after := ReassignAll(rs, [rs[k].id, id2], target);
    var t := if IsAdmin(viewer) then Some(target) else None;
    KeepMembers(after, (r: Record) => Visible(viewer, t, r.ownerId));
    assert after[k] == rs[k].(ownerId := Some(target));
    forall x | x in after ensures x.id != id2 {
      var j :| 0 <= j < |after| && after[j] == x;
      assert rs[j].id != id2;
    }
  }

  /** A deleted user's Active records become ownerless: an admin sees them in its
      default view and under `'unassigned'`, and no regular user sees them. */
  lemma UnassignedAfterUserDelete(r: Record, uid: string, admin: Principal, other: Principal)
    requires r.ownerId == Some(uid) && IsAdmin(admin) && !IsAdmin(other)
    ensures Visible(admin, None, Unassign(r, uid).ownerId)
    ensures Visible(admin, Some("unassigned"), Unassign(r, uid).ownerId)
    ensures !Visible(other, None, Unassign(r, uid).ownerId)
  {
  }

  /* ---------- The document store ---------- */

  /** The loop of `addRecord`: each valid item becomes a record pushed onto both the
      stored list and the list of new records. */
  method BuildRecords(stored: seq<Record>, items: seq<Item>, freshIds: seq<string>, owner: string,
                      now: string)
    returns (newRecords: seq<Record>, records: seq<Record>)
    requires |freshIds| == |items|
    ensures newRecords == NewRecords(items, freshIds, owner, now)
    ensures records == stored + newRecords
  {
    newRecords, records := [], stored;
    var i := 0;
    while i < |items|
      invariant 0 <= i <= |items|
      invariant newRecords == NewRecords(items[..i], freshIds[..i], owner, now)
      invariant records == stored + newRecords
    {
      assert items[..i + 1][..i] == items[..i] && freshIds[..i + 1][..i] == freshIds[..i];
      var item := items[i];
      if ValidItem(item) {
        var rec := NewRecord(item, freshIds[i], owner, now);
        newRecords := newRecords + [rec];
        records := records + [rec];
      }
      i := i + 1;
    }
    assert items[..i] == items && freshIds[..i] == freshIds;
  }

  class RecordsBlob {
    /** The `data` blob; `None` while nothing has been written. */
    var blob: Option<Db>

    constructor ()
      ensures blob == None
    {
      blob := None;
    }

    ghost predicate Valid()
      reads this
    {
      blob.Some? ==> WellFormed(blob.value)
    }

    /** `readDB()`: the stored document, or the default one when nothing is stored or
        the read throws. */
    function ReadDB(readOk: bool): (db: Db)
      reads this
      ensures Valid() ==> WellFormed(db)
    {
      if readOk && blob.Some? then blob.value else EmptyDb
    }

    /** `writeDB(db)`: on failure it logs and returns false, which no handler looks at. */
    method WriteDB(db: Db, writeOk: bool)
      modifies this
      ensures blob == if writeOk then Some(db) else old(blob)
    {
      if writeOk {
        blob := Some(db);
      }
    }

    /** The `addRecord` handler. `freshIds[i]` and `now` stand for the `uuidv4()` and the
        ISO time of item `i`. */
    method AddRecord(user: Option<Principal>, verb: string, body: Body, freshIds: seq<string>,
                     now: string, readOk: bool, writeOk: bool)
      returns (res: Result<(nat, seq<Record>)>)
      requires |freshIds| == |Items(body)|
      modifies this
      ensures user.None? ==> res == Err(Unauthorized)
      ensures user.Some? && verb != "POST" ==> res == Err(MethodNotAllowed)
      ensures res.Err? ==> blob == old(blob)
      ensures user.Some? && verb == "POST" ==>
                var db := old(ReadDB(readOk));
                var added := NewRecords(Items(body), freshIds, user.value.id, now);
                if added == [] then res == Err(BadRequest)
                else
                  && res == Ok((|added|, added))
                  && blob == if writeOk then Some(db.(records := db.records + added)) else old(blob)
      ensures old(Valid()) && FreshIds(freshIds, old(ReadDB(readOk))) ==> Valid()
      ensures !readOk && writeOk && res.Ok? ==> blob == Some(Db(res.value.1, [], None))
    {
      if user.None? {
        return Err(Unauthorized);
      }
      if verb != "POST" {
        return Err(MethodNotAllowed);
      }
      var db := ReadDB(readOk);
      var items := Items(body);
      var newRecords, records := BuildRecords(db.records, items, freshIds, user.value.id, now);
      if newRecords == [] {
        return Err(BadRequest);
      }
      ghost var wasValid := Valid();
      if wasValid && FreshIds(freshIds, db) {
        AddKeepsWellFormed(db, items, freshIds, user.value.id, now);
      }
      if !readOk {
        assert records == [] + newRecords == newRecords;
      }
      WriteDB(db.(records := records), writeOk);
      res := Ok((|newRecords|, newRecords));
    }

    /** The `checkRecord` handler: the first Active record with the id moves to the end
        of Checked, stamped with `now` and the caller's username. Checked is not
        searched, and the caller need not own the record. */
    method CheckRecord(user: Option<Principal>, verb: string, id: Option<string>, now: string,
                       readOk: bool, writeOk: bool)
      returns (res: Result<CheckedRecord>)
      modifies this
      ensures user.None? ==> res == Err(Unauthorized)
      ensures user.Some? && verb != "POST" ==> res == Err(MethodNotAllowed)
      ensures res.Err? ==> blob == old(blob)
      ensures user.Some? && verb == "POST" ==>
                var db := old(ReadDB(readOk));
                match FirstIndex(db.records, HasId(id))
                case None => res == Err(NotFound)
                case Some(i) =>
                  var stamped := Stamp(db.records[i], now, user.value.username);
                  && res == Ok(stamped)
                  && blob == if writeOk
                             then Some(db.(records := RemoveAt(db.records, i),
                                           checked := db.checked + [stamped]))
                             else old(blob)
      ensures old(Valid()) ==> Valid()
    {
      if user.None? {
        return Err(Unauthorized);
      }
      if verb != "POST" {
        return Err(MethodNotAllowed);
      }
      var db := ReadDB(readOk);
      var recordIndex := FirstIndex(db.records, HasId(id));
      if recordIndex.None? {
        return Err(NotFound);
      }
      var i := recordIndex.value;
      var record := db.records[i];
      var records := RemoveAt(db.records, i);
      var checkedRecord := Stamp(record, now, user.value.username);
      var checked := db.checked + [checkedRecord];
      ghost var wasValid := Valid();
      if wasValid {
        CheckKeepsWellFormed(db, i, now, user.value.username);
      }
      WriteDB(db.(records := records, checked := checked), writeOk);
      res := Ok(checkedRecord);
    }

    /** The `deleteRecord` handler: the first Active match is removed; failing that, the
        first Checked match; failing that, 404. No ownership check. */
    method DeleteRecord(user: Option<Principal>, verb: string, id: Option<string>,
                        readOk: bool, writeOk: bool)
      returns (res: Result<()>)
      modifies this
      ensures user.None? ==> res == Err(Unauthorized)
      ensures user.Some? && verb != "POST" ==> res == Err(MethodNotAllowed)
      ensures res.Err? ==> blob == old(blob)
      ensures user.Some? && verb == "POST" ==>
                var db := old(ReadDB(readOk));
                match FirstIndex(db.records, HasId(id))
                case Some(i) =>
                  && res == Ok(())
                  && blob == if writeOk then Some(db.(records := RemoveAt(db.records, i))) else old(blob)
                case None =>
                  match FirstIndex(db.checked, CheckedHasId(id))
                  case Some(j) =>
                    && res == Ok(())
                    && blob == if writeOk then Some(db.(checked := RemoveAt(db.checked, j))) else old(blob)
                  case None => res == Err(NotFound)
      ensures res.Ok? && writeOk ==>
                var db := old(ReadDB(readOk));
                blob.Some? && |blob.value.records| + |blob.value.checked| + 1 == |db.records| + |db.checked|
      ensures old(Valid()) ==> Valid()
    {
      if user.None? {
        return Err(Unauthorized);
      }
      if verb != "POST" {
        return Err(MethodNotAllowed);
      }
      var db := ReadDB(readOk);
      ghost var wasValid := Valid();
      var index := FirstIndex(db.records, HasId(id));
      if index.Some? {
        if wasValid {
          DeleteKeepsWellFormed(db, true, index.value);
        }
        db := db.(records := RemoveAt(db.records, index.value));
      } else {
        index := FirstIndex(db.checked, CheckedHasId(id));
        if index.Some? {
          if wasValid {
            DeleteKeepsWellFormed(db, false, index.value);
          }
          db := db.(checked := RemoveAt(db.checked, index.value));
        } else {
          return Err(NotFound);
        }
      }
      WriteDB(db, writeOk);
      res := Ok(());
    }

    /** The `assignRecords` handler: every Active record whose id is listed gets the new
        owner; the answer counts them. Checked is not touched. */
    method AssignRecords(user: Option<Principal>, verb: string, recordIds: Option<seq<string>>,
                         targetUserId: Option<string>, readOk: bool, writeOk: bool)
      returns (res: Result<nat>)
      modifies this
      ensures !IsAdminCaller(user) ==> res == Err(Forbidden)
      ensures IsAdminCaller(user) && verb != "POST" ==> res == Err(MethodNotAllowed)
      ensures IsAdminCaller(user) && verb == "POST" && (recordIds.None? || !Truthy(targetUserId)) ==>
                res == Err(BadRequest)
      ensures res.Err? ==> blob == old(blob)
      ensures IsAdminCaller(user) && verb == "POST" && recordIds.Some? && Truthy(targetUserId) ==>
                var db := old(ReadDB(readOk));
                var ids := recordIds.value;
                && res == Ok(|Keep(db.records, InIds(ids))|)
                && blob == if writeOk
                           then Some(db.(records := ReassignAll(db.records, ids, targetUserId.value)))
                           else old(blob)
      ensures old(Valid()) ==> Valid()
    {
      if !IsAdminCaller(user) {
        return Err(Forbidden);
      }
      if verb != "POST" {
        return Err(MethodNotAllowed);
      }
      if recordIds.None? || !Truthy(targetUserId) {
        return Err(BadRequest);
      }
      var db := ReadDB(readOk);
      var records, updatedCount := ReassignOwners(db.records, recordIds.value, targetUserId.value);
      ghost var wasValid := Valid();
      if wasValid {
        SameIdsKeepWellFormed(db, records);
      }
      WriteDB(db.(records := records), writeOk);
      res := Ok(updatedCount);
    }

    /** The `deleteUser` handler. It reads `users` from this document (the default
        document has none: the lookup throws and the try block answers 500), removes every
        user with the id, and makes that user's Active records ownerless. Checked records
        keep their owner. */
    method DeleteUser(user: Option<Principal>, verb: string, id: Option<string>,
                      readOk: bool, writeOk: bool)
      returns (res: Result<nat>)
      modifies this
      ensures !IsAdminCaller(user) ==> res == Err(Unauthorized)
      ensures IsAdminCaller(user) && verb != "POST" ==> res == Err(MethodNotAllowed)
      ensures IsAdminCaller(user) && verb == "POST" && !Truthy(id) ==> res == Err(BadRequest)
      ensures IsAdminCaller(user) && verb == "POST" && Truthy(id) && id.value == user.value.id ==>
                res == Err(BadRequest)
      ensures res.Err? ==> blob == old(blob)
      ensures IsAdminCaller(user) && verb == "POST" && Truthy(id) && id.value != user.value.id ==>
                var db := old(ReadDB(readOk));
                var uid := id.value;
                if db.users.None? then res == Err(InternalError)
                else if forall k :: 0 <= k < |db.users.value| ==> db.users.value[k].id != uid then
                  res == Err(NotFound)
                else
                  && res == Ok(|Keep(db.records, OwnedBy(uid))|)
                  && blob == if writeOk
                             then Some(Db(UnassignAll(db.records, uid), db.checked,
                                          Some(Keep(db.users.value, NotUser(uid)))))
                             else old(blob)
      ensures old(Valid()) ==> Valid()
    {
      if !IsAdminCaller(user) {
        return Err(Unauthorized);
      }
      if verb != "POST" {
        return Err(MethodNotAllowed);
      }
      if !Truthy(id) {
        return Err(BadRequest);
      }
      var uid := id.value;
      if uid == user.value.id {
        return Err(BadRequest);
      }
      var db := ReadDB(readOk);
      if db.users.None? {
        return Err(InternalError);
      }
      if forall k :: 0 <= k < |db.users.value| ==> db.users.value[k].id != uid {
        return Err(NotFound);
      }
      var users := RemoveUser(db.users.value, uid);
      var records, recordsUpdated := UnassignOwner(db.records, uid);
      ghost var wasValid := Valid();
      if wasValid {
        SameIdsKeepWellFormed(db, records);
      }
      WriteDB(Db(records, db.checked, Some(users)), writeOk);
      res := Ok(recordsUpdated);
    }
  }

  /** `db.records.map(...)` in `assignRecords`, whose callback counts the records it
      reassigns in `updatedCount`. */
  method ReassignOwners(rs: seq<Record>, ids: seq<string>, target: string)
    returns (out: seq<Record>, updatedCount: nat)
    ensures out == ReassignAll(rs, ids, target)
    ensures updatedCount == |Keep(rs, InIds(ids))|
  {
    out, updatedCount := [], 0;
    var i := 0;
    while i < |rs|
      invariant 0 <= i <= |rs|
      invariant |out| == i && forall k :: 0 <= k < i ==> out[k] == Reassign(rs[k], ids, target)
      invariant updatedCount == CountWhere(rs[..i], InIds(ids))
    {
      assert rs[..i + 1][..i] == rs[..i];
      var record := rs[i];
      if record.id in ids {
        updatedCount := updatedCount + 1;
      }
      out := out + [Reassign(record, ids, target)];
      i := i + 1;
    }
    assert rs[..|rs|] == rs;
    CountWhereIsKeep(rs, InIds(ids));
  }

  /** `db.records.map(...)` in `deleteUser`, counting the records made ownerless. */
  method UnassignOwner(rs: seq<Record>, uid: string) returns (out: seq<Record>, recordsUpdated: nat)
    ensures out == UnassignAll(rs, uid)
    ensures recordsUpdated == |Keep(rs, OwnedBy(uid))|
  {
    out, recordsUpdated := [], 0;
    var i := 0;
    while i < |rs|
      invariant 0 <= i <= |rs|
      invariant |out| == i && forall k :: 0 <= k < i ==> out[k] == Unassign(rs[k], uid)
      invariant recordsUpdated == CountWhere(rs[..i], OwnedBy(uid))
    {
      assert rs[..i + 1][..i] == rs[..i];
      var r := rs[i];
      if r.ownerId == Some(uid) {
        recordsUpdated := recordsUpdated + 1;
      }
      out := out + [Unassign(r, uid)];
      i := i + 1;
    }
    assert rs[..|rs|] == rs;
    CountWhereIsKeep(rs, OwnedBy(uid));
  }

  /** `db.users.filter(u => u.id !== id)`: every user with that id goes, the others stay
      in order. */
  method RemoveUser(users: seq<Accounts.StoredUser>, uid: string) returns (out: seq<Accounts.StoredUser>)
    ensures out == Keep(users, NotUser(uid))
    ensures forall k :: 0 <= k < |out| ==> out[k].id != uid
  {
    out := [];
    var j := 0;
    while j < |users|
      invariant 0 <= j <= |users|
      invariant out == Keep(users[..j], NotUser(uid))
    {
      KeepPrefixStep(users, j, NotUser(uid));
      if users[j].id != uid {
        out := out + [users[j]];
      }
      j := j + 1;
    }
    assert users[..|users|] == users;
  }
}

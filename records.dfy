/** The record document and its read side: the `{records, checked, users}` blob, the
    ownership rule that decides which records a principal sees, and the paginated
    listing of `getRecords.cjs`. */
module Records {
  import opened Common
  import opened Http
  import Accounts

  /** An Active record. `ownerId` is absent on legacy records. */
  datatype Record = Record(id: string, rawLine: string, parsedData: map<string, string>,
                           ownerId: Option<string>, createdAt: string)

  /** A record moved to Checked: the record's fields plus the two stamps. */
  datatype CheckedRecord = CheckedRecord(record: Record, checkedAt: string, checkedBy: string)

  /** The whole document as `readDB` returns it. `users` is absent from the default
      document (and from any document nobody put users into). */
  datatype Db = Db(records: seq<Record>, checked: seq<CheckedRecord>,
                   users: Option<seq<Accounts.StoredUser>>)

  /** What `readDB` answers when the blob is missing or the read throws. */
  const EmptyDb := Db([], [], None)

  /** `!r.ownerId`: no owner, or the empty string. */
  predicate Ownerless(owner: Option<string>) {
    !Truthy(owner)
  }

  /** The ownership filter of `getRecords`, the same for Active and Checked. */
  predicate Visible(user: Principal, target: Option<string>, owner: Option<string>): (b: bool)
    // a non-admin sees its own records only
    ensures b && !IsAdmin(user) ==> owner == Some(user.id)
    // another user's record is visible only to an admin who names that user
    ensures b && Truthy(owner) && owner != Some(user.id) ==> IsAdmin(user) && target == owner
  {
    if IsAdmin(user) then
      if Truthy(target) then
        if target.value == "unassigned" then Ownerless(owner) else owner == target
      else
        owner == Some(user.id) || Ownerless(owner)
    else
      owner == Some(user.id)
  }

  function VisibleRecords(user: Principal, target: Option<string>, rs: seq<Record>)
    : (out: seq<Record>)
    ensures |out| <= |rs|
    ensures forall r :: r in out <==> r in rs && Visible(user, target, r.ownerId)
  {
    KeepMembers(rs, (r: Record) => Visible(user, target, r.ownerId));
    Keep(rs, (r: Record) => Visible(user, target, r.ownerId))
  }

  function VisibleChecked(user: Principal, target: Option<string>, cs: seq<CheckedRecord>)
    : (out: seq<CheckedRecord>)
    ensures |out| <= |cs|
    ensures forall c :: c in out <==> c in cs && Visible(user, target, c.record.ownerId)
  {
    KeepMembers(cs, (c: CheckedRecord) => Visible(user, target, c.record.ownerId));
    Keep(cs, (c: CheckedRecord) => Visible(user, target, c.record.ownerId))
  }

  /** `list.slice(start, start + limit)` for a start that is not negative. */
  function Window<T>(s: seq<T>, start: nat, limit: nat): (r: seq<T>)
    ensures |r| <= limit
    ensures start >= |s| ==> r == []
    ensures start < |s| ==> |r| == Min(limit, |s| - start)
    ensures forall k :: 0 <= k < |r| ==> r[k] == s[start + k]
  {
    s[Min(start, |s|)..Min(start + limit, |s|)]
  }

  lemma NonNegativeProduct(a: int, b: int)
    requires a >= 0 && b >= 0
    ensures a * b >= 0
  {
  }

  /** `list.slice((page - 1) * limit, page * limit)`: the `page`-th block of `limit`
      elements, 1-indexed, cut short at the end of the list. */
  function Page<T>(s: seq<T>, page: int, limit: int): (r: seq<T>)
    requires page >= 1 && limit >= 1
    ensures |r| <= limit
    ensures (page - 1) * limit >= |s| ==> r == []
    ensures (page - 1) * limit < |s| ==> |r| == Min(limit, |s| - (page - 1) * limit)
    ensures forall k :: 0 <= k < |r| ==> r[k] == s[(page - 1) * limit + k]
  {
    NonNegativeProduct(page - 1, limit);
    Window(s, (page - 1) * limit, limit)
  }

  /** `Math.ceil(total / limit)`: the fewest pages of `limit` that hold `total` items. */
  function CeilDiv(total: nat, limit: int): (pages: nat)
    requires limit >= 1
    ensures pages * limit >= total
    ensures pages > 0 ==> (pages - 1) * limit < total
    ensures pages == 0 <==> total == 0
  {
    var q := (total + limit - 1) / limit;
    var m := (total + limit - 1) % limit;
    assert total + limit - 1 == q * limit + m && 0 <= m < limit;
    assert q * limit == total + limit - 1 - m;
    assert (q - 1) * limit == q * limit - limit;
    q
  }

  /** The query string of `getRecords`, already parsed; `None` for an absent or empty
      parameter. */
  datatype Query = Query(page: Option<int>, limit: Option<int>, targetUserId: Option<string>)

  const DefaultPage := 1
  const DefaultLimit := 50

  /** The body of a successful `getRecords`. */
  datatype Listing = Listing(records: seq<Record>, checked: seq<CheckedRecord>, total: nat,
                             page: int, totalPages: nat)

  /** The `getRecords` handler over the document `db` that `readDB` gave. It never
      writes: it is a function of its inputs. */
  function GetRecords(user: Option<Principal>, verb: string, q: Query, db: Db): (r: Result<Listing>)
    requires q.page.GetOr(DefaultPage) >= 1 && q.limit.GetOr(DefaultLimit) >= 1
    ensures user.None? ==> r == Err(Unauthorized)
    ensures user.Some? && verb != "GET" ==> r == Err(MethodNotAllowed)
    ensures user.Some? && verb == "GET" <==> r.Ok?
    ensures r.Ok? ==>
              var page := q.page.GetOr(DefaultPage);
              var limit := q.limit.GetOr(DefaultLimit);
              var active := VisibleRecords(user.value, q.targetUserId, db.records);
              && r.value.records == Page(active, page, limit)
              && r.value.checked == VisibleChecked(user.value, q.targetUserId, db.checked)
              && r.value.total == |active|
              && r.value.page == page
              && r.value.totalPages == CeilDiv(|active|, limit)
    ensures r.Ok? ==> |r.value.records| <= q.limit.GetOr(DefaultLimit)
    ensures r.Ok? ==> r.value.totalPages * q.limit.GetOr(DefaultLimit) >= r.value.total
  {
    if user.None? then Err(Unauthorized)
    else if verb != "GET" then Err(MethodNotAllowed)
    else
      var page := q.page.GetOr(DefaultPage);
      var limit := q.limit.GetOr(DefaultLimit);
      var active := VisibleRecords(user.value, q.targetUserId, db.records);
      Ok(Listing(Page(active, page, limit), VisibleChecked(user.value, q.targetUserId, db.checked),
                 |active|, page, CeilDiv(|active|, limit)))
  }

  /** A regular user sees exactly the records it owns, in Active and in Checked. */
  lemma NonAdminSeesOwnOnly(user: Principal, target: Option<string>, db: Db)
    requires !IsAdmin(user)
    ensures forall r :: r in VisibleRecords(user, target, db.records) <==>
                        r in db.records && r.ownerId == Some(user.id)
    ensures forall c :: c in VisibleChecked(user, target, db.checked) <==>
                        c in db.checked && c.record.ownerId == Some(user.id)
  {
    KeepMembers(db.records, (r: Record) => Visible(user, target, r.ownerId));
    KeepMembers(db.checked, (c: CheckedRecord) => Visible(user, target, c.record.ownerId));
  }

  /** An admin without a target sees its own records and the ownerless ones. */
  lemma AdminDefaultView(user: Principal, target: Option<string>, db: Db)
    requires IsAdmin(user) && !Truthy(target)
    ensures forall r :: r in VisibleRecords(user, target, db.records) <==>
                        r in db.records && (r.ownerId == Some(user.id) || Ownerless(r.ownerId))
    ensures forall c :: c in VisibleChecked(user, target, db.checked) <==>
                        c in db.checked &&
                        (c.record.ownerId == Some(user.id) || Ownerless(c.record.ownerId))
  {
    KeepMembers(db.records, (r: Record) => Visible(user, target, r.ownerId));
    KeepMembers(db.checked, (c: CheckedRecord) => Visible(user, target, c.record.ownerId));
  }

  /** An admin asking for `'unassigned'` sees only ownerless records. */
  lemma AdminUnassignedView(user: Principal, db: Db)
    requires IsAdmin(user)
    ensures forall r :: r in VisibleRecords(user, Some("unassigned"), db.records) <==>
                        r in db.records && Ownerless(r.ownerId)
    ensures forall c :: c in VisibleChecked(user, Some("unassigned"), db.checked) <==>
                        c in db.checked && Ownerless(c.record.ownerId)
  {
    var target := Some("unassigned");
    KeepMembers(db.records, (r: Record) => Visible(user, target, r.ownerId));
    KeepMembers(db.checked, (c: CheckedRecord) => Visible(user, target, c.record.ownerId));
  }

  /** An admin asking for any other user sees exactly that user's records. */
  lemma AdminTargetView(user: Principal, target: string, db: Db)
    requires IsAdmin(user) && target != "" && target != "unassigned"
    ensures forall r :: r in VisibleRecords(user, Some(target), db.records) <==>
                        r in db.records && r.ownerId == Some(target)
    ensures forall c :: c in VisibleChecked(user, Some(target), db.checked) <==>
                        c in db.checked && c.record.ownerId == Some(target)
  {
    KeepMembers(db.records, (r: Record) => Visible(user, Some(target), r.ownerId));
    KeepMembers(db.checked, (c: CheckedRecord) => Visible(user, Some(target), c.record.ownerId));
  }

  /** The filtered lists keep the stored order: the visible part of a concatenation is
      the concatenation of the visible parts. */
  lemma VisibleKeepsOrder(user: Principal, target: Option<string>, a: seq<Record>, b: seq<Record>)
    ensures VisibleRecords(user, target, a + b) ==
            VisibleRecords(user, target, a) + VisibleRecords(user, target, b)
  {
    KeepAppend(a, b, (r: Record) => Visible(user, target, r.ownerId));
  }

  /** The pages 1..n of a list, one after the other. */
  function Pages<T>(s: seq<T>, limit: int, n: nat): seq<T>
    requires limit >= 1
  {
    if n == 0 then [] else Pages(s, limit, n - 1) + Page(s, n, limit)
  }

  lemma {:induction false} PagesPrefix<T>(s: seq<T>, limit: int, n: nat)
    requires limit >= 1
    ensures Pages(s, limit, n) == s[..Min(n * limit, |s|)]
  {
    if n > 0 {
      PagesPrefix(s, limit, n - 1);
      NextPage(s, limit, n);
    }
  }

  /** Page `n` continues the prefix that pages 1..n-1 cover. */
  lemma NextPage<T>(s: seq<T>, limit: int, n: nat)
    requires limit >= 1 && n >= 1
    ensures s[..Min((n - 1) * limit, |s|)] + Page(s, n, limit) == s[..Min(n * limit, |s|)]
  {
    var start := (n - 1) * limit;
    assert n * limit == start + limit;
    NonNegativeProduct(n - 1, limit);
    var a := Min(start, |s|);
    var b := Min(start + limit, |s|);
    assert Page(s, n, limit) == Window(s, start, limit) == s[a..b];
    assert s[..a] + s[a..b] == s[..b];
  }

  /** Reading pages 1 to `totalPages` in turn gives every visible record once, in
      order: the pages partition the filtered list. */
  lemma PagesCoverAll<T>(s: seq<T>, limit: int)
    requires limit >= 1
    ensures Pages(s, limit, CeilDiv(|s|, limit)) == s
  {
    PagesPrefix(s, limit, CeilDiv(|s|, limit));
    assert s[..|s|] == s;
  }

  /** With no paging parameters, page 1 of 50 is answered. */
  lemma DefaultPaging(user: Principal, target: Option<string>, db: Db)
    ensures var r := GetRecords(Some(user), "GET", Query(None, None, target), db);
            var active := VisibleRecords(user, target, db.records);
            && r.Ok? && r.value.page == 1
            && r.value.records == active[..Min(50, |active|)]
  {
  }
}

/**
 * The announcements router: a collection of announcement documents keyed by
 * store identifier, the public "active announcements" query, and the four
 * operator operations (list all, create, update, delete), each gated on a
 * non-empty caller name.
 */
module Announcements {
  import opened Options
  import opened ObjectIds
  import Dates
  import StringOrder

  const MaxMessageLength := 500

  /** A stored announcement document, without its identifier. */
  datatype Announcement = Announcement(
    message: string,
    startDate: Option<string>,  // a missing field and a null field are both None
    expirationDate: string,
    createdAt: string,
    createdBy: string,
    updatedAt: Option<string>,
    updatedBy: Option<string>)

  /** A document as the handlers return it, with its identifier as `id`. */
  datatype Entry = Entry(id: ObjectId, record: Announcement)

  /** The body of a create request. */
  datatype AnnouncementCreate = AnnouncementCreate(message: string, startDate: Option<string>, expirationDate: string)
  {
    /** The field constraints the request layer enforces before the handler runs. */
    predicate WellFormed()
    {
      1 <= |message| <= MaxMessageLength
    }
  }

  /** The body of an update request: every field optional. */
  datatype AnnouncementUpdate = AnnouncementUpdate(message: Option<string>, startDate: Option<string>, expirationDate: Option<string>)
  {
    predicate WellFormed()
    {
      message.Some? ==> 1 <= |message.value| <= MaxMessageLength
    }

    /** No field supplied: the update document would be empty. */
    predicate IsEmpty()
    {
      message.None? && startDate.None? && expirationDate.None?
    }

    /** The update supplies a start or an expiration date. */
    predicate TouchesDates()
    {
      startDate.Some? || expirationDate.Some?
    }
  }

  /** Why a request was refused as invalid input. */
  datatype Reason = InvalidId | NoFields | BadDateFormat | StartAfterExpiration

  datatype Error = Unauthorized | InvalidInput(reason: Reason) | NotFound

  datatype Result<T> = Ok(value: T) | Err(error: Error)

  /** Python truthiness of an optional string: present and non-empty. */
  predicate Truthy(s: Option<string>)
  {
    s.Some? && s.value != ""
  }

  // ---- the active filter ----

  /**
   * The query of the active-announcements endpoint, on strings as the store
   * compares them: `expiration_date > today` and the start date is missing,
   * null or `<= today`.
   */
  predicate IsActive(r: Announcement, today: string)
  {
    StringOrder.Less(today, r.expirationDate)
    && (r.startDate.None? || StringOrder.LessEq(r.startDate.value, today))
  }

  /** An announcement expiring today is not active; one starting today is active if it has not expired. */
  lemma ActiveBoundaries(r: Announcement, today: string)
    ensures r.expirationDate == today ==> !IsActive(r, today)
    ensures r.startDate == Some(today) ==> (IsActive(r, today) <==> StringOrder.Less(today, r.expirationDate))
  {
    StringOrder.LessIrreflexive(today);
  }

  /**
   * For dates written in canonical `YYYY-MM-DD` form, the string filter is the
   * intended date window: today is before the expiration date and not before
   * the start date.
   */
  lemma ActiveWindow(r: Announcement, today: Dates.Date, expiration: Dates.Date, start: Option<Dates.Date>)
    requires Dates.Valid(today) && Dates.Valid(expiration)
    requires r.expirationDate == Dates.Format(expiration)
    requires start.Some? ==> Dates.Valid(start.value)
    requires r.startDate == (if start.Some? then Some(Dates.Format(start.value)) else None)
    ensures IsActive(r, Dates.Format(today))
        <==> Dates.Before(today, expiration) && (start.Some? ==> !Dates.Before(today, start.value))
  {
    Dates.FormatOrder(today, expiration);
    if start.Some? {
      Dates.FormatOrderEq(start.value, today);
    }
  }

  /** `strptime` reads the unpadded "2024-1-5" as 5 January 2024. */
  lemma ParseUnpadded()
    ensures Dates.Parse("2024-1-5") == Some(Dates.Date(2024, 1, 5))
  {
    var s := "2024-1-5";
    assert s[..4] == "2024" && s[4] == '-';
    assert Dates.Value("2024") == 2024 by {
      assert "2024"[..3] == "202" && "202"[..2] == "20" && "20"[..1] == "2";
    }
    var rest := s[5..];
    assert rest == "1-5" && rest[1] == '-';
    assert rest[..1] == "1" && rest[2..] == "5";
    assert Dates.MonthToken("1") == Some(1);
    assert Dates.DayToken("5") == Some(5);
  }

  /**
   * Create accepts the unpadded expiration date "2024-1-5" (5 January 2024),
   * and the string filter still lists the announcement on 10 January 2024,
   * because "2024-01-10" < "2024-1-5" as strings.
   */
  lemma UnpaddedExpirationStaysActive(r: Announcement)
    requires r.expirationDate == "2024-1-5" && r.startDate.None?
    ensures CreateDateError(r.startDate, r.expirationDate).None?
    ensures Dates.Parse(r.expirationDate) == Some(Dates.Date(2024, 1, 5))
    ensures Dates.Before(Dates.Date(2024, 1, 5), Dates.Date(2024, 1, 10))
    ensures IsActive(r, Dates.Format(Dates.Date(2024, 1, 10)))
  {
    ParseUnpadded();
    var today := Dates.Format(Dates.Date(2024, 1, 10));
    assert today == "2024-01-10" by {
      assert Dates.Digits(2024, 4) == "2024";
      assert Dates.Digits(1, 2) == "01";
      assert Dates.Digits(10, 2) == "10";
    }
    StringOrder.LessAppend("2024-", "2024-", "01-10", "1-5");
    assert "2024-" + "01-10" == today && "2024-" + "1-5" == r.expirationDate;
  }

  // ---- date checks ----

  /**
   * The ordering invariant as the checks enforce it: when the start and the
   * expiration date are both non-empty, both are dates and the start is not
   * after the expiration.
   */
  predicate DatesConsistent(start: Option<string>, expiration: string)
  {
    Truthy(start) && expiration != "" ==>
      var s, e := Dates.Parse(start.value), Dates.Parse(expiration);
      s.Some? && e.Some? && !Dates.Before(e.value, s.value)
  }

  /**
   * The date validation of create: the expiration date is always parsed; a
   * start date is parsed and compared only when it is non-empty.
   */
  function CreateDateError(start: Option<string>, expiration: string): (r: Option<Reason>)
    ensures r.None? <==> Dates.Parse(expiration).Some? && DatesConsistent(start, expiration)
    ensures r == Some(StartAfterExpiration) <==>
              Truthy(start) && Dates.Parse(start.value).Some? && Dates.Parse(expiration).Some?
              && Dates.Before(Dates.Parse(expiration).value, Dates.Parse(start.value).value)
    ensures r.Some? ==> r.value in {BadDateFormat, StartAfterExpiration}
  {
    match Dates.Parse(expiration)
    case None => Some(BadDateFormat)
    case Some(e) =>
      if !Truthy(start) then None
      else
        match Dates.Parse(start.value)
        case None => Some(BadDateFormat)
        case Some(s) => if Dates.Before(e, s) then Some(StartAfterExpiration) else None
  }

  /**
   * The date validation of update, on the merged pair: it runs only when both
   * merged dates are non-empty, and then rejects a date that does not parse
   * and a start after the expiration.
   */
  function MergedDateError(start: Option<string>, expiration: string): (r: Option<Reason>)
    ensures r.None? <==> DatesConsistent(start, expiration)
    ensures r == Some(StartAfterExpiration) <==>
              Truthy(start) && expiration != "" && Dates.Parse(start.value).Some? && Dates.Parse(expiration).Some?
              && Dates.Before(Dates.Parse(expiration).value, Dates.Parse(start.value).value)
    ensures r.Some? ==> r.value in {BadDateFormat, StartAfterExpiration}
  {
    if Truthy(start) && expiration != "" then
      match (Dates.Parse(start.value), Dates.Parse(expiration))
      case (Some(s), Some(e)) => if Dates.Before(e, s) then Some(StartAfterExpiration) else None
      case _ => Some(BadDateFormat)
    else
      None
  }

  /** The start date after an update: the supplied one, else the existing one. */
  function MergedStart(patch: AnnouncementUpdate, existing: Announcement): Option<string>
  {
    if patch.startDate.Some? then patch.startDate else existing.startDate
  }

  /** The expiration date after an update: the supplied one, else the existing one. */
  function MergedExpiration(patch: AnnouncementUpdate, existing: Announcement): string
  {
    patch.expirationDate.GetOr(existing.expirationDate)
  }

  /** The date check of update against the existing record; none when no date is supplied. */
  function UpdateDateError(patch: AnnouncementUpdate, existing: Announcement): (r: Option<Reason>)
    ensures !patch.TouchesDates() ==> r.None?
    ensures patch.TouchesDates() ==>
              (r.None? <==> DatesConsistent(MergedStart(patch, existing), MergedExpiration(patch, existing)))
    ensures r.None? && DatesConsistent(existing.startDate, existing.expirationDate) ==>
              DatesConsistent(MergedStart(patch, existing), MergedExpiration(patch, existing))
  {
    if patch.TouchesDates() then
      MergedDateError(MergedStart(patch, existing), MergedExpiration(patch, existing))
    else
      None
  }

  /**
   * An update accepts an unparseable expiration date when the record has no
   * start date, where create would refuse the same string.
   */
  lemma UpdateSkipsExpirationFormat(existing: Announcement, patch: AnnouncementUpdate)
    requires existing.startDate.None? && patch.startDate.None?
    requires patch.expirationDate == Some("tomorrow")
    ensures UpdateDateError(patch, existing).None?
    ensures CreateDateError(None, "tomorrow") == Some(BadDateFormat)
  {
  }

  /** A create whose start date comes after its expiration date is refused. */
  lemma CreateRejectsReversedDates()
    ensures CreateDateError(Some("2025-06-10"), "2025-06-01") == Some(StartAfterExpiration)
  {
    var s, e := Dates.Date(2025, 6, 10), Dates.Date(2025, 6, 1);
    assert Dates.Valid(s) && Dates.Valid(e);
    assert Dates.Format(s) == "2025-06-10";
    assert Dates.Format(e) == "2025-06-01";
    Dates.ParseFormat(s);
    Dates.ParseFormat(e);
  }

  // ---- documents ----

  /** The document create inserts. */
  function NewRecord(body: AnnouncementCreate, now: string, username: string): Announcement
  {
    Announcement(body.message, body.startDate, body.expirationDate, now, username, None, None)
  }

  /** The fields an update document can `$set`. */
  datatype Field = Message | StartDate | ExpirationDate | UpdatedAt | UpdatedBy

  /** `$set`: the fields the update document names take its values; the rest stay. */
  function SetFields(r: Announcement, doc: map<Field, string>): Announcement
  {
    r.(message := if Message in doc then doc[Message] else r.message,
       startDate := if StartDate in doc then Some(doc[StartDate]) else r.startDate,
       expirationDate := if ExpirationDate in doc then doc[ExpirationDate] else r.expirationDate,
       updatedAt := if UpdatedAt in doc then Some(doc[UpdatedAt]) else r.updatedAt,
       updatedBy := if UpdatedBy in doc then Some(doc[UpdatedBy]) else r.updatedBy)
  }

  /**
   * The update document: the supplied (non-null) fields of the patch, then
   * the update stamps.
   */
  function UpdateDocument(patch: AnnouncementUpdate, now: string, username: string): map<Field, string>
  {
    var doc := if patch.message.Some? then map[Message := patch.message.value] else map[];
    var doc := if patch.startDate.Some? then doc[StartDate := patch.startDate.value] else doc;
    var doc := if patch.expirationDate.Some? then doc[ExpirationDate := patch.expirationDate.value] else doc;
    doc[UpdatedAt := now][UpdatedBy := username]
  }

  /**
   * A document after an update: `$set` of the update document. The supplied
   * fields replace the existing ones, the update stamps are set, and the
   * creation stamps and every field not supplied are kept.
   */
  function Patched(existing: Announcement, patch: AnnouncementUpdate, now: string, username: string): (r: Announcement)
    ensures r.createdAt == existing.createdAt && r.createdBy == existing.createdBy
    ensures r.message == patch.message.GetOr(existing.message)
    ensures r.startDate == MergedStart(patch, existing) && r.expirationDate == MergedExpiration(patch, existing)
    ensures r.updatedAt == Some(now) && r.updatedBy == Some(username)
  {
    SetFields(existing, UpdateDocument(patch, now, username))
  }

  // ---- lists of entries ----

  function Ids(s: seq<Entry>): set<ObjectId>
  {
    set i | 0 <= i < |s| :: s[i].id
  }

  predicate DistinctIds(s: seq<Entry>)
  {
    forall i, j | 0 <= i < j < |s| :: s[i].id != s[j].id
  }

  /** Sorted by `expiration_date`, latest first, in the store's string order. */
  predicate SortedByExpirationDesc(s: seq<Entry>)
  {
    forall i, j | 0 <= i < j < |s| :: StringOrder.LessEq(s[j].record.expirationDate, s[i].record.expirationDate)
  }

  lemma InsertIds(s: seq<Entry>, p: nat, x: Entry)
    requires p <= |s|
    requires DistinctIds(s) && x.id !in Ids(s)
    ensures Ids(s[..p] + [x] + s[p..]) == Ids(s) + {x.id}
    ensures DistinctIds(s[..p] + [x] + s[p..])
  {
    var t := s[..p] + [x] + s[p..];
    assert t[p] == x;
    assert forall i | 0 <= i < p :: t[i] == s[i];
    assert forall i | p < i < |t| :: t[i] == s[i - 1];
    forall id | id in Ids(s)
      ensures id in Ids(t)
    {
      var j :| 0 <= j < |s| && s[j].id == id;
      if j < p {
        assert t[j].id == id;
      } else {
        assert t[j + 1].id == id;
      }
    }
  }

  /**
   * Where the store's descending sort places `x`: after every entry expiring
   * no earlier, before the first one expiring strictly earlier.
   */
  method InsertionPoint(sorted: seq<Entry>, x: Entry) returns (p: nat)
    requires SortedByExpirationDesc(sorted)
    ensures p <= |sorted|
    ensures SortedByExpirationDesc(sorted[..p] + [x] + sorted[p..])
  {
    var e := x.record.expirationDate;
    p := 0;
    while p < |sorted| && !StringOrder.Less(sorted[p].record.expirationDate, e)
      invariant p <= |sorted|
      invariant forall i | 0 <= i < p :: StringOrder.LessEq(e, sorted[i].record.expirationDate)
    {
      StringOrder.NotLessIsLessEq(e, sorted[p].record.expirationDate);
      p := p + 1;
    }
    var t := sorted[..p] + [x] + sorted[p..];
    forall i, j | 0 <= i < j < |t|
      ensures StringOrder.LessEq(t[j].record.expirationDate, t[i].record.expirationDate)
    {
      if j == p {
        assert t[i] == sorted[i];
      } else if i == p {
        // sorted[j - 1] expires no later than sorted[p], which expires strictly before x
        assert t[j] == sorted[j - 1];
        StringOrder.LessEqTransitive(sorted[j - 1].record.expirationDate, sorted[p].record.expirationDate, e);
      } else {
        var i', j' := if i < p then i else i - 1, if j < p then j else j - 1;
        assert t[i] == sorted[i'] && t[j] == sorted[j'];
        assert i' == j' || i' < j';
      }
    }
  }

  // ---- the collection and its handlers ----

  class AnnouncementService {
    /** The announcements collection, by identifier. */
    var records: map<ObjectId, Announcement>

    /** Every identifier is canonical and every document keeps the ordering invariant. */
    ghost predicate Valid()
      reads this
    {
      forall id | id in records :: IsObjectId(id) && DatesConsistent(records[id].startDate, records[id].expirationDate)
    }

    /** The entry is a document of the collection, under its identifier. */
    ghost predicate Stores(e: Entry)
      reads this
    {
      e.id in records && records[e.id] == e.record
    }

    constructor ()
      ensures records == map[] && Valid()
    {
      records := map[];
    }

    /**
     * The active announcements on `today`, in no particular order: exactly
     * the stored documents that pass the active filter, each once.
     */
    method ListActive(today: Dates.Date) returns (active: seq<Entry>)
      requires Dates.Valid(today)
      ensures DistinctIds(active)
      ensures forall i | 0 <= i < |active| :: Stores(active[i]) && IsActive(active[i].record, Dates.Format(today))
      ensures Ids(active) == set id | id in records && IsActive(records[id], Dates.Format(today))
    {
      var t := Dates.Format(today);
      active := [];
      var remaining := records.Keys;
      while remaining != {}
        invariant remaining <= records.Keys
        invariant DistinctIds(active)
        invariant forall i | 0 <= i < |active| :: Stores(active[i]) && IsActive(active[i].record, t)
        invariant Ids(active) == set id | id in records && id !in remaining && IsActive(records[id], t)
        decreases remaining
      {
        var id :| id in remaining;
        if IsActive(records[id], t) {
          InsertIds(active, |active|, Entry(id, records[id]));
          assert active[..|active|] + [Entry(id, records[id])] + active[|active|..] == active + [Entry(id, records[id])];
          active := active + [Entry(id, records[id])];
        }
        remaining := remaining - {id};
      }
    }

    /**
     * Every document, latest expiration first, for a named caller;
     * `Unauthorized` for an empty caller name.
     */
    method ListAll(username: string) returns (r: Result<seq<Entry>>)
      ensures username == "" ==> r == Err(Unauthorized)
      ensures username != "" ==>
                r.Ok? && DistinctIds(r.value) && Ids(r.value) == records.Keys
                && (forall i | 0 <= i < |r.value| :: Stores(r.value[i]))
                && SortedByExpirationDesc(r.value)
    {
      if username == "" {
        return Err(Unauthorized);
      }
      var sorted: seq<Entry> := [];
      var remaining := records.Keys;
      while remaining != {}
        invariant remaining <= records.Keys
        invariant DistinctIds(sorted) && SortedByExpirationDesc(sorted)
        invariant forall i | 0 <= i < |sorted| :: Stores(sorted[i])
        invariant Ids(sorted) == records.Keys - remaining
        decreases remaining
      {
        var id :| id in remaining;
        var x := Entry(id, records[id]);
        var p := InsertionPoint(sorted, x);
        InsertIds(sorted, p, x);
        var t := sorted[..p] + [x] + sorted[p..];
        forall i | 0 <= i < |t|
          ensures Stores(t[i])
        {
          if i < p {
            assert t[i] == sorted[i];
          } else if i > p {
            assert t[i] == sorted[i - 1];
          }
        }
        sorted := t;
        remaining := remaining - {id};
      }
      r := Ok(sorted);
    }

    /**
     * Create: refuse an empty caller, then a bad date; otherwise insert the
     * new document under the store-chosen `freshId` and return it.
     */
    method Create(username: string, body: AnnouncementCreate, now: string, freshId: ObjectId) returns (r: Result<Entry>)
      requires body.WellFormed()
      requires IsObjectId(freshId) && freshId !in records
      modifies this
      ensures old(Valid()) ==> Valid()
      ensures username == "" ==> r == Err(Unauthorized) && records == old(records)
      ensures username != "" && CreateDateError(body.startDate, body.expirationDate).Some? ==>
                r == Err(InvalidInput(CreateDateError(body.startDate, body.expirationDate).value))
                && records == old(records)
      ensures username != "" && CreateDateError(body.startDate, body.expirationDate).None? ==>
                r == Ok(Entry(freshId, NewRecord(body, now, username)))
                && records == old(records)[freshId := NewRecord(body, now, username)]
    {
      if username == "" {
        return Err(Unauthorized);
      }
      var invalid := CreateDateError(body.startDate, body.expirationDate);
      if invalid.Some? {
        return Err(InvalidInput(invalid.value));
      }
      var doc := Announcement(body.message, body.startDate, body.expirationDate, now, username, None, None);
      records := records[freshId := doc];
      r := Ok(Entry(freshId, doc));
    }

    /**
     * Update: refuse an empty caller, a malformed identifier, an empty patch,
     * a missing document and bad merged dates, in that order; otherwise `$set`
     * the supplied fields and the update stamps, and return the stored result.
     */
    method Update(username: string, idText: string, patch: AnnouncementUpdate, now: string) returns (r: Result<Entry>)
      requires patch.WellFormed()
      modifies this
      ensures old(Valid()) ==> Valid()
      ensures username == "" ==> r == Err(Unauthorized) && records == old(records)
      ensures username != "" && ParseId(idText).None? ==>
                r == Err(InvalidInput(InvalidId)) && records == old(records)
      ensures username != "" && ParseId(idText).Some? && patch.IsEmpty() ==>
                r == Err(InvalidInput(NoFields)) && records == old(records)
      ensures username != "" && ParseId(idText).Some? && !patch.IsEmpty() && ParseId(idText).value !in old(records) ==>
                r == Err(NotFound) && records == old(records)
      ensures username != "" && ParseId(idText).Some? && !patch.IsEmpty() && ParseId(idText).value in old(records) ==>
                var id := ParseId(idText).value;
                var existing := old(records)[id];
                match UpdateDateError(patch, existing)
                case Some(reason) =>
                  r == Err(InvalidInput(reason)) && records == old(records)
                case None =>
                  r == Ok(Entry(id, Patched(existing, patch, now, username)))
                  && records == old(records)[id := Patched(existing, patch, now, username)]
    {
      if username == "" {
        return Err(Unauthorized);
      }
      var parsed := ParseId(idText);
      if parsed.None? {
        return Err(InvalidInput(InvalidId));
      }
      var id := parsed.value;

      var doc: map<Field, string> := map[];
      if patch.message.Some? {
        doc := doc[Message := patch.message.value];
      }
      if patch.startDate.Some? {
        doc := doc[StartDate := patch.startDate.value];
      }
      if patch.expirationDate.Some? {
        doc := doc[ExpirationDate := patch.expirationDate.value];
      }
      assert Message in doc <==> patch.message.Some?;
      assert StartDate in doc <==> patch.startDate.Some?;
      assert ExpirationDate in doc <==> patch.expirationDate.Some?;
      if doc == map[] {
        return Err(InvalidInput(NoFields));
      }

      if StartDate in doc || ExpirationDate in doc {
        if id !in records {
          return Err(NotFound);
        }
        var existing := records[id];
        var expiration := if ExpirationDate in doc then doc[ExpirationDate] else existing.expirationDate;
        var start := if StartDate in doc then Some(doc[StartDate]) else existing.startDate;
        var invalid := MergedDateError(start, expiration);
        if invalid.Some? {
          return Err(InvalidInput(invalid.value));
        }
      }

      doc := doc[UpdatedAt := now][UpdatedBy := username];
      if id !in records {
        return Err(NotFound);
      }
      assert doc == UpdateDocument(patch, now, username);
      var updated := SetFields(records[id], doc);
      records := records[id := updated];
      r := Ok(Entry(id, records[id]));
    }

    /**
     * Delete: refuse an empty caller and a malformed identifier; remove the
     * document if there is one, otherwise `NotFound`.
     */
    method Delete(username: string, idText: string) returns (r: Result<()>)
      modifies this
      ensures old(Valid()) ==> Valid()
      ensures username == "" ==> r == Err(Unauthorized) && records == old(records)
      ensures username != "" && ParseId(idText).None? ==>
                r == Err(InvalidInput(InvalidId)) && records == old(records)
      ensures username != "" && ParseId(idText).Some? ==>
                var id := ParseId(idText).value;
                if id in old(records) then r == Ok(()) && records == old(records) - {id}
                else r == Err(NotFound) && records == old(records)
    {
      if username == "" {
        return Err(Unauthorized);
      }
      var parsed := ParseId(idText);
      if parsed.None? {
        return Err(InvalidInput(InvalidId));
      }
      var id := parsed.value;
      if id !in records {
        return Err(NotFound);
      }
      records := records - {id};
      r := Ok(());
    }
  }

  // ---- the round trips the operations promise together ----

  /** A document that create accepted is listed, unchanged, by list-all. */
  method CreateThenListAll(service: AnnouncementService, username: string, body: AnnouncementCreate, now: string, freshId: ObjectId)
    returns (created: Result<Entry>, listed: Result<seq<Entry>>)
    requires body.WellFormed()
    requires IsObjectId(freshId) && freshId !in service.records
    modifies service
    ensures created.Ok? ==> created.value == Entry(freshId, NewRecord(body, now, username))
    ensures created.Ok? ==> listed.Ok? && exists i | 0 <= i < |listed.value| :: listed.value[i] == created.value
  {
    created := service.Create(username, body, now, freshId);
    listed := service.ListAll(username);
    if created.Ok? {
      assert freshId in Ids(listed.value);
      var i :| 0 <= i < |listed.value| && listed.value[i].id == freshId;
      assert service.Stores(listed.value[i]);
    }
  }

  /** Deleting the same identifier twice: the second delete finds nothing. */
  method DeleteTwice(service: AnnouncementService, username: string, idText: string)
    returns (first: Result<()>, second: Result<()>)
    modifies service
    ensures username != "" && ParseId(idText).Some? && ParseId(idText).value in old(service.records) ==> first == Ok(())
    ensures first.Ok? ==> second == Err(NotFound)
  {
    first := service.Delete(username, idText);
    second := service.Delete(username, idText);
  }
}

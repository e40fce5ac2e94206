# Announcements router, modelled in Dafny

A model of the backend's announcements router
(`src/backend/routers/announcements.py`). The router keeps one collection of
announcement documents. Any client may ask for the announcements active today.
An operator, identified only by a non-empty `username`, may list all of them,
create one, patch one and delete one.

The collection is the field `records: map<ObjectId, Announcement>` of the class
`Announcements.AnnouncementService`. The five handlers are its methods. Each
method returns a `Result` carrying one of three error kinds:

- `Unauthorized`: the caller name is empty.
- `InvalidInput(reason)`: the id is malformed, the patch is empty, a date does not parse, or the start comes after the expiration.
- `NotFound`: no document has that id.

The pure parts of the router are functions with lemmas:

- the active filter;
- the create-time and update-time date checks;
- the merge of supplied fields over the existing document.

Supporting modules:

- `Dates` models `datetime.strptime(s, "%Y-%m-%d")` and `date.isoformat()`. The year is exactly four digits. The month and the day may be unpadded, and the day may be padded with a space. Nothing may follow the day. The result must be a real calendar date.
- `StringOrder` models how the store compares string fields: lexicographically, by code point.
- `ObjectIds` models how `ObjectId(text)` reads an id: 24 hexadecimal digits in either case, with lower case as the canonical spelling.

The object invariant `Valid()` is the ordering rule that the checks really
enforce. If a document's start date and expiration date are both non-empty,
both parse and the start is not after the expiration. Create and update
preserve it.

Some behaviours of the code are proved as they are written:

- The active filter compares date strings. The date checks parse them. For canonical `YYYY-MM-DD` strings the two agree (`ActiveWindow`, `Dates.FormatOrder`).
- Create also accepts unpadded dates such as `2024-1-5`. The string filter keeps such an announcement listed after it has expired (`UnpaddedExpirationStaysActive`).
- An update checks dates only when both merged dates are non-empty. An update that sets only the expiration date of an announcement without a start date stores that expiration unparsed (`UpdateSkipsExpirationFormat`).

The router's docstring says that active announcements come back ordered by
creation date. The query has no sort, so the model follows the code and
returns them in no particular order.

## Model

| member | source | states |
|---|---|---|
| `StringOrder.LessTotal` | src/backend/routers/announcements.py:86 | any two strings are equal or strictly ordered one way, so the store's sort key is a total order |
| `StringOrder.LessTransitive` | src/backend/routers/announcements.py:86 | the store's string order is transitive |
| `Dates.Parse` | src/backend/routers/announcements.py:120 | every string `strptime("%Y-%m-%d")` accepts denotes a real calendar date: year 1-9999, month 1-12, day within that month, leap years included |
| `Dates.Format` | src/backend/routers/announcements.py:44 | `date.isoformat()`: ten characters with dashes at positions 4 and 7; `ParseFormat` and `FormatOrder` state its meaning |
| `Dates.DigitsOrder` | src/backend/routers/announcements.py:44 | on zero-padded numbers of one width, string order is numeric order |
| `Dates.ParseFormat` | src/backend/routers/announcements.py:44 | parsing what `isoformat` wrote gives back the same date |
| `Dates.FormatOrder` | src/backend/routers/announcements.py:49 | `a < b` on `isoformat` strings exactly when date `a` is before date `b` |
| `Dates.FormatOrderEq` | src/backend/routers/announcements.py:53 | `a <= b` on `isoformat` strings exactly when date `b` is not before date `a` |
| `ObjectIds.ParseId` | src/backend/routers/announcements.py:171-174 | an id is accepted exactly when it is 24 hexadecimal digits; the result is canonical, and a canonical id reads as itself |
| `Announcements.IsActive` | src/backend/routers/announcements.py:47-56 | the active query on strings: expiration after today, and start missing, null or not after today; `ActiveBoundaries` and `ActiveWindow` state its meaning |
| `Announcements.ActiveBoundaries` | src/backend/routers/announcements.py:47-56 | an announcement expiring today is not active; one starting today is active exactly when it has not expired |
| `Announcements.ActiveWindow` | src/backend/routers/announcements.py:44-56 | for canonical date strings, the string filter holds exactly when today is before the expiration date and not before the start date (if any) |
| `Announcements.ParseUnpadded` | src/backend/routers/announcements.py:120 | `strptime` reads the unpadded "2024-1-5" as 5 January 2024 |
| `Announcements.UnpaddedExpirationStaysActive` | src/backend/routers/announcements.py:44-56 | create accepts expiration "2024-1-5", and the filter still lists that announcement on 10 January 2024 |
| `Announcements.CreateDateError` | src/backend/routers/announcements.py:119-126 | create's date check passes exactly when the expiration parses and the pair keeps the ordering invariant; it reports the start after the expiration exactly when both parse and are in that order |
| `Announcements.MergedDateError` | src/backend/routers/announcements.py:197-204 | the update check on the merged pair passes exactly when the pair keeps the ordering invariant; it does nothing unless both dates are non-empty |
| `Announcements.MergedStart` | src/backend/routers/announcements.py:195 | the supplied start date, else the existing one; `UpdateDateError` and `Patched` state what it is used for |
| `Announcements.MergedExpiration` | src/backend/routers/announcements.py:194 | the supplied expiration date, else the existing one; `UpdateDateError` and `Patched` state what it is used for |
| `Announcements.UpdateDateError` | src/backend/routers/announcements.py:189-204 | without a date in the patch there is no check; with one, the check passes exactly when the merged pair (supplied over existing) keeps the invariant, so a passing update preserves it |
| `Announcements.UpdateSkipsExpirationFormat` | src/backend/routers/announcements.py:197 | an update setting only expiration "tomorrow" on a document without a start date passes the check, which create refuses with a bad-format error |
| `Announcements.CreateRejectsReversedDates` | src/backend/routers/announcements.py:119-124 | create with start "2025-06-10" and expiration "2025-06-01" is refused with start after expiration |
| `Announcements.NewRecord` | src/backend/routers/announcements.py:129-135 | the document create inserts: the body's fields, `created_at` and `created_by`, no update stamps; `AnnouncementService.Create` and `CreateThenListAll` state it is stored and listed |
| `Announcements.UpdateDocument` | src/backend/routers/announcements.py:177-183 | the supplied fields of the patch plus `updated_at` and `updated_by`; `Patched` states what setting it does |
| `Announcements.SetFields` | src/backend/routers/announcements.py:210-213 | `$set`: the fields the document names take its values, the rest stay; `Patched` states the result field by field |
| `Announcements.Patched` | src/backend/routers/announcements.py:177-213 | `$set` of the update document changes exactly the supplied fields and the update stamps; the creation stamps and the unsupplied fields stay |
| `Announcements.InsertionPoint` | src/backend/routers/announcements.py:86 | inserting at the returned position keeps a list sorted by expiration date, latest first |
| `Announcements.AnnouncementService.ListActive` | src/backend/routers/announcements.py:43-65 | returns exactly the stored documents that pass the active filter for today's `isoformat`, each once, with its id |
| `Announcements.AnnouncementService.ListAll` | src/backend/routers/announcements.py:81-93 | an empty caller gets `Unauthorized`; otherwise every stored document once, with its id, sorted by expiration date descending |
| `Announcements.AnnouncementService.Create` | src/backend/routers/announcements.py:113-144 | checks the caller, then the dates; on success inserts exactly one new document with the given fields, the creation stamps and the fresh id, and returns it; on failure the collection is unchanged; the invariant is kept |
| `Announcements.AnnouncementService.Update` | src/backend/routers/announcements.py:165-223 | errors in the order caller, id, empty patch, missing document, merged dates, each leaving the collection unchanged; on success only the target becomes `Patched`, and the returned document is the stored one; the invariant is kept |
| `Announcements.AnnouncementService.Delete` | src/backend/routers/announcements.py:243-260 | checks the caller, then the id; removes exactly the target document, or reports `NotFound` and changes nothing |
| `Announcements.CreateThenListAll` | src/backend/routers/announcements.py:86-144 | a document that create accepted is listed by list-all with all its fields and its id |
| `Announcements.DeleteTwice` | src/backend/routers/announcements.py:254-258 | deleting an existing id succeeds, and deleting it again reports `NotFound` |

## Left out

- The HTTP layer is not modelled: routing, query parameters, and the mapping of the error kinds to status codes 401, 400 and 404.
- The request-body constraints are preconditions of `Create` and `Update` (`WellFormed`), not error results. The request layer refuses a message shorter than 1 or longer than 500 characters before the handler runs.
- Store failures are not modelled. This covers the `except Exception` branches: `Internal` errors, and the active list falling back to an empty list.
- The fetch-then-update race in update is not modelled. Each handler runs alone, so the second not-found check after a successful fetch cannot fail in the model.
- The clock, today's date and id generation are not modelled. `now` (the timestamp), `today` and `freshId` are parameters. `Create` requires `freshId` to be a canonical id not yet in the collection.
- How `bson` parses ids is not modelled beyond 24 hexadecimal digits. Hex text with embedded whitespace, which `bytes.fromhex` skips, is treated as malformed.
- `strptime`'s `\d` also matches non-ASCII decimal digits. The model accepts ASCII digits only.
- Documents without an `expiration_date` field are not modelled. The router never writes one.
- Date fields holding anything other than a string or null are not modelled. The router writes null only for a missing start date, and the model holds that as `None`.
- The `_id` to `id` renaming loops and the output dictionaries are not modelled as such. Each returned document is an `Entry(id, record)`.
- The store's order is not modelled. The active list comes back in no particular order, and list-all leaves ties between equal expiration dates in no particular order.
- Logging (`print`) and `async` are not modelled.

# Photo gallery: a Dafny model of the photo table

The service is a small photo gallery written in Go on gin and gorm
(`main.go`). It keeps one table of `Photo` records (id, filename, url, sort
order, plus the soft-delete marker that `gorm.Model` brings). Four HTTP
handlers work on that table:

- `POST /upload` stores the file and inserts a record with url
  `/images/<filename>` and sort order 0;
- `GET /api/photos` lists the records that are not soft-deleted by ascending
  sort order;
- `DELETE /api/photos/:name` reduces the parameter to its base name,
  soft-deletes every record with that filename and removes the file;
- `POST /api/reorder` takes a list of filenames and, in one transaction, sets
  the sort order of the records named at position k to k.

The model has three modules:

- `Paths` (`paths.dfy`): Go's `filepath.Base` on Unix, as a pure function on
  strings, with its characterisation.
- `Photos` (`photos.dfy`): the `Photo` row and the effect of each SQL statement
  the handlers issue, as functions on the sequence of rows in insertion order:
  the next id, the listing query, the soft delete, one reorder update, and
  `Reordered`, a position-by-position definition of a committed reorder
  ("last index wins"). The lemmas about the handlers live here.
- `Service` (`service.dfy`): class `Gallery`, which owns the table as a
  `seq<Photo>` field. `Upload`, `Delete` and `Reorder` are methods that
  change it, and `List` is a function that reads it. `ApplyOrder` is the
  transaction body: a loop with invariants, proved equal to `Reordered`.
  `Upload`, `Delete` and `Reorder` keep `Valid()`: ids distinct and
  positive, and each url derived from its filename.

How the store behaves is written down as explicit modelling assumptions:

- a `Where("filename = ?")` statement touches every active row with that
  filename, and never a soft-deleted one (gorm's default scope);
- an update that matches no row succeeds;
- whether a statement fails is chosen by an oracle: the flags
  `insertFails`, `queryFails` and `deleteFails`, and for the reorder the set
  `rejected` of positions whose update fails. The handlers ignore all of
  these errors. A failed insert leaves the table unchanged, and the reply
  carries the record without an id (0). A failed query replies with an empty
  list. A failed soft delete leaves the table unchanged;
- the transaction rolls back to the state before the call when the body
  returns an error;
- new ids are one more than the largest id in the table.

The last point holds because the key auto-increments and rows are never
physically removed.

Three consequences of the code are worth stating plainly:

- An update that matches no row is not an error. A reorder naming an
  unknown filename makes that name's update a no-op, and the other updates
  commit (`ReorderIgnoresUnknownName`).
- An upload always appends a new record. Earlier active records with the
  same filename stay listed.
- Delete soft-deletes. The record stays in the table, and only the listing
  and later statements ignore it.

## Model

| member | source | states |
|---|---|---|
| `Paths.Base` | main.go:80 | the base name is never empty |
| `Paths.BaseIsRootIffAllSlashes` | main.go:80 | the base name is "/" exactly when the parameter is non-empty and made only of separators |
| `Paths.BaseIsLastElement` | main.go:80-82 | for a parameter with a non-separator character, the base name is non-empty and has no separator. It sits at the start of the parameter or right after a separator, and only separators follow it. So the removed file is the uploads directory joined with a single element (except the elements "." and "..", see ## Left out) |
| `Paths.BaseOfElement` | main.go:80 | a non-empty name without separators is its own base name |
| `Paths.BaseIdempotent` | main.go:80 | taking the base name twice gives the same result as taking it once |
| `Photos.NextId` | main.go:65 | the id assigned on insert is positive and larger than every id in the table |
| `Photos.NewPhoto` | main.go:60-65 | the inserted record has the uploaded filename, url `/images/` + filename, sort order 0, is active, and has an id used by no existing record |
| `Photos.InsertKeepsWellFormed` | main.go:60-65 | appending the new record keeps ids distinct and positive and urls derived from filenames, even when another record has the same filename |
| `Photos.Active` | main.go:74 | the query's rows are exactly the records not soft-deleted |
| `Photos.SortByOrder` | main.go:74 | the listing order is non-decreasing in sort order and is a permutation of its input |
| `Photos.MarkDeleted` | main.go:81 | after the delete, a record is marked deleted iff it already was or has the filename. Id, filename, url and sort order are unchanged, and records with other filenames are untouched |
| `Photos.DeleteHidesName` | main.go:81 | after the delete, the active records are exactly the former active records whose filename differs from the name |
| `Photos.DeleteIdempotent` | main.go:81 | deleting the same name twice leaves the table as deleting it once |
| `Photos.DeleteKeepsWellFormed` | main.go:81 | the soft delete keeps ids distinct and urls derived from filenames |
| `Photos.LastIndexOf` | main.go:96-99 | the result is absent iff the name is not in the list. Otherwise it is a position holding the name with no later occurrence of it |
| `Photos.SetOrder` | main.go:99 | one update of the reorder: the record count stays and only sort orders change. Every active record with the filename gets the value, and soft-deleted records and records with other filenames are unchanged |
| `Photos.ReorderedAt` | main.go:95-103 | after a committed reorder, only sort orders change and the record count stays. An active record whose filename is in the list gets the last index at which the filename occurs; every other record is unchanged |
| `Photos.ReorderedStep` | main.go:99 | the update at position n, run after the first n updates, gives the committed state for the first n+1 filenames |
| `Photos.ReorderIdempotent` | main.go:95-103 | reordering twice with the same list leaves the table as reordering once |
| `Photos.ReorderIgnoresUnknownName` | main.go:99-101 | appending a filename that names no active record does not change the committed table |
| `Photos.ReorderKeepsWellFormed` | main.go:95-103 | a reorder keeps ids distinct and urls derived from filenames |
| `Photos.ActiveRowTakesPosition` | main.go:96-99 | when the list names every active record, each active record's sort order is the last position of its filename in the list |
| `Photos.ListingFollowsOrder` | main.go:74 | when the list names every active record, the listing after the reorder is ordered by the last position of each filename in the list |
| `Service.Gallery.Upload` | main.go:50-68 | with no file, the reply is 400 and the table is unchanged. Otherwise the reply carries a record with the uploaded filename, the derived url and sort order 0, and that record is in the table iff the insert succeeded. On success exactly one record with a fresh id is appended and all existing records stay as they were. On a failed insert the table is unchanged and the record's id is 0 |
| `Service.Gallery.List` | main.go:71-76 | when the query succeeds, the listing is sorted by sort order and is a permutation of the active records, and a record is listed iff it is in the table and not deleted. When the query fails, the listing is empty |
| `Service.Gallery.Delete` | main.go:79-84 | when the soft delete succeeds, every active record named `Base(param)` is soft-deleted and nothing else changes. When it fails, the table is unchanged. The removed file is `Base(param)`, and the reply is success either way, whether or not anything matched |
| `Service.Gallery.ApplyOrder` | main.go:96-103 | the loop fails iff some update up to the list's length is rejected. On success the table equals `Reordered` of the old table. On failure, the updates before the first rejected position are applied |
| `Service.Gallery.Reorder` | main.go:87-107 | a body that does not bind gives 400 and leaves the table unchanged. Otherwise the reply is success, and the transaction commits iff no update is rejected. A commit gives `Reordered` of the old table; a failed transaction leaves the table exactly as before |

## Left out

- HTTP routing, JSON binding and serialisation, and status codes beyond
  success or 400. A handler receives its bound input as an `Option`.
- Static file serving, creating the uploads directory and starting the
  server (main.go:43-47, 108).
- Opening the database, `AutoMigrate` and the startup panic (main.go:24-34).
  There is no constructor; any table that satisfies `Valid()` can serve as
  the initial state.
- File contents on disk. `SaveUploadedFile` and `os.Remove` are not modelled,
  and their errors are ignored by the code anyway. For delete, the model
  keeps only the name of the file that is removed.
- The lexical cleaning that `filepath.Join` applies to the removal path.
  `Base` can yield "." or ".." (for example for "a/.." or a parameter that
  decodes to ".."), and `Base("..")` is "..". Join folds "." and "/" into the
  uploads directory itself and ".." into its parent, the working directory.
  `os.Remove` then targets a directory rather than a file under uploads, and
  the code ignores its error.
- The value of `file.Filename`, which comes from the multipart library. It
  is treated as an arbitrary string.
- gorm's CreatedAt, UpdatedAt and DeletedAt values. Only the fact that a
  record is deleted is kept.
- Concurrent requests. Each handler call is one atomic step.
- The tie order among equal sort orders in the listing. The store leaves it
  unspecified; `SortByOrder` keeps table order, and no lemma depends on that.
- A failed query's reply: Go sends JSON `null` where the model returns
  the empty list.
- Go strings are byte strings, and Dafny's `string` is a sequence of
  Unicode scalar values, so a parameter or filename holding invalid UTF-8
  cannot be represented. This does not affect `Base`, because '/' never
  occurs inside a multi-byte UTF-8 sequence, and filenames are compared
  exactly.
- Which individual update fails, and why. This comes from the `rejected`
  oracle and is not tied to an unknown filename.

/**
 The photo table and the effect of each statement the handlers send to it,
 as functions on the sequence of rows in insertion order. `deleted` stands for
 the soft-delete marker that embedding `gorm.Model` gives the record: rows are
 never removed, and every query and update below ignores rows that carry it.
 */
module Photos {

  datatype Option<T> = None | Some(value: T)

  /** One row of the photo table. */
  datatype Photo = Photo(id: nat, filename: string, url: string, sortOrder: int, deleted: bool)

  /** The public path under which the server publishes an uploaded file. */
  function ImageUrl(filename: string): string {
    "/images/" + filename
  }

  /** Ids are distinct and positive, and each url is derived from its filename. */
  predicate WellFormed(rows: seq<Photo>) {
    && (forall i, j :: 0 <= i < j < |rows| ==> rows[i].id != rows[j].id)
    && (forall i :: 0 <= i < |rows| ==> rows[i].id > 0 && rows[i].url == ImageUrl(rows[i].filename))
  }

  // ---------------------------------------------------------------------------
  // Insert: the id the store assigns to a new row

  /**
   The id an insert receives. The key is an auto-incremented integer, and since
   rows are only ever soft-deleted, the largest id ever used is the largest id
   in the table: the next one is one more than that (1 for an empty table).
   */
  function NextId(rows: seq<Photo>): (r: nat)
    ensures r > 0
    ensures forall p :: p in rows ==> p.id < r
  {
    if rows == [] then 1
    else
      var rest := NextId(rows[1..]);
      if rows[0].id < rest then rest else rows[0].id + 1
  }

  /** The record the upload handler inserts for a file named `filename`. */
  function NewPhoto(rows: seq<Photo>, filename: string): (p: Photo)
    ensures p.filename == filename && p.url == ImageUrl(filename)
    ensures p.sortOrder == 0 && !p.deleted
    ensures p.id > 0 && forall q :: q in rows ==> q.id != p.id
  {
    Photo(NextId(rows), filename, ImageUrl(filename), 0, false)
  }

  /** Appending the new record keeps the table well formed, whatever its name. */
  lemma InsertKeepsWellFormed(rows: seq<Photo>, filename: string)
    requires WellFormed(rows)
    ensures WellFormed(rows + [NewPhoto(rows, filename)])
  {
  }

  // ---------------------------------------------------------------------------
  // Select: the listing query

  /** The rows that are not soft-deleted, in table order. */
  function Active(rows: seq<Photo>): (r: seq<Photo>)
    ensures forall p :: p in r <==> p in rows && !p.deleted
    ensures |r| <= |rows|
  {
    if rows == [] then []
    else if rows[0].deleted then Active(rows[1..])
    else [rows[0]] + Active(rows[1..])
  }

  predicate SortedByOrder(s: seq<Photo>) {
    forall i, j :: 0 <= i < j < |s| ==> s[i].sortOrder <= s[j].sortOrder
  }

  /** `p` placed in front of the first row of `s` whose sort order is not smaller. */
  function InsertByOrder(p: Photo, s: seq<Photo>): (r: seq<Photo>)
    requires SortedByOrder(s)
    ensures SortedByOrder(r)
    ensures multiset(r) == multiset(s) + multiset{p}
    ensures |r| == |s| + 1 && (r[0] == p || (s != [] && r[0] == s[0]))
  {
    if s == [] || p.sortOrder <= s[0].sortOrder then [p] + s
    else
      var rest := InsertByOrder(p, s[1..]);
      assert s == [s[0]] + s[1..];
      [s[0]] + rest
  }

  /**
   The order in which the store returns rows for "ORDER BY sort_order ASC".
   Which row comes first among equal sort orders is not specified by the
   store; this model keeps table order, and nothing proved below depends on it.
   */
  function SortByOrder(s: seq<Photo>): (r: seq<Photo>)
    ensures SortedByOrder(r)
    ensures multiset(r) == multiset(s)
  {
    if s == [] then []
    else
      assert s == [s[0]] + s[1..];
      InsertByOrder(s[0], SortByOrder(s[1..]))
  }

  // ---------------------------------------------------------------------------
  // Soft delete: UPDATE ... SET deleted_at WHERE filename = ? AND deleted_at IS NULL

  function SoftDelete(p: Photo, name: string): Photo {
    if !p.deleted && p.filename == name then p.(deleted := true) else p
  }

  /** The table after soft-deleting every active row whose filename is `name`. */
  function MarkDeleted(rows: seq<Photo>, name: string): (r: seq<Photo>)
    ensures |r| == |rows|
    ensures forall i :: 0 <= i < |rows| ==>
      && r[i].id == rows[i].id && r[i].filename == rows[i].filename
      && r[i].url == rows[i].url && r[i].sortOrder == rows[i].sortOrder
      && (r[i].deleted <==> rows[i].deleted || rows[i].filename == name)
    ensures forall i :: 0 <= i < |rows| && rows[i].filename != name ==> r[i] == rows[i]
  {
    seq(|rows|, i requires 0 <= i < |rows| => SoftDelete(rows[i], name))
  }

  /** After the delete, the listing holds exactly the former active rows not named `name`. */
  lemma DeleteHidesName(rows: seq<Photo>, name: string)
    ensures forall p :: p in Active(MarkDeleted(rows, name)) <==> p in Active(rows) && p.filename != name
  {
  }

  /** Deleting the same name a second time changes nothing. */
  lemma DeleteIdempotent(rows: seq<Photo>, name: string)
    ensures MarkDeleted(MarkDeleted(rows, name), name) == MarkDeleted(rows, name)
  {
  }

  lemma DeleteKeepsWellFormed(rows: seq<Photo>, name: string)
    requires WellFormed(rows)
    ensures WellFormed(MarkDeleted(rows, name))
  {
  }

  // ---------------------------------------------------------------------------
  // Reorder: UPDATE ... SET sort_order = k WHERE filename = ? AND deleted_at IS NULL

  /** The last position at which `name` occurs in `order`. */
  function LastIndexOf(order: seq<string>, name: string): (r: Option<nat>)
    ensures r.None? <==> name !in order
    ensures r.Some? ==> r.value < |order| && order[r.value] == name
    ensures r.Some? ==> forall j :: r.value < j < |order| ==> order[j] != name
  {
    if order == [] then None
    else if order[|order| - 1] == name then Some(|order| - 1)
    else
      assert order == order[..|order| - 1] + [order[|order| - 1]];
      LastIndexOf(order[..|order| - 1], name)
  }

  function AssignOrder(p: Photo, name: string, value: int): Photo {
    if !p.deleted && p.filename == name then p.(sortOrder := value) else p
  }

  /**
   One update of the reorder transaction: every active row named `name` gets
   `value`; soft-deleted rows and rows with other filenames are untouched.
   */
  function SetOrder(rows: seq<Photo>, name: string, value: int): (r: seq<Photo>)
    ensures |r| == |rows|
    ensures forall i :: 0 <= i < |rows| ==> r[i] == rows[i].(sortOrder := r[i].sortOrder)
    ensures forall i :: 0 <= i < |rows| && !rows[i].deleted && rows[i].filename == name ==>
      r[i].sortOrder == value
    ensures forall i :: 0 <= i < |rows| && (rows[i].deleted || rows[i].filename != name) ==>
      r[i] == rows[i]
  {
    seq(|rows|, i requires 0 <= i < |rows| => AssignOrder(rows[i], name, value))
  }

  function Reposition(p: Photo, order: seq<string>): Photo {
    if p.deleted then p
    else match LastIndexOf(order, p.filename)
      case Some(k) => p.(sortOrder := k)
      case None => p
  }

  /**
   The table after a committed reorder with `order`, stated position by
   position: a later occurrence of a filename overrides an earlier one.
   */
  function Reordered(rows: seq<Photo>, order: seq<string>): seq<Photo> {
    seq(|rows|, i requires 0 <= i < |rows| => Reposition(rows[i], order))
  }

  /**
   What a committed reorder does to each row: an active row whose filename
   occurs in `order` takes the last index at which it occurs; every other row
   keeps its sort order; nothing but the sort order ever changes.
   */
  lemma ReorderedAt(rows: seq<Photo>, order: seq<string>)
    ensures |Reordered(rows, order)| == |rows|
    ensures forall i :: 0 <= i < |rows| ==>
      Reordered(rows, order)[i] == rows[i].(sortOrder := Reordered(rows, order)[i].sortOrder)
    ensures forall i :: 0 <= i < |rows| && !rows[i].deleted && rows[i].filename in order ==>
      var k := Reordered(rows, order)[i].sortOrder;
      && 0 <= k < |order| && order[k] == rows[i].filename
      && forall j :: k < j < |order| ==> order[j] != rows[i].filename
    ensures forall i :: 0 <= i < |rows| && (rows[i].deleted || rows[i].filename !in order) ==>
      Reordered(rows, order)[i] == rows[i]
  {
  }

  /** Running update number |order| after the first |order| updates. */
  lemma ReorderedStep(rows: seq<Photo>, order: seq<string>, name: string)
    ensures SetOrder(Reordered(rows, order), name, |order|) == Reordered(rows, order + [name])
  {
  }

  /** Reordering twice with the same list leaves the table as reordering once. */
  lemma ReorderIdempotent(rows: seq<Photo>, order: seq<string>)
    ensures Reordered(Reordered(rows, order), order) == Reordered(rows, order)
  {
  }

  /**
   A filename that names no active row has no effect on the table: the update
   for it matches nothing and is not an error.
   */
  lemma ReorderIgnoresUnknownName(rows: seq<Photo>, order: seq<string>, name: string)
    requires forall i :: 0 <= i < |rows| && !rows[i].deleted ==> rows[i].filename != name
    ensures Reordered(rows, order + [name]) == Reordered(rows, order)
  {
  }

  lemma ReorderKeepsWellFormed(rows: seq<Photo>, order: seq<string>)
    requires WellFormed(rows)
    ensures WellFormed(Reordered(rows, order))
  {
  }

  /** After a reorder that names every active row, each active row's sort order is its position. */
  lemma ActiveRowTakesPosition(rows: seq<Photo>, order: seq<string>, q: Photo)
    requires forall p :: p in rows && !p.deleted ==> p.filename in order
    requires q in Active(Reordered(rows, order))
    ensures LastIndexOf(order, q.filename) == Some(q.sortOrder)
  {
  }

  /** Sorting neither adds nor drops rows. */
  lemma SortedRowCameFromInput(s: seq<Photo>, q: Photo)
    requires q in SortByOrder(s)
    ensures q in s
  {
    assert q in multiset(SortByOrder(s));
  }

  /** A listing sorted by sort order, where each sort order is a position in `order`, follows `order`. */
  lemma SortedListingFollowsOrder(listed: seq<Photo>, order: seq<string>)
    requires SortedByOrder(listed)
    requires forall q :: q in listed ==> LastIndexOf(order, q.filename) == Some(q.sortOrder)
    ensures forall i, j :: 0 <= i < j < |listed| ==>
      LastIndexOf(order, listed[i].filename).Some? && LastIndexOf(order, listed[j].filename).Some? &&
      LastIndexOf(order, listed[i].filename).value <= LastIndexOf(order, listed[j].filename).value
  {
  }

  /**
   When `order` names every active row, the listing after the reorder follows
   `order`: rows come in the order in which their filenames last occur in it
   (rows sharing a filename stand next to each other).
   */
  lemma ListingFollowsOrder(rows: seq<Photo>, order: seq<string>)
    requires forall p :: p in rows && !p.deleted ==> p.filename in order
    ensures var listed := SortByOrder(Active(Reordered(rows, order)));
      forall i, j :: 0 <= i < j < |listed| ==>
        LastIndexOf(order, listed[i].filename).Some? && LastIndexOf(order, listed[j].filename).Some? &&
        LastIndexOf(order, listed[i].filename).value <= LastIndexOf(order, listed[j].filename).value
  {
    var active := Active(Reordered(rows, order));
    var listed := SortByOrder(active);
    forall q | q in listed
      ensures LastIndexOf(order, q.filename) == Some(q.sortOrder)
    {
      SortedRowCameFromInput(active, q);
      ActiveRowTakesPosition(rows, order, q);
    }
    SortedListingFollowsOrder(listed, order);
  }
}

/**
 The four request handlers of the gallery server, as methods of one object
 that owns the photo table. Each call is one sequential, atomic step; the HTTP
 layer is reduced to what a handler receives (the bound input, or None when
 binding failed) and which reply it sends.
 */
module Service {
  import opened Paths
  import opened Photos

  /** The replies the handlers send: 200 with a body, or 400. */
  datatype Reply = Created(photo: Photo) | Deleted | Saved | BadRequest

  class Gallery {
    /** The photo table, in insertion order, soft-deleted rows included. */
    var rows: seq<Photo>

    ghost predicate Valid()
      reads this
    {
      WellFormed(rows)
    }

    /**
     POST /upload. `file` is the name of the uploaded file in form field
     "photo", or None when the request has no such file. The file is written to
     the uploads directory under that name (not modelled) and a new row is
     appended; an existing row with the same filename is left as it is.
     `insertFails` says whether the store rejects the insert: the handler does
     not look at that error and still replies with the record, which then has
     no id (0) and is not in the table.
     */
    method Upload(file: Option<string>, insertFails: bool) returns (reply: Reply)
      requires Valid()
      modifies this
      ensures Valid()
      ensures file.None? ==> reply == BadRequest && rows == old(rows)
      ensures file.Some? ==>
        && reply.Created?
        && reply.photo.filename == file.value
        && reply.photo.url == ImageUrl(file.value)
        && reply.photo.sortOrder == 0
        && !reply.photo.deleted
        && (reply.photo in rows <==> !insertFails)
      ensures file.Some? && !insertFails ==>
        && rows == old(rows) + [reply.photo]
        && reply.photo.id > 0
        && (forall p :: p in old(rows) ==> p.id != reply.photo.id)
      ensures file.Some? && insertFails ==> rows == old(rows) && reply.photo.id == 0
    {
      if file.None? {
        return BadRequest;
      }
      if insertFails {
        reply := Created(Photo(0, file.value, ImageUrl(file.value), 0, false));
        assert forall p :: p in rows ==> p.id > 0;
        return;
      }
      var photo := NewPhoto(rows, file.value);
      InsertKeepsWellFormed(rows, file.value);
      rows := rows + [photo];
      reply := Created(photo);
    }

    /**
     GET /api/photos: the rows that are not soft-deleted, by ascending sort
     order (the order among equal sort orders is left to the store).
     `queryFails` says whether the store rejects the query: the handler does
     not look at that error and replies with the empty list.
     */
    function List(queryFails: bool): (listed: seq<Photo>)
      reads this
      ensures queryFails ==> listed == []
      ensures SortedByOrder(listed)
      ensures !queryFails ==> multiset(listed) == multiset(Active(rows))
      ensures !queryFails ==> forall p :: p in listed <==> p in rows && !p.deleted
    {
      if queryFails then []
      else
        assert forall p :: p in Active(rows) <==> p in multiset(Active(rows));
        SortByOrder(Active(rows))
    }

    /**
     DELETE /api/photos/:name. The parameter is reduced to its base name,
     every active row with that filename is soft-deleted, and the file of that
     name in the uploads directory is removed; `removed` is that name.
     `deleteFails` says whether the store rejects the soft delete, which then
     changes nothing. The reply is success whether or not a row matched, the
     soft delete went through or the removal worked.
     */
    method Delete(param: string, deleteFails: bool) returns (reply: Reply, removed: string)
      requires Valid()
      modifies this
      ensures Valid()
      ensures reply == Deleted
      ensures removed == Base(param)
      ensures rows == if deleteFails then old(rows) else MarkDeleted(old(rows), removed)
    {
      var name := Base(param);
      if !deleteFails {
        DeleteKeepsWellFormed(rows, name);
        rows := MarkDeleted(rows, name);
      }
      removed := name;
      reply := Deleted;
    }

    /**
     The body of the reorder transaction: the update at position k sets the
     sort order of every active row named order[k] to k. `rejected` holds the
     positions whose update the store reports as failed; the first such failure
     ends the loop and is returned, leaving the updates before it applied.
     */
    method ApplyOrder(order: seq<string>, rejected: set<nat>) returns (failed: bool)
      modifies this
      ensures failed <==> exists k :: k in rejected && k < |order|
      ensures !failed ==> rows == Reordered(old(rows), order)
      ensures failed ==> exists k :: (
        && k in rejected && k < |order|
        && (forall j :: j in rejected ==> k <= j)
        && rows == Reordered(old(rows), order[..k]))
    {
      ghost var before := rows;
      var index := 0;
      while index < |order|
        invariant 0 <= index <= |order|
        invariant forall j :: j in rejected ==> index <= j
        invariant rows == Reordered(before, order[..index])
      {
        if index in rejected {
          return true;
        }
        assert order[..index + 1] == order[..index] + [order[index]];
        ReorderedStep(before, order[..index], order[index]);
        rows := SetOrder(rows, order[index], index);
        index := index + 1;
      }
      assert order[..index] == order;
      failed := false;
    }

    /**
     POST /api/reorder. `body` is the request body bound as a list of
     filenames, or None when it does not bind. The updates run in one
     transaction: either all of them are applied or, when one fails, the table
     is rolled back. `committed` is the transaction's outcome, which the
     handler ignores: it replies success either way.
     */
    method Reorder(body: Option<seq<string>>, rejected: set<nat>) returns (reply: Reply, committed: bool)
      requires Valid()
      modifies this
      ensures Valid()
      ensures body.None? ==> reply == BadRequest && !committed && rows == old(rows)
      ensures body.Some? ==> reply == Saved
      ensures body.Some? ==> (committed <==> forall k :: k in rejected ==> k >= |body.value|)
      ensures committed ==> rows == Reordered(old(rows), body.value)
      ensures !committed ==> rows == old(rows)
    {
      if body.None? {
        return BadRequest, false;
      }
      var order := body.value;
      var before := rows;
      var failed := ApplyOrder(order, rejected);
      if failed {
        rows := before;
      }
      committed := !failed;
      ReorderKeepsWellFormed(before, order);
      reply := Saved;
    }
  }
}

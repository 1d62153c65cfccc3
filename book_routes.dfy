/**
 * The `/api/books` routes: POST (required fields, the uploaded image URL,
 * the requester as owner), DELETE (not found, not owner, best-effort removal
 * of the hosted image, then exactly that book removed) and the page-count
 * arithmetic of GET. The image host's upload and destroy are inputs.
 */
module BookRoutes {
  import opened Common
  import opened JsStrings

  const AllFieldsError: string := "All fields are required"
  const InternalError: string := "Internal server error"
  const NotFoundError: string := "Book not found"
  const NotOwnerMessage: string := "Not authorized to delete this book"
  const DeletedMessage: string := "Book deleted successfully"

  const DefaultLimit: nat := 5

  /** A stored book; `user` is the owner's id. */
  datatype Book = Book(
    id: Id,
    title: string,
    caption: string,
    rating: int,
    image: string,
    user: Id,
    createdAt: Timestamp)

  /** A POST body; `image` is the base64 data URL to upload. */
  datatype BookBody = BookBody(title: Option<string>, caption: Option<string>, rating: Option<int>, image: Option<string>)

  datatype Reply = Failed(status: nat, body: Body) | Created(status: nat, book: Book) | Done(status: nat, body: Body)

  /** Some of title, caption, rating and image is falsy; a rating of 0 counts as missing. */
  predicate MissingField(body: BookBody)
  {
    !Truthy(body.title) || !Truthy(body.caption) || body.rating.None? || body.rating.value == 0 ||
    !Truthy(body.image)
  }

  /** The route checks presence only: any non-zero rating passes, inside 1 to 5 or not. */
  lemma RatingNeedsOnlyTruthiness(title: string, caption: string, rating: int, image: string)
    requires title != "" && caption != "" && image != ""
    ensures MissingField(BookBody(Some(title), Some(caption), Some(rating), Some(image))) <==> rating == 0
  {
  }

  /** `Book.findById(id)`. */
  function FindBook(books: seq<Book>, id: Id): (r: Option<Book>)
    ensures r.Some? ==> r.value in books && r.value.id == id
    ensures r.None? <==> forall i :: 0 <= i < |books| ==> books[i].id != id
  {
    if books == [] then None
    else if books[0].id == id then Some(books[0])
    else FindBook(books[1..], id)
  }

  /** `book.deleteOne()`: the collection without the book `id`, the others kept in order. */
  function RemoveBook(books: seq<Book>, id: Id): (r: seq<Book>)
    ensures forall b :: b in r <==> b in books && b.id != id
    ensures |r| <= |books|
  {
    if books == [] then []
    else if books[0].id == id then RemoveBook(books[1..], id)
    else [books[0]] + RemoveBook(books[1..], id)
  }

  ghost predicate DistinctIds(books: seq<Book>)
  {
    forall i, j :: 0 <= i < j < |books| ==> books[i].id != books[j].id
  }

  /** With distinct ids, removing a present book drops exactly one document. */
  lemma {:induction false} RemoveBookDropsOne(books: seq<Book>, id: Id)
    requires DistinctIds(books)
    requires FindBook(books, id).Some?
    ensures |RemoveBook(books, id)| == |books| - 1
  {
    if books[0].id == id {
      assert forall i :: 0 <= i < |books[1..]| ==> books[1..][i].id != id by {
        forall i | 0 <= i < |books[1..]| ensures books[1..][i].id != id {
          assert books[1..][i] == books[i + 1];
        }
      }
      RemoveBookAbsent(books[1..], id);
    } else {
      RemoveBookDropsOne(books[1..], id);
    }
  }

  lemma {:induction false} RemoveBookAbsent(books: seq<Book>, id: Id)
    requires forall i :: 0 <= i < |books| ==> books[i].id != id
    ensures RemoveBook(books, id) == books
  {
    if books != [] {
      RemoveBookAbsent(books[1..], id);
    }
  }

  /** Removing a book keeps the ids distinct. */
  lemma {:induction false} RemoveBookDistinct(books: seq<Book>, id: Id)
    requires DistinctIds(books)
    ensures DistinctIds(RemoveBook(books, id))
  {
    if books != [] {
      assert DistinctIds(books[1..]) by {
        forall i, j | 0 <= i < j < |books[1..]| ensures books[1..][i].id != books[1..][j].id {
          assert books[1..][i] == books[i + 1] && books[1..][j] == books[j + 1];
        }
      }
      RemoveBookDistinct(books[1..], id);
      var rest := RemoveBook(books[1..], id);
      if books[0].id != id {
        forall j | 0 <= j < |rest| ensures rest[j].id != books[0].id {
          assert rest[j] in books[1..];
        }
      }
    }
  }

  /** Removing one book leaves every other book where a lookup finds it. */
  lemma {:induction false} RemoveBookKeepsOthers(books: seq<Book>, id: Id, other: Id)
    requires other != id
    ensures FindBook(RemoveBook(books, id), other) == FindBook(books, other)
  {
    if books != [] {
      RemoveBookKeepsOthers(books[1..], id, other);
    }
  }

  /** The Cloudinary public id: the last `/`-segment of the URL, cut at its first `.`. */
  function PublicId(url: string): string
  {
    var segments := Split(url, '/');
    Split(segments[|segments| - 1], '.')[0]
  }

  /** `p` sits in `url` at `k`, after the last `/`, and runs up to a `.` or the end. */
  predicate StemAt(url: string, p: string, k: nat)
  {
    OccursAt(url, p, k) && (k == 0 || url[k - 1] == '/') && '/' !in url[k..] &&
    (k + |p| == |url| || url[k + |p|] == '.')
  }

  lemma PublicIdIsStem(url: string)
    ensures '/' !in PublicId(url) && '.' !in PublicId(url)
    ensures exists k: nat :: StemAt(url, PublicId(url), k)
  {
    var segments := Split(url, '/');
    var last := segments[|segments| - 1];
    SplitLast(url, '/');
    var pieces := Split(last, '.');
    SplitFirst(last, '.');
    var p := pieces[0];
    assert p == PublicId(url);
    var k := |url| - |last|;
    assert url[k..] == last;
    assert '/' !in last;
    assert url[k..k + |p|] == last[..|p|];
    assert StemAt(url, p, k);
  }

  lemma LastSegmentAfterSlash(prefix: string, tail: string)
    requires prefix == [] || prefix[|prefix| - 1] == '/'
    requires '/' !in tail
    ensures var segments := Split(prefix + tail, '/'); segments[|segments| - 1] == tail
  {
    SplitNoSeparator(tail, '/');
    if prefix == [] {
      assert prefix + tail == tail;
    } else {
      var front := prefix[..|prefix| - 1];
      assert prefix + tail == front + ['/'] + tail;
      SplitAround(front, tail, '/');
    }
  }

  lemma StemBeforeDot(stem: string, ext: string)
    requires '.' !in stem
    requires ext == [] || ext[0] == '.'
    ensures Split(stem + ext, '.')[0] == stem
  {
    if ext == [] {
      SplitNoSeparator(stem, '.');
      assert stem + ext == stem;
    } else {
      assert stem + ext == stem + ['.'] + ext[1..];
      SplitAfterHead(stem, ext[1..], '.');
    }
  }

  /** Conversely, the stem after the last `/` and before the first following `.` is the public id. */
  lemma PublicIdOfStem(prefix: string, stem: string, ext: string)
    requires prefix == [] || prefix[|prefix| - 1] == '/'
    requires '/' !in stem && '/' !in ext && '.' !in stem
    requires ext == [] || ext[0] == '.'
    ensures PublicId(prefix + stem + ext) == stem
  {
    var tail := stem + ext;
    assert '/' !in tail;
    assert prefix + stem + ext == prefix + tail;
    LastSegmentAfterSlash(prefix, tail);
    StemBeforeDot(stem, ext);
  }

  /** An image URL as the image host returns it. */
  lemma PublicIdExample()
    ensures PublicId("https://res.cloudinary.com/demo/image/upload/v1/sample.jpg") == "sample"
  {
    PublicIdOfStem("https://res.cloudinary.com/demo/image/upload/v1/", "sample", ".jpg");
    assert "https://res.cloudinary.com/demo/image/upload/v1/" + "sample" + ".jpg" ==
      "https://res.cloudinary.com/demo/image/upload/v1/sample.jpg";
  }

  /** Cleanup is attempted only for a non-empty URL that mentions "cloudinary". */
  predicate HostedImage(image: string)
  {
    image != "" && Includes(image, "cloudinary")
  }

  /** `Math.ceil(total / limit)` for a positive whole limit: the fewest pages of `limit` that hold `total`. */
  function PageCount(total: nat, limit: nat): (pages: nat)
    requires limit > 0
    ensures pages * limit >= total
    ensures pages == 0 || (pages - 1) * limit < total
  {
    var n := total + limit - 1;
    assert n == (n / limit) * limit + n % limit;
    n / limit
  }

  /**
   * The `totalPages` field of a GET reply for `req.query.limit`, absent or a
   * whole number: absent means the default 5; a limit of 0 divides by zero,
   * whose Infinity or NaN the JSON reply carries as null (None here).
   */
  function TotalPages(total: nat, limit: Option<nat>): (r: Option<nat>)
    ensures limit.None? ==> r == Some(PageCount(total, DefaultLimit))
    ensures limit == Some(0) <==> r.None?
    ensures limit.Some? && limit.value > 0 ==> r == Some(PageCount(total, limit.value))
  {
    var l := if limit.None? then DefaultLimit else limit.value;
    if l == 0 then None else Some(PageCount(total, l))
  }

  lemma MulMonotone(a: nat, b: nat, c: nat)
    requires a <= b
    ensures a * c <= b * c
  {
  }

  /** Item `i` (counting from 0) is on page `i / limit + 1`, which is within the page count. */
  lemma PageOfItem(total: nat, limit: nat, i: nat)
    requires limit > 0 && i < total
    ensures var p := i / limit + 1;
      1 <= p <= PageCount(total, limit) && (p - 1) * limit <= i < p * limit
  {
    var d := i / limit;
    var pages := PageCount(total, limit);
    assert i == d * limit + i % limit;
    assert (d + 1) * limit == d * limit + limit;
    if pages <= d {
      MulMonotone(pages, d, limit);
    }
  }

  /** No other page holds item `i`: the pages do not overlap. */
  lemma PageOfItemUnique(limit: nat, i: nat, q: nat)
    requires limit > 0
    requires q >= 1 && (q - 1) * limit <= i < q * limit
    ensures q == i / limit + 1
  {
    var d := i / limit;
    assert i == d * limit + i % limit;
    assert (d + 1) * limit == d * limit + limit;
    if q <= d {
      MulMonotone(q, d, limit);
    } else if q > d + 1 {
      MulMonotone(d + 1, q - 1, limit);
    }
  }

  /** The book documents, with the operations that change them. */
  class BookCollection {
    var books: seq<Book>
    var nextId: Id

    ghost predicate Valid()
      reads this
    {
      DistinctIds(books) && forall i :: 0 <= i < |books| ==> books[i].id < nextId
    }

    constructor ()
      ensures Valid() && books == []
    {
      books := [];
      nextId := 0;
    }

    /**
     * POST `/api/books` by `requester`. `upload` is the URL the image host
     * returns for the data URL, or None when the upload throws. A new book
     * is owned by the requester and carries the uploaded URL.
     */
    method Create(requester: Id, body: BookBody, upload: Option<string>, now: Timestamp) returns (reply: Reply)
      requires Valid()
      modifies this
      ensures Valid()
      ensures MissingField(body) ==>
        reply == Failed(400, Error(AllFieldsError)) && books == old(books) && nextId == old(nextId)
      ensures !MissingField(body) && upload.None? ==>
        reply == Failed(500, Error(InternalError)) && books == old(books) && nextId == old(nextId)
      ensures !MissingField(body) && upload.Some? ==>
        var book := Book(old(nextId), body.title.value, body.caption.value, body.rating.value,
                         upload.value, requester, now);
        books == old(books) + [book] && reply == Created(201, book) && nextId == old(nextId) + 1
    {
      if MissingField(body) {
        return Failed(400, Error(AllFieldsError));
      }
      if upload.None? {
        return Failed(500, Error(InternalError));
      }
      var imageUrl := upload.value;
      var newBook := Book(nextId, body.title.value, body.caption.value, body.rating.value, imageUrl, requester, now);
      books := books + [newBook];
      nextId := nextId + 1;
      reply := Created(201, newBook);
    }

    /**
     * DELETE `/api/books/:id` by `requester`. `destroyed` is whether the
     * image host's destroy call succeeded; a failure is swallowed. `cleanup`
     * is the public id passed to destroy, when cleanup is attempted.
     */
    method Delete(requester: Id, id: Id, destroyed: bool) returns (reply: Reply, cleanup: Option<string>)
      requires Valid()
      modifies this
      ensures Valid() && nextId == old(nextId)
      ensures FindBook(old(books), id).None? ==>
        reply == Failed(404, Error(NotFoundError)) && books == old(books) && cleanup.None?
      ensures FindBook(old(books), id).Some? && FindBook(old(books), id).value.user != requester ==>
        reply == Failed(401, Message(NotOwnerMessage)) && books == old(books) && cleanup.None?
      ensures FindBook(old(books), id).Some? && FindBook(old(books), id).value.user == requester ==>
        var image := FindBook(old(books), id).value.image;
        reply == Done(200, Message(DeletedMessage)) && books == RemoveBook(old(books), id) &&
        cleanup == (if HostedImage(image) then Some(PublicId(image)) else None)
    {
      var book := FindBook(books, id);
      if book.None? {
        return Failed(404, Error(NotFoundError)), None;
      }
      if book.value.user != requester {
        return Failed(401, Message(NotOwnerMessage)), None;
      }
      cleanup := None;
      if book.value.image != "" && Includes(book.value.image, "cloudinary") {
        var publicId := PublicId(book.value.image);
        cleanup := Some(publicId);
        // Whether or not destroy succeeded, the handler carries on.
      }
      RemoveBookDistinct(books, id);
      books := RemoveBook(books, id);
      reply := Done(200, Message(DeletedMessage));
    }
  }
}

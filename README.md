# Product catalogue service — Dafny model

The product service keeps its catalogue in a process-wide list of
`{id, name}` records. At startup the list holds `(1, "Product 1")` and
`(2, "Product 2")`. Five HTTP handlers work on it:

- list returns the whole table;
- get-by-id returns the first record with the requested id, or not-found;
- create appends a record whose id is one more than the largest id;
- update renames the first record with the requested id;
- delete removes a record, but only when exactly one record has the id.

This project models that table and its handlers without the web framework
around them.

- `catalogue.dfy`, module `Catalogue`, holds the record and response
  datatypes and the pure functions on table values. These are the list
  comprehension that filters by id, the first matching position, the largest
  id, the table after a rename, and Python's `list.remove`. The module also
  holds the lemmas about these functions.
- `product_store.dfy`, module `ProductService`, holds the class
  `ProductStore`. Its field `products: seq<Product>` is the global list. The
  two reading handlers are functions. The three changing handlers are methods
  with `modifies this`. Each method states the new table in terms of the old
  one. Each method also states that the invariant "no two records share an
  id" (`Valid()`) is kept. The update handler keeps the source's loop with
  its early exit.

A handler's HTTP status and body become a `Response`:

| response | HTTP reply |
|---|---|
| `Ok(product)` | 200 |
| `Created(product)` | 201 |
| `Deleted(id)` | 200 with the deletion message |
| `NotFound(id)` | 404 |
| `ServerError` | 500 from an exception that escapes the handler |

The only such exception modelled is `max` of an empty list. It is raised by a
create on an empty table, and the table is then left as it was. An empty
table is reachable: delete both startup products (`EmptiedTableRejectsCreate`).
The new id is always the largest id plus one, so deleting the product with
the largest id and then creating one hands out that id again
(`DeletedLargestIdIsReused`). Ids are therefore unique among live products at
every moment, but they are not unique over the life of the service.

Later iterations of the service in the same repository keep the table in a
database, where the store assigns ids. This model follows the in-memory code:
ids come from `max + 1`, the startup table has two records, and there is no
store-failure path.

## Model

| member | source | states |
|---|---|---|
| `ProductService.ProductStore.constructor` | wired-brain/product-service/src/app.py:3-6 | the startup table is exactly `(1,"Product 1")`, `(2,"Product 2")` in that order, and its ids are unique |
| `ProductService.ProductStore.GetProducts` | wired-brain/product-service/src/app.py:13-14 | list returns every record of the table, same length, same order |
| `ProductService.ProductStore.GetProduct` | wired-brain/product-service/src/app.py:19-23 | get answers not-found exactly when no record has the id; otherwise it answers the first record that has it |
| `Catalogue.Matching` | wired-brain/product-service/src/app.py:20 | the id filter keeps only records of the table with that id; it is empty exactly when the id is absent, and starts with the first match |
| `Catalogue.MatchingKeepsAll` | wired-brain/product-service/src/app.py:20 | every record of the table that has the id is in the filter result |
| `Catalogue.MatchingCount` | wired-brain/product-service/src/app.py:20 | the filter's length is the number of times the id occurs among the table's ids, so each match is kept as often as it occurs |
| `Catalogue.IndexOf` | wired-brain/product-service/src/app.py:57-61 | the position found is a record with the id, and no earlier record has it |
| `Catalogue.MaxId` | wired-brain/product-service/src/app.py:34 | for a non-empty table, the value is one of its ids and no id exceeds it |
| `ProductService.ProductStore.PostProduct` | wired-brain/product-service/src/app.py:29-46 | an empty table gives ServerError and no change; otherwise the new record `(max+1, name)` is appended after all old records, its id exceeds every old id, the length grows by one, a following get returns it, and unique ids stay unique |
| `Catalogue.MatchingAppend` | wired-brain/product-service/src/app.py:43 | filtering the table with a record appended is the old filter result, followed by the new record when its id matches |
| `Catalogue.AppendKeepsUnique` | wired-brain/product-service/src/app.py:34-43 | appending a record whose id exceeds every existing id keeps ids unique |
| `Catalogue.Renamed` | wired-brain/product-service/src/app.py:57-63 | the updated table has the same ids in the same order; only the first record with the id gets the new name; without a match the table is unchanged |
| `ProductService.ProductStore.PutProduct` | wired-brain/product-service/src/app.py:52-63 | update answers Ok exactly when the id is present; only the first matching record changes, and only its name; the answer is the renamed record and a following get returns it; otherwise it answers NotFound and nothing changes; ids and uniqueness are kept |
| `Catalogue.SameIdsSameUniqueness` | wired-brain/product-service/src/app.py:57-61 | two tables with the same ids in the same order have unique ids either both or neither |
| `Catalogue.RemoveFirst` | wired-brain/product-service/src/app.py:72 | `list.remove` of a present element shortens the table by exactly one |
| `Catalogue.RemoveFirstAt` | wired-brain/product-service/src/app.py:72 | removing the first occurrence of the record at position k cuts out exactly position k and keeps the rest in order |
| `Catalogue.SingleMatch` | wired-brain/product-service/src/app.py:70-71 | the filter finds exactly one record if and only if the id is present and no record but the first match has it |
| `Catalogue.UniqueMatch` | wired-brain/product-service/src/app.py:70-71 | in a table with unique ids, the test "exactly one match" holds exactly when the id is present |
| `Catalogue.CutKeepsUnique` | wired-brain/product-service/src/app.py:72 | cutting one record out of a table with unique ids keeps the ids unique |
| `ProductService.ProductStore.DeleteProduct` | wired-brain/product-service/src/app.py:68-75 | with exactly one match, delete removes that record and keeps the others in order; the length drops by one and a following get answers NotFound; with zero or several matches it answers NotFound and changes nothing; it answers Deleted exactly when one record has the id; on a table with unique ids it succeeds exactly when the id is present, and ids stay unique |
| `ProductService.EmptiedTableRejectsCreate` | wired-brain/product-service/src/app.py:34 | from the startup table, deleting ids 1 and 2 and then creating gives ServerError |
| `ProductService.DeletedLargestIdIsReused` | wired-brain/product-service/src/app.py:34 | from the startup table, deleting id 2 and then creating gives back id 2 |

## Left out

- The web framework is not modelled: app construction, route registration and
  `app.run`. The router's path parsing is also left out. Its `<int:id>`
  converter passes only non-negative integers, while the handlers here take
  any `int`, which is a wider input set.
- JSON serialisation and parsing are not modelled. The request body is the
  parameter `name: string`. A body without a `name` key raises `KeyError` in
  the source, at line 39 on create and at line 60 on update; that case is not
  modelled. A request body that is not JSON is not modelled either.
- The reply texts and numeric status codes become the `Response` variants
  listed above.
- Concurrent serving of requests is not modelled. The source does no locking,
  so each handler is one atomic sequential step.
- Aliasing is not modelled. The source updates the record dictionary in
  place, and any holder of a reference to it sees the change. The model
  replaces the record value in the sequence. `list.remove` compares records
  by value here; in Python it also matches by identity first, which gives the
  same result because exactly one record has the id at that call.
- The database-backed, logging and configuration versions of the service are
  not part of this model.

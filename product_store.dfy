/** The product service: one table of products held by the process and the
    five request handlers that read and change it.  Each handler is one
    sequential step; the HTTP routing and JSON wrapping around it are not
    modelled. */
module ProductService {
  import opened Catalogue

  class ProductStore {
    /** The global `products` list, in insertion order. */
    var products: seq<Product>

    /** The catalogue's invariant: every live product has its own id. */
    ghost predicate Valid()
      reads this
    {
      UniqueIds(products)
    }

    /** The table the service starts with. */
    constructor ()
      ensures products == [Product(1, "Product 1"), Product(2, "Product 2")]
      ensures Valid()
    {
      products := [Product(1, "Product 1"), Product(2, "Product 2")];
    }

    /** GET /products: the whole table, every record in table order. */
    function GetProducts(): (r: seq<Product>)
      reads this
      ensures r == products
    {
      products
    }

    /** GET /product/<id>: the first record carrying `id`, or not-found. */
    function GetProduct(id: int): (r: Response)
      reads this
      ensures r.NotFound? <==> !HasId(products, id)
      ensures r.NotFound? ==> r == NotFound(id)
      ensures !r.NotFound? ==> HasId(products, id) && r == Ok(products[IndexOf(products, id)])
    {
      var found := Matching(products, id);
      if |found| == 0 then NotFound(id) else Ok(found[0])
    }

    /** POST /product: appends a record whose id is one more than the largest
        id.  On an empty table `max` raises, the handler fails and the table
        stays as it was. */
    method PostProduct(name: string) returns (r: Response)
      modifies this
      ensures old(products) == [] ==> r == ServerError && products == old(products)
      ensures old(products) != [] ==>
                r == Created(Product(MaxId(old(products)) + 1, name)) &&
                products == old(products) + [r.product]
      ensures r.Created? ==> forall i :: 0 <= i < |old(products)| ==> old(products)[i].id < r.product.id
      ensures r.Created? ==> |products| == |old(products)| + 1 && GetProduct(r.product.id) == Ok(r.product)
      ensures old(Valid()) ==> Valid()
    {
      if products == [] {
        r := ServerError;
        return;
      }
      var newId := MaxId(products) + 1;
      var created := Product(newId, name);
      ghost var before := products;
      if Valid() {
        AppendKeepsUnique(products, created);
      }
      products := products + [created];
      MatchingAppend(before, created, newId);
      r := Created(created);
    }

    /** PUT /product/<id>: the loop renames the first record carrying `id`
        and answers with it, leaving every id, every other record and the
        order alone; without such a record nothing changes. */
    method PutProduct(id: int, name: string) returns (r: Response)
      modifies this
      ensures products == Renamed(old(products), id, name)
      ensures r.Ok? <==> HasId(old(products), id)
      ensures r.Ok? ==> r.product == Product(id, name) &&
                        products == old(products)[IndexOf(old(products), id) := r.product] &&
                        GetProduct(id) == r
      ensures !r.Ok? ==> r == NotFound(id) && products == old(products)
      ensures Ids(products) == Ids(old(products))
      ensures old(Valid()) ==> Valid()
    {
      ghost var before := products;
      var i := 0;
      while i < |products|
        invariant 0 <= i <= |products|
        invariant products == before
        invariant forall j :: 0 <= j < i ==> products[j].id != id
      {
        if products[i].id == id {
          var updated := products[i].(name := name);
          products := products[i := updated];
          assert IndexOf(before, id) == i;
          assert products[i].id == id;
          assert IndexOf(products, id) == i;
          SameIdsSameUniqueness(before, products);
          r := Ok(updated);
          return;
        }
        i := i + 1;
      }
      r := NotFound(id);
    }

    /** DELETE /product/<id>: removes the record only when exactly one record
        carries `id`; any other count answers not-found and changes nothing. */
    method DeleteProduct(id: int) returns (r: Response)
      modifies this
      ensures |Matching(old(products), id)| == 1 ==>
                r == Deleted(id) &&
                var k := IndexOf(old(products), id);
                products == old(products)[..k] + old(products)[k + 1..]
      ensures |Matching(old(products), id)| != 1 ==> r == NotFound(id) && products == old(products)
      ensures r.Deleted? <==>
                HasId(old(products), id) &&
                forall j :: 0 <= j < |old(products)| && old(products)[j].id == id ==> j == IndexOf(old(products), id)
      ensures r.Deleted? ==> |products| == |old(products)| - 1 && GetProduct(id) == NotFound(id)
      ensures old(Valid()) ==> Valid() && (r.Deleted? <==> HasId(old(products), id))
    {
      ghost var before := products;
      SingleMatch(before, id);
      var found := Matching(products, id);
      if |found| == 1 {
        var k := IndexOf(products, id);
        assert products[k] !in products[..k] by {
          forall j | 0 <= j < k ensures products[..k][j] != products[k] {
            assert products[..k][j] == products[j];
          }
        }
        RemoveFirstAt(products, k);
        products := RemoveFirst(products, found[0]);
        assert !HasId(products, id) by {
          forall i | 0 <= i < |products| ensures products[i].id != id {
            if i < k {
              assert products[i] == before[..k][i] == before[i];
            } else {
              assert products[i] == before[k + 1..][i - k] == before[i + 1];
            }
          }
        }
        if UniqueIds(before) {
          CutKeepsUnique(before, k);
        }
        r := Deleted(id);
      } else {
        r := NotFound(id);
      }
      if UniqueIds(before) {
        UniqueMatch(before, id);
      }
    }
  }

  /** From the startup table, deleting both products leaves an empty table on
      which every create fails. */
  method EmptiedTableRejectsCreate() returns (r: Response)
    ensures r == ServerError
  {
    var store := new ProductStore();
    assert Matching(store.products, 1) == [Product(1, "Product 1")];
    var first := store.DeleteProduct(1);
    assert Matching(store.products, 2) == [Product(2, "Product 2")];
    var second := store.DeleteProduct(2);
    r := store.PostProduct("Product 3");
  }

  /** From the startup table, deleting the product with the largest id and
      then creating one hands the deleted id out again. */
  method DeletedLargestIdIsReused() returns (r: Response)
    ensures r == Created(Product(2, "Product 3"))
  {
    var store := new ProductStore();
    assert Matching(store.products, 2) == [Product(2, "Product 2")];
    var gone := store.DeleteProduct(2);
    r := store.PostProduct("Product 3");
  }
}

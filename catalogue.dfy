/** The in-memory product table of the product service and the facts about it
    that the request handlers rely on.  Everything here works on table values;
    the stateful service that owns the table is in module ProductService. */
module Catalogue {

  /** One record of the table: the `{id, name}` dictionary of the service. */
  datatype Product = Product(id: int, name: string)

  /** What a handler answers, in place of an HTTP status and body:
      200 with a record, 201 with the created record, 200 with a deletion
      message, 404 with a not-found message, or 500 for an exception that
      escaped the handler. */
  datatype Response =
    | Ok(product: Product)
    | Created(product: Product)
    | Deleted(id: int)
    | NotFound(id: int)
    | ServerError

  /** The ids of the table, in table order. */
  function Ids(t: seq<Product>): seq<int>
  {
    seq(|t|, i requires 0 <= i < |t| => t[i].id)
  }

  /** Some record of the table carries `id`. */
  predicate HasId(t: seq<Product>, id: int)
  {
    exists i :: 0 <= i < |t| && t[i].id == id
  }

  /** No two records of the table share an id. */
  predicate UniqueIds(t: seq<Product>)
  {
    forall i, j :: 0 <= i < j < |t| ==> t[i].id != t[j].id
  }

  /** An id that is present but not at the head is present in the tail. */
  lemma HasIdTail(t: seq<Product>, id: int)
    requires HasId(t, id) && t[0].id != id
    ensures HasId(t[1..], id)
  {
  }

  /** The position of the first record that carries `id`. */
  function IndexOf(t: seq<Product>, id: int): (k: nat)
    requires HasId(t, id)
    ensures k < |t| && t[k].id == id
    ensures forall j :: 0 <= j < k ==> t[j].id != id
  {
    if t[0].id == id then 0
    else
      HasIdTail(t, id);
      1 + IndexOf(t[1..], id)
  }

  /** The list comprehension `[p for p in products if p['id'] == id]`:
      the records carrying `id`, in table order. */
  function Matching(t: seq<Product>, id: int): (r: seq<Product>)
    ensures forall p :: p in r ==> p in t && p.id == id
    ensures |r| == 0 <==> !HasId(t, id)
    ensures |r| > 0 ==> HasId(t, id) && r[0] == t[IndexOf(t, id)]
  {
    if t == [] then []
    else if t[0].id == id then
      [t[0]] + Matching(t[1..], id)
    else
      var rest := Matching(t[1..], id);
      assert HasId(t[1..], id) ==> HasId(t, id) by {
        if HasId(t[1..], id) {
          var i :| 0 <= i < |t[1..]| && t[1..][i].id == id;
          assert t[i + 1].id == id;
        }
      }
      assert HasId(t, id) ==> HasId(t[1..], id) by {
        if HasId(t, id) { HasIdTail(t, id); }
      }
      rest
  }

  /** `max([p['id'] for p in products])`: the largest id of a non-empty table. */
  function MaxId(t: seq<Product>): (m: int)
    requires |t| > 0
    ensures HasId(t, m)
    ensures forall i :: 0 <= i < |t| ==> t[i].id <= m
  {
    if |t| == 1 then t[0].id
    else
      var rest := MaxId(t[1..]);
      assert forall i :: 1 <= i < |t| ==> t[i].id == t[1..][i - 1].id;
      var i :| 0 <= i < |t[1..]| && t[1..][i].id == rest;
      assert t[i + 1].id == rest;
      if t[0].id >= rest then t[0].id else rest
  }

  /** The table after the update loop: the first record carrying `id`, and
      only that one, gets `name`; a table without `id` is left as it is. */
  function Renamed(t: seq<Product>, id: int, name: string): (r: seq<Product>)
    ensures Ids(r) == Ids(t)
    ensures !HasId(t, id) ==> r == t
    ensures HasId(t, id) ==> r == t[IndexOf(t, id) := Product(id, name)]
  {
    if t == [] then []
    else if t[0].id == id then
      [t[0].(name := name)] + t[1..]
    else
      var rest := Renamed(t[1..], id, name);
      assert HasId(t, id) <==> HasId(t[1..], id) by {
        if HasId(t, id) { HasIdTail(t, id); }
        if HasId(t[1..], id) {
          var i :| 0 <= i < |t[1..]| && t[1..][i].id == id;
          assert t[i + 1].id == id;
        }
      }
      [t[0]] + rest
  }

  /** Python's `list.remove(x)`: drops the first element equal to `x`. */
  function RemoveFirst(t: seq<Product>, x: Product): (r: seq<Product>)
    requires x in t
    ensures |r| == |t| - 1
  {
    if t[0] == x then t[1..] else [t[0]] + RemoveFirst(t[1..], x)
  }

  /** Removing the first occurrence of the record at `k` is cutting `k` out. */
  lemma {:induction false} RemoveFirstAt(t: seq<Product>, k: nat)
    requires k < |t| && t[k] !in t[..k]
    ensures RemoveFirst(t, t[k]) == t[..k] + t[k + 1..]
  {
    if k > 0 {
      assert t[0] in t[..k];
      assert t[1..][k - 1] == t[k];
      assert t[1..][..k - 1] == t[1..k];
      RemoveFirstAt(t[1..], k - 1);
      assert t[..k] == [t[0]] + t[1..k];
      assert t[1..][k..] == t[k + 1..];
    }
  }

  /** The filter keeps every record carrying `id`. */
  lemma {:induction false} MatchingKeepsAll(t: seq<Product>, id: int, j: nat)
    requires j < |t| && t[j].id == id
    ensures t[j] in Matching(t, id)
  {
    if j > 0 {
      assert t[1..][j - 1] == t[j];
      MatchingKeepsAll(t[1..], id, j - 1);
    }
  }

  /** The filter keeps every record carrying `id`, as often as it occurs:
      its length is the number of times `id` occurs among the ids. */
  lemma {:induction false} MatchingCount(t: seq<Product>, id: int)
    ensures |Matching(t, id)| == multiset(Ids(t))[id]
  {
    if t != [] {
      MatchingCount(t[1..], id);
      assert Ids(t) == [t[0].id] + Ids(t[1..]);
      assert multiset(Ids(t)) == multiset{t[0].id} + multiset(Ids(t[1..]));
      if t[0].id == id {
        assert Matching(t, id) == [t[0]] + Matching(t[1..], id);
      } else {
        assert Matching(t, id) == Matching(t[1..], id);
      }
    }
  }

  /** The deletion test `len(...) == 1` holds exactly when some record
      carries `id` and no record but the first match does. */
  lemma {:induction false} SingleMatch(t: seq<Product>, id: int)
    ensures |Matching(t, id)| == 1 <==>
            (HasId(t, id) && forall j :: 0 <= j < |t| && t[j].id == id ==> j == IndexOf(t, id))
  {
    if t == [] {
    } else if t[0].id == id {
      if |Matching(t, id)| == 1 {
        assert |Matching(t[1..], id)| == 0;
        forall j | 0 < j < |t| ensures t[j].id != id {
          assert t[j] == t[1..][j - 1];
        }
      }
      if HasId(t, id) && forall j :: 0 <= j < |t| && t[j].id == id ==> j == IndexOf(t, id) {
        assert !HasId(t[1..], id) by {
          forall j | 0 <= j < |t[1..]| ensures t[1..][j].id != id {
            assert t[1..][j] == t[j + 1];
          }
        }
      }
    } else {
      assert Matching(t, id) == Matching(t[1..], id);
      SingleMatch(t[1..], id);
      assert HasId(t, id) <==> HasId(t[1..], id) by {
        if HasId(t, id) { HasIdTail(t, id); }
        if HasId(t[1..], id) {
          var i :| 0 <= i < |t[1..]| && t[1..][i].id == id;
          assert t[i + 1].id == id;
        }
      }
      if HasId(t, id) {
        HasIdTail(t, id);
        assert IndexOf(t, id) == 1 + IndexOf(t[1..], id);
        if |Matching(t, id)| == 1 {
          forall j | 0 <= j < |t| && t[j].id == id ensures j == IndexOf(t, id) {
            assert t[1..][j - 1] == t[j];
          }
        }
        if forall j :: 0 <= j < |t| && t[j].id == id ==> j == IndexOf(t, id) {
          forall j | 0 <= j < |t[1..]| && t[1..][j].id == id ensures j == IndexOf(t[1..], id) {
            assert t[j + 1] == t[1..][j];
          }
        }
      }
    }
  }

  /** In a table with unique ids, an id that is present matches exactly one
      record, so the deletion test `len(...) == 1` holds exactly for the ids
      present. */
  lemma {:induction false} UniqueMatch(t: seq<Product>, id: int)
    requires UniqueIds(t)
    ensures |Matching(t, id)| == 1 <==> HasId(t, id)
  {
    if t != [] {
      assert UniqueIds(t[1..]) by {
        forall i, j | 0 <= i < j < |t[1..]| ensures t[1..][i].id != t[1..][j].id {
          assert t[1..][i] == t[i + 1] && t[1..][j] == t[j + 1];
        }
      }
      UniqueMatch(t[1..], id);
      if t[0].id == id {
        assert !HasId(t[1..], id) by {
          forall i | 0 <= i < |t[1..]| ensures t[1..][i].id != id {
            assert t[1..][i] == t[i + 1];
          }
        }
      } else {
        assert Matching(t, id) == Matching(t[1..], id);
      }
    }
  }

  /** Filtering a table with one more record at the end. */
  lemma {:induction false} MatchingAppend(t: seq<Product>, p: Product, id: int)
    ensures Matching(t + [p], id) == Matching(t, id) + (if p.id == id then [p] else [])
  {
    if t == [] {
      assert [p][1..] == [];
    } else {
      var u := t + [p];
      assert u[0] == t[0] && u[1..] == t[1..] + [p];
      MatchingAppend(t[1..], p, id);
      if t[0].id == id {
        assert Matching(u, id) == [t[0]] + Matching(u[1..], id);
        assert Matching(t, id) == [t[0]] + Matching(t[1..], id);
      } else {
        assert Matching(u, id) == Matching(u[1..], id);
        assert Matching(t, id) == Matching(t[1..], id);
      }
    }
  }

  /** Appending a record whose id exceeds every id in the table keeps the ids
      unique. */
  lemma AppendKeepsUnique(t: seq<Product>, p: Product)
    requires UniqueIds(t)
    requires forall i :: 0 <= i < |t| ==> t[i].id < p.id
    ensures UniqueIds(t + [p])
  {
  }

  /** Cutting a record out keeps the ids unique. */
  lemma CutKeepsUnique(t: seq<Product>, k: nat)
    requires UniqueIds(t) && k < |t|
    ensures UniqueIds(t[..k] + t[k + 1..])
  {
  }

  /** Tables with the same ids have the same uniqueness. */
  lemma SameIdsSameUniqueness(t: seq<Product>, u: seq<Product>)
    requires Ids(t) == Ids(u)
    ensures UniqueIds(t) <==> UniqueIds(u)
  {
    assert |t| == |Ids(t)| == |u|;
    forall i | 0 <= i < |t| ensures t[i].id == u[i].id {
      assert Ids(t)[i] == Ids(u)[i];
    }
  }
}

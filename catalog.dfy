/** `lab02/task_1/app.py`: an open product catalogue with create, read,
    update, delete and list routes and no users. The dictionary and the id
    counter are the fields of a `Catalog`; each route is a method whose
    arguments are the path id and the JSON fields (`None` when absent). */
module Catalog {
  import opened Exceptions
  import DictOrder

  /** `{"id": …, "name": …, "description": …}`. */
  datatype Product = Product(id: int, name: string, description: string)

  datatype Body = Message(text: string) | Item(product: Product) | Items(products: seq<Product>)

  datatype Response = Response(status: int, body: Body)

  /** The `NotFound` handler answers 404 with the description; any other
      exception reaches Flask, which answers 500. */
  function Raised(f: Failure): Response {
    if f.NotFound? then Response(404, Message(f.reason)) else Response(500, Message("Internal Server Error"))
  }

  const Missing := Raised(NotFound("Product not found"))

  /** `products.values()`: the products in key-insertion order. */
  function Values(ids: seq<int>, products: map<int, Product>): (r: seq<Product>)
    ensures |r| <= |ids|
    ensures forall p :: p in r ==> p in products.Values
  {
    if ids == [] then []
    else
      var last := ids[|ids| - 1];
      Values(ids[..|ids| - 1], products) + (if last in products then [products[last]] else [])
  }

  /** Each key once, ascending, with the product under its own id. */
  predicate Indexed(products: map<int, Product>, ids: seq<int>) {
    && DictOrder.Ordered(products, ids)
    && forall id :: id in products ==> products[id].id == id
  }

  class Catalog {
    var products: map<int, Product>
    var ids: seq<int>
    var nextId: int
    /** Every id `add_product` has handed out. */
    ghost var issued: set<int>

    ghost predicate Valid()
      reads this
    {
      && Indexed(products, ids)
      && nextId >= 1
      && (forall id :: id in products ==> id in issued)
      && (forall id :: id in issued ==> 1 <= id < nextId)
    }

    constructor()
      ensures Valid() && products == map[] && ids == [] && nextId == 1
    {
      products := map[];
      ids := [];
      nextId := 1;
      issued := {};
    }

    /** `add_product()`: stored under the next id, which no product ever
        had; the counter only grows. A missing field is a `KeyError`. */
    method AddProduct(name: Option<string>, description: Option<string>) returns (r: Response)
      requires Valid()
      modifies this
      ensures Valid()
      ensures name.None? || description.None? ==>
                r.status == 500 && products == old(products) && ids == old(ids) && nextId == old(nextId)
      ensures name.Some? && description.Some? ==>
                var p := Product(old(nextId), name.value, description.value);
                && r == Response(201, Item(p))
                && p.id !in old(issued) && issued == old(issued) + {p.id}
                && products == old(products)[p.id := p] && ids == old(ids) + [p.id]
                && nextId == old(nextId) + 1
    {
      if name.None? {
        return Raised(KeyError("name"));
      }
      if description.None? {
        return Raised(KeyError("description"));
      }
      var p := Product(nextId, name.value, description.value);
      DictOrder.AppendKeepsOrdered(products, ids, p.id, p);
      products := products[nextId := p];
      ids := ids + [nextId];
      issued := issued + {nextId};
      nextId := nextId + 1;
      r := Response(201, Item(p));
    }

    /** `get_product(product_id)`. */
    method GetProduct(productId: int) returns (r: Response)
      ensures productId in products ==> r == Response(200, Item(products[productId]))
      ensures productId !in products ==> r == Response(404, Message("Product not found"))
    {
      if productId !in products {
        return Missing;
      }
      r := Response(200, Item(products[productId]));
    }

    /** `update_product(product_id)`: the fields given replace the old
        ones; the id and every other product stay. */
    method UpdateProduct(productId: int, name: Option<string>, description: Option<string>) returns (r: Response)
      requires Valid()
      modifies this`products
      ensures Valid()
      ensures productId !in old(products) ==> r == Response(404, Message("Product not found")) && products == old(products)
      ensures productId in old(products) ==>
                var p := old(products)[productId];
                var q := Product(p.id, if name.Some? then name.value else p.name,
                                 if description.Some? then description.value else p.description);
                r == Response(200, Item(q)) && products == old(products)[productId := q]
    {
      if productId !in products {
        return Missing;
      }
      var p := products[productId];
      if name.Some? {
        p := p.(name := name.value);
      }
      if description.Some? {
        p := p.(description := description.value);
      }
      products := products[productId := p];
      r := Response(200, Item(p));
    }

    /** `delete_product(product_id)`: exactly that product goes, and the
        answer is the product removed. */
    method DeleteProduct(productId: int) returns (r: Response)
      requires Valid()
      modifies this`products, this`ids
      ensures Valid()
      ensures productId !in old(products) ==>
                r == Response(404, Message("Product not found")) && products == old(products) && ids == old(ids)
      ensures productId in old(products) ==>
                r == Response(200, Item(old(products)[productId]))
                && products == old(products) - {productId} && ids == DictOrder.Remove(old(ids), productId)
    {
      if productId !in products {
        return Missing;
      }
      var p := products[productId];
      DictOrder.RemoveKeepsOrdered(products, ids, productId);
      products := products - {productId};
      ids := DictOrder.Remove(ids, productId);
      r := Response(200, Item(p));
    }

    /** `list_products()`: every stored product, in the order added. */
    method ListProducts() returns (r: Response)
      requires Valid()
      ensures r == Response(200, Items(Values(ids, products)))
      ensures |r.body.products| == |products|
      ensures forall p :: p in r.body.products <==> exists id :: id in products && products[id] == p
    {
      ValuesExactly(products, ids);
      r := Response(200, Items(Values(ids, products)));
    }
  }

  /** The listing holds each stored product once and nothing else. */
  lemma ValuesExactly(products: map<int, Product>, ids: seq<int>)
    requires Indexed(products, ids)
    ensures |Values(ids, products)| == |products|
    ensures forall p :: p in Values(ids, products) <==> exists id :: id in products && products[id] == p
  {
    ValuesOfKeys(products, ids);
    DictOrder.DistinctCount(ids);
    forall id
      ensures id in products.Keys <==> id in (set x | x in ids)
    {
      if id in ids {
        var i :| 0 <= i < |ids| && ids[i] == id;
      }
    }
    assert products.Keys == set x | x in ids;
    forall p
      ensures p in Values(ids, products) <==> exists id :: id in products && products[id] == p
    {
      ValuesMember(ids, products, p);
      if exists id :: id in products && products[id] == p {
        var id :| id in products && products[id] == p;
        var i :| 0 <= i < |ids| && ids[i] == id;
        assert ids[i] in products && products[ids[i]] == p;
      }
    }
  }

  lemma {:induction false} ValuesMember(ids: seq<int>, products: map<int, Product>, p: Product)
    ensures p in Values(ids, products) <==> exists i :: 0 <= i < |ids| && ids[i] in products && products[ids[i]] == p
    decreases |ids|
  {
    if ids != [] {
      var init := ids[..|ids| - 1];
      ValuesMember(init, products, p);
      if exists i :: 0 <= i < |ids| && ids[i] in products && products[ids[i]] == p {
        var i :| 0 <= i < |ids| && ids[i] in products && products[ids[i]] == p;
        if i < |init| {
          assert init[i] == ids[i];
        }
      }
      if p in Values(init, products) {
        var i :| 0 <= i < |init| && init[i] in products && products[init[i]] == p;
        assert ids[i] == init[i];
      }
    }
  }

  /** With every key present, the listing is as long as the key order. */
  lemma {:induction false} ValuesOfKeys(products: map<int, Product>, ids: seq<int>)
    requires forall i :: 0 <= i < |ids| ==> ids[i] in products
    ensures |Values(ids, products)| == |ids|
    decreases |ids|
  {
    if ids != [] {
      ValuesOfKeys(products, ids[..|ids| - 1]);
    }
  }
}

/** `lab14/app.py`: a product catalogue with users, sign-in tokens, and
    products that are public or private to their owner. The module-level
    dictionaries and the id counter are the fields of a `Store`; each route
    is a method whose arguments are the request's header and JSON fields
    (`None` when absent) and whose result is the status and body Flask
    sends. The token `generate_token` draws is an argument. */
module Shop {
  import opened Exceptions
  import DictOrder
  import opened Text

  /** `users[email]`. */
  datatype User = User(email: Option<string>, password: Option<string>)

  /** A stored product; `owner` is the creator's email, or `None`. */
  datatype Product = Product(id: int, name: string, description: string, public: bool, owner: Option<string>)

  datatype Body = Message(text: string) | Item(product: Product) | Items(products: seq<Product>) | Token(token: string)

  datatype Response = Response(status: int, body: Body)

  /** The error handlers: `NotFound` is 404 and `Unauthorized` 401, each
      with its description; any other exception reaches Flask, which
      answers 500. */
  function Raised(f: Failure): Response {
    match f
    case NotFound(d) => Response(404, Message(d))
    case Unauthorized(d) => Response(401, Message(d))
    case _ => Response(500, Message("Internal Server Error"))
  }

  /** Python truthiness of an optional string. */
  predicate Truthy(s: Option<string>) {
    s.Some? && s.value != []
  }

  /** `get_token()`, given the Authorization header. */
  function GetToken(header: Option<string>): (r: Result<Option<string>>)
    ensures r.Err? ==> r.error.Unauthorized?
    ensures r == Ok(None) <==> !Truthy(header)
    ensures r.Ok? && r.value.Some? ==> Truthy(r.value)
  {
    if !Truthy(header) then Ok(None)
    else
      var parts := SplitOnce(header.value);
      if |parts| != 2 then Err(Unauthorized("Invalid Authorization header format"))
      else if parts[0] != "Bearer" then Err(Unauthorized("Expected Bearer auth type, got " + parts[0]))
      else Ok(Some(parts[1]))
  }

  /** `Bearer`, whitespace and a token (with any whitespace before) give
      that token. */
  lemma BearerAccepted(header: string, lead: string, gap: string, token: string)
    requires SplitsAs(header, lead, "Bearer", gap, token)
    ensures GetToken(Some(header)) == Ok(Some(token))
  {
    SplitOnceOfShape(header, lead, "Bearer", gap, token);
  }

  /** And a header yields a token only in that shape. */
  lemma OnlyBearerAccepted(header: string, token: string)
    requires GetToken(Some(header)) == Ok(Some(token))
    ensures exists lead, gap :: SplitsAs(header, lead, "Bearer", gap, token)
  {
    SplitOnceShape(header);
  }

  /** A header with one word, or with another scheme, is refused. */
  lemma OtherHeadersRefused(header: string)
    requires Truthy(Some(header))
    requires |SplitOnce(header)| != 2 || SplitOnce(header)[0] != "Bearer"
    ensures GetToken(Some(header)).Err? && GetToken(Some(header)).error.Unauthorized?
  {
  }

  /** `get_product`'s test: public, or owned by the requester. */
  predicate Shown(p: Product, email: Option<string>) {
    p.public || p.owner == email
  }

  /** `list_products`' test: the owner comparison only for a truthy email. */
  predicate Listed(p: Product, email: Option<string>) {
    if Truthy(email) then p.public || p.owner == email else p.public
  }

  /** The default of `public`: false with a token, true without one. */
  function PublicFlag(token: Option<string>, public: Option<bool>): bool {
    if public.Some? then public.value else !Truthy(token)
  }

  /** `products` with its keys in insertion order: each id once, in
      ascending order, and each product stored under its own id. */
  predicate Indexed(products: map<int, Product>, ids: seq<int>) {
    && DictOrder.Ordered(products, ids)
    && forall id :: id in products ==> products[id].id == id
  }

  /** The products of `ids` that `list_products` shows to `email`, in
      order. */
  function Visible(ids: seq<int>, products: map<int, Product>, email: Option<string>): seq<Product> {
    if ids == [] then []
    else
      var last := ids[|ids| - 1];
      Visible(ids[..|ids| - 1], products, email)
        + (if last in products && Listed(products[last], email) then [products[last]] else [])
  }

  /** The store's invariant: the products in insertion order, and every
      id handed out before `next`. */
  ghost predicate Consistent(products: map<int, Product>, ids: seq<int>, next: int, issued: set<int>) {
    && Indexed(products, ids)
    && next >= 1
    && (forall id :: id in products ==> id in issued)
    && (forall id :: id in issued ==> 1 <= id < next)
  }

  /** Storing a product under the next id keeps the invariant; that id was
      never handed out. */
  lemma AddKeepsConsistent(products: map<int, Product>, ids: seq<int>, next: int, issued: set<int>, p: Product)
    requires Consistent(products, ids, next, issued) && p.id == next
    ensures next !in issued
    ensures Consistent(products[next := p], ids + [next], next + 1, issued + {next})
  {
    DictOrder.AppendKeepsOrdered(products, ids, next, p);
  }

  /** Removing a product keeps the invariant. */
  lemma DeleteKeepsConsistent(products: map<int, Product>, ids: seq<int>, next: int, issued: set<int>, id: int)
    requires Consistent(products, ids, next, issued)
    ensures Consistent(products - {id}, DictOrder.Remove(ids, id), next, issued)
  {
    DictOrder.RemoveKeepsOrdered(products, ids, id);
  }

  class Store {
    var products: map<int, Product>
    var ids: seq<int>
    var users: map<Option<string>, User>
    var tokens: map<string, Option<string>>
    var nextProductId: int
    /** Every id `add_product` has handed out. */
    ghost var issued: set<int>

    ghost predicate Valid()
      reads this
    {
      Consistent(products, ids, nextProductId, issued)
    }

    /** The state the product routes change. */
    ghost function Catalogue(): (map<int, Product>, seq<int>, int, set<int>)
      reads this
    {
      (products, ids, nextProductId, issued)
    }

    /** The module's globals at start-up. */
    constructor()
      ensures Valid()
      ensures products == map[] && ids == [] && users == map[] && tokens == map[] && nextProductId == 1
    {
      products := map[];
      ids := [];
      users := map[];
      tokens := map[];
      nextProductId := 1;
      issued := {};
    }

    /** `get_user_from_token(token) if token else None`. */
    function Requester(token: Option<string>): (r: Option<string>)
      reads this
      ensures !Truthy(token) || token.value !in tokens ==> r.None?
      ensures Truthy(token) && token.value in tokens ==> r == tokens[token.value]
    {
      if Truthy(token) && token.value in tokens then tokens[token.value] else None
    }

    /** `token_required`, then `get_user_from_token(get_token())`: the
        requester's email, or the 401 a missing, malformed or unknown
        token gets. */
    function Authorize(header: Option<string>): (r: Result<Option<string>>)
      reads this
      ensures r.Err? ==> r.error.Unauthorized?
      ensures r.Ok? <==> exists token :: GetToken(header) == Ok(Some(token)) && token in tokens
      ensures r.Ok? ==> r.value == tokens[GetToken(header).value.value]
    {
      match GetToken(header)
      case Err(e) => Err(e)
      case Ok(token) =>
        if !Truthy(token) || token.value !in tokens then Err(Unauthorized("Token is missing or invalid"))
        else Ok(tokens[token.value])
    }

    /** `sign_up()`: a known email is refused, a new one stored. */
    method SignUp(email: Option<string>, password: Option<string>) returns (r: Response)
      modifies this`users
      ensures email in old(users) ==> r == Response(400, Message("User already exists")) && users == old(users)
      ensures email !in old(users) ==>
                r == Response(201, Message("User registered successfully"))
                && users == old(users)[email := User(email, password)]
    {
      if email in users {
        return Response(400, Message("User already exists"));
      }
      users := users[email := User(email, password)];
      r := Response(201, Message("User registered successfully"));
    }

    /** `sign_in()`: `token` is what `generate_token` draws; it is
        recorded for the email only when the password matches. */
    method SignIn(email: Option<string>, password: Option<string>, token: string) returns (r: Response)
      modifies this`tokens
      ensures email in old(users) && old(users)[email].password == password ==>
                r == Response(200, Token(token)) && tokens == old(tokens)[token := email]
      ensures !(email in old(users) && old(users)[email].password == password) ==>
                r == Response(401, Message("Invalid credentials")) && tokens == old(tokens)
    {
      if email !in users || users[email].password != password {
        return Response(401, Message("Invalid credentials"));
      }
      tokens := tokens[token := email];
      r := Response(200, Token(token));
    }

    /** `add_product()`: the product gets the next id, which no product
        ever had, and the requester as owner. */
    method AddProduct(header: Option<string>, name: Option<string>, description: Option<string>, public: Option<bool>)
      returns (r: Response)
      requires Valid()
      modifies this`products, this`ids, this`nextProductId, this`issued
      ensures Valid()
      ensures GetToken(header).Err? ==> r == Raised(GetToken(header).error) && Catalogue() == old(Catalogue())
      ensures GetToken(header).Ok? && !Truthy(GetToken(header).value) && public == Some(false) ==>
                r == Response(400, Message("Public product must be true if no token is provided"))
                && Catalogue() == old(Catalogue())
      ensures GetToken(header).Ok? && (Truthy(GetToken(header).value) || public != Some(false))
              && (name.None? || description.None?) ==>
                r.status == 500 && Catalogue() == old(Catalogue())
      ensures GetToken(header).Ok? && (Truthy(GetToken(header).value) || public != Some(false))
              && name.Some? && description.Some? ==>
                var token := GetToken(header).value;
                var p := Product(old(nextProductId), name.value, description.value, PublicFlag(token, public), old(Requester(token)));
                && r == Response(201, Item(p))
                && p.id !in old(issued) && issued == old(issued) + {p.id}
                && products == old(products)[p.id := p] && ids == old(ids) + [p.id]
                && nextProductId == old(nextProductId) + 1
    {
      var token := GetToken(header);
      if token.Err? {
        return Raised(token.error);
      }
      var email := Requester(token.value);
      var productPublic := PublicFlag(token.value, public);
      if !Truthy(token.value) && !productPublic {
        return Response(400, Message("Public product must be true if no token is provided"));
      }
      if name.None? {
        return Raised(KeyError("name"));
      }
      if description.None? {
        return Raised(KeyError("description"));
      }
      var p := Product(nextProductId, name.value, description.value, productPublic, email);
      AddKeepsConsistent(products, ids, nextProductId, issued, p);
      products := products[nextProductId := p];
      ids := ids + [nextProductId];
      issued := issued + {nextProductId};
      nextProductId := nextProductId + 1;
      r := Response(201, Item(p));
    }

    /** `get_product(product_id)`: found only when public or the
        requester's own. */
    method GetProduct(header: Option<string>, productId: int) returns (r: Response)
      ensures GetToken(header).Err? ==> r == Raised(GetToken(header).error)
      ensures GetToken(header).Ok? && productId in products && Shown(products[productId], Requester(GetToken(header).value)) ==>
                r == Response(200, Item(products[productId]))
      ensures GetToken(header).Ok? && !(productId in products && Shown(products[productId], Requester(GetToken(header).value))) ==>
                r == Response(404, Message("Product not found"))
    {
      var token := GetToken(header);
      if token.Err? {
        return Raised(token.error);
      }
      var email := Requester(token.value);
      if productId !in products || (!products[productId].public && products[productId].owner != email) {
        return Response(404, Message("Product not found"));
      }
      r := Response(200, Item(products[productId]));
    }

    /** `update_product(product_id)`: only the owner, and only the fields
        given; the id, the owner and every other product stay. */
    method UpdateProduct(header: Option<string>, productId: int, name: Option<string>, description: Option<string>, public: Option<bool>)
      returns (r: Response)
      requires Valid()
      modifies this`products
      ensures Valid()
      ensures Authorize(header).Err? ==> r == Raised(Authorize(header).error) && products == old(products)
      ensures Authorize(header).Ok? && (productId !in old(products) || old(products)[productId].owner != Authorize(header).value) ==>
                r == Response(404, Message("Product not found or not authorized")) && products == old(products)
      ensures Authorize(header).Ok? && productId in old(products) && old(products)[productId].owner == Authorize(header).value ==>
                var p := old(products)[productId];
                var q := Product(p.id,
                                 if name.Some? then name.value else p.name,
                                 if description.Some? then description.value else p.description,
                                 if public.Some? then public.value else p.public,
                                 p.owner);
                r == Response(200, Item(q)) && products == old(products)[productId := q]
    {
      var email := Authorize(header);
      if email.Err? {
        return Raised(email.error);
      }
      if productId !in products || products[productId].owner != email.value {
        return Response(404, Message("Product not found or not authorized"));
      }
      var p := products[productId];
      if name.Some? {
        p := p.(name := name.value);
      }
      if description.Some? {
        p := p.(description := description.value);
      }
      if public.Some? {
        p := p.(public := public.value);
      }
      products := products[productId := p];
      r := Response(200, Item(p));
    }

    /** `delete_product(product_id)`: only the owner; exactly that product
        goes, and the answer is the product as it was. */
    method DeleteProduct(header: Option<string>, productId: int) returns (r: Response)
      requires Valid()
      modifies this`products, this`ids
      ensures Valid()
      ensures Authorize(header).Err? ==> r == Raised(Authorize(header).error) && products == old(products) && ids == old(ids)
      ensures Authorize(header).Ok? && (productId !in old(products) || old(products)[productId].owner != Authorize(header).value) ==>
                r == Response(404, Message("Product not found or not authorized"))
                && products == old(products) && ids == old(ids)
      ensures Authorize(header).Ok? && productId in old(products) && old(products)[productId].owner == Authorize(header).value ==>
                r == Response(200, Item(old(products)[productId]))
                && products == old(products) - {productId} && ids == DictOrder.Remove(old(ids), productId)
    {
      var email := Authorize(header);
      if email.Err? {
        return Raised(email.error);
      }
      if productId !in products || products[productId].owner != email.value {
        return Response(404, Message("Product not found or not authorized"));
      }
      var p := products[productId];
      DeleteKeepsConsistent(products, ids, nextProductId, issued, productId);
      products := products - {productId};
      ids := DictOrder.Remove(ids, productId);
      r := Response(200, Item(p));
    }

    /** `list_products()`: the products the requester may see, in the
        order they were added. */
    method ListProducts(header: Option<string>) returns (r: Response)
      requires Valid()
      ensures GetToken(header).Err? ==> r == Raised(GetToken(header).error)
      ensures GetToken(header).Ok? ==> r == Response(200, Items(Visible(ids, products, Requester(GetToken(header).value))))
    {
      var token := GetToken(header);
      if token.Err? {
        return Raised(token.error);
      }
      var email := Requester(token.value);
      var shown: seq<Product> := [];
      var i := 0;
      while i < |ids|
        invariant i <= |ids| && shown == Visible(ids[..i], products, email)
      {
        var p := products[ids[i]];
        if Listed(p, email) {
          shown := shown + [p];
        }
        assert ids[..i + 1][..i] == ids[..i];
        i := i + 1;
      }
      assert ids[..|ids|] == ids;
      r := Response(200, Items(shown));
    }
  }

  /** `list_products` shows exactly the stored products its test admits. */
  lemma {:induction false} VisibleExactly(ids: seq<int>, products: map<int, Product>, email: Option<string>, p: Product)
    ensures p in Visible(ids, products, email) <==> exists i :: 0 <= i < |ids| && ids[i] in products && products[ids[i]] == p && Listed(p, email)
    decreases |ids|
  {
    if ids != [] {
      var init := ids[..|ids| - 1];
      VisibleExactly(init, products, email, p);
      if exists i :: 0 <= i < |ids| && ids[i] in products && products[ids[i]] == p && Listed(p, email) {
        var i :| 0 <= i < |ids| && ids[i] in products && products[ids[i]] == p && Listed(p, email);
        if i < |init| {
          assert init[i] == ids[i];
        }
      }
      if p in Visible(init, products, email) {
        var i :| 0 <= i < |init| && init[i] in products && products[init[i]] == p && Listed(p, email);
        assert ids[i] == init[i];
      }
    }
  }

  /** For a store's catalogue: a product is listed iff it is stored and
      admitted. */
  lemma ListedIffStored(products: map<int, Product>, ids: seq<int>, email: Option<string>, p: Product)
    requires Indexed(products, ids)
    ensures p in Visible(ids, products, email) <==> exists id :: id in products && products[id] == p && Listed(p, email)
  {
    VisibleExactly(ids, products, email, p);
    if exists id :: id in products && products[id] == p && Listed(p, email) {
      var id :| id in products && products[id] == p && Listed(p, email);
      var i :| 0 <= i < |ids| && ids[i] == id;
      assert ids[i] in products && products[ids[i]] == p;
    }
  }

  /** Listed products come in ascending id order, the order they were
      added in. */
  lemma {:induction false} VisibleAscending(ids: seq<int>, products: map<int, Product>, email: Option<string>)
    requires forall i :: 0 <= i < |ids| && ids[i] in products ==> products[ids[i]].id == ids[i]
    requires forall i, j :: 0 <= i < j < |ids| ==> ids[i] < ids[j]
    ensures var v := Visible(ids, products, email);
            forall i, j :: 0 <= i < j < |v| ==> v[i].id < v[j].id
    decreases |ids|
  {
    if ids != [] {
      var init := ids[..|ids| - 1];
      var last := ids[|ids| - 1];
      VisibleAscending(init, products, email);
      var v := Visible(init, products, email);
      forall k | 0 <= k < |v|
        ensures v[k].id < last
      {
        VisibleExactly(init, products, email, v[k]);
      }
    }
  }

  /** `Visible` looks only at the ids it walks. */
  lemma {:induction false} VisibleSame(ids: seq<int>, a: map<int, Product>, b: map<int, Product>, email: Option<string>)
    requires forall i :: 0 <= i < |ids| ==> (ids[i] in a <==> ids[i] in b) && (ids[i] in a ==> a[ids[i]] == b[ids[i]])
    ensures Visible(ids, a, email) == Visible(ids, b, email)
    decreases |ids|
  {
    if ids != [] {
      VisibleSame(ids[..|ids| - 1], a, b, email);
    }
  }

  /** Signed-in requesters see the same products from both routes. */
  lemma SignedInRoutesAgree(p: Product, email: Option<string>)
    requires Truthy(email)
    ensures Listed(p, email) <==> Shown(p, email)
  {
  }

  /** Not so anonymous ones: a private product without an owner, which
      `add_product` creates for a token nobody signed in with, is found by
      `get_product` but left out by `list_products`. */
  lemma AnonymousRoutesDisagree(id: int, name: string, description: string)
    ensures var p := Product(id, name, description, PublicFlag(Some("unknown"), None), None);
            Shown(p, None) && !Listed(p, None)
  {
  }
}

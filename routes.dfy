/** The request handlers of the store, each as the state change it makes to the
    session and the tables, and the redirect (with its flash message) it answers
    with. Form fields that are missing arrive as "" (`request.form.get(f, "")`);
    the CSRF field arrives as None when missing. */
module Routes {
  import opened Common
  import opened Text
  import opened ProductForm
  import opened Catalog
  import opened ShoppingCart
  import opened Tables
  import opened Sessions

  const CsrfRejected: Flash := Flash("Invalid CSRF token", "danger")
  const ProductAdded: Flash := Flash("Product added successfully!", "success")
  const ProductDeleted: Flash := Flash("Product deleted", "warning")
  const ProductUpdated: Flash := Flash("Product updated successfully!", "info")
  const RegisterBlank: Flash := Flash("Username and password are required.", "danger")
  const UsernameTaken: Flash := Flash("Username already exists.", "danger")
  const AccountCreated: Flash := Flash("Account created successfully. Please log in.", "success")
  const LoginBlank: Flash := Flash("Username and password are required", "danger")
  const BadCredentials: Flash := Flash("Invalid username or password", "danger")

  /** The `admin_required` decorator: the wrapped handler runs only for a session
      whose admin flag is set; otherwise the visitor is sent to the login page. */
  function AdminRequired(s: Session): (r: Option<Response>)
    reads s
    ensures r.None? <==> s.adminLoggedIn
    ensures r.Some? ==> r.value == Redirect(AdminLoginPage, None)
  {
    if s.adminLoggedIn then None else Some(Redirect(AdminLoginPage, None))
  }

  /** GET /admin/edit/<id>. Past the decorator the handler calls `admin_required()`
      without the function it expects, so a signed-in admin always gets a
      TypeError and everyone else is sent to the login page. */
  function AdminEdit(s: Session): (r: Result<Response>)
    reads s
    ensures r.Raised? <==> s.adminLoggedIn
    ensures r.Raised? ==> r.exception == "TypeError"
    ensures r.Ok? ==> r.value == Redirect(AdminLoginPage, None)
  {
    match AdminRequired(s)
    case Some(toLogin) => Ok(toLogin)
    case None => Raised("TypeError")
  }

  /** The product a successful `admin_add` appends. */
  function NewProduct(id: int, name: string, price: string, category: string, image: string): Product {
    Product(id, name, StoredPrice(price), category, image)
  }

  /** What an accepted product form inserts: every field present and an accepted
      image. The price is stored as a positive number exactly when `float` reads
      it as a finite number; "nan" and "inf" also pass the check, since neither
      compares at most zero, and the column keeps them as text. */
  lemma {:induction false} AcceptedFormProduct(id: int, name: string, price: string, category: string, image: string)
    requires ValidateProductForm(name, price, category, image) == None
    ensures var p := NewProduct(id, name, price, category, image);
      && p.name != [] && p.category != [] && AllowedImage(p.image)
      && (WellFormedProduct(p) <==> ParseNumber(price).value.Finite?)
      && (!WellFormedProduct(p) ==>
            p.price == TextPrice(price) && ParseNumber(price).value in {NaN, Infinite(false)})
  {
    StoredPriceAgreesWithFloat(price);
  }

  /** A product added with the price "nan" is stored with a text price, and a
      cart holding it makes the cart page raise. */
  lemma NanPriceBreaksCart()
    ensures ValidateProductForm("Ball", "nan", "Outdoor", "b.png") == None
    ensures var p := NewProduct(1, "Ball", "nan", "Outdoor", "b.png");
      p.price == TextPrice("nan") && TextPriceInCart([Entry("Ball", 1)], [p])
  {
    AcceptedExamples();
    StoredPriceExamples();
    var p := NewProduct(1, "Ball", "nan", "Outdoor", "b.png");
    assert HitsTextPrice(Entry("Ball", 1), [p]) by {
      assert [p][0] == p;
    }
    assert [Entry("Ball", 1)][..0] == [];
  }

  /** POST /admin/add. */
  method AdminAdd(s: Session, t: ProductTable, formToken: Option<string>,
                  rawName: string, rawPrice: string, rawCategory: string, rawImage: string)
    returns (resp: Response)
    requires t.Valid()
    modifies t
    ensures t.Valid()
    ensures !s.adminLoggedIn ==> resp == Redirect(AdminLoginPage, None) && unchanged(t)
    ensures s.adminLoggedIn && !VerifyCsrf(s.csrfToken, formToken) ==>
      resp == Redirect(AdminPage, Some(CsrfRejected)) && unchanged(t)
    ensures s.adminLoggedIn && VerifyCsrf(s.csrfToken, formToken) ==>
      var name, price, category, image := Strip(rawName), Strip(rawPrice), Strip(rawCategory), Strip(rawImage);
      match ValidateProductForm(name, price, category, image)
      case Some(e) =>
        resp == Redirect(AdminPage, Some(Flash(Message(e), "error"))) && unchanged(t)
      case None =>
        && t.rows == old(t.rows) + [NewProduct(old(t.nextId), name, price, category, image)]
        && t.nextId == old(t.nextId) + 1
        && resp == Redirect(AdminPage, Some(ProductAdded))
  {
    var guard := AdminRequired(s);
    if guard.Some? {
      return guard.value;
    }
    if !VerifyCsrf(s.csrfToken, formToken) {
      return Redirect(AdminPage, Some(CsrfRejected));
    }
    var name, price, category, image := Strip(rawName), Strip(rawPrice), Strip(rawCategory), Strip(rawImage);
    var error := ValidateProductForm(name, price, category, image);
    if error.Some? {
      return Redirect(AdminPage, Some(Flash(Message(error.value), "error")));
    }
    var _ := t.Insert(name, StoredPrice(price), category, image);
    return Redirect(AdminPage, Some(ProductAdded));
  }

  /** GET /admin/delete/<id>: no CSRF check; an unknown id deletes nothing. */
  method AdminDelete(s: Session, t: ProductTable, id: int) returns (resp: Response)
    requires t.Valid()
    modifies t
    ensures t.Valid()
    ensures !s.adminLoggedIn ==> resp == Redirect(AdminLoginPage, None) && unchanged(t)
    ensures s.adminLoggedIn ==>
      && t.rows == WithoutId(old(t.rows), id) && t.nextId == old(t.nextId)
      && resp == Redirect(AdminPage, Some(ProductDeleted))
  {
    var guard := AdminRequired(s);
    if guard.Some? {
      return guard.value;
    }
    t.DeleteId(id);
    return Redirect(AdminPage, Some(ProductDeleted));
  }

  /** POST /admin/update/<id>. The route has no `admin_required`, so the admin
      flag plays no part. The form is validated only when it names an image; with
      an empty image the stored image is kept, and an unknown id then raises
      (subscripting the None that `fetchone()` returns). */
  method AdminUpdate(s: Session, t: ProductTable, id: int, formToken: Option<string>,
                     rawName: string, rawPrice: string, rawCategory: string, rawImage: string)
    returns (r: Result<Response>)
    requires t.Valid()
    modifies t
    ensures t.Valid()
    ensures !VerifyCsrf(s.csrfToken, formToken) ==> r == Ok(Redirect(AdminPage, Some(CsrfRejected))) && unchanged(t)
    ensures VerifyCsrf(s.csrfToken, formToken) ==>
      var name, price, category, image := Strip(rawName), Strip(rawPrice), Strip(rawCategory), Strip(rawImage);
      if image != [] then
        match ValidateProductForm(name, price, category, image)
        case Some(e) =>
          r == Ok(Redirect(AdminPage, Some(Flash(Message(e), "error")))) && unchanged(t)
        case None =>
          && t.rows == WithUpdate(old(t.rows), id, name, StoredPrice(price), category, image)
          && t.nextId == old(t.nextId)
          && r == Ok(Redirect(AdminPage, Some(ProductUpdated)))
      else
        match Find(old(t.rows), id)
        case None =>
          r == Raised("TypeError") && unchanged(t)
        case Some(p) =>
          && t.rows == WithUpdate(old(t.rows), id, name, StoredPrice(price), category, p.image)
          && t.nextId == old(t.nextId)
          && r == Ok(Redirect(AdminPage, Some(ProductUpdated)))
  {
    if !VerifyCsrf(s.csrfToken, formToken) {
      return Ok(Redirect(AdminPage, Some(CsrfRejected)));
    }
    var name, price, category, image := Strip(rawName), Strip(rawPrice), Strip(rawCategory), Strip(rawImage);
    if image != [] {
      var error := ValidateProductForm(name, price, category, image);
      if error.Some? {
        return Ok(Redirect(AdminPage, Some(Flash(Message(error.value), "error"))));
      }
    }
    if image == [] {
      var stored := t.Lookup(id);
      if stored.None? {
        return Raised("TypeError");
      }
      image := stored.value.image;
    }
    t.UpdateId(id, name, StoredPrice(price), category, image);
    return Ok(Redirect(AdminPage, Some(ProductUpdated)));
  }

  /** An update without an image skips every check, so it can store an empty
      name and a price that is not a number over a well-formed product. */
  lemma UpdateWithoutImageSkipsValidation()
    ensures var before := Product(1, "Football", Num(499.0), "Outdoor", "football.jpeg");
      && WellFormedProduct(before)
      && Find([before], 1) == Some(before)
      && WithUpdate([before], 1, "", StoredPrice("abc"), "", before.image)
         == [Product(1, "", TextPrice("abc"), "", "football.jpeg")]
      && !WellFormedProduct(WithUpdate([before], 1, "", StoredPrice("abc"), "", before.image)[0])
  {
    var before := Product(1, "Football", Num(499.0), "Outdoor", "football.jpeg");
    assert Lower("football.jpeg") == "football.jpeg";
    assert "football.jpeg"[|"football.jpeg"| - |".jpeg"|..] == ".jpeg";
    WordIsNotLiteral("abc");
  }

  /** An update without an image and with the price "19.99" stores that number,
      and the cart page then shows a subtotal and a total of 19.99. */
  lemma DecimalUpdateInCart()
    ensures var before := Product(1, "Football", Num(499.0), "Outdoor", "football.jpeg");
      var after := Product(1, "Football", Num(19.99), "Outdoor", "football.jpeg");
      && WithUpdate([before], 1, "Football", StoredPrice("19.99"), "Outdoor", before.image) == [after]
      && !TextPriceInCart([Entry("Football", 1)], [after])
      && CartLines([Entry("Football", 1)], [after]) == [Line(after, 1, 19.99)]
      && WeightedTotal([Entry("Football", 1)], [after]) == 19.99
  {
    StoredPriceExamples();
    DecimalPriceInCart(Product(1, "Football", Num(19.99), "Outdoor", "football.jpeg"));
  }

  lemma {:induction false} DecimalPriceInCart(p: Product)
    requires p.name == "Football" && p.price == Num(19.99)
    ensures !TextPriceInCart([Entry("Football", 1)], [p])
    ensures CartLines([Entry("Football", 1)], [p]) == [Line(p, 1, 19.99)]
    ensures WeightedTotal([Entry("Football", 1)], [p]) == 19.99
  {
    var e := Entry("Football", 1);
    assert [e][..0] == [] && [p][..0] == [];
    assert !HitsTextPrice(e, [p]);
    assert EntryLines(e, [p]) == [Line(p, 1, 19.99)];
    assert MatchingPriceSum([p], "Football") == 19.99;
  }

  /** POST /register. */
  method Register(users: AccountTable, rawUsername: string, rawPassword: string, hashPassword: string -> string)
    returns (resp: Response)
    requires users.Valid()
    modifies users
    ensures users.Valid()
    ensures var username, password := Strip(rawUsername), Strip(rawPassword);
      if username == [] || password == [] then
        resp == Redirect(RegisterPage, Some(RegisterBlank)) && unchanged(users)
      else if old(users.HashOf(username)).Some? then
        resp == Redirect(RegisterPage, Some(UsernameTaken)) && unchanged(users)
      else
        && users.accounts == old(users.accounts) + [Account(username, hashPassword(password))]
        && resp == Redirect(AdminLoginPage, Some(AccountCreated))
  {
    var username, password := Strip(rawUsername), Strip(rawPassword);
    if username == [] || password == [] {
      return Redirect(RegisterPage, Some(RegisterBlank));
    }
    if users.HashOf(username).Some? {
      return Redirect(RegisterPage, Some(UsernameTaken));
    }
    users.Insert(username, hashPassword(password));
    return Redirect(AdminLoginPage, Some(AccountCreated));
  }

  /** Registering the same username twice: the second attempt finds the hash the
      first stored, so it is refused and the username keeps exactly one row. */
  lemma {:induction false} RegisterTwice(accounts: seq<Account>, username: string, hash: string)
    requires UniqueUsernames(accounts) && FindHash(accounts, username) == None
    ensures FindHash(accounts + [Account(username, hash)], username) == Some(hash)
    ensures UserCount(accounts + [Account(username, hash)], username) == 1
  {
    InsertAccount(accounts, username, hash, username);
    UniqueMeansOneRow(accounts + [Account(username, hash)], username);
  }

  /** After registering, logging in with the same password succeeds whenever the
      password checker accepts the hasher's output for that password. */
  lemma {:induction false} RegisteredUserCanLogIn(accounts: seq<Account>, username: string, password: string,
                               hashPassword: string -> string, checkPassword: (string, string) -> bool)
    requires UniqueUsernames(accounts) && FindHash(accounts, username) == None
    requires checkPassword(password, hashPassword(password))
    ensures var found := FindHash(accounts + [Account(username, hashPassword(password))], username);
      found.Some? && checkPassword(password, found.value)
  {
    InsertAccount(accounts, username, hashPassword(password), username);
  }

  /** POST /admin/login. An unknown username and a wrong password get the same
      answer, and neither changes the session. */
  method AdminLogin(s: Session, users: AccountTable, rawUsername: string, rawPassword: string,
                    checkPassword: (string, string) -> bool)
    returns (resp: Response)
    requires s.Valid()
    modifies s`adminLoggedIn
    ensures s.Valid()
    ensures var username, password := Strip(rawUsername), Strip(rawPassword);
      if username == [] || password == [] then
        resp == Redirect(AdminLoginPage, Some(LoginBlank)) && s.adminLoggedIn == old(s.adminLoggedIn)
      else if users.HashOf(username).None? || !checkPassword(password, users.HashOf(username).value) then
        resp == Redirect(AdminLoginPage, Some(BadCredentials)) && s.adminLoggedIn == old(s.adminLoggedIn)
      else
        resp == Redirect(AdminPage, None) && s.adminLoggedIn
  {
    var username, password := Strip(rawUsername), Strip(rawPassword);
    if username == [] || password == [] {
      return Redirect(AdminLoginPage, Some(LoginBlank));
    }
    var stored := users.HashOf(username);
    if stored.None? || !checkPassword(password, stored.value) {
      return Redirect(AdminLoginPage, Some(BadCredentials));
    }
    s.adminLoggedIn := true;
    return Redirect(AdminPage, None);
  }

  /** GET /admin/logout: the whole session goes, the cart included. */
  method AdminLogout(s: Session) returns (resp: Response)
    modifies s
    ensures s.Valid() && s.csrfToken == None && !s.adminLoggedIn && s.cart == Absent
    ensures resp == Redirect(HomePage, None)
  {
    s.Clear();
    return Redirect(HomePage, None);
  }

  /** GET /add_to_cart/<name>: a missing cart starts empty, a legacy list is
      upgraded, and `name` gains one unit, whether or not a product has it. The
      session stores the result in name order. */
  method AddToCart(s: Session, name: string) returns (resp: Response)
    requires s.Valid()
    modifies s`cart
    ensures s.Valid()
    ensures s.cart == Current(SortByName(Increment(Entries(old(s.cart)), name)))
    ensures resp == Redirect(ProductsPage, None)
  {
    var c: Cart;
    match s.cart {
    case Legacy(items) =>
      c := UpgradeLegacy(items);
      UpgradeCounts(items);
    case Absent =>
      c := [];
    case Current(entries) =>
      c := entries;
    }
    AddToCartEffect(c, name);
    var added := Put(c, name, Qty(c, name) + 1);
    SortByNameSpec(added);
    s.cart := Current(SortByName(added));
    return Redirect(ProductsPage, None);
  }

  /** GET /remove_from_cart/<name>: the whole line goes, and the rest stays in
      name order when the session stores it; a missing cart is stored as an empty
      dictionary. A legacy list is not upgraded here: deleting a name
      it holds raises a TypeError, otherwise it is left as it is. */
  method RemoveFromCart(s: Session, name: string) returns (r: Result<Response>)
    requires s.Valid()
    modifies s`cart
    ensures s.Valid()
    ensures match old(s.cart)
      case Absent => s.cart == Current([]) && r == Ok(Redirect(CartPage, None))
      case Current(c) => s.cart == Current(Delete(c, name)) && r == Ok(Redirect(CartPage, None))
      case Legacy(items) =>
        && s.cart == old(s.cart)
        && r == if name in items then Raised("TypeError") else Ok(Redirect(CartPage, None))
  {
    match s.cart {
    case Absent =>
      s.cart := Current([]);
    case Current(c) =>
      RemoveFromCartEffect(c, name);
      DeleteKeepsSorted(c, name);
      SortSorted(Delete(c, name));
      s.cart := Current(SortByName(Delete(c, name)));
    case Legacy(items) =>
      if name in items {
        return Raised("TypeError");
      }
    }
    return Ok(Redirect(CartPage, None));
  }

  /** GET /cart: a legacy list is upgraded and written back (in name order, as
      the session stores it), while this page lists the upgraded entries in the
      order the loop built them; a stored dictionary is listed in its stored
      name order. Each entry is joined with the products of the same name, and
      the total follows. */
  method ViewCart(s: Session, t: ProductTable) returns (r: Result<CartView>)
    requires s.Valid()
    modifies s`cart
    ensures s.Valid()
    ensures s.cart == if old(s.cart).Legacy? then Current(SortByName(Upgrade(old(s.cart).items))) else old(s.cart)
    ensures var c := Entries(old(s.cart));
      && (r.Raised? <==> TextPriceInCart(c, t.rows))
      && (r.Raised? ==> r.exception == "TypeError")
      && (r.Ok? ==> r.value == CartView(CartLines(c, t.rows), WeightedTotal(c, t.rows)))
  {
    var c: Cart;
    match s.cart {
    case Legacy(items) =>
      c := UpgradeLegacy(items);
      UpgradeCounts(items);
      SortByNameSpec(c);
      s.cart := Current(SortByName(c));
    case Absent =>
      c := [];
    case Current(entries) =>
      c := entries;
    }
    r := RenderCart(c, t.rows);
  }
}

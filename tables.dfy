/** The two database tables the handlers change: `products` (AUTOINCREMENT id,
    rows returned in id order) and `users` (username UNIQUE, password hash). */
module Tables {
  import opened Common
  import opened ProductForm
  import opened Catalog

  /** `SELECT * FROM products WHERE id = ?` followed by `fetchone()`. */
  function Find(rows: seq<Product>, id: int): Option<Product> {
    if rows == [] then None else if rows[0].id == id then Some(rows[0]) else Find(rows[1..], id)
  }

  /** `DELETE FROM products WHERE id = ?`. */
  function WithoutId(rows: seq<Product>, id: int): seq<Product> {
    if rows == [] then []
    else if rows[0].id == id then WithoutId(rows[1..], id)
    else [rows[0]] + WithoutId(rows[1..], id)
  }

  /** `UPDATE products SET name = ?, price = ?, category = ?, image = ? WHERE id = ?`. */
  function WithUpdate(rows: seq<Product>, id: int, name: string, price: Price, category: string, image: string): seq<Product> {
    if rows == [] then []
    else
      [if rows[0].id == id then Product(id, name, price, category, image) else rows[0]]
        + WithUpdate(rows[1..], id, name, price, category, image)
  }

  /** Every id is a positive number below the next id the table will hand out. */
  predicate IdsBelow(rows: seq<Product>, nextId: int) {
    forall i :: 0 <= i < |rows| ==> 1 <= rows[i].id < nextId
  }

  /** A product as the product form describes it when it is accepted. */
  predicate WellFormedProduct(p: Product) {
    && p.name != [] && p.category != [] && p.image != []
    && p.price.Num? && p.price.value > 0.0
    && AllowedImage(p.image)
  }

  /** After a delete the id is gone and every other id finds what it found before. */
  lemma {:induction false} FindAfterDelete(rows: seq<Product>, id: int, other: int)
    ensures Find(WithoutId(rows, id), other) == if other == id then None else Find(rows, other)
  {
    if rows != [] {
      FindAfterDelete(rows[1..], id, other);
    }
  }

  /** Deleting an id that is not there changes nothing, so deleting twice is the
      same as deleting once. */
  lemma {:induction false} DeleteUnknownId(rows: seq<Product>, id: int)
    requires Find(rows, id) == None
    ensures WithoutId(rows, id) == rows
  {
    if rows != [] {
      DeleteUnknownId(rows[1..], id);
    }
  }

  lemma {:induction false} DeleteIdempotent(rows: seq<Product>, id: int)
    ensures WithoutId(WithoutId(rows, id), id) == WithoutId(rows, id)
  {
    FindAfterDelete(rows, id, id);
    DeleteUnknownId(WithoutId(rows, id), id);
  }

  /** Deleting keeps only rows that were there, none of them with that id. */
  lemma {:induction false} DeleteKeepsRows(rows: seq<Product>, id: int)
    ensures forall p :: p in WithoutId(rows, id) ==> p in rows && p.id != id
  {
    if rows != [] {
      DeleteKeepsRows(rows[1..], id);
    }
  }

  /** Deleting keeps the remaining rows in id order, under the same bound. */
  lemma {:induction false} DeleteKeepsOrder(rows: seq<Product>, id: int, nextId: int)
    ensures IdsIncreasing(rows) ==> IdsIncreasing(WithoutId(rows, id))
    ensures IdsBelow(rows, nextId) ==> IdsBelow(WithoutId(rows, id), nextId)
  {
    DeleteKeepsRows(rows, id);
    if IdsIncreasing(rows) {
      DeleteKeepsIncreasing(rows, id);
    }
    var r := WithoutId(rows, id);
    if IdsBelow(rows, nextId) {
      forall i | 0 <= i < |r| ensures 1 <= r[i].id < nextId {
        assert r[i] in rows;
      }
    }
  }

  lemma {:induction false} DeleteKeepsIncreasing(rows: seq<Product>, id: int)
    requires IdsIncreasing(rows)
    ensures IdsIncreasing(WithoutId(rows, id))
  {
    if rows != [] {
      assert IdsIncreasing(rows[1..]);
      DeleteKeepsIncreasing(rows[1..], id);
      DeleteKeepsRows(rows[1..], id);
      LaterIdsLarger(rows);
      var rest := WithoutId(rows[1..], id);
      if rows[0].id != id {
        var r := [rows[0]] + rest;
        forall i, j | 0 <= i < j < |r| ensures r[i].id < r[j].id {
          assert r[j] == rest[j - 1] && rest[j - 1] in rest;
          if i > 0 {
            assert r[i] == rest[i - 1];
          }
        }
      }
    }
  }

  /** An update rewrites the row with that id, if there is one, and nothing else. */
  lemma {:induction false} FindAfterUpdate(rows: seq<Product>, id: int, name: string, price: Price, category: string, image: string, other: int)
    ensures Find(WithUpdate(rows, id, name, price, category, image), other) ==
      if other != id then Find(rows, other)
      else if Find(rows, id).Some? then Some(Product(id, name, price, category, image))
      else None
  {
    if rows != [] {
      FindAfterUpdate(rows[1..], id, name, price, category, image, other);
    }
  }

  /** An update keeps every row's id in place. */
  lemma {:induction false} UpdateKeepsIds(rows: seq<Product>, id: int, name: string, price: Price, category: string, image: string)
    ensures |WithUpdate(rows, id, name, price, category, image)| == |rows|
    ensures forall i :: 0 <= i < |rows| ==> WithUpdate(rows, id, name, price, category, image)[i].id == rows[i].id
  {
    if rows != [] {
      UpdateKeepsIds(rows[1..], id, name, price, category, image);
      var r := WithUpdate(rows, id, name, price, category, image);
      assert forall i :: 1 <= i < |rows| ==> r[i] == WithUpdate(rows[1..], id, name, price, category, image)[i - 1];
    }
  }

  /** A row appended under a fresh id is found under that id, and every other id
      finds what it found before. */
  lemma {:induction false} FindAfterInsert(rows: seq<Product>, p: Product, nextId: int, other: int)
    requires IdsBelow(rows, nextId) && p.id == nextId
    ensures Find(rows + [p], other) == if other == p.id then Some(p) else Find(rows, other)
  {
    if rows != [] {
      assert (rows + [p])[1..] == rows[1..] + [p];
      assert IdsBelow(rows[1..], nextId);
      FindAfterInsert(rows[1..], p, nextId, other);
    } else {
      assert rows + [p] == [p];
    }
  }

  /** A row appended under an id above every id keeps the table in id order. */
  lemma {:induction false} InsertKeepsOrder(rows: seq<Product>, p: Product, nextId: int)
    requires IdsBelow(rows, nextId) && p.id == nextId && nextId >= 1 && IdsIncreasing(rows)
    ensures IdsIncreasing(rows + [p]) && IdsBelow(rows + [p], nextId + 1)
  {
    var r := rows + [p];
    forall i, j | 0 <= i < j < |r| ensures r[i].id < r[j].id {
      assert r[i] == rows[i];
    }
  }

  /** The products table: its rows in id order and the AUTOINCREMENT counter,
      which never hands out an id twice, even after a delete. */
  class ProductTable {
    var rows: seq<Product>
    var nextId: int

    ghost predicate Valid()
      reads this
    {
      nextId >= 1 && IdsIncreasing(rows) && IdsBelow(rows, nextId)
    }

    constructor ()
      ensures Valid() && rows == [] && nextId == 1
    {
      rows := [];
      nextId := 1;
    }

    /** `SELECT * FROM products WHERE id = ?`. */
    function Lookup(id: int): Option<Product>
      reads this
    {
      Find(rows, id)
    }

    /** `INSERT INTO products (name, price, category, image) VALUES (…)`. */
    method Insert(name: string, price: Price, category: string, image: string) returns (id: int)
      requires Valid()
      modifies this
      ensures Valid()
      ensures id == old(nextId) && old(Lookup(id)) == None
      ensures rows == old(rows) + [Product(id, name, price, category, image)] && nextId == id + 1
    {
      id := nextId;
      FindAbsentAbove(rows, nextId);
      InsertKeepsOrder(rows, Product(id, name, price, category, image), nextId);
      rows := rows + [Product(id, name, price, category, image)];
      nextId := nextId + 1;
    }

    /** `DELETE FROM products WHERE id = ?`. */
    method DeleteId(id: int)
      requires Valid()
      modifies this
      ensures Valid()
      ensures rows == WithoutId(old(rows), id) && nextId == old(nextId)
    {
      DeleteKeepsOrder(rows, id, nextId);
      rows := WithoutId(rows, id);
    }

    /** `UPDATE products SET … WHERE id = ?`. */
    method UpdateId(id: int, name: string, price: Price, category: string, image: string)
      requires Valid()
      modifies this
      ensures Valid()
      ensures rows == WithUpdate(old(rows), id, name, price, category, image) && nextId == old(nextId)
    {
      UpdateKeepsIds(rows, id, name, price, category, image);
      rows := WithUpdate(rows, id, name, price, category, image);
    }
  }

  lemma {:induction false} FindAbsentAbove(rows: seq<Product>, nextId: int)
    requires IdsBelow(rows, nextId)
    ensures Find(rows, nextId) == None
  {
    if rows != [] {
      FindAbsentAbove(rows[1..], nextId);
    }
  }

  /** A row of the `users` table (its id is never read, so it is not kept). */
  datatype Account = Account(username: string, passwordHash: string)

  /** `SELECT password_hash FROM users WHERE username = ?`. */
  function FindHash(accounts: seq<Account>, username: string): Option<string> {
    if accounts == [] then None
    else if accounts[0].username == username then Some(accounts[0].passwordHash)
    else FindHash(accounts[1..], username)
  }

  /** The UNIQUE constraint on `username`. */
  predicate UniqueUsernames(accounts: seq<Account>) {
    accounts == [] || (FindHash(accounts[1..], accounts[0].username) == None && UniqueUsernames(accounts[1..]))
  }

  /** How many rows carry `username`. */
  function UserCount(accounts: seq<Account>, username: string): nat {
    if accounts == [] then 0
    else (if accounts[0].username == username then 1 else 0) + UserCount(accounts[1..], username)
  }

  /** Under the UNIQUE constraint a username has at most one row, and has one
      exactly when a lookup finds a hash. */
  lemma {:induction false} UniqueMeansOneRow(accounts: seq<Account>, username: string)
    requires UniqueUsernames(accounts)
    ensures UserCount(accounts, username) == if FindHash(accounts, username).Some? then 1 else 0
  {
    if accounts != [] {
      UniqueMeansOneRow(accounts[1..], username);
      if accounts[0].username == username {
        NoHashNoRow(accounts[1..], username);
      }
    }
  }

  lemma {:induction false} NoHashNoRow(accounts: seq<Account>, username: string)
    requires FindHash(accounts, username) == None
    ensures UserCount(accounts, username) == 0
  {
    if accounts != [] {
      NoHashNoRow(accounts[1..], username);
    }
  }

  /** Appending a new username keeps usernames unique; the new row is found under
      its username and no other lookup changes. */
  lemma {:induction false} InsertAccount(accounts: seq<Account>, username: string, hash: string, other: string)
    requires UniqueUsernames(accounts) && FindHash(accounts, username) == None
    ensures UniqueUsernames(accounts + [Account(username, hash)])
    ensures FindHash(accounts + [Account(username, hash)], other) == if other == username then Some(hash) else FindHash(accounts, other)
  {
    var a := accounts + [Account(username, hash)];
    if accounts != [] {
      assert a[1..] == accounts[1..] + [Account(username, hash)];
      InsertAccount(accounts[1..], username, hash, other);
      InsertAccount(accounts[1..], username, hash, accounts[0].username);
    } else {
      assert a == [Account(username, hash)];
    }
  }

  /** The `users` table. */
  class AccountTable {
    var accounts: seq<Account>

    ghost predicate Valid()
      reads this
    {
      UniqueUsernames(accounts)
    }

    constructor ()
      ensures Valid() && accounts == []
    {
      accounts := [];
    }

    function HashOf(username: string): Option<string>
      reads this
    {
      FindHash(accounts, username)
    }

    /** `INSERT INTO users (username, password_hash) VALUES (?, ?)`; the UNIQUE
        constraint requires the username to be new. */
    method Insert(username: string, passwordHash: string)
      requires Valid() && HashOf(username) == None
      modifies this
      ensures Valid()
      ensures accounts == old(accounts) + [Account(username, passwordHash)]
    {
      InsertAccount(accounts, username, passwordHash, username);
      accounts := accounts + [Account(username, passwordHash)];
    }
  }
}

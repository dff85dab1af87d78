# sports-store core in Dafny

This project models the request logic of the sports-store Flask application
(`app.py`). The modelled parts are:

- the session cart: a name→quantity dictionary, the upgrade of the older list-of-names
  cart, adding and removing lines, and the cart page's join against the products table
  with its total;
- the product form validator;
- the products table as the admin handlers change it: add, delete and update;
- the catalog filter of `/products`: a name search through SQL `LIKE` and an exact category;
- the session and authentication state: the CSRF token, the `admin_required` guard,
  registration, login and logout.

Modules follow the application's layers:

| module | file | content |
|---|---|---|
| `Common` | common.dfy | Option, Result (a value or a raised Python exception), pages, flash messages, redirects |
| `Text` | text.dfy | `str.strip()` with Python's whitespace set, ASCII lower-casing, decimal literals and `float` |
| `ProductForm` | product_form.dfy | `validate_product_form` |
| `Catalog` | catalog.dfy | products, REAL-affinity prices, SQLite `LIKE`, the catalog filter |
| `ShoppingCart` | shopping_cart.dfy | the cart dictionary, legacy upgrade, the cart page |
| `Tables` | tables.dfy | the `products` and `users` tables as classes |
| `Sessions` | sessions.dfy | the session object and the CSRF check |
| `Routes` | routes.dfy | the request handlers |

Modelling choices:

- The cart is a sequence of `Entry(name, qty)`. `Qty` and `Keys` give the
  dictionary view of it. Within one request the order is insertion order, as in a
  Python dictionary. Flask writes the session cookie as JSON with sorted keys, so
  every cart a handler stores is read back by the next request in name order
  (`SortByName`). The cart page lists lines in the order of the cart it holds:
  name order for a stored dictionary, and first-occurrence order for a legacy
  list it has just upgraded.
- The products table is a class that holds its rows in id order plus the
  AUTOINCREMENT counter. It is not a map, because `SELECT` without `ORDER BY` returns
  rows in rowid order, and both the catalog and the cart page depend on that order.
- Prices are exact real numbers. `float(price)` reads a decimal literal (sign,
  digits with at most one point, optional exponent) or, ignoring case, "nan",
  "inf" and "infinity". The one rounding of `float` that can change a verdict is
  underflow: a positive literal no larger than 2 to the power -1075 becomes 0.0,
  so `price <= 0` holds for it. The model's comparison with zero uses that bound
  (`Text.UnderflowBound`). The `price` column has REAL affinity: SQLite stores a
  decimal literal as its number (`Num`) and keeps any other text as text (`TextPrice`).
  In the model, text reaches the table in two ways. An update without an image skips
  validation. And "nan" and "inf" pass validation, because neither compares at
  most zero, but they are not decimal literals. The cart page then fails at
  `total += qty * price` with a TypeError, and the model reports that as
  `Raised("TypeError")`.
- Three more crash paths are also error results rather than preconditions:
  - `remove_from_cart` on a legacy list that holds the name (`del` on a list with a string index);
  - `admin_update` with an empty image for an unknown id (subscripting `None`);
  - `admin_edit` for a signed-in admin, which calls `admin_required()` without an argument.
- The password hash and check from werkzeug are function parameters with no
  interpretation. The fresh token from `secrets.token_hex(16)` is a parameter as well.
- `admin_update` has no `admin_required` guard in the source, and the model
  follows it: only the CSRF token protects the update.

## Model

| member | source | states |
|---|---|---|
| Text.LeadingSpacesSpec | app.py:129 | the characters `lstrip` removes are all whitespace, and the first one it keeps is not |
| Text.TrailingSpacesSpec | app.py:129 | the characters `rstrip` removes are all whitespace, and the last one it keeps is not |
| Text.StripSpec | app.py:129-130 | `strip()` leaves the infix of the input framed by whitespace on both sides; that infix neither starts nor ends with whitespace, and it is empty exactly when the input is all whitespace |
| Text.StripBlank | app.py:336 | a stripped field is empty exactly when the raw field is all whitespace, so a whitespace-only username or password counts as missing |
| Text.StripTrimmed | app.py:238-241 | a string with no whitespace at either end is left as it is |
| Text.StripIdempotent | app.py:238-241 | stripping a stripped field changes nothing |
| Text.ParseNumber | app.py:107-108 | `float` on a price string gives a finite value exactly for a decimal literal, and that value is the literal's; it gives NaN exactly for "nan" and an infinity exactly for "inf" or "infinity" (any case, optional sign), negative exactly when the sign is `-`; any other string is the ValueError |
| Text.ParseIntegerRoundTrip | app.py:108 | reading back the rendering of any integer as an integer numeral gives that integer |
| Text.ParseNumberRoundTrip | app.py:108 | `float` reads the rendering of any integer as that integer |
| Text.IntegerIsDecimalLiteral | app.py:108 | an integer numeral, read as a decimal literal, denotes its integer value |
| Text.DecimalPointValue | app.py:108 | digits w, a point and digits f, not both empty, read as w plus the fraction f |
| Text.FractionDigitsValue | app.py:108 | the digits f after a point are worth their value as an integer over ten to the number of digits |
| Text.ExponentValue | app.py:108 | digits, `e` or `E` and the rendering of an integer k read as the digits' value shifted by k places |
| Text.ExponentLiteral | app.py:108 | digits, `e` or `E` and any integer numeral of value k (a sign and leading zeros allowed) read as the digits' value shifted by k places |
| Text.ShiftUp | app.py:108 | shifting by k places to the left multiplies by ten to the k |
| Text.ShiftDown | app.py:108 | shifting by k places to the right divides by ten to the k |
| Text.WordIsNotLiteral | app.py:108 | a string whose first character after the sign is not a digit, a point or an exponent mark is not a decimal literal |
| Text.ModestPowerSurvives | app.py:108-109 | the underflow bound is positive and below ten to the power -k for every k up to 300, so `float` keeps such a value positive |
| Text.TinyPowerUnderflows | app.py:108-109 | ten to the power -k is at most the underflow bound for every k from 359 on, so `float` rounds it to 0.0 |
| Text.UnderflowBoundBelowOne | app.py:108-109 | the underflow bound lies strictly between 0 and 1 |
| Text.NegativePowerPrice | app.py:108 | "1e-k" reads as ten to the power -k, a positive value |
| Text.ExampleWholePrices | app.py:107-108 | "0" and "10" read as 0 and 10 |
| Text.ExampleDecimalPrice | app.py:107-108 | "19.99" reads as exactly 19.99 |
| Text.ExampleExponentPrice | app.py:107-108 | "1e3" reads as 1000 |
| Text.ExampleWordPrice | app.py:107-111 | "abc" is the ValueError |
| Text.ExampleNanPrice | app.py:107-108 | "nan" reads as NaN |
| Text.ExampleInfinitePrice | app.py:107-108 | "-inf" reads as negative infinity |
| ProductForm.ValidateProductForm | app.py:104-117 | checks in the source's order: any empty field gives "All fields are required."; then a price `float` refuses gives "Price must be a number.", a price that compares at most zero (a finite value at most 2 to the power -1075, which `float` rounds to 0.0 or below; negative infinity; never NaN) gives "Price must be greater than zero.", and a bad image extension gives "Invalid image format.", each exactly under its condition; None exactly when every field is present, the price is read and does not compare at most zero, and the lower-cased image ends in .png, .jpg, .jpeg or .webp |
| ProductForm.UnderflowRefused | app.py:108-110 | a price "1e-k" with k at least 359 is a positive literal, yet `float` rounds it to 0.0 and the form is refused as not positive |
| ProductForm.SmallPriceAccepted | app.py:104-117 | a price "1e-k" with k at most 300 survives as a positive double, so with every field present and an accepted image the form passes |
| ProductForm.UnderflowExample | app.py:108-110 | "1e-400" reads as a positive value, yet the form gets "Price must be greater than zero." |
| ProductForm.SmallPriceExample | app.py:104-117 | "1e-300" passes |
| ProductForm.ExampleImages | app.py:114 | "b.png" and "B.PNG" have an accepted extension and "b.gif" does not |
| ProductForm.RefusedExamples | app.py:104-117 | a zero price and a "-inf" price, a non-numeric price, a .gif image and an empty name each get their error |
| ProductForm.AcceptedExamples | app.py:104-117 | the prices "10", "19.99", "1e3" and "nan" pass, and so does an upper-case "B.PNG" |
| Catalog.StoredPrice | app.py:250-253 | a price the column does not store as a number keeps its text unchanged |
| Catalog.StoredPriceAgreesWithFloat | app.py:250-253 | the column stores a number exactly when `float` reads the price as a finite number, and with the same value; text `float` reads as NaN or an infinity stays text |
| Catalog.StoredPriceOfNumeral | app.py:250-253 | an integer numeral price is stored as its numeric value |
| Catalog.StoredPriceExamples | app.py:250-253 | "19.99" is stored as the number 19.99, and "nan" is stored as the text "nan" |
| Catalog.Select | app.py:135-147 | a row is listed exactly when it is in the table and meets both optional conditions; the listing is no longer than the table and keeps its id order |
| Catalog.ProductPageUnfiltered | app.py:129-147 | with a blank search and a blank category the page lists the whole table in storage order |
| Catalog.LikeLiteralPrefix | app.py:139-140 | a wildcard-free literal followed by `%` matches exactly the strings that begin with it, ignoring ASCII case |
| Catalog.LikeLeadingPercent | app.py:139-140 | a pattern that starts with `%` matches exactly when the rest matches some suffix of the string |
| Catalog.NameMatchesIsSubstring | app.py:139-140 | for a search term without `%` or `_`, `name LIKE '%term%'` holds exactly when the lower-cased name contains the lower-cased term |
| Catalog.ProductPageMembership | app.py:127-150 | for a search term without wildcards, a product is listed exactly when it is in the table, its name contains the stripped term ignoring ASCII case (unless the term is blank) and its category equals the stripped category (unless that is blank) |
| ShoppingCart.Put | app.py:174 | writing a key adds it to the keys; an existing key is overwritten at its own index with everything else in place, and a new key is appended at the end |
| ShoppingCart.QtyPut | app.py:174 | writing a key changes the quantity of that key only |
| ShoppingCart.QtyPositiveIsKey | app.py:174 | in a well-formed cart a name has a positive quantity exactly when it is a key |
| ShoppingCart.PutWellFormed | app.py:174 | writing a positive quantity keeps keys unique and every quantity at least 1 |
| ShoppingCart.AddToCartEffect | app.py:171-177 | adding a name keeps the cart well formed, raises that name's quantity (0 when absent) by one, leaves every other quantity alone, and appends a new name as `Entry(name, 1)` |
| ShoppingCart.DeleteAbsent | app.py:185-186 | removing a name that is not a key leaves the cart as it is |
| ShoppingCart.DeleteShape | app.py:185-186 | removing a name keeps the cart well formed, removes exactly that key, and gives it quantity 0 while every other quantity stays |
| ShoppingCart.RemoveFromCartEffect | app.py:183-188 | after a removal the name is gone, every other quantity is unchanged, the cart stays well formed, and an absent name leaves the cart as it is |
| ShoppingCart.RemoveIdempotent | app.py:183-188 | removing a name twice is the same as removing it once |
| ShoppingCart.DeleteAfterPut | app.py:174-186 | removing a name undoes any earlier write of that name |
| ShoppingCart.RemoveAfterAdds | app.py:171-188 | after any number of additions of a name, removing it gives the cart with that name removed, and a second removal changes nothing |
| ShoppingCart.InsertByNameSpec | app.py:176-177 | inserting an entry with a new name into a name-ordered cart keeps it in name order, adds exactly that key with that quantity, and keeps it well formed |
| ShoppingCart.SortByNameSpec | app.py:176-177 | the cart read back after the session is saved is in name order, well formed, and has the same keys and quantities |
| ShoppingCart.SortedCartsEqual | app.py:176-177 | two name-ordered, well-formed carts with the same quantities are the same sequence |
| ShoppingCart.SavedCartIsDictionary | app.py:176-177 | the cart the next request reads depends only on the dictionary, not on the order its keys were added in |
| ShoppingCart.SortSorted | app.py:187-188 | a cart already in name order is read back unchanged |
| ShoppingCart.DeleteKeepsSorted | app.py:185-188 | removing a name from a name-ordered cart keeps it in name order |
| ShoppingCart.SavedOrderExample | app.py:171-177 | adding "Yoga Mat" and then "Football" builds Yoga Mat then Football, and the next request reads Football first |
| ShoppingCart.BelowTotal | app.py:176-177 | Python's string order relates any two different names one way or the other |
| ShoppingCart.BelowTransitive | app.py:176-177 | Python's string order is transitive |
| ShoppingCart.BelowAsymmetric | app.py:176-177 | Python's string order never relates two names both ways |
| ShoppingCart.UpgradeCounts | app.py:165-169 | the upgraded legacy cart is well formed, each name's quantity is its number of occurrences in the list (so every stored quantity is at least 1), and its keys are exactly the listed names |
| ShoppingCart.UpgradeExample | app.py:198-203 | `["Football", "Football", "Yoga Mat"]` becomes Football × 2 followed by Yoga Mat × 1 |
| ShoppingCart.UpgradeLegacy | app.py:166-168 | the counting loop builds exactly the upgraded cart |
| ShoppingCart.TimesIsProduct | app.py:213 | the subtotal, the price added up qty times, is qty × price |
| ShoppingCart.LinesTotalAppend | app.py:206-215 | the total of concatenated line lists is the sum of their totals |
| ShoppingCart.EntryLinesSum | app.py:209-215 | one entry gives one line per product of the same name, and those lines add up to qty times the sum of their prices |
| ShoppingCart.CartTotalIsWeighted | app.py:205-215 | the cart total equals the sum over entries and over products whose name equals the entry name of qty × price |
| ShoppingCart.OrphanEntry | app.py:208-215 | an entry whose name no product has gives no line and adds nothing to the total |
| ShoppingCart.NoMatches | app.py:209-210 | with no product of that name, there are no matches and their prices sum to 0 |
| ShoppingCart.CartExample | app.py:205-215 | two footballs at 499 give one line with subtotal 998 and total 998, and a name with no product gives no lines and total 0 |
| ShoppingCart.CartStep | app.py:208-215 | one more pass of the outer loop appends that entry's lines, adds that entry's weighted prices to the total, and fails when that entry meets a text price |
| ShoppingCart.TextPricePrefix | app.py:208-215 | a text price met among the first entries is met in the whole cart |
| ShoppingCart.RenderEntry | app.py:209-215 | the inner loop for one entry raises a TypeError exactly when a product of that name has a text price; otherwise it yields one line per such product and a sum of qty times their prices |
| ShoppingCart.RenderCart | app.py:205-217 | the nested loops raise a TypeError exactly when an entry meets a product with a text price; otherwise they yield the joined lines and the total over entries of qty times the prices of the products of that name |
| Tables.FindAfterDelete | app.py:264-268 | after a delete the id finds nothing and every other id finds what it found before |
| Tables.DeleteUnknownId | app.py:264-268 | deleting an id that is not in the table changes nothing |
| Tables.DeleteIdempotent | app.py:264-268 | deleting the same id twice is the same as deleting it once |
| Tables.DeleteKeepsRows | app.py:264-268 | a delete keeps only rows that were there, none with the deleted id |
| Tables.DeleteKeepsIncreasing | app.py:264-268 | a delete keeps the remaining rows in id order |
| Tables.DeleteKeepsOrder | app.py:264-268 | a delete keeps the id order and keeps every id below the next id to be handed out |
| Tables.FindAfterUpdate | app.py:317-318 | an update rewrites the row with that id, if there is one, and every other id finds what it found before |
| Tables.UpdateKeepsIds | app.py:317-318 | an update keeps the number of rows and every row's id in place |
| Tables.FindAfterInsert | app.py:248-253 | a row appended under the next id is found under that id, and other lookups are unchanged |
| Tables.InsertKeepsOrder | app.py:248-253 | a row appended under the next id keeps the table in id order, with every id below the advanced counter |
| Tables.FindAbsentAbove | app.py:48-49 | no row has the id that AUTOINCREMENT hands out next |
| Tables.ProductTable.Insert | app.py:248-253 | the insert appends one row under the next id, an id no row had, and advances the counter |
| Tables.ProductTable.DeleteId | app.py:264-268 | the rows become the old rows without that id, and the counter does not go back |
| Tables.ProductTable.UpdateId | app.py:317-318 | the rows become the old rows with that id's row rewritten |
| Tables.UniqueMeansOneRow | app.py:58-62 | under the UNIQUE constraint a username has exactly one row when a lookup finds it and none otherwise |
| Tables.NoHashNoRow | app.py:342-346 | a username the lookup does not find has no row |
| Tables.InsertAccount | app.py:377-383 | inserting a new username keeps usernames unique, and afterwards that username finds the new hash while every other lookup is unchanged |
| Tables.AccountTable.Insert | app.py:379-383 | the insert appends one account row, and usernames stay unique |
| Sessions.VerifyCsrf | app.py:76-79 | the check passes exactly when the session token is present and non-empty and the form token is equal to it |
| Sessions.CsrfChecks | app.py:76-79 | an echoed issued token passes, and a missing or different form token or a missing session token fails |
| Sessions.Session.GenerateCsrfToken | app.py:24-27 | an existing token is kept; otherwise the new token is stored; either way a form that echoes the returned token passes the check |
| Sessions.Session.Clear | app.py:393 | the token, the admin flag and the cart are all gone |
| Routes.AdminRequired | app.py:96-102 | the handler runs exactly when the admin flag is set; otherwise the answer is a redirect to the login page |
| Routes.AdminEdit | app.py:273-277 | a signed-in admin always gets a TypeError; anyone else is redirected to the login page |
| Routes.AcceptedFormProduct | app.py:243-253 | a product inserted after validation passes has a name, a category and an accepted image; its price is a positive number exactly when `float` reads it as a finite number, and otherwise it is the text of a NaN or a positive infinity |
| Routes.NanPriceBreaksCart | app.py:243-253 | the price "nan" passes validation, is stored as text, and a cart holding that product meets a text price |
| Routes.AdminAdd | app.py:230-258 | a visitor without the admin flag is redirected to login and a bad CSRF token gets "Invalid CSRF token"; both leave the table unchanged. A validation error flashes its message and leaves the table unchanged. Otherwise exactly one product with the stripped fields is appended under the next id, with "Product added successfully!" |
| Routes.AdminDelete | app.py:260-271 | without the admin flag the table is unchanged; with it, the rows with that id are removed and the answer is "Product deleted" |
| Routes.AdminUpdate | app.py:290-324 | a bad CSRF token changes nothing. With an image the form is validated and an error changes nothing. With an empty image no check runs and the stored image is kept, and an unknown id raises a TypeError. Otherwise only that id's row is rewritten, with "Product updated successfully!" |
| Routes.UpdateWithoutImageSkipsValidation | app.py:302-318 | an update without an image can replace a well-formed product with an empty name and category and a text price |
| Routes.DecimalUpdateInCart | app.py:302-318 | an update without an image and with the price "19.99" stores the number 19.99, and the cart page for one such product shows one line and a total of 19.99 |
| Routes.Register | app.py:358-387 | a blank username or password, or a username that is taken, gets its own message and leaves the table unchanged; otherwise one account with the stripped username and the hash of the stripped password is appended, and the visitor goes to the login page |
| Routes.RegisterTwice | app.py:371-375 | after a registration the username finds the stored hash and has exactly one row, so a second registration is refused |
| Routes.RegisteredUserCanLogIn | app.py:342-353 | after a registration, the lookup at login finds a hash that the password check accepts for the registered password |
| Routes.AdminLogin | app.py:330-354 | blank fields get "Username and password are required". An unknown user and a wrong password get the same "Invalid username or password", and neither changes the flag. Otherwise the admin flag is set and the visitor goes to the admin page |
| Routes.AdminLogout | app.py:391-394 | the whole session is cleared, the cart included, and the visitor goes home |
| Routes.AddToCart | app.py:160-179 | the stored cart becomes the old cart, read as empty when missing and upgraded when a legacy list, with one more unit of the name, read back in name order; it stays well formed |
| Routes.RemoveFromCart | app.py:181-191 | a missing cart is stored as empty and a dictionary cart loses that name's line and keeps its name order; a legacy list is left as it is, and holding the name raises a TypeError |
| Routes.ViewCart | app.py:193-217 | a legacy list is upgraded and written back in name order, while the page lists it in upgrade order; a stored dictionary is listed in its name order; the page raises a TypeError exactly when a matched product has a text price, and otherwise lists the joined lines with the total |

## Left out

- Flask routing, `render_template`, `url_for` and the rendering of flash messages are left out. Each handler returns the redirect target and the flash message it would queue.
- The GET branches of `admin_login` and `register` only render a template, and are left out.
- The admin dashboard (`admin`), `home` and `contact` only render templates, and are left out.
- The sqlite connection, cursor and commit plumbing is left out. The tables are in-memory state, and each handler runs as one atomic step.
- Concurrent requests and session expiry are left out. Each request runs on its own session.
- The `users` table's id column is not kept, because no handler reads it.
- werkzeug's `generate_password_hash` and `check_password_hash` are function parameters with no interpretation. The model does not say that the check accepts the hash of the same password; `Routes.RegisteredUserCanLogIn` assumes it.
- `secrets.token_hex(16)` is a parameter (`newToken`) that must be 32 lower-case hex digits. Its randomness is not modelled.
- Text.ParseNumber: surrounding whitespace, which `float` skips, never reaches it, because both handlers strip the price first. `float` also accepts underscores between digits ("1_000") and non-ASCII decimal digits; the model reads those as not numbers. A value is kept exact: the rounding of `float` to the nearest double, its overflow to infinity for very large exponents and its underflow to 0.0 for very small ones are not modelled here. Underflow is the only one of these that changes a verdict, and `ProductForm.AtMostZero` models it.
- ProductForm.ValidateProductForm: a price with underscores between digits ("1_000") or with non-ASCII decimal digits gets "Price must be a number.", where `float` reads it and validation goes on to the other checks. `admin_add` in the source can then store such a price, as text, because SQLite does not read it as a number. The model refuses it, because its decimal-literal grammar leaves these forms out.
- Catalog.StoredPrice: the stored value is the exact decimal value rather than the nearest double.
- ShoppingCart.RenderCart: prices and totals are exact real numbers, so floating-point rounding in `qty * price` and in the running total is not modelled.
- Catalog.ProductPageMembership: the substring reading holds only for search terms without `%` or `_`. `Catalog.Like` itself models the wildcards in full, with SQLite's ASCII-only case folding.
- database.py and seed_products.py are not part of this model. They create a conflicting schema (a UNIQUE name and an INTEGER price) and insert seed rows, which is deployment state rather than request logic.

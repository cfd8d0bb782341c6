# Marketplace store, verified in Dafny

This project models the core of a small Flask marketplace. Users register and
log in. A user opens shops, adds products to their own shops and deletes
them, and comments on any product. Anyone can browse the ten newest products
and search by text.

The database is four in-memory tables of records keyed by integer id:
`User`, `Shop`, `Product` and `Comment`. Each table has a counter that hands
out the next id. The consistency the schema and the forms keep is one
predicate, `Models.Valid`. It requires:

- unique emails and unique shop names;
- every foreign key resolving (shop owner, product shop, comment author and
  comment product);
- every row within the length and price bounds;
- every id below its table's counter.

The modules follow the source files:

- `results.dfy` (`Results`): the `Option` and `Response` wrappers, and the
  failures a view can answer with (login required, 404, 403, invalid form,
  and so on).
- `text.dfy` (`Text`): the Python string operations the core relies on:
  `str.isspace`, `str.lower`, substring `in`, `str.endswith`, and the last
  `.` of a name.
- `models.dfy` (`Models`): the records, the database and its invariant.
  - Lemmas show that each kind of insert and in-place user update keeps the
    invariant.
  - The `filter_by(...).first()` lookups are modelled as an id-ordered scan.
  - It also holds the `User` methods: `set_password`, `check_password`,
    `get_id` with the user loader's `int()` read-back, and the `is_*` flags.
- `forms.dfy` (`Forms`): the validator lists of the forms as predicates,
  including the two validators that query the store (`validate_email`,
  `validate_name`), with lemmas stating each form's acceptance rule.
- `views.dfy` (`Views`):
  - the read-only views (`allowed_file`, `index`, `search`, `login`,
    `manage_shop`, `account`) as functions;
  - one step function per view that writes, giving the database after the
    request and the response;
  - lemmas relating the views to each other;
  - one lemma per writing view showing it keeps `Valid`.
- `routes.dfy` (`Routes`): the class `Store`.
  - It holds the four tables and the four counters as fields.
  - It has one method per writing view, which updates those fields step by
    step.
  - Each method keeps `Valid()` and ends in exactly the state and response of
    its view's step function.

The acting user is passed to every view as an optional user id. A user is
authenticated when the id names an existing row, as Flask-Login's user loader
does. bcrypt is the abstract pair `Env.hash`/`Env.check`; the model assumes
only `Env.Sound()`: a password checks against its own hash, and the hash
differs from the password.

A second registration with a held email never reaches the view's own check
at app/views.py:57-60. `RegisterForm` inherits `BaseForm.validate_email`, which
refuses the held email while the form validates. The request fails as an
invalid form and nothing is added.

## Model

| member | source | states |
|---|---|---|
| Text.Lower | app/views.py:18 | lower-casing keeps the length and lower-cases each character in place |
| Text.LowerSlice | app/views.py:220-221 | lower-casing a slice equals slicing the lower-cased text, so a match survives lower-casing |
| Text.LowerKeepsDot | app/views.py:17-18 | lower-casing neither creates nor removes a `.` |
| Text.Contains | app/views.py:220-221 | `LIKE '%q%'` without wildcards: it holds exactly when q occurs at some position of s |
| Text.LastDot | app/views.py:17-18 | the split point of `rsplit('.', 1)` is a `.` with no `.` after it, and there is none exactly when the name has no `.` |
| Models.EmptyDbValid | app/models.py:6-71 | the freshly created, empty database satisfies every constraint |
| Models.InsertUserValid | app/views.py:64-70 | adding a user under the next id, with an email nobody holds and at most 100 characters, keeps the database valid |
| Models.InsertUserUnique | app/models.py:8 | inserting a user whose email nobody holds keeps emails unique |
| Models.InsertUserReferences | app/models.py:45 | adding a user keeps every foreign key resolving |
| Models.InsertShopValid | app/views.py:95-100 | adding a shop with a free name, a bounded length and an existing owner keeps the database valid |
| Models.InsertShopUnique | app/models.py:42 | inserting a shop whose name no shop has keeps shop names unique |
| Models.InsertShopReferences | app/models.py:45 | adding a shop owned by an existing user keeps every foreign key resolving |
| Models.InsertProductValid | app/views.py:144-153 | adding a bounded product of an existing shop keeps the database valid |
| Models.InsertProductReferences | app/models.py:56 | adding a product of an existing shop keeps every foreign key resolving |
| Models.InsertCommentValid | app/views.py:174-180 | adding a bounded comment by an existing user on an existing product keeps the database valid |
| Models.InsertCommentReferences | app/models.py:69-71 | adding a comment whose author and product exist keeps every foreign key resolving |
| Models.UpdateUserValid | app/views.py:242-243 | replacing a user row in place keeps the database valid when the new email is bounded and held by no other user |
| Models.UpdateUserUnique | app/models.py:8 | replacing a user row with an email no other user holds keeps emails unique |
| Models.UpdateUserReferences | app/models.py:45 | replacing a user row keeps every foreign key resolving, because the set of user ids is unchanged |
| Models.FirstKey | app/views.py:36 | the lookup returns the lowest matching id, and returns none exactly when no row matches |
| Models.UserByEmailExact | app/forms.py:26-29 | on a valid database the email lookup finds exactly the user holding the email, and nothing when nobody holds it |
| Models.ShopByNameExact | app/forms.py:112-118 | on a valid database the name lookup finds exactly the shop with that name, and nothing when no shop has it |
| Models.CheckPassword | app/models.py:19-20 | `check_password` asks the hashing library whether the password matches the stored hash; with a sound library it accepts the password last set (`Models.SetPassword`) |
| Models.SetPassword | app/models.py:15-20 | set_password keeps the email; afterwards check_password accepts the password, and the stored value is not the password |
| Models.GetId | app/models.py:23-24 | get_id is a non-empty string of decimal digits without a leading zero |
| Models.ParseGetId | app/__init__.py:31-37 | the user loader's `int()` reads back exactly the id `get_id` wrote |
| Models.GetIdInjective | app/models.py:23-24 | two different users never have the same session string |
| Models.IsActive | app/models.py:26-28 | is_active is always true |
| Models.IsAuthenticated | app/models.py:30-32 | is_authenticated is always true |
| Models.IsAnonymous | app/models.py:34-36 | is_anonymous is always false |
| Forms.EmailAvailable | app/forms.py:26-29 | `validate_email`: an email is available exactly when the `filter_by(email=...).first()` lookup finds no user; on a valid store that means no user holds it (`Models.UserByEmailExact`) |
| Forms.NameAvailable | app/forms.py:112-118 | `validate_name`: a name is available when no shop has it, or when the shop holding it is the one the form edits; creation edits none |
| Forms.LoginFormOk | app/forms.py:31-53 | the login form is accepted exactly when the email is non-blank and well formed and the password is non-blank |
| Forms.RegisterFormOk | app/forms.py:55-82 | the `RegisterForm` validators together with the inherited `validate_email`; its acceptance rule is `Forms.RegisterFormRules` |
| Forms.EditProfileFormOk | app/forms.py:159-170 | the `EditProfileForm` validators (non-blank, well formed, at most 100 characters) together with the inherited `validate_email` |
| Forms.ChangePasswordFormOk | app/forms.py:176-201 | the `ChangePasswordForm` validators; its acceptance rule is `Forms.ChangePasswordFormRules` |
| Forms.ShopFormOk | app/forms.py:88-118 | the `ShopForm` validators together with `validate_name`; its acceptance rule is `Forms.ShopFormRules` |
| Forms.ImageOk | app/forms.py:136-138 | `FileAllowed`: no file, or a file name that ends in `.jpg`, `.jpeg` or `.png` once lower-cased |
| Forms.ProductFormOk | app/forms.py:120-138 | the `ProductForm` validators; its acceptance rule is `Forms.ProductFormRules` |
| Forms.CommentFormOk | app/forms.py:142-149 | the `CommentForm` validators; its acceptance rule is `Forms.CommentFormRules` |
| Forms.RegisterFormRules | app/forms.py:59-82 | registration is accepted exactly when the email is well formed, non-blank, at most 100 characters and held by nobody, the password is non-blank with at least 8 characters, and the confirmation equals it |
| Forms.EditProfileRefusesHeldEmail | app/forms.py:159-170 | the profile form refuses any held email, including the editing user's own |
| Forms.ChangePasswordFormRules | app/forms.py:180-201 | a password change is accepted exactly when the old password is non-blank, the new one is non-blank with at least 8 characters, and the confirmation equals it |
| Forms.ShopFormRules | app/forms.py:92-118 | a shop name is accepted exactly when it is non-blank with 3 to 100 characters, the description has at most 500, and every shop holding the name is the one the form edits |
| Forms.PriceOk | app/forms.py:131-134 | a price is accepted exactly when it is present and at least 0.01 |
| Forms.ProductFormRules | app/forms.py:121-138 | a product is accepted exactly when the title has 3 to 100 characters, the description 10 to 2000 (neither blank), the price is at least 0.01, and the image, if any, ends in .jpg, .jpeg or .png ignoring case |
| Forms.ProductFormGivesValidRow | app/models.py:50-56 | an accepted product form yields a row within the product table's bounds |
| Forms.PriceFloor | app/forms.py:131-134 | 0, negative and missing prices are refused; 0.01 is accepted and 0.009 refused |
| Forms.CommentFormRules | app/forms.py:146-149 | a comment is accepted exactly when it is non-blank with 10 to 500 characters |
| Views.AllowedFile | app/views.py:13-18 | allowed_file holds exactly when the name has a last `.` and the text after it, lower-cased, is png, jpg, jpeg or gif |
| Views.AllowedFileNeedsExtension | app/views.py:16-18 | a name with no `.`, or ending in `.`, is refused |
| Views.ExtensionAfterLastDot | app/views.py:18 | when the lower-cased name ends in `.` plus an extension without a `.`, that `.` is the last one and the rest lowers to the extension |
| Views.ImageExtensionsAllowed | app/forms.py:137 | every extension the product form accepts is one allowed_file accepts |
| Views.FormImageAllowedByFilter | app/forms.py:136-138 | every image name the product form accepts also passes allowed_file |
| Views.GifOnlyPassesFilter | app/views.py:13 | a .gif passes allowed_file but is refused by the product form |
| Views.Latest | app/views.py:24 | the query returns at most n ids of existing products in strictly descending order, and no product it leaves out has a higher id than one it returns; with fewer than n it returns them all |
| Views.Index | app/views.py:21-25 | `index` is the product query ordered by id, highest first, limited to 10; its properties are `Views.IndexIsLatestTen` |
| Views.IndexIsLatestTen | app/views.py:21-25 | index shows at most 10 products, highest id first, and they are the highest ids in the store |
| Views.Search | app/views.py:214-226 | an empty query finds nothing; otherwise the result is exactly the products whose title or description contains the query, ignoring case |
| Views.SearchFindsTitle | app/views.py:219-222 | a product whose title contains the query verbatim is found |
| Views.SearchIgnoresCase | app/views.py:220-221 | lower-casing the query does not change the result |
| Views.Login | app/views.py:28-45 | an authenticated actor is turned away; a success names the user holding the email whose password checks; after a valid form every failure is the same BadCredentials |
| Views.LoginRule | app/views.py:36-44 | on a valid store login succeeds exactly for the holder of the email when the password checks, and fails with BadCredentials for an unknown email |
| Views.ManageShop | app/views.py:106-115 | login is required; a missing shop is 404 before the owner check; a non-owner gets 403; the request succeeds exactly when the actor is logged in and owns the existing shop, and then returns that shop |
| Views.Account | app/views.py:229-233 | login is required; the result is exactly the shops the actor owns |
| Views.RegisterStep | app/views.py:47-80 | an authenticated actor is turned away; failures change nothing; success exactly when the form is accepted; success adds exactly one user under a fresh id with the email and a stored hash that checks and is not the password, and leaves every other row alone |
| Views.RegisterRefusesHeldEmail | app/views.py:54-60 | registering an email some user holds fails and changes nothing |
| Views.RegisterThenLogin | app/views.py:63-70 | after a registration, logging in with the same email and password succeeds as the new user |
| Views.CreateShopStep | app/views.py:90-103 | login is required; failures change nothing; success exactly when the form is accepted; success adds one shop under a fresh id owned by the actor, and nothing else |
| Views.CreateShopThenAccount | app/views.py:95-100 | the new shop appears on its creator's account page beside their other shops |
| Views.AddProductStep | app/views.py:123-161 | the manage_shop checks come first (login, 404, 403); failures change nothing; success exactly when the form is accepted; success adds one product of that shop under a fresh id, with the stored image name, and nothing else |
| Views.AddProductAsWritten | app/views.py:133-159 | as written, any submission with a file fails and changes nothing |
| Views.UploadRefusedAsWritten | app/views.py:137-159 | an owner's accepted submission with an image is refused as written, while the intended view stores it with its image |
| Views.AsWrittenAgreesWithoutUpload | app/views.py:136-153 | without a file, the view as written and the intended one give the same result |
| Views.PostCommentStep | app/views.py:164-184 | a missing product is 404; failures change nothing; success exactly when the form is accepted and the actor is authenticated; success adds one comment by the actor on that product, and nothing else |
| Views.DeleteProductStep | app/views.py:187-211 | login is required; a missing product is 404 before the owner check; a non-owner gets 403 and nothing changes; the owner's request removes the product and exactly the comments on it, and leaves every other row alone |
| Views.RemoveProduct | app/views.py:204-209 | the cascade removes the product and exactly the comments on it, and changes nothing else |
| Views.RemoveProductValid | app/views.py:204-209 | the cascade keeps the database valid |
| Views.RemoveProductReferences | app/models.py:69-71 | after the cascade no comment points at the removed product |
| Views.OthersCannotDeleteNewProduct | app/views.py:190-195 | a product an owner adds cannot be deleted by another user: 403, and the product is still there |
| Views.CommentGoneAfterDelete | app/views.py:204-209 | a comment on a product does not survive the product's deletion |
| Views.EditAccountStep | app/views.py:236-249 | login is required; failures change nothing; success exactly when the profile form is accepted; success changes only the actor's email |
| Views.ChangePasswordStep | app/views.py:252-266 | login is required; a wrong old password is refused and changes nothing; success exactly when the form is accepted and the old password checks; success changes only the actor's hash, to one the new password checks against |
| Views.ChangePasswordThenLogin | app/views.py:258-260 | after a password change, logging in with the new password succeeds |
| Views.RegisterKeepsValid | app/views.py:63-70 | register keeps the database valid |
| Views.CreateShopKeepsValid | app/views.py:95-100 | create_shop keeps the database valid |
| Views.AddProductKeepsValid | app/views.py:144-153 | add_product keeps the database valid |
| Views.PostCommentKeepsValid | app/views.py:174-180 | posting a comment keeps the database valid |
| Views.DeleteProductKeepsValid | app/views.py:204-209 | delete_product keeps the database valid, every reference still resolving |
| Views.EditAccountKeepsValid | app/views.py:242-243 | edit_account keeps the database valid, emails still unique |
| Views.ChangePasswordKeepsValid | app/views.py:258-260 | change_password keeps the database valid |
| Routes.Store.constructor | app/models.py:6-71 | a new store is the empty, valid database |
| Routes.Store.Register | app/views.py:47-80 | keeps the store valid and ends in the state and response of the register step |
| Routes.Store.CreateShop | app/views.py:90-103 | keeps the store valid and ends in the state and response of the create_shop step |
| Routes.Store.AddProduct | app/views.py:123-161 | keeps the store valid and ends in the state and response of the intended add_product step |
| Routes.Store.PostComment | app/views.py:164-184 | keeps the store valid and ends in the state and response of the comment step |
| Routes.Store.DeleteProduct | app/views.py:187-211 | keeps the store valid and ends in the state and response of the delete_product step |
| Routes.Store.EditAccount | app/views.py:236-249 | keeps the store valid and ends in the state and response of the edit_account step |
| Routes.Store.ChangePassword | app/views.py:252-266 | keeps the store valid and ends in the state and response of the change_password step |

## Left out

- Flask routing, templates, flash messages, redirects and the `next` parameter: presentation only. A view's outcome is the `Response` value.
- Sessions: `login_user`, `logout_user`, `login_required` and the user loader are replaced by the actor passed to each view; `logout` and the public `shop` page have no store logic.
- GET requests and CSRF tokens: only the POST behaviour of each form is modelled.
- bcrypt: hashing and checking are the abstract `Env.hash`/`Env.check`, with the random salt as a parameter. The model assumes only `Env.Sound()`.
- WTForms' `Email()` check is the abstract `Env.isEmail`. werkzeug's `secure_filename` is the abstract `Env.secureName`.
- File I/O: saving an upload and removing a product's image file are not modelled. Only the stored image name is.
- Routes.Store.DeleteProduct: does not model removing the image file, which ignores OS errors and does not affect the database.
- Views.Search: models `ilike` as plain substring search. `%` and `_` in the query are SQL wildcards in the source and ordinary characters here. The result is a set, so the row order of the query is not modelled.
- Text.Lower: lower-cases ASCII letters only. For `search` this is exact. The database is SQLite (config.py:7), and SQLAlchemy renders `ilike` as `lower(x) LIKE lower(y)`. SQLite's `lower()` and `LIKE` fold ASCII letters only. Python's `str.lower`, used by `allowed_file` and `FileAllowed`, also folds non-ASCII letters. The only non-ASCII characters it lowers to an ASCII letter are U+212A (to `k`) and U+0130 (to `i` followed by U+0307). Neither can spell `png`, `jpg`, `jpeg` or `gif`, so no result of the model changes.
- Forms.PriceOk: the price is a `real`. Parsing text into a float and IEEE rounding are not modelled. The source also accepts the price `inf`, which is truthy and passes `NumberRange(min=0.01)`; a `real` cannot represent it.
- Models.ParseGetId: `int()` also accepts signs, surrounding whitespace and underscores. The model reads back only plain digit strings, which is all `get_id` writes.
- Views.AddProductStep: the new product id comes from a counter and is never reused. SQLite may hand out the id of the highest product again after that product is deleted.
- Views.PostCommentStep: the new comment id comes from a counter and is never reused. SQLite may hand out the id of the highest comment again after `delete_product` removes it. Users and shops are never deleted, so their ids match SQLite's.
- Column lengths: the 100-character bounds of the email, shop name and title columns hold through the forms. SQLite itself does not enforce `String(n)` lengths.
- The 128-character `password_hash` column and the 100-character `image` column bounds are not modelled. Hash length is library behaviour, and the stored image name is an opaque string.
- `Comment.created_at` is the `now` parameter of the comment step. The clock is not modelled.
- Concurrency and rollback on arbitrary storage errors: each request is one atomic step over the store.
- The `try`/`except` of `register` catches storage errors that cannot occur in the model. The duplicate-email check inside it is modelled but is never reached.
- `EditProfileForm` and `ChangePasswordForm` are used at app/views.py:239 and 255 but missing from the import list at app/views.py:6-7, so as written both views raise `NameError`. The model follows the bodies of `edit_account` and `change_password` as if the forms were imported.
- `allowed_file` is never called by the application. It is modelled, and related to the product form's extension check, on its own.
- `SearchForm` is not used by the `search` view, which reads the query string directly.

## Findings

| source | as written | input that shows it | evidently intended | confidence | as-written member | corrected member |
|---|---|---|---|---|---|---|
| app/views.py:140 | saving an upload uses `current_app`, which views.py never imports; the `NameError` is caught at app/views.py:157-159 and rolled back, so no product with an image can ever be added | the shop's owner submits a valid product form with the file `photo.png` | the image is saved and the product is stored with its image name | high (from reading the code; not executed) | Views.UploadRefusedAsWritten | Views.AddProductStep |

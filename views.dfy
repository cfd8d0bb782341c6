/** The logic of the marketplace's views, with the web framework taken away:
    the acting user is an explicit optional user id, every view is a function
    of the database, and each view that writes is specified by a step function
    giving the database after the request and the response. */
module Views {

  import opened Results
  import opened Text
  import opened Models
  import opened Forms

  // ---- Upload filter

  const AllowedExtensions: set<string> := {"png", "jpg", "jpeg", "gif"}

  /** allowed_file: the text after the last '.', lower-cased, is an allowed
      extension. The application never calls it: uploads are checked by the
      product form's FileAllowed validator instead (Forms.ImageOk). */
  function AllowedFile(filename: string): (r: bool)
    ensures r <==> exists i :: IsLastDot(filename, i) && Lower(filename[i + 1..]) in AllowedExtensions
  {
    match LastDot(filename)
    case None => false
    case Some(i) =>
      assert forall k :: IsLastDot(filename, k) ==> k == i;
      Lower(filename[i + 1..]) in AllowedExtensions
  }

  /** A name without a '.', or ending in '.', is never allowed. */
  lemma AllowedFileNeedsExtension(filename: string)
    ensures (forall j :: 0 <= j < |filename| ==> filename[j] != '.') ==> !AllowedFile(filename)
    ensures |filename| > 0 && filename[|filename| - 1] == '.' ==> !AllowedFile(filename)
  {
  }

  /** If the lower-cased name ends in '.' + ext and ext holds no '.', then the
      last '.' is the one before ext, and what follows it lowers to ext. */
  lemma ExtensionAfterLastDot(filename: string, ext: string)
    requires EndsWith(Lower(filename), "." + ext)
    requires forall j :: 0 <= j < |ext| ==> ext[j] != '.'
    ensures IsLastDot(filename, |filename| - |ext| - 1)
    ensures Lower(filename[|filename| - |ext|..]) == ext
  {
    var n := |filename|;
    var k := n - |ext| - 1;
    var low := Lower(filename);
    assert low[k..] == "." + ext;
    assert low[k] == low[k..][0] == '.';
    LowerKeepsDot(filename[k]);
    forall j | k < j < n
      ensures filename[j] != '.'
    {
      assert low[j] == low[k..][j - k] == ext[j - k - 1];
      LowerKeepsDot(filename[j]);
    }
    LowerSlice(filename, k + 1, n);
    assert low[k + 1..] == low[k..][1..] == ext;
  }

  /** Each extension the product form accepts is one allowed_file accepts,
      and none holds a '.'. */
  lemma ImageExtensionsAllowed(ext: string)
    requires ext in ImageExtensions
    ensures ext in AllowedExtensions
    ensures forall j :: 0 <= j < |ext| ==> ext[j] != '.'
  {
  }

  /** Every file name the product form lets through also passes allowed_file. */
  lemma FormImageAllowedByFilter(filename: string)
    requires filename != "" && ImageOk(filename)
    ensures AllowedFile(filename)
  {
    var ext :| ext in ImageExtensions && EndsWith(Lower(filename), "." + ext);
    ImageExtensionsAllowed(ext);
    ExtensionAfterLastDot(filename, ext);
    var k := |filename| - |ext| - 1;
    assert IsLastDot(filename, k) && Lower(filename[k + 1..]) in AllowedExtensions;
  }

  /** The two extension lists disagree: a .gif passes allowed_file but is
      refused by the product form. */
  lemma GifOnlyPassesFilter()
    ensures AllowedFile("photo.gif") && !ImageOk("photo.gif")
  {
    var name := "photo.gif";
    assert Lower(name) == name;
    assert EndsWith(Lower(name), "." + "gif");
    ExtensionAfterLastDot(name, "gif");
    assert IsLastDot(name, 5) && Lower(name[6..]) in AllowedExtensions;
    forall ext | ext in ImageExtensions
      ensures !EndsWith(Lower(name), "." + ext)
    {
      if ext == "jpeg" {
        assert "." + ext == ".jpeg" && name[4..] == "o.gif";
      } else if ext == "jpg" {
        assert "." + ext == ".jpg" && name[5..] == ".gif";
      } else {
        assert ext == "png";
        assert "." + ext == ".png" && name[5..] == ".gif";
      }
    }
  }

  // ---- The acting user

  /** Flask-Login's current_user.is_authenticated: the session names a user id
      and the user loader finds that row (a missing row reads as anonymous).
      A loaded User's is_authenticated is the constant True of
      Models.IsAuthenticated, so finding the row is all it takes. */
  predicate Authenticated(db: Db, actor: Option<nat>) {
    actor.Some? && actor.value in db.users
  }

  // ---- index: the ten products with the highest ids

  const IndexSize := 10

  /** Up to n ids of products below hi, from the highest down: the query
      order_by(Product.id.desc()).limit(n). */
  function Latest(products: map<nat, Product>, hi: nat, n: nat): (r: seq<nat>)
    ensures |r| <= n
    ensures forall i :: 0 <= i < |r| ==> r[i] in products && r[i] < hi
    ensures forall i, j :: 0 <= i < j < |r| ==> r[i] > r[j]
    ensures |r| < n ==> forall id :: id in products && id < hi ==> id in r
    ensures forall id, i :: id in products && id < hi && id !in r && 0 <= i < |r| ==> id < r[i]
    decreases hi
  {
    if hi == 0 || n == 0 then []
    else if hi - 1 in products then [hi - 1] + Latest(products, hi - 1, n - 1)
    else Latest(products, hi - 1, n)
  }

  function Index(db: Db): seq<nat> {
    Latest(db.products, db.nextProduct, IndexSize)
  }

  /** index shows at most ten products, highest id first, and no product it
      leaves out has a higher id than one it shows; with fewer than ten
      products it shows them all. */
  lemma IndexIsLatestTen(db: Db)
    requires Valid(db)
    ensures var r := Index(db);
      && |r| <= 10
      && (forall i :: 0 <= i < |r| ==> r[i] in db.products)
      && (forall i, j :: 0 <= i < j < |r| ==> r[i] > r[j])
      && (|r| < 10 ==> forall id :: id in db.products ==> id in r)
      && (forall id, i :: id in db.products && id !in r && 0 <= i < |r| ==> id < r[i])
  {
  }

  // ---- search: case-insensitive substring match on title or description

  predicate Matches(p: Product, q: string) {
    Contains(Lower(p.title), Lower(q)) || Contains(Lower(p.description), Lower(q))
  }

  /** search: nothing for an empty query; otherwise every product whose title
      or description contains the query, ignoring ASCII case. */
  function Search(db: Db, q: string): (r: set<nat>)
    ensures q == "" ==> r == {}
    ensures q != "" ==> forall id :: id in r <==>
      id in db.products &&
      ((exists k: nat :: OccursAt(Lower(db.products[id].title), Lower(q), k)) ||
       (exists k: nat :: OccursAt(Lower(db.products[id].description), Lower(q), k)))
  {
    if q == "" then {} else set id | id in db.products && Matches(db.products[id], q)
  }

  /** A product whose title contains the query verbatim is found. */
  lemma SearchFindsTitle(db: Db, q: string, id: nat, k: nat)
    requires q != "" && id in db.products
    requires OccursAt(db.products[id].title, q, k)
    ensures id in Search(db, q)
  {
    var t := db.products[id].title;
    LowerSlice(t, k, k + |q|);
    assert OccursAt(Lower(t), Lower(q), k);
  }

  /** Changing the case of the query does not change the result. */
  lemma SearchIgnoresCase(db: Db, q: string)
    ensures Search(db, Lower(q)) == Search(db, q)
  {
    assert Lower(Lower(q)) == Lower(q);
  }

  // ---- login

  /** login: for an anonymous actor and a well-formed form, the user holding
      the email if the password checks against the stored hash; an unknown
      email and a wrong password give the same failure. */
  function Login(db: Db, env: Env, actor: Option<nat>, email: string, password: string): (r: Response<nat>)
    ensures Authenticated(db, actor) ==> r == Fail(AlreadySignedIn)
    ensures r.Ok? ==> !Authenticated(db, actor) && LoginFormOk(env, email, password) &&
                      r.value in db.users && db.users[r.value].email == email &&
                      CheckPassword(env, db.users[r.value], password)
    ensures !Authenticated(db, actor) && LoginFormOk(env, email, password) && r.Fail? ==>
              r.failure == BadCredentials
  {
    if Authenticated(db, actor) then Fail(AlreadySignedIn)
    else if !LoginFormOk(env, email, password) then Fail(InvalidForm)
    else
      match UserByEmail(db, email)
      case None => Fail(BadCredentials)
      case Some(id) =>
        if CheckPassword(env, db.users[id], password) then Ok(id) else Fail(BadCredentials)
  }

  /** On a valid store, login succeeds exactly for the user holding the email
      when the password checks; otherwise it fails with BadCredentials whether
      the email is unknown or the password wrong. */
  lemma LoginRule(db: Db, env: Env, email: string, password: string, id: nat)
    requires Valid(db) && LoginFormOk(env, email, password)
    ensures Login(db, env, None, email, password) == Ok(id) <==>
      id in db.users && db.users[id].email == email && CheckPassword(env, db.users[id], password)
    ensures (forall u :: u in db.users ==> db.users[u].email != email) ==>
      Login(db, env, None, email, password) == Fail(BadCredentials)
  {
    UserByEmailExact(db, email, id);
  }

  // ---- manage_shop and the ownership check shared with add_product

  /** manage_shop: login required, then 404 for a missing shop, then 403
      unless the actor owns it. */
  function ManageShop(db: Db, actor: Option<nat>, shopId: nat): (r: Response<Shop>)
    ensures !Authenticated(db, actor) ==> r == Fail(LoginRequired)
    ensures Authenticated(db, actor) && shopId !in db.shops ==> r == Fail(NotFound)
    ensures Authenticated(db, actor) && shopId in db.shops && db.shops[shopId].userId != actor.value ==>
              r == Fail(Forbidden)
    ensures r.Ok? <==> Authenticated(db, actor) && shopId in db.shops &&
                       db.shops[shopId].userId == actor.value
    ensures r.Ok? ==> r.value == db.shops[shopId]
  {
    if !Authenticated(db, actor) then Fail(LoginRequired)
    else if shopId !in db.shops then Fail(NotFound)
    // shop.owner != current_user compares get_id() strings (UserMixin.__eq__);
    // Models.GetIdInjective makes that the same as comparing the ids.
    else if db.shops[shopId].userId != actor.value then Fail(Forbidden)
    else Ok(db.shops[shopId])
  }

  // ---- account

  /** account: the ids of the shops the actor owns (current_user.shops). */
  function Account(db: Db, actor: Option<nat>): (r: Response<set<nat>>)
    ensures !Authenticated(db, actor) ==> r == Fail(LoginRequired)
    ensures Authenticated(db, actor) ==>
      r.Ok? && forall s :: s in r.value <==> s in db.shops && db.shops[s].userId == actor.value
  {
    if !Authenticated(db, actor) then Fail(LoginRequired)
    else Ok(set s | s in db.shops && db.shops[s].userId == actor.value)
  }

  // ---- The views that write

  /** The database after a request, and the response. The value of an Ok
      response is the id of the row the request created, the shop of a
      deleted product, or the acting user; where the view redirects to is not
      modelled. */
  datatype Step = Step(db: Db, response: Response<nat>)

  /** The shop, product and comment tables are the same in both databases. */
  predicate SameExceptUsers(a: Db, b: Db) {
    a.shops == b.shops && a.products == b.products && a.comments == b.comments
  }

  /** register */
  function RegisterStep(db: Db, env: Env, actor: Option<nat>, email: string, password: string,
                        confirm: string, salt: nat): (r: Step)
    requires Valid(db)
    ensures r.response.Fail? ==> r.db == db
    ensures Authenticated(db, actor) ==> r.response == Fail(AlreadySignedIn)
    ensures r.response.Ok? <==> !Authenticated(db, actor) && RegisterFormOk(db, env, email, password, confirm)
    ensures r.response.Ok? ==>
      var id := r.response.value;
      && id !in db.users && r.db.users.Keys == db.users.Keys + {id}
      && (forall u :: u in db.users ==> r.db.users[u] == db.users[u])
      && r.db.users[id].email == email
      && (env.Sound() ==> CheckPassword(env, r.db.users[id], password) && r.db.users[id].passwordHash != password)
      && SameExceptUsers(r.db, db)
  {
    if Authenticated(db, actor) then Step(db, Fail(AlreadySignedIn))
    else if !RegisterFormOk(db, env, email, password, confirm) then Step(db, Fail(InvalidForm))
    // The view looks the email up again before inserting; the form's
    // validate_email has already refused a held email, so this never fires.
    else if UserByEmail(db, email).Some? then Step(db, Fail(EmailTaken))
    else
      var id := db.nextUser;
      var user := User(email, env.hash(password, salt));
      Step(db.(users := db.users[id := user], nextUser := id + 1), Ok(id))
  }

  /** A registration with an email some user already holds changes nothing. */
  lemma RegisterRefusesHeldEmail(db: Db, env: Env, actor: Option<nat>, email: string, password: string,
                                 confirm: string, salt: nat, holder: nat)
    requires Valid(db)
    requires holder in db.users && db.users[holder].email == email
    ensures var r := RegisterStep(db, env, actor, email, password, confirm, salt);
      r.response.Fail? && r.db == db
  {
    UserByEmailExact(db, email, holder);
  }

  /** After registering, logging in with the same email and password succeeds
      as the new user. */
  lemma RegisterThenLogin(db: Db, env: Env, email: string, password: string, confirm: string, salt: nat)
    requires Valid(db) && env.Sound()
    requires RegisterStep(db, env, None, email, password, confirm, salt).response.Ok?
    ensures var r := RegisterStep(db, env, None, email, password, confirm, salt);
      Login(r.db, env, None, email, password) == Ok(r.response.value)
  {
    var r := RegisterStep(db, env, None, email, password, confirm, salt);
    LoginRule(r.db, env, email, password, r.response.value);
  }

  /** create_shop: the new shop's owner is the actor. */
  function CreateShopStep(db: Db, actor: Option<nat>, name: string, description: string): (r: Step)
    requires Valid(db)
    ensures r.response.Fail? ==> r.db == db
    ensures !Authenticated(db, actor) ==> r.response == Fail(LoginRequired)
    ensures r.response.Ok? <==> Authenticated(db, actor) && ShopFormOk(db, name, description, None)
    ensures r.response.Ok? ==>
      var id := r.response.value;
      && id !in db.shops && r.db.shops == db.shops[id := Shop(name, actor.value)]
      && r.db.users == db.users && r.db.products == db.products && r.db.comments == db.comments
  {
    if !Authenticated(db, actor) then Step(db, Fail(LoginRequired))
    else if !ShopFormOk(db, name, description, None) then Step(db, Fail(InvalidForm))
    else
      var id := db.nextShop;
      Step(db.(shops := db.shops[id := Shop(name, actor.value)], nextShop := id + 1), Ok(id))
  }

  /** A new shop shows up on its creator's account page, beside the shops
      they already had. */
  lemma CreateShopThenAccount(db: Db, actor: Option<nat>, name: string, description: string)
    requires Valid(db)
    requires CreateShopStep(db, actor, name, description).response.Ok?
    ensures var r := CreateShopStep(db, actor, name, description);
      Account(r.db, actor) == Ok(Account(db, actor).value + {r.response.value})
  {
    var r := CreateShopStep(db, actor, name, description);
    var before := Account(db, actor).value;
    var after := Account(r.db, actor).value;
    assert after == before + {r.response.value};
  }

  /** The stored image name: secure_filename of the upload, or none. */
  function StoredImage(env: Env, filename: string): Option<string> {
    if filename == "" then None else Some(env.secureName(filename))
  }

  /** add_product with the upload working as intended: the ownership check of
      manage_shop, then the product form, then one new product. */
  function AddProductStep(db: Db, env: Env, actor: Option<nat>, shopId: nat, title: string,
                          description: string, price: Option<real>, filename: string): (r: Step)
    requires Valid(db)
    ensures r.response.Fail? ==> r.db == db
    ensures ManageShop(db, actor, shopId).Fail? ==> r.response == Fail(ManageShop(db, actor, shopId).failure)
    ensures r.response.Ok? <==> ManageShop(db, actor, shopId).Ok? && ProductFormOk(title, description, price, filename)
    ensures r.response.Ok? ==>
      var id := r.response.value;
      && id !in db.products
      && r.db.products == db.products[id := Product(title, description, price.value, StoredImage(env, filename), shopId)]
      && r.db.users == db.users && r.db.shops == db.shops && r.db.comments == db.comments
  {
    match ManageShop(db, actor, shopId)
    case Fail(f) => Step(db, Fail(f))
    case Ok(_) =>
      if !ProductFormOk(title, description, price, filename) then Step(db, Fail(InvalidForm))
      else
        var id := db.nextProduct;
        var product := Product(title, description, price.value, StoredImage(env, filename), shopId);
        Step(db.(products := db.products[id := product], nextProduct := id + 1), Ok(id))
  }

  /** add_product as written: saving an upload refers to `current_app`, which
      views.py never imports, so any submission with a file raises NameError,
      is rolled back, and adds nothing. */
  function AddProductAsWritten(db: Db, env: Env, actor: Option<nat>, shopId: nat, title: string,
                               description: string, price: Option<real>, filename: string): (r: Step)
    requires Valid(db)
    ensures r.response.Fail? ==> r.db == db
    ensures filename != "" ==> r.response.Fail?
  {
    match ManageShop(db, actor, shopId)
    case Fail(f) => Step(db, Fail(f))
    case Ok(_) =>
      if !ProductFormOk(title, description, price, filename) then Step(db, Fail(InvalidForm))
      else if filename != "" then Step(db, Fail(UploadFailed))
      else AddProductStep(db, env, actor, shopId, title, description, price, filename)
  }

  /** The finding: an owner's valid submission with an image is refused as
      written, while the intended view stores the product with its image. */
  lemma UploadRefusedAsWritten(db: Db, env: Env, owner: nat, shopId: nat, title: string,
                               description: string, price: Option<real>, filename: string)
    requires Valid(db) && owner in db.users && shopId in db.shops && db.shops[shopId].userId == owner
    requires ProductFormOk(title, description, price, filename) && filename != ""
    ensures AddProductAsWritten(db, env, Some(owner), shopId, title, description, price, filename) ==
            Step(db, Fail(UploadFailed))
    ensures var r := AddProductStep(db, env, Some(owner), shopId, title, description, price, filename);
      r.response.Ok? && r.db.products[r.response.value].image == Some(env.secureName(filename))
  {
  }

  /** Without a file the view as written and the intended one agree. */
  lemma AsWrittenAgreesWithoutUpload(db: Db, env: Env, actor: Option<nat>, shopId: nat, title: string,
                                     description: string, price: Option<real>)
    requires Valid(db)
    ensures AddProductAsWritten(db, env, actor, shopId, title, description, price, "") ==
            AddProductStep(db, env, actor, shopId, title, description, price, "")
  {
  }

  /** product (POST): a missing product is 404; a valid comment from an
      authenticated actor is stored with that actor as author and that
      product as its product; an anonymous actor adds nothing. */
  function PostCommentStep(db: Db, actor: Option<nat>, productId: nat, text: string, now: int): (r: Step)
    requires Valid(db)
    ensures r.response.Fail? ==> r.db == db
    ensures productId !in db.products ==> r.response == Fail(NotFound)
    ensures r.response.Ok? <==> productId in db.products && CommentFormOk(text) && Authenticated(db, actor)
    ensures r.response.Ok? ==>
      var id := r.response.value;
      && id !in db.comments
      && r.db.comments == db.comments[id := Comment(text, now, actor.value, productId)]
      && r.db.users == db.users && r.db.shops == db.shops && r.db.products == db.products
  {
    if productId !in db.products then Step(db, Fail(NotFound))
    else if !CommentFormOk(text) then Step(db, Fail(InvalidForm))
    else if !Authenticated(db, actor) then Step(db, Fail(LoginRequired))
    else
      var id := db.nextComment;
      Step(db.(comments := db.comments[id := Comment(text, now, actor.value, productId)], nextComment := id + 1),
           Ok(id))
  }

  /** The owner of a product: the owner of its shop. */
  function ProductOwner(db: Db, productId: nat): nat
    requires Valid(db) && productId in db.products
  {
    db.shops[db.products[productId].shopId].userId
  }

  /** delete_product: login required, then 404, then 403 unless the actor
      owns the product's shop; the owner's request removes the product and
      every comment on it, and nothing else. */
  function DeleteProductStep(db: Db, actor: Option<nat>, productId: nat): (r: Step)
    requires Valid(db)
    ensures r.response.Fail? ==> r.db == db
    ensures !Authenticated(db, actor) ==> r.response == Fail(LoginRequired)
    ensures Authenticated(db, actor) && productId !in db.products ==> r.response == Fail(NotFound)
    ensures Authenticated(db, actor) && productId in db.products && ProductOwner(db, productId) != actor.value ==>
              r.response == Fail(Forbidden)
    ensures r.response.Ok? <==>
      Authenticated(db, actor) && productId in db.products && ProductOwner(db, productId) == actor.value
    ensures r.response.Ok? ==>
      && r.response.value == db.products[productId].shopId
      && r.db.products == db.products - {productId}
      && (forall c :: c in r.db.comments <==> c in db.comments && db.comments[c].productId != productId)
      && (forall c :: c in r.db.comments ==> r.db.comments[c] == db.comments[c])
      && r.db.users == db.users && r.db.shops == db.shops
  {
    if !Authenticated(db, actor) then Step(db, Fail(LoginRequired))
    else if productId !in db.products then Step(db, Fail(NotFound))
    // As in ManageShop, comparing ids is comparing get_id() strings (Models.GetIdInjective).
    else if ProductOwner(db, productId) != actor.value then Step(db, Fail(Forbidden))
    else Step(RemoveProduct(db, productId), Ok(db.products[productId].shopId))
  }

  /** The cascade of delete_product: the bulk delete of the product's comments,
      then the delete of the product row. */
  function RemoveProduct(db: Db, productId: nat): (r: Db)
    ensures r.products == db.products - {productId}
    ensures forall c :: c in r.comments <==> c in db.comments && db.comments[c].productId != productId
    ensures forall c :: c in r.comments ==> r.comments[c] == db.comments[c]
    ensures r == db.(products := r.products, comments := r.comments)
  {
    var kept := map c | c in db.comments && db.comments[c].productId != productId :: db.comments[c];
    db.(products := db.products - {productId}, comments := kept)
  }

  /** The cascade leaves no comment pointing at the removed product, so every
      reference still resolves. */
  lemma RemoveProductValid(db: Db, productId: nat)
    requires Valid(db)
    ensures Valid(RemoveProduct(db, productId))
  {
    RemoveProductReferences(db, productId);
  }

  lemma RemoveProductReferences(db: Db, productId: nat)
    requires References(db)
    ensures References(RemoveProduct(db, productId))
  {
    var r := RemoveProduct(db, productId);
    forall c | c in r.comments
      ensures r.comments[c].productId in r.products
    {
      assert db.comments[c].productId != productId;
    }
  }

  /** A product an owner adds cannot be deleted by another user: the request
      is refused with 403 and the product is still there. */
  lemma OthersCannotDeleteNewProduct(db: Db, env: Env, owner: nat, other: nat, shopId: nat, title: string,
                                     description: string, price: Option<real>, filename: string)
    requires Valid(db)
    requires AddProductStep(db, env, Some(owner), shopId, title, description, price, filename).response.Ok?
    requires other in db.users && other != owner
    ensures (AddProductKeepsValid(db, env, Some(owner), shopId, title, description, price, filename);
      var a := AddProductStep(db, env, Some(owner), shopId, title, description, price, filename);
      var d := DeleteProductStep(a.db, Some(other), a.response.value);
      d == Step(a.db, Fail(Forbidden)) && a.response.value in d.db.products)
  {
  }

  /** A comment posted on a product does not survive the product's deletion. */
  lemma CommentGoneAfterDelete(db: Db, author: Option<nat>, productId: nat, text: string, now: int,
                               owner: Option<nat>)
    requires Valid(db)
    requires PostCommentStep(db, author, productId, text, now).response.Ok?
    ensures (PostCommentKeepsValid(db, author, productId, text, now);
      var c := PostCommentStep(db, author, productId, text, now);
      var d := DeleteProductStep(c.db, owner, productId);
      d.response.Ok? ==> c.response.value !in d.db.comments && productId !in d.db.products)
  {
  }

  /** edit_account: the actor's email becomes the submitted one. views.py
      uses EditProfileForm without importing it; this is the body as it reads
      with the import in place. */
  function EditAccountStep(db: Db, env: Env, actor: Option<nat>, email: string): (r: Step)
    requires Valid(db)
    ensures r.response.Fail? ==> r.db == db
    ensures !Authenticated(db, actor) ==> r.response == Fail(LoginRequired)
    ensures r.response.Ok? <==> Authenticated(db, actor) && EditProfileFormOk(db, env, email)
    ensures r.response.Ok? ==>
      && r.response.value == actor.value
      && r.db.users == db.users[actor.value := db.users[actor.value].(email := email)]
      && SameExceptUsers(r.db, db)
  {
    if !Authenticated(db, actor) then Step(db, Fail(LoginRequired))
    else if !EditProfileFormOk(db, env, email) then Step(db, Fail(InvalidForm))
    else
      var id := actor.value;
      Step(db.(users := db.users[id := db.users[id].(email := email)]), Ok(id))
  }

  /** change_password: the stored hash is replaced only when the old password
      checks against it. views.py uses ChangePasswordForm without importing
      it; this is the body as it reads with the import in place. */
  function ChangePasswordStep(db: Db, env: Env, actor: Option<nat>, oldPassword: string, newPassword: string,
                              confirm: string, salt: nat): (r: Step)
    requires Valid(db)
    ensures r.response.Fail? ==> r.db == db
    ensures !Authenticated(db, actor) ==> r.response == Fail(LoginRequired)
    ensures r.response.Ok? <==>
      && Authenticated(db, actor) && ChangePasswordFormOk(oldPassword, newPassword, confirm)
      && CheckPassword(env, db.users[actor.value], oldPassword)
    ensures Authenticated(db, actor) && ChangePasswordFormOk(oldPassword, newPassword, confirm) &&
            !CheckPassword(env, db.users[actor.value], oldPassword) ==>
              r == Step(db, Fail(WrongPassword))
    ensures r.response.Ok? ==>
      var id := actor.value;
      && r.response.value == id
      && r.db.users.Keys == db.users.Keys
      && (forall u :: u in db.users && u != id ==> r.db.users[u] == db.users[u])
      && r.db.users[id].email == db.users[id].email
      && (env.Sound() ==> CheckPassword(env, r.db.users[id], newPassword) &&
                          r.db.users[id].passwordHash != newPassword)
      && SameExceptUsers(r.db, db)
  {
    if !Authenticated(db, actor) then Step(db, Fail(LoginRequired))
    else if !ChangePasswordFormOk(oldPassword, newPassword, confirm) then Step(db, Fail(InvalidForm))
    else
      var id := actor.value;
      if CheckPassword(env, db.users[id], oldPassword) then
        Step(db.(users := db.users[id := SetPassword(env, db.users[id], newPassword, salt)]), Ok(id))
      else Step(db, Fail(WrongPassword))
  }

  /** After a password change, logging in with the new password succeeds. */
  lemma ChangePasswordThenLogin(db: Db, env: Env, actor: Option<nat>, oldPassword: string,
                                newPassword: string, confirm: string, salt: nat)
    requires Valid(db) && env.Sound()
    requires ChangePasswordStep(db, env, actor, oldPassword, newPassword, confirm, salt).response.Ok?
    requires HasText(db.users[actor.value].email) && env.isEmail(db.users[actor.value].email)
    ensures var r := ChangePasswordStep(db, env, actor, oldPassword, newPassword, confirm, salt);
      Login(r.db, env, None, db.users[actor.value].email, newPassword) == Ok(actor.value)
  {
    var r := ChangePasswordStep(db, env, actor, oldPassword, newPassword, confirm, salt);
    LoginRule(r.db, env, db.users[actor.value].email, newPassword, actor.value);
  }

  // ---- Every view that writes keeps the store consistent: emails and shop
  // ---- names unique, every reference resolving, every row within bounds.

  lemma RegisterKeepsValid(db: Db, env: Env, actor: Option<nat>, email: string, password: string,
                           confirm: string, salt: nat)
    requires Valid(db)
    ensures Valid(RegisterStep(db, env, actor, email, password, confirm, salt).db)
  {
    if RegisterStep(db, env, actor, email, password, confirm, salt).response.Ok? {
      UserByEmailExact(db, email, 0);
      InsertUserValid(db, User(email, env.hash(password, salt)));
    }
  }

  lemma CreateShopKeepsValid(db: Db, actor: Option<nat>, name: string, description: string)
    requires Valid(db)
    ensures Valid(CreateShopStep(db, actor, name, description).db)
  {
    if CreateShopStep(db, actor, name, description).response.Ok? {
      ShopByNameExact(db, name, 0);
      InsertShopValid(db, Shop(name, actor.value));
    }
  }

  lemma AddProductKeepsValid(db: Db, env: Env, actor: Option<nat>, shopId: nat, title: string,
                             description: string, price: Option<real>, filename: string)
    requires Valid(db)
    ensures Valid(AddProductStep(db, env, actor, shopId, title, description, price, filename).db)
  {
    if AddProductStep(db, env, actor, shopId, title, description, price, filename).response.Ok? {
      ProductFormGivesValidRow(title, description, price, filename, StoredImage(env, filename), shopId);
      InsertProductValid(db, Product(title, description, price.value, StoredImage(env, filename), shopId));
    }
  }

  lemma PostCommentKeepsValid(db: Db, actor: Option<nat>, productId: nat, text: string, now: int)
    requires Valid(db)
    ensures Valid(PostCommentStep(db, actor, productId, text, now).db)
  {
    if PostCommentStep(db, actor, productId, text, now).response.Ok? {
      InsertCommentValid(db, Comment(text, now, actor.value, productId));
    }
  }

  lemma DeleteProductKeepsValid(db: Db, actor: Option<nat>, productId: nat)
    requires Valid(db)
    ensures Valid(DeleteProductStep(db, actor, productId).db)
  {
    if DeleteProductStep(db, actor, productId).response.Ok? {
      RemoveProductValid(db, productId);
    }
  }

  lemma EditAccountKeepsValid(db: Db, env: Env, actor: Option<nat>, email: string)
    requires Valid(db)
    ensures Valid(EditAccountStep(db, env, actor, email).db)
  {
    if EditAccountStep(db, env, actor, email).response.Ok? {
      UserByEmailExact(db, email, 0);
      UpdateUserValid(db, actor.value, db.users[actor.value].(email := email));
    }
  }

  lemma ChangePasswordKeepsValid(db: Db, env: Env, actor: Option<nat>, oldPassword: string,
                                 newPassword: string, confirm: string, salt: nat)
    requires Valid(db)
    ensures Valid(ChangePasswordStep(db, env, actor, oldPassword, newPassword, confirm, salt).db)
  {
    if ChangePasswordStep(db, env, actor, oldPassword, newPassword, confirm, salt).response.Ok? {
      var id := actor.value;
      UpdateUserValid(db, id, SetPassword(env, db.users[id], newPassword, salt));
    }
  }
}

/** The database session the views write through: four tables held in
    fields and updated in place, one method per view that writes. Each method
    follows its view's body step by step and is specified by the step
    function of the same name in Views, whose properties are proved there. */
module Routes {

  import opened Results
  import opened Models
  import opened Forms
  import opened Views

  class Store {
    var users: map<nat, User>
    var shops: map<nat, Shop>
    var products: map<nat, Product>
    var comments: map<nat, Comment>
    var nextUser: nat
    var nextShop: nat
    var nextProduct: nat
    var nextComment: nat

    /** The tables as a value. */
    function Snapshot(): Db
      reads this
    {
      Db(users, shops, products, comments, nextUser, nextShop, nextProduct, nextComment)
    }

    ghost predicate Valid()
      reads this
    {
      Models.Valid(Snapshot())
    }

    /** db.create_all() on an empty database. */
    constructor ()
      ensures Valid() && Snapshot() == EmptyDb
    {
      users, shops, products, comments := map[], map[], map[], map[];
      nextUser, nextShop, nextProduct, nextComment := 1, 1, 1, 1;
      new;
      EmptyDbValid();
    }

    /** register (POST) */
    method Register(env: Env, actor: Option<nat>, email: string, password: string, confirm: string, salt: nat)
      returns (r: Response<nat>)
      requires Valid()
      modifies this
      ensures Valid()
      ensures Step(Snapshot(), r) == RegisterStep(old(Snapshot()), env, actor, email, password, confirm, salt)
    {
      ghost var after := RegisterStep(Snapshot(), env, actor, email, password, confirm, salt);
      if Authenticated(Snapshot(), actor) {
        return Fail(AlreadySignedIn);
      }
      if !RegisterFormOk(Snapshot(), env, email, password, confirm) {
        return Fail(InvalidForm);
      }
      if UserByEmail(Snapshot(), email).Some? {
        return Fail(EmailTaken);
      }
      var hashed := env.hash(password, salt);
      var id := nextUser;
      users := users[id := User(email, hashed)];
      nextUser := nextUser + 1;
      r := Ok(id);
      assert Snapshot() == after.db;
      RegisterKeepsValid(old(Snapshot()), env, actor, email, password, confirm, salt);
    }

    /** create_shop (POST): the owner is the acting user. */
    method CreateShop(actor: Option<nat>, name: string, description: string) returns (r: Response<nat>)
      requires Valid()
      modifies this
      ensures Valid()
      ensures Step(Snapshot(), r) == CreateShopStep(old(Snapshot()), actor, name, description)
    {
      ghost var after := CreateShopStep(Snapshot(), actor, name, description);
      if !Authenticated(Snapshot(), actor) {
        return Fail(LoginRequired);
      }
      if !ShopFormOk(Snapshot(), name, description, None) {
        return Fail(InvalidForm);
      }
      var id := nextShop;
      shops := shops[id := Shop(name, actor.value)];
      nextShop := nextShop + 1;
      r := Ok(id);
      assert Snapshot() == after.db;
      CreateShopKeepsValid(old(Snapshot()), actor, name, description);
    }

    /** add_product (POST), with the upload saved as intended. */
    method AddProduct(env: Env, actor: Option<nat>, shopId: nat, title: string, description: string,
                      price: Option<real>, filename: string)
      returns (r: Response<nat>)
      requires Valid()
      modifies this
      ensures Valid()
      ensures Step(Snapshot(), r) ==
              AddProductStep(old(Snapshot()), env, actor, shopId, title, description, price, filename)
    {
      ghost var after := AddProductStep(Snapshot(), env, actor, shopId, title, description, price, filename);
      var access := ManageShop(Snapshot(), actor, shopId);
      if access.Fail? {
        return Fail(access.failure);
      }
      if !ProductFormOk(title, description, price, filename) {
        return Fail(InvalidForm);
      }
      var image: Option<string> := None;
      if filename != "" {
        image := Some(env.secureName(filename));
      }
      var id := nextProduct;
      products := products[id := Product(title, description, price.value, image, shopId)];
      nextProduct := nextProduct + 1;
      r := Ok(id);
      assert Snapshot() == after.db;
      AddProductKeepsValid(old(Snapshot()), env, actor, shopId, title, description, price, filename);
    }

    /** product (POST): add a comment. */
    method PostComment(actor: Option<nat>, productId: nat, text: string, now: int) returns (r: Response<nat>)
      requires Valid()
      modifies this
      ensures Valid()
      ensures Step(Snapshot(), r) == PostCommentStep(old(Snapshot()), actor, productId, text, now)
    {
      ghost var after := PostCommentStep(Snapshot(), actor, productId, text, now);
      if productId !in products {
        return Fail(NotFound);
      }
      if !CommentFormOk(text) {
        return Fail(InvalidForm);
      }
      if !Authenticated(Snapshot(), actor) {
        return Fail(LoginRequired);
      }
      var id := nextComment;
      comments := comments[id := Comment(text, now, actor.value, productId)];
      nextComment := nextComment + 1;
      r := Ok(id);
      assert Snapshot() == after.db;
      PostCommentKeepsValid(old(Snapshot()), actor, productId, text, now);
    }

    /** delete_product (POST): the comments go first, then the product. */
    method DeleteProduct(actor: Option<nat>, productId: nat) returns (r: Response<nat>)
      requires Valid()
      modifies this
      ensures Valid()
      ensures Step(Snapshot(), r) == DeleteProductStep(old(Snapshot()), actor, productId)
    {
      ghost var after := DeleteProductStep(Snapshot(), actor, productId);
      if !Authenticated(Snapshot(), actor) {
        return Fail(LoginRequired);
      }
      if productId !in products {
        return Fail(NotFound);
      }
      var shopId := products[productId].shopId;
      if shops[shopId].userId != actor.value {
        return Fail(Forbidden);
      }
      comments := map c | c in comments && comments[c].productId != productId :: comments[c];
      products := products - {productId};
      r := Ok(shopId);
      assert Snapshot() == after.db;
      DeleteProductKeepsValid(old(Snapshot()), actor, productId);
    }

    /** edit_account (POST): the actor's email is assigned in place. */
    method EditAccount(env: Env, actor: Option<nat>, email: string) returns (r: Response<nat>)
      requires Valid()
      modifies this
      ensures Valid()
      ensures Step(Snapshot(), r) == EditAccountStep(old(Snapshot()), env, actor, email)
    {
      ghost var after := EditAccountStep(Snapshot(), env, actor, email);
      if !Authenticated(Snapshot(), actor) {
        return Fail(LoginRequired);
      }
      if !EditProfileFormOk(Snapshot(), env, email) {
        return Fail(InvalidForm);
      }
      var id := actor.value;
      users := users[id := users[id].(email := email)];
      r := Ok(id);
      assert Snapshot() == after.db;
      EditAccountKeepsValid(old(Snapshot()), env, actor, email);
    }

    /** change_password (POST): the hash is replaced only after the old
        password checks. */
    method ChangePassword(env: Env, actor: Option<nat>, oldPassword: string, newPassword: string,
                          confirm: string, salt: nat)
      returns (r: Response<nat>)
      requires Valid()
      modifies this
      ensures Valid()
      ensures Step(Snapshot(), r) ==
              ChangePasswordStep(old(Snapshot()), env, actor, oldPassword, newPassword, confirm, salt)
    {
      ghost var after := ChangePasswordStep(Snapshot(), env, actor, oldPassword, newPassword, confirm, salt);
      if !Authenticated(Snapshot(), actor) {
        return Fail(LoginRequired);
      }
      if !ChangePasswordFormOk(oldPassword, newPassword, confirm) {
        return Fail(InvalidForm);
      }
      var id := actor.value;
      if !CheckPassword(env, users[id], oldPassword) {
        return Fail(WrongPassword);
      }
      users := users[id := users[id].(passwordHash := env.hash(newPassword, salt))];
      r := Ok(id);
      assert Snapshot() == after.db;
      ChangePasswordKeepsValid(old(Snapshot()), env, actor, oldPassword, newPassword, confirm, salt);
    }
  }
}

/** The four tables of the marketplace (User, Shop, Product, Comment) as
    records keyed by integer id, the consistency the schema and the forms keep
    between them, and the User helpers used by Flask-Login and by the views. */
module Models {

  import opened Results
  import opened Text

  /** A registered account. The id is the key under which the row is stored. */
  datatype User = User(email: string, passwordHash: string)

  /** A shop, owned by the user whose id is `userId`. */
  datatype Shop = Shop(name: string, userId: nat)

  /** A product of the shop `shopId`; `image` is the stored file name, if any. */
  datatype Product = Product(title: string, description: string, price: real,
                             image: Option<string>, shopId: nat)

  /** A comment by `userId` on `productId`, stamped with the insert time. */
  datatype Comment = Comment(text: string, createdAt: int, userId: nat, productId: nat)

  /** The database: one table per model, each mapping ids to rows, and for each
      table the id the next insert receives. */
  datatype Db = Db(users: map<nat, User>, shops: map<nat, Shop>,
                   products: map<nat, Product>, comments: map<nat, Comment>,
                   nextUser: nat, nextShop: nat, nextProduct: nat, nextComment: nat)

  /** The freshly created database: four empty tables, ids starting at 1. */
  const EmptyDb := Db(map[], map[], map[], map[], 1, 1, 1, 1)

  /** The library calls the core depends on but does not define: bcrypt's
      generate_password_hash (with the random salt made a parameter) and
      check_password_hash, WTForms' Email() format check, and werkzeug's
      secure_filename. */
  datatype Env = Env(hash: (string, nat) -> string, check: (string, string) -> bool,
                     isEmail: string -> bool, secureName: string -> string)
  {
    /** What the model assumes of bcrypt: a password checks against its own
        hash, and the hash is never the password itself. */
    ghost predicate Sound() {
      forall p, salt :: check(hash(p, salt), p) && hash(p, salt) != p
    }
  }

  // ---- Row constraints (column types and lengths of models.py, and the
  // ---- bounds every insert path enforces through its form)

  const MaxEmail := 100
  const MaxName := 100
  const MinName := 3
  const MaxTitle := 100
  const MinTitle := 3
  const MinDescription := 10
  const MaxDescription := 2000
  const MinPrice: real := 0.01
  const MinComment := 10
  const MaxComment := 500

  predicate UserRowOk(u: User) {
    |u.email| <= MaxEmail
  }

  predicate ShopRowOk(s: Shop) {
    MinName <= |s.name| <= MaxName
  }

  predicate ProductRowOk(p: Product) {
    && MinTitle <= |p.title| <= MaxTitle
    && MinDescription <= |p.description| <= MaxDescription
    && p.price >= MinPrice
  }

  predicate CommentRowOk(c: Comment) {
    MinComment <= |c.text| <= MaxComment
  }

  // ---- Whole-database invariants

  /** Every id in use is below its table's counter, so the counter is fresh. */
  ghost predicate IdsFresh(db: Db) {
    && (forall id :: id in db.users ==> id < db.nextUser)
    && (forall id :: id in db.shops ==> id < db.nextShop)
    && (forall id :: id in db.products ==> id < db.nextProduct)
    && (forall id :: id in db.comments ==> id < db.nextComment)
  }

  /** `User.email` is unique. */
  ghost predicate UniqueEmails(users: map<nat, User>) {
    forall a, b :: a in users && b in users && users[a].email == users[b].email ==> a == b
  }

  /** `Shop.name` is unique. */
  ghost predicate UniqueShopNames(shops: map<nat, Shop>) {
    forall a, b :: a in shops && b in shops && shops[a].name == shops[b].name ==> a == b
  }

  /** Every foreign key resolves: shop owners, product shops, comment authors
      and comment products. */
  ghost predicate References(db: Db) {
    && (forall s :: s in db.shops ==> db.shops[s].userId in db.users)
    && (forall p :: p in db.products ==> db.products[p].shopId in db.shops)
    && (forall c :: c in db.comments ==> db.comments[c].userId in db.users)
    && (forall c :: c in db.comments ==> db.comments[c].productId in db.products)
  }

  ghost predicate RowsOk(db: Db) {
    && (forall u :: u in db.users ==> UserRowOk(db.users[u]))
    && (forall s :: s in db.shops ==> ShopRowOk(db.shops[s]))
    && (forall p :: p in db.products ==> ProductRowOk(db.products[p]))
    && (forall c :: c in db.comments ==> CommentRowOk(db.comments[c]))
  }

  ghost predicate Valid(db: Db) {
    IdsFresh(db) && UniqueEmails(db.users) && UniqueShopNames(db.shops) &&
    References(db) && RowsOk(db)
  }

  lemma EmptyDbValid()
    ensures Valid(EmptyDb)
  {
  }

  // ---- Inserts that keep the invariants (db.session.add of a new row)

  lemma InsertUserValid(db: Db, u: User)
    requires Valid(db) && UserRowOk(u)
    requires forall id :: id in db.users ==> db.users[id].email != u.email
    ensures Valid(db.(users := db.users[db.nextUser := u], nextUser := db.nextUser + 1))
  {
    InsertUserUnique(db.users, db.nextUser, u);
    InsertUserReferences(db, u);
  }

  lemma InsertUserUnique(users: map<nat, User>, id: nat, u: User)
    requires UniqueEmails(users) && id !in users
    requires forall k :: k in users ==> users[k].email != u.email
    ensures UniqueEmails(users[id := u])
  {
  }

  lemma InsertUserReferences(db: Db, u: User)
    requires References(db)
    ensures References(db.(users := db.users[db.nextUser := u], nextUser := db.nextUser + 1))
  {
  }

  lemma InsertShopValid(db: Db, s: Shop)
    requires Valid(db) && ShopRowOk(s) && s.userId in db.users
    requires forall id :: id in db.shops ==> db.shops[id].name != s.name
    ensures Valid(db.(shops := db.shops[db.nextShop := s], nextShop := db.nextShop + 1))
  {
    InsertShopUnique(db.shops, db.nextShop, s);
    InsertShopReferences(db, s);
  }

  lemma InsertShopUnique(shops: map<nat, Shop>, id: nat, s: Shop)
    requires UniqueShopNames(shops) && id !in shops
    requires forall k :: k in shops ==> shops[k].name != s.name
    ensures UniqueShopNames(shops[id := s])
  {
  }

  lemma InsertShopReferences(db: Db, s: Shop)
    requires References(db) && s.userId in db.users
    ensures References(db.(shops := db.shops[db.nextShop := s], nextShop := db.nextShop + 1))
  {
  }

  lemma InsertProductValid(db: Db, p: Product)
    requires Valid(db) && ProductRowOk(p) && p.shopId in db.shops
    ensures Valid(db.(products := db.products[db.nextProduct := p], nextProduct := db.nextProduct + 1))
  {
    InsertProductReferences(db, p);
  }

  lemma InsertProductReferences(db: Db, p: Product)
    requires References(db) && p.shopId in db.shops
    ensures References(db.(products := db.products[db.nextProduct := p], nextProduct := db.nextProduct + 1))
  {
  }

  lemma InsertCommentValid(db: Db, c: Comment)
    requires Valid(db) && CommentRowOk(c) && c.userId in db.users && c.productId in db.products
    ensures Valid(db.(comments := db.comments[db.nextComment := c], nextComment := db.nextComment + 1))
  {
    InsertCommentReferences(db, c);
  }

  lemma InsertCommentReferences(db: Db, c: Comment)
    requires References(db) && c.userId in db.users && c.productId in db.products
    ensures References(db.(comments := db.comments[db.nextComment := c], nextComment := db.nextComment + 1))
  {
  }

  // ---- Updates of a user row in place (current_user.email, current_user.password_hash)

  lemma UpdateUserValid(db: Db, id: nat, u: User)
    requires Valid(db) && id in db.users && UserRowOk(u)
    requires forall k :: k in db.users && k != id ==> db.users[k].email != u.email
    ensures Valid(db.(users := db.users[id := u]))
  {
    UpdateUserUnique(db.users, id, u);
    UpdateUserReferences(db, id, u);
  }

  lemma UpdateUserUnique(users: map<nat, User>, id: nat, u: User)
    requires UniqueEmails(users) && id in users
    requires forall k :: k in users && k != id ==> users[k].email != u.email
    ensures UniqueEmails(users[id := u])
  {
  }

  lemma UpdateUserReferences(db: Db, id: nat, u: User)
    requires References(db) && id in db.users
    ensures References(db.(users := db.users[id := u]))
  {
    assert db.users[id := u].Keys == db.users.Keys;
  }

  // ---- Queries: Model.query.filter_by(...).first()

  /** The lowest id below n whose row satisfies p: a table scan in id order
      that stops at the first match. */
  function FirstKey<V>(m: map<nat, V>, p: V -> bool, n: nat): (r: Option<nat>)
    ensures r.Some? ==> r.value < n && r.value in m && p(m[r.value])
    ensures r.Some? ==> forall j :: j < r.value && j in m ==> !p(m[j])
    ensures r.None? ==> forall j :: j < n && j in m ==> !p(m[j])
  {
    if n == 0 then None
    else
      match FirstKey(m, p, n - 1)
      case Some(k) => Some(k)
      case None => if n - 1 in m && p(m[n - 1]) then Some(n - 1) else None
  }

  /** User.query.filter_by(email=email).first() */
  function UserByEmail(db: Db, email: string): Option<nat> {
    FirstKey(db.users, (u: User) => u.email == email, db.nextUser)
  }

  /** Shop.query.filter_by(name=name).first() */
  function ShopByName(db: Db, name: string): Option<nat> {
    FirstKey(db.shops, (s: Shop) => s.name == name, db.nextShop)
  }

  /** On a valid database the email lookup finds exactly the user holding the
      email, and finds nothing when nobody holds it. */
  lemma UserByEmailExact(db: Db, email: string, id: nat)
    requires Valid(db)
    ensures UserByEmail(db, email) == Some(id) <==> id in db.users && db.users[id].email == email
    ensures UserByEmail(db, email).None? <==> forall u :: u in db.users ==> db.users[u].email != email
  {
    var r := UserByEmail(db, email);
    if id in db.users && db.users[id].email == email {
      assert id < db.nextUser;
      assert r.Some?;
    }
    if r.None? {
      forall u | u in db.users ensures db.users[u].email != email {
        assert u < db.nextUser;
      }
    }
  }

  /** On a valid database the name lookup finds exactly the shop with that
      name, and finds nothing when no shop has it. */
  lemma ShopByNameExact(db: Db, name: string, id: nat)
    requires Valid(db)
    ensures ShopByName(db, name) == Some(id) <==> id in db.shops && db.shops[id].name == name
    ensures ShopByName(db, name).None? <==> forall s :: s in db.shops ==> db.shops[s].name != name
  {
    var r := ShopByName(db, name);
    if id in db.shops && db.shops[id].name == name {
      assert id < db.nextShop;
      assert r.Some?;
    }
    if r.None? {
      forall s | s in db.shops ensures db.shops[s].name != name {
        assert s < db.nextShop;
      }
    }
  }

  // ---- User methods

  /** check_password: bcrypt's comparison against the stored hash. */
  predicate CheckPassword(env: Env, u: User, password: string) {
    env.check(u.passwordHash, password)
  }

  /** set_password: the stored hash becomes a fresh hash of the password. */
  function SetPassword(env: Env, u: User, password: string, salt: nat): (r: User)
    ensures r.email == u.email
    ensures env.Sound() ==> CheckPassword(env, r, password) && r.passwordHash != password
  {
    u.(passwordHash := env.hash(password, salt))
  }

  predicate IsDigit(c: char) {
    '0' <= c <= '9'
  }

  function DigitChar(d: nat): (c: char)
    requires d < 10
    ensures IsDigit(c) && c as int - '0' as int == d
  {
    ('0' as int + d) as char
  }

  /** get_id: str(self.id), the decimal digits of the id without leading zeros. */
  function GetId(id: nat): (s: string)
    ensures |s| > 0 && forall i :: 0 <= i < |s| ==> IsDigit(s[i])
    ensures s[0] == '0' ==> id == 0
    decreases id
  {
    if id < 10 then [DigitChar(id)] else GetId(id / 10) + [DigitChar(id % 10)]
  }

  function DigitsValue(s: string): nat
    requires forall i :: 0 <= i < |s| ==> IsDigit(s[i])
  {
    if s == [] then 0
    else
      assert IsDigit(s[|s| - 1]);
      DigitsValue(s[..|s| - 1]) * 10 + (s[|s| - 1] as int - '0' as int)
  }

  /** int(user_id) in the session's user loader, for the digit strings that
      get_id produces; anything else is refused. */
  function ParseId(s: string): Option<nat> {
    if s != [] && forall i :: 0 <= i < |s| ==> IsDigit(s[i]) then Some(DigitsValue(s)) else None
  }

  /** The session stores get_id() and the user loader reads it back with int():
      the round trip gives the same id. */
  lemma {:induction false} ParseGetId(id: nat)
    ensures ParseId(GetId(id)) == Some(id)
    decreases id
  {
    var s := GetId(id);
    if id < 10 {
      assert s[..|s| - 1] == [];
    } else {
      ParseGetId(id / 10);
      assert s[..|s| - 1] == GetId(id / 10);
      assert s[|s| - 1] == DigitChar(id % 10);
    }
    assert DigitsValue(s) == id;
  }

  /** Two users never share a session string. */
  lemma GetIdInjective(a: nat, b: nat)
    ensures GetId(a) == GetId(b) ==> a == b
  {
    ParseGetId(a);
    ParseGetId(b);
  }

  /** UserMixin's flags, as User overrides them: a loaded user is always
      active and authenticated, and never anonymous. */
  function IsActive(u: User): (r: bool)
    ensures r
  {
    true
  }

  function IsAuthenticated(u: User): (r: bool)
    ensures r
  {
    true
  }

  function IsAnonymous(u: User): (r: bool)
    ensures !r
  {
    false
  }
}

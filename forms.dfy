/** The validator lists of the marketplace's forms. A form is accepted when
    every validator of every field passes; the inline validators
    `validate_email` (BaseForm) and `validate_name` (ShopForm) read the store. */
module Forms {

  import opened Results
  import opened Text
  import opened Models

  // ---- WTForms validators

  /** DataRequired() on a text field: data that is not empty once stripped. */
  predicate DataRequired(s: string) {
    HasText(s)
  }

  /** Length(min, max) on a text field; -1 leaves a side unbounded. */
  predicate Length(s: string, min: int, max: int) {
    min <= |s| && (max == -1 || |s| <= max)
  }

  // ---- Inline validators over the store

  /** BaseForm.validate_email: refused when any user already holds the email. */
  predicate EmailAvailable(db: Db, email: string) {
    UserByEmail(db, email).None?
  }

  /** ShopForm.validate_name: refused when a shop already has the name, unless
      the form carries a `shop` (`editing`) with that same id. No view in the
      application sets `shop` on the form, so creation passes None. */
  predicate NameAvailable(db: Db, name: string, editing: Option<nat>) {
    match ShopByName(db, name)
    case None => true
    case Some(s) => editing == Some(s)
  }

  // ---- LoginForm

  predicate LoginFormOk(env: Env, email: string, password: string) {
    DataRequired(email) && env.isEmail(email) && DataRequired(password)
  }

  // ---- RegisterForm and EditProfileForm

  /** The email field shared by RegisterForm and EditProfileForm. */
  predicate EmailFieldOk(env: Env, email: string) {
    DataRequired(email) && env.isEmail(email) && Length(email, -1, MaxEmail)
  }

  const MinPassword := 8

  predicate NewPasswordOk(password: string) {
    DataRequired(password) && Length(password, MinPassword, -1)
  }

  /** EqualTo(other) on a confirmation field that is also DataRequired. */
  predicate ConfirmOk(confirm: string, password: string) {
    DataRequired(confirm) && confirm == password
  }

  predicate RegisterFormOk(db: Db, env: Env, email: string, password: string, confirm: string) {
    EmailFieldOk(env, email) && EmailAvailable(db, email) &&
    NewPasswordOk(password) && ConfirmOk(confirm, password)
  }

  /** On a valid store, registration is accepted exactly when the email is
      well formed, at most 100 characters and held by nobody, the password has
      at least 8 characters and is not blank, and the confirmation equals it. */
  lemma RegisterFormRules(db: Db, env: Env, email: string, password: string, confirm: string)
    requires Valid(db)
    ensures RegisterFormOk(db, env, email, password, confirm) <==>
      && HasText(email) && env.isEmail(email) && |email| <= 100
      && (forall u :: u in db.users ==> db.users[u].email != email)
      && HasText(password) && |password| >= 8
      && confirm == password
  {
    UserByEmailExact(db, email, 0);
  }

  predicate EditProfileFormOk(db: Db, env: Env, email: string) {
    EmailFieldOk(env, email) && EmailAvailable(db, email)
  }

  /** validate_email runs for EditProfileForm too, and it does not exempt the
      editing user: submitting one's own current email is refused like any
      other held email. */
  lemma EditProfileRefusesHeldEmail(db: Db, env: Env, email: string, holder: nat)
    requires Valid(db)
    requires holder in db.users && db.users[holder].email == email
    ensures !EditProfileFormOk(db, env, email)
  {
    UserByEmailExact(db, email, holder);
  }

  // ---- ChangePasswordForm

  predicate ChangePasswordFormOk(oldPassword: string, newPassword: string, confirm: string) {
    DataRequired(oldPassword) && NewPasswordOk(newPassword) && ConfirmOk(confirm, newPassword)
  }

  /** A password change is accepted exactly when the old password is not
      blank, the new one has at least 8 characters and is not blank, and the
      confirmation equals it. */
  lemma ChangePasswordFormRules(oldPassword: string, newPassword: string, confirm: string)
    ensures ChangePasswordFormOk(oldPassword, newPassword, confirm) <==>
      && HasText(oldPassword)
      && HasText(newPassword) && |newPassword| >= 8
      && confirm == newPassword
  {
  }

  // ---- ShopForm

  const MaxShopDescription := 500

  /** ShopForm: the name field (with validate_name) and the optional
      description, which is checked although no column stores it. */
  predicate ShopFormOk(db: Db, name: string, description: string, editing: Option<nat>) {
    DataRequired(name) && Length(name, MinName, MaxName) && NameAvailable(db, name, editing) &&
    Length(description, -1, MaxShopDescription)
  }

  /** On a valid store, a shop name is accepted exactly when it is not blank,
      has 3 to 100 characters, and every shop already holding it is the one
      the form edits. */
  lemma ShopFormRules(db: Db, name: string, description: string, editing: Option<nat>)
    requires Valid(db)
    ensures ShopFormOk(db, name, description, editing) <==>
      && HasText(name) && 3 <= |name| <= 100 && |description| <= 500
      && (forall s :: s in db.shops && db.shops[s].name == name ==> editing == Some(s))
  {
    match ShopByName(db, name)
    case None =>
      ShopByNameExact(db, name, 0);
    case Some(s) =>
      ShopByNameExact(db, name, s);
  }

  // ---- ProductForm

  /** DataRequired() and NumberRange(min=0.01) on the FloatField price; a value
      that did not parse is None, and 0.0 is falsy for DataRequired. */
  function PriceOk(price: Option<real>): (r: bool)
    ensures r <==> price.Some? && price.value >= MinPrice
  {
    price.Some? && price.value != 0.0 && price.value >= MinPrice
  }

  /** The extensions the product form's FileAllowed validator accepts. */
  const ImageExtensions: set<string> := {"jpg", "jpeg", "png"}

  /** FileAllowed(['jpg', 'jpeg', 'png']): the lower-cased file name ends in
      '.' followed by one of those extensions. An empty file name means no
      file, which passes. */
  predicate ImageOk(filename: string) {
    filename == "" || exists ext :: ext in ImageExtensions && EndsWith(Lower(filename), "." + ext)
  }

  predicate ProductFormOk(title: string, description: string, price: Option<real>, filename: string) {
    && DataRequired(title) && Length(title, MinTitle, MaxTitle)
    && DataRequired(description) && Length(description, MinDescription, MaxDescription)
    && PriceOk(price)
    && ImageOk(filename)
  }

  /** A product is accepted exactly when its title has 3 to 100 characters
      and its description 10 to 2000, neither blank, its price is present and
      at least 0.01, and its image, if any, is a jpg, jpeg or png. */
  lemma ProductFormRules(title: string, description: string, price: Option<real>, filename: string)
    ensures ProductFormOk(title, description, price, filename) <==>
      && HasText(title) && 3 <= |title| <= 100
      && HasText(description) && 10 <= |description| <= 2000
      && price.Some? && price.value >= 0.01
      && (filename == "" || exists ext :: ext in {"jpg", "jpeg", "png"} && EndsWith(Lower(filename), "." + ext))
  {
  }

  /** An accepted product form yields a row within the product bounds, with a
      price of at least 0.01, whatever image and shop it is stored with. */
  lemma ProductFormGivesValidRow(title: string, description: string, price: Option<real>,
                                 filename: string, image: Option<string>, shopId: nat)
    requires ProductFormOk(title, description, price, filename)
    ensures price.Some? && ProductRowOk(Product(title, description, price.value, image, shopId))
  {
  }

  /** Zero and negative prices are refused; the smallest accepted price is 0.01. */
  lemma PriceFloor()
    ensures !PriceOk(Some(0.0)) && !PriceOk(Some(-5.0)) && !PriceOk(None)
    ensures PriceOk(Some(0.01)) && !PriceOk(Some(0.009))
  {
  }

  // ---- CommentForm

  predicate CommentFormOk(text: string) {
    DataRequired(text) && Length(text, MinComment, MaxComment)
  }

  /** A comment is accepted exactly when it is not blank and has 10 to 500
      characters. */
  lemma CommentFormRules(text: string)
    ensures CommentFormOk(text) <==> HasText(text) && 10 <= |text| <= 500
  {
  }
}

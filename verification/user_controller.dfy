/**
  The account-lifecycle steps of the user controller: registration, the
  login gate and the refresh-slot write.  Each step is a pure function of
  the account store and the request; collaborators the controller calls
  out to (the image upload service, the password check) are parameters.
 */
module UserController {
  import opened Wrappers
  import opened JsString
  import opened AccountStore

  /** What a step throws: an `ApiError` with its HTTP status code and
      message, or a JavaScript runtime error the step does not catch. */
  datatype Error =
    | ApiError(statusCode: nat, message: string)
    | Uncaught(cause: string)

  const AllFieldsRequired := "All fields are required"
  const UserExists := "User with email or username already exists"
  const AvatarRequired := "Avatar file is required"
  const RegistrationFailed := "Something went wrong while registering user"
  const IdentifierRequired := "username or email is required"
  const UserMissing := "User doesn't exists!"
  const PasswordIncorrect := "Password incorrect"
  const TokenFailure := "Something went wrong while generationg access and refresh token"

  // ---------------------------------------------------------------- register

  /** The four text fields of a registration body; `None` is `undefined`. */
  datatype RegisterBody = RegisterBody(
    fullName: Option<string>,
    email: Option<string>,
    userName: Option<string>,
    password: Option<string>)

  /** One file the multipart parser stored; `path` is where it lies locally. */
  datatype UploadedFile = UploadedFile(path: Option<string>)

  /** `req.files` as the multipart parser fills it: one optional array per
      declared field. */
  datatype FileFields = FileFields(
    avatar: Option<seq<UploadedFile>>,
    coverImage: Option<seq<UploadedFile>>)

  /** A registration request; `files` is `None` when the request carried no
      multipart part at all. */
  datatype RegisterRequest = RegisterRequest(body: RegisterBody, files: Option<FileFields>)

  /** Reading a property chain either yields a value or throws. */
  datatype Access<T> = Threw | Read(value: T)

  /** The store after the step, and the sanitised record or the error. */
  datatype Registration = Registration(store: Store, result: Result<PublicAccount, Error>)

  /** `field?.trim() === ""`: a present string that is empty after
      trimming.  An absent field is not blank. */
  predicate IsBlank(field: Option<string>) {
    field.Some? && Trim(field.value) == ""
  }

  /** Some required field is blank. */
  predicate HasBlankField(b: RegisterBody) {
    IsBlank(b.fullName) || IsBlank(b.email) || IsBlank(b.userName) || IsBlank(b.password)
  }

  /** Some stored record already carries the supplied `userName` (exactly
      as supplied) or the supplied `email`. */
  predicate Conflicts(s: Store, b: RegisterBody) {
    exists i :: 0 <= i < |s.accounts| && MatchesEither(s.accounts[i], b.userName, b.email)
  }

  /** The request gets past the blank-field and the conflict checks. */
  predicate PassesIdentityChecks(s: Store, b: RegisterBody) {
    !HasBlankField(b) && !Conflicts(s, b)
  }

  /** `req.files?.avatar[0]?.path`: undefined when there is no `req.files`
      or no first avatar entry, and a thrown TypeError when `req.files`
      exists but has no `avatar` array to index. */
  function AvatarLocalPath(files: Option<FileFields>): (r: Access<Option<string>>)
    ensures r.Threw? <==> files.Some? && files.value.avatar.None?
    ensures files.None? ==> r == Read(None)
    ensures files.Some? && files.value.avatar == Some([]) ==> r == Read(None)
    ensures files.Some? && files.value.avatar.Some? && files.value.avatar.value != [] ==>
      r == Read(files.value.avatar.value[0].path)
    ensures r.Read? && r.value.Some? ==>
      files.Some? && files.value.avatar.Some? && files.value.avatar.value != []
      && r.value == files.value.avatar.value[0].path
  {
    match files
    case None => Read(None)
    case Some(f) =>
      match f.avatar
      case None => Threw
      case Some(entries) => if entries == [] then Read(None) else Read(entries[0].path)
  }

  /** The cover image path: the first `coverImage` entry's path when that
      array is present and non-empty, otherwise undefined. */
  function CoverImageLocalPath(files: Option<FileFields>): (r: Option<string>)
    ensures files.Some? && files.value.coverImage.Some? && files.value.coverImage.value != [] ==>
      r == files.value.coverImage.value[0].path
    ensures files.None? || files.value.coverImage.None? || files.value.coverImage.value == [] ==> r.None?
    ensures r.Some? ==>
      && files.Some? && files.value.coverImage.Some?
      && files.value.coverImage.value != [] && r == files.value.coverImage.value[0].path
  {
    if files.Some? && files.value.coverImage.Some? && |files.value.coverImage.value| > 0
    then files.value.coverImage.value[0].path
    else None
  }

  /** `coverImage?.url || ""`: the uploaded URL, or the empty string when
      the upload produced nothing. */
  function CoverUrl(upload: Option<string>): (url: string)
    ensures upload.None? ==> url == ""
    ensures upload.Some? ==> url == upload.value
  {
    if Truthy(upload) then upload.value else ""
  }

  /** The record registration creates from the request and the two upload
      URLs: `userName` lower-cased, the other text fields as given, and no
      refresh token. */
  predicate CreatedFrom(a: Account, b: RegisterBody, images: Images) {
    && b.userName.Some?
    && a.userName == ToLower(b.userName.value)
    && a.fullName == b.fullName && a.email == b.email && a.password == b.password
    && a.avatar == images.avatar && a.coverImage == images.coverImage
    && a.refreshToken.None?
  }

  /** The post-create re-fetch `findById(id).select("-password -refreshToken")`:
      the sanitised record, or a 500 when the store has no record under `id`. */
  function FetchCreated(s: Store, id: nat): (r: Result<PublicAccount, Error>)
    ensures r.Failure? <==> forall i :: 0 <= i < |s.accounts| ==> s.accounts[i].id != id
    ensures r.Failure? ==> r.error == ApiError(500, RegistrationFailed)
    ensures r.Success? ==>
      && r.value.id == id
      && exists a :: a in s.accounts && a.id == id && r.value == Redact(a)
  {
    match FindById(s, id)
    case None => Failure(ApiError(500, RegistrationFailed))
    case Some(a) => Success(Redact(a))
  }

  /** Steps 2 and 3 of `registerUser`: the blank-field check (400), then
      the conflict check (409); `None` lets the request through. */
  function CheckIdentity(s: Store, b: RegisterBody): (r: Option<Error>)
    ensures r == Some(ApiError(400, AllFieldsRequired)) <==> HasBlankField(b)
    ensures r == Some(ApiError(409, UserExists)) <==> !HasBlankField(b) && Conflicts(s, b)
    ensures r.None? <==> PassesIdentityChecks(s, b)
  {
    if HasBlankField(b) then Some(ApiError(400, AllFieldsRequired))
    else if FindOne(s, b.userName, b.email).Some? then Some(ApiError(409, UserExists))
    else None
  }

  /** The URLs a registration stores for its two images. */
  datatype Images = Images(avatar: string, coverImage: string)

  /** Steps 4 and 5 of `registerUser`: read the avatar path (TypeError when
      `req.files` has no avatar array), reject a falsy path (400), upload
      the avatar and the cover image, and reject a failed avatar upload
      (400).  The cover image is best effort. */
  function ResolveImages(files: Option<FileFields>, upload: Option<string> -> Option<string>): (r: Result<Images, Error>)
    ensures r.Failure? && r.error.Uncaught? <==> AvatarLocalPath(files).Threw?
    ensures r.Success? <==>
      && AvatarLocalPath(files).Read?
      && Truthy(AvatarLocalPath(files).value)
      && upload(AvatarLocalPath(files).value).Some?
    // The cover image never causes a failure; with no cover file and nothing
    // uploaded for `undefined`, the stored cover is "".
    ensures r.Success? && CoverImageLocalPath(files).None? && upload(None).None? ==> r.value.coverImage == ""
    ensures r == Failure(ApiError(400, AvatarRequired)) <==>
      && AvatarLocalPath(files).Read?
      && (!Truthy(AvatarLocalPath(files).value) || upload(AvatarLocalPath(files).value).None?)
    ensures r.Success? ==>
      && AvatarLocalPath(files).Read?
      && Truthy(AvatarLocalPath(files).value)
      && upload(AvatarLocalPath(files).value) == Some(r.value.avatar)
      && r.value.coverImage == CoverUrl(upload(CoverImageLocalPath(files)))
  {
    match AvatarLocalPath(files)
    case Threw => Failure(Uncaught("req.files.avatar is undefined"))
    case Read(avatarPath) =>
      if !Truthy(avatarPath) then Failure(ApiError(400, AvatarRequired))
      else
        var avatar := upload(avatarPath);
        var cover := upload(CoverImageLocalPath(files));
        if avatar.None? then Failure(ApiError(400, AvatarRequired))
        else Success(Images(avatar.value, CoverUrl(cover)))
  }

  /** Steps 6 and 7 of `registerUser`: lower-case the user name (TypeError
      when it is undefined), create the record, and re-fetch it without its
      secrets. */
  function CreateUser(s: Store, b: RegisterBody, images: Images): (r: Registration)
    ensures r.result.Failure? && r.result.error.Uncaught? <==> b.userName.None?
    ensures b.userName.Some? ==> r.result.Success?
    ensures r.result.Failure? ==> r.store == s
    ensures r.result.Success? ==>
      && |r.store.accounts| == |s.accounts| + 1
      && r.store.accounts[..|s.accounts|] == s.accounts
      && CreatedFrom(r.store.accounts[|s.accounts|], b, images)
      && (Valid(s) ==> r.result.value == Redact(r.store.accounts[|s.accounts|]))
    ensures r.result.Success? && Valid(s) ==> Valid(r.store) && r.result.value.id !in AccountIds(s)
  {
    if b.userName.None? then Registration(s, Failure(Uncaught("userName is undefined")))
    else
      var (s', user) := Create(s, b.fullName, b.email, ToLower(b.userName.value),
                               b.password, images.avatar, images.coverImage);
      assert s'.accounts[|s.accounts|] == user;
      assert s'.accounts[..|s.accounts|] == s.accounts;
      match FetchCreated(s', user.id)
      case Failure(e) => Registration(s', Failure(e))
      case Success(created) =>
        assert Valid(s) ==> created == Redact(user);
        Registration(s', Success(created))
  }

  /** `registerUser`: blank fields (400), an existing user name or email
      (409), the avatar path (TypeError, then 400), both uploads, the
      avatar upload (400), `userName.toLowerCase()` (TypeError), creation,
      and the sanitised re-fetch (500), in that order; the earliest failing
      check decides the error.  `upload` stands for the image upload
      service: it maps a local path, or `undefined`, to the URL of the
      stored image, or to nothing when the upload fails. */
  function Register(s: Store, req: RegisterRequest, upload: Option<string> -> Option<string>): (r: Registration)
    // Failures never touch the store.
    ensures r.result.Failure? ==> r.store == s
    // The blank-field check runs first and is the only source of its error.
    ensures r.result == Failure(ApiError(400, AllFieldsRequired)) <==> HasBlankField(req.body)
    // The conflict check comes next.
    ensures r.result == Failure(ApiError(409, UserExists)) <==> !HasBlankField(req.body) && Conflicts(s, req.body)
    // Then the avatar: no usable local path, or nothing back from the upload.
    ensures r.result == Failure(ApiError(400, AvatarRequired)) <==>
      && PassesIdentityChecks(s, req.body)
      && AvatarLocalPath(req.files).Read?
      && (!Truthy(AvatarLocalPath(req.files).value) || upload(AvatarLocalPath(req.files).value).None?)
    // Runtime errors: indexing a missing avatar array, lower-casing a missing user name.
    ensures r.result.Failure? && r.result.error.Uncaught? <==>
      && PassesIdentityChecks(s, req.body)
      && (|| AvatarLocalPath(req.files).Threw?
          || (&& Truthy(AvatarLocalPath(req.files).value)
              && upload(AvatarLocalPath(req.files).value).Some?
              && req.body.userName.None?))
    // A request that passes every check is registered.
    ensures r.result.Success? <==>
      && PassesIdentityChecks(s, req.body)
      && AvatarLocalPath(req.files).Read?
      && Truthy(AvatarLocalPath(req.files).value)
      && upload(AvatarLocalPath(req.files).value).Some?
      && req.body.userName.Some?
    // Success adds exactly one record built from the request and the uploads.
    ensures r.result.Success? ==>
      && PassesIdentityChecks(s, req.body)
      && |r.store.accounts| == |s.accounts| + 1
      && r.store.accounts[..|s.accounts|] == s.accounts
      && AvatarLocalPath(req.files).Read?
      && Truthy(AvatarLocalPath(req.files).value)
      && upload(AvatarLocalPath(req.files).value).Some?
      && CreatedFrom(r.store.accounts[|s.accounts|], req.body,
                     Images(upload(AvatarLocalPath(req.files).value).value,
                            CoverUrl(upload(CoverImageLocalPath(req.files)))))
    // The returned record is the new one without its secrets, under a fresh id.
    ensures r.result.Success? && Valid(s) ==>
      && r.result.value == Redact(r.store.accounts[|s.accounts|])
      && r.result.value.id !in AccountIds(s)
      && Valid(r.store)
  {
    match CheckIdentity(s, req.body)
    case Some(e) => Registration(s, Failure(e))
    case None =>
      match ResolveImages(req.files, upload)
      case Failure(e) => Registration(s, Failure(e))
      case Success(images) => CreateUser(s, req.body, images)
  }

  // ------------------------------------------------------------------- login

  /** The fields of a login body; `None` is `undefined`. */
  datatype LoginBody = LoginBody(email: Option<string>, userName: Option<string>, password: Option<string>)

  /** `loginUser` up to where it stops: both identifiers must be truthy
      (400), some record must match either of them (404), and the password
      check must accept the first match (401).  It returns the account that
      passed the gate and, having no store in its result, changes nothing.
      `passwordOk` stands for the record's password comparison. */
  function Login(s: Store, body: LoginBody, passwordOk: (Account, Option<string>) -> bool): (r: Result<Account, Error>)
    ensures r == Failure(ApiError(400, IdentifierRequired)) <==>
      !(Truthy(body.userName) && Truthy(body.email))
    ensures r == Failure(ApiError(404, UserMissing)) <==>
      && Truthy(body.userName) && Truthy(body.email)
      && forall i :: 0 <= i < |s.accounts| ==> !MatchesEither(s.accounts[i], body.userName, body.email)
    ensures r == Failure(ApiError(401, PasswordIncorrect)) <==>
      && Truthy(body.userName) && Truthy(body.email)
      && exists i :: IsFirstMatch(s, i, body.userName, body.email) && !passwordOk(s.accounts[i], body.password)
    ensures r.Success? <==>
      && Truthy(body.userName) && Truthy(body.email)
      && exists i :: IsFirstMatch(s, i, body.userName, body.email) && passwordOk(s.accounts[i], body.password)
    ensures r.Success? ==> exists i :: IsFirstMatch(s, i, body.userName, body.email) && s.accounts[i] == r.value
  {
    if !Truthy(body.userName) || !Truthy(body.email) then Failure(ApiError(400, IdentifierRequired))
    else match FindOne(s, body.userName, body.email)
      case None => Failure(ApiError(404, UserMissing))
      case Some(user) =>
        if !passwordOk(user, body.password) then Failure(ApiError(401, PasswordIncorrect))
        else Success(user)
  }

  // ----------------------------------------------------------- token issuing

  datatype TokenPair = TokenPair(accessToken: string, refreshToken: string)

  /** The store with the refresh slot written, and the issued pair. */
  datatype Issued = Issued(store: Store, tokens: TokenPair)

  /** `generateAccessAndRefreshTokens`: looks the user up by id, takes the
      two freshly signed tokens (`accessToken`, `refreshToken`, opaque
      here), stores the refresh token in the user's single slot and returns
      both.  A missing user makes the token calls throw, which the step
      turns into a 500. */
  function GenerateAccessAndRefreshTokens(s: Store, userId: nat, accessToken: string, refreshToken: string): (r: Result<Issued, Error>)
    ensures r.Failure? <==> forall i :: 0 <= i < |s.accounts| ==> s.accounts[i].id != userId
    ensures r.Failure? ==> r.error == ApiError(500, TokenFailure)
    ensures r.Success? ==> r.value.tokens == TokenPair(accessToken, refreshToken)
    // Reading the slot back yields the returned refresh token; the rest of the record is as before.
    ensures r.Success? ==> FindById(r.value.store, userId) == Some(FindById(s, userId).value.(refreshToken := Some(r.value.tokens.refreshToken)))
    // No other record and no other field changes.
    ensures r.Success? ==> r.value.store.nextId == s.nextId && |r.value.store.accounts| == |s.accounts|
    ensures r.Success? ==> forall i :: 0 <= i < |s.accounts| ==>
      r.value.store.accounts[i] == s.accounts[i].(refreshToken := r.value.store.accounts[i].refreshToken)
    ensures r.Success? ==> forall i :: 0 <= i < |s.accounts| && s.accounts[i].id != userId ==>
      r.value.store.accounts[i] == s.accounts[i]
  {
    match SetRefreshToken(s, userId, refreshToken)
    case None => Failure(ApiError(500, TokenFailure))
    case Some(s') => Success(Issued(s', TokenPair(accessToken, refreshToken)))
  }
}

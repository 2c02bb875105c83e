/**
  Properties that relate several controller steps, or a step and an
  invariant of the account store.
 */
module UserControllerProps {
  import opened Wrappers
  import opened JsString
  import opened AccountStore
  import opened UserController

  /** No two records share an email (an absent email counts as a value,
      since a null filter matches it). */
  predicate UniqueEmails(s: Store) {
    forall i, j :: 0 <= i < j < |s.accounts| ==> s.accounts[i].email != s.accounts[j].email
  }

  /** No two records share a user name. */
  predicate UniqueUserNames(s: Store) {
    forall i, j :: 0 <= i < j < |s.accounts| ==> s.accounts[i].userName != s.accounts[j].userName
  }

  /** A field is blank exactly when it is present and made of whitespace
      only; an absent field is never blank. */
  lemma BlankMeansWhitespaceOnly(field: Option<string>)
    ensures IsBlank(field) <==> field.Some? && AllTrimmable(field.value)
    ensures field.None? ==> !IsBlank(field)
  {
  }

  /** Whatever casing the request used, the stored and returned user name
      is its lower-case form and contains no upper-case letter. */
  lemma RegisterLowerCasesUserName(s: Store, req: RegisterRequest, upload: Option<string> -> Option<string>)
    ensures var r := Register(s, req, upload);
      r.result.Success? ==>
        && req.body.userName.Some?
        && r.store.accounts[|s.accounts|].userName == ToLower(req.body.userName.value)
        && IsLowerCase(r.store.accounts[|s.accounts|].userName)
  {
  }

  /** A successful registration leaves every present text field with a
      non-whitespace character in it. */
  lemma RegisteredFieldsAreNotBlank(s: Store, req: RegisterRequest, upload: Option<string> -> Option<string>)
    ensures var r := Register(s, req, upload);
      r.result.Success? ==>
        var a := r.store.accounts[|s.accounts|];
        && !AllTrimmable(req.body.userName.value)
        && !AllTrimmable(a.userName)
        && (a.email.Some? ==> !AllTrimmable(a.email.value))
        && (a.fullName.Some? ==> !AllTrimmable(a.fullName.value))
        && (a.password.Some? ==> !AllTrimmable(a.password.value))
  {
  }

  /** What a successful registration appends, in the terms the invariants
      below need: one record that matched nothing before, under the
      lower-cased user name and the given email. */
  lemma RegisteredRecord(s: Store, req: RegisterRequest, upload: Option<string> -> Option<string>)
    ensures var r := Register(s, req, upload);
      r.result.Success? ==>
        && |r.store.accounts| == |s.accounts| + 1
        && r.store.accounts == s.accounts + [r.store.accounts[|s.accounts|]]
        && (forall i :: 0 <= i < |s.accounts| ==> !MatchesEither(s.accounts[i], req.body.userName, req.body.email))
        && !HasBlankField(req.body)
        && req.body.userName.Some?
        && r.store.accounts[|s.accounts|].userName == ToLower(req.body.userName.value)
        && r.store.accounts[|s.accounts|].email == req.body.email
  {
    var r := Register(s, req, upload);
    if r.result.Success? {
      assert r.store.accounts == r.store.accounts[..|s.accounts|] + [r.store.accounts[|s.accounts|]];
    }
  }

  /** The 500 for a failed re-fetch never arises: the re-fetch looks up the
      id of the record just created, which is in the store. */
  lemma RegisterNeverFailsRefetch(s: Store, req: RegisterRequest, upload: Option<string> -> Option<string>)
    ensures Register(s, req, upload).result != Failure(ApiError(500, RegistrationFailed))
  {
  }

  /** Registration keeps emails unique: the conflict check compares the
      email exactly as it is then stored. */
  lemma RegisterPreservesUniqueEmails(s: Store, req: RegisterRequest, upload: Option<string> -> Option<string>)
    requires UniqueEmails(s)
    ensures UniqueEmails(Register(s, req, upload).store)
  {
    var r := Register(s, req, upload);
    if r.result.Success? {
      RegisteredRecord(s, req, upload);
      var a := r.store.accounts[|s.accounts|];
      assert forall i :: 0 <= i < |s.accounts| ==> s.accounts[i].email != a.email by {
        forall i | 0 <= i < |s.accounts| ensures s.accounts[i].email != a.email {
          assert !MatchesEither(s.accounts[i], req.body.userName, req.body.email);
        }
      }
      AppendFreshEmail(s, r.store, a);
    }
  }

  /** Appending a record whose email nobody has keeps emails unique. */
  lemma AppendFreshEmail(s: Store, s': Store, a: Account)
    requires UniqueEmails(s) && s'.accounts == s.accounts + [a]
    requires forall i :: 0 <= i < |s.accounts| ==> s.accounts[i].email != a.email
    ensures UniqueEmails(s')
  {
    forall i, j | 0 <= i < j < |s'.accounts| ensures s'.accounts[i].email != s'.accounts[j].email {
      assert s'.accounts[i] == s.accounts[i];
    }
  }

  /** Registration keeps user names unique when the requested user name is
      already lower case: the conflict check then compares the name as it
      will be stored. */
  lemma RegisterPreservesUniqueUserNames(s: Store, req: RegisterRequest, upload: Option<string> -> Option<string>)
    requires UniqueUserNames(s)
    requires req.body.userName.Some? ==> IsLowerCase(req.body.userName.value)
    ensures UniqueUserNames(Register(s, req, upload).store)
  {
    var r := Register(s, req, upload);
    if r.result.Success? {
      RegisteredRecord(s, req, upload);
      var a := r.store.accounts[|s.accounts|];
      assert a.userName == req.body.userName.value by {
        ToLowerFixedPoint(req.body.userName.value);
      }
      assert forall i :: 0 <= i < |s.accounts| ==> s.accounts[i].userName != a.userName by {
        forall i | 0 <= i < |s.accounts| ensures s.accounts[i].userName != a.userName {
          assert !MatchesEither(s.accounts[i], req.body.userName, req.body.email);
        }
      }
      AppendFreshUserName(s, r.store, a);
    }
  }

  /** Appending a record whose user name nobody has keeps user names unique. */
  lemma AppendFreshUserName(s: Store, s': Store, a: Account)
    requires UniqueUserNames(s) && s'.accounts == s.accounts + [a]
    requires forall i :: 0 <= i < |s.accounts| ==> s.accounts[i].userName != a.userName
    ensures UniqueUserNames(s')
  {
    forall i, j | 0 <= i < j < |s'.accounts| ensures s'.accounts[i].userName != s'.accounts[j].userName {
      assert s'.accounts[i] == s.accounts[i];
    }
  }

  // A store holding "annl", and a request registering "AnnL" under another email.
  const AnnStore := Store([Account(0, Some("Ann Lee"), Some("ann@x.com"), "annl", Some("p@ss"), "u0", "", None)], 1)
  const AnnLBody := RegisterBody(Some("Ann Lee"), Some("lee@x.com"), Some("AnnL"), Some("p@ss"))
  const AnnLFiles := FileFields(Some([UploadedFile(Some("a.png"))]), None)

  /** An upload service that accepts every path and answers "u1". */
  function UploadAll(p: Option<string>): Option<string> {
    if p.Some? then Some("u1") else None
  }

  lemma AnnLPassesIdentityChecks()
    ensures CheckIdentity(AnnStore, AnnLBody) == None
  {
    assert !HasBlankField(AnnLBody) by {
      assert !IsTrimmable("Ann Lee"[0]) && !IsTrimmable("lee@x.com"[0]);
      assert !IsTrimmable("AnnL"[0]) && !IsTrimmable("p@ss"[0]);
    }
    assert !MatchesEither(AnnStore.accounts[0], AnnLBody.userName, AnnLBody.email);
  }

  lemma AnnLImages()
    ensures ResolveImages(Some(AnnLFiles), UploadAll) == Success(Images("u1", ""))
  {
    assert AvatarLocalPath(Some(AnnLFiles)) == Read(Some("a.png"));
  }

  /** The conflict check compares the user name before lower-casing while
      the record stores it after: registering "AnnL" next to an existing
      "annl" succeeds and leaves two records named "annl". */
  lemma RegisterAdmitsCaseVariantOfUserName()
    ensures UniqueUserNames(AnnStore)
    ensures var r := Register(AnnStore, RegisterRequest(AnnLBody, Some(AnnLFiles)), UploadAll);
      && r.result.Success?
      && r.store.accounts[0].userName == r.store.accounts[1].userName == "annl"
      && !UniqueUserNames(r.store)
  {
    AnnLPassesIdentityChecks();
    AnnLImages();
    ToLowerMergesCase();
    var c := CreateUser(AnnStore, AnnLBody, Images("u1", ""));
    assert c.result.Success? && c.store.accounts[1].userName == "annl";
    assert Register(AnnStore, RegisterRequest(AnnLBody, Some(AnnLFiles)), UploadAll) == c;
  }

  /** When both identifiers are given, login judges the password against
      the earliest record matching either of them and no other. */
  lemma LoginChecksFirstMatch(s: Store, body: LoginBody, passwordOk: (Account, Option<string>) -> bool, i: nat)
    requires Truthy(body.userName) && Truthy(body.email)
    requires IsFirstMatch(s, i, body.userName, body.email)
    ensures Login(s, body, passwordOk)
      == if passwordOk(s.accounts[i], body.password) then Success(s.accounts[i])
         else Failure(ApiError(401, PasswordIncorrect))
  {
    assert FindOne(s, body.userName, body.email) == Some(s.accounts[i]);
  }

  /** Right after a registration that supplied an email, logging in with
      the same two identifiers finds the new record, whatever the casing
      of the requested user name: nothing stored earlier matched either
      identifier, and the new record matches through its email.  The
      password check alone decides the outcome. */
  lemma RegisterThenLogin(s: Store, req: RegisterRequest, upload: Option<string> -> Option<string>,
                          password: Option<string>, passwordOk: (Account, Option<string>) -> bool)
    ensures var r := Register(s, req, upload);
      r.result.Success? && req.body.email.Some? ==>
        var a := r.store.accounts[|s.accounts|];
        Login(r.store, LoginBody(req.body.email, req.body.userName, password), passwordOk)
          == if passwordOk(a, password) then Success(a) else Failure(ApiError(401, PasswordIncorrect))
  {
    var r := Register(s, req, upload);
    var u := req.body.userName;
    var e := req.body.email;
    if r.result.Success? && e.Some? {
      RegisteredRecord(s, req, upload);
      assert Truthy(u) && Truthy(e);
      var n := |s.accounts|;
      assert IsFirstMatch(r.store, n, u, e) by {
        forall j | 0 <= j < n ensures !MatchesEither(r.store.accounts[j], u, e) {
          assert r.store.accounts[j] == s.accounts[j];
        }
      }
      LoginChecksFirstMatch(r.store, LoginBody(e, u, password), passwordOk, n);
    }
  }

  /** A freshly registered account can be issued tokens straight away, and
      its refresh slot then holds the issued refresh token. */
  lemma RegisterThenIssueTokens(s: Store, req: RegisterRequest, upload: Option<string> -> Option<string>,
                                accessToken: string, refreshToken: string)
    ensures var r := Register(s, req, upload);
      Valid(s) && r.result.Success? ==>
        var t := GenerateAccessAndRefreshTokens(r.store, r.result.value.id, accessToken, refreshToken);
        && t.Success?
        && FindById(t.value.store, r.result.value.id)
           == Some(r.store.accounts[|s.accounts|].(refreshToken := Some(refreshToken)))
  {
    var r := Register(s, req, upload);
    if Valid(s) && r.result.Success? {
      var n := |s.accounts|;
      assert r.store.accounts[n].id == r.result.value.id;
      assert r.store.accounts[n] in r.store.accounts;
    }
  }

  /** The refresh slot holds one token: after two issues for the same user
      it holds the second, and the first is gone. */
  lemma IssueTwiceKeepsLatest(s: Store, userId: nat, access1: string, refresh1: string,
                              access2: string, refresh2: string)
    requires GenerateAccessAndRefreshTokens(s, userId, access1, refresh1).Success?
    ensures var t1 := GenerateAccessAndRefreshTokens(s, userId, access1, refresh1);
      var t2 := GenerateAccessAndRefreshTokens(t1.value.store, userId, access2, refresh2);
      && t2.Success?
      && FindById(t2.value.store, userId) == Some(FindById(s, userId).value.(refreshToken := Some(refresh2)))
  {
    var t1 := GenerateAccessAndRefreshTokens(s, userId, access1, refresh1);
    assert FindById(t1.value.store, userId).Some?;
  }

  /** Writing the refresh slot leaves the store valid and every identity
      field alone, so uniqueness of emails and user names survives it. */
  lemma IssuePreservesInvariants(s: Store, userId: nat, accessToken: string, refreshToken: string)
    ensures var t := GenerateAccessAndRefreshTokens(s, userId, accessToken, refreshToken);
      t.Success? ==>
        && (Valid(s) ==> Valid(t.value.store))
        && (UniqueEmails(s) ==> UniqueEmails(t.value.store))
        && (UniqueUserNames(s) ==> UniqueUserNames(t.value.store))
  {
  }
}

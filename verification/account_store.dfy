/**
  The account collection the controller reads and writes, seen as an
  immutable value.  Records keep insertion order.  Which of several
  matching documents a `findOne` returns is MongoDB's choice; the model
  takes the earliest inserted.  Ids are handed out from a counter,
  standing in for fresh document ids.
 */
module AccountStore {
  import opened Wrappers

  /** A stored user document.  `fullName`, `email` and `password` are kept
      exactly as the request supplied them, so each may be absent;
      `userName` is always present because creation lower-cases it. */
  datatype Account = Account(
    id: nat,
    fullName: Option<string>,
    email: Option<string>,
    userName: string,
    password: Option<string>,
    avatar: string,
    coverImage: string,
    refreshToken: Option<string>)

  /** A user document read with the projection "-password -refreshToken":
      the same record with its two secret fields left out. */
  datatype PublicAccount = PublicAccount(
    id: nat,
    fullName: Option<string>,
    email: Option<string>,
    userName: string,
    avatar: string,
    coverImage: string)

  datatype Store = Store(accounts: seq<Account>, nextId: nat)

  /** Ids are distinct and all below the counter, so the next id is fresh. */
  predicate Valid(s: Store) {
    && (forall i :: 0 <= i < |s.accounts| ==> s.accounts[i].id < s.nextId)
    && (forall i, j :: 0 <= i < j < |s.accounts| ==> s.accounts[i].id != s.accounts[j].id)
  }

  /** The ids in use. */
  function AccountIds(s: Store): set<nat> {
    set a | a in s.accounts :: a.id
  }

  /** The position of the first element of `xs` that satisfies `p`. */
  function FirstIndex<T>(xs: seq<T>, p: T -> bool): (r: Option<nat>)
    ensures r.Some? ==> r.value < |xs| && p(xs[r.value])
    ensures r.Some? ==> forall j :: 0 <= j < r.value ==> !p(xs[j])
    ensures r.None? <==> forall j :: 0 <= j < |xs| ==> !p(xs[j])
  {
    if xs == [] then None
    else if p(xs[0]) then Some(0)
    else match FirstIndex(xs[1..], p)
      case None => None
      case Some(k) => Some(k + 1)
  }

  /** The first satisfying position is determined by the sequence alone. */
  lemma FirstIndexAt<T>(xs: seq<T>, p: T -> bool, i: nat)
    requires i < |xs| && p(xs[i])
    requires forall j :: 0 <= j < i ==> !p(xs[j])
    ensures FirstIndex(xs, p) == Some(i)
  {
  }

  /** The position of the record `findById(id)` returns. */
  function IndexOfId(s: Store, id: nat): Option<nat> {
    FirstIndex(s.accounts, (a: Account) => a.id == id)
  }

  /** `findById`: the first record carrying `id`, if any. */
  function FindById(s: Store, id: nat): (r: Option<Account>)
    ensures r.None? <==> forall i :: 0 <= i < |s.accounts| ==> s.accounts[i].id != id
    ensures r.Some? ==> r.value.id == id && r.value in s.accounts
    ensures Valid(s) && r.Some? ==> forall a :: a in s.accounts && a.id == id ==> a == r.value
  {
    match IndexOfId(s, id)
    case None => None
    case Some(i) => Some(s.accounts[i])
  }

  /** The record matches the filter `{ $or: [{ userName }, { email }] }`.
      An absent filter value acts as a null filter, which only matches a
      record that lacks the field; every record has a `userName`. */
  predicate MatchesEither(a: Account, userName: Option<string>, email: Option<string>) {
    Some(a.userName) == userName || a.email == email
  }

  /** Record `i` is the earliest one matching the filter. */
  predicate IsFirstMatch(s: Store, i: int, userName: Option<string>, email: Option<string>) {
    && 0 <= i < |s.accounts|
    && MatchesEither(s.accounts[i], userName, email)
    && forall j :: 0 <= j < i ==> !MatchesEither(s.accounts[j], userName, email)
  }

  /** `findOne({ $or: [{ userName }, { email }] })`, taken to return the
      earliest inserted matching record, if any. */
  function FindOne(s: Store, userName: Option<string>, email: Option<string>): (r: Option<Account>)
    ensures r.None? <==> forall i :: 0 <= i < |s.accounts| ==> !MatchesEither(s.accounts[i], userName, email)
    ensures r.Some? ==> exists i :: IsFirstMatch(s, i, userName, email) && s.accounts[i] == r.value
    ensures r.Some? ==> forall i :: IsFirstMatch(s, i, userName, email) ==> s.accounts[i] == r.value
  {
    match FirstIndex(s.accounts, (a: Account) => MatchesEither(a, userName, email))
    case None => None
    case Some(i) => Some(s.accounts[i])
  }

  /** The projection "-password -refreshToken". */
  function Redact(a: Account): PublicAccount {
    PublicAccount(a.id, a.fullName, a.email, a.userName, a.avatar, a.coverImage)
  }

  /** The projection forgets exactly the two secret fields: two records
      have the same public view if and only if they agree on everything
      but `password` and `refreshToken`. */
  lemma RedactForgetsOnlySecrets(a: Account, b: Account)
    ensures Redact(a) == Redact(b) <==>
      a == b.(password := a.password, refreshToken := a.refreshToken)
  {
  }

  /** `create`: appends a record under a fresh id with an empty refresh
      slot and returns it; nothing already stored changes. */
  function Create(s: Store, fullName: Option<string>, email: Option<string>, userName: string,
                  password: Option<string>, avatar: string, coverImage: string): (r: (Store, Account))
    ensures r.0.accounts == s.accounts + [r.1] && r.0.nextId > s.nextId
    ensures r.1 == Account(r.1.id, fullName, email, userName, password, avatar, coverImage, None)
    ensures Valid(s) ==> Valid(r.0) && forall a :: a in s.accounts ==> a.id != r.1.id
  {
    var a := Account(s.nextId, fullName, email, userName, password, avatar, coverImage, None);
    (Store(s.accounts + [a], s.nextId + 1), a)
  }

  /** Writes `token` into the refresh slot of the record `findById(id)`
      returns, as `user.refreshToken = token; user.save()` does. */
  function SetRefreshToken(s: Store, id: nat, token: string): (r: Option<Store>)
    ensures r.None? <==> FindById(s, id).None?
    ensures r.Some? ==> FindById(r.value, id) == Some(FindById(s, id).value.(refreshToken := Some(token)))
    ensures r.Some? ==> r.value.nextId == s.nextId && |r.value.accounts| == |s.accounts|
    ensures r.Some? ==> forall i :: 0 <= i < |s.accounts| ==>
      r.value.accounts[i] == s.accounts[i].(refreshToken := r.value.accounts[i].refreshToken)
    ensures r.Some? ==> forall i :: 0 <= i < |s.accounts| && s.accounts[i].id != id ==>
      r.value.accounts[i] == s.accounts[i]
  {
    match IndexOfId(s, id)
    case None => None
    case Some(i) =>
      var accounts := s.accounts[i := s.accounts[i].(refreshToken := Some(token))];
      assert forall j :: 0 <= j < i ==> accounts[j] == s.accounts[j];
      FirstIndexAt(accounts, (a: Account) => a.id == id, i);
      Some(s.(accounts := accounts))
  }
}

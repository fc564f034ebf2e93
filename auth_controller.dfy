/** backend/controllers/authController.js: registration with an optional referral, login, and
    the profile, with the package status both of the latter derive from the ledger. Token
    signing and password hashing are outside the model; the password check is a boolean. */
module AuthController {
  import opened Outcomes
  import opened Ids
  import opened UserModel
  import T = TransactionModel
  import Ledger
  import opened Store

  const CodePrefix := "REF"

  /** Some user already holds referral code `code`. */
  predicate CodeTaken(users: seq<User>, code: string) {
    exists i :: 0 <= i < |users| && users[i].referralCode == code
  }

  /** The unique-code loop of register: draw after draw is tried, prefixed with REF, until
      one is held by no user. `draws` stands for the successive random strings. */
  method FreshReferralCode(users: seq<User>, draws: seq<string>) returns (code: string, attempts: nat)
    requires exists k :: 0 <= k < |draws| && !CodeTaken(users, CodePrefix + draws[k])
    ensures 1 <= attempts <= |draws| && code == CodePrefix + draws[attempts - 1]
    ensures !CodeTaken(users, code)
    ensures forall k :: 0 <= k < attempts - 1 ==> CodeTaken(users, CodePrefix + draws[k])
  {
    attempts := 0;
    var isUnique := false;
    code := "";
    while !isUnique
      invariant 0 <= attempts <= |draws|
      invariant forall k :: 0 <= k < attempts - 1 ==> CodeTaken(users, CodePrefix + draws[k])
      invariant isUnique ==> attempts >= 1 && code == CodePrefix + draws[attempts - 1] && !CodeTaken(users, code)
      invariant !isUnique ==> forall k :: 0 <= k < attempts ==> CodeTaken(users, CodePrefix + draws[k])
      decreases |draws| - attempts, !isUnique
    {
      code := CodePrefix + draws[attempts];
      attempts := attempts + 1;
      isUnique := !CodeTaken(users, code);
    }
  }

  /** `parseFloat(REFERRAL_BONUS) || 10`: an unset or unparsable setting (None) and a setting
      of 0 are both falsy and give 10. */
  function ReferralBonus(configured: Option<int>): (bonus: int)
    ensures bonus != 0
    ensures configured.None? ==> bonus == 10
    ensures configured.Some? ==> bonus == if configured.value == 0 then 10 else configured.value
  {
    match configured
    case None => 10
    case Some(v) => if v == 0 then 10 else v
  }

  /** The bonus is the default 10 exactly when the setting is absent, 0 or 10 itself: a
      configured 0 does not switch the bonus off. */
  lemma ZeroBonusIsTen(configured: Option<int>)
    ensures ReferralBonus(configured) == 10 <==> configured.None? || configured.value == 0 || configured.value == 10
  {
  }

  /** The first user whose field selected by `key` equals `value` (findOne). */
  function FindBy(users: seq<User>, key: User -> string, value: string): (r: Option<UserId>)
    ensures r.Some? ==> r.value < |users| && key(users[r.value]) == value
    ensures r.Some? ==> forall j :: 0 <= j < r.value ==> key(users[j]) != value
    ensures r.None? <==> forall j :: 0 <= j < |users| ==> key(users[j]) != value
    decreases |users|
  {
    if users == [] then None
    else if key(users[0]) == value then Some(0)
    else match FindBy(users[1..], key, value)
      case None => None
      case Some(k) => Some(k + 1)
  }

  /** The user register creates: a zero wallet and zero counters, no package, active and
      not an admin (the User schema's defaults). */
  function NewUser(username: string, email: string, code: string, referredBy: Option<UserId>, now: int): User {
    User(username, email, code, referredBy, Wallet(0, 0, 0), 0, 0, None, None, true, false, now)
  }

  /** The ledger entry crediting a referrer. */
  function BonusEntry(referrer: UserId, bonus: int, now: int): T.Transaction {
    T.Transaction(referrer, T.ReferralBonus, bonus, T.Completed, now, None, None, None, None)
  }

  /** An existing user has this email or this username. */
  predicate UserExistsWith(users: seq<User>, username: string, email: string) {
    exists i :: 0 <= i < |users| && (users[i].email == email || users[i].username == username)
  }

  /** register. Checked in order: no user with the email or the username, then a truthy
      referral code must belong to some user. The new user is appended with a fresh code;
      with a referrer, the referrer is credited the bonus and a completed entry records it. */
  method Register(db: Database, username: string, email: string, referralCode: Option<string>,
                  draws: seq<string>, bonusSetting: Option<int>, now: int) returns (r: Result<UserId>)
    requires db.Valid()
    requires exists k :: 0 <= k < |draws| && !CodeTaken(db.users, CodePrefix + draws[k])
    modifies db`users, db`ledger
    ensures db.Valid()
    ensures old(UserExistsWith(db.users, username, email)) ==> r == Err(UserExists)
    ensures !old(UserExistsWith(db.users, username, email)) && Truthy(referralCode) && !old(CodeTaken(db.users, referralCode.value))
            ==> r == Err(InvalidReferralCode)
    ensures r.Ok? <==> !old(UserExistsWith(db.users, username, email)) && (Truthy(referralCode) ==> old(CodeTaken(db.users, referralCode.value)))
    ensures r.Err? ==> db.users == old(db.users) && db.ledger == old(db.ledger)
    ensures r.Ok? ==> r.value == old(|db.users|) && |db.users| == old(|db.users|) + 1
    ensures r.Ok? ==>
      var code := db.users[r.value].referralCode;
      && CodePrefix <= code && !old(CodeTaken(db.users, code))
      && db.users[r.value] == NewUser(username, email, code,
           if Truthy(referralCode) then FindBy(old(db.users), (u: User) => u.referralCode, referralCode.value) else None, now)
    ensures r.Ok? && !Truthy(referralCode) ==> db.users[..old(|db.users|)] == old(db.users) && db.ledger == old(db.ledger)
    ensures r.Ok? && Truthy(referralCode) ==>
      var ref := FindBy(old(db.users), (u: User) => u.referralCode, referralCode.value).value;
      && db.users[..old(|db.users|)] == old(db.users)[ref := ReferralRewarded(old(db.users[ref]), ReferralBonus(bonusSetting))]
      && db.ledger == old(db.ledger) + [BonusEntry(ref, ReferralBonus(bonusSetting), now)]
    ensures old(db.Reconciled()) ==> db.Reconciled()
  {
    if exists i :: 0 <= i < |db.users| && (db.users[i].email == email || db.users[i].username == username) {
      return Err(UserExists);
    }
    var referrer: Option<UserId> := None;
    if Truthy(referralCode) {
      referrer := FindBy(db.users, (u: User) => u.referralCode, referralCode.value);
      if referrer.None? {
        return Err(InvalidReferralCode);
      }
    }
    var id := Enrol(db, username, email, referrer, draws, ReferralBonus(bonusSetting), now);
    r := Ok(id);
  }

  /** The writes of a registration that passed its checks: the new user with a fresh code,
      then the referrer's bonus when there is a referrer. */
  method Enrol(db: Database, username: string, email: string, referrer: Option<UserId>,
               draws: seq<string>, bonus: int, now: int) returns (id: UserId)
    requires db.Valid() && !UserExistsWith(db.users, username, email)
    requires referrer.Some? ==> referrer.value < |db.users|
    requires exists k :: 0 <= k < |draws| && !CodeTaken(db.users, CodePrefix + draws[k])
    modifies db`users, db`ledger
    ensures db.Valid()
    ensures id == old(|db.users|) && |db.users| == id + 1
    ensures var code := db.users[id].referralCode;
      && CodePrefix <= code && !old(CodeTaken(db.users, code))
      && db.users[id] == NewUser(username, email, code, referrer, now)
    ensures referrer.None? ==> db.users[..id] == old(db.users) && db.ledger == old(db.ledger)
    ensures referrer.Some? ==>
      && db.users[..id] == old(db.users)[referrer.value := ReferralRewarded(old(db.users[referrer.value]), bonus)]
      && db.ledger == old(db.ledger) + [BonusEntry(referrer.value, bonus, now)]
    ensures old(db.Reconciled()) ==> db.Reconciled()
  {
    var code, _ := FreshReferralCode(db.users, draws);
    ghost var U := db.users;
    AddUser(db, NewUser(username, email, code, referrer, now));
    id := |db.users| - 1;
    if referrer.Some? {
      CreditReferrer(db, referrer.value, bonus, now);
      assert db.users[..|U|] == U[referrer.value := ReferralRewarded(U[referrer.value], bonus)];
    } else {
      assert db.users[..|U|] == U;
    }
  }

  /** Appends a user with a zero wallet, new unique fields and valid references. */
  method AddUser(db: Database, user: User)
    requires db.Valid()
    requires forall i :: 0 <= i < |db.users| ==> db.users[i].referralCode != user.referralCode && db.users[i].email != user.email && db.users[i].username != user.username
    requires user.currentPackage.None? && (user.referredBy.Some? ==> user.referredBy.value < |db.users|)
    requires user.wallet.balance == 0
    modifies db`users
    ensures db.Valid()
    ensures db.users == old(db.users) + [user]
    ensures old(db.Reconciled()) ==> db.Reconciled()
  {
    ghost var U, L := db.users, db.ledger;
    AppendUserKeepsValid(db.users, |db.packages|, user);
    db.users := db.users + [user];
    forall i | 0 <= i < |L| ensures L[i].user != |U| { }
    Ledger.LedgerBalanceAbsent(L, |U|);
  }

  /** The referrer's side of a referral: the bonus is credited and recorded. */
  method CreditReferrer(db: Database, ref: UserId, bonus: int, now: int)
    requires db.Valid() && ref < |db.users|
    modifies db`users, db`ledger
    ensures db.Valid()
    ensures db.users == old(db.users)[ref := ReferralRewarded(old(db.users[ref]), bonus)]
    ensures db.ledger == old(db.ledger) + [BonusEntry(ref, bonus, now)]
    ensures old(db.Reconciled()) ==> db.Reconciled()
  {
    ghost var L := db.ledger;
    SetUserKeepsValid(db.users, |db.packages|, ref, ReferralRewarded(db.users[ref], bonus));
    db.users := db.users[ref := ReferralRewarded(db.users[ref], bonus)];
    var entry := BonusEntry(ref, bonus, now);
    db.ledger := db.ledger + [entry];
    forall v | 0 <= v < |db.users|
      ensures Ledger.LedgerBalance(db.ledger, v) == Ledger.LedgerBalance(L, v) + (if v == ref then bonus else 0)
    {
      Ledger.LedgerBalanceAppend(L, entry, v);
    }
  }

  /** The package status shown to a user. */
  datatype PackageStatus = AwaitingApproval | Approved

  /** What login and getProfile report about the user's package: while a pending purchase
      entry for it exists the package is shown as pending rather than current. */
  datatype PackageView = PackageView(
    currentPackage: Option<PackageId>,
    pendingPackage: Option<PackageId>,
    packageStatus: Option<PackageStatus>)

  function PackageViewOf(ledger: seq<T.Transaction>, uid: UserId, current: Option<PackageId>): (v: PackageView)
    ensures current.None? <==> v.packageStatus.None?
    ensures current.None? ==> v.currentPackage.None? && v.pendingPackage.None?
    ensures current.Some? ==>
      var pending := exists i :: 0 <= i < |ledger| && Ledger.Matches(Ledger.PendingPurchase(uid, current.value), ledger[i]);
      && (v.packageStatus == Some(AwaitingApproval) <==> pending)
      && (pending ==> v.currentPackage.None? && v.pendingPackage == current)
      && (!pending ==> v.currentPackage == current && v.pendingPackage.None? && v.packageStatus == Some(Approved))
  {
    match current
    case None => PackageView(None, None, None)
    case Some(p) =>
      if Ledger.FirstMatch(ledger, Ledger.PendingPurchase(uid, p)).Some? then PackageView(None, current, Some(AwaitingApproval))
      else PackageView(current, None, Some(Approved))
  }

  /** The response of login and getProfile, without the token and the password hash. */
  datatype Profile = Profile(id: UserId, user: User, view: PackageView)

  /** login. Checked in order: a user with the email exists, the password matches (both
      refused as invalid credentials), the account is active. */
  function Login(users: seq<User>, ledger: seq<T.Transaction>, email: string, passwordMatches: UserId -> bool): (r: Result<Profile>)
    ensures FindBy(users, (u: User) => u.email, email).None? ==> r == Err(InvalidCredentials)
    ensures r.Ok? <==>
      var found := FindBy(users, (u: User) => u.email, email);
      found.Some? && passwordMatches(found.value) && users[found.value].isActive
    ensures r.Err? ==> r.error == InvalidCredentials || r.error == AccountDeactivated
    ensures r.Err? && r.error == AccountDeactivated ==>
      var found := FindBy(users, (u: User) => u.email, email);
      found.Some? && passwordMatches(found.value) && !users[found.value].isActive
    ensures r.Ok? ==> r.value.id < |users| && users[r.value.id].email == email && r.value.user == users[r.value.id]
    ensures r.Ok? ==> r.value.view == PackageViewOf(ledger, r.value.id, users[r.value.id].currentPackage)
    ensures var found := FindBy(users, (u: User) => u.email, email);
      found.Some? && !passwordMatches(found.value) ==> r == Err(InvalidCredentials)
    ensures var found := FindBy(users, (u: User) => u.email, email);
      found.Some? && passwordMatches(found.value) && !users[found.value].isActive ==> r == Err(AccountDeactivated)
  {
    match FindBy(users, (u: User) => u.email, email)
    case None => Err(InvalidCredentials)
    case Some(i) =>
      if !passwordMatches(i) then Err(InvalidCredentials)
      else if !users[i].isActive then Err(AccountDeactivated)
      else Ok(Profile(i, users[i], PackageViewOf(ledger, i, users[i].currentPackage)))
  }

  /** getProfile for the authenticated user. */
  function GetProfile(users: seq<User>, ledger: seq<T.Transaction>, uid: UserId): (r: Profile)
    requires uid < |users|
    ensures r.id == uid && r.user == users[uid]
    ensures r.view == PackageViewOf(ledger, uid, users[uid].currentPackage)
  {
    Profile(uid, users[uid], PackageViewOf(ledger, uid, users[uid].currentPackage))
  }

  /** login and getProfile derive the same package view for the same user. */
  lemma LoginMatchesProfile(users: seq<User>, ledger: seq<T.Transaction>, email: string, passwordMatches: UserId -> bool)
    requires Login(users, ledger, email, passwordMatches).Ok?
    ensures Login(users, ledger, email, passwordMatches).value == GetProfile(users, ledger, Login(users, ledger, email, passwordMatches).value.id)
  {
  }
}
